/** The stream target: objects streamed into the store become `INSERT OR
    REPLACE` statements, the parent row first, then its tags, way nodes or
    relation members. The model records the statements executed, in order,
    with the values bound to their parameters; a null value stays `None`. */
module StreamTarget {
  import opened Wrappers
  import opened Osm
  import opened Rows
  import opened SqlExtensions
  import opened Snapshot

  /** The metadata columns of a parent row as bound: `id`, `changeset_id`,
      `visible`, `timestamp` (Unix time), `version`, `usr`, `usr_id`. */
  datatype Columns = Columns(
    id: Option<int>,
    changesetId: Option<int>,
    visible: Option<bool>,
    timestamp: Option<int>,
    version: Option<int>,
    userName: Option<string>,
    userId: Option<int>)

  /** One executed statement. `table` says which of the three tag tables an
      `InsertTag` writes. */
  datatype Statement =
    | InsertNode(columns: Columns, latitude: int, longitude: int, tile: int)
    | InsertWay(columns: Columns)
    | InsertRelation(columns: Columns)
    | InsertTag(table: OsmGeoType, owner: Option<int>, key: string, value: string)
    | InsertWayNode(owner: Option<int>, nodeId: int, sequenceId: int)
    | InsertMember(owner: Option<int>, memberType: Option<int>, memberId: int, role: string, sequenceId: int)
  {
    predicate IsParent() {
      InsertNode? || InsertWay? || InsertRelation?
    }
  }

  // ---------------------------------------------------------------------------
  // The two conversions.

  /** `ConvertMemberType`: null stays null, a type becomes its integer. */
  function ConvertMemberType(t: Option<OsmGeoType>): (r: Option<int>)
    ensures r.None? <==> t.None?
    ensures r.Some? ==> 0 <= r.value <= 2
    // the stored integer identifies the member type
    ensures r == Some(0) <==> t == Some(NodeType)
    ensures r == Some(1) <==> t == Some(WayType)
    ensures r == Some(2) <==> t == Some(RelationType)
  {
    if t.Some? then Some(TypeCode(t.value)) else None
  }

  /** `ConvertDateTime`: null stays null, a time becomes Unix time by
      `toUnixTime`, which this model takes as given. */
  function ConvertDateTime(t: Option<int>, toUnixTime: int -> int): (r: Option<int>)
    ensures r.None? <==> t.None?
    ensures r.Some? ==> r.value == toUnixTime(t.value)
  {
    if t.Some? then Some(toUnixTime(t.value)) else None
  }

  function ColumnsOf(m: Meta, toUnixTime: int -> int): Columns {
    Columns(m.id, m.changeSetId, m.visible, ConvertDateTime(m.timeStamp, toUnixTime),
            m.version, m.userName, m.userId)
  }

  // ---------------------------------------------------------------------------
  // The statements of one object.

  /** One tag insert per tag, in order. */
  function TagStatements(table: OsmGeoType, owner: Option<int>, tags: seq<Tag>): (s: seq<Statement>)
  {
    seq(|tags|, k requires 0 <= k < |tags| => InsertTag(table, owner, tags[k].key, tags[k].value))
  }

  /** The way tag inserts: tags with an empty key are skipped. */
  function WayTagStatements(owner: Option<int>, tags: seq<Tag>): (s: seq<Statement>)
  {
    if tags == [] then []
    else
      var n := |tags| - 1;
      WayTagStatements(owner, tags[..n])
        + (if tags[n].key != "" then [InsertTag(WayType, owner, tags[n].key, tags[n].value)] else [])
  }

  /** The way tags that are written: those with a key, in order. */
  function KeyedTags(tags: seq<Tag>): (r: seq<Tag>)
    ensures |r| <= |tags|
    ensures forall k :: 0 <= k < |r| ==> r[k].key != ""
  {
    if tags == [] then []
    else
      var n := |tags| - 1;
      KeyedTags(tags[..n]) + (if tags[n].key != "" then [tags[n]] else [])
  }

  /** A tag is written exactly when it is one of the way's tags and has a key. */
  lemma {:induction false} KeyedTagsMembers(tags: seq<Tag>, t: Tag)
    ensures t in KeyedTags(tags) <==> t in tags && t.key != ""
  {
    if tags != [] {
      var n := |tags| - 1;
      KeyedTagsMembers(tags[..n], t);
      assert tags == tags[..n] + [tags[n]];
    }
  }

  /** The way tag inserts are the tag inserts of the keyed tags. */
  lemma {:induction false} WayTagsAreKeyedTags(owner: Option<int>, tags: seq<Tag>)
    ensures WayTagStatements(owner, tags) == TagStatements(WayType, owner, KeyedTags(tags))
  {
    if tags != [] {
      var n := |tags| - 1;
      WayTagsAreKeyedTags(owner, tags[..n]);
      var last := if tags[n].key != "" then [tags[n]] else [];
      assert TagStatements(WayType, owner, KeyedTags(tags[..n]) + last)
          == TagStatements(WayType, owner, KeyedTags(tags[..n])) + TagStatements(WayType, owner, last);
    }
  }

  /** When every tag has a key, the way's tags are written unfiltered. */
  lemma {:induction false} KeyedTagsAllKeyed(tags: seq<Tag>)
    requires forall k :: 0 <= k < |tags| ==> tags[k].key != ""
    ensures KeyedTags(tags) == tags
  {
    if tags != [] {
      var n := |tags| - 1;
      KeyedTagsAllKeyed(tags[..n]);
      assert tags[..n] + [tags[n]] == tags;
    }
  }

  /** Way node `n` is `(id, nodes[n], n)`. */
  function WayNodeStatements(owner: Option<int>, nodes: seq<int>): (s: seq<Statement>)
  {
    seq(|nodes|, k requires 0 <= k < |nodes| => InsertWayNode(owner, nodes[k], k))
  }

  /** Member `n` is `(id, type, member id, role, n)`; the member's type is held
      as its enumeration integer, which is what `ConvertMemberType` binds. */
  function MemberStatements(owner: Option<int>, members: seq<RelationMember>): (s: seq<Statement>)
  {
    seq(|members|, k requires 0 <= k < |members| =>
      InsertMember(owner, Some(members[k].memberType), members[k].id, members[k].role, k))
  }

  /** A member whose type is `t` is stored with `ConvertMemberType(t)` in the
      `member_type` column. */
  lemma MemberTypeColumn(owner: Option<int>, members: seq<RelationMember>, k: nat, t: OsmGeoType)
    requires k < |members| && members[k].memberType == TypeCode(t)
    ensures MemberStatements(owner, members)[k].memberType == ConvertMemberType(Some(t))
  {
  }

  /** `AddNode`: a node without both coordinates is rejected before anything
      runs; otherwise its row (`tile` the tile around the position), then its tags. */
  function AddNodeSpec(n: OsmGeo, tile: (int, int) -> int, toUnixTime: int -> int): (r: Result<seq<Statement>, Error>)
    requires n.Node?
    ensures r.Failure? <==> n.latitude.None? || n.longitude.None?
    ensures r.Failure? ==> r.error == ArgumentOutOfRange
  {
    if n.latitude.None? || n.longitude.None? then Failure(ArgumentOutOfRange)
    else
      var lat, lon := n.latitude.value, n.longitude.value;
      Success([InsertNode(ColumnsOf(n.meta, toUnixTime), lat, lon, tile(lat, lon))]
              + TagStatements(NodeType, n.meta.id, Present(n.tags)))
  }

  /** `AddWay`: its row, its keyed tags, then its nodes. */
  function AddWaySpec(w: OsmGeo, toUnixTime: int -> int): (s: seq<Statement>)
    requires w.Way?
  {
    [InsertWay(ColumnsOf(w.meta, toUnixTime))]
      + WayTagStatements(w.meta.id, Present(w.tags))
      + WayNodeStatements(w.meta.id, Present(w.nodes))
  }

  /** `AddRelation`: its row, its tags, then its members. */
  function AddRelationSpec(rel: OsmGeo, toUnixTime: int -> int): (s: seq<Statement>)
    requires rel.Relation?
  {
    [InsertRelation(ColumnsOf(rel.meta, toUnixTime))]
      + TagStatements(RelationType, rel.meta.id, Present(rel.tags))
      + MemberStatements(rel.meta.id, Present(rel.members))
  }

  // ---------------------------------------------------------------------------
  // What the statements of one object are.

  /** The parent row runs exactly once, first; every later statement is a
      child row of the object's id. */
  predicate ParentFirst(s: seq<Statement>, id: Option<int>) {
    && |s| >= 1 && s[0].IsParent()
    && forall k :: 1 <= k < |s| ==> !s[k].IsParent() && s[k].owner == id
  }

  lemma AddNodeParentFirst(n: OsmGeo, tile: (int, int) -> int, toUnixTime: int -> int)
    requires n.Node? && n.latitude.Some? && n.longitude.Some?
    ensures ParentFirst(AddNodeSpec(n, tile, toUnixTime).value, n.meta.id)
    ensures |AddNodeSpec(n, tile, toUnixTime).value| == 1 + |Present(n.tags)|
  {
  }

  lemma AddWayParentFirst(w: OsmGeo, toUnixTime: int -> int)
    requires w.Way?
    ensures ParentFirst(AddWaySpec(w, toUnixTime), w.meta.id)
    ensures |AddWaySpec(w, toUnixTime)| == 1 + |KeyedTags(Present(w.tags))| + |Present(w.nodes)|
  {
    WayTagsAreKeyedTags(w.meta.id, Present(w.tags));
  }

  lemma AddRelationParentFirst(rel: OsmGeo, toUnixTime: int -> int)
    requires rel.Relation?
    ensures ParentFirst(AddRelationSpec(rel, toUnixTime), rel.meta.id)
    ensures |AddRelationSpec(rel, toUnixTime)| == 1 + |Present(rel.tags)| + |Present(rel.members)|
  {
  }

  /** A child statement of an object with an id, binding every value. */
  predicate Bound(st: Statement) {
    && !st.IsParent() && st.owner.Some?
    && (st.InsertMember? ==> st.memberType.Some?)
  }

  /** The child row a child statement inserts. */
  function RowOf(st: Statement): (row: ChildRow)
    requires Bound(st)
    ensures row.owner == st.owner.value
  {
    if st.InsertTag? then TagRow(st.owner.value, st.key, st.value)
    else if st.InsertWayNode? then WayNodeRow(st.owner.value, st.nodeId, st.sequenceId)
    else MemberRow(st.owner.value, st.memberId, st.memberType.value, st.role, st.sequenceId)
  }

  /** The child rows a run of child statements inserts. */
  function RowsOf(s: seq<Statement>): (rows: seq<ChildRow>)
    requires forall k :: 0 <= k < |s| ==> Bound(s[k])
    ensures |rows| == |s|
  {
    seq(|s|, k requires 0 <= k < |s| && Bound(s[k]) => RowOf(s[k]))
  }

  /** The tag inserts are the rows `AddOrUpdate` stores for the tags, and
      reading them back gives the tags in order. */
  lemma TagStatementsReadBack(t: OsmGeoType, g: OsmGeo, id: int, tags: seq<Tag>)
    requires g.meta.id == Some(id) && g.tags.None?
    ensures var s := TagStatements(t, g.meta.id, tags);
      && (forall k :: 0 <= k < |s| ==> Bound(s[k]))
      && RowsOf(s) == TagRowsOf(id, tags)
      && ReadTagsInto(RowsOf(s), g) == Success(g.(tags := NonEmpty(Some(tags))))
  {
    TagsReadBack(id, tags, g);
  }

  /** The way tag inserts read back as the way's keyed tags. */
  lemma WayTagStatementsReadBack(w: OsmGeo, id: int, tags: seq<Tag>)
    requires w.meta.id == Some(id) && w.tags.None?
    ensures var s := WayTagStatements(w.meta.id, tags);
      && (forall k :: 0 <= k < |s| ==> Bound(s[k]))
      && RowsOf(s) == TagRowsOf(id, KeyedTags(tags))
      && ReadTagsInto(RowsOf(s), w) == Success(w.(tags := NonEmpty(Some(KeyedTags(tags)))))
  {
    WayTagsAreKeyedTags(w.meta.id, tags);
    TagStatementsReadBack(WayType, w, id, KeyedTags(tags));
  }

  /** The way node inserts are the rows `AddOrUpdate` stores, and reading
      them back gives the way's nodes in order. */
  lemma WayNodeStatementsReadBack(w: OsmGeo, id: int, nodes: seq<int>)
    requires w.Way? && w.meta.id == Some(id) && w.nodes.None?
    ensures var s := WayNodeStatements(w.meta.id, nodes);
      && (forall k :: 0 <= k < |s| ==> Bound(s[k]))
      && RowsOf(s) == WayNodeRowsOf(id, nodes)
      && ReadNodesInto(RowsOf(s), w) == Success(w.(nodes := NonEmpty(Some(nodes))))
  {
    NodesReadBack(id, nodes, w);
  }

  /** The member inserts are the rows `AddOrUpdate` stores, and reading them
      back gives the relation's members in order. */
  lemma MemberStatementsReadBack(rel: OsmGeo, id: int, members: seq<RelationMember>)
    requires rel.Relation? && rel.meta.id == Some(id) && rel.members.None?
    ensures var s := MemberStatements(rel.meta.id, members);
      && (forall k :: 0 <= k < |s| ==> Bound(s[k]))
      && RowsOf(s) == MemberRowsOf(id, members)
      && ReadMembersInto(RowsOf(s), rel) == Success(rel.(members := NonEmpty(Some(members))))
  {
    MembersReadBack(id, members, rel);
  }

  // ---------------------------------------------------------------------------
  // The target.

  class SnapshotDbStreamTarget {
    /** The statements executed so far, in order. */
    var executed: seq<Statement>
    /** The tile around a position, at the default zoom level. */
    const tile: (int, int) -> int
    const toUnixTime: int -> int

    constructor (tile: (int, int) -> int, toUnixTime: int -> int)
      ensures executed == [] && this.tile == tile && this.toUnixTime == toUnixTime
    {
      executed := [];
      this.tile := tile;
      this.toUnixTime := toUnixTime;
    }

    method AddNode(n: OsmGeo) returns (r: Result<(), Error>)
      requires n.Node?
      modifies this
      ensures var spec := AddNodeSpec(n, tile, toUnixTime);
        && (r.Success? <==> spec.Success?)
        && (spec.Failure? ==> r == Failure(spec.error) && executed == old(executed))
        && (spec.Success? ==> executed == old(executed) + spec.value)
    {
      if n.latitude.None? || n.longitude.None? {
        return Failure(ArgumentOutOfRange);
      }
      var lat, lon := n.latitude.value, n.longitude.value;
      executed := executed + [InsertNode(ColumnsOf(n.meta, toUnixTime), lat, lon, tile(lat, lon))];
      if n.tags.Some? {
        var s := ExecuteTags(NodeType, n.meta.id, n.tags.value);
        executed := executed + s;
      } else {
        assert TagStatements(NodeType, n.meta.id, []) == [];
      }
      r := Success(());
    }

    method AddWay(w: OsmGeo)
      requires w.Way?
      modifies this
      ensures executed == old(executed) + AddWaySpec(w, toUnixTime)
    {
      var id := w.meta.id;
      executed := executed + [InsertWay(ColumnsOf(w.meta, toUnixTime))];
      if w.tags.Some? {
        var s := ExecuteWayTags(id, w.tags.value);
        executed := executed + s;
      }
      if w.nodes.Some? {
        var s := ExecuteWayNodes(id, w.nodes.value);
        executed := executed + s;
      } else {
        assert WayNodeStatements(id, []) == [];
      }
    }

    method AddRelation(rel: OsmGeo)
      requires rel.Relation?
      modifies this
      ensures executed == old(executed) + AddRelationSpec(rel, toUnixTime)
    {
      var id := rel.meta.id;
      executed := executed + [InsertRelation(ColumnsOf(rel.meta, toUnixTime))];
      if rel.tags.Some? {
        var s := ExecuteTags(RelationType, id, rel.tags.value);
        executed := executed + s;
      } else {
        assert TagStatements(RelationType, id, []) == [];
      }
      if rel.members.Some? {
        var s := ExecuteMembers(id, rel.members.value);
        executed := executed + s;
      } else {
        assert MemberStatements(id, []) == [];
      }
    }
  }

  /** The `foreach` over the tags of a node or relation. */
  method ExecuteTags(table: OsmGeoType, owner: Option<int>, tags: seq<Tag>) returns (s: seq<Statement>)
    ensures s == TagStatements(table, owner, tags)
  {
    s := [];
    for k := 0 to |tags|
      invariant s == TagStatements(table, owner, tags[..k])
    {
      assert TagStatements(table, owner, tags[..k + 1])
          == TagStatements(table, owner, tags[..k]) + [InsertTag(table, owner, tags[k].key, tags[k].value)];
      s := s + [InsertTag(table, owner, tags[k].key, tags[k].value)];
    }
    assert tags[..|tags|] == tags;
  }

  /** The `foreach` over the tags of a way, skipping an empty key. */
  method ExecuteWayTags(owner: Option<int>, tags: seq<Tag>) returns (s: seq<Statement>)
    ensures s == WayTagStatements(owner, tags)
  {
    s := [];
    for k := 0 to |tags|
      invariant s == WayTagStatements(owner, tags[..k])
    {
      assert tags[..k + 1][..k] == tags[..k];
      if tags[k].key != "" {
        s := s + [InsertTag(WayType, owner, tags[k].key, tags[k].value)];
      }
    }
    assert tags[..|tags|] == tags;
  }

  /** The `for` over the nodes of a way. */
  method ExecuteWayNodes(owner: Option<int>, nodes: seq<int>) returns (s: seq<Statement>)
    ensures s == WayNodeStatements(owner, nodes)
  {
    s := [];
    for k := 0 to |nodes|
      invariant s == WayNodeStatements(owner, nodes[..k])
    {
      assert WayNodeStatements(owner, nodes[..k + 1])
          == WayNodeStatements(owner, nodes[..k]) + [InsertWayNode(owner, nodes[k], k)];
      s := s + [InsertWayNode(owner, nodes[k], k)];
    }
    assert nodes[..|nodes|] == nodes;
  }

  /** The `for` over the members of a relation. */
  method ExecuteMembers(owner: Option<int>, members: seq<RelationMember>) returns (s: seq<Statement>)
    ensures s == MemberStatements(owner, members)
  {
    s := [];
    for k := 0 to |members|
      invariant s == MemberStatements(owner, members[..k])
    {
      var m := members[k];
      assert MemberStatements(owner, members[..k + 1])
          == MemberStatements(owner, members[..k]) + [InsertMember(owner, Some(m.memberType), m.id, m.role, k)];
      s := s + [InsertMember(owner, Some(m.memberType), m.id, m.role, k)];
    }
    assert members[..|members|] == members;
  }
}
