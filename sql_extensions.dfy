/** Entity builders and child-group readers: a reader over a child table sorted
    by owner is positioned on the first row of an entity's group; the readers
    consume that group and stop on the first row of another owner. */
module SqlExtensions {
  import opened Wrappers
  import opened Osm
  import opened Rows

  // ---------------------------------------------------------------------------
  // Entity builders.

  /** `BuildOsmGeo`: the metadata columns of `row`, copied one for one onto `g`;
      nothing else of `g` changes. */
  function BuildOsmGeo(row: EntityRow, g: OsmGeo): (r: OsmGeo)
    ensures r.GeoType() == g.GeoType() && r.tags == g.tags
    ensures r.meta.id == Some(row.id) && r.meta.version == Some(row.version)
    ensures r.meta.changeSetId == Some(row.changesetId) && r.meta.timeStamp == Some(row.timestamp)
    ensures r.meta.userId == Some(row.userId) && r.meta.userName == row.userName
    ensures r.meta.visible == Some(row.visible)
    ensures r.Node? ==> r.latitude == g.latitude && r.longitude == g.longitude
    ensures r.Way? ==> r.nodes == g.nodes
    ensures r.Relation? ==> r.members == g.members
  {
    g.(meta := Meta(Some(row.id), Some(row.version), Some(row.changesetId), Some(row.timestamp),
                    Some(row.userId), row.userName, Some(row.visible)))
  }

  /** `BuildNode`: a new node with the row's metadata and coordinates, no tags. */
  function BuildNode(row: NodeRow): (r: OsmGeo)
    ensures r.Node? && r.tags.None?
    ensures r.latitude == Some(row.latitude) && r.longitude == Some(row.longitude)
    ensures r.meta.id == Some(row.entity.id) && r.meta.version == Some(row.entity.version)
  {
    BuildOsmGeo(row.entity, Node(EmptyMeta, None, Some(row.latitude), Some(row.longitude)))
  }

  /** `BuildWay`: a new way with the row's metadata, no tags and no nodes. */
  function BuildWay(row: EntityRow): (r: OsmGeo)
    ensures r.Way? && r.tags.None? && r.nodes.None?
    ensures r.meta.id == Some(row.id) && r.meta.version == Some(row.version)
  {
    BuildOsmGeo(row, Way(EmptyMeta, None, None))
  }

  /** `BuildRelation`: a new relation with the row's metadata, no tags, no members. */
  function BuildRelation(row: EntityRow): (r: OsmGeo)
    ensures r.Relation? && r.tags.None? && r.members.None?
    ensures r.meta.id == Some(row.id) && r.meta.version == Some(row.version)
  {
    BuildOsmGeo(row, Relation(EmptyMeta, None, None))
  }

  // ---------------------------------------------------------------------------
  // Groups of child rows.

  /** Row j belongs to the group of owner `id`; when the reader has a version
      column, the row's version must also equal the entity's. */
  predicate InGroup(c: Cursor<ChildRow>, j: int, id: int, version: Option<int>)
    requires c.Valid() && 0 <= j < |c.rows|
  {
    c.rows[j].owner == id && (c.versions.Some? ==> Some(c.versions.value[j]) == version)
  }

  /** The end of the group that starts at row i: the first row from i on that
      does not belong to it, or `|rows|`. */
  function GroupEnd(c: Cursor<ChildRow>, i: nat, id: int, version: Option<int>): (e: nat)
    requires c.Valid() && i <= |c.rows|
    ensures i <= e <= |c.rows|
    ensures forall j :: i <= j < e ==> InGroup(c, j, id, version)
    ensures forall j :: i <= j < e ==> c.rows[j].owner == id
    ensures e < |c.rows| ==> !InGroup(c, e, id, version)
    decreases |c.rows| - i
  {
    if i == |c.rows| || !InGroup(c, i, id, version) then i else GroupEnd(c, i + 1, id, version)
  }

  function TagsOf(rows: seq<ChildRow>): (tags: seq<Tag>)
    requires AllTagRows(rows)
    ensures |tags| == |rows|
  {
    seq(|rows|, k requires 0 <= k < |rows| => Tag(rows[k].key, rows[k].value))
  }

  function NodeIdsOf(rows: seq<ChildRow>): (ids: seq<int>)
    requires AllWayNodeRows(rows)
    ensures |ids| == |rows|
  {
    seq(|rows|, k requires 0 <= k < |rows| => rows[k].nodeId)
  }

  function MembersOf(rows: seq<ChildRow>): (members: seq<RelationMember>)
    requires AllMemberRows(rows)
    ensures |members| == |rows|
  {
    seq(|rows|, k requires 0 <= k < |rows| => RelationMember(rows[k].memberId, rows[k].role, rows[k].memberType))
  }

  /** One more row of a group adds its tag, node id or member at the end. */
  lemma TagsOfStep(rows: seq<ChildRow>, lo: nat, hi: nat)
    requires AllTagRows(rows) && lo <= hi < |rows|
    ensures TagsOf(rows[lo..hi + 1]) == TagsOf(rows[lo..hi]) + [Tag(rows[hi].key, rows[hi].value)]
  {
    assert rows[lo..hi + 1] == rows[lo..hi] + [rows[hi]];
  }

  lemma NodeIdsOfStep(rows: seq<ChildRow>, lo: nat, hi: nat)
    requires AllWayNodeRows(rows) && lo <= hi < |rows|
    ensures NodeIdsOf(rows[lo..hi + 1]) == NodeIdsOf(rows[lo..hi]) + [rows[hi].nodeId]
  {
    assert rows[lo..hi + 1] == rows[lo..hi] + [rows[hi]];
  }

  lemma MembersOfStep(rows: seq<ChildRow>, lo: nat, hi: nat)
    requires AllMemberRows(rows) && lo <= hi < |rows|
    ensures MembersOf(rows[lo..hi + 1])
              == MembersOf(rows[lo..hi]) + [RelationMember(rows[hi].memberId, rows[hi].role, rows[hi].memberType)]
  {
    assert rows[lo..hi + 1] == rows[lo..hi] + [rows[hi]];
  }

  /** The first row g in [j, e) whose `sequence_id` is not its offset g - i
      from the start of the group, if there is one. */
  function FirstGap(rows: seq<ChildRow>, i: nat, j: nat, e: nat): (g: Option<nat>)
    requires i <= j <= e <= |rows|
    requires forall k :: i <= k < e ==> rows[k].WayNodeRow? || rows[k].MemberRow?
    ensures g.Some? ==> j <= g.value < e && rows[g.value].sequenceId != g.value - i
    ensures g.Some? ==> forall k :: j <= k < g.value ==> rows[k].sequenceId == k - i
    ensures g.None? ==> forall k :: j <= k < e ==> rows[k].sequenceId == k - i
    decreases e - j
  {
    if j == e then None
    else if rows[j].sequenceId != j - i then Some(j)
    else FirstGap(rows, i, j + 1, e)
  }

  /** `.Value` of the entity's id (or, on a versioned reader whose row has the
      entity's id, of its version) is read while it holds no value. */
  predicate KeyMissing(reader: Cursor<ChildRow>, g: OsmGeo)
    requires reader.Valid() && reader.HasActiveRow()
  {
    g.meta.id.None? ||
    (reader.versions.Some? && reader.Row().owner == g.meta.id.value && g.meta.version.None?)
  }

  // ---------------------------------------------------------------------------
  // What each reader leaves behind.

  /** The effect of `AddTags(reader, g)`: the advanced reader and the entity
      with its tags, or the exception. */
  function AddTagsSpec(reader: Cursor<ChildRow>, g: OsmGeo): (r: (Cursor<ChildRow>, Result<OsmGeo, Error>))
    requires reader.Valid() && AllTagRows(reader.rows)
    ensures r.0.Valid() && r.0.rows == reader.rows && r.0.versions == reader.versions
    ensures !reader.HasActiveRow() ==> r == (reader, Success(g))
    ensures r.1.Failure? <==> reader.HasActiveRow() && KeyMissing(reader, g)
    ensures r.1.Success? ==> r.1.value.GeoType() == g.GeoType() && r.1.value.meta == g.meta
    ensures r.1.Success? ==> r.1.value == g.(tags := r.1.value.tags)
    ensures reader.HasActiveRow() && r.1.Success? ==>
              && g.meta.id.Some? && reader.pos <= r.0.pos
              && (forall j :: reader.pos <= j < r.0.pos ==> reader.rows[j].owner == g.meta.id.value)
              && (r.0.HasActiveRow() ==> !InGroup(reader, r.0.pos, g.meta.id.value, g.meta.version))
              && r.1.value.tags == Some(TagsOf(reader.rows[reader.pos..r.0.pos]))
  {
    if !reader.HasActiveRow() then (reader, Success(g))
    else if KeyMissing(reader, g) then (reader, Failure(NullableWithoutValue))
    else
      var e := GroupEnd(reader, reader.pos, g.meta.id.value, g.meta.version);
      (reader.(pos := e), Success(g.(tags := Some(TagsOf(reader.rows[reader.pos..e])))))
  }

  /** The effect of `AddNodes(reader, way)`: the way with the node ids of its
      group in row order, or the sequence error at the first row whose
      `sequence_id` differs from the number of nodes collected before it. */
  function AddNodesSpec(reader: Cursor<ChildRow>, way: OsmGeo): (r: (Cursor<ChildRow>, Result<OsmGeo, Error>))
    requires reader.Valid() && AllWayNodeRows(reader.rows) && way.Way?
    ensures r.0.Valid() && r.0.rows == reader.rows && r.0.versions == reader.versions
    ensures !reader.HasActiveRow() ==> r == (reader, Success(way))
    ensures reader.HasActiveRow() && KeyMissing(reader, way) ==> r == (reader, Failure(NullableWithoutValue))
    ensures r.1 == Failure(NullableWithoutValue) ==> reader.HasActiveRow() && KeyMissing(reader, way)
    ensures r.1.Success? ==> r.1.value.Way? && r.1.value.meta == way.meta && r.1.value.tags == way.tags
    ensures r.1.Success? ==> r.1.value == way.(nodes := r.1.value.nodes)
    ensures reader.HasActiveRow() && r.1.Success? ==>
              && way.meta.id.Some? && reader.pos <= r.0.pos
              && (forall j :: reader.pos <= j < r.0.pos ==> reader.rows[j].owner == way.meta.id.value)
              && (forall j :: reader.pos <= j < r.0.pos ==> reader.rows[j].sequenceId == j - reader.pos)
              && (r.0.HasActiveRow() ==> !InGroup(reader, r.0.pos, way.meta.id.value, way.meta.version))
              && r.1.value.nodes == Some(NodeIdsOf(reader.rows[reader.pos..r.0.pos]))
    ensures r.1.Failure? && r.1.error.InvalidSequence? ==>
              && reader.HasActiveRow() && way.meta.id.Some? && reader.pos <= r.0.pos < |reader.rows|
              && reader.rows[r.0.pos].owner == way.meta.id.value
              && reader.rows[r.0.pos].sequenceId != r.0.pos - reader.pos
  {
    if !reader.HasActiveRow() then (reader, Success(way))
    else if KeyMissing(reader, way) then (reader, Failure(NullableWithoutValue))
    else
      var i, id := reader.pos, way.meta.id.value;
      var e := GroupEnd(reader, i, id, way.meta.version);
      match FirstGap(reader.rows, i, i, e)
      case Some(g) => (reader.(pos := g), Failure(InvalidSequence(id)))
      case None => (reader.(pos := e), Success(way.(nodes := Some(NodeIdsOf(reader.rows[i..e])))))
  }

  /** The effect of `AddMembers(reader, relation)`: the relation with the
      members of its group in row order. Only a reader without a version
      column checks `sequence_id`. */
  function AddMembersSpec(reader: Cursor<ChildRow>, relation: OsmGeo): (r: (Cursor<ChildRow>, Result<OsmGeo, Error>))
    requires reader.Valid() && AllMemberRows(reader.rows) && relation.Relation?
    ensures r.0.Valid() && r.0.rows == reader.rows && r.0.versions == reader.versions
    ensures !reader.HasActiveRow() ==> r == (reader, Success(relation))
    ensures reader.HasActiveRow() && KeyMissing(reader, relation) ==> r == (reader, Failure(NullableWithoutValue))
    ensures r.1 == Failure(NullableWithoutValue) ==> reader.HasActiveRow() && KeyMissing(reader, relation)
    ensures r.1.Success? ==> r.1.value.Relation? && r.1.value.meta == relation.meta && r.1.value.tags == relation.tags
    ensures r.1.Success? ==> r.1.value == relation.(members := r.1.value.members)
    ensures reader.HasActiveRow() && r.1.Success? ==>
              && relation.meta.id.Some? && reader.pos <= r.0.pos
              && (forall j :: reader.pos <= j < r.0.pos ==> reader.rows[j].owner == relation.meta.id.value)
              && (r.0.HasActiveRow() ==> !InGroup(reader, r.0.pos, relation.meta.id.value, relation.meta.version))
              && r.1.value.members == Some(MembersOf(reader.rows[reader.pos..r.0.pos]))
    ensures reader.versions.Some? ==> !(r.1.Failure? && r.1.error.InvalidSequence?)
    ensures r.1.Failure? && r.1.error.InvalidSequence? ==>
              && reader.HasActiveRow() && relation.meta.id.Some? && reader.pos <= r.0.pos < |reader.rows|
              && reader.rows[r.0.pos].owner == relation.meta.id.value
              && reader.rows[r.0.pos].sequenceId != r.0.pos - reader.pos
  {
    if !reader.HasActiveRow() then (reader, Success(relation))
    else if KeyMissing(reader, relation) then (reader, Failure(NullableWithoutValue))
    else
      var i, id := reader.pos, relation.meta.id.value;
      var e := GroupEnd(reader, i, id, relation.meta.version);
      var gap := if reader.versions.None? then FirstGap(reader.rows, i, i, e) else None;
      match gap
      case Some(g) => (reader.(pos := g), Failure(InvalidSequence(id)))
      case None => (reader.(pos := e), Success(relation.(members := Some(MembersOf(reader.rows[i..e])))))
  }

  // ---------------------------------------------------------------------------
  // The readers.

  /** The group ends at e when every row of [i, e) belongs to it and row e,
      if any, does not. */
  lemma GroupEndIs(c: Cursor<ChildRow>, i: nat, id: int, version: Option<int>, e: nat)
    requires c.Valid() && i <= e <= |c.rows|
    requires forall j :: i <= j < e ==> InGroup(c, j, id, version)
    requires e < |c.rows| ==> !InGroup(c, e, id, version)
    ensures GroupEnd(c, i, id, version) == e
  {
  }

  /** `AddTags`: reads the tags of `g` from the reader's current row on. The
      two branches of the source (with and without a version column) differ
      only in the loop guard, which `InGroup` states for both. */
  method AddTags(reader: Cursor<ChildRow>, g: OsmGeo) returns (next: Cursor<ChildRow>, r: Result<OsmGeo, Error>)
    requires reader.Valid() && AllTagRows(reader.rows)
    ensures (next, r) == AddTagsSpec(reader, g)
  {
    next, r := reader, Success(g);
    if !next.HasActiveRow() {
      return;
    }
    if KeyMissing(next, g) {
      return next, Failure(NullableWithoutValue);
    }
    var id, version := g.meta.id.value, g.meta.version;
    var tags: seq<Tag> := [];
    while InGroup(next, next.pos, id, version)
      invariant next.Valid() && next.rows == reader.rows && next.versions == reader.versions
      invariant reader.pos <= next.pos < |next.rows|
      invariant forall j :: reader.pos <= j < next.pos ==> InGroup(reader, j, id, version)
      invariant tags == TagsOf(reader.rows[reader.pos..next.pos])
      decreases |next.rows| - next.pos
    {
      tags := tags + [Tag(next.Row().key, next.Row().value)];
      TagsOfStep(reader.rows, reader.pos, next.pos);
      next := next.Read();
      if !next.HasActiveRow() {
        break;
      }
    }
    GroupEndIs(reader, reader.pos, id, version, next.pos);
    r := Success(g.(tags := Some(tags)));
  }

  /** `AddNodes`: reads the node ids of `way` from the reader's current row
      on, checking that `sequence_id` counts up from 0. */
  method AddNodes(reader: Cursor<ChildRow>, way: OsmGeo) returns (next: Cursor<ChildRow>, r: Result<OsmGeo, Error>)
    requires reader.Valid() && AllWayNodeRows(reader.rows) && way.Way?
    ensures (next, r) == AddNodesSpec(reader, way)
  {
    next, r := reader, Success(way);
    if !next.HasActiveRow() {
      return;
    }
    if KeyMissing(next, way) {
      return next, Failure(NullableWithoutValue);
    }
    var id, version := way.meta.id.value, way.meta.version;
    var nodes: seq<int> := [];
    while InGroup(next, next.pos, id, version)
      invariant next.Valid() && next.rows == reader.rows && next.versions == reader.versions
      invariant reader.pos <= next.pos < |next.rows|
      invariant forall j :: reader.pos <= j < next.pos ==> InGroup(reader, j, id, version)
      invariant forall j :: reader.pos <= j < next.pos ==> reader.rows[j].sequenceId == j - reader.pos
      invariant nodes == NodeIdsOf(reader.rows[reader.pos..next.pos])
      decreases |next.rows| - next.pos
    {
      if |nodes| != next.Row().sequenceId {
        NodesStopAtGap(reader, way, next.pos);
        return next, Failure(InvalidSequence(id));
      }
      nodes := nodes + [next.Row().nodeId];
      NodeIdsOfStep(reader.rows, reader.pos, next.pos);
      next := next.Read();
      if !next.HasActiveRow() {
        break;
      }
    }
    NodesStopAtEnd(reader, way, next.pos);
    r := Success(way.(nodes := Some(nodes)));
  }

  /** The node reader stops with the sequence error at row k of the group
      when every row before k is in sequence and row k is not. */
  lemma NodesStopAtGap(reader: Cursor<ChildRow>, way: OsmGeo, k: nat)
    requires reader.Valid() && AllWayNodeRows(reader.rows) && way.Way?
    requires reader.HasActiveRow() && !KeyMissing(reader, way)
    requires reader.pos <= k < |reader.rows|
    requires forall j :: reader.pos <= j <= k ==> InGroup(reader, j, way.meta.id.value, way.meta.version)
    requires forall j :: reader.pos <= j < k ==> reader.rows[j].sequenceId == j - reader.pos
    requires reader.rows[k].sequenceId != k - reader.pos
    ensures AddNodesSpec(reader, way) == (reader.(pos := k), Failure(InvalidSequence(way.meta.id.value)))
  {
    var id, version := way.meta.id.value, way.meta.version;
    GroupEndIsPast(reader, reader.pos, id, version, k);
    FirstGapIs(reader.rows, reader.pos, GroupEnd(reader, reader.pos, id, version), k);
  }

  /** The node reader takes the whole group [pos, e) when all of it is in
      sequence. */
  lemma NodesStopAtEnd(reader: Cursor<ChildRow>, way: OsmGeo, e: nat)
    requires reader.Valid() && AllWayNodeRows(reader.rows) && way.Way?
    requires reader.HasActiveRow() && !KeyMissing(reader, way)
    requires reader.pos <= e <= |reader.rows|
    requires forall j :: reader.pos <= j < e ==> InGroup(reader, j, way.meta.id.value, way.meta.version)
    requires forall j :: reader.pos <= j < e ==> reader.rows[j].sequenceId == j - reader.pos
    requires e < |reader.rows| ==> !InGroup(reader, e, way.meta.id.value, way.meta.version)
    ensures AddNodesSpec(reader, way)
              == (reader.(pos := e), Success(way.(nodes := Some(NodeIdsOf(reader.rows[reader.pos..e])))))
  {
    GroupEndIs(reader, reader.pos, way.meta.id.value, way.meta.version, e);
    FirstGapNone(reader.rows, reader.pos, e);
  }

  /** `AddMembers`: reads the members of `relation` from the reader's current
      row on; only a reader without a version column checks `sequence_id`. */
  method AddMembers(reader: Cursor<ChildRow>, relation: OsmGeo) returns (next: Cursor<ChildRow>, r: Result<OsmGeo, Error>)
    requires reader.Valid() && AllMemberRows(reader.rows) && relation.Relation?
    ensures (next, r) == AddMembersSpec(reader, relation)
  {
    next, r := reader, Success(relation);
    if !next.HasActiveRow() {
      return;
    }
    if KeyMissing(next, relation) {
      return next, Failure(NullableWithoutValue);
    }
    var id, version := relation.meta.id.value, relation.meta.version;
    var checked := next.versions.None?;
    var members: seq<RelationMember> := [];
    while InGroup(next, next.pos, id, version)
      invariant next.Valid() && next.rows == reader.rows && next.versions == reader.versions
      invariant reader.pos <= next.pos < |next.rows|
      invariant forall j :: reader.pos <= j < next.pos ==> InGroup(reader, j, id, version)
      invariant checked ==> forall j :: reader.pos <= j < next.pos ==> reader.rows[j].sequenceId == j - reader.pos
      invariant members == MembersOf(reader.rows[reader.pos..next.pos])
      decreases |next.rows| - next.pos
    {
      if checked && |members| != next.Row().sequenceId {
        MembersStopAtGap(reader, relation, next.pos);
        return next, Failure(InvalidSequence(id));
      }
      var row := next.Row();
      members := members + [RelationMember(row.memberId, row.role, row.memberType)];
      MembersOfStep(reader.rows, reader.pos, next.pos);
      next := next.Read();
      if !next.HasActiveRow() {
        break;
      }
    }
    MembersStopAtEnd(reader, relation, next.pos);
    r := Success(relation.(members := Some(members)));
  }

  /** The unversioned member reader stops with the sequence error at row k
      of the group when every row before k is in sequence and row k is not. */
  lemma MembersStopAtGap(reader: Cursor<ChildRow>, relation: OsmGeo, k: nat)
    requires reader.Valid() && AllMemberRows(reader.rows) && relation.Relation?
    requires reader.versions.None? && reader.HasActiveRow() && !KeyMissing(reader, relation)
    requires reader.pos <= k < |reader.rows|
    requires forall j :: reader.pos <= j <= k ==> InGroup(reader, j, relation.meta.id.value, relation.meta.version)
    requires forall j :: reader.pos <= j < k ==> reader.rows[j].sequenceId == j - reader.pos
    requires reader.rows[k].sequenceId != k - reader.pos
    ensures AddMembersSpec(reader, relation) == (reader.(pos := k), Failure(InvalidSequence(relation.meta.id.value)))
  {
    var id, version := relation.meta.id.value, relation.meta.version;
    GroupEndIsPast(reader, reader.pos, id, version, k);
    FirstGapIs(reader.rows, reader.pos, GroupEnd(reader, reader.pos, id, version), k);
  }

  /** The member reader takes the whole group [pos, e) when a versioned
      reader reads it or all of it is in sequence. */
  lemma MembersStopAtEnd(reader: Cursor<ChildRow>, relation: OsmGeo, e: nat)
    requires reader.Valid() && AllMemberRows(reader.rows) && relation.Relation?
    requires reader.HasActiveRow() && !KeyMissing(reader, relation)
    requires reader.pos <= e <= |reader.rows|
    requires forall j :: reader.pos <= j < e ==> InGroup(reader, j, relation.meta.id.value, relation.meta.version)
    requires reader.versions.None? ==> forall j :: reader.pos <= j < e ==> reader.rows[j].sequenceId == j - reader.pos
    requires e < |reader.rows| ==> !InGroup(reader, e, relation.meta.id.value, relation.meta.version)
    ensures AddMembersSpec(reader, relation)
              == (reader.(pos := e), Success(relation.(members := Some(MembersOf(reader.rows[reader.pos..e])))))
  {
    GroupEndIs(reader, reader.pos, relation.meta.id.value, relation.meta.version, e);
    if reader.versions.None? {
      FirstGapNone(reader.rows, reader.pos, e);
    }
  }

  /** A row k of the group that has every row of [i, k) before it lies before
      the group's end, so the first gap of a group is found at k. */
  lemma GroupEndIsPast(c: Cursor<ChildRow>, i: nat, id: int, version: Option<int>, k: nat)
    requires c.Valid() && i <= k < |c.rows|
    requires forall j :: i <= j <= k ==> InGroup(c, j, id, version)
    ensures k < GroupEnd(c, i, id, version)
  {
  }

  /** The first gap of [i, e) is g when every row before g is in sequence
      and g is not. */
  lemma FirstGapIs(rows: seq<ChildRow>, i: nat, e: nat, g: nat)
    requires i <= g < e <= |rows|
    requires forall k :: i <= k < e ==> rows[k].WayNodeRow? || rows[k].MemberRow?
    requires forall k :: i <= k < g ==> rows[k].sequenceId == k - i
    requires rows[g].sequenceId != g - i
    ensures FirstGap(rows, i, i, e) == Some(g)
  {
  }

  /** A group whose rows are all in sequence has no gap. */
  lemma FirstGapNone(rows: seq<ChildRow>, i: nat, e: nat)
    requires i <= e <= |rows|
    requires forall k :: i <= k < e ==> rows[k].WayNodeRow? || rows[k].MemberRow?
    requires forall k :: i <= k < e ==> rows[k].sequenceId == k - i
    ensures FirstGap(rows, i, i, e) == None
  {
  }

  // ---------------------------------------------------------------------------
  // Properties of the readers.

  /** The rows a way's nodes are stored as: `(way_id, node_id, sequence_id)`
      with `sequence_id` the node's index. */
  function WayNodeRowsOf(id: int, nodes: seq<int>): (rows: seq<ChildRow>)
    ensures |rows| == |nodes| && AllWayNodeRows(rows)
    ensures forall k :: 0 <= k < |rows| ==> rows[k].owner == id && rows[k].sequenceId == k
  {
    seq(|nodes|, k requires 0 <= k < |nodes| => WayNodeRow(id, nodes[k], k))
  }

  /** The rows a relation's members are stored as, `sequence_id` the index. */
  function MemberRowsOf(id: int, members: seq<RelationMember>): (rows: seq<ChildRow>)
    ensures |rows| == |members| && AllMemberRows(rows)
    ensures forall k :: 0 <= k < |rows| ==> rows[k].owner == id && rows[k].sequenceId == k
  {
    seq(|members|, k requires 0 <= k < |members| =>
      MemberRow(id, members[k].id, members[k].memberType, members[k].role, k))
  }

  /** The rows an entity's tags are stored as. */
  function TagRowsOf(id: int, tags: seq<Tag>): (rows: seq<ChildRow>)
    ensures |rows| == |tags| && AllTagRows(rows)
    ensures forall k :: 0 <= k < |rows| ==> rows[k].owner == id
  {
    seq(|tags|, k requires 0 <= k < |tags| => TagRow(id, tags[k].key, tags[k].value))
  }

  /** Round trip: a reader positioned on the rows `(id, nodes[k], k)` of a
      way, followed by nothing or by a row of another way, gives back exactly
      `nodes` and stops on that following row (or runs out, keeping them). */
  lemma NodesRoundTrip(prefix: seq<ChildRow>, id: int, nodes: seq<int>, rest: seq<ChildRow>, way: OsmGeo)
    requires AllWayNodeRows(prefix) && AllWayNodeRows(rest)
    requires |nodes| + |rest| > 0
    requires |rest| > 0 ==> rest[0].owner != id
    requires way.Way? && way.meta.id == Some(id)
    ensures var rows := prefix + WayNodeRowsOf(id, nodes) + rest;
            AddNodesSpec(Cursor(rows, None, |prefix|), way)
              == (Cursor(rows, None, |prefix| + |nodes|), Success(way.(nodes := Some(nodes))))
  {
    var rows := prefix + WayNodeRowsOf(id, nodes) + rest;
    var c, i, e := Cursor(rows, None, |prefix|), |prefix|, |prefix| + |nodes|;
    assert forall j :: i <= j < e ==> rows[j] == WayNodeRowsOf(id, nodes)[j - i];
    assert e < |rows| ==> rows[e] == rest[0];
    GroupEndIs(c, i, id, way.meta.version, e);
    FirstGapNone(rows, i, e);
    assert NodeIdsOf(rows[i..e]) == nodes;
  }

  /** Round trip for the members of a relation, on a reader without a version
      column. */
  lemma MembersRoundTrip(prefix: seq<ChildRow>, id: int, members: seq<RelationMember>, rest: seq<ChildRow>, relation: OsmGeo)
    requires AllMemberRows(prefix) && AllMemberRows(rest)
    requires |members| + |rest| > 0
    requires |rest| > 0 ==> rest[0].owner != id
    requires relation.Relation? && relation.meta.id == Some(id)
    ensures var rows := prefix + MemberRowsOf(id, members) + rest;
            AddMembersSpec(Cursor(rows, None, |prefix|), relation)
              == (Cursor(rows, None, |prefix| + |members|), Success(relation.(members := Some(members))))
  {
    var rows := prefix + MemberRowsOf(id, members) + rest;
    var c, i, e := Cursor(rows, None, |prefix|), |prefix|, |prefix| + |members|;
    assert forall j :: i <= j < e ==> rows[j] == MemberRowsOf(id, members)[j - i];
    assert e < |rows| ==> rows[e] == rest[0];
    GroupEndIs(c, i, id, relation.meta.version, e);
    FirstGapNone(rows, i, e);
    assert MembersOf(rows[i..e]) == members;
  }

  /** Round trip for the tags of an entity, on a reader without a version
      column. */
  lemma TagsRoundTrip(prefix: seq<ChildRow>, id: int, tags: seq<Tag>, rest: seq<ChildRow>, g: OsmGeo)
    requires AllTagRows(prefix) && AllTagRows(rest)
    requires |tags| + |rest| > 0
    requires |rest| > 0 ==> rest[0].owner != id
    requires g.meta.id == Some(id)
    ensures var rows := prefix + TagRowsOf(id, tags) + rest;
            AddTagsSpec(Cursor(rows, None, |prefix|), g)
              == (Cursor(rows, None, |prefix| + |tags|), Success(g.(tags := Some(tags))))
  {
    var rows := prefix + TagRowsOf(id, tags) + rest;
    var c, i, e := Cursor(rows, None, |prefix|), |prefix|, |prefix| + |tags|;
    assert forall j :: i <= j < e ==> rows[j] == TagRowsOf(id, tags)[j - i];
    assert e < |rows| ==> rows[e] == rest[0];
    GroupEndIs(c, i, id, g.meta.version, e);
    assert TagsOf(rows[i..e]) == tags;
  }

  /** The sequence check, both ways: `AddNodes` fails with the sequence error
      exactly when some row of the way's group has a `sequence_id` other than
      the number of rows before it in the group. */
  lemma NodesFailIffOutOfSequence(reader: Cursor<ChildRow>, way: OsmGeo)
    requires reader.Valid() && AllWayNodeRows(reader.rows) && way.Way?
    requires reader.HasActiveRow() && !KeyMissing(reader, way)
    ensures var e := GroupEnd(reader, reader.pos, way.meta.id.value, way.meta.version);
            (AddNodesSpec(reader, way).1.Failure? <==>
             exists j :: reader.pos <= j < e && reader.rows[j].sequenceId != j - reader.pos)
  {
    var e := GroupEnd(reader, reader.pos, way.meta.id.value, way.meta.version);
    var gap := FirstGap(reader.rows, reader.pos, reader.pos, e);
    if gap.Some? {
      assert reader.rows[gap.value].sequenceId != gap.value - reader.pos;
    }
  }

  /** The sequence check of an unversioned member reader, both ways: reading
      the members fails with the sequence error exactly when some row of the
      relation's group is out of sequence. */
  lemma MembersFailIffOutOfSequence(reader: Cursor<ChildRow>, relation: OsmGeo)
    requires reader.Valid() && AllMemberRows(reader.rows) && relation.Relation?
    requires reader.versions.None? && reader.HasActiveRow() && !KeyMissing(reader, relation)
    ensures var e := GroupEnd(reader, reader.pos, relation.meta.id.value, relation.meta.version);
            (AddMembersSpec(reader, relation).1.Failure? <==>
             exists j :: reader.pos <= j < e && reader.rows[j].sequenceId != j - reader.pos)
  {
    var e := GroupEnd(reader, reader.pos, relation.meta.id.value, relation.meta.version);
    var gap := FirstGap(reader.rows, reader.pos, reader.pos, e);
    if gap.Some? {
      assert reader.rows[gap.value].sequenceId != gap.value - reader.pos;
    }
  }

  /** A versioned member reader never checks `sequence_id`: any group of a
      relation is read in full, whatever its sequence numbers. */
  lemma VersionedMembersIgnoreSequence(reader: Cursor<ChildRow>, relation: OsmGeo)
    requires reader.Valid() && AllMemberRows(reader.rows) && relation.Relation?
    requires reader.versions.Some? && reader.HasActiveRow() && !KeyMissing(reader, relation)
    ensures var e := GroupEnd(reader, reader.pos, relation.meta.id.value, relation.meta.version);
            AddMembersSpec(reader, relation)
              == (reader.(pos := e), Success(relation.(members := Some(MembersOf(reader.rows[reader.pos..e])))))
  {
  }

  /** A row of another owner under the reader: the entity gets an empty
      collection and the reader does not move. */
  lemma ForeignRowGivesEmpty(reader: Cursor<ChildRow>, way: OsmGeo)
    requires reader.Valid() && AllWayNodeRows(reader.rows) && way.Way?
    requires reader.HasActiveRow() && way.meta.id.Some? && reader.Row().owner != way.meta.id.value
    ensures AddNodesSpec(reader, way) == (reader, Success(way.(nodes := Some([]))))
  {
    GroupEndIs(reader, reader.pos, way.meta.id.value, way.meta.version, reader.pos);
  }
}
