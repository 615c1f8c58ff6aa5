/** The snapshot database: one row per entity in `node`, `way` and
    `relation`, its tags, way nodes and relation members in the child tables.
    Writing an entity replaces it: its child rows are deleted, its parent row
    is updated by id or inserted, and its children are inserted again in
    order. Reading an entity back runs the queries `SqlExtensions` reads. */
module Snapshot {
  import opened Wrappers
  import opened Osm
  import opened Rows
  import opened SqlExtensions

  // ---------------------------------------------------------------------------
  // Entities to rows.

  /** Every metadata value the parent row needs is present; `usr` alone may
      be null. */
  predicate HasRowValues(m: Meta) {
    m.id.Some? && m.version.Some? && m.changeSetId.Some? && m.timeStamp.Some?
    && m.userId.Some? && m.visible.Some?
  }

  /** The parent row an entity's metadata is written as. */
  function EntityRowOf(m: Meta): (row: EntityRow)
    requires HasRowValues(m)
  {
    EntityRow(m.id.value, m.version.value, m.changeSetId.value, m.timeStamp.value,
              m.userId.value, m.userName, m.visible.value)
  }

  /** Reading the row back gives the metadata written. */
  lemma MetaRoundTrip(m: Meta, g: OsmGeo)
    requires HasRowValues(m)
    ensures BuildOsmGeo(EntityRowOf(m), g).meta == m
    ensures EntityRowOf(m).id == m.id.value
  {
  }

  /** A collection the writer iterates over; a null one writes nothing. */
  function Present<T>(o: Option<seq<T>>): (xs: seq<T>)
    ensures o.None? ==> xs == []
  {
    if o.Some? then o.value else []
  }

  /** A collection as reading it back presents it: an empty one comes back null. */
  function NonEmpty<T>(o: Option<seq<T>>): (r: Option<seq<T>>)
    ensures r.Some? <==> o.Some? && |o.value| > 0
    ensures r.Some? ==> r == o
  {
    if o.Some? && |o.value| > 0 then o else None
  }

  // ---------------------------------------------------------------------------
  // `order by sequence_id`.

  /** `x` placed before the first row whose `sequence_id` is not below its own. */
  function InsertBySequence(x: ChildRow, rows: seq<ChildRow>): (r: seq<ChildRow>)
    requires x.WayNodeRow? || x.MemberRow?
    requires Sequenced(rows)
    ensures multiset(r) == multiset(rows) + multiset{x}
  {
    if rows == [] || x.sequenceId <= rows[0].sequenceId then [x] + rows
    else
      assert rows == [rows[0]] + rows[1..];
      [rows[0]] + InsertBySequence(x, rows[1..])
  }

  /** The rows in ascending `sequence_id` (SortBySequenceSorted); rows with
      equal ids keep their order. */
  function SortBySequence(rows: seq<ChildRow>): (r: seq<ChildRow>)
    requires Sequenced(rows)
    ensures multiset(r) == multiset(rows)
  {
    if rows == [] then []
    else
      var tail := SortBySequence(rows[1..]);
      assert rows == [rows[0]] + rows[1..];
      SameRowsAmong(tail, rows[1..]);
      InsertBySequence(rows[0], tail)
  }

  /** Rows with the same multiset: each row of one is a row of the other. */
  lemma SameRowsAmong(a: seq<ChildRow>, b: seq<ChildRow>)
    requires multiset(a) == multiset(b)
    ensures forall j :: 0 <= j < |a| ==> a[j] in b
  {
    forall j | 0 <= j < |a|
      ensures a[j] in b
    {
      assert a[j] in multiset(a);
    }
  }

  /** Rows that carry a `sequence_id`. */
  predicate Sequenced(rows: seq<ChildRow>)
  {
    forall j :: 0 <= j < |rows| ==> rows[j].WayNodeRow? || rows[j].MemberRow?
  }

  predicate SortedBySequence(rows: seq<ChildRow>)
    requires Sequenced(rows)
  {
    forall a, b :: 0 <= a < b < |rows| ==> rows[a].sequenceId <= rows[b].sequenceId
  }

  /** Inserting into rows in `sequence_id` order keeps them in order; the
      first row is the inserted one or the old first row. */
  lemma {:induction false} InsertBySequenceSorted(x: ChildRow, rows: seq<ChildRow>)
    requires x.WayNodeRow? || x.MemberRow?
    requires Sequenced(rows) && SortedBySequence(rows)
    ensures var r := InsertBySequence(x, rows);
            && |r| == |rows| + 1 && Sequenced(r) && SortedBySequence(r)
            && (r[0] == x || (rows != [] && r[0] == rows[0]))
  {
    if rows != [] && x.sequenceId > rows[0].sequenceId {
      var tail := rows[1..];
      InsertBySequenceSorted(x, tail);
      var t := InsertBySequence(x, tail);
      assert InsertBySequence(x, rows) == [rows[0]] + t;
      assert forall b :: 0 <= b < |t| ==> rows[0].sequenceId <= t[b].sequenceId by {
        forall b | 0 <= b < |t|
          ensures rows[0].sequenceId <= t[b].sequenceId
        {
          assert t[0].sequenceId <= t[b].sequenceId;
        }
      }
    }
  }

  /** `order by sequence_id`: the sorted rows are in ascending order. */
  lemma {:induction false} SortBySequenceSorted(rows: seq<ChildRow>)
    requires Sequenced(rows)
    ensures var r := SortBySequence(rows);
            |r| == |rows| && Sequenced(r) && SortedBySequence(r)
  {
    if rows != [] {
      SortBySequenceSorted(rows[1..]);
      InsertBySequenceSorted(rows[0], SortBySequence(rows[1..]));
    }
  }

  /** Rows already in `sequence_id` order come out as they are. */
  lemma {:induction false} SortSortedIsIdentity(rows: seq<ChildRow>)
    requires Sequenced(rows)
    requires SortedBySequence(rows)
    ensures SortBySequence(rows) == rows
  {
    if rows != [] {
      SortSortedIsIdentity(rows[1..]);
      assert [rows[0]] + rows[1..] == rows;
    }
  }

  lemma SortKeepsShape(rows: seq<ChildRow>)
    requires Sequenced(rows)
    ensures AllWayNodeRows(rows) ==> AllWayNodeRows(SortBySequence(rows))
    ensures AllMemberRows(rows) ==> AllMemberRows(SortBySequence(rows))
  {
    SameRowsAmong(SortBySequence(rows), rows);
  }

  // ---------------------------------------------------------------------------
  // Reading one entity back.

  /** `if (reader.Read()) reader.AddTags(g)` over the rows a tag query returns. */
  function ReadTagsInto(rows: seq<ChildRow>, g: OsmGeo): (r: Result<OsmGeo, Error>)
    requires AllTagRows(rows)
    ensures r.Failure? <==> rows != [] && g.meta.id.None?
  {
    var reader := Open(rows, None).Read();
    if reader.HasActiveRow() then AddTagsSpec(reader, g).1 else Success(g)
  }

  /** `if (reader.Read()) reader.AddNodes(way)`. */
  function ReadNodesInto(rows: seq<ChildRow>, way: OsmGeo): (r: Result<OsmGeo, Error>)
    requires AllWayNodeRows(rows) && way.Way?
    ensures rows == [] ==> r == Success(way)
    ensures r == Failure(NullableWithoutValue) <==> rows != [] && way.meta.id.None?
    ensures r.Success? ==> r.value.Way? && r.value == way.(nodes := r.value.nodes)
  {
    var reader := Open(rows, None).Read();
    if reader.HasActiveRow() then AddNodesSpec(reader, way).1 else Success(way)
  }

  /** `if (reader.Read()) reader.AddMembers(relation)`. */
  function ReadMembersInto(rows: seq<ChildRow>, relation: OsmGeo): (r: Result<OsmGeo, Error>)
    requires AllMemberRows(rows) && relation.Relation?
    ensures rows == [] ==> r == Success(relation)
    ensures r == Failure(NullableWithoutValue) <==> rows != [] && relation.meta.id.None?
    ensures r.Success? ==> r.value.Relation? && r.value == relation.(members := r.value.members)
  {
    var reader := Open(rows, None).Read();
    if reader.HasActiveRow() then AddMembersSpec(reader, relation).1 else Success(relation)
  }

  /** Reading the tag rows of `id` back, whatever else the table holds. */
  lemma TagsReadBack(id: int, tags: seq<Tag>, g: OsmGeo)
    requires g.meta.id == Some(id) && g.tags.None?
    ensures ReadTagsInto(TagRowsOf(id, tags), g) == Success(g.(tags := NonEmpty(Some(tags))))
  {
    if |tags| > 0 {
      var rows := TagRowsOf(id, tags);
      assert [] + rows + [] == rows;
      TagsRoundTrip([], id, tags, [], g);
    }
  }

  lemma NodesReadBack(id: int, nodes: seq<int>, way: OsmGeo)
    requires way.Way? && way.meta.id == Some(id) && way.nodes.None?
    ensures ReadNodesInto(WayNodeRowsOf(id, nodes), way) == Success(way.(nodes := NonEmpty(Some(nodes))))
  {
    if |nodes| > 0 {
      var rows := WayNodeRowsOf(id, nodes);
      assert [] + rows + [] == rows;
      NodesRoundTrip([], id, nodes, [], way);
    }
  }

  lemma MembersReadBack(id: int, members: seq<RelationMember>, relation: OsmGeo)
    requires relation.Relation? && relation.meta.id == Some(id) && relation.members.None?
    ensures ReadMembersInto(MemberRowsOf(id, members), relation)
              == Success(relation.(members := NonEmpty(Some(members))))
  {
    if |members| > 0 {
      var rows := MemberRowsOf(id, members);
      assert [] + rows + [] == rows;
      MembersRoundTrip([], id, members, [], relation);
    }
  }

  // ---------------------------------------------------------------------------
  // Writing one entity.

  /** `AddOrUpdateNode`: delete the node's tags; with every value present,
      update or insert its row (coordinates in 10^-7 degree, `tile` the tile
      id of the coordinates) and insert its tags. A missing value stops the
      write after the tags are gone. */
  function AddOrUpdateNodeSpec(db: Tables, n: OsmGeo, tile: (int, int) -> int): (r: (Tables, Result<(), Error>))
    requires n.Node? && n.meta.id.Some?
    ensures r.1.Success? <==> HasRowValues(n.meta) && n.latitude.Some? && n.longitude.Some?
  {
    var id := n.meta.id.value;
    var cleared := db.(nodeTags := Without(db.nodeTags, id));
    if !HasRowValues(n.meta) || n.latitude.None? || n.longitude.None? then (cleared, Failure(NullableWithoutValue))
    else
      var lat, lon := n.latitude.value, n.longitude.value;
      var row := NodeRow(EntityRowOf(n.meta), lat, lon, tile(lat, lon));
      (cleared.(node := Upsert(db.node, NodeKey, row),
                nodeTags := cleared.nodeTags + TagRowsOf(id, Present(n.tags))), Success(()))
  }

  /** `AddOrUpdateWay`: delete the way's tags and way nodes; with every value
      present, update or insert its row, insert its tags and insert its nodes
      as `(id, nodes[i], i)`. */
  function AddOrUpdateWaySpec(db: Tables, w: OsmGeo): (r: (Tables, Result<(), Error>))
    requires w.Way? && w.meta.id.Some?
    ensures r.1.Success? <==> HasRowValues(w.meta)
  {
    var id := w.meta.id.value;
    var cleared := db.(wayTags := Without(db.wayTags, id), wayNodes := Without(db.wayNodes, id));
    if !HasRowValues(w.meta) then (cleared, Failure(NullableWithoutValue))
    else
      (cleared.(way := Upsert(db.way, EntityKey, EntityRowOf(w.meta)),
                wayTags := cleared.wayTags + TagRowsOf(id, Present(w.tags)),
                wayNodes := cleared.wayNodes + WayNodeRowsOf(id, Present(w.nodes))), Success(()))
  }

  /** `AddOrUpdateRelation`: the same with tags and members
      `(id, member.id, member type, role, i)`. */
  function AddOrUpdateRelationSpec(db: Tables, rel: OsmGeo): (r: (Tables, Result<(), Error>))
    requires rel.Relation? && rel.meta.id.Some?
    ensures r.1.Success? <==> HasRowValues(rel.meta)
  {
    var id := rel.meta.id.value;
    var cleared := db.(relationTags := Without(db.relationTags, id),
                       relationMembers := Without(db.relationMembers, id));
    if !HasRowValues(rel.meta) then (cleared, Failure(NullableWithoutValue))
    else
      (cleared.(relation := Upsert(db.relation, EntityKey, EntityRowOf(rel.meta)),
                relationTags := cleared.relationTags + TagRowsOf(id, Present(rel.tags)),
                relationMembers := cleared.relationMembers + MemberRowsOf(id, Present(rel.members))),
       Success(()))
  }

  /** `AddOrUpdate(osmGeo)`: a null object and an object without an id are
      rejected before anything is written. */
  function AddOrUpdateSpec(db: Tables, g: Option<OsmGeo>, tile: (int, int) -> int): (r: (Tables, Result<(), Error>))
    ensures g.None? ==> r == (db, Failure(ArgumentNull))
    ensures g.Some? && g.value.meta.id.None? ==> r == (db, Failure(ArgumentInvalid))
  {
    if g.None? then (db, Failure(ArgumentNull))
    else if g.value.meta.id.None? then (db, Failure(ArgumentInvalid))
    else
      match g.value
      case Node(_, _, _, _) => AddOrUpdateNodeSpec(db, g.value, tile)
      case Way(_, _, _) => AddOrUpdateWaySpec(db, g.value)
      case Relation(_, _, _) => AddOrUpdateRelationSpec(db, g.value)
  }

  /** The database invariant: child tables hold rows of their own shape and
      `id` is a primary key of each parent table. */
  predicate Consistent(db: Tables) {
    db.Shaped() && UniqueKeys(db.node, NodeKey) && UniqueKeys(db.way, EntityKey) && UniqueKeys(db.relation, EntityKey)
  }

  // ---------------------------------------------------------------------------
  // Reading one entity.

  /** `GetNode` as written: the tag query filters `node_tags` on `way_id`, a
      column the table does not have, so it fails for every node that exists. */
  function GetNodeSpec(db: Tables, id: int): (r: Result<Option<OsmGeo>, Error>)
  {
    match FindKey(db.node, NodeKey, id)
    case None => Success(None)
    case Some(_) => Failure(SqlFailure)
  }

  /** `GetNode` as intended: the node's row, then its tags by `node_id`. */
  function GetNodeIntendedSpec(db: Tables, id: int): (r: Result<Option<OsmGeo>, Error>)
    requires db.Shaped()
  {
    match FindKey(db.node, NodeKey, id)
    case None => Success(None)
    case Some(row) =>
      WithoutKeepsShape(db.nodeTags, id);
      // the node read back carries its id, so reading its tags cannot fail
      var node := ReadTagsInto(OwnedBy(db.nodeTags, id), BuildNode(row));
      Success(Some(node.value))
  }

  /** `GetWay`: the way's row, then its nodes `order by sequence_id`, then its tags. */
  function GetWaySpec(db: Tables, id: int): (r: Result<Option<OsmGeo>, Error>)
    requires db.Shaped()
  {
    match FindKey(db.way, EntityKey, id)
    case None => Success(None)
    case Some(row) =>
      WithoutKeepsShape(db.wayNodes, id);
      WithoutKeepsShape(db.wayTags, id);
      SortKeepsShape(OwnedBy(db.wayNodes, id));
      var way := ReadNodesInto(SortBySequence(OwnedBy(db.wayNodes, id)), BuildWay(row));
      if way.Failure? then Failure(way.error)
      else
        var way' := ReadTagsInto(OwnedBy(db.wayTags, id), way.value);
        Success(Some(way'.value))
  }

  /** `GetRelation`: the relation's row, its members `order by sequence_id`,
      then its tags. */
  function GetRelationSpec(db: Tables, id: int): (r: Result<Option<OsmGeo>, Error>)
    requires db.Shaped()
  {
    match FindKey(db.relation, EntityKey, id)
    case None => Success(None)
    case Some(row) =>
      WithoutKeepsShape(db.relationMembers, id);
      WithoutKeepsShape(db.relationTags, id);
      SortKeepsShape(OwnedBy(db.relationMembers, id));
      var relation := ReadMembersInto(SortBySequence(OwnedBy(db.relationMembers, id)), BuildRelation(row));
      if relation.Failure? then Failure(relation.error)
      else
        var relation' := ReadTagsInto(OwnedBy(db.relationTags, id), relation.value);
        Success(Some(relation'.value))
  }

  /** `Get(type, id)`, reading nodes as intended. */
  function GetSpec(db: Tables, t: OsmGeoType, id: int): (r: Result<Option<OsmGeo>, Error>)
    requires db.Shaped()
  {
    match t
    case NodeType => GetNodeIntendedSpec(db, id)
    case WayType => GetWaySpec(db, id)
    case RelationType => GetRelationSpec(db, id)
  }

  // ---------------------------------------------------------------------------
  // What a write does.

  /** Deleting the rows of `id` and appending new ones of `id`: the group
      of `id` becomes `added`, the group of every other owner is unchanged,
      and deleting `id` again gives what the first delete gave. */
  lemma ReplaceGroup(rows: seq<ChildRow>, id: int, added: seq<ChildRow>, other: int)
    requires forall j :: 0 <= j < |added| ==> added[j].owner == id
    ensures OwnedBy(Without(rows, id) + added, id) == added
    ensures other != id ==> OwnedBy(Without(rows, id) + added, other) == OwnedBy(rows, other)
    ensures Without(Without(rows, id) + added, id) == Without(rows, id)
  {
    OwnedByAppend(Without(rows, id), added, id);
    OwnedByAppend(Without(rows, id), added, other);
    WithoutAppend(Without(rows, id), added, id);
    OwnedByWithout(rows, id, id);
    OwnedByWithout(rows, id, other);
    AllOwnedBy(added, id, other);
    WithoutTwice(rows, id);
  }

  lemma ReplaceKeepsShape(rows: seq<ChildRow>, id: int, added: seq<ChildRow>)
    ensures AllTagRows(rows) && AllTagRows(added) ==> AllTagRows(Without(rows, id) + added)
    ensures AllWayNodeRows(rows) && AllWayNodeRows(added) ==> AllWayNodeRows(Without(rows, id) + added)
    ensures AllMemberRows(rows) && AllMemberRows(added) ==> AllMemberRows(Without(rows, id) + added)
  {
    WithoutKeepsShape(rows, id);
  }

  /** A write keeps the database consistent. */
  lemma AddOrUpdateKeepsConsistent(db: Tables, g: Option<OsmGeo>, tile: (int, int) -> int)
    requires Consistent(db)
    ensures Consistent(AddOrUpdateSpec(db, g, tile).0)
  {
    if g.Some? && g.value.meta.id.Some? {
      var x, id := g.value, g.value.meta.id.value;
      WithoutKeepsShape(db.nodeTags, id);
      WithoutKeepsShape(db.wayTags, id);
      WithoutKeepsShape(db.wayNodes, id);
      WithoutKeepsShape(db.relationTags, id);
      WithoutKeepsShape(db.relationMembers, id);
      ReplaceKeepsShape(db.nodeTags, id, TagRowsOf(id, Present(x.tags)));
      ReplaceKeepsShape(db.wayTags, id, TagRowsOf(id, Present(x.tags)));
      ReplaceKeepsShape(db.relationTags, id, TagRowsOf(id, Present(x.tags)));
      match x
      case Node(_, _, _, _) =>
        if HasRowValues(x.meta) && x.latitude.Some? && x.longitude.Some? {
          var lat, lon := x.latitude.value, x.longitude.value;
          UpsertStoresRow(db.node, NodeKey, NodeRow(EntityRowOf(x.meta), lat, lon, tile(lat, lon)));
        }
      case Way(_, _, _) =>
        ReplaceKeepsShape(db.wayNodes, id, WayNodeRowsOf(id, Present(x.nodes)));
        if HasRowValues(x.meta) { UpsertStoresRow(db.way, EntityKey, EntityRowOf(x.meta)); }
      case Relation(_, _, _) =>
        ReplaceKeepsShape(db.relationMembers, id, MemberRowsOf(id, Present(x.members)));
        if HasRowValues(x.meta) { UpsertStoresRow(db.relation, EntityKey, EntityRowOf(x.meta)); }
    }
  }

  /** Writing a node and reading it back (as intended) gives the node: its
      metadata, coordinates and tags; an empty tag list comes back null. */
  lemma NodeRoundTrip(db: Tables, n: OsmGeo, tile: (int, int) -> int)
    requires Consistent(db) && n.Node? && n.meta.id.Some? && HasRowValues(n.meta)
    requires n.latitude.Some? && n.longitude.Some?
    ensures AddOrUpdateNodeSpec(db, n, tile).0.Shaped()
    ensures GetNodeIntendedSpec(AddOrUpdateNodeSpec(db, n, tile).0, n.meta.id.value)
              == Success(Some(Node(n.meta, NonEmpty(n.tags), n.latitude, n.longitude)))
  {
    var id, lat, lon := n.meta.id.value, n.latitude.value, n.longitude.value;
    var row := NodeRow(EntityRowOf(n.meta), lat, lon, tile(lat, lon));
    UpsertStoresRow(db.node, NodeKey, row);
    MetaRoundTrip(n.meta, Node(EmptyMeta, None, Some(lat), Some(lon)));
    var tagRows := TagRowsOf(id, Present(n.tags));
    ReplaceGroup(db.nodeTags, id, tagRows, id);
    ReplaceKeepsShape(db.nodeTags, id, tagRows);
    TagsReadBack(id, Present(n.tags), BuildNode(row));
  }

  /** Writing a way and reading it back gives the way: its metadata, its tags
      and its nodes in order; an empty tag or node list comes back null. */
  lemma WayRoundTrip(db: Tables, w: OsmGeo)
    requires Consistent(db) && w.Way? && w.meta.id.Some? && HasRowValues(w.meta)
    ensures AddOrUpdateWaySpec(db, w).0.Shaped()
    ensures GetWaySpec(AddOrUpdateWaySpec(db, w).0, w.meta.id.value)
              == Success(Some(Way(w.meta, NonEmpty(w.tags), NonEmpty(w.nodes))))
  {
    var id := w.meta.id.value;
    var row := EntityRowOf(w.meta);
    UpsertStoresRow(db.way, EntityKey, row);
    MetaRoundTrip(w.meta, Way(EmptyMeta, None, None));
    var nodeRows := WayNodeRowsOf(id, Present(w.nodes));
    ReplaceGroup(db.wayNodes, id, nodeRows, id);
    ReplaceKeepsShape(db.wayNodes, id, nodeRows);
    SortSortedIsIdentity(nodeRows);
    var tagRows := TagRowsOf(id, Present(w.tags));
    ReplaceGroup(db.wayTags, id, tagRows, id);
    ReplaceKeepsShape(db.wayTags, id, tagRows);
    var way := BuildWay(row);
    NodesReadBack(id, Present(w.nodes), way);
    TagsReadBack(id, Present(w.tags), way.(nodes := NonEmpty(Some(Present(w.nodes)))));
  }

  /** Writing a relation and reading it back gives the relation: metadata,
      tags and members in order, member types as the integers written. */
  lemma RelationRoundTrip(db: Tables, rel: OsmGeo)
    requires Consistent(db) && rel.Relation? && rel.meta.id.Some? && HasRowValues(rel.meta)
    ensures AddOrUpdateRelationSpec(db, rel).0.Shaped()
    ensures GetRelationSpec(AddOrUpdateRelationSpec(db, rel).0, rel.meta.id.value)
              == Success(Some(Relation(rel.meta, NonEmpty(rel.tags), NonEmpty(rel.members))))
  {
    var id := rel.meta.id.value;
    var row := EntityRowOf(rel.meta);
    UpsertStoresRow(db.relation, EntityKey, row);
    MetaRoundTrip(rel.meta, Relation(EmptyMeta, None, None));
    var memberRows := MemberRowsOf(id, Present(rel.members));
    ReplaceGroup(db.relationMembers, id, memberRows, id);
    ReplaceKeepsShape(db.relationMembers, id, memberRows);
    SortSortedIsIdentity(memberRows);
    var tagRows := TagRowsOf(id, Present(rel.tags));
    ReplaceGroup(db.relationTags, id, tagRows, id);
    ReplaceKeepsShape(db.relationTags, id, tagRows);
    var relation := BuildRelation(row);
    MembersReadBack(id, Present(rel.members), relation);
    TagsReadBack(id, Present(rel.tags), relation.(members := NonEmpty(Some(Present(rel.members)))));
  }

  /** Writing the same object twice leaves the database as writing it once. */
  lemma AddOrUpdateIdempotent(db: Tables, g: Option<OsmGeo>, tile: (int, int) -> int)
    ensures AddOrUpdateSpec(AddOrUpdateSpec(db, g, tile).0, g, tile) == AddOrUpdateSpec(db, g, tile)
  {
    if g.Some? && g.value.meta.id.Some? {
      var x, id := g.value, g.value.meta.id.value;
      var tags := TagRowsOf(id, Present(x.tags));
      match x
      case Node(_, _, _, _) =>
        ReplaceGroup(db.nodeTags, id, tags, id);
        WithoutTwice(db.nodeTags, id);
        if HasRowValues(x.meta) && x.latitude.Some? && x.longitude.Some? {
          var lat, lon := x.latitude.value, x.longitude.value;
          UpsertIdempotent(db.node, NodeKey, NodeRow(EntityRowOf(x.meta), lat, lon, tile(lat, lon)));
        }
      case Way(_, _, _) =>
        ReplaceGroup(db.wayTags, id, tags, id);
        ReplaceGroup(db.wayNodes, id, WayNodeRowsOf(id, Present(x.nodes)), id);
        WithoutTwice(db.wayTags, id);
        WithoutTwice(db.wayNodes, id);
        if HasRowValues(x.meta) { UpsertIdempotent(db.way, EntityKey, EntityRowOf(x.meta)); }
      case Relation(_, _, _) =>
        ReplaceGroup(db.relationTags, id, tags, id);
        ReplaceGroup(db.relationMembers, id, MemberRowsOf(id, Present(x.members)), id);
        WithoutTwice(db.relationTags, id);
        WithoutTwice(db.relationMembers, id);
        if HasRowValues(x.meta) { UpsertIdempotent(db.relation, EntityKey, EntityRowOf(x.meta)); }
    }
  }

  /** Writing a node leaves the node row and the tags of every other node
      as they were. */
  lemma NodeWriteKeepsOthers(db: Tables, n: OsmGeo, tile: (int, int) -> int, id: int)
    requires Consistent(db) && n.Node? && n.meta.id.Some? && id != n.meta.id.value
    ensures var db' := AddOrUpdateNodeSpec(db, n, tile).0;
      FindKey(db'.node, NodeKey, id) == FindKey(db.node, NodeKey, id)
      && OwnedBy(db'.nodeTags, id) == OwnedBy(db.nodeTags, id)
  {
    var nid := n.meta.id.value;
    ReplaceGroup(db.nodeTags, nid, TagRowsOf(nid, Present(n.tags)), id);
    OwnedByWithout(db.nodeTags, nid, id);
    if HasRowValues(n.meta) && n.latitude.Some? && n.longitude.Some? {
      var lat, lon := n.latitude.value, n.longitude.value;
      UpsertKeepsOthers(db.node, NodeKey, NodeRow(EntityRowOf(n.meta), lat, lon, tile(lat, lon)), id);
    }
  }

  lemma WayWriteKeepsOthers(db: Tables, w: OsmGeo, id: int)
    requires Consistent(db) && w.Way? && w.meta.id.Some? && id != w.meta.id.value
    ensures var db' := AddOrUpdateWaySpec(db, w).0;
      FindKey(db'.way, EntityKey, id) == FindKey(db.way, EntityKey, id)
      && OwnedBy(db'.wayTags, id) == OwnedBy(db.wayTags, id)
      && OwnedBy(db'.wayNodes, id) == OwnedBy(db.wayNodes, id)
  {
    var wid := w.meta.id.value;
    ReplaceGroup(db.wayTags, wid, TagRowsOf(wid, Present(w.tags)), id);
    ReplaceGroup(db.wayNodes, wid, WayNodeRowsOf(wid, Present(w.nodes)), id);
    OwnedByWithout(db.wayTags, wid, id);
    OwnedByWithout(db.wayNodes, wid, id);
    if HasRowValues(w.meta) { UpsertKeepsOthers(db.way, EntityKey, EntityRowOf(w.meta), id); }
  }

  lemma RelationWriteKeepsOthers(db: Tables, rel: OsmGeo, id: int)
    requires Consistent(db) && rel.Relation? && rel.meta.id.Some? && id != rel.meta.id.value
    ensures var db' := AddOrUpdateRelationSpec(db, rel).0;
      FindKey(db'.relation, EntityKey, id) == FindKey(db.relation, EntityKey, id)
      && OwnedBy(db'.relationTags, id) == OwnedBy(db.relationTags, id)
      && OwnedBy(db'.relationMembers, id) == OwnedBy(db.relationMembers, id)
  {
    var rid := rel.meta.id.value;
    ReplaceGroup(db.relationTags, rid, TagRowsOf(rid, Present(rel.tags)), id);
    ReplaceGroup(db.relationMembers, rid, MemberRowsOf(rid, Present(rel.members)), id);
    OwnedByWithout(db.relationTags, rid, id);
    OwnedByWithout(db.relationMembers, rid, id);
    if HasRowValues(rel.meta) { UpsertKeepsOthers(db.relation, EntityKey, EntityRowOf(rel.meta), id); }
  }

  /** Two databases agree on what `Get(t, id)` reads: the parent row of
      `id` and the child rows of `id`. */
  predicate SameView(db: Tables, db': Tables, t: OsmGeoType, id: int) {
    match t
    case NodeType =>
      FindKey(db.node, NodeKey, id) == FindKey(db'.node, NodeKey, id)
      && OwnedBy(db.nodeTags, id) == OwnedBy(db'.nodeTags, id)
    case WayType =>
      FindKey(db.way, EntityKey, id) == FindKey(db'.way, EntityKey, id)
      && OwnedBy(db.wayTags, id) == OwnedBy(db'.wayTags, id)
      && OwnedBy(db.wayNodes, id) == OwnedBy(db'.wayNodes, id)
    case RelationType =>
      FindKey(db.relation, EntityKey, id) == FindKey(db'.relation, EntityKey, id)
      && OwnedBy(db.relationTags, id) == OwnedBy(db'.relationTags, id)
      && OwnedBy(db.relationMembers, id) == OwnedBy(db'.relationMembers, id)
  }

  /** `Get(t, id)` reads nothing but that view. */
  lemma GetReadsOnlyView(db: Tables, db': Tables, t: OsmGeoType, id: int)
    requires db.Shaped() && db'.Shaped() && SameView(db, db', t, id)
    ensures GetSpec(db, t, id) == GetSpec(db', t, id)
  {
  }

  /** A write changes what reading gives back for its own object only:
      every other type and id reads back as before. */
  lemma AddOrUpdateKeepsOthers(db: Tables, g: Option<OsmGeo>, tile: (int, int) -> int, t: OsmGeoType, id: int)
    requires Consistent(db)
    requires g.Some? && g.value.meta.id.Some? ==> t != g.value.GeoType() || id != g.value.meta.id.value
    ensures AddOrUpdateSpec(db, g, tile).0.Shaped()
    ensures GetSpec(AddOrUpdateSpec(db, g, tile).0, t, id) == GetSpec(db, t, id)
  {
    var db' := AddOrUpdateSpec(db, g, tile).0;
    AddOrUpdateKeepsConsistent(db, g, tile);
    if g.Some? && g.value.meta.id.Some? {
      var x := g.value;
      if t == x.GeoType() {
        match x
        case Node(_, _, _, _) => NodeWriteKeepsOthers(db, x, tile, id);
        case Way(_, _, _) => WayWriteKeepsOthers(db, x, id);
        case Relation(_, _, _) => RelationWriteKeepsOthers(db, x, id);
      }
      assert SameView(db, db', t, id);
      GetReadsOnlyView(db, db', t, id);
    }
  }

  // ---------------------------------------------------------------------------
  // Deleting one entity.

  /** Whether the parent table of `t` holds a row with id `id`. */
  predicate Stored(db: Tables, t: OsmGeoType, id: int) {
    match t
    case NodeType => FindKey(db.node, NodeKey, id).Some?
    case WayType => FindKey(db.way, EntityKey, id).Some?
    case RelationType => FindKey(db.relation, EntityKey, id).Some?
  }

  /** Reading gives null exactly for an object without a parent row. */
  lemma GetNullIffNotStored(db: Tables, t: OsmGeoType, id: int)
    requires db.Shaped()
    ensures GetSpec(db, t, id) == Success(None) <==> !Stored(db, t, id)
  {
  }

  /** `Delete(type, id)` as written: each statement it builds leaves a
      parenthesis open (and the node case names a `node_tag` table), so the
      engine rejects the first statement and nothing is deleted. */
  function DeleteSpec(db: Tables, t: OsmGeoType, id: int): (r: (Tables, Result<bool, Error>))
    ensures r.0 == db
  {
    (db, Failure(SqlFailure))
  }

  /** `Delete(type, id)` as intended: delete the child rows of `id`, then its
      parent row, and report whether a parent row was deleted. */
  function DeleteIntendedSpec(db: Tables, t: OsmGeoType, id: int): (r: (Tables, bool))
    ensures r.1 <==> Stored(db, t, id)
  {
    match t
    case NodeType =>
      (db.(nodeTags := Without(db.nodeTags, id), node := RemoveKey(db.node, NodeKey, id)),
       CountKey(db.node, NodeKey, id) > 0)
    case WayType =>
      (db.(wayTags := Without(db.wayTags, id), wayNodes := Without(db.wayNodes, id),
           way := RemoveKey(db.way, EntityKey, id)),
       CountKey(db.way, EntityKey, id) > 0)
    case RelationType =>
      (db.(relationTags := Without(db.relationTags, id), relationMembers := Without(db.relationMembers, id),
           relation := RemoveKey(db.relation, EntityKey, id)),
       CountKey(db.relation, EntityKey, id) > 0)
  }

  lemma DeleteIntendedKeepsConsistent(db: Tables, t: OsmGeoType, id: int)
    requires Consistent(db)
    ensures Consistent(DeleteIntendedSpec(db, t, id).0)
  {
    WithoutKeepsShape(db.nodeTags, id);
    WithoutKeepsShape(db.wayTags, id);
    WithoutKeepsShape(db.wayNodes, id);
    WithoutKeepsShape(db.relationTags, id);
    WithoutKeepsShape(db.relationMembers, id);
    RemoveKeyKeepsOthers(db.node, NodeKey, id, id);
    RemoveKeyKeepsOthers(db.way, EntityKey, id, id);
    RemoveKeyKeepsOthers(db.relation, EntityKey, id, id);
  }

  /** After the delete exactly the objects stored before, less the deleted
      one, are stored. */
  lemma DeleteIntendedRemovesOnly(db: Tables, t: OsmGeoType, id: int, t2: OsmGeoType, id2: int)
    requires Consistent(db)
    ensures Stored(DeleteIntendedSpec(db, t, id).0, t2, id2) <==> Stored(db, t2, id2) && (t2 != t || id2 != id)
  {
    if t2 == t {
      match t
      case NodeType => RemoveKeyKeepsOthers(db.node, NodeKey, id, id2);
      case WayType => RemoveKeyKeepsOthers(db.way, EntityKey, id, id2);
      case RelationType => RemoveKeyKeepsOthers(db.relation, EntityKey, id, id2);
    }
  }

  /** Reading back after the delete: the object reads null, none of its
      child rows is left, and every other object reads as before. */
  lemma DeleteIntendedReadsBack(db: Tables, t: OsmGeoType, id: int, t2: OsmGeoType, id2: int)
    requires Consistent(db)
    ensures DeleteIntendedSpec(db, t, id).0.Shaped()
    ensures GetSpec(DeleteIntendedSpec(db, t, id).0, t, id) == Success(None)
    ensures NoChildRows(DeleteIntendedSpec(db, t, id).0, t, id)
    ensures t2 != t || id2 != id ==>
              GetSpec(DeleteIntendedSpec(db, t, id).0, t2, id2) == GetSpec(db, t2, id2)
  {
    var db' := DeleteIntendedSpec(db, t, id).0;
    DeleteIntendedKeepsConsistent(db, t, id);
    DeleteIntendedRemovesOnly(db, t, id, t, id);
    GetNullIffNotStored(db', t, id);
    OwnedByWithout(db.nodeTags, id, id);
    OwnedByWithout(db.wayTags, id, id);
    OwnedByWithout(db.wayNodes, id, id);
    OwnedByWithout(db.relationTags, id, id);
    OwnedByWithout(db.relationMembers, id, id);
    if t2 != t || id2 != id {
      if t2 == t {
        OwnedByWithout(db.nodeTags, id, id2);
        OwnedByWithout(db.wayTags, id, id2);
        OwnedByWithout(db.wayNodes, id, id2);
        OwnedByWithout(db.relationTags, id, id2);
        OwnedByWithout(db.relationMembers, id, id2);
        match t
        case NodeType => RemoveKeyKeepsOthers(db.node, NodeKey, id, id2);
        case WayType => RemoveKeyKeepsOthers(db.way, EntityKey, id, id2);
        case RelationType => RemoveKeyKeepsOthers(db.relation, EntityKey, id, id2);
      }
      assert SameView(db, db', t2, id2);
      GetReadsOnlyView(db, db', t2, id2);
    }
  }

  /** No child table holds a row of `id` for type `t`. */
  predicate NoChildRows(db: Tables, t: OsmGeoType, id: int) {
    match t
    case NodeType => OwnedBy(db.nodeTags, id) == []
    case WayType => OwnedBy(db.wayTags, id) == [] && OwnedBy(db.wayNodes, id) == []
    case RelationType => OwnedBy(db.relationTags, id) == [] && OwnedBy(db.relationMembers, id) == []
  }

  /** The input that shows the defect: a stored object survives `Delete`,
      which fails, where the intended delete reports it deleted and leaves it
      unstored. */
  lemma DeleteKeepsStoredObject(db: Tables, t: OsmGeoType, id: int)
    requires Consistent(db) && Stored(db, t, id)
    ensures DeleteSpec(db, t, id).1.Failure? && Stored(DeleteSpec(db, t, id).0, t, id)
    ensures DeleteIntendedSpec(db, t, id).1 && !Stored(DeleteIntendedSpec(db, t, id).0, t, id)
  {
    DeleteIntendedRemovesOnly(db, t, id, t, id);
  }

  /** The input that shows the `GetNode` defect: a node just written is
      stored, yet reading it fails, where the intended read gives it back. */
  lemma GetNodeFailsOnStoredNode(db: Tables, n: OsmGeo, tile: (int, int) -> int)
    requires Consistent(db) && n.Node? && n.meta.id.Some? && HasRowValues(n.meta)
    requires n.latitude.Some? && n.longitude.Some?
    ensures GetNodeSpec(AddOrUpdateNodeSpec(db, n, tile).0, n.meta.id.value) == Failure(SqlFailure)
    ensures AddOrUpdateNodeSpec(db, n, tile).0.Shaped()
    ensures GetNodeIntendedSpec(AddOrUpdateNodeSpec(db, n, tile).0, n.meta.id.value).Success?
  {
    NodeRoundTrip(db, n, tile);
  }

  // ---------------------------------------------------------------------------
  // The list overloads.

  /** Results collected in order; the first failure ends the collection
      with its error. */
  function Collect<T>(rs: seq<Result<T, Error>>): (r: Result<seq<T>, Error>)
    ensures r.Success? <==> forall i :: 0 <= i < |rs| ==> rs[i].Success?
    ensures r.Success? ==> |r.value| == |rs| && forall i :: 0 <= i < |rs| ==> rs[i] == Success(r.value[i])
    ensures r.Failure? ==> exists i :: (0 <= i < |rs| && rs[i] == Failure(r.error)
              && forall j :: 0 <= j < i ==> rs[j].Success?)
  {
    if rs == [] then Success([])
    else
      var n := |rs| - 1;
      var prefix := Collect(rs[..n]);
      assert forall i :: 0 <= i < n ==> rs[..n][i] == rs[i];
      if prefix.Failure? then prefix
      else if rs[n].Failure? then Failure(rs[n].error)
      else Success(prefix.value + [rs[n].value])
  }

  /** Collecting one more result. */
  lemma CollectStep<T>(rs: seq<Result<T, Error>>, x: Result<T, Error>)
    ensures Collect(rs + [x]) == if Collect(rs).Failure? then Collect(rs)
                                 else if x.Failure? then Failure(x.error)
                                 else Success(Collect(rs).value + [x.value])
  {
    assert (rs + [x])[..|rs|] == rs;
  }

  /** Results that all succeed collect into their values. */
  lemma {:induction false} CollectAllSuccess<T>(rs: seq<Result<T, Error>>, vs: seq<T>)
    requires |vs| == |rs| && forall k :: 0 <= k < |rs| ==> rs[k] == Success(vs[k])
    ensures Collect(rs) == Success(vs)
  {
    if rs != [] {
      var n := |rs| - 1;
      CollectAllSuccess(rs[..n], vs[..n]);
      assert rs == rs[..n] + [rs[n]] && vs == vs[..n] + [vs[n]];
      CollectStep(rs[..n], rs[n]);
    }
  }

  /** The first failing result decides the collection. */
  lemma {:induction false} CollectFirstFailure<T>(rs: seq<Result<T, Error>>, i: nat)
    requires i < |rs| && rs[i].Failure? && forall k :: 0 <= k < i ==> rs[k].Success?
    ensures Collect(rs) == Failure(rs[i].error)
  {
    var n := |rs| - 1;
    assert rs == rs[..n] + [rs[n]];
    CollectStep(rs[..n], rs[n]);
    if i < n {
      CollectFirstFailure(rs[..n], i);
    }
  }

  /** The reads `Get(types[i], ids[i])`, one per pair. */
  function GetEach(db: Tables, types: seq<OsmGeoType>, ids: seq<int>): (rs: seq<Result<Option<OsmGeo>, Error>>)
    requires db.Shaped() && |types| == |ids|
    ensures |rs| == |ids| && forall i :: 0 <= i < |ids| ==> rs[i] == GetSpec(db, types[i], ids[i])
  {
    seq(|ids|, i requires 0 <= i < |ids| => GetSpec(db, types[i], ids[i]))
  }

  /** `Get(types, ids)`: a null list is rejected, then lists of different
      lengths; otherwise the reads of every pair in order. */
  function GetListSpec(db: Tables, types: Option<seq<OsmGeoType>>, ids: Option<seq<int>>): (r: Result<seq<Option<OsmGeo>>, Error>)
    requires db.Shaped()
    ensures types.None? || ids.None? ==> r == Failure(ArgumentNull)
    ensures types.Some? && ids.Some? && |types.value| != |ids.value| ==> r == Failure(ArgumentInvalid)
    ensures r.Success? ==> (types.Some? && ids.Some? && |r.value| == |ids.value| == |types.value|
              && forall i :: 0 <= i < |r.value| ==> GetSpec(db, types.value[i], ids.value[i]) == Success(r.value[i]))
  {
    if types.None? || ids.None? then Failure(ArgumentNull)
    else if |ids.value| != |types.value| then Failure(ArgumentInvalid)
    else Collect(GetEach(db, types.value, ids.value))
  }

  /** The list read fails with the first failing read. */
  lemma ListFails(db: Tables, types: seq<OsmGeoType>, ids: seq<int>, i: nat)
    requires db.Shaped() && |types| == |ids| && i < |ids|
    requires GetEach(db, types, ids)[i].Failure?
    requires forall k :: 0 <= k < i ==> GetEach(db, types, ids)[k].Success?
    ensures GetListSpec(db, Some(types), Some(ids)) == Failure(GetEach(db, types, ids)[i].error)
  {
    CollectFirstFailure(GetEach(db, types, ids), i);
  }

  /** The list read gives every read's value when all of them succeed. */
  lemma ListSucceeds(db: Tables, types: seq<OsmGeoType>, ids: seq<int>, vs: seq<Option<OsmGeo>>)
    requires db.Shaped() && |types| == |ids| == |vs|
    requires forall k :: 0 <= k < |ids| ==> GetEach(db, types, ids)[k] == Success(vs[k])
    ensures GetListSpec(db, Some(types), Some(ids)) == Success(vs)
  {
    CollectAllSuccess(GetEach(db, types, ids), vs);
  }

  /** The pair `(t, id)` is among the first `n` pairs of the lists. */
  predicate Listed(types: seq<OsmGeoType>, ids: seq<int>, t: OsmGeoType, id: int, n: nat)
    requires n <= |types| && n <= |ids|
  {
    exists i :: 0 <= i < n && types[i] == t && ids[i] == id
  }

  /** A pair is among all the pairs when it is among all but the last, or is the last. */
  lemma ListedLast(types: seq<OsmGeoType>, ids: seq<int>, t: OsmGeoType, id: int)
    requires |types| == |ids| > 0
    ensures Listed(types, ids, t, id, |ids|) <==>
            Listed(types[..|ids| - 1], ids[..|ids| - 1], t, id, |ids| - 1) || (types[|ids| - 1] == t && ids[|ids| - 1] == id)
  {
    var n := |ids| - 1;
    if Listed(types, ids, t, id, |ids|) {
      var i :| 0 <= i < |ids| && types[i] == t && ids[i] == id;
      if i < n { assert types[..n][i] == t && ids[..n][i] == id; }
    }
    if Listed(types[..n], ids[..n], t, id, n) {
      var i :| 0 <= i < n && types[..n][i] == t && ids[..n][i] == id;
      assert types[i] == t && ids[i] == id;
    }
  }

  /** Among the first `i` pairs is the same whether the lists are cut at `n >= i` or not. */
  lemma ListedPrefix(types: seq<OsmGeoType>, ids: seq<int>, t: OsmGeoType, id: int, i: nat, n: nat)
    requires i <= n <= |ids| == |types|
    ensures Listed(types, ids, t, id, i) <==> Listed(types[..n], ids[..n], t, id, i)
  {
    if Listed(types, ids, t, id, i) {
      var k :| 0 <= k < i && types[k] == t && ids[k] == id;
      assert types[..n][k] == t && ids[..n][k] == id;
    }
  }

  /** The deletes of `Delete(types, ids)` in list order, each on the database
      the ones before it left, and the results they report. */
  function DeleteAllSpec(db: Tables, types: seq<OsmGeoType>, ids: seq<int>): (r: (Tables, seq<bool>))
    requires |types| == |ids|
    ensures |r.1| == |ids|
    decreases |ids|
  {
    if ids == [] then (db, [])
    else
      var n := |ids| - 1;
      var prefix := DeleteAllSpec(db, types[..n], ids[..n]);
      var last := DeleteIntendedSpec(prefix.0, types[n], ids[n]);
      (last.0, prefix.1 + [last.1])
  }

  /** Deleting one more pair of the lists. */
  lemma DeleteAllStep(db: Tables, types: seq<OsmGeoType>, ids: seq<int>, i: nat)
    requires i < |ids| == |types|
    ensures DeleteAllSpec(db, types[..i + 1], ids[..i + 1]) ==
            var prefix := DeleteAllSpec(db, types[..i], ids[..i]);
            var last := DeleteIntendedSpec(prefix.0, types[i], ids[i]);
            (last.0, prefix.1 + [last.1])
  {
    assert types[..i + 1][..i] == types[..i] && ids[..i + 1][..i] == ids[..i];
  }

  /** `Delete(types, ids)`, with the intended single delete: a null list is
      rejected, then lists of different lengths, before anything is deleted. */
  function DeleteListSpec(db: Tables, types: Option<seq<OsmGeoType>>, ids: Option<seq<int>>): (r: (Tables, Result<seq<bool>, Error>))
    ensures types.None? || ids.None? ==> r == (db, Failure(ArgumentNull))
    ensures types.Some? && ids.Some? && |types.value| != |ids.value| ==> r == (db, Failure(ArgumentInvalid))
    ensures r.1.Success? ==> types.Some? && ids.Some? && |r.1.value| == |ids.value|
  {
    if types.None? || ids.None? then (db, Failure(ArgumentNull))
    else if |ids.value| != |types.value| then (db, Failure(ArgumentInvalid))
    else
      var all := DeleteAllSpec(db, types.value, ids.value);
      (all.0, Success(all.1))
  }

  /** After deleting a list, an object is stored exactly when it was stored
      before and is not in the list; the database stays consistent. */
  lemma {:induction false} DeleteAllRemovesListed(db: Tables, types: seq<OsmGeoType>, ids: seq<int>, t: OsmGeoType, id: int)
    requires Consistent(db) && |types| == |ids|
    ensures Consistent(DeleteAllSpec(db, types, ids).0)
    ensures Stored(DeleteAllSpec(db, types, ids).0, t, id) <==> Stored(db, t, id) && !Listed(types, ids, t, id, |ids|)
    decreases |ids|
  {
    if ids != [] {
      var n := |ids| - 1;
      var prefix := DeleteAllSpec(db, types[..n], ids[..n]);
      DeleteAllRemovesListed(db, types[..n], ids[..n], t, id);
      DeleteIntendedKeepsConsistent(prefix.0, types[n], ids[n]);
      DeleteIntendedRemovesOnly(prefix.0, types[n], ids[n], t, id);
      ListedLast(types, ids, t, id);
    }
  }

  /** The i-th result of deleting a list is true exactly when its object was
      stored before and no earlier pair of the list named it. */
  lemma {:induction false} DeleteAllResults(db: Tables, types: seq<OsmGeoType>, ids: seq<int>, i: nat)
    requires Consistent(db) && |types| == |ids| && i < |ids|
    ensures DeleteAllSpec(db, types, ids).1[i] <==> Stored(db, types[i], ids[i]) && !Listed(types, ids, types[i], ids[i], i)
    decreases |ids|
  {
    var n := |ids| - 1;
    var prefix := DeleteAllSpec(db, types[..n], ids[..n]);
    if i < n {
      DeleteAllResults(db, types[..n], ids[..n], i);
    } else {
      DeleteAllRemovesListed(db, types[..n], ids[..n], types[i], ids[i]);
    }
    ListedPrefix(types, ids, types[i], ids[i], i, n);
  }

  // ---------------------------------------------------------------------------
  // Inserting child rows.

  /** `INSERT into ..._tags` once per tag, in order. */
  method InsertTagRows(table: seq<ChildRow>, id: int, tags: seq<Tag>) returns (r: seq<ChildRow>)
    ensures r == table + TagRowsOf(id, tags)
  {
    r := table;
    for i := 0 to |tags|
      invariant r == table + TagRowsOf(id, tags[..i])
    {
      assert TagRowsOf(id, tags[..i + 1]) == TagRowsOf(id, tags[..i]) + [TagRow(id, tags[i].key, tags[i].value)];
      r := r + [TagRow(id, tags[i].key, tags[i].value)];
    }
    assert tags[..|tags|] == tags;
  }

  /** `INSERT into way_nodes` once per node, `sequence_id` the loop index. */
  method InsertWayNodeRows(table: seq<ChildRow>, id: int, nodes: seq<int>) returns (r: seq<ChildRow>)
    ensures r == table + WayNodeRowsOf(id, nodes)
  {
    r := table;
    for i := 0 to |nodes|
      invariant r == table + WayNodeRowsOf(id, nodes[..i])
    {
      assert WayNodeRowsOf(id, nodes[..i + 1]) == WayNodeRowsOf(id, nodes[..i]) + [WayNodeRow(id, nodes[i], i)];
      r := r + [WayNodeRow(id, nodes[i], i)];
    }
    assert nodes[..|nodes|] == nodes;
  }

  /** `INSERT into relation_members` once per member, `sequence_id` the loop index. */
  method InsertMemberRows(table: seq<ChildRow>, id: int, members: seq<RelationMember>) returns (r: seq<ChildRow>)
    ensures r == table + MemberRowsOf(id, members)
  {
    r := table;
    for i := 0 to |members|
      invariant r == table + MemberRowsOf(id, members[..i])
    {
      var m := members[i];
      assert MemberRowsOf(id, members[..i + 1])
          == MemberRowsOf(id, members[..i]) + [MemberRow(id, m.id, m.memberType, m.role, i)];
      r := r + [MemberRow(id, m.id, m.memberType, m.role, i)];
    }
    assert members[..|members|] == members;
  }

  /** `update ... where id = :id`, then the insert when no row was updated. */
  method UpdateOrInsert<R>(table: seq<R>, key: R -> int, row: R) returns (r: seq<R>)
    ensures r == Upsert(table, key, row)
  {
    var updated := CountKey(table, key, key(row));
    r := UpdateWhereKey(table, key, row);
    if updated == 0 {
      assert r == table;
      r := r + [row];
    }
  }

  // ---------------------------------------------------------------------------
  // The database object.

  class SnapshotDb {
    var db: Tables
    /** The tile id of a position, given in 10^-7 degree. */
    const tile: (int, int) -> int

    ghost predicate Valid()
      reads this
    {
      Consistent(db)
    }

    /** A database object over an open connection to `db`. */
    constructor (db: Tables, tile: (int, int) -> int)
      requires Consistent(db)
      ensures Valid() && this.db == db && this.tile == tile
    {
      this.db := db;
      this.tile := tile;
    }

    method AddOrUpdate(g: Option<OsmGeo>) returns (r: Result<(), Error>)
      requires Valid()
      modifies this
      ensures Valid() && (db, r) == AddOrUpdateSpec(old(db), g, tile)
    {
      AddOrUpdateKeepsConsistent(db, g, tile);
      if g.None? {
        return Failure(ArgumentNull);
      }
      if g.value.meta.id.None? {
        return Failure(ArgumentInvalid);
      }
      match g.value
      case Node(_, _, _, _) => r := AddOrUpdateNode(g.value);
      case Way(_, _, _) => r := AddOrUpdateWay(g.value);
      case Relation(_, _, _) => r := AddOrUpdateRelation(g.value);
    }

    method AddOrUpdateNode(n: OsmGeo) returns (r: Result<(), Error>)
      requires n.Node? && n.meta.id.Some?
      modifies this
      ensures (db, r) == AddOrUpdateNodeSpec(old(db), n, tile)
    {
      var id := n.meta.id.value;
      db := db.(nodeTags := Without(db.nodeTags, id));
      if !HasRowValues(n.meta) || n.latitude.None? || n.longitude.None? {
        return Failure(NullableWithoutValue);
      }
      var lat, lon := n.latitude.value, n.longitude.value;
      var table := UpdateOrInsert(db.node, NodeKey, NodeRow(EntityRowOf(n.meta), lat, lon, tile(lat, lon)));
      db := db.(node := table);
      if n.tags.Some? {
        var rows := InsertTagRows(db.nodeTags, id, n.tags.value);
        db := db.(nodeTags := rows);
      } else {
        assert db.nodeTags + TagRowsOf(id, Present(n.tags)) == db.nodeTags;
      }
      r := Success(());
    }

    method AddOrUpdateWay(w: OsmGeo) returns (r: Result<(), Error>)
      requires w.Way? && w.meta.id.Some?
      modifies this
      ensures (db, r) == AddOrUpdateWaySpec(old(db), w)
    {
      var id := w.meta.id.value;
      db := db.(wayTags := Without(db.wayTags, id));
      db := db.(wayNodes := Without(db.wayNodes, id));
      if !HasRowValues(w.meta) {
        return Failure(NullableWithoutValue);
      }
      var table := UpdateOrInsert(db.way, EntityKey, EntityRowOf(w.meta));
      db := db.(way := table);
      if w.tags.Some? {
        var rows := InsertTagRows(db.wayTags, id, w.tags.value);
        db := db.(wayTags := rows);
      } else {
        assert db.wayTags + TagRowsOf(id, Present(w.tags)) == db.wayTags;
      }
      if w.nodes.Some? {
        var rows := InsertWayNodeRows(db.wayNodes, id, w.nodes.value);
        db := db.(wayNodes := rows);
      } else {
        assert db.wayNodes + WayNodeRowsOf(id, Present(w.nodes)) == db.wayNodes;
      }
      r := Success(());
    }

    method AddOrUpdateRelation(rel: OsmGeo) returns (r: Result<(), Error>)
      requires rel.Relation? && rel.meta.id.Some?
      modifies this
      ensures (db, r) == AddOrUpdateRelationSpec(old(db), rel)
    {
      var id := rel.meta.id.value;
      db := db.(relationTags := Without(db.relationTags, id));
      db := db.(relationMembers := Without(db.relationMembers, id));
      if !HasRowValues(rel.meta) {
        return Failure(NullableWithoutValue);
      }
      var table := UpdateOrInsert(db.relation, EntityKey, EntityRowOf(rel.meta));
      db := db.(relation := table);
      if rel.tags.Some? {
        var rows := InsertTagRows(db.relationTags, id, rel.tags.value);
        db := db.(relationTags := rows);
      } else {
        assert db.relationTags + TagRowsOf(id, Present(rel.tags)) == db.relationTags;
      }
      if rel.members.Some? {
        var rows := InsertMemberRows(db.relationMembers, id, rel.members.value);
        db := db.(relationMembers := rows);
      } else {
        assert db.relationMembers + MemberRowsOf(id, Present(rel.members)) == db.relationMembers;
      }
      r := Success(());
    }

    /** `GetNode` as written. */
    method GetNode(id: int) returns (r: Result<Option<OsmGeo>, Error>)
      ensures r == GetNodeSpec(db, id)
    {
      var found := FindKey(db.node, NodeKey, id);
      if found.None? {
        return Success(None);
      }
      // `select * from node_tags where way_id = :id`: no such column.
      return Failure(SqlFailure);
    }

    /** `GetNode` with the tag query on `node_id`. */
    method GetNodeIntended(id: int) returns (r: Result<Option<OsmGeo>, Error>)
      requires Valid()
      ensures r == GetNodeIntendedSpec(db, id)
    {
      var found := FindKey(db.node, NodeKey, id);
      if found.None? {
        return Success(None);
      }
      var node := BuildNode(found.value);
      WithoutKeepsShape(db.nodeTags, id);
      var reader := Open(OwnedBy(db.nodeTags, id), None).Read();
      if reader.HasActiveRow() {
        var _, read := AddTags(reader, node);
        node := read.value;
      }
      return Success(Some(node));
    }

    method GetWay(id: int) returns (r: Result<Option<OsmGeo>, Error>)
      requires Valid()
      ensures r == GetWaySpec(db, id)
    {
      var found := FindKey(db.way, EntityKey, id);
      if found.None? {
        return Success(None);
      }
      var way := BuildWay(found.value);
      WithoutKeepsShape(db.wayNodes, id);
      WithoutKeepsShape(db.wayTags, id);
      SortKeepsShape(OwnedBy(db.wayNodes, id));
      var nodeReader := Open(SortBySequence(OwnedBy(db.wayNodes, id)), None).Read();
      if nodeReader.HasActiveRow() {
        var _, read := AddNodes(nodeReader, way);
        if read.Failure? {
          return Failure(read.error);
        }
        way := read.value;
      }
      var tagReader := Open(OwnedBy(db.wayTags, id), None).Read();
      if tagReader.HasActiveRow() {
        var _, read := AddTags(tagReader, way);
        way := read.value;
      }
      return Success(Some(way));
    }

    method GetRelation(id: int) returns (r: Result<Option<OsmGeo>, Error>)
      requires Valid()
      ensures r == GetRelationSpec(db, id)
    {
      var found := FindKey(db.relation, EntityKey, id);
      if found.None? {
        return Success(None);
      }
      var relation := BuildRelation(found.value);
      WithoutKeepsShape(db.relationMembers, id);
      WithoutKeepsShape(db.relationTags, id);
      SortKeepsShape(OwnedBy(db.relationMembers, id));
      var memberReader := Open(SortBySequence(OwnedBy(db.relationMembers, id)), None).Read();
      if memberReader.HasActiveRow() {
        var _, read := AddMembers(memberReader, relation);
        if read.Failure? {
          return Failure(read.error);
        }
        relation := read.value;
      }
      var tagReader := Open(OwnedBy(db.relationTags, id), None).Read();
      if tagReader.HasActiveRow() {
        var _, read := AddTags(tagReader, relation);
        relation := read.value;
      }
      return Success(Some(relation));
    }

    /** `Get(type, id)`, nodes read as intended. */
    method Get(t: OsmGeoType, id: int) returns (r: Result<Option<OsmGeo>, Error>)
      requires Valid()
      ensures r == GetSpec(db, t, id)
    {
      match t
      case NodeType => r := GetNodeIntended(id);
      case WayType => r := GetWay(id);
      case RelationType => r := GetRelation(id);
    }

    /** `Get(types, ids)`. */
    method GetList(types: Option<seq<OsmGeoType>>, ids: Option<seq<int>>) returns (r: Result<seq<Option<OsmGeo>>, Error>)
      requires Valid()
      ensures r == GetListSpec(db, types, ids)
    {
      if types.None? || ids.None? {
        return Failure(ArgumentNull);
      }
      if |ids.value| != |types.value| {
        return Failure(ArgumentInvalid);
      }
      var ts, xs := types.value, ids.value;
      ghost var each := GetEach(db, ts, xs);
      var result: seq<Option<OsmGeo>> := [];
      for i := 0 to |xs|
        invariant |result| == i && forall k :: 0 <= k < i ==> each[k] == Success(result[k])
      {
        var read := GetAt(ts, xs, i);
        if read.Failure? {
          ListFails(db, ts, xs, i);
          return Failure(read.error);
        }
        result := result + [read.value];
      }
      ListSucceeds(db, ts, xs, result);
      r := Success(result);
    }

    /** `Get(types[i], ids[i])`, the i-th read of the list overload. */
    method GetAt(types: seq<OsmGeoType>, ids: seq<int>, i: nat) returns (r: Result<Option<OsmGeo>, Error>)
      requires Valid() && |types| == |ids| && i < |ids|
      ensures r == GetEach(db, types, ids)[i]
    {
      r := Get(types[i], ids[i]);
    }

    /** `Delete(type, id)` as written: the first statement is rejected. */
    method Delete(t: OsmGeoType, id: int) returns (r: Result<bool, Error>)
      requires Valid()
      modifies this
      ensures Valid() && (db, r) == DeleteSpec(old(db), t, id)
    {
      return Failure(SqlFailure);
    }

    /** `Delete(type, id)` as intended: child rows, then the parent row;
        true when a parent row was deleted. */
    method DeleteIntended(t: OsmGeoType, id: int) returns (deleted: bool)
      requires Valid()
      modifies this
      ensures Valid() && (db, deleted) == DeleteIntendedSpec(old(db), t, id)
    {
      DeleteIntendedKeepsConsistent(db, t, id);
      match t
      case NodeType =>
        db := db.(nodeTags := Without(db.nodeTags, id));
        deleted := CountKey(db.node, NodeKey, id) > 0;
        db := db.(node := RemoveKey(db.node, NodeKey, id));
      case WayType =>
        db := db.(wayTags := Without(db.wayTags, id));
        db := db.(wayNodes := Without(db.wayNodes, id));
        deleted := CountKey(db.way, EntityKey, id) > 0;
        db := db.(way := RemoveKey(db.way, EntityKey, id));
      case RelationType =>
        db := db.(relationTags := Without(db.relationTags, id));
        db := db.(relationMembers := Without(db.relationMembers, id));
        deleted := CountKey(db.relation, EntityKey, id) > 0;
        db := db.(relation := RemoveKey(db.relation, EntityKey, id));
    }

    /** `Delete(types, ids)`, one intended delete per pair, in order. */
    method DeleteList(types: Option<seq<OsmGeoType>>, ids: Option<seq<int>>) returns (r: Result<seq<bool>, Error>)
      requires Valid()
      modifies this
      ensures Valid() && (db, r) == DeleteListSpec(old(db), types, ids)
    {
      if types.None? || ids.None? {
        return Failure(ArgumentNull);
      }
      if |ids.value| != |types.value| {
        return Failure(ArgumentInvalid);
      }
      var ts, xs := types.value, ids.value;
      var result: seq<bool> := [];
      for i := 0 to |xs|
        invariant Valid()
        invariant (db, result) == DeleteAllSpec(old(db), ts[..i], xs[..i])
      {
        DeleteAllStep(old(db), ts, xs, i);
        var deleted := DeleteIntended(ts[i], xs[i]);
        result := result + [deleted];
      }
      assert ts[..|xs|] == ts && xs[..|xs|] == xs;
      r := Success(result);
    }
  }
}

