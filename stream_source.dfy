/** The snapshot stream source: eight forward-only readers, one per table,
    walked as a merge-join. Nodes come first, then ways, then relations; for
    the entity under its parent reader, `Current` reads the child rows of that
    entity from the child readers, which are sorted by owner. */
module StreamSource {
  import opened Wrappers
  import opened Osm
  import opened Rows
  import opened SqlExtensions

  // ---------------------------------------------------------------------------
  // The query results.

  /** The `id` column of each parent query, row by row. */
  function NodeIdColumn(t: Tables): (ids: seq<int>)
    ensures |ids| == |t.node|
  {
    seq(|t.node|, k requires 0 <= k < |t.node| => t.node[k].entity.id)
  }

  function WayIdColumn(t: Tables): (ids: seq<int>)
    ensures |ids| == |t.way|
  {
    seq(|t.way|, k requires 0 <= k < |t.way| => t.way[k].id)
  }

  function RelationIdColumn(t: Tables): (ids: seq<int>)
    ensures |ids| == |t.relation|
  {
    seq(|t.relation|, k requires 0 <= k < |t.relation| => t.relation[k].id)
  }

  /** Within one owner, rows come in `sequence_id` order. */
  predicate SequenceWithinOwner(rows: seq<ChildRow>)
    requires AllWayNodeRows(rows) || AllMemberRows(rows)
  {
    forall a, b :: 0 <= a < b < |rows| && rows[a].owner == rows[b].owner ==>
      rows[a].sequenceId <= rows[b].sequenceId
  }

  /** The eight results in the order `Initialize` asks for: parents by id (a
      primary key, so strictly), child tables by owner id and, for way nodes
      and relation members, then by `sequence_id`. Every child row belongs to
      a parent row. */
  predicate Ordered(t: Tables) {
    && t.Shaped()
    && StrictlyIncreasing(NodeIdColumn(t))
    && StrictlyIncreasing(WayIdColumn(t))
    && StrictlyIncreasing(RelationIdColumn(t))
    && SortedByOwner(t.nodeTags) && OwnersAmong(t.nodeTags, NodeIdColumn(t))
    && SortedByOwner(t.wayTags) && OwnersAmong(t.wayTags, WayIdColumn(t))
    && SortedByOwner(t.wayNodes) && OwnersAmong(t.wayNodes, WayIdColumn(t))
    && SequenceWithinOwner(t.wayNodes)
    && SortedByOwner(t.relationTags) && OwnersAmong(t.relationTags, RelationIdColumn(t))
    && SortedByOwner(t.relationMembers) && OwnersAmong(t.relationMembers, RelationIdColumn(t))
    && SequenceWithinOwner(t.relationMembers)
  }

  /** The order of the three categories; -1 before the first move. */
  function Rank(t: Option<OsmGeoType>): (r: int)
    ensures -1 <= r <= 2
    ensures r == -1 <==> t.None?
  {
    match t
    case None => -1
    case Some(NodeType) => 0
    case Some(WayType) => 1
    case Some(RelationType) => 2
  }

  // ---------------------------------------------------------------------------
  // What the stream should deliver.

  /** The child rows of `id` in a sorted child table, as the merge-join sees
      them: present (possibly empty) when some row of owner `id` or greater
      exists, absent when the table ends before `id`. */
  function GroupOf(rows: seq<ChildRow>, id: int): (g: Option<seq<ChildRow>>)
    requires SortedByOwner(rows)
    ensures g.Some? ==> g.value == OwnedBy(rows, id)
    ensures g.None? <==> forall j :: 0 <= j < |rows| ==> rows[j].owner < id
  {
    if LowerBound(rows, id) < |rows| then Some(OwnedBy(rows, id)) else None
  }

  /** Every row of a group has a shape its table allows. */
  lemma GroupShaped(rows: seq<ChildRow>, id: int)
    requires SortedByOwner(rows)
    ensures AllTagRows(rows) ==> AllTagRows(OwnedBy(rows, id))
    ensures AllWayNodeRows(rows) ==> AllWayNodeRows(OwnedBy(rows, id))
    ensures AllMemberRows(rows) ==> AllMemberRows(OwnedBy(rows, id))
  {
    OwnedByIsStretch(rows, id);
  }

  function TagsIn(rows: seq<ChildRow>, id: int): (tags: Option<seq<Tag>>)
    requires SortedByOwner(rows) && AllTagRows(rows)
    ensures tags.Some? <==> GroupOf(rows, id).Some?
  {
    GroupShaped(rows, id);
    match GroupOf(rows, id)
    case None => None
    case Some(g) => Some(TagsOf(g))
  }

  /** A group is in sequence when its `sequence_id`s are 0, 1, 2, ... */
  predicate InSequence(g: seq<ChildRow>)
    requires forall j :: 0 <= j < |g| ==> g[j].WayNodeRow? || g[j].MemberRow?
  {
    forall j :: 0 <= j < |g| ==> g[j].sequenceId == j
  }

  /** The node at row k of the node table, with its tags. */
  function ExpectedNode(t: Tables, k: nat): (r: Result<OsmGeo, Error>)
    requires SortedByOwner(t.nodeTags) && AllTagRows(t.nodeTags) && k < |t.node|
    ensures r.Success? && r.value.Node? && r.value.meta.id == Some(t.node[k].entity.id)
  {
    var n := BuildNode(t.node[k]);
    Success(Node(n.meta, TagsIn(t.nodeTags, t.node[k].entity.id), n.latitude, n.longitude))
  }

  /** The way at row k of the way table, with its tags and nodes, or the
      sequence error when its way nodes are not numbered 0, 1, 2, ... */
  function ExpectedWay(t: Tables, k: nat): (r: Result<OsmGeo, Error>)
    requires SortedByOwner(t.wayTags) && AllTagRows(t.wayTags)
    requires SortedByOwner(t.wayNodes) && AllWayNodeRows(t.wayNodes) && k < |t.way|
    ensures r.Success? ==> r.value.Way? && r.value.meta.id == Some(t.way[k].id)
  {
    var id := t.way[k].id;
    GroupShaped(t.wayNodes, id);
    match GroupOf(t.wayNodes, id)
    case Some(g) =>
      if !InSequence(g) then Failure(InvalidSequence(id))
      else Success(Way(BuildWay(t.way[k]).meta, TagsIn(t.wayTags, id), Some(NodeIdsOf(g))))
    case None => Success(Way(BuildWay(t.way[k]).meta, TagsIn(t.wayTags, id), None))
  }

  /** The relation at row k of the relation table, with its tags and members,
      or the sequence error when its members are not numbered 0, 1, 2, ... */
  function ExpectedRelation(t: Tables, k: nat): (r: Result<OsmGeo, Error>)
    requires SortedByOwner(t.relationTags) && AllTagRows(t.relationTags)
    requires SortedByOwner(t.relationMembers) && AllMemberRows(t.relationMembers) && k < |t.relation|
    ensures r.Success? ==> r.value.Relation? && r.value.meta.id == Some(t.relation[k].id)
  {
    var id := t.relation[k].id;
    GroupShaped(t.relationMembers, id);
    match GroupOf(t.relationMembers, id)
    case Some(g) =>
      if !InSequence(g) then Failure(InvalidSequence(id))
      else Success(Relation(BuildRelation(t.relation[k]).meta, TagsIn(t.relationTags, id), Some(MembersOf(g))))
    case None => Success(Relation(BuildRelation(t.relation[k]).meta, TagsIn(t.relationTags, id), None))
  }

  /** Where a child reader stands while its parent reader is at row k: at the
      first row (k = -1), at the group of row k while that row awaits
      `Current`, or just past it. */
  predicate ChildAt(c: Cursor<ChildRow>, ids: seq<int>, k: int, pending: bool) {
    if k < 0 then c.pos == 0
    else if k < |ids| then c.pos == LowerBound(c.rows, if pending then ids[k] else ids[k] + 1)
    else true
  }

  /** Moving the parent reader from row k to row k + 1 finds the child reader
      at the group of row k + 1. */
  lemma ChildAtNext(c: Cursor<ChildRow>, ids: seq<int>, k: int)
    requires StrictlyIncreasing(ids) && OwnersAmong(c.rows, ids) && SortedByOwner(c.rows)
    requires -1 <= k && k + 1 < |ids| && ChildAt(c, ids, k, false)
    ensures c.pos == LowerBound(c.rows, ids[k + 1])
  {
    if k < 0 {
      LowerBoundAtFirstParent(c.rows, ids);
    } else {
      LowerBoundAfterParent(c.rows, ids, k);
    }
  }

  /** A child reader without a version column standing at the group of `id`
      reads exactly that group and stops past it. */
  lemma ReadsGroup(c: Cursor<ChildRow>, id: int, version: Option<int>)
    requires c.Valid() && c.versions.None? && SortedByOwner(c.rows)
    requires c.pos == LowerBound(c.rows, id) && c.HasActiveRow()
    ensures LowerBound(c.rows, id + 1) <= |c.rows|
    ensures GroupEnd(c, c.pos, id, version) == LowerBound(c.rows, id + 1)
    ensures c.rows[c.pos..LowerBound(c.rows, id + 1)] == OwnedBy(c.rows, id)
  {
    OwnedByIsStretch(c.rows, id);
    var lo, hi := c.pos, LowerBound(c.rows, id + 1);
    assert forall j :: lo <= j < hi ==> c.rows[j] == OwnedBy(c.rows, id)[j - lo];
    GroupEndIs(c, lo, id, version, hi);
  }

  // ---------------------------------------------------------------------------
  // What `Current` reads for each category.

  function ReadNode(parent: Cursor<NodeRow>, tags: Cursor<ChildRow>): (r: (Cursor<ChildRow>, Result<OsmGeo, Error>))
    requires parent.Valid() && tags.Valid() && AllTagRows(tags.rows)
    ensures r.0.rows == tags.rows && r.0.Valid()
  {
    if !parent.HasActiveRow() then (tags, Failure(NoActiveRow))
    else AddTagsSpec(tags, BuildNode(parent.Row()))
  }

  function ReadWay(parent: Cursor<EntityRow>, tags: Cursor<ChildRow>, nodes: Cursor<ChildRow>)
    : (r: (Cursor<ChildRow>, Cursor<ChildRow>, Result<OsmGeo, Error>))
    requires parent.Valid() && tags.Valid() && AllTagRows(tags.rows)
    requires nodes.Valid() && AllWayNodeRows(nodes.rows)
    ensures r.0.rows == tags.rows && r.0.Valid() && r.1.rows == nodes.rows && r.1.Valid()
  {
    if !parent.HasActiveRow() then (tags, nodes, Failure(NoActiveRow))
    else
      // the way carries its id and version, so reading its tags cannot fail
      var (tags', way) := AddTagsSpec(tags, BuildWay(parent.Row()));
      var (nodes', way') := AddNodesSpec(nodes, way.value);
      (tags', nodes', way')
  }

  function ReadRelation(parent: Cursor<EntityRow>, tags: Cursor<ChildRow>, members: Cursor<ChildRow>)
    : (r: (Cursor<ChildRow>, Cursor<ChildRow>, Result<OsmGeo, Error>))
    requires parent.Valid() && tags.Valid() && AllTagRows(tags.rows)
    requires members.Valid() && AllMemberRows(members.rows)
    ensures r.0.rows == tags.rows && r.0.Valid() && r.1.rows == members.rows && r.1.Valid()
  {
    if !parent.HasActiveRow() then (tags, members, Failure(NoActiveRow))
    else
      // the relation carries its id and version, so reading its tags cannot fail
      var (tags', relation) := AddTagsSpec(tags, BuildRelation(parent.Row()));
      var (members', relation') := AddMembersSpec(members, relation.value);
      (tags', members', relation')
  }

  /** A child reader at the group of `id` reads that group as `GroupOf`
      presents it and stops past it. */
  lemma TagsReadAt(c: Cursor<ChildRow>, g: OsmGeo)
    requires c.Valid() && c.versions.None? && SortedByOwner(c.rows) && AllTagRows(c.rows)
    requires g.meta.id.Some? && g.tags.None? && c.pos == LowerBound(c.rows, g.meta.id.value)
    ensures AddTagsSpec(c, g).0.pos == LowerBound(c.rows, g.meta.id.value + 1)
    ensures AddTagsSpec(c, g).1 == Success(g.(tags := TagsIn(c.rows, g.meta.id.value)))
  {
    var id := g.meta.id.value;
    OwnedByIsStretch(c.rows, id);
    if c.HasActiveRow() {
      ReadsGroup(c, id, g.meta.version);
    }
  }

  /** A stretch of rows has no gap exactly when it is in sequence. */
  lemma NoGapIffInSequence(rows: seq<ChildRow>, lo: nat, hi: nat)
    requires lo <= hi <= |rows|
    requires forall k :: lo <= k < hi ==> rows[k].WayNodeRow? || rows[k].MemberRow?
    ensures FirstGap(rows, lo, lo, hi).None? <==> InSequence(rows[lo..hi])
  {
    var gap := FirstGap(rows, lo, lo, hi);
    if gap.Some? {
      assert rows[lo..hi][gap.value - lo].sequenceId != gap.value - lo;
    }
  }

  lemma NodesReadAt(c: Cursor<ChildRow>, way: OsmGeo)
    requires c.Valid() && c.versions.None? && SortedByOwner(c.rows) && AllWayNodeRows(c.rows)
    requires way.Way? && way.meta.id.Some? && way.nodes.None?
    requires c.pos == LowerBound(c.rows, way.meta.id.value) && c.HasActiveRow()
    ensures AllWayNodeRows(OwnedBy(c.rows, way.meta.id.value))
    ensures !InSequence(OwnedBy(c.rows, way.meta.id.value)) ==>
              AddNodesSpec(c, way).1 == Failure(InvalidSequence(way.meta.id.value))
    ensures InSequence(OwnedBy(c.rows, way.meta.id.value)) ==>
              AddNodesSpec(c, way).0.pos == LowerBound(c.rows, way.meta.id.value + 1)
    ensures InSequence(OwnedBy(c.rows, way.meta.id.value)) ==>
              AddNodesSpec(c, way).1 == Success(way.(nodes := Some(NodeIdsOf(OwnedBy(c.rows, way.meta.id.value)))))
  {
    var id := way.meta.id.value;
    GroupShaped(c.rows, id);
    ReadsGroup(c, id, way.meta.version);
    NoGapIffInSequence(c.rows, c.pos, LowerBound(c.rows, id + 1));
  }

  lemma MembersReadAt(c: Cursor<ChildRow>, relation: OsmGeo)
    requires c.Valid() && c.versions.None? && SortedByOwner(c.rows) && AllMemberRows(c.rows)
    requires relation.Relation? && relation.meta.id.Some? && relation.members.None?
    requires c.pos == LowerBound(c.rows, relation.meta.id.value) && c.HasActiveRow()
    ensures AllMemberRows(OwnedBy(c.rows, relation.meta.id.value))
    ensures !InSequence(OwnedBy(c.rows, relation.meta.id.value)) ==>
              AddMembersSpec(c, relation).1 == Failure(InvalidSequence(relation.meta.id.value))
    ensures InSequence(OwnedBy(c.rows, relation.meta.id.value)) ==>
              AddMembersSpec(c, relation).0.pos == LowerBound(c.rows, relation.meta.id.value + 1)
    ensures InSequence(OwnedBy(c.rows, relation.meta.id.value)) ==>
              AddMembersSpec(c, relation).1 == Success(relation.(members := Some(MembersOf(OwnedBy(c.rows, relation.meta.id.value)))))
  {
    var id := relation.meta.id.value;
    GroupShaped(c.rows, id);
    ReadsGroup(c, id, relation.meta.version);
    NoGapIffInSequence(c.rows, c.pos, LowerBound(c.rows, id + 1));
  }

  /** `Current` on node row k, its tag reader at the node's group, delivers
      the expected node and leaves the tag reader past the group. */
  lemma ReadNodeIsExpected(t: Tables, k: nat, tags: Cursor<ChildRow>)
    requires SortedByOwner(t.nodeTags) && AllTagRows(t.nodeTags) && k < |t.node|
    requires tags.Valid() && tags.rows == t.nodeTags && tags.versions.None?
    requires tags.pos == LowerBound(t.nodeTags, t.node[k].entity.id)
    ensures ReadNode(Cursor(t.node, None, k), tags).1 == ExpectedNode(t, k)
    ensures ReadNode(Cursor(t.node, None, k), tags).0.pos == LowerBound(t.nodeTags, t.node[k].entity.id + 1)
  {
    TagsReadAt(tags, BuildNode(t.node[k]));
  }

  /** With the tag reader at the way's group, `ReadWay` reads the way's
      tags and hands the tagged way to the node reader. */
  lemma ReadWayAt(parent: Cursor<EntityRow>, tags: Cursor<ChildRow>, nodes: Cursor<ChildRow>)
    requires parent.Valid() && parent.HasActiveRow()
    requires tags.Valid() && tags.versions.None? && SortedByOwner(tags.rows) && AllTagRows(tags.rows)
    requires nodes.Valid() && AllWayNodeRows(nodes.rows)
    requires tags.pos == LowerBound(tags.rows, parent.Row().id)
    ensures ReadWay(parent, tags, nodes).0.pos == LowerBound(tags.rows, parent.Row().id + 1)
    ensures (ReadWay(parent, tags, nodes).1, ReadWay(parent, tags, nodes).2) ==
            AddNodesSpec(nodes, Way(BuildWay(parent.Row()).meta, TagsIn(tags.rows, parent.Row().id), None))
  {
    TagsReadAt(tags, BuildWay(parent.Row()));
  }

  /** `Current` on way row k with node rows left: the node reader
      stands at the way's group, which decides the result. */
  lemma ReadWayWithRows(t: Tables, k: nat, tags: Cursor<ChildRow>, nodes: Cursor<ChildRow>)
    requires SortedByOwner(t.wayTags) && AllTagRows(t.wayTags)
    requires SortedByOwner(t.wayNodes) && AllWayNodeRows(t.wayNodes) && k < |t.way|
    requires tags.Valid() && tags.rows == t.wayTags && tags.versions.None?
    requires nodes.Valid() && nodes.rows == t.wayNodes && nodes.versions.None?
    requires tags.pos == LowerBound(t.wayTags, t.way[k].id)
    requires nodes.pos == LowerBound(t.wayNodes, t.way[k].id)
    requires nodes.HasActiveRow()
    ensures ReadWay(Cursor(t.way, None, k), tags, nodes).2 == ExpectedWay(t, k)
    ensures ExpectedWay(t, k).Success? ==>
              && ReadWay(Cursor(t.way, None, k), tags, nodes).0.pos == LowerBound(t.wayTags, t.way[k].id + 1)
              && ReadWay(Cursor(t.way, None, k), tags, nodes).1.pos == LowerBound(t.wayNodes, t.way[k].id + 1)
  {
    var id := t.way[k].id;
    var tagged := Way(BuildWay(t.way[k]).meta, TagsIn(t.wayTags, id), None);
    ReadWayAt(Cursor(t.way, None, k), tags, nodes);
    NodesReadAt(nodes, tagged);
    assert GroupOf(t.wayNodes, id) == Some(OwnedBy(t.wayNodes, id));
  }

  /** `Current` on way row k with the node rows used up: the way has none. */
  lemma ReadWayPastRows(t: Tables, k: nat, tags: Cursor<ChildRow>, nodes: Cursor<ChildRow>)
    requires SortedByOwner(t.wayTags) && AllTagRows(t.wayTags)
    requires SortedByOwner(t.wayNodes) && AllWayNodeRows(t.wayNodes) && k < |t.way|
    requires tags.Valid() && tags.rows == t.wayTags && tags.versions.None?
    requires nodes.Valid() && nodes.rows == t.wayNodes && nodes.versions.None?
    requires tags.pos == LowerBound(t.wayTags, t.way[k].id)
    requires nodes.pos == LowerBound(t.wayNodes, t.way[k].id)
    requires !nodes.HasActiveRow()
    ensures ReadWay(Cursor(t.way, None, k), tags, nodes).2 == ExpectedWay(t, k)
    ensures ExpectedWay(t, k).Success? ==>
              && ReadWay(Cursor(t.way, None, k), tags, nodes).0.pos == LowerBound(t.wayTags, t.way[k].id + 1)
              && ReadWay(Cursor(t.way, None, k), tags, nodes).1.pos == LowerBound(t.wayNodes, t.way[k].id + 1)
  {
    var id := t.way[k].id;
    var tagged := Way(BuildWay(t.way[k]).meta, TagsIn(t.wayTags, id), None);
    ReadWayAt(Cursor(t.way, None, k), tags, nodes);
    assert GroupOf(t.wayNodes, id) == None;
  }

  /** `Current` on way row k, both child readers at the way's groups,
      delivers the expected way; on success both readers end past the
      way's groups. */
  lemma ReadWayIsExpected(t: Tables, k: nat, tags: Cursor<ChildRow>, nodes: Cursor<ChildRow>)
    requires SortedByOwner(t.wayTags) && AllTagRows(t.wayTags)
    requires SortedByOwner(t.wayNodes) && AllWayNodeRows(t.wayNodes) && k < |t.way|
    requires tags.Valid() && tags.rows == t.wayTags && tags.versions.None?
    requires nodes.Valid() && nodes.rows == t.wayNodes && nodes.versions.None?
    requires tags.pos == LowerBound(t.wayTags, t.way[k].id)
    requires nodes.pos == LowerBound(t.wayNodes, t.way[k].id)
    ensures ReadWay(Cursor(t.way, None, k), tags, nodes).2 == ExpectedWay(t, k)
    ensures ExpectedWay(t, k).Success? ==>
              && ReadWay(Cursor(t.way, None, k), tags, nodes).0.pos == LowerBound(t.wayTags, t.way[k].id + 1)
              && ReadWay(Cursor(t.way, None, k), tags, nodes).1.pos == LowerBound(t.wayNodes, t.way[k].id + 1)
  {
    if nodes.HasActiveRow() {
      ReadWayWithRows(t, k, tags, nodes);
    } else {
      ReadWayPastRows(t, k, tags, nodes);
    }
  }


  /** With the tag reader at the relation's group, `ReadRelation` reads the relation's
      tags and hands the tagged relation to the member reader. */
  lemma ReadRelationAt(parent: Cursor<EntityRow>, tags: Cursor<ChildRow>, members: Cursor<ChildRow>)
    requires parent.Valid() && parent.HasActiveRow()
    requires tags.Valid() && tags.versions.None? && SortedByOwner(tags.rows) && AllTagRows(tags.rows)
    requires members.Valid() && AllMemberRows(members.rows)
    requires tags.pos == LowerBound(tags.rows, parent.Row().id)
    ensures ReadRelation(parent, tags, members).0.pos == LowerBound(tags.rows, parent.Row().id + 1)
    ensures (ReadRelation(parent, tags, members).1, ReadRelation(parent, tags, members).2) ==
            AddMembersSpec(members, Relation(BuildRelation(parent.Row()).meta, TagsIn(tags.rows, parent.Row().id), None))
  {
    TagsReadAt(tags, BuildRelation(parent.Row()));
  }

  /** `Current` on relation row k with member rows left: the member reader
      stands at the relation's group, which decides the result. */
  lemma ReadRelationWithRows(t: Tables, k: nat, tags: Cursor<ChildRow>, members: Cursor<ChildRow>)
    requires SortedByOwner(t.relationTags) && AllTagRows(t.relationTags)
    requires SortedByOwner(t.relationMembers) && AllMemberRows(t.relationMembers) && k < |t.relation|
    requires tags.Valid() && tags.rows == t.relationTags && tags.versions.None?
    requires members.Valid() && members.rows == t.relationMembers && members.versions.None?
    requires tags.pos == LowerBound(t.relationTags, t.relation[k].id)
    requires members.pos == LowerBound(t.relationMembers, t.relation[k].id)
    requires members.HasActiveRow()
    ensures ReadRelation(Cursor(t.relation, None, k), tags, members).2 == ExpectedRelation(t, k)
    ensures ExpectedRelation(t, k).Success? ==>
              && ReadRelation(Cursor(t.relation, None, k), tags, members).0.pos == LowerBound(t.relationTags, t.relation[k].id + 1)
              && ReadRelation(Cursor(t.relation, None, k), tags, members).1.pos == LowerBound(t.relationMembers, t.relation[k].id + 1)
  {
    var id := t.relation[k].id;
    var tagged := Relation(BuildRelation(t.relation[k]).meta, TagsIn(t.relationTags, id), None);
    ReadRelationAt(Cursor(t.relation, None, k), tags, members);
    MembersReadAt(members, tagged);
    assert GroupOf(t.relationMembers, id) == Some(OwnedBy(t.relationMembers, id));
  }

  /** `Current` on relation row k with the member rows used up: the relation has none. */
  lemma ReadRelationPastRows(t: Tables, k: nat, tags: Cursor<ChildRow>, members: Cursor<ChildRow>)
    requires SortedByOwner(t.relationTags) && AllTagRows(t.relationTags)
    requires SortedByOwner(t.relationMembers) && AllMemberRows(t.relationMembers) && k < |t.relation|
    requires tags.Valid() && tags.rows == t.relationTags && tags.versions.None?
    requires members.Valid() && members.rows == t.relationMembers && members.versions.None?
    requires tags.pos == LowerBound(t.relationTags, t.relation[k].id)
    requires members.pos == LowerBound(t.relationMembers, t.relation[k].id)
    requires !members.HasActiveRow()
    ensures ReadRelation(Cursor(t.relation, None, k), tags, members).2 == ExpectedRelation(t, k)
    ensures ExpectedRelation(t, k).Success? ==>
              && ReadRelation(Cursor(t.relation, None, k), tags, members).0.pos == LowerBound(t.relationTags, t.relation[k].id + 1)
              && ReadRelation(Cursor(t.relation, None, k), tags, members).1.pos == LowerBound(t.relationMembers, t.relation[k].id + 1)
  {
    var id := t.relation[k].id;
    var tagged := Relation(BuildRelation(t.relation[k]).meta, TagsIn(t.relationTags, id), None);
    ReadRelationAt(Cursor(t.relation, None, k), tags, members);
    assert GroupOf(t.relationMembers, id) == None;
  }

  /** `Current` on relation row k, both child readers at the relation's groups,
      delivers the expected relation; on success both readers end past the
      relation's groups. */
  lemma ReadRelationIsExpected(t: Tables, k: nat, tags: Cursor<ChildRow>, members: Cursor<ChildRow>)
    requires SortedByOwner(t.relationTags) && AllTagRows(t.relationTags)
    requires SortedByOwner(t.relationMembers) && AllMemberRows(t.relationMembers) && k < |t.relation|
    requires tags.Valid() && tags.rows == t.relationTags && tags.versions.None?
    requires members.Valid() && members.rows == t.relationMembers && members.versions.None?
    requires tags.pos == LowerBound(t.relationTags, t.relation[k].id)
    requires members.pos == LowerBound(t.relationMembers, t.relation[k].id)
    ensures ReadRelation(Cursor(t.relation, None, k), tags, members).2 == ExpectedRelation(t, k)
    ensures ExpectedRelation(t, k).Success? ==>
              && ReadRelation(Cursor(t.relation, None, k), tags, members).0.pos == LowerBound(t.relationTags, t.relation[k].id + 1)
              && ReadRelation(Cursor(t.relation, None, k), tags, members).1.pos == LowerBound(t.relationMembers, t.relation[k].id + 1)
  {
    if members.HasActiveRow() {
      ReadRelationWithRows(t, k, tags, members);
    } else {
      ReadRelationPastRows(t, k, tags, members);
    }
  }


  // ---------------------------------------------------------------------------
  // The state of the source as a value.

  /** The eight readers and the current category. */
  datatype Readers = Readers(
    node: Cursor<NodeRow>,
    nodeTags: Cursor<ChildRow>,
    way: Cursor<EntityRow>,
    wayTags: Cursor<ChildRow>,
    wayNodes: Cursor<ChildRow>,
    relation: Cursor<EntityRow>,
    relationMembers: Cursor<ChildRow>,
    relationTags: Cursor<ChildRow>,
    currentType: Option<OsmGeoType>)
  {
    /** Each reader runs over its own query result, without a version column. */
    predicate Over(t: Tables) {
      && node.Valid() && node.rows == t.node && node.versions.None?
      && nodeTags.Valid() && nodeTags.rows == t.nodeTags && nodeTags.versions.None?
      && way.Valid() && way.rows == t.way && way.versions.None?
      && wayTags.Valid() && wayTags.rows == t.wayTags && wayTags.versions.None?
      && wayNodes.Valid() && wayNodes.rows == t.wayNodes && wayNodes.versions.None?
      && relation.Valid() && relation.rows == t.relation && relation.versions.None?
      && relationMembers.Valid() && relationMembers.rows == t.relationMembers && relationMembers.versions.None?
      && relationTags.Valid() && relationTags.rows == t.relationTags && relationTags.versions.None?
    }

    /** Every reader stands before its first row. */
    predicate AtStart() {
      && node.pos == -1 && nodeTags.pos == -1
      && way.pos == -1 && wayTags.pos == -1 && wayNodes.pos == -1
      && relation.pos == -1 && relationMembers.pos == -1 && relationTags.pos == -1
    }

    /** The parent reader of the current category is on a row. */
    predicate ParentActive() {
      match currentType
      case None => false
      case Some(NodeType) => node.HasActiveRow()
      case Some(WayType) => way.HasActiveRow()
      case Some(RelationType) => relation.HasActiveRow()
    }

    /** The merge-join invariant: the readers of categories not yet entered
        stand before their first rows, and the child readers of the current
        category stand at the group of the parent's row while that row awaits
        `Current` (`pending`), or just past it. */
    ghost predicate Aligned(t: Tables, pending: bool) {
      && Over(t)
      && Ordered(t)
      && (pending ==> ParentActive())
      && (Rank(currentType) < 0 ==> node.pos == -1 && nodeTags.pos == -1)
      && (Rank(currentType) < 1 ==> way.pos == -1 && wayTags.pos == -1 && wayNodes.pos == -1)
      && (Rank(currentType) < 2 ==> relation.pos == -1 && relationTags.pos == -1 && relationMembers.pos == -1)
      && (currentType == Some(NodeType) ==> ChildAt(nodeTags, NodeIdColumn(t), node.pos, pending))
      && (currentType == Some(WayType) ==>
            ChildAt(wayTags, WayIdColumn(t), way.pos, pending) && ChildAt(wayNodes, WayIdColumn(t), way.pos, pending))
      && (currentType == Some(RelationType) ==>
            && ChildAt(relationTags, RelationIdColumn(t), relation.pos, pending)
            && ChildAt(relationMembers, RelationIdColumn(t), relation.pos, pending))
    }
  }

  /** The readers as `Initialize` leaves them, in category `c`. */
  function Initial(t: Tables, c: Option<OsmGeoType>): (s: Readers)
    ensures s.Over(t) && s.AtStart() && s.currentType == c
  {
    Readers(Open(t.node, None), Open(t.nodeTags, None), Open(t.way, None), Open(t.wayTags, None),
            Open(t.wayNodes, None), Open(t.relation, None), Open(t.relationMembers, None),
            Open(t.relationTags, None), c)
  }

  /** The first move enters the node category and primes its tag reader. */
  function FirstMoveSpec(s: Readers): (r: Readers)
    requires s.nodeTags.Valid()
  {
    if s.currentType.None? then s.(currentType := Some(NodeType), nodeTags := s.nodeTags.Read()) else s
  }

  /** In the node category: the next node, or, when nodes are ignored or
      exhausted, the way category entered with its child readers primed.
      `true` means a node was found. */
  function NodeStepSpec(s: Readers, ignoreNodes: bool): (r: (Readers, bool))
    requires s.node.Valid() && s.wayNodes.Valid() && s.wayTags.Valid()
  {
    if s.currentType != Some(NodeType) then (s, false)
    else if !ignoreNodes && s.node.Read().HasActiveRow() then (s.(node := s.node.Read()), true)
    else
      (s.(node := if ignoreNodes then s.node else s.node.Read(), currentType := Some(WayType),
          wayNodes := s.wayNodes.Read(), wayTags := s.wayTags.Read()), false)
  }

  /** In the way category: the next way, or the relation category entered. */
  function WayStepSpec(s: Readers, ignoreWays: bool): (r: (Readers, bool))
    requires s.way.Valid() && s.relationMembers.Valid() && s.relationTags.Valid()
  {
    if s.currentType != Some(WayType) then (s, false)
    else if !ignoreWays && s.way.Read().HasActiveRow() then (s.(way := s.way.Read()), true)
    else
      (s.(way := if ignoreWays then s.way else s.way.Read(), currentType := Some(RelationType),
          relationMembers := s.relationMembers.Read(), relationTags := s.relationTags.Read()), false)
  }

  /** In the relation category: the next relation, unless relations are ignored. */
  function RelationStepSpec(s: Readers, ignoreRelations: bool): (r: (Readers, bool))
    requires s.relation.Valid()
  {
    if s.currentType != Some(RelationType) || ignoreRelations then (s, false)
    else (s.(relation := s.relation.Read()), s.relation.Read().HasActiveRow())
  }

  /** The effect of `MoveNext` on the readers, and its result. */
  function MoveNextSpec(s: Readers, ignoreNodes: bool, ignoreWays: bool, ignoreRelations: bool): (r: (Readers, bool))
    requires s.node.Valid() && s.nodeTags.Valid() && s.way.Valid() && s.wayTags.Valid() && s.wayNodes.Valid()
    requires s.relation.Valid() && s.relationMembers.Valid() && s.relationTags.Valid()
    // the category only moves forward
    ensures Rank(s.currentType) <= Rank(r.0.currentType) && r.0.currentType.Some?
    // true exactly when the current category's parent reader has just moved onto a row
    ensures r.1 <==> r.0.ParentActive() && !(r.0.currentType == Some(RelationType) && ignoreRelations)
  {
    var s1 := FirstMoveSpec(s);
    var (s2, found) := NodeStepSpec(s1, ignoreNodes);
    if found then (s2, true)
    else
      var (s3, found') := WayStepSpec(s2, ignoreWays);
      if found' then (s3, true)
      else RelationStepSpec(s3, ignoreRelations)
  }

  /** A parent reader is read only while its category is current and not
      ignored; a category stays current only while its parent reader has
      rows and is not ignored. */
  lemma MoveNextReadsParents(s: Readers, ignoreNodes: bool, ignoreWays: bool, ignoreRelations: bool)
    requires s.node.Valid() && s.nodeTags.Valid() && s.way.Valid() && s.wayTags.Valid() && s.wayNodes.Valid()
    requires s.relation.Valid() && s.relationMembers.Valid() && s.relationTags.Valid()
    ensures var r := MoveNextSpec(s, ignoreNodes, ignoreWays, ignoreRelations);
      && r.0.node == (if Rank(s.currentType) <= 0 && !ignoreNodes then s.node.Read() else s.node)
      && r.0.way == (if Rank(s.currentType) <= 1 && Rank(r.0.currentType) >= 1 && !ignoreWays then s.way.Read() else s.way)
      && r.0.relation == (if Rank(r.0.currentType) == 2 && !ignoreRelations then s.relation.Read() else s.relation)
      && (r.0.currentType == Some(NodeType) <==> Rank(s.currentType) <= 0 && !ignoreNodes && r.0.node.HasActiveRow())
      && (r.0.currentType == Some(WayType) <==>
            Rank(s.currentType) <= 1 && Rank(r.0.currentType) >= 1 && !ignoreWays && r.0.way.HasActiveRow())
  {
    match s.currentType
    case None =>
    case Some(NodeType) =>
    case Some(WayType) =>
    case Some(RelationType) =>
  }

  /** The child readers of a category are read once, when it is entered. */
  lemma MoveNextReadsChildrenOnEntry(s: Readers, ignoreNodes: bool, ignoreWays: bool, ignoreRelations: bool)
    requires s.node.Valid() && s.nodeTags.Valid() && s.way.Valid() && s.wayTags.Valid() && s.wayNodes.Valid()
    requires s.relation.Valid() && s.relationMembers.Valid() && s.relationTags.Valid()
    ensures var r := MoveNextSpec(s, ignoreNodes, ignoreWays, ignoreRelations);
      && r.0.nodeTags == (if Rank(s.currentType) < 0 then s.nodeTags.Read() else s.nodeTags)
      && r.0.wayTags == (if Rank(s.currentType) < 1 <= Rank(r.0.currentType) then s.wayTags.Read() else s.wayTags)
      && r.0.wayNodes == (if Rank(s.currentType) < 1 <= Rank(r.0.currentType) then s.wayNodes.Read() else s.wayNodes)
      && r.0.relationTags ==
           (if Rank(s.currentType) < 2 == Rank(r.0.currentType) then s.relationTags.Read() else s.relationTags)
      && r.0.relationMembers ==
           (if Rank(s.currentType) < 2 == Rank(r.0.currentType) then s.relationMembers.Read() else s.relationMembers)
  {
    match s.currentType
    case None =>
    case Some(NodeType) =>
    case Some(WayType) =>
    case Some(RelationType) =>
  }

  /** `MoveNext` keeps the readers over their query results. */
  lemma MoveNextStaysOver(t: Tables, s: Readers, ignoreNodes: bool, ignoreWays: bool, ignoreRelations: bool)
    requires s.Over(t)
    ensures MoveNextSpec(s, ignoreNodes, ignoreWays, ignoreRelations).0.Over(t)
  {
    MoveNextReadsParents(s, ignoreNodes, ignoreWays, ignoreRelations);
    MoveNextReadsChildrenOnEntry(s, ignoreNodes, ignoreWays, ignoreRelations);
  }

  /** A move from a state whose entity has been read keeps the merge-join
      aligned: the child readers of the new row stand at its groups. */
  lemma MoveNextKeepsAligned(t: Tables, s: Readers, ignoreNodes: bool, ignoreWays: bool, ignoreRelations: bool)
    requires s.Aligned(t, false)
    ensures var (s', ok) := MoveNextSpec(s, ignoreNodes, ignoreWays, ignoreRelations);
            s'.Aligned(t, ok)
  {
    var (s', ok) := MoveNextSpec(s, ignoreNodes, ignoreWays, ignoreRelations);
    MoveNextStaysOver(t, s, ignoreNodes, ignoreWays, ignoreRelations);
    MoveNextReadsParents(s, ignoreNodes, ignoreWays, ignoreRelations);
    MoveNextReadsChildrenOnEntry(s, ignoreNodes, ignoreWays, ignoreRelations);
    match s'.currentType
    case Some(NodeType) => AlignedInNodes(t, s, s', ok);
    case Some(WayType) => AlignedInWays(t, s, s', ok);
    case Some(RelationType) => AlignedInRelations(t, s, s', ok);
  }

  lemma AlignedInNodes(t: Tables, s: Readers, s': Readers, ok: bool)
    requires s.Aligned(t, false) && s'.Over(t) && s'.currentType == Some(NodeType)
    requires Rank(s.currentType) <= 0 && ok && s'.ParentActive()
    requires s'.node == s.node.Read() && s'.nodeTags == (if Rank(s.currentType) < 0 then s.nodeTags.Read() else s.nodeTags)
    requires s'.way == s.way && s'.wayTags == s.wayTags && s'.wayNodes == s.wayNodes
    requires s'.relation == s.relation && s'.relationTags == s.relationTags && s'.relationMembers == s.relationMembers
    ensures s'.Aligned(t, ok)
  {
    ChildAtNext(s'.nodeTags, NodeIdColumn(t), s.node.pos);
  }

  lemma AlignedInWays(t: Tables, s: Readers, s': Readers, ok: bool)
    requires s.Aligned(t, false) && s'.Over(t) && s'.currentType == Some(WayType)
    requires Rank(s.currentType) <= 1 && ok == s'.ParentActive() && ok
    requires s'.way == s.way.Read()
    requires s'.wayTags == (if Rank(s.currentType) < 1 then s.wayTags.Read() else s.wayTags)
    requires s'.wayNodes == (if Rank(s.currentType) < 1 then s.wayNodes.Read() else s.wayNodes)
    requires s'.relation == s.relation && s'.relationTags == s.relationTags && s'.relationMembers == s.relationMembers
    ensures s'.Aligned(t, ok)
  {
    if Rank(s.currentType) < 1 {
      EnterWays(t, s, s', ok);
    } else {
      StayInWays(t, s, s', ok);
    }
  }

  lemma EnterWays(t: Tables, s: Readers, s': Readers, ok: bool)
    requires s.Aligned(t, false) && s'.Over(t) && s'.currentType == Some(WayType)
    requires Rank(s.currentType) < 1 && ok == s'.ParentActive() && ok
    requires s'.way == s.way.Read() && s'.wayTags == s.wayTags.Read() && s'.wayNodes == s.wayNodes.Read()
    requires s'.relation == s.relation && s'.relationTags == s.relationTags && s'.relationMembers == s.relationMembers
    ensures s'.Aligned(t, ok)
  {
    assert s'.way.pos == 0 && s'.wayTags.pos == 0 && s'.wayNodes.pos == 0;
    ChildAtNext(s'.wayTags, WayIdColumn(t), -1);
    ChildAtNext(s'.wayNodes, WayIdColumn(t), -1);
  }

  lemma StayInWays(t: Tables, s: Readers, s': Readers, ok: bool)
    requires s.Aligned(t, false) && s'.Over(t) && s.currentType == s'.currentType == Some(WayType)
    requires ok == s'.ParentActive() && ok
    requires s'.way == s.way.Read() && s'.wayTags == s.wayTags && s'.wayNodes == s.wayNodes
    requires s'.relation == s.relation && s'.relationTags == s.relationTags && s'.relationMembers == s.relationMembers
    ensures s'.Aligned(t, ok)
  {
    ChildAtNext(s'.wayTags, WayIdColumn(t), s.way.pos);
    ChildAtNext(s'.wayNodes, WayIdColumn(t), s.way.pos);
  }

  lemma AlignedInRelations(t: Tables, s: Readers, s': Readers, ok: bool)
    requires s.Aligned(t, false) && s'.Over(t) && s'.currentType == Some(RelationType)
    requires ok ==> s'.ParentActive()
    requires s'.relation == s.relation || (s'.relation == s.relation.Read() && ok == s'.ParentActive())
    requires s'.relationTags == (if Rank(s.currentType) < 2 then s.relationTags.Read() else s.relationTags)
    requires s'.relationMembers == (if Rank(s.currentType) < 2 then s.relationMembers.Read() else s.relationMembers)
    requires s'.relation == s.relation ==> !ok
    ensures s'.Aligned(t, ok)
  {
    var ids := RelationIdColumn(t);
    if Rank(s.currentType) < 2 {
      assert s'.relationTags.pos == 0 && s'.relationMembers.pos == 0;
      if ok {
        ChildAtNext(s'.relationTags, ids, -1);
        ChildAtNext(s'.relationMembers, ids, -1);
      }
    } else {
      StayInRelations(t, s, s', ok);
    }
  }

  lemma StayInRelations(t: Tables, s: Readers, s': Readers, ok: bool)
    requires s.Aligned(t, false) && s'.Over(t) && s.currentType == s'.currentType == Some(RelationType)
    requires ok ==> s'.ParentActive()
    requires s'.relation == s.relation || (s'.relation == s.relation.Read() && ok == s'.ParentActive())
    requires s'.relationTags == s.relationTags && s'.relationMembers == s.relationMembers
    requires s'.relation == s.relation ==> !ok
    ensures s'.Aligned(t, ok)
  {
    if ok {
      ChildAtNext(s'.relationTags, RelationIdColumn(t), s.relation.pos);
      ChildAtNext(s'.relationMembers, RelationIdColumn(t), s.relation.pos);
    }
  }

  // ---------------------------------------------------------------------------
  // `Current` on the value state.

  /** The effect of `Current` on the readers, and the entity it returns. */
  function CurrentSpec(t: Tables, s: Readers): (r: (Readers, Result<OsmGeo, Error>))
    requires s.Over(t) && t.Shaped()
    ensures r.0.Over(t)
    ensures s.currentType.None? ==> r == (s, Failure(NoCurrentObject))
    // the parent readers and the category are left alone
    ensures r.0.node == s.node && r.0.way == s.way && r.0.relation == s.relation
    ensures r.0.currentType == s.currentType
    // only the child readers of the current category move
    ensures s.currentType != Some(NodeType) ==> r.0.nodeTags == s.nodeTags
    ensures s.currentType != Some(WayType) ==> r.0.wayTags == s.wayTags && r.0.wayNodes == s.wayNodes
    ensures s.currentType != Some(RelationType) ==>
              r.0.relationTags == s.relationTags && r.0.relationMembers == s.relationMembers
    // on a row, the entity is of the current category
    ensures s.ParentActive() && r.1.Success? ==> Some(r.1.value.GeoType()) == s.currentType
    ensures s.currentType.Some? && !s.ParentActive() ==> r.1 == Failure(NoActiveRow)
  {
    match s.currentType
    case None => (s, Failure(NoCurrentObject))
    case Some(NodeType) =>
      var (tags, node) := ReadNode(s.node, s.nodeTags);
      (s.(nodeTags := tags), node)
    case Some(WayType) =>
      var (tags, nodes, way) := ReadWay(s.way, s.wayTags, s.wayNodes);
      (s.(wayTags := tags, wayNodes := nodes), way)
    case Some(RelationType) =>
      var (tags, members, relation) := ReadRelation(s.relation, s.relationTags, s.relationMembers);
      (s.(relationTags := tags, relationMembers := members), relation)
  }

  /** What the stream should deliver for the row under the current parent reader. */
  function ExpectedAt(t: Tables, s: Readers): (r: Result<OsmGeo, Error>)
    requires Ordered(t) && s.Over(t) && s.ParentActive()
    ensures r.Success? ==> Some(r.value.GeoType()) == s.currentType
  {
    match s.currentType
    case Some(NodeType) => ExpectedNode(t, s.node.pos)
    case Some(WayType) => ExpectedWay(t, s.way.pos)
    case Some(RelationType) => ExpectedRelation(t, s.relation.pos)
  }

  /** Under the merge-join invariant, `Current` after a successful `MoveNext`
      returns exactly the entity of the current row with its own tags, way
      nodes or members; when it succeeds the child readers end past that
      entity's groups, ready for the next row. */
  lemma CurrentIsExpected(t: Tables, s: Readers)
    requires s.Aligned(t, true)
    ensures CurrentSpec(t, s).1 == ExpectedAt(t, s)
    ensures CurrentSpec(t, s).1.Success? ==> CurrentSpec(t, s).0.Aligned(t, false)
  {
    match s.currentType
    case Some(NodeType) => CurrentNodeIsExpected(t, s);
    case Some(WayType) => CurrentWayIsExpected(t, s);
    case Some(RelationType) => CurrentRelationIsExpected(t, s);
  }

  /** The client protocol on aligned readers: after a `MoveNext` that
      returns true, `Current` returns the expected entity, and on success the
      readers are aligned for the next `MoveNext`. */
  lemma MoveNextThenCurrent(t: Tables, s: Readers, ignoreNodes: bool, ignoreWays: bool, ignoreRelations: bool, s': Readers)
    requires s.Aligned(t, false)
    requires MoveNextSpec(s, ignoreNodes, ignoreWays, ignoreRelations) == (s', true)
    ensures s'.Aligned(t, true)
    ensures CurrentSpec(t, s').1 == ExpectedAt(t, s')
    ensures CurrentSpec(t, s').1.Success? ==> CurrentSpec(t, s').0.Aligned(t, false)
  {
    MoveNextKeepsAligned(t, s, ignoreNodes, ignoreWays, ignoreRelations);
    CurrentIsExpected(t, s');
  }

  lemma CurrentNodeIsExpected(t: Tables, s: Readers)
    requires s.Aligned(t, true) && s.currentType == Some(NodeType)
    ensures CurrentSpec(t, s).1 == ExpectedAt(t, s)
    ensures CurrentSpec(t, s).0.Aligned(t, false)
  {
    var k := s.node.pos;
    assert s.node == Cursor(t.node, None, k);
    assert NodeIdColumn(t)[k] == t.node[k].entity.id;
    ReadNodeIsExpected(t, k, s.nodeTags);
  }

  lemma CurrentWayIsExpected(t: Tables, s: Readers)
    requires s.Aligned(t, true) && s.currentType == Some(WayType)
    ensures CurrentSpec(t, s).1 == ExpectedAt(t, s)
    ensures CurrentSpec(t, s).1.Success? ==> CurrentSpec(t, s).0.Aligned(t, false)
  {
    var k := s.way.pos;
    assert s.way == Cursor(t.way, None, k);
    assert WayIdColumn(t)[k] == t.way[k].id;
    ReadWayIsExpected(t, k, s.wayTags, s.wayNodes);
  }

  lemma CurrentRelationIsExpected(t: Tables, s: Readers)
    requires s.Aligned(t, true) && s.currentType == Some(RelationType)
    ensures CurrentSpec(t, s).1 == ExpectedAt(t, s)
    ensures CurrentSpec(t, s).1.Success? ==> CurrentSpec(t, s).0.Aligned(t, false)
  {
    var k := s.relation.pos;
    assert s.relation == Cursor(t.relation, None, k);
    assert RelationIdColumn(t)[k] == t.relation[k].id;
    ReadRelationIsExpected(t, k, s.relationTags, s.relationMembers);
  }

  // ---------------------------------------------------------------------------
  // Starting over.

  /** One node (id 1) and one relation (id 2) tagged type=route. */
  function OneNodeOneRelation(): (t: Tables)
    ensures Ordered(t) && |t.node| == 1 && |t.relation| == 1
  {
    var t := Tables([NodeRow(EntityRow(1, 1, 1, 0, 1, None, true), 0, 0, 0)], [], [], [], [],
                    [EntityRow(2, 1, 1, 0, 1, None, true)], [TagRow(2, "type", "route")], []);
    assert NodeIdColumn(t) == [1];
    assert RelationIdColumn(t) == [2];
    t
  }

  /** After a full pass the category is relations; `Reset` as written keeps
      it, so the next `MoveNext` skips node 1 and delivers relation 2, and
      without its tag, because the relation tag reader is never primed again. */
  lemma ResetKeepsCategory()
    ensures var t := OneNodeOneRelation();
      var (s, ok) := MoveNextSpec(Initial(t, Some(RelationType)), false, false, false);
      && ok && s.currentType == Some(RelationType) && s.node.pos == -1
      && CurrentSpec(t, s).1 == Success(BuildRelation(t.relation[0]))
      && CurrentSpec(t, s).1 != ExpectedRelation(t, 0)
  {
    var t := OneNodeOneRelation();
    var (s, ok) := MoveNextSpec(Initial(t, Some(RelationType)), false, false, false);
    assert s.relation.pos == 0 && s.relationTags.pos == -1;
    var g := [TagRow(2, "type", "route")];
    assert t.relationTags == g && LowerBound(g, 2) == 0;
    assert OwnedBy(g, 2) == g by {
      assert g[1..] == [];
    }
    assert |TagsOf(g)| == 1;
    assert TagsIn(t.relationTags, 2).Some?;
  }

  /** Starting over from the readers as `Initialize` leaves them with no
      category: the first `MoveNext` delivers the first node, and `Current`
      returns it with its own tags. */
  lemma StartOverDeliversFirstNode(t: Tables)
    requires Ordered(t) && |t.node| > 0
    ensures Initial(t, None).Aligned(t, false)
    ensures var (s, ok) := MoveNextSpec(Initial(t, None), false, false, false);
      && ok && s.currentType == Some(NodeType) && s.node.pos == 0
      && CurrentSpec(t, s).1 == ExpectedNode(t, 0)
  {
    var (s, ok) := MoveNextSpec(Initial(t, None), false, false, false);
    MoveNextReadsParents(Initial(t, None), false, false, false);
    MoveNextKeepsAligned(t, Initial(t, None), false, false, false);
    CurrentIsExpected(t, s);
  }

  // ---------------------------------------------------------------------------
  // The source object.

  class SnapshotDbStreamSource {
    /** The results of the eight queries `Initialize` runs, in the order of
        their `order by` clauses. */
    const tables: Tables

    var nodeReader: Cursor<NodeRow>
    var nodeTagsReader: Cursor<ChildRow>
    var wayReader: Cursor<EntityRow>
    var wayTagsReader: Cursor<ChildRow>
    var wayNodesReader: Cursor<ChildRow>
    var relationReader: Cursor<EntityRow>
    var relationMembersReader: Cursor<ChildRow>
    var relationTagsReader: Cursor<ChildRow>
    var currentType: Option<OsmGeoType>
    var initialized: bool

    /** `MoveNext` returned true and `Current` has not read that entity yet. */
    ghost var pending: bool

    /** The readers and the category as a value. */
    ghost function State(): Readers
      reads this
    {
      Readers(nodeReader, nodeTagsReader, wayReader, wayTagsReader, wayNodesReader,
              relationReader, relationMembersReader, relationTagsReader, currentType)
    }

    /** The readers run over the query results; before the first move the
        source has not been initialized and nothing has been read. */
    ghost predicate Valid()
      reads this
    {
      && State().Over(tables) && tables.Shaped()
      && (!initialized ==> currentType.None? && State().AtStart())
    }

    /** A source over the given query results; nothing is read yet. */
    constructor (t: Tables)
      requires Ordered(t)
      ensures tables == t && !initialized && !pending
      ensures State() == Initial(t, None)
      ensures Valid() && State().Aligned(t, false)
    {
      tables := t;
      nodeReader := Open(t.node, None);
      nodeTagsReader := Open(t.nodeTags, None);
      wayReader := Open(t.way, None);
      wayTagsReader := Open(t.wayTags, None);
      wayNodesReader := Open(t.wayNodes, None);
      relationReader := Open(t.relation, None);
      relationMembersReader := Open(t.relationMembers, None);
      relationTagsReader := Open(t.relationTags, None);
      currentType := None;
      initialized := false;
      pending := false;
    }

    /** `Initialize`: runs the eight queries; every reader stands before its
        first row. */
    method Initialize()
      modifies this`nodeReader, this`nodeTagsReader, this`wayReader, this`wayTagsReader
      modifies this`wayNodesReader, this`relationReader, this`relationMembersReader, this`relationTagsReader
      ensures State() == Initial(tables, currentType)
    {
      nodeReader := Open(tables.node, None);
      nodeTagsReader := Open(tables.nodeTags, None);
      wayReader := Open(tables.way, None);
      wayTagsReader := Open(tables.wayTags, None);
      wayNodesReader := Open(tables.wayNodes, None);
      relationReader := Open(tables.relation, None);
      relationTagsReader := Open(tables.relationTags, None);
      relationMembersReader := Open(tables.relationMembers, None);
    }

    /** `MoveNext`: advances to the next entity of a category not ignored. */
    method MoveNext(ignoreNodes: bool, ignoreWays: bool, ignoreRelations: bool) returns (ok: bool)
      requires Valid()
      modifies this
      ensures Valid() && initialized
      ensures (State(), ok) == MoveNextSpec(old(State()), ignoreNodes, ignoreWays, ignoreRelations)
      ensures pending == ok
    {
      MoveNextStaysOver(tables, State(), ignoreNodes, ignoreWays, ignoreRelations);
      if !initialized {
        Initialize();
        initialized := true;
      }
      FirstMove();
      var found := MoveInNodes(ignoreNodes);
      if found {
        pending := true;
        return true;
      }
      found := MoveInWays(ignoreWays);
      if found {
        pending := true;
        return true;
      }
      ok := MoveInRelations(ignoreRelations);
      pending := ok;
    }

    /** The first move: enter the node category. */
    method FirstMove()
      requires State().Over(tables)
      modifies this`currentType, this`nodeTagsReader
      ensures State().Over(tables) && State() == FirstMoveSpec(old(State()))
    {
      if currentType.None? {
        currentType := Some(NodeType);
        nodeTagsReader := nodeTagsReader.Read();
      }
    }

    method MoveInNodes(ignoreNodes: bool) returns (found: bool)
      requires State().Over(tables)
      modifies this`currentType, this`nodeReader, this`wayNodesReader, this`wayTagsReader
      ensures State().Over(tables) && (State(), found) == NodeStepSpec(old(State()), ignoreNodes)
    {
      found := false;
      if currentType == Some(NodeType) {
        if !ignoreNodes {
          nodeReader := nodeReader.Read();
          if nodeReader.HasActiveRow() {
            return true;
          }
        }
        // nodes ignored or exhausted: move on to ways
        currentType := Some(WayType);
        wayNodesReader := wayNodesReader.Read();
        wayTagsReader := wayTagsReader.Read();
      }
    }

    method MoveInWays(ignoreWays: bool) returns (found: bool)
      requires State().Over(tables)
      modifies this`currentType, this`wayReader, this`relationMembersReader, this`relationTagsReader
      ensures State().Over(tables) && (State(), found) == WayStepSpec(old(State()), ignoreWays)
    {
      found := false;
      if currentType == Some(WayType) {
        if !ignoreWays {
          wayReader := wayReader.Read();
          if wayReader.HasActiveRow() {
            return true;
          }
        }
        // ways ignored or exhausted: move on to relations
        currentType := Some(RelationType);
        relationMembersReader := relationMembersReader.Read();
        relationTagsReader := relationTagsReader.Read();
      }
    }

    method MoveInRelations(ignoreRelations: bool) returns (found: bool)
      requires State().Over(tables)
      modifies this`relationReader
      ensures State().Over(tables) && (State(), found) == RelationStepSpec(old(State()), ignoreRelations)
    {
      found := false;
      if currentType == Some(RelationType) && !ignoreRelations {
        relationReader := relationReader.Read();
        found := relationReader.HasActiveRow();
      }
    }

    /** `Current`: builds the entity under the current parent reader and
        reads its child rows from the child readers of its category. */
    method Current() returns (r: Result<OsmGeo, Error>)
      requires Valid()
      modifies this`nodeTagsReader, this`wayTagsReader, this`wayNodesReader
      modifies this`relationTagsReader, this`relationMembersReader, this`pending
      ensures Valid() && !pending
      ensures (State(), r) == CurrentSpec(tables, old(State()))
    {
      pending := false;
      if currentType.None? {
        return Failure(NoCurrentObject);
      }
      match currentType.value
      case NodeType =>
        if !nodeReader.HasActiveRow() {
          return Failure(NoActiveRow);
        }
        var node := BuildNode(nodeReader.Row());
        nodeTagsReader, r := AddTags(nodeTagsReader, node);
      case WayType =>
        if !wayReader.HasActiveRow() {
          return Failure(NoActiveRow);
        }
        var way := BuildWay(wayReader.Row());
        wayTagsReader, r := AddTags(wayTagsReader, way);
        wayNodesReader, r := AddNodes(wayNodesReader, r.value);
      case RelationType =>
        if !relationReader.HasActiveRow() {
          return Failure(NoActiveRow);
        }
        var relation := BuildRelation(relationReader.Row());
        relationTagsReader, r := AddTags(relationTagsReader, relation);
        relationMembersReader, r := AddMembers(relationMembersReader, r.value);
    }

    /** `Reset` as written: re-runs the queries, so every reader stands
        before its first row again, but keeps the current category and the
        initialized flag. */
    method Reset()
      requires Valid()
      modifies this`nodeReader, this`nodeTagsReader, this`wayReader, this`wayTagsReader
      modifies this`wayNodesReader, this`relationReader, this`relationMembersReader, this`relationTagsReader
      modifies this`pending
      ensures Valid() && !pending
      ensures State() == Initial(tables, old(currentType))
    {
      Initialize();
      pending := false;
    }

    /** `Reset` as intended: the source starts over from the first node. */
    method ResetToStart()
      requires Valid() && Ordered(tables)
      modifies this`nodeReader, this`nodeTagsReader, this`wayReader, this`wayTagsReader
      modifies this`wayNodesReader, this`relationReader, this`relationMembersReader, this`relationTagsReader
      modifies this`currentType, this`pending
      ensures Valid() && !pending
      ensures State() == Initial(tables, None) && State().Aligned(tables, false)
    {
      Initialize();
      currentType := None;
      pending := false;
    }
  }
}
