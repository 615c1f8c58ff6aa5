/** The snapshot database behind the generic OSM database front: reading by
    keys, deleting by keys, the ways of a set of nodes, and everything inside a
    bounding box. The connection's queries are not part of this model; each
    operation takes them as given by `Queries`. */
module SnapshotImpl {
  import opened Wrappers
  import opened Osm
  import opened Snapshot

  type NodeObject = g: OsmGeo | g.Node? witness Node(EmptyMeta, None, None, None)
  type WayObject = g: OsmGeo | g.Way? witness Way(EmptyMeta, None, None)
  type RelationObject = g: OsmGeo | g.Relation? witness Relation(EmptyMeta, None, None)

  /** A bounding box, corners in 10^-7 degree. */
  datatype Box = Box(minLatitude: int, minLongitude: int, maxLatitude: int, maxLongitude: int)

  /** The connection's queries: the ids of the nodes inside a box, the ids of
      the ways using some nodes, the ids of the relations having some nodes or
      ways as members, and the objects with some ids. */
  datatype Queries = Queries(
    nodeIdsInBox: Box -> seq<int>,
    wayIdsForNodes: seq<int> -> seq<int>,
    relationIdsForMembers: (seq<int>, seq<int>) -> seq<int>,
    nodesById: seq<int> -> seq<NodeObject>,
    waysById: seq<int> -> seq<WayObject>,
    relationsById: seq<int> -> seq<RelationObject>)

  /** The by-id queries return only objects with one of the ids asked for. */
  ghost predicate ById(q: Queries) {
    && (forall ids: seq<int>, g: NodeObject :: g in q.nodesById(ids) ==> g.meta.id.Some? && g.meta.id.value in ids)
    && (forall ids: seq<int>, g: WayObject :: g in q.waysById(ids) ==> g.meta.id.Some? && g.meta.id.value in ids)
    && (forall ids: seq<int>, g: RelationObject :: g in q.relationsById(ids) ==> g.meta.id.Some? && g.meta.id.value in ids)
  }

  // ---------------------------------------------------------------------------
  // Keys split by type.

  /** `keys.Where(x => x.Type == t).Select(x => x.Id)`. */
  function IdsOfType(keys: seq<OsmGeoKey>, t: OsmGeoType): (ids: seq<int>)
    ensures |ids| <= |keys|
    ensures forall id :: id in ids <==> OsmGeoKey(t, id) in keys
  {
    if keys == [] then []
    else
      var rest := IdsOfType(keys[1..], t);
      assert forall k :: k in keys <==> k == keys[0] || k in keys[1..];
      if keys[0].keyType == t then [keys[0].id] + rest else rest
  }

  /** The split keeps the order of the keys. */
  lemma {:induction false} IdsOfTypeAppend(a: seq<OsmGeoKey>, b: seq<OsmGeoKey>, t: OsmGeoType)
    ensures IdsOfType(a + b, t) == IdsOfType(a, t) + IdsOfType(b, t)
  {
    if a == [] {
      assert a + b == b;
    } else {
      assert (a + b)[1..] == a[1..] + b;
      IdsOfTypeAppend(a[1..], b, t);
    }
  }

  /** `Get(keys)`: the nodes of the node keys, then the ways of the way keys,
      then the relations of the relation keys. */
  function GetByKeys(q: Queries, keys: seq<OsmGeoKey>): (r: seq<OsmGeo>)
    ensures forall i, j :: 0 <= i < j < |r| ==> TypeCode(r[i].GeoType()) <= TypeCode(r[j].GeoType())
  {
    var nodes: seq<OsmGeo> := q.nodesById(IdsOfType(keys, NodeType));
    var ways: seq<OsmGeo> := q.waysById(IdsOfType(keys, WayType));
    var relations: seq<OsmGeo> := q.relationsById(IdsOfType(keys, RelationType));
    TypeOrdered(nodes, ways, relations);
    nodes + ways + relations
  }

  /** Nodes, then ways, then relations: ordered by type. */
  lemma TypeOrdered(nodes: seq<OsmGeo>, ways: seq<OsmGeo>, relations: seq<OsmGeo>)
    requires forall k :: 0 <= k < |nodes| ==> nodes[k].Node?
    requires forall k :: 0 <= k < |ways| ==> ways[k].Way?
    requires forall k :: 0 <= k < |relations| ==> relations[k].Relation?
    ensures var r := nodes + ways + relations;
            forall i, j :: 0 <= i < j < |r| ==> TypeCode(r[i].GeoType()) <= TypeCode(r[j].GeoType())
  {
    var r := nodes + ways + relations;
    forall i, j | 0 <= i < j < |r|
      ensures TypeCode(r[i].GeoType()) <= TypeCode(r[j].GeoType())
    {
      var a, b := |nodes|, |nodes| + |ways|;
      assert i < a ==> r[i] == nodes[i];
      assert a <= i < b ==> r[i] == ways[i - a];
      assert b <= i ==> r[i] == relations[i - b];
      assert j < a ==> r[j] == nodes[j];
      assert a <= j < b ==> r[j] == ways[j - a];
      assert b <= j ==> r[j] == relations[j - b];
    }
  }

  /** Every object `Get(keys)` returns is named by one of the keys, with its
      own type. */
  lemma GetByKeysReturnsListed(q: Queries, keys: seq<OsmGeoKey>)
    requires ById(q)
    ensures forall g :: g in GetByKeys(q, keys) ==>
              g.meta.id.Some? && OsmGeoKey(g.GeoType(), g.meta.id.value) in keys
  {
    var nodes := q.nodesById(IdsOfType(keys, NodeType));
    var ways := q.waysById(IdsOfType(keys, WayType));
    var relations := q.relationsById(IdsOfType(keys, RelationType));
    var r := GetByKeys(q, keys);
    forall g | g in r
      ensures g.meta.id.Some? && OsmGeoKey(g.GeoType(), g.meta.id.value) in keys
    {
      if g in nodes {
        var n: NodeObject := g;
        assert n in q.nodesById(IdsOfType(keys, NodeType));
      } else if g in ways {
        var w: WayObject := g;
        assert w in q.waysById(IdsOfType(keys, WayType));
      } else {
        assert g in relations;
        var x: RelationObject := g;
        assert x in q.relationsById(IdsOfType(keys, RelationType));
      }
    }
  }

  /** `Delete(keys)`: the ids each of the three deletes receives, nodes,
      ways and relations. */
  function DeleteByKeys(keys: seq<OsmGeoKey>): (r: (seq<int>, seq<int>, seq<int>))
    ensures |r.0| + |r.1| + |r.2| <= 3 * |keys|
    ensures forall id :: id in r.0 <==> OsmGeoKey(NodeType, id) in keys
    ensures forall id :: id in r.1 <==> OsmGeoKey(WayType, id) in keys
    ensures forall id :: id in r.2 <==> OsmGeoKey(RelationType, id) in keys
  {
    (IdsOfType(keys, NodeType), IdsOfType(keys, WayType), IdsOfType(keys, RelationType))
  }

  /** Each key goes to the delete for its own type, and to no other. */
  lemma DeleteByKeysRoutesByType(keys: seq<OsmGeoKey>, k: OsmGeoKey)
    ensures var r := DeleteByKeys(keys);
      && (k.id in r.0 <==> OsmGeoKey(NodeType, k.id) in keys)
      && (k.id in r.1 <==> OsmGeoKey(WayType, k.id) in keys)
      && (k.id in r.2 <==> OsmGeoKey(RelationType, k.id) in keys)
    ensures k in keys ==> match k.keyType
      case NodeType => k.id in DeleteByKeys(keys).0
      case WayType => k.id in DeleteByKeys(keys).1
      case RelationType => k.id in DeleteByKeys(keys).2
  {
  }

  /** `GetWays(ids)`: the ways using any of the nodes. */
  function GetWays(q: Queries, ids: seq<int>): (r: seq<WayObject>)
    ensures ById(q) ==> forall w :: w in r ==> w.meta.id.Some? && w.meta.id.value in q.wayIdsForNodes(ids)
  {
    q.waysById(q.wayIdsForNodes(ids))
  }

  // ---------------------------------------------------------------------------
  // The bounding box.

  /** The node ids of the ways, way after way, in each way's order; a way
      whose node list is null adds none. */
  function Referenced(ways: seq<WayObject>): (refs: seq<int>)
    ensures forall k, x :: 0 <= k < |ways| && ways[k].nodes.Some? && x in ways[k].nodes.value ==> x in refs
  {
    if ways == [] then []
    else
      var n := |ways| - 1;
      var refs := Referenced(ways[..n]);
      assert forall k :: 0 <= k < n ==> ways[..n][k] == ways[k];
      refs + Present(ways[n].nodes)
  }

  /** Every referenced id comes from the node list of one of the ways. */
  lemma {:induction false} ReferencedFromWays(ways: seq<WayObject>, x: int)
    requires x in Referenced(ways)
    ensures exists k :: 0 <= k < |ways| && ways[k].nodes.Some? && x in ways[k].nodes.value
  {
    var n := |ways| - 1;
    if x in Referenced(ways[..n]) {
      ReferencedFromWays(ways[..n], x);
      var k :| 0 <= k < n && ways[..n][k].nodes.Some? && x in ways[..n][k].nodes.value;
      assert ways[k] == ways[..n][k];
    } else {
      assert x in Present(ways[n].nodes);
    }
  }

  /** The missing node ids: the referenced ids outside the box, each once, in
      the order they are first met. */
  function Missing(inBox: seq<int>, refs: seq<int>): (m: seq<int>)
    ensures |m| <= |refs|
    ensures forall x :: x in m ==> x !in inBox
  {
    if refs == [] then []
    else
      var n := |refs| - 1;
      var m := Missing(inBox, refs[..n]);
      if refs[n] in inBox || refs[n] in m then m else m + [refs[n]]
  }

  /** No missing id twice, none in the box, each one referenced, and every
      referenced id in the box or missing. */
  lemma {:induction false} MissingIsClosure(inBox: seq<int>, refs: seq<int>)
    ensures var m := Missing(inBox, refs);
      && (forall i, j :: 0 <= i < j < |m| ==> m[i] != m[j])
      && (forall x :: x in m ==> x !in inBox && x in refs)
      && (forall x :: x in refs ==> x in inBox || x in m)
  {
    if refs != [] {
      var n := |refs| - 1;
      MissingIsClosure(inBox, refs[..n]);
      assert forall x :: x in refs <==> x in refs[..n] || x == refs[n] by {
        assert refs == refs[..n] + [refs[n]];
      }
    }
  }

  lemma MissingStep(inBox: seq<int>, refs: seq<int>, x: int)
    ensures Missing(inBox, refs + [x]) == if x in inBox || x in Missing(inBox, refs) then Missing(inBox, refs)
                                          else Missing(inBox, refs) + [x]
  {
    assert (refs + [x])[..|refs|] == refs;
  }

  lemma ReferencedStep(ways: seq<WayObject>, w: WayObject)
    ensures Referenced(ways + [w]) == Referenced(ways) + Present(w.nodes)
  {
    assert (ways + [w])[..|ways|] == ways;
  }

  /** What `Get(bbox)` hands to the merger, in this order: the nodes in the
      box, the nodes the ways need from outside it, the ways with a node in
      the box, and the relations with a member among those nodes and ways. */
  function GetInBoxSpec(q: Queries, box: Box): (r: seq<OsmGeo>)
    ensures forall i, j :: 0 <= i < j < |r| ==> TypeCode(r[i].GeoType()) <= TypeCode(r[j].GeoType())
  {
    var inBox := q.nodeIdsInBox(box);
    var wayIds := q.wayIdsForNodes(inBox);
    var ways := q.waysById(wayIds);
    var nodes: seq<OsmGeo> := q.nodesById(inBox);
    var missingNodes: seq<OsmGeo> := q.nodesById(Missing(inBox, Referenced(ways)));
    var ways': seq<OsmGeo> := ways;
    var relations: seq<OsmGeo> := q.relationsById(q.relationIdsForMembers(inBox, wayIds));
    TypeOrdered(nodes + missingNodes, ways', relations);
    assert nodes + missingNodes + ways' + relations == (nodes + missingNodes) + ways' + relations;
    nodes + missingNodes + ways' + relations
  }

  /** The missing ids of `Get(bbox)`: none lies in the box, none twice, each
      comes from the node list of a fetched way, and together with the box
      they hold every node of every fetched way. */
  lemma MissingNodesClose(q: Queries, box: Box)
    ensures var inBox := q.nodeIdsInBox(box);
      var ways := q.waysById(q.wayIdsForNodes(inBox));
      var missing := Missing(inBox, Referenced(ways));
      && (forall i, j :: 0 <= i < j < |missing| ==> missing[i] != missing[j])
      && (forall x :: x in missing ==> x !in inBox)
      && (forall x :: x in missing ==> exists k :: 0 <= k < |ways| && ways[k].nodes.Some? && x in ways[k].nodes.value)
      && (forall k, x :: 0 <= k < |ways| && ways[k].nodes.Some? && x in ways[k].nodes.value ==> x in inBox || x in missing)
  {
    var inBox := q.nodeIdsInBox(box);
    var ways := q.waysById(q.wayIdsForNodes(inBox));
    var missing := Missing(inBox, Referenced(ways));
    MissingIsClosure(inBox, Referenced(ways));
    forall x | x in missing
      ensures exists k :: 0 <= k < |ways| && ways[k].nodes.Some? && x in ways[k].nodes.value
    {
      ReferencedFromWays(ways, x);
    }
  }

  /** The node query finds a node for every id asked for. */
  ghost predicate FindsAllNodes(q: Queries) {
    forall ids: seq<int>, id {:trigger id in ids} :: id in ids ==>
      exists g: NodeObject :: g in q.nodesById(ids) && g.meta.id == Some(id)
  }

  /** A by-id query that finds every id asked for finds `id`. */
  lemma NodeFound(q: Queries, ids: seq<int>, id: int)
    requires FindsAllNodes(q) && id in ids
    ensures exists g: NodeObject :: g in q.nodesById(ids) && g.meta.id == Some(id)
  {
  }

  /** Every node of every way `Get(bbox)` returns is among the nodes it
      returns, when the by-id query finds every id asked for. */
  lemma GetInBoxWaysComplete(q: Queries, box: Box, k: int, x: int)
    requires var ways := q.waysById(q.wayIdsForNodes(q.nodeIdsInBox(box)));
      0 <= k < |ways| && ways[k].nodes.Some? && x in ways[k].nodes.value
    requires FindsAllNodes(q)
    ensures exists g :: g in GetInBoxSpec(q, box) && g.Node? && g.meta.id == Some(x)
  {
    var inBox := q.nodeIdsInBox(box);
    var ways := q.waysById(q.wayIdsForNodes(inBox));
    var missing := Missing(inBox, Referenced(ways));
    var r := GetInBoxSpec(q, box);
    MissingNodesClose(q, box);
    if x in inBox {
      NodeFound(q, inBox, x);
      var g: NodeObject :| g in q.nodesById(inBox) && g.meta.id == Some(x);
      assert g in r;
    } else {
      NodeFound(q, missing, x);
      var g: NodeObject :| g in q.nodesById(missing) && g.meta.id == Some(x);
      assert g in r;
    }
  }

  /** The inner loop of `Get(bbox)`: the ids of one way's node list. */
  method GatherMissing(inBox: seq<int>, missing: seq<int>, ghost refs: seq<int>, nodes: seq<int>)
    returns (missing': seq<int>)
    requires missing == Missing(inBox, refs)
    ensures missing' == Missing(inBox, refs + nodes)
  {
    missing' := missing;
    assert refs + nodes[..0] == refs;
    for j := 0 to |nodes|
      invariant missing' == Missing(inBox, refs + nodes[..j])
    {
      assert refs + nodes[..j + 1] == (refs + nodes[..j]) + [nodes[j]];
      MissingStep(inBox, refs + nodes[..j], nodes[j]);
      if nodes[j] !in inBox && nodes[j] !in missing' {
        missing' := missing' + [nodes[j]];
      }
    }
    assert nodes[..|nodes|] == nodes;
  }

  /** The outer loop of `Get(bbox)`: the ways whose node list is not null. */
  method MissingNodeIds(inBox: seq<int>, ways: seq<WayObject>) returns (missing: seq<int>)
    ensures missing == Missing(inBox, Referenced(ways))
  {
    missing := [];
    for i := 0 to |ways|
      invariant missing == Missing(inBox, Referenced(ways[..i]))
    {
      assert ways[..i + 1] == ways[..i] + [ways[i]];
      ReferencedStep(ways[..i], ways[i]);
      if ways[i].nodes.Some? {
        missing := GatherMissing(inBox, missing, Referenced(ways[..i]), ways[i].nodes.value);
      } else {
        assert Referenced(ways[..i]) + [] == Referenced(ways[..i]);
      }
    }
    assert ways[..|ways|] == ways;
  }

  /** `Get(bbox)`. */
  method GetInBox(q: Queries, box: Box) returns (r: seq<OsmGeo>)
    ensures r == GetInBoxSpec(q, box)
  {
    var inBox := q.nodeIdsInBox(box);
    var wayIds := q.wayIdsForNodes(inBox);
    var relationIds := q.relationIdsForMembers(inBox, wayIds);
    var ways := q.waysById(wayIds);
    var missing := MissingNodeIds(inBox, ways);
    var nodes: seq<OsmGeo> := q.nodesById(inBox);
    var missingNodes: seq<OsmGeo> := q.nodesById(missing);
    var ways': seq<OsmGeo> := ways;
    var relations: seq<OsmGeo> := q.relationsById(relationIds);
    r := nodes + missingNodes + ways' + relations;
  }
}
