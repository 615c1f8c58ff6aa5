/** The rows of the snapshot schema's eight tables, the database they make up,
    and the forward-only reader over the rows a query returns. */
module Rows {
  import opened Wrappers

  /** A row of the `node`, `way` or `relation` table: the metadata columns. */
  datatype EntityRow = EntityRow(
    id: int,
    version: int,
    changesetId: int,
    timestamp: int,
    userId: int,
    userName: Option<string>,
    visible: bool)

  /** A row of the `node` table: metadata, coordinates in 10^-7 degree, tile id. */
  datatype NodeRow = NodeRow(entity: EntityRow, latitude: int, longitude: int, tile: int)

  /** A row of a child table. `owner` is the owning entity's id column
      (`node_id`, `way_id` or `relation_id`). */
  datatype ChildRow =
    | TagRow(owner: int, key: string, value: string)
    | WayNodeRow(owner: int, nodeId: int, sequenceId: int)
    | MemberRow(owner: int, memberId: int, memberType: int, role: string, sequenceId: int)

  predicate AllTagRows(rows: seq<ChildRow>) {
    forall j :: 0 <= j < |rows| ==> rows[j].TagRow?
  }

  predicate AllWayNodeRows(rows: seq<ChildRow>) {
    forall j :: 0 <= j < |rows| ==> rows[j].WayNodeRow?
  }

  predicate AllMemberRows(rows: seq<ChildRow>) {
    forall j :: 0 <= j < |rows| ==> rows[j].MemberRow?
  }

  /** The database: the rows of each table. */
  datatype Tables = Tables(
    node: seq<NodeRow>,
    nodeTags: seq<ChildRow>,
    way: seq<EntityRow>,
    wayTags: seq<ChildRow>,
    wayNodes: seq<ChildRow>,
    relation: seq<EntityRow>,
    relationTags: seq<ChildRow>,
    relationMembers: seq<ChildRow>)
  {
    /** Every child table holds rows of its own shape. */
    predicate Shaped() {
      && AllTagRows(nodeTags) && AllTagRows(wayTags) && AllTagRows(relationTags)
      && AllWayNodeRows(wayNodes) && AllMemberRows(relationMembers)
    }
  }

  /** A forward-only reader over the rows of one query. `pos` is -1 before the
      first `Read`, the index of the current row while there is one, and
      `|rows|` once the rows are exhausted. `versions` is the `version` column
      when the result has one (`HasColumn("version")`). */
  datatype Cursor<R> = Cursor(rows: seq<R>, versions: Option<seq<int>>, pos: int)
  {
    predicate Valid() {
      -1 <= pos <= |rows| && (versions.Some? ==> |versions.value| == |rows|)
    }

    predicate HasActiveRow() {
      0 <= pos < |rows|
    }

    function Row(): R
      requires HasActiveRow()
    {
      rows[pos]
    }

    /** `Read()`: advance and report whether a row is there. */
    function Read(): (c: Cursor<R>)
      requires Valid()
      ensures c.Valid() && c.rows == rows && c.versions == versions
      ensures c.HasActiveRow() <==> pos + 1 < |rows|
      ensures c.HasActiveRow() ==> c.pos == pos + 1
      ensures HasActiveRow() || pos == -1 ==> c.pos == pos + 1
    {
      if pos < |rows| then this.(pos := pos + 1) else this
    }
  }

  /** A reader as executing the query leaves it: before its first row. */
  function Open<R>(rows: seq<R>, versions: Option<seq<int>>): (c: Cursor<R>)
    requires versions.Some? ==> |versions.value| == |rows|
    ensures c.Valid() && !c.HasActiveRow() && c.rows == rows
  {
    Cursor(rows, versions, -1)
  }

  // ---------------------------------------------------------------------------
  // Child tables grouped by owner.

  /** The rows of `rows` owned by `id`, in table order. */
  function OwnedBy(rows: seq<ChildRow>, id: int): (r: seq<ChildRow>)
    ensures |r| <= |rows|
    ensures forall j :: 0 <= j < |r| ==> r[j].owner == id
  {
    if rows == [] then []
    else (if rows[0].owner == id then [rows[0]] else []) + OwnedBy(rows[1..], id)
  }

  /** The rows of `rows` not owned by `id`, in table order: what
      `delete from ... where owner = id` leaves. */
  function Without(rows: seq<ChildRow>, id: int): (r: seq<ChildRow>)
    ensures |r| <= |rows|
    ensures forall j :: 0 <= j < |r| ==> r[j].owner != id
  {
    if rows == [] then []
    else (if rows[0].owner != id then [rows[0]] else []) + Without(rows[1..], id)
  }

  predicate SortedByOwner(rows: seq<ChildRow>) {
    forall a, b :: 0 <= a < b < |rows| ==> rows[a].owner <= rows[b].owner
  }

  /** The index of the first row whose owner is at least `x`, or `|rows|`. */
  function LowerBound(rows: seq<ChildRow>, x: int): (n: nat)
    ensures n <= |rows|
    ensures forall j :: 0 <= j < n ==> rows[j].owner < x
    ensures n < |rows| ==> rows[n].owner >= x
  {
    if rows == [] || rows[0].owner >= x then 0 else 1 + LowerBound(rows[1..], x)
  }

  /** A sorted table's tail is sorted and starts no lower than its head. */
  lemma {:induction false} SortedTail(rows: seq<ChildRow>)
    requires SortedByOwner(rows) && rows != []
    ensures SortedByOwner(rows[1..])
    ensures |rows| > 1 ==> rows[0].owner <= rows[1].owner
  {
  }

  lemma {:induction false} SliceOfTail<T>(s: seq<T>, lo: nat, hi: nat)
    requires s != [] && lo <= hi <= |s| - 1
    ensures s[1..][lo..hi] == s[1 + lo..1 + hi]
  {
  }

  /** A first row below `x` moves the bound one row on. */
  lemma {:induction false} LowerBoundPastHead(rows: seq<ChildRow>, x: int)
    requires rows != [] && rows[0].owner < x
    ensures LowerBound(rows, x) == 1 + LowerBound(rows[1..], x)
  {
  }

  /** The tail's stretch `lo..hi` is the whole table's stretch `1 + lo..1 + hi`. */
  lemma {:induction false} ShiftStretch(rows: seq<ChildRow>, id: int, lo: nat, hi: nat)
    requires rows != [] && rows[0].owner != id && lo <= hi <= |rows| - 1
    requires LowerBound(rows, id) == 1 + lo && LowerBound(rows, id + 1) == 1 + hi
    requires OwnedBy(rows[1..], id) == rows[1..][lo..hi]
    ensures OwnedBy(rows, id) == rows[LowerBound(rows, id)..LowerBound(rows, id + 1)]
  {
    assert OwnedBy(rows, id) == OwnedBy(rows[1..], id);
    SliceOfTail(rows, lo, hi);
  }

  /** The stretch of `id` one row further on, when the first row lies below `id`. */
  lemma {:induction false} StretchStepBelow(rows: seq<ChildRow>, id: int)
    requires rows != [] && rows[0].owner < id
    requires LowerBound(rows[1..], id) <= LowerBound(rows[1..], id + 1)
    requires OwnedBy(rows[1..], id) == rows[1..][LowerBound(rows[1..], id)..LowerBound(rows[1..], id + 1)]
    ensures LowerBound(rows, id) <= LowerBound(rows, id + 1)
    ensures OwnedBy(rows, id) == rows[LowerBound(rows, id)..LowerBound(rows, id + 1)]
  {
    LowerBoundPastHead(rows, id);
    LowerBoundPastHead(rows, id + 1);
    ShiftStretch(rows, id, LowerBound(rows[1..], id), LowerBound(rows[1..], id + 1));
  }

  /** The stretch of `id` when the first row is one of its rows. */
  lemma {:induction false} StretchStepAt(rows: seq<ChildRow>, id: int)
    requires rows != [] && rows[0].owner == id
    requires LowerBound(rows[1..], id) == 0
    requires OwnedBy(rows[1..], id) == rows[1..][0..LowerBound(rows[1..], id + 1)]
    ensures LowerBound(rows, id) <= LowerBound(rows, id + 1)
    ensures OwnedBy(rows, id) == rows[LowerBound(rows, id)..LowerBound(rows, id + 1)]
  {
    var hi := LowerBound(rows[1..], id + 1);
    assert rows[0..1 + hi] == [rows[0]] + rows[1..][0..hi];
  }

  /** In a table sorted by owner, the rows of `id` are exactly the stretch
      from the first owner >= id to the first owner >= id + 1. */
  lemma {:induction false} OwnedByIsStretch(rows: seq<ChildRow>, id: int)
    requires SortedByOwner(rows)
    ensures LowerBound(rows, id) <= LowerBound(rows, id + 1)
    ensures OwnedBy(rows, id) == rows[LowerBound(rows, id)..LowerBound(rows, id + 1)]
  {
    if rows != [] {
      var tail := rows[1..];
      SortedTail(rows);
      OwnedByIsStretch(tail, id);
      if rows[0].owner < id {
        StretchStepBelow(rows, id);
      } else if rows[0].owner == id {
        StretchStepAt(rows, id);
      } else {
        // every owner lies past id + 1's bound, so both bounds are 0
        assert LowerBound(tail, id + 1) == 0;
      }
    }
  }

  /** Parent ids sorted strictly ascending: `order by id` over a primary key. */
  predicate StrictlyIncreasing(ids: seq<int>) {
    forall a, b :: 0 <= a < b < |ids| ==> ids[a] < ids[b]
  }

  /** Every child row belongs to some parent row. */
  predicate OwnersAmong(rows: seq<ChildRow>, ids: seq<int>) {
    forall j :: 0 <= j < |rows| ==> rows[j].owner in ids
  }

  /** When every owner is a parent, nothing comes before the smallest parent. */
  lemma LowerBoundAtFirstParent(rows: seq<ChildRow>, ids: seq<int>)
    requires StrictlyIncreasing(ids) && OwnersAmong(rows, ids) && |ids| > 0
    ensures LowerBound(rows, ids[0]) == 0
  {
    if rows != [] {
      var m :| 0 <= m < |ids| && ids[m] == rows[0].owner;
      assert m == 0 || ids[0] < ids[m];
    }
  }

  /** Past the rows of parent k the table continues exactly at the rows of
      parent k + 1: no owner lies strictly between two consecutive parents. */
  lemma LowerBoundAfterParent(rows: seq<ChildRow>, ids: seq<int>, k: nat)
    requires StrictlyIncreasing(ids) && OwnersAmong(rows, ids) && SortedByOwner(rows)
    requires k + 1 < |ids|
    ensures LowerBound(rows, ids[k] + 1) == LowerBound(rows, ids[k + 1])
  {
    var a := LowerBound(rows, ids[k] + 1);
    assert ids[k] < ids[k + 1];
    if a < |rows| {
      // the owner at `a` is a parent past k, so it is at least parent k + 1
      var m :| 0 <= m < |ids| && ids[m] == rows[a].owner;
      assert k < m;
      assert m == k + 1 || ids[k + 1] < ids[m];
    }
  }

  /** No parent id exceeds the last one. */
  lemma AtMostLast(ids: seq<int>, m: nat)
    requires StrictlyIncreasing(ids) && m < |ids|
    ensures ids[m] <= ids[|ids| - 1]
  {
    if m < |ids| - 1 {
      assert ids[m] < ids[|ids| - 1];
    }
  }

  /** Past the rows of the last parent nothing is left. */
  lemma LowerBoundAfterLastParent(rows: seq<ChildRow>, ids: seq<int>)
    requires StrictlyIncreasing(ids) && OwnersAmong(rows, ids) && |ids| > 0
    ensures LowerBound(rows, ids[|ids| - 1] + 1) == |rows|
  {
    var n := LowerBound(rows, ids[|ids| - 1] + 1);
    if n < |rows| {
      // the owner at `n` is a parent, so it is no larger than the last one
      var m :| 0 <= m < |ids| && ids[m] == rows[n].owner;
      AtMostLast(ids, m);
    }
  }

  // ---------------------------------------------------------------------------
  // Deleting and inserting child rows.

  lemma {:induction false} OwnedByAppend(a: seq<ChildRow>, b: seq<ChildRow>, id: int)
    ensures OwnedBy(a + b, id) == OwnedBy(a, id) + OwnedBy(b, id)
  {
    if a == [] {
      assert a + b == b;
    } else {
      assert (a + b)[1..] == a[1..] + b;
      OwnedByAppend(a[1..], b, id);
    }
  }

  lemma {:induction false} WithoutAppend(a: seq<ChildRow>, b: seq<ChildRow>, id: int)
    ensures Without(a + b, id) == Without(a, id) + Without(b, id)
  {
    if a == [] {
      assert a + b == b;
    } else {
      assert (a + b)[1..] == a[1..] + b;
      WithoutAppend(a[1..], b, id);
    }
  }

  /** After `delete ... where owner = id` no row of `id` is left and the rows
      of every other owner are exactly as before. */
  lemma {:induction false} OwnedByWithout(rows: seq<ChildRow>, id: int, other: int)
    ensures OwnedBy(Without(rows, id), other) == if other == id then [] else OwnedBy(rows, other)
  {
    if rows != [] {
      OwnedByWithout(rows[1..], id, other);
      var head := if rows[0].owner != id then [rows[0]] else [];
      OwnedByAppend(head, Without(rows[1..], id), other);
    }
  }

  /** Rows that all belong to `id`: the group of `id` is all of them, every
      other group is empty, and deleting `id` removes them all. */
  lemma {:induction false} AllOwnedBy(rows: seq<ChildRow>, id: int, other: int)
    requires forall j :: 0 <= j < |rows| ==> rows[j].owner == id
    ensures OwnedBy(rows, id) == rows && Without(rows, id) == []
    ensures other != id ==> OwnedBy(rows, other) == [] && Without(rows, other) == rows
  {
    if rows != [] {
      AllOwnedBy(rows[1..], id, other);
      assert [rows[0]] + rows[1..] == rows;
    }
  }

  lemma {:induction false} WithoutTwice(rows: seq<ChildRow>, id: int)
    ensures Without(Without(rows, id), id) == Without(rows, id)
  {
    if rows != [] {
      WithoutTwice(rows[1..], id);
      var head := if rows[0].owner != id then [rows[0]] else [];
      WithoutAppend(head, Without(rows[1..], id), id);
    }
  }

  lemma {:induction false} WithoutKeepsShape(rows: seq<ChildRow>, id: int)
    ensures AllTagRows(rows) ==> AllTagRows(Without(rows, id)) && AllTagRows(OwnedBy(rows, id))
    ensures AllWayNodeRows(rows) ==> AllWayNodeRows(Without(rows, id)) && AllWayNodeRows(OwnedBy(rows, id))
    ensures AllMemberRows(rows) ==> AllMemberRows(Without(rows, id)) && AllMemberRows(OwnedBy(rows, id))
  {
    if rows != [] {
      WithoutKeepsShape(rows[1..], id);
    }
  }

  // ---------------------------------------------------------------------------
  // Parent tables keyed by id.

  function NodeKey(row: NodeRow): int { row.entity.id }

  function EntityKey(row: EntityRow): int { row.id }

  /** The `id` column is a primary key. */
  predicate UniqueKeys<R>(rows: seq<R>, key: R -> int) {
    forall a, b :: 0 <= a < b < |rows| ==> key(rows[a]) != key(rows[b])
  }

  /** The number of rows with id `id`: the count `update ... where id = :id`
      reports. */
  function CountKey<R>(rows: seq<R>, key: R -> int, id: int): (n: nat)
    ensures n == 0 <==> forall k :: 0 <= k < |rows| ==> key(rows[k]) != id
  {
    if rows == [] then 0 else (if key(rows[0]) == id then 1 else 0) + CountKey(rows[1..], key, id)
  }

  /** `update ... where id = :id`: every row with the id of `row` becomes `row`. */
  function UpdateWhereKey<R>(rows: seq<R>, key: R -> int, row: R): (r: seq<R>)
    ensures |r| == |rows|
    ensures forall k :: 0 <= k < |rows| ==> key(r[k]) == key(rows[k])
    ensures forall k :: 0 <= k < |rows| && key(rows[k]) != key(row) ==> r[k] == rows[k]
  {
    seq(|rows|, k requires 0 <= k < |rows| => if key(rows[k]) == key(row) then row else rows[k])
  }

  /** Update by id, then insert when the update touched no row. */
  function Upsert<R>(rows: seq<R>, key: R -> int, row: R): seq<R> {
    if CountKey(rows, key, key(row)) == 0 then rows + [row] else UpdateWhereKey(rows, key, row)
  }

  /** The first row with id `id`: what `select * ... where id = :id` reads. */
  function FindKey<R>(rows: seq<R>, key: R -> int, id: int): (r: Option<R>)
    ensures r.Some? ==> key(r.value) == id
    ensures r.None? <==> forall k :: 0 <= k < |rows| ==> key(rows[k]) != id
  {
    if rows == [] then None
    else if key(rows[0]) == id then Some(rows[0])
    else FindKey(rows[1..], key, id)
  }

  /** With unique ids, the lookup finds the one row carrying the id. */
  lemma {:induction false} FindKeyAt<R>(rows: seq<R>, key: R -> int, k: nat)
    requires UniqueKeys(rows, key) && k < |rows|
    ensures FindKey(rows, key, key(rows[k])) == Some(rows[k])
  {
    if k > 0 {
      assert key(rows[0]) != key(rows[k]);
      FindKeyAt(rows[1..], key, k - 1);
    }
  }

  /** After an upsert the id is still a key, its one row is the new row, and
      the rows of every other id are found as before. */
  lemma UpsertStoresRow<R>(rows: seq<R>, key: R -> int, row: R)
    requires UniqueKeys(rows, key)
    ensures UniqueKeys(Upsert(rows, key, row), key)
    ensures FindKey(Upsert(rows, key, row), key, key(row)) == Some(row)
  {
    var r := Upsert(rows, key, row);
    if CountKey(rows, key, key(row)) == 0 {
      FindKeyAt(r, key, |rows|);
    } else {
      var k :| 0 <= k < |rows| && key(rows[k]) == key(row);
      FindKeyAt(r, key, k);
    }
  }

  lemma UpsertKeepsOthers<R>(rows: seq<R>, key: R -> int, row: R, id: int)
    requires UniqueKeys(rows, key) && id != key(row)
    ensures FindKey(Upsert(rows, key, row), key, id) == FindKey(rows, key, id)
  {
    var r := Upsert(rows, key, row);
    UpsertStoresRow(rows, key, row);
    if FindKey(rows, key, id).Some? {
      var k :| 0 <= k < |rows| && key(rows[k]) == id;
      FindKeyAt(rows, key, k);
      FindKeyAt(r, key, k);
    } else {
      if CountKey(rows, key, key(row)) == 0 {
        assert forall k :: 0 <= k < |r| ==> r[k] == if k < |rows| then rows[k] else row;
      }
    }
  }

  /** Writing the same row twice leaves the table as writing it once. */
  lemma UpsertIdempotent<R>(rows: seq<R>, key: R -> int, row: R)
    ensures Upsert(Upsert(rows, key, row), key, row) == Upsert(rows, key, row)
  {
    var r := Upsert(rows, key, row);
    assert key(r[|r| - 1]) == key(row) || exists k :: 0 <= k < |rows| && key(rows[k]) == key(row);
    var r2 := UpdateWhereKey(r, key, row);
    assert forall k :: 0 <= k < |r| ==> r2[k] == r[k];
  }

  /** `delete from ... where id = :id`: the rows with another id, in order;
      as many rows go as the id has. */
  function RemoveKey<R>(rows: seq<R>, key: R -> int, id: int): (r: seq<R>)
    ensures forall k :: 0 <= k < |r| ==> key(r[k]) != id
    ensures forall x :: x in r ==> x in rows
    ensures |rows| - |r| == CountKey(rows, key, id)
  {
    if rows == [] then []
    else (if key(rows[0]) == id then [] else [rows[0]]) + RemoveKey(rows[1..], key, id)
  }

  /** Deleting an id keeps the ids a key and every other id's row in place. */
  lemma {:induction false} RemoveKeyKeepsOthers<R>(rows: seq<R>, key: R -> int, id: int, other: int)
    requires UniqueKeys(rows, key)
    ensures UniqueKeys(RemoveKey(rows, key, id), key)
    ensures other != id ==> FindKey(RemoveKey(rows, key, id), key, other) == FindKey(rows, key, other)
  {
    if rows != [] {
      var tail := RemoveKey(rows[1..], key, id);
      RemoveKeyKeepsOthers(rows[1..], key, id, other);
      assert forall k :: 0 <= k < |tail| ==> key(tail[k]) != key(rows[0]) by {
        forall k | 0 <= k < |tail|
          ensures key(tail[k]) != key(rows[0])
        {
          assert tail[k] in rows[1..];
        }
      }
      var r := RemoveKey(rows, key, id);
      if key(rows[0]) == id {
        assert r == tail;
      } else {
        assert r[0] == rows[0] && r[1..] == tail;
      }
    }
  }
}

