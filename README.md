# OsmSharp.Db.SQLite, modelled in Dafny

OsmSharp.Db.SQLite keeps a snapshot of OpenStreetMap data in SQLite: nodes,
ways and relations, each with its tags; ways carry their ordered node ids
and relations their ordered members. This project models the row bookkeeping
of that store and proves what it promises:

- `rows.dfy`: the tables as sequences of rows. It also holds the forward-only
  reader (`Cursor`) and the keyed operations the SQL statements perform
  (`update ... where id`, `insert`, `delete ... where owner`).
- `sql_extensions.dfy`: the reader extensions `AddTags`, `AddNodes` and
  `AddMembers`. Each consumes the child rows of one entity from a reader
  sorted by owner. It also holds `BuildOsmGeo` and the `Build*` helpers.
- `stream_source.dfy`: `SnapshotDbStreamSource`, the eight-reader state
  machine. `MoveNext` walks the categories node, way, relation, and
  `Current` assembles one entity.
- `snapshot_db.dfy`: `SnapshotDb`. This covers `AddOrUpdate` with its
  per-type writers, `Get` by type and id, the list overloads, and `Delete`.
- `snapshot_db_impl.dfy`: `SnapshotDbImpl`. This covers the bounding-box query
  with its missing-node closure, `Get(keys)`, `Delete(keys)` and `GetWays`.
- `stream_target.dfy`: `SnapshotDbStreamTarget`. It turns each streamed
  entity into the `INSERT OR REPLACE` statements it executes.

Conventions:

- Coordinates are integers in units of 10^-7 degree, which is the scaling the
  tables use.
- Timestamps are integers.
- A nullable value is an `Option`.
- A thrown exception is a `Failure` carrying an `Error`.

The writers and the readers are tied together by round-trip lemmas. For
example, writing a way with `AddOrUpdate` and reading it back with `GetWay`
gives back the same way.

## Model

| member | source | states |
|---|---|---|
| Osm.TypeCode | OsmSharp.Db.SQLite/SnapshotDb.cs:485 | The `member_type` column of a member holds 0, 1 or 2, and each code belongs to exactly one type (node, way, relation), so the stored code identifies the type. |
| Rows.Cursor.Read | OsmSharp.Db.SQLite/SqlExtensions.cs:140-144 | `Read` advances one row. It reports a row exactly when one is left, and it never changes the rows. |
| Rows.Open | OsmSharp.Db.SQLite/Streams/SnapshotDbStreamSource.cs:104-121 | A freshly executed reader is positioned before its first row. |
| Rows.OwnedBy | OsmSharp.Db.SQLite/SnapshotDb.cs:542 | `where way_id = :id`: every selected row belongs to the id, and none are invented. |
| Rows.Without | OsmSharp.Db.SQLite/SnapshotDb.cs:349-355 | `delete ... where way_id = :id` leaves no row of the id. |
| Rows.LowerBound | OsmSharp.Db.SQLite/Streams/SnapshotDbStreamSource.cs:106 | In a table sorted by owner, it is the first position whose owner is at least `x`. |
| Rows.OwnedByIsStretch | OsmSharp.Db.SQLite/Streams/SnapshotDbStreamSource.cs:106-121 | In a table sorted by owner, the rows of one owner are exactly one contiguous stretch. |
| Rows.LowerBoundAtFirstParent | OsmSharp.Db.SQLite/Streams/SnapshotDbStreamSource.cs:104-107 | When every child owner is a parent id, the first parent's children start the child table. |
| Rows.LowerBoundAfterParent | OsmSharp.Db.SQLite/Streams/SnapshotDbStreamSource.cs:104-121 | The children of parent k end exactly where the children of parent k+1 begin. |
| Rows.LowerBoundAfterLastParent | OsmSharp.Db.SQLite/Streams/SnapshotDbStreamSource.cs:104-121 | The last parent's children end the child table. |
| Rows.OwnedByAppend | OsmSharp.Db.SQLite/SnapshotDb.cs:401-413 | Selecting by owner distributes over appended rows. |
| Rows.WithoutAppend | OsmSharp.Db.SQLite/SnapshotDb.cs:349-355 | Deleting by owner distributes over appended rows. |
| Rows.OwnedByWithout | OsmSharp.Db.SQLite/SnapshotDb.cs:349-355 | After deleting one owner's rows, that owner has none and every other owner keeps exactly its rows. |
| Rows.AllOwnedBy | OsmSharp.Db.SQLite/SnapshotDb.cs:401-413 | Rows that all belong to one id are all selected by it and by no other id. |
| Rows.WithoutTwice | OsmSharp.Db.SQLite/SnapshotDb.cs:349-355 | Deleting one owner's rows twice is the same as deleting them once. |
| Rows.WithoutKeepsShape | OsmSharp.Db.SQLite/SnapshotDb.cs:349-355 | Deleting or selecting by owner keeps every row of the table's own kind. |
| Rows.CountKey | OsmSharp.Db.SQLite/SnapshotDb.cs:309 | The count `update ... where id` reports is zero exactly when no row has the id. |
| Rows.UpdateWhereKey | OsmSharp.Db.SQLite/SnapshotDb.cs:294-307 | `update ... where id` keeps the number of rows and every id, and it leaves rows of other ids unchanged. |
| Rows.FindKey | OsmSharp.Db.SQLite/SnapshotDb.cs:497-507 | `select ... where id` finds a row of that id, and finds nothing exactly when no row has it. |
| Rows.FindKeyAt | OsmSharp.Db.SQLite/SnapshotDb.cs:497-507 | With a primary key, selecting a row's id finds that row. |
| Rows.UpsertStoresRow | OsmSharp.Db.SQLite/SnapshotDb.cs:294-327 | Update-else-insert keeps the id a primary key, and afterwards the id selects the new row. |
| Rows.UpsertKeepsOthers | OsmSharp.Db.SQLite/SnapshotDb.cs:294-327 | Update-else-insert does not change what any other id selects. |
| Rows.UpsertIdempotent | OsmSharp.Db.SQLite/SnapshotDb.cs:357-385 | Writing the same parent row twice gives the same table as writing it once. |
| Rows.RemoveKey | OsmSharp.Db.SQLite/SnapshotDb.cs:228-230 | `delete from way where id` removes exactly the rows of the id: none is left, nothing is added, and the count removed is the number that matched. |
| Rows.RemoveKeyKeepsOthers | OsmSharp.Db.SQLite/SnapshotDb.cs:228-230 | Deleting one id keeps the primary key and what every other id selects. |
| SqlExtensions.BuildOsmGeo | OsmSharp.Db.SQLite/SqlExtensions.cs:173-182 | It copies id, version, changeset, timestamp, user id, user name and visible from the row and changes nothing else. |
| SqlExtensions.BuildNode | OsmSharp.Db.SQLite/SqlExtensions.cs:45-61 | A node built from a row has the row's id, version and coordinates and no tags. |
| SqlExtensions.BuildWay | OsmSharp.Db.SQLite/SqlExtensions.cs:66-79 | A way built from a row has the row's id and version and no tags or nodes. |
| SqlExtensions.BuildRelation | OsmSharp.Db.SQLite/SqlExtensions.cs:84-97 | A relation built from a row has the row's id and version and no tags or members. |
| SqlExtensions.GroupEnd | OsmSharp.Db.SQLite/SqlExtensions.cs:134-145 | The loop stops at the first row whose owner (or version, when there is a version column) differs. Every row before it belongs to the entity. |
| SqlExtensions.FirstGap | OsmSharp.Db.SQLite/SqlExtensions.cs:197-202 | It finds the first row whose `sequence_id` differs from the count collected so far, or reports that there is none. |
| SqlExtensions.AddTagsSpec | OsmSharp.Db.SQLite/SqlExtensions.cs:126-168 | With no active row, nothing changes. It fails exactly when there is a row and the entity's id, or the version the query compares, is missing. Otherwise the entity's tags are the group's rows in order and nothing else of the entity changes (coordinates, nodes, members, metadata). The reader stops on the first foreign row, and rows of other owners are not consumed. |
| SqlExtensions.AddNodesSpec | OsmSharp.Db.SQLite/SqlExtensions.cs:187-237 | With no active row, nothing changes. With a row and a missing id (or compared version) it fails with `NullableWithoutValue` and the reader stays put, and that error arises in no other case. An accepted group has sequence ids exactly 0..k-1, the way's nodes are the group's node ids in order, and nothing else of the way changes. A sequence error names a row of the way whose `sequence_id` is out of place. |
| SqlExtensions.AddMembersSpec | OsmSharp.Db.SQLite/SqlExtensions.cs:242-300 | With no active row, nothing changes. With a row and a missing id (or compared version) it fails with `NullableWithoutValue` and the reader stays put, and that error arises in no other case. Otherwise the members are `(member_id, member_role, member_type)` of the group in order and nothing else of the relation changes. A sequence error, which only the unversioned branch raises, names a row of the relation whose `sequence_id` differs from the count collected. |
| SqlExtensions.GroupEndIs | OsmSharp.Db.SQLite/SqlExtensions.cs:134-145 | The group ends exactly at the first row outside the entity's group. |
| SqlExtensions.GroupEndIsPast | OsmSharp.Db.SQLite/SqlExtensions.cs:134-145 | Every row of an unbroken stretch of the entity's rows is consumed. |
| SqlExtensions.FirstGapIs | OsmSharp.Db.SQLite/SqlExtensions.cs:197-202 | The first out-of-place `sequence_id` is the one reported. |
| SqlExtensions.FirstGapNone | OsmSharp.Db.SQLite/SqlExtensions.cs:197-202 | Sequence ids 0..k-1 give no error. |
| SqlExtensions.AddTags | OsmSharp.Db.SQLite/SqlExtensions.cs:126-168 | The `while` loop computes `AddTagsSpec`: the advanced reader and the entity with its tags. |
| SqlExtensions.AddNodes | OsmSharp.Db.SQLite/SqlExtensions.cs:187-237 | The `while` loop with its sequence check computes `AddNodesSpec`. |
| SqlExtensions.AddMembers | OsmSharp.Db.SQLite/SqlExtensions.cs:242-300 | The `while` loop computes `AddMembersSpec`. |
| SqlExtensions.WayNodeRowsOf | OsmSharp.Db.SQLite/SnapshotDb.cs:401-413 | A way's nodes are stored as `(id, nodes[i], i)`, one row per node. |
| SqlExtensions.MemberRowsOf | OsmSharp.Db.SQLite/SnapshotDb.cs:473-489 | A relation's members are stored as `(id, member id, type, role, i)`, one row per member. |
| SqlExtensions.TagRowsOf | OsmSharp.Db.SQLite/SnapshotDb.cs:387-399 | One row `(id, key, value)` is stored per tag. |
| SqlExtensions.NodesRoundTrip | OsmSharp.Db.SQLite/SqlExtensions.cs:187-237 | Feeding `AddNodes` the rows `(id, nodes[i], i)`, followed by nothing or a foreign row, gives back exactly `nodes` and stops on that row. |
| SqlExtensions.MembersRoundTrip | OsmSharp.Db.SQLite/SqlExtensions.cs:242-273 | Feeding `AddMembers` a relation's member rows gives back exactly its members. |
| SqlExtensions.TagsRoundTrip | OsmSharp.Db.SQLite/SqlExtensions.cs:126-146 | Feeding `AddTags` an entity's tag rows gives back exactly its tags. |
| SqlExtensions.NodesFailIffOutOfSequence | OsmSharp.Db.SQLite/SqlExtensions.cs:195-210 | `AddNodes` fails exactly when some row of the group has a `sequence_id` different from its index in the group. |
| SqlExtensions.MembersFailIffOutOfSequence | OsmSharp.Db.SQLite/SqlExtensions.cs:248-273 | Without a version column, `AddMembers` fails exactly when some row of the group has a `sequence_id` different from its index in the group. |
| SqlExtensions.VersionedMembersIgnoreSequence | OsmSharp.Db.SQLite/SqlExtensions.cs:276-297 | The versioned branch of `AddMembers` takes the whole group, whatever its sequence ids. |
| SqlExtensions.ForeignRowGivesEmpty | OsmSharp.Db.SQLite/SqlExtensions.cs:189-211 | On a row of another way, the way gets an empty node list and the reader does not move. |
| StreamSource.Rank | OsmSharp.Db.SQLite/Streams/SnapshotDbStreamSource.cs:168-235 | The categories are ordered null < node < way < relation. |
| StreamSource.GroupOf | OsmSharp.Db.SQLite/Streams/SnapshotDbStreamSource.cs:106-121 | It gives the child rows of an id, or nothing when every row belongs to a smaller id. |
| StreamSource.GroupShaped | OsmSharp.Db.SQLite/Streams/SnapshotDbStreamSource.cs:106-121 | An id's child rows are of the table's own kind. |
| StreamSource.TagsIn | OsmSharp.Db.SQLite/Streams/SnapshotDbStreamSource.cs:137 | An entity's expected tags are present exactly when its tag group exists. |
| StreamSource.ExpectedNode | OsmSharp.Db.SQLite/Streams/SnapshotDbStreamSource.cs:134-139 | The k-th node of the stream is the k-th node row with its own tags; it needs only the node tags sorted by owner. |
| StreamSource.ExpectedWay | OsmSharp.Db.SQLite/Streams/SnapshotDbStreamSource.cs:140-146 | The k-th way of the stream is the k-th way row with its own tags and way nodes. |
| StreamSource.ExpectedRelation | OsmSharp.Db.SQLite/Streams/SnapshotDbStreamSource.cs:147-153 | The k-th relation is the k-th relation row with its own tags and members. |
| StreamSource.ChildAtNext | OsmSharp.Db.SQLite/Streams/SnapshotDbStreamSource.cs:143-144 | After consuming parent k's children, a child reader sits at parent k+1's children. |
| StreamSource.ReadsGroup | OsmSharp.Db.SQLite/Streams/SnapshotDbStreamSource.cs:143-144 | A reader at the start of an id's children consumes exactly those rows. |
| StreamSource.ReadNode | OsmSharp.Db.SQLite/Streams/SnapshotDbStreamSource.cs:134-139 | Assembling a node moves only the node-tags reader, over its own rows. |
| StreamSource.ReadWay | OsmSharp.Db.SQLite/Streams/SnapshotDbStreamSource.cs:140-146 | Assembling a way moves only the way-tags and way-nodes readers. |
| StreamSource.ReadRelation | OsmSharp.Db.SQLite/Streams/SnapshotDbStreamSource.cs:147-153 | Assembling a relation moves only the relation-tags and relation-members readers. |
| StreamSource.TagsReadAt | OsmSharp.Db.SQLite/Streams/SnapshotDbStreamSource.cs:137 | On its own tag group, `AddTags` gives the entity exactly its tags and stops at the next id's tags. |
| StreamSource.NoGapIffInSequence | OsmSharp.Db.SQLite/SqlExtensions.cs:197-202 | There is no sequence error exactly when the group's sequence ids are 0..k-1. |
| StreamSource.NodesReadAt | OsmSharp.Db.SQLite/Streams/SnapshotDbStreamSource.cs:144 | On its own group, `AddNodes` gives the way exactly its way nodes in order, or fails when they are out of sequence. |
| StreamSource.MembersReadAt | OsmSharp.Db.SQLite/Streams/SnapshotDbStreamSource.cs:151 | On its own group, `AddMembers` gives the relation exactly its members in order, or fails when they are out of sequence. |
| StreamSource.ReadNodeIsExpected | OsmSharp.Db.SQLite/Streams/SnapshotDbStreamSource.cs:134-139 | With aligned readers, `Current` on node k gives the expected node and leaves the tags reader at node k+1's tags. |
| StreamSource.ReadWayIsExpected | OsmSharp.Db.SQLite/Streams/SnapshotDbStreamSource.cs:140-146 | With aligned readers, `Current` on way k gives that way with exactly its own way nodes in order. |
| StreamSource.ReadRelationIsExpected | OsmSharp.Db.SQLite/Streams/SnapshotDbStreamSource.cs:147-153 | With aligned readers, `Current` on relation k gives that relation with exactly its members in order. |
| StreamSource.Initial | OsmSharp.Db.SQLite/Streams/SnapshotDbStreamSource.cs:102-122 | `Initialize` opens the eight readers over their tables, each before its first row. |
| StreamSource.MoveNextSpec | OsmSharp.Db.SQLite/Streams/SnapshotDbStreamSource.cs:160-237 | The category only moves forward. The result is true exactly when the current category's parent reader has just moved onto a row and relations are not ignored there. |
| StreamSource.MoveNextReadsParents | OsmSharp.Db.SQLite/Streams/SnapshotDbStreamSource.cs:174-235 | A parent reader is read only when its category is reached and not ignored. |
| StreamSource.MoveNextReadsChildrenOnEntry | OsmSharp.Db.SQLite/Streams/SnapshotDbStreamSource.cs:168-215 | Entering a category reads each of its child readers exactly once, and only then. |
| StreamSource.MoveNextStaysOver | OsmSharp.Db.SQLite/Streams/SnapshotDbStreamSource.cs:160-237 | `MoveNext` keeps every reader over its own table. |
| StreamSource.MoveNextKeepsAligned | OsmSharp.Db.SQLite/Streams/SnapshotDbStreamSource.cs:160-237 | From aligned readers, `MoveNext` leaves the child readers at the current entity's children. |
| StreamSource.AlignedInNodes | OsmSharp.Db.SQLite/Streams/SnapshotDbStreamSource.cs:174-195 | A step within nodes keeps the readers aligned. |
| StreamSource.AlignedInWays | OsmSharp.Db.SQLite/Streams/SnapshotDbStreamSource.cs:196-217 | A step into or within ways keeps the readers aligned. |
| StreamSource.AlignedInRelations | OsmSharp.Db.SQLite/Streams/SnapshotDbStreamSource.cs:218-235 | A step into relations keeps the readers aligned. |
| StreamSource.StayInRelations | OsmSharp.Db.SQLite/Streams/SnapshotDbStreamSource.cs:218-235 | A step within relations keeps the readers aligned. |
| StreamSource.CurrentSpec | OsmSharp.Db.SQLite/Streams/SnapshotDbStreamSource.cs:127-155 | It throws when no category is set. It moves only the current category's child readers, and the entity is of the current category. |
| StreamSource.ExpectedAt | OsmSharp.Db.SQLite/Streams/SnapshotDbStreamSource.cs:127-155 | It gives the entity the stream should deliver at the current parent row. |
| StreamSource.CurrentIsExpected | OsmSharp.Db.SQLite/Streams/SnapshotDbStreamSource.cs:127-155 | With aligned readers, `Current` delivers the expected entity and keeps the readers aligned for the next `MoveNext`. |
| StreamSource.MoveNextThenCurrent | OsmSharp.Db.SQLite/Streams/SnapshotDbStreamSource.cs:127-237 | From aligned readers, a `MoveNext` that returns true leaves them aligned, `Current` then delivers the expected entity, and on success the readers are aligned for the next `MoveNext`. |
| StreamSource.CurrentNodeIsExpected | OsmSharp.Db.SQLite/Streams/SnapshotDbStreamSource.cs:134-139 | The same, for nodes. |
| StreamSource.CurrentWayIsExpected | OsmSharp.Db.SQLite/Streams/SnapshotDbStreamSource.cs:140-146 | The same, for ways: each way receives exactly its own way nodes in order. |
| StreamSource.CurrentRelationIsExpected | OsmSharp.Db.SQLite/Streams/SnapshotDbStreamSource.cs:147-153 | The same, for relations. |
| StreamSource.OneNodeOneRelation | OsmSharp.Db.SQLite/Streams/SnapshotDbStreamSource.cs:242-254 | It is a well-formed store with one node and one relation. |
| StreamSource.ResetKeepsCategory | OsmSharp.Db.SQLite/Streams/SnapshotDbStreamSource.cs:242-254 | After `Reset` from the relation category, `MoveNext` skips the node and delivers the relation without its tags and members. |
| StreamSource.StartOverDeliversFirstNode | OsmSharp.Db.SQLite/Streams/SnapshotDbStreamSource.cs:168-187 | Starting over with no category, the first `MoveNext` and `Current` deliver the first node as expected. |
| StreamSource.SnapshotDbStreamSource.constructor | OsmSharp.Db.SQLite/Streams/SnapshotDbStreamSource.cs:47-50 | A new source is uninitialised, has no category, and its readers are aligned. |
| StreamSource.SnapshotDbStreamSource.Initialize | OsmSharp.Db.SQLite/Streams/SnapshotDbStreamSource.cs:102-122 | It reopens the eight readers at their start and keeps the category. |
| StreamSource.SnapshotDbStreamSource.MoveNext | OsmSharp.Db.SQLite/Streams/SnapshotDbStreamSource.cs:160-237 | It initialises on first use and then performs `MoveNextSpec` on the readers. |
| StreamSource.SnapshotDbStreamSource.FirstMove | OsmSharp.Db.SQLite/Streams/SnapshotDbStreamSource.cs:168-172 | The first move sets the node category and reads the node-tags reader once. |
| StreamSource.SnapshotDbStreamSource.MoveInNodes | OsmSharp.Db.SQLite/Streams/SnapshotDbStreamSource.cs:174-195 | It is the node branch of `MoveNext`. |
| StreamSource.SnapshotDbStreamSource.MoveInWays | OsmSharp.Db.SQLite/Streams/SnapshotDbStreamSource.cs:196-217 | It is the way branch of `MoveNext`. |
| StreamSource.SnapshotDbStreamSource.MoveInRelations | OsmSharp.Db.SQLite/Streams/SnapshotDbStreamSource.cs:218-235 | It is the relation branch of `MoveNext`. |
| StreamSource.SnapshotDbStreamSource.Current | OsmSharp.Db.SQLite/Streams/SnapshotDbStreamSource.cs:127-155 | It performs `CurrentSpec`: the entity and the moved child readers. |
| StreamSource.SnapshotDbStreamSource.Reset | OsmSharp.Db.SQLite/Streams/SnapshotDbStreamSource.cs:242-254 | It reopens all eight readers and leaves the category and the initialised flag as they were. |
| StreamSource.SnapshotDbStreamSource.ResetToStart | OsmSharp.Db.SQLite/Streams/SnapshotDbStreamSource.cs:242-254 | Reset that also clears the category, so a replay starts from the nodes with aligned readers. |
| Snapshot.MetaRoundTrip | OsmSharp.Db.SQLite/SnapshotDb.cs:363-369 | Storing an entity's metadata in its row and building from that row gives the metadata back. |
| Snapshot.Present | OsmSharp.Db.SQLite/SnapshotDb.cs:387 | A null collection writes no rows. |
| Snapshot.NonEmpty | OsmSharp.Db.SQLite/SnapshotDb.cs:545-551 | A collection reads back as null exactly when it had no rows. |
| Snapshot.InsertBySequence | OsmSharp.Db.SQLite/SnapshotDb.cs:542 | Inserting a row into the ordered rows is a permutation that adds that row. |
| Snapshot.InsertBySequenceSorted | OsmSharp.Db.SQLite/SnapshotDb.cs:542 | Inserting a row into rows in `sequence_id` order keeps them in order. |
| Snapshot.SortBySequence | OsmSharp.Db.SQLite/SnapshotDb.cs:542 | `order by sequence_id` is a permutation of the selected rows. |
| Snapshot.SortBySequenceSorted | OsmSharp.Db.SQLite/SnapshotDb.cs:542 | The rows `order by sequence_id` returns are in ascending `sequence_id`, whatever order the table holds them in. |
| Snapshot.SortSortedIsIdentity | OsmSharp.Db.SQLite/SnapshotDb.cs:542 | Rows already in `sequence_id` order come out unchanged. |
| Snapshot.SortKeepsShape | OsmSharp.Db.SQLite/SnapshotDb.cs:542 | Ordering keeps every row of its kind. |
| Snapshot.TagsReadBack | OsmSharp.Db.SQLite/SnapshotDb.cs:553-562 | An entity's tag rows read back as its tags, or as null when there are none. |
| Snapshot.NodesReadBack | OsmSharp.Db.SQLite/SnapshotDb.cs:542-551 | A way's node rows read back as its nodes, or as null when there are none. |
| Snapshot.MembersReadBack | OsmSharp.Db.SQLite/SnapshotDb.cs:585-594 | A relation's member rows read back as its members, or as null when there are none. |
| Snapshot.AddOrUpdateNodeSpec | OsmSharp.Db.SQLite/SnapshotDb.cs:288-342 | Writing a node succeeds exactly when every non-nullable value it binds is present. |
| Snapshot.AddOrUpdateWaySpec | OsmSharp.Db.SQLite/SnapshotDb.cs:347-414 | Writing a way succeeds exactly when its metadata values are present. |
| Snapshot.AddOrUpdateRelationSpec | OsmSharp.Db.SQLite/SnapshotDb.cs:419-490 | Writing a relation succeeds exactly when its metadata values are present. |
| Snapshot.AddOrUpdateSpec | OsmSharp.Db.SQLite/SnapshotDb.cs:135-152 | Null throws `ArgumentNullException` and a missing id throws `ArgumentException`, before any table changes. |
| Snapshot.ReplaceGroup | OsmSharp.Db.SQLite/SnapshotDb.cs:349-355 | Deleting an id's children and then inserting new ones leaves exactly the new children for that id and every other id's children unchanged. |
| Snapshot.ReplaceKeepsShape | OsmSharp.Db.SQLite/SnapshotDb.cs:349-355 | Replacing an id's children keeps each child table of its kind. |
| Snapshot.AddOrUpdateKeepsConsistent | OsmSharp.Db.SQLite/SnapshotDb.cs:135-152 | Writing keeps ids primary keys and child tables well formed. |
| Snapshot.NodeRoundTrip | OsmSharp.Db.SQLite/SnapshotDb.cs:288-342 | Reading back a written node (with tags queried by `node_id`) gives the node with its tags. |
| Snapshot.WayRoundTrip | OsmSharp.Db.SQLite/SnapshotDb.cs:347-414 | `GetWay` of a written way gives the way with its tags and its nodes in order. |
| Snapshot.RelationRoundTrip | OsmSharp.Db.SQLite/SnapshotDb.cs:419-490 | `GetRelation` of a written relation gives the relation with its tags and members in order. |
| Snapshot.AddOrUpdateIdempotent | OsmSharp.Db.SQLite/SnapshotDb.cs:349-355 | Writing the same entity twice leaves the same tables as writing it once. |
| Snapshot.NodeWriteKeepsOthers | OsmSharp.Db.SQLite/SnapshotDb.cs:288-342 | Writing a node changes no other node's row or tags. |
| Snapshot.WayWriteKeepsOthers | OsmSharp.Db.SQLite/SnapshotDb.cs:347-414 | Writing a way changes no other way's row, tags or nodes. |
| Snapshot.RelationWriteKeepsOthers | OsmSharp.Db.SQLite/SnapshotDb.cs:419-490 | Writing a relation changes no other relation's row, tags or members. |
| Snapshot.GetReadsOnlyView | OsmSharp.Db.SQLite/SnapshotDb.cs:171-183 | `Get` depends only on the parent row and the children of the id it asks for. |
| Snapshot.AddOrUpdateKeepsOthers | OsmSharp.Db.SQLite/SnapshotDb.cs:135-152 | After writing one entity, `Get` of any other type and id returns what it returned before. |
| Snapshot.GetNullIffNotStored | OsmSharp.Db.SQLite/SnapshotDb.cs:171-183 | `Get` returns null exactly when no parent row has the id. |
| Snapshot.DeleteSpec | OsmSharp.Db.SQLite/SnapshotDb.cs:205-247 | As written, `Delete` fails with the tables unchanged. |
| Snapshot.DeleteIntendedSpec | OsmSharp.Db.SQLite/SnapshotDb.cs:205-247 | The corrected `Delete` reports true exactly when the object was stored. |
| Snapshot.DeleteIntendedKeepsConsistent | OsmSharp.Db.SQLite/SnapshotDb.cs:205-247 | The corrected `Delete` keeps the tables well formed. |
| Snapshot.DeleteIntendedRemovesOnly | OsmSharp.Db.SQLite/SnapshotDb.cs:205-247 | Afterwards an object is stored exactly when it was stored before and is not the one deleted. |
| Snapshot.DeleteIntendedReadsBack | OsmSharp.Db.SQLite/SnapshotDb.cs:205-247 | After the corrected `Delete`, `Get` of the object is null and no child row of it is left. Every other object reads as before. |
| Snapshot.DeleteKeepsStoredObject | OsmSharp.Db.SQLite/SnapshotDb.cs:212-217 | As written, deleting a stored object fails and leaves it stored. The corrected one removes it. |
| Snapshot.GetNodeFailsOnStoredNode | OsmSharp.Db.SQLite/SnapshotDb.cs:508-521 | As written, `GetNode` of any stored node fails at the tags query. The corrected query succeeds. |
| Snapshot.Collect | OsmSharp.Db.SQLite/SnapshotDb.cs:194-199 | A list of results succeeds exactly when every element does, with the values in order. Otherwise it fails with an element's error. |
| Snapshot.CollectStep | OsmSharp.Db.SQLite/SnapshotDb.cs:195-198 | Collecting one more result: an earlier failure stays, and otherwise the new result is appended. |
| Snapshot.CollectAllSuccess | OsmSharp.Db.SQLite/SnapshotDb.cs:194-199 | When every element succeeds, the collected list is exactly their values. |
| Snapshot.CollectFirstFailure | OsmSharp.Db.SQLite/SnapshotDb.cs:194-199 | The error reported is that of the first failing element. |
| Snapshot.GetEach | OsmSharp.Db.SQLite/SnapshotDb.cs:195-198 | Element i is `Get(type[i], id[i])`. |
| Snapshot.GetListSpec | OsmSharp.Db.SQLite/SnapshotDb.cs:188-200 | Null lists throw, and so do unequal lengths. Otherwise the result has the same length with `result[i] = Get(type[i], id[i])`. |
| Snapshot.DeleteAllSpec | OsmSharp.Db.SQLite/SnapshotDb.cs:258-263 | Deleting a list of objects gives one result per object. |
| Snapshot.DeleteListSpec | OsmSharp.Db.SQLite/SnapshotDb.cs:252-264 | Null lists throw, and so do unequal lengths, before anything is deleted. Otherwise there is one result per object. |
| Snapshot.DeleteAllRemovesListed | OsmSharp.Db.SQLite/SnapshotDb.cs:252-264 | Afterwards an object is stored exactly when it was stored before and is not listed. |
| Snapshot.DeleteAllResults | OsmSharp.Db.SQLite/SnapshotDb.cs:258-263 | `result[i]` is true exactly when object i was stored and not listed earlier in the list. |
| Snapshot.InsertTagRows | OsmSharp.Db.SQLite/SnapshotDb.cs:329-341 | The tag loop appends exactly the rows `(id, key, value)` in order. |
| Snapshot.InsertWayNodeRows | OsmSharp.Db.SQLite/SnapshotDb.cs:401-413 | The way-node loop appends exactly `(id, nodes[i], i)` in order. |
| Snapshot.InsertMemberRows | OsmSharp.Db.SQLite/SnapshotDb.cs:473-489 | The member loop appends exactly `(id, member id, type, role, i)` in order. |
| Snapshot.UpdateOrInsert | OsmSharp.Db.SQLite/SnapshotDb.cs:294-327 | It updates the row of the id, and inserts only when the update touched no row. |
| Snapshot.SnapshotDb.constructor | OsmSharp.Db.SQLite/SnapshotDb.cs:53-57 | A store over well-formed tables. |
| Snapshot.SnapshotDb.AddOrUpdate | OsmSharp.Db.SQLite/SnapshotDb.cs:135-152 | It keeps the tables well formed and performs `AddOrUpdateSpec`. |
| Snapshot.SnapshotDb.AddOrUpdateNode | OsmSharp.Db.SQLite/SnapshotDb.cs:288-342 | It deletes the node's tags, updates or inserts its row, then inserts its tags. A missing value fails after the tags are deleted. |
| Snapshot.SnapshotDb.AddOrUpdateWay | OsmSharp.Db.SQLite/SnapshotDb.cs:347-414 | It deletes the way's tags and way nodes, updates or inserts its row, then inserts its tags and `(id, nodes[i], i)`. |
| Snapshot.SnapshotDb.AddOrUpdateRelation | OsmSharp.Db.SQLite/SnapshotDb.cs:419-490 | It deletes the relation's tags and members, updates or inserts its row, then inserts its tags and members. |
| Snapshot.SnapshotDb.GetNode | OsmSharp.Db.SQLite/SnapshotDb.cs:495-522 | As written: it returns null for a missing node and fails on a stored one. |
| Snapshot.ReadTagsInto | OsmSharp.Db.SQLite/SnapshotDb.cs:512-519 | Reading an entity's tags fails exactly when there are tag rows and the entity has no id, so an entity read from its own row always gets its tags. |
| Snapshot.ReadNodesInto | OsmSharp.Db.SQLite/SnapshotDb.cs:547-550 | With no rows the way is unchanged. Reading fails with `NullableWithoutValue` exactly when there are rows and the way has no id. On success only the way's node list changes. |
| Snapshot.ReadMembersInto | OsmSharp.Db.SQLite/SnapshotDb.cs:590-593 | With no rows the relation is unchanged. Reading fails with `NullableWithoutValue` exactly when there are rows and the relation has no id. On success only the relation's member list changes. |
| Snapshot.SnapshotDb.GetNodeIntended | OsmSharp.Db.SQLite/SnapshotDb.cs:495-522 | The node row, with its tags queried by `node_id`. |
| Snapshot.SnapshotDb.GetWay | OsmSharp.Db.SQLite/SnapshotDb.cs:527-565 | The way row, with its nodes ordered by `sequence_id` and then its tags. Nodes are left null when there are no rows. |
| Snapshot.SnapshotDb.GetRelation | OsmSharp.Db.SQLite/SnapshotDb.cs:570-608 | The relation row, with its members ordered by `sequence_id` and then its tags. |
| Snapshot.SnapshotDb.Get | OsmSharp.Db.SQLite/SnapshotDb.cs:171-183 | It dispatches on the type, and performs `GetSpec`. |
| Snapshot.SnapshotDb.GetList | OsmSharp.Db.SQLite/SnapshotDb.cs:188-200 | The loop performs `GetListSpec`. |
| Snapshot.SnapshotDb.Delete | OsmSharp.Db.SQLite/SnapshotDb.cs:205-247 | As written: it fails and deletes nothing. |
| Snapshot.SnapshotDb.DeleteIntended | OsmSharp.Db.SQLite/SnapshotDb.cs:205-247 | It deletes the children and then the parent row, and reports whether a parent row went. |
| Snapshot.SnapshotDb.DeleteList | OsmSharp.Db.SQLite/SnapshotDb.cs:252-264 | The loop performs `DeleteListSpec` and keeps the tables well formed. |
| SnapshotImpl.IdsOfType | OsmSharp.Db.SQLite/Impl/SnapshotDbImpl.cs:136-138 | `Where(type).Select(id)`: an id is selected exactly when a key of that type carries it. |
| SnapshotImpl.IdsOfTypeAppend | OsmSharp.Db.SQLite/Impl/SnapshotDbImpl.cs:136-138 | Selecting by type distributes over concatenated keys. |
| SnapshotImpl.GetByKeys | OsmSharp.Db.SQLite/Impl/SnapshotDbImpl.cs:132-143 | `Get(keys)` returns all nodes, then all ways, then all relations. |
| SnapshotImpl.GetByKeysReturnsListed | OsmSharp.Db.SQLite/Impl/SnapshotDbImpl.cs:132-143 | When the lookups by id return only objects with the ids asked for, `Get(keys)` returns only objects whose key was asked for. |
| SnapshotImpl.DeleteByKeys | OsmSharp.Db.SQLite/Impl/SnapshotDbImpl.cs:112-119 | An id reaches the node, way or relation delete exactly when a key of that type carries it. |
| SnapshotImpl.DeleteByKeysRoutesByType | OsmSharp.Db.SQLite/Impl/SnapshotDbImpl.cs:112-119 | Each key reaches the delete call of its own type and no other. |
| SnapshotImpl.GetWays | OsmSharp.Db.SQLite/Impl/SnapshotDbImpl.cs:191-197 | When the lookups by id return only objects with the ids asked for, `GetWays` returns only ways whose id the way-id query gave. |
| SnapshotImpl.Referenced | OsmSharp.Db.SQLite/Impl/SnapshotDbImpl.cs:162-175 | Every node id of every fetched way is referenced. A way with null nodes contributes nothing. |
| SnapshotImpl.ReferencedFromWays | OsmSharp.Db.SQLite/Impl/SnapshotDbImpl.cs:162-175 | Every referenced id is a node of some fetched way. |
| SnapshotImpl.Missing | OsmSharp.Db.SQLite/Impl/SnapshotDbImpl.cs:161-175 | The missing ids are no more than the references and none of them lies in the box. |
| SnapshotImpl.MissingIsClosure | OsmSharp.Db.SQLite/Impl/SnapshotDbImpl.cs:161-175 | The missing ids have no duplicates, are disjoint from the box's ids and are referenced ids. Box plus missing covers every referenced id. |
| SnapshotImpl.MissingStep | OsmSharp.Db.SQLite/Impl/SnapshotDbImpl.cs:168-172 | One node is added exactly when it is neither in the box nor already missing. |
| SnapshotImpl.ReferencedStep | OsmSharp.Db.SQLite/Impl/SnapshotDbImpl.cs:164-174 | One more way adds exactly its node ids, or none when they are null. |
| SnapshotImpl.MissingNodesClose | OsmSharp.Db.SQLite/Impl/SnapshotDbImpl.cs:148-186 | Every node id of every way in the result is a box node or a missing node, and the missing ones are outside the box. |
| SnapshotImpl.GetInBoxSpec | OsmSharp.Db.SQLite/Impl/SnapshotDbImpl.cs:148-186 | The result is ordered by type: nodes, then ways, then relations, as the merged stream requires. |
| SnapshotImpl.GetInBoxWaysComplete | OsmSharp.Db.SQLite/Impl/SnapshotDbImpl.cs:148-186 | When the node lookup returns a node for every id asked for (`FindsAllNodes`), every node of a returned way is itself in the result. |
| SnapshotImpl.GatherMissing | OsmSharp.Db.SQLite/Impl/SnapshotDbImpl.cs:166-173 | The inner loop extends the missing set by one way's nodes. |
| SnapshotImpl.MissingNodeIds | OsmSharp.Db.SQLite/Impl/SnapshotDbImpl.cs:161-175 | The nested loops compute exactly the missing ids of the fetched ways. |
| SnapshotImpl.GetInBox | OsmSharp.Db.SQLite/Impl/SnapshotDbImpl.cs:148-186 | The result is the box nodes, the missing nodes, the ways and the relations, in that order. |
| StreamTarget.ConvertMemberType | OsmSharp.Db.SQLite/Streams/SnapshotDbStreamTarget.cs:280-287 | Null stays null, and a type becomes one of 0, 1 or 2. Each stored value belongs to exactly one type, so distinct member types are stored as distinct values. |
| StreamTarget.ConvertDateTime | OsmSharp.Db.SQLite/Streams/SnapshotDbStreamTarget.cs:293-300 | Null stays null, and a time becomes its Unix time. |
| StreamTarget.KeyedTags | OsmSharp.Db.SQLite/Streams/SnapshotDbStreamTarget.cs:210-223 | Every way tag written has a key, and no more tags are written than the way has. |
| StreamTarget.KeyedTagsMembers | OsmSharp.Db.SQLite/Streams/SnapshotDbStreamTarget.cs:210-223 | A tag is written exactly when it is one of the way's tags and has a key. |
| StreamTarget.WayTagsAreKeyedTags | OsmSharp.Db.SQLite/Streams/SnapshotDbStreamTarget.cs:210-223 | The way-tag inserts are the tag inserts of the keyed tags, in order. |
| StreamTarget.KeyedTagsAllKeyed | OsmSharp.Db.SQLite/Streams/SnapshotDbStreamTarget.cs:215 | When every tag has a key, the way's tags are written unfiltered. |
| StreamTarget.MemberTypeColumn | OsmSharp.Db.SQLite/Streams/SnapshotDbStreamTarget.cs:267 | A member's `member_type` is `ConvertMemberType` of its type. |
| StreamTarget.AddNodeSpec | OsmSharp.Db.SQLite/Streams/SnapshotDbStreamTarget.cs:156-193 | A node without both coordinates throws `ArgumentOutOfRangeException` before anything runs, and only then. |
| StreamTarget.AddNodeParentFirst | OsmSharp.Db.SQLite/Streams/SnapshotDbStreamTarget.cs:156-193 | The node row runs once and first, then one tag row per tag, all owned by the node's id. |
| StreamTarget.AddWayParentFirst | OsmSharp.Db.SQLite/Streams/SnapshotDbStreamTarget.cs:198-234 | The way row runs once and first, then one row per keyed tag and one per node. Null collections give none. |
| StreamTarget.AddRelationParentFirst | OsmSharp.Db.SQLite/Streams/SnapshotDbStreamTarget.cs:240-275 | The relation row runs once and first, then one row per tag and one per member. |
| StreamTarget.RowOf | OsmSharp.Db.SQLite/Streams/SnapshotDbStreamTarget.cs:185-190 | The child row a statement inserts belongs to the statement's owner. |
| StreamTarget.RowsOf | OsmSharp.Db.SQLite/Streams/SnapshotDbStreamTarget.cs:183-192 | One row is inserted per child statement. |
| StreamTarget.TagStatementsReadBack | OsmSharp.Db.SQLite/Streams/SnapshotDbStreamTarget.cs:183-192 | The tag inserts are the rows `AddOrUpdate` stores, and they read back as the tags. |
| StreamTarget.WayTagStatementsReadBack | OsmSharp.Db.SQLite/Streams/SnapshotDbStreamTarget.cs:210-223 | The way-tag inserts read back as the keyed tags. |
| StreamTarget.WayNodeStatementsReadBack | OsmSharp.Db.SQLite/Streams/SnapshotDbStreamTarget.cs:224-233 | The way-node inserts are `(id, nodes[n], n)`, and they read back as the nodes in order. |
| StreamTarget.MemberStatementsReadBack | OsmSharp.Db.SQLite/Streams/SnapshotDbStreamTarget.cs:262-274 | The member inserts are the rows `AddOrUpdate` stores, and they read back as the members in order. |
| StreamTarget.SnapshotDbStreamTarget.constructor | OsmSharp.Db.SQLite/Streams/SnapshotDbStreamTarget.cs:49-52 | A new target has executed nothing. |
| StreamTarget.SnapshotDbStreamTarget.AddNode | OsmSharp.Db.SQLite/Streams/SnapshotDbStreamTarget.cs:156-193 | It executes exactly `AddNodeSpec`, or nothing when the node is rejected. |
| StreamTarget.SnapshotDbStreamTarget.AddWay | OsmSharp.Db.SQLite/Streams/SnapshotDbStreamTarget.cs:198-234 | It executes exactly `AddWaySpec`. |
| StreamTarget.SnapshotDbStreamTarget.AddRelation | OsmSharp.Db.SQLite/Streams/SnapshotDbStreamTarget.cs:240-275 | It executes exactly `AddRelationSpec`. |
| StreamTarget.ExecuteTags | OsmSharp.Db.SQLite/Streams/SnapshotDbStreamTarget.cs:183-192 | The `foreach` emits one tag insert per tag, in order. |
| StreamTarget.ExecuteWayTags | OsmSharp.Db.SQLite/Streams/SnapshotDbStreamTarget.cs:210-223 | The `foreach` skips empty keys. |
| StreamTarget.ExecuteWayNodes | OsmSharp.Db.SQLite/Streams/SnapshotDbStreamTarget.cs:224-233 | The `for` emits `(id, nodes[n], n)` in order. |
| StreamTarget.ExecuteMembers | OsmSharp.Db.SQLite/Streams/SnapshotDbStreamTarget.cs:262-274 | The `for` emits `(id, type, member id, role, n)` in order. |

## Left out

- Connection, command and schema handling are not modelled. This covers opening connections, preparing commands, binding parameters, creating or detecting the schema and disposing readers. A statement is modelled by its effect on the tables, or, in the stream target, by the values it binds.
- Floating-point coordinates are not modelled. The `* 10000000` and `/ 10000000` conversions are left out, and coordinates are the scaled integers.
- Tile ids are not computed. They are a function parameter `tile` of the store and of the stream target, because the tile libraries are not part of this model.
- Unix time is not computed. Timestamps are integers, and the stream target takes the conversion as a function parameter `toUnixTime`.
- The stream target's transactions are left out. It opens them and never commits them, which concerns the database engine rather than the rows.
- `SnapshotDb.Get()`, `Get(bbox)` and `ApplyChangeset` are left out, because they only throw `NotImplementedException`.
- `SnapshotDb.AddOrUpdate(IEnumerable)` is left out. It passes the whole sequence back to itself instead of each element, so it never stores anything.
- The connection queries of `SnapshotDbImpl` are not modelled. The box query, way ids for nodes, relation ids for members and the lookups by id are not part of this model, so they are inputs (`Queries`). `GetByKeysReturnsListed` and `GetWays` assume that a lookup by id returns only objects with those ids (`ById`).
- `SnapshotImpl.GetInBoxWaysComplete` assumes that the node lookup by id returns a node for every id asked for (`FindsAllNodes`), which amounts to a store without dangling way-node references. It says nothing about a store where a way lists a node that is not stored.
- `SnapshotImpl.GetInBox` models `MergedEnumerable` as plain concatenation, because that class is not part of this model.
- `SnapshotImpl.GetInBox` treats the `HashSet` of missing node ids as a duplicate-free sequence in insertion order. Its order is not observable through the set.
- `SnapshotImpl.DeleteByKeysRoutesByType` stops at the three id lists handed to the delete calls. What those calls delete is not part of this model.
- `SnapshotImpl.GetRelations(keys)` is not modelled. It only forwards to two connection queries that are not part of this model.
- Queries without `order by` (the tag queries) are assumed to return rows in table order.
- Tag keys are never null. The way writer's `IsNullOrEmpty` test is modelled as the empty-key test.
- `RelationMember.memberType` holds the integer of the member's type. A cast from `int` keeps any integer, so a stored code outside 0..2 is read back unchanged.
- Null handling: a null entity collection is `None`. In `SnapshotDb`, a nullable value written with `.Value` (for example a missing version) throws after the entity's child rows were deleted. The model keeps that deletion and returns `NullableWithoutValue`, and it does not model which further statements had already run.
- `Snapshot.SnapshotDb.DeleteList` uses the corrected `Delete`. The code as written fails on its first element (see Findings).
- `Snapshot.SnapshotDb.Get` and `Snapshot.SnapshotDb.GetList` read nodes with the corrected node query (see Findings). The as-written `GetNode` is kept beside it.
- Reading an entity back presents an empty collection as null, because the readers leave it unset when no row exists. The round-trip lemmas state it through `NonEmpty`.

## Findings

| source | as written | input that shows it | evidently intended | confidence | as-written member | corrected member |
|---|---|---|---|---|---|---|
| OsmSharp.Db.SQLite/SnapshotDb.cs:510 | The node's tags are queried with `WHERE way_id = :id`, a column `node_tags` does not have. | Any stored node, e.g. one written by `AddOrUpdate` and then read with `Get(Node, id)` | Query the tags `WHERE node_id = :id` | high (not executed) | Snapshot.GetNodeFailsOnStoredNode | Snapshot.NodeRoundTrip |
| OsmSharp.Db.SQLite/SnapshotDb.cs:212-243 | Each `DELETE` has an unbalanced `(`, and the node branch names the table `node_tag`. | `Delete(Way, id)` of any stored way | Delete the children and then the parent row, and report whether the parent row existed | high (not executed) | Snapshot.DeleteKeepsStoredObject | Snapshot.DeleteIntendedReadsBack |
| OsmSharp.Db.SQLite/Streams/SnapshotDbStreamSource.cs:242-254 | `Reset` reopens the readers but keeps the current category. | A store with one node and one relation, enumerated once and then again after `Reset` | The second pass starts again at the nodes | medium (not executed) | StreamSource.ResetKeepsCategory | StreamSource.StartOverDeliversFirstNode |
