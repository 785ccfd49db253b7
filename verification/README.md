# OmenDB: a verified model of its relational core

OmenDB is a relational database over SeerDB, an ordered key-value kernel with snapshots. Each table is a tree from
row identities to row bytes, each index a tree from value keys (with the identity appended) to identities. This
project models the parts where correctness is hard to see and proves what they promise.

- **Kernel, Store, Commits, Staging, RowOperations, Cascades, Expansions, References, Transactions.** The row
  transaction: reads of a snapshot overlaid with own writes, insert, update, delete with ON DELETE actions, foreign-key
  validation and commit. The kernel appears by its commit contract: a log of commits, registered ranges, and a commit
  step that refuses what a later commit has invalidated. The transaction is a class whose methods stage writes.
- **Carrying, SchemaSteps, SchemaLaws, SchemaBatches, SchemaTransactions.** Batches of schema mutations, carried out
  step by step on a working image and published whole.
- **Histories, Runs.** Every interleaving of the two kinds of transaction: each committed image is consistent, and each
  method that publishes keeps it so.
- **Operations.** Nested operations, swallowed errors and the poisoned transaction.
- **Catalogs, CatalogLaws, CatalogCodec.** The catalog, its invariant over every run of mutations, and its byte codec.
- **Values, Rows, RowKeys, IndexEntries, Decimals, Bytes.** Encodings of values, rows, identities and index entries,
  prefix ranges, fixed-point decimals with their 128-bit overflow paths.
- **Predicates, Planner, Queries.** Three-valued predicates, access-path resolution and candidate rows.
- **WorkItems, Governor, Reactors.** Admission, eviction, expiry, dispatch and demotion of work.
- **Admission.** Readers, writers and closing of a session, as steps of any number of callers.
- **PackedPages, PackedRanges.** Page layout in a byte buffer, greedy packing, binary search.
- **Calendar, Texts, Literals, DecimalLiterals, Scripts.** Civil dates, text forms of dates, timestamps and decimals,
  quoting and script splitting.

How the central theorem is put together: `Transactions` shows that every method keeps the staged view in order (index
trees hold exactly what rows imply, unique keys are unique) and that `Publish` hands over only work whose foreign keys
hold and whose reads are registered; `Commits.RowCommitKeeps` merges such work with whatever was committed since;
`SchemaBatches` does the same for schema batches; `Histories.HistoryIsConsistent` is the induction over all histories;
`Runs` puts the methods and the theorem together.

Some things a reader may not expect, each following the code:

- The catalog accepts an index with an empty list of predicate terms, which its decoder refuses. The round trip is
  therefore stated with its exact condition, and `CatalogCodec.EmptyPredicateIsLost` is the counterexample.
- Changing the type of a column with `nullable` false is refused for a column that is already NOT NULL, though the
  comment in the source speaks of tightening.
- The guard on renaming, converting or dropping a column also trips on a partial index of another table whose predicate
  uses the same column id (`src/relational.rs:939-960`).
- A removed row may have been changed first: a SET NULL key can null a column of a row that another key then cascades
  to. That nothing refers to a removed row is therefore stated of the row as it was when removed.
- A cascade can fail: a child already removed by a sibling's cascade is reported missing, and a cycle that does not
  pass through the deleted row ends at the depth bound. Results of a delete are stated for successful deletes.
- The upper bound of a prefix scan keeps zero bytes instead of being cut off, so a truncated key can fall into the
  range. The range is exact among well-formed entries; `IndexEntries.ShortKeyInRange` shows the other case.
- An admission may evict work and still be refused for the sake of the reserve.
- A date is read back from its own text only if its year has four digits; representable dates reach further.
- `max_bytes` of a packing budget bounds the bytes of entries, not of pages.

## Model

| member | source | states |
|---|---|---|
| `Kernel.Engine.Publish` | crates/seerdb/src/transactional.rs:2291-2420 | a commit is admitted if and only if no commit published after its snapshot wrote a cell it wrote, wrote inside a range it registered, or created or dropped a tree it touches; an admitted commit is appended and a refused one leaves the log as it was |
| `Kernel.Untouched` | src/seer_direct.rs:753-756 | a cell that no later commit touched reads the same now as at the snapshot |
| `Values.CanonicalDecidesEquality` | src/relational.rs:999-1014 | two values have the same key form exactly when they are equal in SQL: decimals up to trailing zeros, floats up to the sign of zero and the payload of NaN |
| `Values.ReadValueWritten` | src/relational.rs:1033-1077 | a written value is read back whatever bytes follow it |
| `Values.ReadValueReadsBack` | src/relational.rs:1235-1328 | bytes read as a value are exactly that value's encoding, so the value encoding is a bijection |
| `Values.CompositeKeyDecidesEquality` | src/relational.rs:1481-1513 | composite keys of equally many values are the same bytes exactly when the values are SQL-equal one by one |
| `Rows.DecodeRowBytes` | src/relational.rs:1235-1328 | the cursor loop that decodes a row agrees with the recursive definition of reading values, errors included |
| `Rows.RowRoundTrip` | src/relational.rs:1220-1328 | every row that can be written is read back unchanged |
| `Rows.RowReadsBack` | src/relational.rs:1220-1328 | bytes that decode to a row are that row's encoding |
| `Rows.IdentityRoundTrip` | src/row_identity.rs:87-133 | an encoded identity decodes to itself with its values in canonical form |
| `Rows.IdentityDecidesEquality` | src/row_identity.rs:87-133 | identity bytes coincide exactly when table and columns do and the values are SQL-equal |
| `Rows.LegacyKeyRoundTrip` | src/row_identity.rs:136-162 | the envelope around a sixteen-byte row key is undone by its decoder |
| `Decimals.DigitCount` | src/sql_types.rs:170-178 | the counting loop gives the number of decimal digits |
| `Decimals.New` | src/sql_types.rs:145-157 | a decimal is built exactly when its digits and its scale together stay within 38 |
| `Decimals.Normalize` | src/sql_types.rs:183-191 | the loop that strips zeros reaches the normal form |
| `Decimals.NormalKeepsValue` | src/sql_types.rs:183-191 | the normal form is the same rational number |
| `Decimals.NormalDecidesValue` | src/sql_types.rs:226-230 | two decimals are the same number exactly when they share one normal form |
| `Decimals.CompareIsRationalOrder` | src/sql_types.rs:245-286 | comparison is the order of the rational numbers, on the path where alignment overflows too |
| `Decimals.EqualIffSameNormal` | src/sql_types.rs:226-286 | comparison and normal-form equality never disagree |
| `Decimals.CompareScaledExact` | src/sql_query.rs:2741-2754 | comparing an integer with a decimal by a saturating product is the rational comparison |
| `Decimals.NearestAwayUnique` | src/sql_types.rs:196-219 | at most one integer is nearest with ties away from zero, so the rounding results below are determined |
| `Decimals.RescaleRounds` | src/sql_types.rs:196-219 | a successful rescale is exact when the target is finer and otherwise the nearest value with ties away from zero |
| `Decimals.RescaleUpFails` | src/sql_types.rs:196-219 | rescaling to a finer scale fails exactly when the digits do not fit |
| `Decimals.ArithmeticExact` | src/arithmetic.rs:49-82 | successful addition, subtraction and multiplication are exact; every unchecked 128-bit step is typed so that it cannot overflow |
| `Decimals.DivisionRounds` | src/arithmetic.rs:146-170 | a successful division is the true quotient rounded to the result's scale, nearest with ties away from zero |
| `Catalogs.ForeignKeyIndex` | src/relational.rs:609-649 | the index a foreign key is checked through supports it, is the lowest-numbered one that does, and is found whenever there is one |
| `CatalogLaws.CreateTableKeeps` | src/relational.rs:327-380 | an accepted table keeps the catalog invariant |
| `CatalogLaws.AddNullableColumnKeeps` | src/relational.rs:385-409 | an added nullable column keeps the invariant |
| `CatalogLaws.EditedColumn` | src/relational.rs:711-788 | renaming or retyping an unconstrained column keeps the invariant |
| `CatalogLaws.DropColumnKeeps` | src/relational.rs:793-813 | dropping an unconstrained column keeps the invariant |
| `CatalogLaws.RenameTableKeeps` | src/relational.rs:817-833 | renaming a table keeps the invariant |
| `CatalogLaws.AddIndexKeeps` | src/relational.rs:411-482 | an accepted index keeps the invariant |
| `CatalogLaws.AddForeignKeyKeeps` | src/relational.rs:434-466 | an accepted foreign key keeps the invariant |
| `CatalogLaws.DropTableKeeps` | src/relational.rs:841-878 | dropping a table with its indexes keeps the invariant |
| `CatalogLaws.DropIndexKeeps` | src/relational.rs:883-907 | dropping an index no foreign key depends on keeps the invariant |
| `CatalogLaws.DropForeignKeyKeeps` | src/relational.rs:910-917 | dropping a foreign key keeps the invariant |
| `CatalogLaws.MutationKeepsValid` | src/seer_direct.rs:1632-1662 | every accepted mutation keeps the invariant: constrained columns exist with matching types, every foreign key is supported, SET NULL columns are nullable, names are globally distinct |
| `CatalogLaws.ReachableIsValid` | src/relational.rs:317-978 | every catalog reachable from the empty one satisfies the invariant |
| `CatalogLaws.SupportIsPermutation` | src/relational.rs:621-649 | the index supporting a foreign key lists exactly its referenced columns in some order, nothing twice and nothing missing |
| `CatalogLaws.SetNullAvoidsPrimaryKey` | src/relational.rs:563-604 | a column nulled by ON DELETE SET NULL is never part of its table's primary key |
| `CatalogCodec.ReadExpressionWritten` | src/relational.rs:1701-1752 | an index expression of any depth is read back from its encoding |
| `CatalogCodec.ReadTermValueWritten` | src/relational.rs:1755-1777 | a predicate value is read back exactly when its tag is one the decoder knows |
| `CatalogCodec.ReadTableWritten` | src/relational.rs:1613-1698 | a table definition with its primary key is read back exactly when the key has at most 256 columns |
| `CatalogCodec.ReadIndexWritten` | src/relational.rs:1613-1698 | an index definition is read back exactly within the decoder's bounds on parts and predicate terms |
| `CatalogCodec.ReadKeyWritten` | src/relational.rs:1613-1698 | a foreign key definition is read back exactly within the decoder's bound on columns |
| `CatalogCodec.DecodeDefinitions` | src/relational.rs:1779-2037 | the decoding loop reads as many definitions as announced and accepts each against what was decoded before it |
| `CatalogCodec.CatalogRoundTrip` | src/relational.rs:1613-2037 | a valid catalog is decoded to itself if and only if it respects the decoder's bounds and tags, and is refused as corrupt when a definition is beyond them; every decoder validation passes because of the invariant |
| `CatalogCodec.EmptyPredicateIsLost` | src/relational.rs:1779-2037 | the condition is needed: two accepted mutations reach a catalog with an empty predicate list, which encodes and which the decoder refuses as corrupt |
| `RowKeys.Materialize` | src/relational.rs:1179-1187 | a stored row shorter than its table is completed with NULL |
| `RowKeys.IndexKeyDepends` | src/relational.rs:1436-1468 | the key of a row under an index depends only on the columns the index and its predicate mention |
| `RowKeys.KeyErrors` | src/relational.rs:1436-1468 | a key that cannot be computed is an arithmetic or definition error, never a constraint violation |
| `IndexEntries.EntryRoundTrip` | src/seer_direct.rs:1561-1678 | an index entry decodes to the value key and the identity it was built from |
| `IndexEntries.EntryReadBack` | src/seer_direct.rs:1561-1678 | every key that decodes is the encoding of what it decodes to |
| `IndexEntries.PrefixSuccessor` | src/seer_direct.rs:1547-1559 | the in-place increment with carry computes the byte-wise successor, and nothing exactly for all-0xFF input |
| `IndexEntries.SuccessorAddsOne` | src/seer_direct.rs:1547-1559 | the successor is the big-endian number plus one |
| `IndexEntries.RangeIsExact` | src/seer_direct.rs:1533-1559 | among well-formed entries the scanned range holds exactly those carrying the value key, also when the increment carries through 0xFF bytes into the length header |
| `IndexEntries.ShortKeyInRange` | src/seer_direct.rs:1547-1559 | well-formedness is needed: a truncated key can fall inside the range |
| `Transactions.DirectTransaction.Begin` | src/seer_direct.rs:750-779 | a transaction begins on the committed image with nothing staged and the catalog marker registered |
| `Transactions.DirectTransaction.Get` | src/seer_direct.rs:809-817 | a read returns the snapshot overlaid with own writes, and registers the cell unless it was written here |
| `Transactions.DirectTransaction.HasConflict` | src/seer_direct.rs:885-897 | the probe answers whether any entry carries the value key, and registers the probed range |
| `Transactions.DirectTransaction.IndexIdentities` | src/seer_direct.rs:902-915 | the identities found are exactly those of the rows that have this key |
| `Transactions.DirectTransaction.StageEntry` | src/seer_direct.rs:1106-1139 | one entry is put or deleted and nothing else changes; it fails only for a key that cannot be stored or is taken |
| `Transactions.DirectTransaction.StageIndexes` | src/seer_direct.rs:1106-1139 | after success every index of the table holds exactly the entry of this row, or none when removing |
| `Transactions.DirectTransaction.Insert` | src/seer_direct.rs:936-958 | succeeds if and only if the row is valid, its identity free and every index takes it; then the row is stored, other rows are unchanged and all index trees agree with the rows |
| `Transactions.DirectTransaction.Update` | src/seer_direct.rs:963-981 | succeeds if and only if the row is valid, its identity present and every index takes it; then only that row changes and index trees agree |
| `Transactions.DirectTransaction.Remove` | src/seer_direct.rs:984-1000 | succeeds if and only if the row is there; returns it as it was and removes it with its entries |
| `Transactions.DirectTransaction.Delete` | src/seer_direct.rs:984-1000 | on success the row is gone; every other removed row was reached by a chain of CASCADE references, and nothing refers any more, under an acting key, to it as it was when removed; only SET NULL columns of rows that referred to a reached row became NULL; everything else is unchanged; it terminates on cyclic data, and an unreferenced row is always deleted |
| `Cascades.NothingRefersToRemoved` | src/seer_direct.rs:1007-1069 | a removed row that no SET NULL key reaches leaves no reference to it as it was before the delete |
| `Transactions.DirectTransaction.Expand` | src/seer_direct.rs:1007-1069 | the ON DELETE actions of all keys have that effect, by the measure of rows left and 64 minus the depth |
| `Transactions.DirectTransaction.ExpandKey` | src/seer_direct.rs:1007-1069 | after one key is expanded no row refers to the deleted row under it; without referrers nothing changes |
| `Transactions.DirectTransaction.ActOnChild` | src/seer_direct.rs:1007-1069 | each scanned child that refers is cascaded or nulled, any other is left alone |
| `Transactions.DirectTransaction.ClearReference` | src/seer_direct.rs:1007-1069 | SET NULL nulls exactly the key's columns of one row, stored under the same identity |
| `Transactions.DirectTransaction.ValidateKey` | src/seer_direct.rs:1239-1268 | succeeds if and only if every child tuple without NULL has a parent row, and registers both trees whole |
| `Transactions.DirectTransaction.ValidateReferences` | src/seer_direct.rs:1168-1196 | succeeds if and only if all foreign keys of the timing hold in the view |
| `Transactions.DirectTransaction.ValidateImmediate` | src/seer_direct.rs:1143-1149 | after success all immediate keys hold if rows had changed; after failure some immediate key is violated and the flag stays set |
| `Transactions.DirectTransaction.Publish` | src/seer_direct.rs:1153-1163 | a commit is appended only when all foreign keys hold and the kernel admits it; otherwise the log is unchanged and the error says which |
| `Expansions.NullColumns` | src/relational.rs:1200-1217 | the loop sets exactly the listed columns to NULL |
| `Expansions.NulledIdentity` | src/seer_direct.rs:1007-1069 | setting the columns of a SET NULL key to NULL never changes a row's identity |
| `References.TuplesDecide` | src/seer_direct.rs:1207-1220 | comparing tuples in the order of the supporting index decides whether one row refers to another |
| `References.ForeignKeyMeans` | src/seer_direct.rs:1239-1268 | what is checked through index entries holds if and only if every child row without NULL in its key has a matching parent row |
| `Commits.MergedUnique` | src/seer_direct.rs:885-897 | two transactions that put one unique key cannot both survive the merge, because the probe was registered |
| `Commits.MergedForeign` | src/seer_direct.rs:1168-1196 | a foreign key checked in the view still holds after merging with commits that respected the registered ranges |
| `Commits.RowCommitKeeps` | src/seer_direct.rs:1153-1163 | a ready transaction that nothing published since conflicts with leaves a consistent image |
| `SchemaTransactions.ValidateMapping` | src/seer_direct.rs:1286-1349 | accepts exactly the mappings that give every table and index a live tree of its own and leave no live tree unmapped |
| `SchemaTransactions.SchemaTransaction.Begin` | src/seer_direct.rs:295-478 | a batch begins in order on the committed image |
| `SchemaTransactions.SchemaTransaction.BuildIndex` | src/seer_direct.rs:295-478 | a new index tree holds exactly the entries of the table's rows; it is refused exactly when a key does not fit or a unique key repeats, and then nothing changed |
| `SchemaTransactions.SchemaTransaction.RewriteRows` | src/seer_direct.rs:485-538 | every row of the table and nothing else is rewritten, or nothing at all when some row cannot be |
| `SchemaTransactions.SchemaTransaction.CheckNewKey` | src/seer_direct.rs:295-478 | existing rows are accepted exactly when the new foreign key holds of them |
| `SchemaTransactions.SchemaTransaction.Step` | src/seer_direct.rs:295-478 | one mutation is carried out, or the batch is unchanged and no outcome was possible |
| `SchemaTransactions.SchemaTransaction.ApplyAll` | src/seer_direct.rs:295-478 | a batch refused by the catalog changes nothing; an accepted one has carried out every mutation under the schema its predecessors left; one that stops midway has carried out those before a mutation that no outcome was possible for |
| `SchemaTransactions.SchemaTransaction.Publish` | src/seer_direct.rs:295-478 | the whole batch with its marker becomes one commit, or nothing does |
| `Carrying.CarriedIsSound` | src/seer_direct.rs:295-538 | a sound store stays sound under any change that carries its rows and indexes over and whose new definitions hold |
| `SchemaLaws.AddIndexKeeps` | src/seer_direct.rs:295-478 | building an index keeps rows, indexes, uniqueness, references and the tree mapping sound |
| `SchemaLaws.AddKeyKeeps` | src/seer_direct.rs:295-478 | so does a checked new foreign key |
| `SchemaLaws.RowsStepKeeps` | src/seer_direct.rs:485-538 | so does rewriting the rows of a table after a column was dropped or converted |
| `SchemaLaws.DropTableKeeps` | src/seer_direct.rs:295-478 | so does dropping a table with its index trees |
| `SchemaLaws.StepKeeps` | src/seer_direct.rs:295-538 | every mutation carried out on a sound working image leaves a sound one, new trees being unused ones |
| `SchemaBatches.StepKeepsValues` | src/seer_direct.rs:485-538 | every step keeps every row, and the value of every column it does not change; added columns read NULL |
| `SchemaBatches.BatchKeepsValues` | src/seer_direct.rs:295-538 | a whole batch keeps every row of a table it does not drop: columns no mutation converts or drops read the same, added ones read NULL |
| `SchemaBatches.BatchKeeps` | src/seer_direct.rs:295-478 | any batch keeps the working image sound |
| `SchemaBatches.PublishedIsConsistent` | src/seer_direct.rs:295-478 | a published batch leaves a consistent store: live trees are those the new catalog maps, rows decode under the new layout, indexes and foreign keys agree with rows |
| `SchemaBatches.StepElsewhere` | src/seer_direct.rs:295-538 | what a step did on its snapshot it would do on any image that agrees on the trees it registered |
| `SchemaBatches.BatchElsewhere` | src/seer_direct.rs:295-478 | a batch computed on its snapshot is the batch computed on the image it is published to, if no tree it registered changed |
| `Histories.CreationConsistent` | src/seer_direct.rs:51-71 | a created store is consistent |
| `Histories.RowCommitConsistent` | src/seer_direct.rs:1153-1163 | an admitted row commit on a legal history leaves a consistent image, whatever committed since its snapshot |
| `Histories.SchemaCommitConsistent` | src/seer_direct.rs:295-478 | so does an admitted schema batch |
| `Histories.HistoryIsConsistent` | src/seer_direct.rs:750-1196 | every image committed in any interleaving of row transactions and schema batches is consistent: index trees hold exactly what rows imply, unique indexes are unique, every non-null foreign-key tuple has a parent, live trees are the mapped ones |
| `Histories.RowPublicationIsLegal` | src/seer_direct.rs:1153-1163 | what a row transaction publishes extends a legal history, so the theorem covers every run of the transactions above |
| `Histories.SchemaPublicationIsLegal` | src/seer_direct.rs:295-478 | so does what a schema batch publishes |
| `Runs.CreateStore` | src/seer_direct.rs:51-71 | creating a store gives a legal history and a consistent image |
| `Runs.PublishRows` | src/seer_direct.rs:1153-1163 | publishing a row transaction, whatever was committed since it began, keeps the history legal and the store consistent; a failure leaves the log unchanged |
| `Runs.ApplySchema` | src/seer_direct.rs:295-478 | a batch of schema mutations is published whole or leaves the log unchanged, and the store stays consistent either way |
| `Runs.RunCalls` | src/relational_database.rs:580-595 | running any operations in one transaction keeps the history legal and the store consistent; a failure leaves the log unchanged |
| `Operations.DatabaseTransaction.Begin` | src/relational_database.rs:705-716 | a new transaction has nothing failed and every immediate key holds in its view |
| `Operations.DatabaseTransaction.EnsureActive` | src/relational_database.rs:766-773 | an aborted transaction is reported as such |
| `Operations.DatabaseTransaction.Operation` | src/relational_database.rs:720-750 | an error at any depth drops everything staged for good; after a successful outermost operation all immediate foreign keys hold in the view, and nested operations never check them early |
| `Operations.DatabaseTransaction.Perform` | src/relational_database.rs:720-750 | the same inside the operation bracket, for every nesting of operations and swallowed errors |
| `Operations.DatabaseTransaction.Commit` | src/relational_database.rs:1012-1017 | once any operation has failed nothing is published; a successful commit appends exactly the staged writes |
| `Operations.DatabaseTransaction.RunTransaction` | src/relational_database.rs:580-595 | over any sequence of possibly nested, possibly error-swallowing operations, a transaction in which anything failed publishes nothing |
| `Predicates.OrderEqualIffSqlEq` | src/sql_query.rs:2708-2777 | values of one type compare equal exactly when they are SQL-equal |
| `Predicates.ComparedEqual` | src/sql_query.rs:2614-2671 | a column value that a comparison finds equal to a literal is SQL-equal to what the literal becomes as input for the column |
| `Predicates.SqlEqTransitive` | src/sql_query.rs:2708-2777 | SQL equality is transitive |
| `Planner.CollectedHold` | src/sql_query.rs:656-689 | a collected predicate has a truth value on every row and is true only where every collected equality holds |
| `Planner.ChooseIndex` | src/sql_query.rs:502-566 | the index chosen is usable and the planner's preferred one among the usable, and none is missed |
| `Planner.ResolvePlan` | src/sql_query.rs:502-566 | a resolved path fits the predicate: the key columns, index parts and partial-index terms are pinned by it |
| `Planner.BoundValues` | src/sql_query.rs:632-652 | the loop binds each column to the value of its term |
| `Planner.IdentityFound` | src/sql_query.rs:573-615 | the identity lookup finds every row on which the terms hold |
| `Planner.EntryFound` | src/sql_query.rs:573-615 | the index lookup, partial indexes included, finds every row on which the terms hold |
| `Planner.NullSelectsNothing` | src/sql_query.rs:502-566 | equality with NULL is never true, so the short circuit loses nothing |
| `Planner.PlanAgrees` | src/sql_query.rs:502-689 | filtering a resolved plan's candidates gives the same rows as filtering the table under three-valued logic, and the predicate has a truth value on every row |
| `Queries.CandidateRows` | src/sql_query.rs:573-615 | the candidates returned are rows of the table and include every row the predicate selects |
| `WorkItems.LargestFirstIsMost` | src/runtime.rs:283-340 | no set of as many candidates costs more than the victims taken largest first |
| `WorkItems.FewestVictims` | src/runtime.rs:283-313 | stopping as soon as enough is freed, no fewer candidates could have freed enough |
| `WorkItems.PlacedOnce` | src/runtime.rs:169-272 | a queued item is live, not in flight and in no other queue, so no id is in two places |
| `Governor.ResourceGovernor.constructor` | src/runtime.rs:143-167 | a new governor has no work and a valid configuration |
| `Governor.ResourceGovernor.LargestTerminable` | src/runtime.rs:317-340 | finds the largest evictable item, the oldest of equals, and nothing only when none is evictable |
| `Governor.ResourceGovernor.TerminateLargestFor` | src/runtime.rs:283-313 | reaches its target exactly when the evictable cost suffices, evicts no OLTP or WAL work, and then with the fewest possible victims |
| `Governor.ResourceGovernor.Submit` | src/runtime.rs:169-222 | accepts exactly when queue, capacity (after at most one eviction for exactly the missing cost) and reserve allow; the item joins the rear of its class's queue and everything not evicted keeps its place; every id stays in exactly one place, cost equals the sum over live work and is within capacity, background cost within capacity minus reserve |
| `Governor.ResourceGovernor.Complete` | src/runtime.rs:254-261 | work in flight, and only that, completes and gives its cost back |
| `Governor.ResourceGovernor.CancelQueued` | src/runtime.rs:263-272 | queued work, and only that, is cancelled; the rest of the queues keeps its order |
| `Governor.ResourceGovernor.Expire` | src/runtime.rs:354-367 | exactly the queued work whose deadline has passed is dropped; what is left of each queue keeps its order |
| `Governor.ResourceGovernor.UrgentItem` | src/runtime.rs:369-388 | finds the most urgent queued item if there is one |
| `Governor.ResourceGovernor.Poll` | src/runtime.rs:224-244 | with lapsed work dropped from the queues, the item taken stands where `RunsNext` says: the earliest deadline among the urgent, else the front of the first non-empty class; only it leaves the queues; nothing is taken exactly at the flight bound or when nothing waits |
| `Governor.RunsNextUnique` | src/runtime.rs:224-388 | only one place runs next, so the choice is determined by the queues and the time |
| `Governor.ResourceGovernor.Requeue` | src/runtime.rs:248-252 | work in flight returns to the rear of its queue with its cost still accounted |
| `Governor.ResourceGovernor.TakeTerminated` | src/runtime.rs:277-279 | hands over what was terminated, once |
| `Reactors.RejectIsExact` | src/runtime.rs:438-516 | under Reject the busy workers run exactly the work in flight |
| `Reactors.AgreeTerminated` | src/runtime.rs:438-516 | under TerminateLargest a worker may keep holding terminated work, and work in flight always has a worker |
| `Reactors.Reactor.constructor` | src/runtime.rs:439-451 | a new reactor has idle workers only |
| `Reactors.Reactor.Submit` | src/runtime.rs:453-460 | has the governor's outcome in full and keeps slots and flight in agreement |
| `Reactors.Reactor.Dispatch` | src/runtime.rs:462-471 | with an idle worker, the first one gets the item that runs next, which no worker holds; without one nothing changes; nothing is dispatched only when exhausted |
| `Reactors.Reactor.DispatchBatch` | src/runtime.rs:473-482 | idle workers are filled in order, each with the item that runs next at that point, until none is idle or nothing is left to run; other slots are unchanged |
| `Reactors.Reactor.Complete` | src/runtime.rs:484-491 | the slot is freed; the item completes exactly when it was still in flight |
| `Reactors.Reactor.PreemptLongRunning` | src/runtime.rs:499-516 | exactly the overdue demotable slots are freed, reported in order, and their items still in flight join the rears of their queues |
| `Reactors.Reactor.CancelQueued` | src/runtime.rs:518-520 | has the governor's outcome in full, slots unchanged |
| `Admission.OperationAdmission.constructor` | src/session.rs:127-158 | a new session has no permits and no waiters |
| `Admission.OperationAdmission.RemoveWaiter` | src/session.rs:238-254 | a waiter leaves and the counters follow without underflow |
| `Admission.OperationAdmission.Attempt` | src/session.rs:160-236 | a caller is admitted exactly when not interrupted, not closing and not blocked; a writer enters only an idle session, a reader never past an active or waiting writer |
| `Admission.OperationAdmission.Release` | src/session.rs:256-275 | a permit is given back and the counters follow without underflow |
| `Admission.OperationAdmission.BeginClose` | src/session.rs:277-292 | a session closes exactly when nothing is active and it was open |
| `Admission.StepKeeps` | src/session.rs:160-292 | every step of every caller keeps counters equal to permits and waiters, the writer exclusion and the bound |
| `Admission.EveryRunIsSound` | src/session.rs:160-292 | in every interleaving of callers: at most one writer is active and then nothing else, the bound holds, and nothing is active after a close |
| `Admission.SomeoneProceeds` | src/session.rs:160-236 | when nothing is active and the session is open, some waiter can proceed |
| `PackedPages.FromEntries` | src/packed.rs:84-126 | filling the page buffer succeeds exactly for one or more entries that fit a page, and produces the page layout byte for byte |
| `PackedPages.PageRoundTrip` | src/packed.rs:128-215 | a page of sorted entries is accepted by the decoder and decodes to exactly those entries |
| `PackedRanges.StaysAhead` | src/packed.rs:344-419 | closing pages as late as possible never falls behind any other order-preserving split |
| `PackedRanges.GreedyIsFewest` | src/packed.rs:344-419 | no split uses fewer pages than the greedy one |
| `PackedRanges.NotEnoughPages` | src/packed.rs:344-419 | full pages that do not reach the end prove that as many pages are not enough |
| `PackedRanges.PackSorted` | src/packed.rs:344-419 | succeeds if and only if the input is sorted, fits, stays within entry and byte budgets and has any split within the page budget; the pages hold the entries in order and are as few as possible |
| `PackedRanges.PackingReadsBack` | src/packed.rs:312-318 | a packing decodes page by page to exactly the entries packed |
| `PackedRanges.Get` | src/packed.rs:320-341 | binary search over page ranges equals lookup in the entries packed, for every key |
| `Calendar.DaysRoundTrip` | src/sql_types.rs:368-396 | every day number converts to a valid date and back to itself |
| `Calendar.CivilRoundTrip` | src/sql_types.rs:368-396 | every valid Gregorian date converts to its day number and back to itself |
| `Calendar.DaysFollowCalendar` | src/sql_types.rs:368-381 | day 0 is 1970-01-01 and each day number is followed by the next date of the calendar |
| `Calendar.ParsedDays` | src/sql_values.rs:844-852 | the 32-bit conversion used for parsed dates agrees with the other one and no step of it overflows |
| `Literals.DateParsedIff` | src/sql_values.rs:677-704 | a text is read as a date exactly when, trimmed, it is that date's own text and the year has four digits |
| `Literals.DateTextReads` | src/sql_types.rs:399-402 | a date is read back from its text if and only if its year has four digits; any other date's text is refused |
| `Literals.FractionReads` | src/sql_types.rs:405-422 | trailing zeros dropped from a fraction are supplied again on reading |
| `Literals.ParseTimestamp` | src/sql_values.rs:709-754 | what is read is within the representable range |
| `Literals.TimestampTextReads` | src/sql_types.rs:405-422 | every representable timestamp is read back from its text |
| `DecimalLiterals.DecimalText` | src/sql_types.rs:425-469 | the digit-stack loops write the number before the point and exactly the scale's digits after it |
| `DecimalLiterals.ExponentParses` | src/sql_values.rs:758-819 | sign, digits and exponent of a text are told apart, and a malformed exponent is refused |
| `DecimalLiterals.ParsedValue` | src/sql_values.rs:758-819 | digits accepted with a sign and an exponent mean the signed digits times ten to the exponent, less one power of ten for each fraction digit |
| `DecimalLiterals.DecimalTextReads` | src/sql_types.rs:425-469 | every decimal is read back from its text with its mantissa and scale |
| `Scripts.CopyQuoted` | src/sql_dump.rs:381-444 | the look-ahead copying of a quotation reaches its end exactly where the quotation closes |
| `Scripts.SplitStatements` | src/sql_dump.rs:381-444 | the look-ahead splitter equals the one-character automaton that toggles at quotes |
| `Scripts.RefusedIffOpen` | src/sql_dump.rs:381-444 | a script is refused exactly when it leaves a quotation open |
| `Scripts.QuotedIsClosed` | src/sql_dump.rs:328-334 | whatever characters a text holds, quoting it makes a closed piece |
| `Scripts.QuoteString` | src/sql_dump.rs:332-334 | a quoted string is closed and has nothing to trim, whatever its text |
| `Scripts.QuoteIdentifier` | src/sql_dump.rs:328-330 | so is a quoted identifier |
| `Scripts.ClosedJoin` | src/sql_dump.rs:328-334 | closed pieces put together are a closed piece |
| `Scripts.SplitUndoesJoin` | src/sql_dump.rs:381-444 | any trimmed, non-empty, closed statements with separating gaps are recovered exactly from their script |

## Left out

- Kernel internals (write-ahead log, pages, recovery): only the commit and range contract is modelled; images hold decoded cells, and the row, entry and catalog codecs are proved separately.
- The byte envelope of the catalog record with its tree mapping (`encode_catalog_state`), the refusal of older formats, authorization records and tree-number reservation: tree numbers are taken upward from one beyond all in use.
- The allocation of heap identities (`next_heap_identity`) and the store-level shortcuts that wrap one operation in a transaction: they add easy members only.
- Transactions.DirectTransaction.Delete: does not say which cyclic or shared cascades fail, because that depends on the order in which keys and children are visited; it states every successful delete, termination of all, and success for unreferenced rows.
- Runs.ApplySchema: like SchemaTransactions.SchemaTransaction.Begin it takes as a parameter a tree number beyond every live tree, which the kernel reserves.
- Operations.DatabaseTransaction.EnsureActive: cancellation and deadlines are a nondeterministic choice, since clocks are not modelled.
- Planner.PlanAgrees: compares sets of rows, not their order; candidates are ordered by a synthetic key in the source.
- Queries.CandidateRows: index scans return sets, for the same reason.
- Admission.OperationAdmission.Attempt: one pass through the waiting loop; waking, timeouts and timing statistics are parameters or left out.
- Governor.ResourceGovernor.Submit: the counters of rejected, expired and terminated work are left out.
- Decimals.ArithmeticExact: covers decimals; float arithmetic is a parameter of index expressions (`FloatUnit`) and nothing depends on what it computes.
- PackedRanges.PackSorted: the checksum of a page is an arbitrary function of its bytes, and writing and reading files is not modelled.
- Calendar.DaysRoundTrip: over unbounded integers; 64-bit overflow of day numbers near the limits of the type is not modelled, no caller passes more than 32 bits.
- Literals.ParseTimestamp: bounds the result only; which texts are accepted is stated for the texts the database writes, by TimestampTextReads.
- Literals.DateParsedIff: texts are sequences of characters; the byte-length checks of the source decide the same, since any character outside ASCII is refused as a digit.
- CatalogCodec.CatalogRoundTrip: the replacement of malformed UTF-8 while reading names is a parameter; encodings of 4 GiB and more, which the length fields cannot hold, are refused when encoding.
- Error texts, and which of several applicable errors is reported: errors are kinds.
- SQL parsing and binding, joins, grouping, ordering, windows and set operations: predicates are a small datatype.
- UUID and float text, network protocol, authentication, morsels, fault injection and checksums: easier than, or unrelated to, the core.
