# Roperty persistence reconciliation, modelled in Dafny

Roperty keeps configuration values per key. Each value has a pattern of
domain parts, which selects the domain it applies to. A value may also
carry a change set: a named, not-yet-active variant of the configuration.

The persistence layer reconciles two things:

- the in-memory aggregate `KeyValues`: a description plus a set of
  domain-specific values;
- two relational tables: `roperty_key`, keyed by id with a description,
  and `roperty_value`, with a surrogate id, owning key, pattern, value and
  change set.

This project models the layer in both of its generations:

- the current engine of the `jpa` package: `load`, `loadAll`, `reload`,
  `store` and the two `remove` forms, plus the row-to-aggregate
  transformer, the transaction manager and the two DAOs;
- the first engine of the `persistence` package, which identifies rows by
  key and pattern only;
- its lazy subclass, whose `loadAll` and `reload` return empty maps;
- the two entities, and the legacy transaction manager and key DAO.

## How the model is built

- **Tables.** The database is an immutable `Store`: the key table and the
  value table, each as a sequence in table order, plus the next surrogate
  id.
- **Queries.** A query is a pure function over a `Store`. An equality
  query selects rows with SQL semantics: a `NULL` column never equals
  anything (`Query.SqlEquals`). That is why the current engine looks rows
  up with the `""` sentinel for the default change set.
- **Null parameters.** A null comparison value is another matter. The
  query builders of both generations refuse it before a query exists
  (`Validate.notNull` at line 29 of each `QueryBuilder.java`), so it never
  reaches SQL. The model returns `NullComparison` for it. Only the
  single-row lookup can receive one, from a variant whose pattern is null,
  and it leaves its entity manager open.
- **Transactions.** A `Session` holds:
  - the committed store;
  - the transaction phase. `Idle`, or `Active` with the pending store and
    the set of entities the persistence context manages;
  - a log of the entity manager calls made.

  Every DAO call opens its own entity manager, so reads see the committed
  store. `persist`, `merge` and `remove` change only the pending store.
  `end` commits the pending store.
- **Results.** An operation returns an `Outcome`: the session after the
  call and either `Ok` or the exception it throws. What the transaction
  state is after each throw is therefore part of every contract.
- **Environment flags.** `Wiring` is a parameter that says whether the
  query builder produced a query, whether the count query produced a
  result, and whether the key values factory produced an aggregate.
- **Unordered inputs.** A Java `Set` of domain-specific values becomes a
  sequence in its iteration order. The key set `reload` iterates becomes
  an explicit `order` argument, required to list exactly the keys of the
  map.

## Main results

- **String sentinels.** `nullWhenEmpty` and `emptyWhenNull` round-trip.
  Two change sets share a lookup sentinel exactly when they share a
  nullable tag.
- **Pattern splitting.** Java `split` on `|`, with trailing empty segments
  dropped, inverts joining for well-formed domain parts.
- **Loading.** `load` is null exactly when the key is absent and fails for
  a key without rows. `loadAll` maps exactly the stored ids, and `reload`
  never adds a key. Both generations load the same where their key lookup
  agrees. Eager `reload` of the `loadAll` key set gives back `loadAll`.
- **Current `store`.**
  - A successful `store` of target variants with distinct patterns leaves
    every one settled in exactly one row, and keeps every row of another
    key or change set.
  - Repeating such a `store` commits nothing new and logs only `begin` and
    `commit`.
  - Two target variants with one pattern are both inserted, since each
    looks up the committed state. The identity then holds two rows
    (`JpaFindings.StoreDuplicatePatternInsertsTwice`).
- **Legacy `store`.**
  - A successful `store` of variants with distinct patterns leaves each
    `(key, pattern)` with exactly one row holding the variant's value.
  - It is not idempotent under the empty change set. A stored row then
    holds `NULL`, which never equals `""`, so every later `store` issues a
    merge.
- **Removal.**
  - The single `remove` of both generations keeps the invariant `load`
    relies on: every key has a row and every row has its key.
  - The bulk `remove` does not keep it: see Findings. The corrected bulk
    `remove` keeps it.
  - The legacy bulk `remove` is the current one plus an iterator failure,
    which it hits when one variant matches two rows.

## Model

| member | source | states |
|---|---|---|
| ChangeSets.NullWhenEmpty | src/main/java/com/parship/roperty/persistence/jpa/JpaPersistence.java:185-191 | null exactly for a null or empty change set, any other change set unchanged; the result is never `""` |
| ChangeSets.EmptyWhenNull | src/main/java/com/parship/roperty/persistence/jpa/JpaPersistence.java:193-199 | a present change set unchanged; the result is `""` exactly when `nullWhenEmpty` gives null; normalising the result gives the tag of the argument |
| ChangeSets.SentinelOfTag | src/main/java/com/parship/roperty/persistence/jpa/JpaPersistence.java:185-199 | `emptyWhenNull(nullWhenEmpty(c))` is `emptyWhenNull(c)`: normalising first does not change the lookup sentinel |
| ChangeSets.SentinelAgreesWithTag | src/main/java/com/parship/roperty/persistence/jpa/JpaPersistence.java:123-131 | two change sets share a lookup sentinel if and only if they share a nullable tag, so lookup and the variant filter select the same change set |
| Entities.NewKey | src/main/java/com/parship/roperty/persistence/RopertyKey.java:22-25 | a null, empty or whitespace-only id is refused; any other id is kept exactly, with any description, null included |
| Entities.KeyToString | src/main/java/com/parship/roperty/persistence/RopertyKey.java:35-41 | the text is `RopertyKey{id='<id>', description='<description>'}`, field by field at the positions the layout fixes, with `null` for a missing description |
| Entities.KeyToStringShowsId | src/main/java/com/parship/roperty/persistence/RopertyKey.java:35-41 | read back: for an id without `'`, the text after `id='` up to the next `'` is the id |
| Entities.MatchIgnoresChangeSetAndKey | src/main/java/com/parship/roperty/persistence/RopertyValue.java:69-72 | whether a row matches a variant does not depend on the row's or the variant's change set, nor on the owning key |
| Query.Select | src/main/java/com/parship/roperty/persistence/jpa/RopertyValueDAO.java:31-51 | an equality query returns exactly the rows that satisfy every criterion, in table order, none more |
| Query.SelectAppend | src/main/java/com/parship/roperty/persistence/jpa/RopertyValueDAO.java:31-51 | querying a concatenation of tables gives the concatenation of the results |
| Query.Single | src/main/java/com/parship/roperty/persistence/jpa/RopertyValueDAO.java:72-81 | no match gives null, one match gives that row, more than one gives `MultipleResults` |
| Query.Count | src/main/java/com/parship/roperty/persistence/jpa/RopertyValueDAO.java:14-29 | the count of a key's rows is zero exactly when no row belongs to the key, and never exceeds the table |
| Patterns.Segments | src/main/java/com/parship/roperty/persistence/jpa/RopertyValueTransformer.java:28-33 | a pattern cut at every `\|` into at least one segment; no segment contains the separator and joining them gives the pattern back |
| Patterns.TrimTrailingEmpty | src/main/java/com/parship/roperty/persistence/jpa/RopertyValueTransformer.java:32 | a prefix of the segments that ends in a non-empty one, everything cut off being empty, as Java `split` does |
| Patterns.DomainKeyParts | src/main/java/com/parship/roperty/persistence/jpa/RopertyValueTransformer.java:28-33 | the domain parts of a pattern contain no separator and never end in an empty part |
| Patterns.SegmentsWithoutSep | src/main/java/com/parship/roperty/persistence/jpa/RopertyValueTransformer.java:28-33 | a pattern without separator is one segment, itself |
| Patterns.SegmentsOfJoin | src/main/java/com/parship/roperty/persistence/jpa/RopertyValueTransformer.java:28-33 | cutting the join of separator-free parts gives the parts back |
| Patterns.DomainKeyPartsOfJoin | src/main/java/com/parship/roperty/persistence/jpa/RopertyValueTransformer.java:28-33 | round trip: well-formed domain parts, joined with `\|` and split again, are returned unchanged |
| Patterns.NoPartsIffOnlySeparators | src/main/java/com/parship/roperty/persistence/jpa/RopertyValueTransformer.java:28-33 | a pattern has no domain parts if and only if it is empty or consists of separators only |
| Patterns.AllEmptySegments | src/main/java/com/parship/roperty/persistence/jpa/RopertyValueTransformer.java:28-33 | all segments are empty exactly when every character is a separator |
| Transformer.PutFor | src/main/java/com/parship/roperty/persistence/jpa/RopertyValueTransformer.java:34-40 | a row with a null change set goes to the default slot, any other, `""` included, to the slot of that name; value and domain parts come from the row |
| Transformer.FirstBroken | src/main/java/com/parship/roperty/persistence/jpa/RopertyValueTransformer.java:24-44 | the position of the first row with a null pattern or owner; every row before it is whole |
| Transformer.TransformRows | src/main/java/com/parship/roperty/persistence/jpa/RopertyValueTransformer.java:24-44 | one put per row in list order up to the first broken row; a null pattern fails before that row's put, a null key after it; the description is the last whole row's key description |
| Transformer.TransformValues | src/main/java/com/parship/roperty/persistence/jpa/RopertyValueTransformer.java:16-47 | null exactly for no rows; a missing factory aggregate fails; a success has one put per row in order, the last row's description, and no broken row |
| Transformer.PutsFollowRows | src/main/java/com/parship/roperty/persistence/jpa/RopertyValueTransformer.java:24-44 | the i-th put of a successful transform is built from the i-th row |
| Transactions.Begin | src/main/java/com/parship/roperty/persistence/jpa/TransactionManager.java:24-32 | fails without a factory; otherwise the session is active with the committed state pending and nothing attached |
| Transactions.EndActive | src/main/java/com/parship/roperty/persistence/jpa/TransactionManager.java:34-41 | commits: the pending state becomes the committed one and the session is idle |
| Transactions.End | src/main/java/com/parship/roperty/persistence/jpa/TransactionManager.java:34-41 | fails with `NoTransaction` exactly when no transaction is active; otherwise commits and goes idle |
| Transactions.PersistActive | src/main/java/com/parship/roperty/persistence/jpa/TransactionManager.java:50-55 | the entity is added to the pending state only; the committed state is untouched |
| Transactions.MergeActive | src/main/java/com/parship/roperty/persistence/jpa/TransactionManager.java:43-48 | the entity's pending copy is replaced; the committed state and the managed set are unchanged |
| Transactions.RemoveActive | src/main/java/com/parship/roperty/persistence/jpa/TransactionManager.java:57-68 | the entity leaves the pending state; a managed entity is removed directly, a detached one is merged first and the merged copy removed |
| Transactions.DropAfterMerge | src/main/java/com/parship/roperty/persistence/jpa/TransactionManager.java:64-67 | removing the merged copy of a detached entity removes what removing the entity itself would |
| Transactions.Guard | src/main/java/com/parship/roperty/persistence/TransactionManager.java:43-75 | every write fails with `NoTransaction` outside a transaction, then with `NullObject` for a null entity, and passes otherwise |
| Transactions.Persist | src/main/java/com/parship/roperty/persistence/TransactionManager.java:57-62 | fails exactly when the guard does; otherwise the entity is pending and the transaction stays active |
| Transactions.Merge | src/main/java/com/parship/roperty/persistence/TransactionManager.java:43-48 | fails exactly when the guard does; otherwise the entity's merged copy is pending |
| Transactions.Remove | src/main/java/com/parship/roperty/persistence/TransactionManager.java:64-75 | fails exactly when the guard does; otherwise the entity is gone from the pending state |
| Transactions.Contains | src/main/java/com/parship/roperty/persistence/TransactionManager.java:50-55 | fails exactly when the guard does; otherwise true if and only if the persistence context manages the entity |
| Transactions.EndTwiceFails | src/main/java/com/parship/roperty/persistence/jpa/TransactionManager.java:34-41 | a second `end` after a successful one fails with `NoTransaction` |
| Transactions.BeginReplacesOpenTransaction | src/main/java/com/parship/roperty/persistence/jpa/TransactionManager.java:24-32 | `begin` inside a transaction succeeds and discards its pending writes: committing then writes the committed state back |
| Transactions.WritesNeedTransaction | src/main/java/com/parship/roperty/persistence/TransactionManager.java:43-75 | outside a transaction `persist`, `merge`, `remove` and `contains` all fail with `NoTransaction`, whatever the entity |
| JpaDao.LoadRopertyKey | src/main/java/com/parship/roperty/persistence/jpa/RopertyKeyDAO.java:15-22 | a primary-key lookup: null exactly when no key row has the id, otherwise a stored key row with that id; the entity manager is closed |
| JpaDao.LoadAllRopertyKeys | src/main/java/com/parship/roperty/persistence/jpa/RopertyKeyDAO.java:24-38 | fails, closing the entity manager, exactly when no query is built; otherwise every key row in table order |
| JpaDao.MatchingIds | src/main/java/com/parship/roperty/persistence/jpa/RopertyKeyDAO.java:61-63 | an id is listed exactly when some key row has it and it contains the fragment; a matching id occurs exactly as often as key rows carry it, a non-matching one never |
| JpaDao.FindKeys | src/main/java/com/parship/roperty/persistence/jpa/RopertyKeyDAO.java:45-66 | the listed ids are exactly the stored ids containing the fragment once both are lower-cased; a missing query fails after closing |
| JpaDao.LoadRopertyValues | src/main/java/com/parship/roperty/persistence/jpa/RopertyValueDAO.java:31-51 | exactly the rows of the key, in table order, as many as the count; a missing query fails after closing |
| JpaDao.LoadRopertyValue | src/main/java/com/parship/roperty/persistence/jpa/RopertyValueDAO.java:53-86 | a null pattern is refused by the query builder (`NullComparison`) before any query, with the entity manager left open; otherwise the single row with that key, pattern and change set (a `NULL` column matching nothing): null for none, the row for one, `MultipleResults` for more, raised with the entity manager still open |
| JpaDao.GetNumberOfValues | src/main/java/com/parship/roperty/persistence/jpa/RopertyValueDAO.java:14-29 | the number of rows of the key; a missing query fails after closing, a null result fails with the entity manager left open |
| JpaLoad.LoadOf | src/main/java/com/parship/roperty/persistence/jpa/JpaPersistence.java:42-54 | a key without rows fails with `NoValues`; a success is an aggregate with one put per row of the key |
| JpaLoad.Load | src/main/java/com/parship/roperty/persistence/jpa/JpaPersistence.java:28-40 | a blank key is refused; null if and only if the key is absent; a present key without rows fails; an aggregate has one put per row |
| JpaLoad.LoadPresent | src/main/java/com/parship/roperty/persistence/jpa/JpaPersistence.java:64-66 | succeeds exactly when the private `load` does, with its aggregate; its error otherwise |
| JpaEngine.LoadOfPuts | src/main/java/com/parship/roperty/persistence/jpa/JpaPersistence.java:42-54 | the aggregate of a key has one put per row of the key, each built from the row at the same position |
| JpaEngine.LoadOfById | src/main/java/com/parship/roperty/persistence/jpa/JpaPersistence.java:42-54 | the private `load` depends only on the key's id, not on the description of the entity passed |
| JpaEngine.LoadAll | src/main/java/com/parship/roperty/persistence/jpa/JpaPersistence.java:56-71 | succeeds exactly when every key row loads; then its keys are exactly the stored ids, each mapped to the aggregate of a key row with that id |
| JpaEngine.LoadAllCounts | src/main/java/com/parship/roperty/persistence/jpa/JpaPersistence.java:63-68 | every aggregate of `loadAll` has as many puts as its key has rows, at least one |
| JpaEngine.LoadAllNeedsRows | src/main/java/com/parship/roperty/persistence/jpa/JpaPersistence.java:63-68 | one key without rows makes the whole `loadAll` fail |
| JpaEngine.LoadAllAgreesWithLoad | src/main/java/com/parship/roperty/persistence/jpa/JpaPersistence.java:28-71 | each entry of `loadAll` is what `load` returns for that id |
| JpaEngine.Reload | src/main/java/com/parship/roperty/persistence/jpa/JpaPersistence.java:73-88 | succeeds exactly when `load` does for every input key; keeps exactly the input keys whose `load` is not null, with fresh aggregates; never adds a key and drops every vanished one; a failure is the error of the first key, in the map's iteration order, whose `load` fails |
| JpaEngine.CreateRopertyValue | src/main/java/com/parship/roperty/persistence/jpa/JpaPersistence.java:171-183 | succeeds exactly for a non-null storable value; the new row has the lookup identity, the sentinel change set `""` included, and satisfies the column constraints |
| JpaEngine.MergeRopertyValue | src/main/java/com/parship/roperty/persistence/jpa/JpaPersistence.java:150-169 | fails only for a differing non-storable value; otherwise the row gets the new change set and value, and a change is reported exactly when either differed; a null value is accepted |
| JpaEngine.StoreRopertyValue | src/main/java/com/parship/roperty/persistence/jpa/JpaPersistence.java:137-148 | looks the identity up in the committed state; several rows fail, none inserts exactly when the value is storable, one identical row causes no call at all; the transaction stays open even on failure |
| JpaEngine.StoreDomainSpecificValues | src/main/java/com/parship/roperty/persistence/jpa/JpaPersistence.java:122-135 | a null pattern anywhere, even outside the target change set, ends the transaction and fails, and that is the only failure that ends it; success needs every pattern present |
| JpaEngine.StoreKey | src/main/java/com/parship/roperty/persistence/jpa/JpaPersistence.java:91-120 | blank key, null aggregate and missing factory fail before `begin`; a success commits with the key present and a non-empty variant set; an existing key is never rewritten; an absent one is appended with the aggregate's description |
| JpaStoreLaws.StoreValueInserts | src/main/java/com/parship/roperty/persistence/jpa/JpaPersistence.java:137-141 | storing an identity with no row leaves exactly one row for it with the new value; lookups of the key's other patterns in that change set see what they saw before, and every row of another key or another change set is kept, none added |
| JpaStoreLaws.StoreValueMerges | src/main/java/com/parship/roperty/persistence/jpa/JpaPersistence.java:142-147 | storing an identity with one row leaves exactly that row, with the new value; lookups of the key's other patterns in that change set see what they saw before, and every row of another key or another change set is kept, none added |
| JpaStoreLaws.StoreValueSettles | src/main/java/com/parship/roperty/persistence/jpa/JpaPersistence.java:137-148 | after a successful store of one variant its identity holds exactly one row with the stored value |
| JpaStoreLaws.StoreValuesSettle | src/main/java/com/parship/roperty/persistence/jpa/JpaPersistence.java:122-135 | after the loop, every target variant with distinct patterns is settled: one row with its value under the sentinel change set |
| JpaStoreLaws.StoreSettles | src/main/java/com/parship/roperty/persistence/jpa/JpaPersistence.java:91-135 | for target variants with distinct patterns (`DistinctTargets`), a successful `store` commits a well-keyed state in which every target variant is settled; lookups of the key's untargeted patterns in that change set are as before; every row of another key or another change set is kept and none added; the key table gains at most the new key |
| JpaStoreLaws.StoreValuesQuiet | src/main/java/com/parship/roperty/persistence/jpa/JpaPersistence.java:143-147 | when every target variant is already settled the loop writes nothing and logs nothing |
| JpaStoreLaws.StoreIsIdempotent | src/main/java/com/parship/roperty/persistence/jpa/JpaPersistence.java:91-168 | for target variants with distinct patterns (`DistinctTargets`), repeating a successful `store` succeeds, commits the same state and logs only `begin` and `commit`: no merge is issued |
| JpaRemove.RemoveRows | src/main/java/com/parship/roperty/persistence/jpa/JpaPersistence.java:219-223 | the pending state loses exactly the given rows; the committed state waits for `end` |
| JpaRemove.Keep | src/main/java/com/parship/roperty/persistence/jpa/JpaPersistence.java:241-250 | the rows left after the sweep are exactly those no variant matches |
| JpaRemove.SweepVariant | src/main/java/com/parship/roperty/persistence/jpa/JpaPersistence.java:242-249 | one variant removes every row it matches from the list and from the pending state, and counts them |
| JpaRemove.KeepSplits | src/main/java/com/parship/roperty/persistence/jpa/JpaPersistence.java:241-250 | sweeping the first variant and then the rest leaves what sweeping all at once leaves |
| JpaRemove.MatchedIdsSplit | src/main/java/com/parship/roperty/persistence/jpa/JpaPersistence.java:241-250 | the rows removed variant by variant are exactly the rows some variant matches |
| JpaRemove.SweepAll | src/main/java/com/parship/roperty/persistence/jpa/JpaPersistence.java:241-250 | each row is removed at most once; the removed rows are exactly those some variant matches, and the count is the number of rows gone |
| JpaRemove.RemoveKeyValues | src/main/java/com/parship/roperty/persistence/jpa/JpaPersistence.java:231-255 | a null variant set fails with the transaction open; an empty one ends it and fails; otherwise the matched rows go, and the key too exactly when the removed count equals the number of variants |
| JpaRemove.RemoveKey | src/main/java/com/parship/roperty/persistence/jpa/JpaPersistence.java:202-229 | an absent key changes nothing; a key without rows fails; a null aggregate deletes every row and the key; otherwise the count rule decides the key; row ids stay unique |
| JpaRemove.RemoveValue | src/main/java/com/parship/roperty/persistence/jpa/JpaPersistence.java:258-297 | an absent key or identity changes nothing; a null or non-serializable value ends and fails; a null pattern fails in the lookup (`NullComparison`) with the transaction left open; otherwise the row goes, and the key too exactly when it had one row before the call |
| JpaRemoveLaws.DropOneKeepsConsistent | src/main/java/com/parship/roperty/persistence/jpa/JpaPersistence.java:290-294 | deleting one row, and its key exactly when it was the last row, keeps every key with a row and every row with its key |
| JpaRemoveLaws.RemoveValueKeepsConsistent | src/main/java/com/parship/roperty/persistence/jpa/JpaPersistence.java:258-297 | the single `remove` keeps a consistent store consistent |
| JpaRemoveLaws.BulkDropKeepsConsistent | src/main/java/com/parship/roperty/persistence/jpa/JpaPersistence.java:252-254 | deleting rows of a key, and the key exactly when none of its rows is left, keeps a consistent store consistent |
| Gathering.PutEach | src/main/java/com/parship/roperty/persistence/jpa/JpaPersistence.java:63-68 | the loop of `loadAll` succeeds exactly when every item loads, and otherwise fails with the error of the first item that does not; each key of the result comes from some item and carries its aggregate |
| Gathering.PutFound | src/main/java/com/parship/roperty/persistence/jpa/JpaPersistence.java:80-85 | the loop of `reload` keeps exactly the ids whose load is not null, each with its aggregate; a failure is the error of the first id whose load fails, every earlier id having loaded |
| Gathering.PutFoundAll | src/main/java/com/parship/roperty/persistence/jpa/JpaPersistence.java:80-85 | when every id loads to its entry of a map with the same keys, the loop returns that map |
| LegacyDao.KeysWithId | src/main/java/com/parship/roperty/persistence/RopertyKeyDAO.java:13-23 | the equality query on the id returns exactly the key rows with that id, none when the id is absent |
| LegacyDao.LoadRopertyKey | src/main/java/com/parship/roperty/persistence/RopertyKeyDAO.java:12-37 | null for no key row, the row for one, `MultipleResults` for more, raised with the entity manager left open |
| LegacyDao.LoadAllRopertyKeys | src/main/java/com/parship/roperty/persistence/RopertyKeyDAO.java:43-52 | every key row of the table |
| LegacyDao.LoadRopertyValues | src/main/java/com/parship/roperty/persistence/RopertyValueDAO.java:12-26 | exactly the rows of the key, in table order, as many as the count |
| LegacyDao.LoadRopertyValue | src/main/java/com/parship/roperty/persistence/JpaPersistence.java:126 | a null pattern is refused by the query builder (`NullComparison`); otherwise the single row with the key and pattern, whatever its change set: null for none, the row for one, `MultipleResults` for more |
| LegacyLoad.LoadOf | src/main/java/com/parship/roperty/persistence/JpaPersistence.java:43-55 | a key without rows fails; a success is an aggregate with one put per row |
| LegacyLoad.LoadOfAgrees | src/main/java/com/parship/roperty/persistence/JpaPersistence.java:43-55 | the private `load` of both generations agrees on every key entity |
| LegacyLoad.Load | src/main/java/com/parship/roperty/persistence/JpaPersistence.java:29-41 | a blank key is refused; null if and only if the key is absent; several key rows fail; a key without rows fails |
| LegacyLoad.KeysWithIdUnique | src/main/java/com/parship/roperty/persistence/RopertyKey.java:13-14 | with unique ids, as the primary key guarantees, the equality query finds at most the one row the primary-key lookup finds |
| LegacyLoad.LoadAgrees | src/main/java/com/parship/roperty/persistence/JpaPersistence.java:29-55 | with unique key ids both generations' `load` return the same for every key |
| LegacyLoad.LoadPresent | src/main/java/com/parship/roperty/persistence/JpaPersistence.java:66-67 | succeeds exactly when the private `load` does, with its aggregate |
| LegacyLoad.LoadAll | src/main/java/com/parship/roperty/persistence/JpaPersistence.java:57-72 | succeeds exactly when every key row loads; its keys are exactly the stored ids, each mapped to the aggregate of a key row with that id |
| LegacyLoad.Reload | src/main/java/com/parship/roperty/persistence/JpaPersistence.java:74-89 | succeeds exactly when `load` does for every input key; keeps exactly those whose `load` is not null; never adds a key; a failure is the error of the first key, in the map's iteration order, whose `load` fails |
| LazyPersistence.LoadAll | src/main/java/com/parship/roperty/persistence/LazyJpaPersistence.java:12-15 | the lazy strategy returns an empty map whatever the store holds; the eager one is the legacy `loadAll` |
| LazyPersistence.Reload | src/main/java/com/parship/roperty/persistence/LazyJpaPersistence.java:17-20 | the lazy strategy returns an empty map whatever the input holds; the eager one keeps exactly the input keys whose `load` is not null |
| LazyPersistence.FindKeyUnique | src/main/java/com/parship/roperty/persistence/RopertyKey.java:13-14 | with unique ids the lookup of a stored id finds that very key row |
| LazyPersistence.LoadOfStored | src/main/java/com/parship/roperty/persistence/JpaPersistence.java:29-55 | `load` of a stored non-blank id is the private `load` of its key row |
| LazyPersistence.LoadsAs | src/main/java/com/parship/roperty/persistence/JpaPersistence.java:29-55 | an aggregate built from a key row is what `load` of its id returns |
| LazyPersistence.ReloadOfLoadable | src/main/java/com/parship/roperty/persistence/JpaPersistence.java:74-89 | if every key of the input loads to an entry of a map with the same keys, eager `reload` returns that map |
| LazyPersistence.ReloadRefreshesLoadAll | src/main/java/com/parship/roperty/persistence/JpaPersistence.java:57-89 | eager `reload` of the key set `loadAll` returned, on an unchanged store, gives back what `loadAll` returned |
| LegacyStore.MergeRow | src/main/java/com/parship/roperty/persistence/JpaPersistence.java:140-159 | identity kept, value replaced, a null value accepted, a differing non-storable one refused; a change is reported exactly when the stored change set differs from the raw argument or the value differs |
| LegacyStore.MergeAgain | src/main/java/com/parship/roperty/persistence/JpaPersistence.java:140-159 | merging the merged row again reports a change exactly under the empty change set, and only when the row did not already hold `""` |
| LegacyStore.EmptyChangeSetAlwaysMerges | src/main/java/com/parship/roperty/persistence/JpaPersistence.java:141-144 | a row inserted under `""` holds null and is merged by every later `store` under `""` |
| LegacyStore.MergeToNullBreaksSchema | src/main/java/com/parship/roperty/persistence/JpaPersistence.java:146-148 | the merge accepts a null value, which the non-nullable `value` column of the row does not |
| LegacyStore.StoreVariant | src/main/java/com/parship/roperty/persistence/JpaPersistence.java:120-160 | looks up by key and pattern only; none inserts with `nullWhenEmpty(changeSet)` exactly when the value is storable; several fail; a found row fails exactly when its merge does, is merged into the pending state exactly when the merge reports a change, and causes no call otherwise; the transaction stays open on failure |
| LegacyStore.StoreVariants | src/main/java/com/parship/roperty/persistence/JpaPersistence.java:118-161 | a null pattern ends the transaction and fails, and that is the only failure that ends it; only rows of the key are written |
| LegacyStore.StoreIgnoresTags | src/main/java/com/parship/roperty/persistence/JpaPersistence.java:118-126 | every variant is written whatever its own change-set tag: retagging the variants changes nothing |
| LegacyStore.StoreVariantInserts | src/main/java/com/parship/roperty/persistence/JpaPersistence.java:126-138 | a variant whose pattern has no row leaves exactly one row for `(key, pattern)` with its value; other patterns of the key look up as before; rows of other keys are kept and none added |
| LegacyStore.StoreVariantMerges | src/main/java/com/parship/roperty/persistence/JpaPersistence.java:139-159 | a variant whose pattern has one row leaves exactly that row, now with the variant's value; other patterns of the key look up as before; rows of other keys are kept and none added |
| LegacyStore.StoreVariantSettles | src/main/java/com/parship/roperty/persistence/JpaPersistence.java:126-160 | either path leaves `(key, pattern)` with exactly one row holding the variant's value |
| LegacyStore.StoreVariantsSettle | src/main/java/com/parship/roperty/persistence/JpaPersistence.java:118-161 | after the loop over variants with distinct patterns, each pattern has exactly one row holding its value; patterns no variant names, and other keys' rows, are as before |
| LegacyStore.StoreSettles | src/main/java/com/parship/roperty/persistence/JpaPersistence.java:91-164 | a successful legacy `store` of variants with distinct patterns commits a well-keyed state in which each `(key, pattern)` has exactly one row holding the variant's value, whatever change sets the rows and the variants carry; the key's other patterns and all other keys' rows are as before |
| LegacyStore.StoreKey | src/main/java/com/parship/roperty/persistence/JpaPersistence.java:91-164 | blank key, null aggregate and missing factory fail before `begin`; several key rows fail; a success commits with the key present, writing only its rows; an absent key is appended with the description |
| LegacyStore.FirstStoreInserts | src/main/java/com/parship/roperty/persistence/JpaPersistence.java:127-138 | storing one variant under `""` into an empty store inserts a row whose change set is null |
| LegacyStore.LaterStoreMerges | src/main/java/com/parship/roperty/persistence/JpaPersistence.java:140-159 | storing the same variant again commits the same state but logs a merge |
| LegacyStore.StoreTwiceRemerges | src/main/java/com/parship/roperty/persistence/JpaPersistence.java:91-164 | two identical `store` calls under `""`: the second writes nothing new yet issues a merge, so `store` is not idempotent here |
| LegacyRemove.HitsKeep | src/main/java/com/parship/roperty/persistence/JpaPersistence.java:204-212 | the rows a variant hits are exactly the rows the current engine's sweep removes for it |
| LegacyRemove.HitsAfterKeep | src/main/java/com/parship/roperty/persistence/JpaPersistence.java:204-212 | after one variant's rows are gone, a variant with the same pattern and value hits nothing and any other hits what it hit before |
| LegacyRemove.SweepVariant | src/main/java/com/parship/roperty/persistence/JpaPersistence.java:202-212 | the inner loop fails in `Iterator.remove` exactly when the variant hits more rows than its one removal allows; otherwise it removes what the current engine removes |
| LegacyRemove.TwinnedAfterSweep | src/main/java/com/parship/roperty/persistence/JpaPersistence.java:202-213 | after a variant that hit at most one row, the remaining variants hit two rows exactly when they did before |
| LegacyRemove.SweepAll | src/main/java/com/parship/roperty/persistence/JpaPersistence.java:202-213 | the nested loop fails exactly when some variant matches two rows; otherwise it removes the rows some variant matches, at most one per variant |
| LegacyRemove.RemoveKeyValues | src/main/java/com/parship/roperty/persistence/JpaPersistence.java:193-219 | null variants fail with the transaction open, empty ones end and fail; without an iterator failure the outcome is the current engine's, committed |
| LegacyRemove.RemoveKey | src/main/java/com/parship/roperty/persistence/JpaPersistence.java:174-220 | a null aggregate is refused before `begin`; an absent key changes nothing; several key rows, no rows and no variants fail; the iterator fails exactly when a variant matches two rows |
| LegacyRemove.KeyLookupAgrees | src/main/java/com/parship/roperty/persistence/RopertyKeyDAO.java:23-33 | with at most one key row for the id, the equality query returns what the primary-key lookup returns |
| LegacyRemove.RemoveKeyAgrees | src/main/java/com/parship/roperty/persistence/JpaPersistence.java:174-220 | without an iterator failure, the legacy bulk `remove` does what the current one does |
| LegacyRemove.RemoveKeyRemoves | src/main/java/com/parship/roperty/persistence/JpaPersistence.java:215-217 | a successful bulk `remove` deletes the matched rows and deletes the key exactly when as many rows as variants were removed |
| LegacyRemove.NoMatchNoHits | src/main/java/com/parship/roperty/persistence/RopertyValue.java:69-72 | a variant that matches no row hits nothing |
| LegacyRemove.TwinFreeHits | src/main/java/com/parship/roperty/persistence/RopertyValue.java:17 | rows that differ pairwise in pattern or value give any variant at most one hit |
| LegacyRemove.TwinFreeNeverTwinned | src/main/java/com/parship/roperty/persistence/RopertyValue.java:17 | with the unique index honoured, the bulk `remove` never fails in the iterator |
| LegacyRemove.UniqueIndexTwinFree | src/main/java/com/parship/roperty/persistence/RopertyValue.java:17 | the unique index on (key, pattern, value) over the whole table makes the rows of every key differ pairwise in pattern or value |
| LegacyRemove.RemoveValue | src/main/java/com/parship/roperty/persistence/JpaPersistence.java:222-262 | the count is taken first; null or non-serializable values end and fail; a null pattern fails in the lookup (`NullComparison`) with the transaction left open; otherwise the row with key and pattern goes, whatever its change set, and the key too exactly when it had one row |
| LegacyRemove.RemoveValueKeepsConsistent | src/main/java/com/parship/roperty/persistence/JpaPersistence.java:222-262 | the legacy single `remove` keeps a consistent store consistent |
| LegacyRemove.RemoveValueIgnoresChangeSet | src/main/java/com/parship/roperty/persistence/JpaPersistence.java:222-262 | the change-set argument has no effect: any two change sets give the same outcome |
| JpaFindings.RemoveKeyOrphansRow | src/main/java/com/parship/roperty/persistence/jpa/JpaPersistence.java:252-254 | one variant that removes one of two rows makes the counts equal, so the key is deleted while its other row still refers to it; the model's store has no foreign key, so the row is left orphaned (under the mandatory owner the commit would fail instead) |
| JpaFindings.LegacyRemoveKeyOrphansRow | src/main/java/com/parship/roperty/persistence/JpaPersistence.java:215-217 | the legacy bulk `remove` deletes the key under its surviving row in the same way |
| JpaFindings.RemoveKeyLeavesEmptyKey | src/main/java/com/parship/roperty/persistence/jpa/JpaPersistence.java:241-254 | two variants matching the only row remove one row: the counts differ, so the key stays with no row |
| JpaFindings.RemoveKeyValuesCorrected | src/main/java/com/parship/roperty/persistence/jpa/JpaPersistence.java:231-255 | the corrected sweep deletes the matched rows, and the key exactly when none of its rows is left |
| JpaFindings.RemoveKeyCorrected | src/main/java/com/parship/roperty/persistence/jpa/JpaPersistence.java:202-229 | the corrected bulk `remove`: the same guards and row deletions as the original, with the key rule replaced |
| JpaFindings.RemoveAllCorrectedKeepsConsistent | src/main/java/com/parship/roperty/persistence/jpa/JpaPersistence.java:219-223 | deleting a key with all its rows keeps a consistent store consistent |
| JpaFindings.RemoveSomeCorrectedKeepsConsistent | src/main/java/com/parship/roperty/persistence/jpa/JpaPersistence.java:231-255 | the corrected variant sweep keeps a consistent store consistent |
| JpaFindings.RemoveKeyCorrectedKeepsConsistent | src/main/java/com/parship/roperty/persistence/jpa/JpaPersistence.java:202-255 | the corrected bulk `remove` keeps a consistent store consistent, on every path |
| JpaFindings.StoreCommitsEmptyKey | src/main/java/com/parship/roperty/persistence/jpa/JpaPersistence.java:98-115 | `store` of an empty variant set for an absent key fails yet commits the new key without a row |
| JpaFindings.StoreOtherChangeSetCommitsEmptyKey | src/main/java/com/parship/roperty/persistence/jpa/JpaPersistence.java:122-135 | `store` whose only variant belongs to another change set succeeds and commits the new key without a row |
| JpaFindings.StoreDuplicatePatternInsertsTwice | src/main/java/com/parship/roperty/persistence/jpa/JpaPersistence.java:122-148 | two target variants with one pattern each find nothing in the committed state, so `store` succeeds and leaves two rows under that identity; without `DistinctTargets` the settling laws fail |
| JpaFindings.StoreKeyCorrected | src/main/java/com/parship/roperty/persistence/jpa/JpaPersistence.java:91-135 | the corrected `store` validates first: a failure leaves the committed state unchanged, and a new key is created only when some variant will be stored under it |
| JpaFindings.StoreCorrectedAgrees | src/main/java/com/parship/roperty/persistence/jpa/JpaPersistence.java:91-135 | wherever it writes anything, the corrected `store` does exactly what `store` does |
| JpaFindings.StoreCorrectedTargetHasRow | src/main/java/com/parship/roperty/persistence/jpa/JpaPersistence.java:122-148 | for target variants with distinct patterns (`DistinctTargets`), a corrected `store` that stores some variant leaves the key with a row |
| JpaFindings.StoreCorrectedQuiet | src/main/java/com/parship/roperty/persistence/jpa/JpaPersistence.java:131-133 | a corrected `store` with nothing to store under an existing key changes nothing |
| JpaFindings.StoreCorrectedKeyHasRows | src/main/java/com/parship/roperty/persistence/jpa/JpaPersistence.java:91-135 | for target variants with distinct patterns (`DistinctTargets`), after the corrected `store` on a consistent store, the stored key, if present, has a row |

## Left out

- Query construction is not modelled. This covers `QueryBuilder`, `QueryBuilderDelegate`, `WhereQueryBuilder`, `EqualsCriterion` and `LikeCriterion` in both packages, which are thin layers over the JPA Criteria API. Their effect is modelled as equality and substring predicates over the store. The `Wiring` flags stand for a builder that returns no query. Of the builders' own argument checks, only the refusal of a null comparison value is modelled (`NullComparison`), since a variant's null pattern reaches it; the checks on the entity manager, result class, criteria list and attribute names cannot fail for the calls the engines make.
- `RelationalPersistence` and `RelationalTransactionManager` are left out. They are an early stub whose `remove` methods are empty.
- The legacy `RopertyValueDAO` calls are not modelled as written. Its `loadRopertyValue` takes three arguments, while the legacy engine calls a two-argument form (key, pattern) and a `getNumberOfValues` that the class does not have. Both are modelled on the current DAO's rules:
  - the lookup is the single-result rule over key and pattern (`LegacyDao.LoadRopertyValue`);
  - the count is the number of the key's rows.
- The three-argument `loadRopertyValue` that the current engine calls is modelled as an exact match on key, pattern and change set, as its DAO test pins it. `jpa/RopertyValueDAO.java` shows only a two-argument form.
- Entity managers are not modelled as objects. Their creation and closing are the `closed` flag of a DAO access. Commit is reduced to the pending state becoming the committed one. Optimistic locking, flushing and commit failures are not modelled. These include the failure a write that breaks the unique index on (key, pattern, value) at src/main/java/com/parship/roperty/persistence/RopertyValue.java:17 would cause, such as the second insert of a duplicated pattern.
- Java serialization becomes the `IsStorable` predicate on an opaque `Value`. `Objects.equals` on values becomes equality of `Value`.
- The SQL `LIKE` search does not model wildcard escaping: `%` and `_` inside the fragment are compared literally. Lower-casing is ASCII only, where Java's `toLowerCase` depends on the locale.
- `KeyValues`, `DomainSpecificValue`, their factories, domain resolution and wildcards are types of the Roperty core and are not part of this model. The aggregate is the record of the puts the transformer makes. `DomainSpecificValue.changeSetIs` is equality on the nullable tag.
- A Java `Set` of domain-specific values is a sequence in iteration order, and duplicates are not collapsed. The key set of the map `reload` walks is an explicit order.
- JpaStoreLaws.StoreSettles: proved only for target variants with distinct patterns (`DistinctTargets`). The variants arrive in a Java `Set` of `DomainSpecificValue`, whose equality is not part of this model, so nothing in these sources rules out two variants of one change set with one pattern. For those, `store` inserts twice, as `JpaFindings.StoreDuplicatePatternInsertsTwice` shows, and any later lookup of that identity fails with `MultipleResults`.
- JpaStoreLaws.StoreIsIdempotent: proved only under `DistinctTargets`, for the reason given under `JpaStoreLaws.StoreSettles`.
- JpaFindings.StoreCorrectedTargetHasRow: proved only under `DistinctTargets`, for the reason given under `JpaStoreLaws.StoreSettles`.
- JpaFindings.StoreCorrectedKeyHasRows: proved only under `DistinctTargets`, for the same reason. The corrected half of the second finding therefore covers distinct target patterns only.
- The read-only wrapping of returned lists and maps is not modelled: the model has no mutation to guard against.
- The legacy `RopertyValueTransformer` is not part of this model. The legacy engine's `load` is modelled with the current transformer.
- Getters and setters of the entities are field access on datatypes.
- LegacyRemove.RemoveValueIgnoresChangeSet: the lemma holds because the model never reads the argument, so Dafny proves it without a proof body. It states the property, but no proof work stands behind it.
- LegacyStore.StoreKey: the legacy `store` persists a new key before validating the variant set, as the current engine does. The model keeps that behaviour, but the finding below is stated only for the current engine. What a successful legacy `store` leaves behind is stated by `LegacyStore.StoreSettles`, for variants with distinct patterns only: the lookup ignores change sets, so two variants with one pattern are inserted twice.
- Entities.NewKey: a Java `null` string is not representable, since ids are `string`. `Validate.notBlank` refuses null exactly as it refuses blank text, so the null paths of `setId`, `load`, `store` and `remove` are covered by the blank checks only in spirit and are not modelled.
- Foreign key from `roperty_value.key` to `roperty_key`: the store has no referential constraint and a commit never fails. The mandatory owner at src/main/java/com/parship/roperty/persistence/RopertyValue.java:24-26 would make the commit of a bulk `remove` that deletes a key under a surviving row fail and roll back, and the model shows that row orphaned instead.
- Transformer.TransformValues: `NullKeyOfValue` is raised for a row whose owning key is missing from the join. Java could only see a null key through a dangling reference, which the schema's `optional = false` rules out.

## Findings

| source | as written | input that shows it | evidently intended | confidence | as-written member | corrected member |
|---|---|---|---|---|---|---|
| src/main/java/com/parship/roperty/persistence/jpa/JpaPersistence.java:252-254 | the bulk `remove` deletes the key when the number of removed rows equals the number of variants given | key `k` with rows `(p1, one)` and `(p2, two)`, remove the one variant `(p1, one)`: one of one is removed, so `k` is deleted while row `(p2, two)` still refers to it. Without a foreign key the row is orphaned; under the mandatory owner that src/main/java/com/parship/roperty/persistence/RopertyValue.java:24-26 maps, the commit fails and a legitimate `remove` throws; the legacy engine at src/main/java/com/parship/roperty/persistence/JpaPersistence.java:215-217 does the same. The reverse also happens: two variants matching the only row of `k` remove one row, and `k` stays with no row | delete the key exactly when none of its rows is left, so that every key has a row and every row has its key, as `load` requires | not executed | JpaFindings.RemoveKeyOrphansRow | JpaFindings.RemoveKeyCorrectedKeepsConsistent |
| src/main/java/com/parship/roperty/persistence/jpa/JpaPersistence.java:98-115 | `store` persists a new key before validating the variant set, and the validation failures call `end`, which commits | `store("k", KeyValues with an empty variant set)` on a store without `k` throws `EmptyValues` but commits key `k` with no row; a variant of another change set does the same without throwing | validate first and create the key only when some variant will be stored under it, so that a key never exists without a row; proved for target variants with distinct patterns | not executed | JpaFindings.StoreCommitsEmptyKey | JpaFindings.StoreCorrectedKeyHasRows |
