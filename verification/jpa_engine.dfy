/**
 * The current persistence engine, `JpaPersistence` of the `jpa` package:
 * the load family on the committed store, `store` (reconcile the requested
 * variants of one change set against the stored rows) and the two `remove`
 * forms, each a function from a session to an outcome.
 */
module JpaEngine {
  import opened Wrappers
  import opened Entities
  import opened Query
  import opened Stores
  import opened ChangeSets
  import opened Transactions
  import JavaText
  import JpaDao
  import Transformer
  import Gathering
  import opened JpaLoad

  // ---------------------------------------------------------------- loads

  /** The aggregate holds one put per row of the key, in table order, each
      built from that row. */
  lemma LoadOfPuts(w: JpaDao.Wiring, db: Store, k: KeyRecord)
    requires LoadOf(w, db, k).Ok?
    ensures var l := LoadOf(w, db, k).value.value;
      |l.puts| == |KeyRows(db, k.id)| &&
      forall i :: 0 <= i < |l.puts| ==>
        var x := KeyRows(db, k.id)[i]; x.pattern.Some? && l.puts[i] == Transformer.PutFor(x, x.pattern.value)
  {
    var views := JpaDao.LoadRopertyValues(w, db, k).result.value;
    assert LoadOf(w, db, k) == Transformer.TransformValues(w, views);
    assert RowsOf(views) == KeyRows(db, k.id);
    Transformer.PutsFollowRows(w, views, RowsOf(views));
  }

  /** Loading through a key entity depends on its id only. */
  lemma LoadOfById(w: JpaDao.Wiring, db: Store, k: KeyRecord, k': KeyRecord)
    requires k.id == k'.id
    ensures LoadOf(w, db, k) == LoadOf(w, db, k')
  {
  }

  /** `loadAll`: one aggregate per key row, keyed by id; it succeeds only
      if every key row loads. */
  function LoadAll(w: JpaDao.Wiring, db: Store): (r: Result<map<string, Loaded>, Error>)
    ensures !w.typedQuery ==> r == Err(NoTypedQuery)
    ensures w.typedQuery ==> (r.Ok? <==> forall i :: 0 <= i < |db.keys| ==> LoadOf(w, db, db.keys[i]).Ok?)
    ensures r.Ok? ==> forall id :: id in r.value <==> HasKey(db, id)
    ensures r.Ok? ==> forall id :: id in r.value ==>
      exists i :: 0 <= i < |db.keys| && db.keys[i].id == id && LoadOf(w, db, db.keys[i]) == Ok(Some(r.value[id]))
  {
    var a := JpaDao.LoadAllRopertyKeys(w, db);
    if a.result.Err? then Err(a.result.error)
    else
      LoadEachFound(w, db);
      LoadEach(w, db)
  }

  /** The loop of `loadAll` over the key table. */
  function LoadEach(w: JpaDao.Wiring, db: Store): Result<map<string, Loaded>, Error> {
    Gathering.PutEach(db.keys, (k: KeyRecord) => k.id, (k: KeyRecord) => LoadPresent(w, db, k), map[])
  }

  /** What that loop yields for one key. */
  lemma LoadEachAt(w: JpaDao.Wiring, db: Store, id: string)
    requires LoadEach(w, db).Ok? && id in LoadEach(w, db).value
    ensures HasKey(db, id)
    ensures exists i :: 0 <= i < |db.keys| && db.keys[i].id == id && LoadOf(w, db, db.keys[i]) == Ok(Some(LoadEach(w, db).value[id]))
  {
    var key := (k: KeyRecord) => k.id;
    var load := (k: KeyRecord) => LoadPresent(w, db, k);
    Gathering.PutEachFromEmpty(db.keys, key, load, id);
    var i :| 0 <= i < |db.keys| && key(db.keys[i]) == id && load(db.keys[i]) == Ok(LoadEach(w, db).value[id]);
    assert LoadPresent(w, db, db.keys[i]) == Ok(LoadEach(w, db).value[id]);
  }

  /** What the loop of `loadAll` yields, key by key. */
  lemma LoadEachFound(w: JpaDao.Wiring, db: Store)
    ensures var r := LoadEach(w, db);
      r.Ok? ==> forall id :: id in r.value ==>
        (HasKey(db, id) && exists i :: 0 <= i < |db.keys| && db.keys[i].id == id && LoadOf(w, db, db.keys[i]) == Ok(Some(r.value[id])))
  {
    var r := LoadEach(w, db);
    if r.Ok? {
      forall id | id in r.value
        ensures HasKey(db, id)
        ensures exists i :: 0 <= i < |db.keys| && db.keys[i].id == id && LoadOf(w, db, db.keys[i]) == Ok(Some(r.value[id]))
      {
        LoadEachAt(w, db, id);
      }
    }
  }

  /** Every aggregate of `loadAll` holds one put per row of its key. */
  lemma LoadAllCounts(w: JpaDao.Wiring, db: Store, id: string)
    requires LoadAll(w, db).Ok? && id in LoadAll(w, db).value
    ensures |LoadAll(w, db).value[id].puts| == Count(db.rows, id) > 0
  {
    var all := LoadAll(w, db).value;
    var i :| 0 <= i < |db.keys| && db.keys[i].id == id && LoadOf(w, db, db.keys[i]) == Ok(Some(all[id]));
  }

  /** One key row without value rows fails the whole `loadAll`. */
  lemma LoadAllNeedsRows(w: JpaDao.Wiring, db: Store, i: nat)
    requires i < |db.keys| && Count(db.rows, db.keys[i].id) == 0
    ensures LoadAll(w, db).Err?
  {
  }

  /** `loadAll` and `load` agree on every key they both accept. */
  lemma LoadAllAgreesWithLoad(w: JpaDao.Wiring, db: Store, id: string)
    requires LoadAll(w, db).Ok? && id in LoadAll(w, db).value
    requires !JavaText.IsBlank(id)
    ensures Load(w, db, id) == Ok(Some(LoadAll(w, db).value[id]))
  {
    var all := LoadAll(w, db).value;
    var i :| 0 <= i < |db.keys| && db.keys[i].id == id && LoadOf(w, db, db.keys[i]) == Ok(Some(all[id]));
    LoadOfById(w, db, db.keys[i], FindKey(db.keys, id).value);
  }

  /** `reload`: the keys of the given map whose `load` is not null, freshly
      loaded; keys that vanished are dropped and none is added. `order` is
      the iteration order of the map's key set. */
  function Reload(w: JpaDao.Wiring, db: Store, m: map<string, KeyValues>, order: seq<string>): (r: Result<map<string, Loaded>, Error>)
    requires forall id :: id in m <==> id in order
    ensures r.Ok? <==> forall id :: id in m ==> Load(w, db, id).Ok?
    ensures r.Err? ==> exists id :: id in m && Load(w, db, id) == Err(r.error)
    ensures r.Err? ==> exists i :: 0 <= i < |order| && Load(w, db, order[i]) == Err(r.error) && (forall j :: 0 <= j < i ==> Load(w, db, order[j]).Ok?)
    ensures r.Ok? ==> r.value.Keys <= m.Keys
    ensures r.Ok? ==> forall id :: id in m ==> (id in r.value <==> Found(w, db, id))
    ensures r.Ok? ==> forall id :: id in r.value ==> Load(w, db, id) == Ok(Some(r.value[id]))
    ensures r.Ok? ==> forall id :: id in m && !HasKey(db, id) ==> id !in r.value
  {
    var r := Gathering.PutFound(order, (id: string) => Load(w, db, id), map[]);
    assert forall id :: id in order <==> exists i :: 0 <= i < |order| && order[i] == id;
    r
  }

  // ---------------------------------------------------------------- store

  /** The lookup of `storeRopertyValue`: key, pattern and change set. */
  function Identity(key: string, pattern: string, changeSet: string): RowQuery {
    ByIdentity(key, Some(pattern), Some(changeSet))
  }

  /** `changeSetIs(nullWhenEmpty(changeSet))`: the variant belongs to the
      change set being stored. */
  predicate InTarget(v: Variant, changeSet: Option<string>) {
    v.changeSet == NullWhenEmpty(changeSet)
  }

  /** `createRopertyValue`: a new row of key `k`; a null or non-serializable
      value is refused. The surrogate id is left to the generator. */
  function CreateRopertyValue(k: KeyRecord, changeSet: string, value: Option<Value>, pattern: string): (r: Result<ValueRow, Error>)
    ensures r.Ok? <==> StorableValue(value)
    ensures r.Err? ==> r.error == CannotSerialize
    ensures r.Ok? ==> Holds(Identity(k.id, pattern, changeSet), r.value) && r.value.value == value && ColumnsOk(r.value)
  {
    if StorableValue(value) then Ok(ValueRow(0, k.id, Some(pattern), value, Some(changeSet)))
    else Err(CannotSerialize)
  }

  /** The row after `mergeRopertyValue`, and whether it must be merged. */
  datatype Merge = Merge(row: ValueRow, changed: bool)

  /** `mergeRopertyValue`: bring the change set and the value of a stored
      row up to date, reporting whether anything differed. A null value is
      accepted; a non-serializable one that differs is refused. */
  function MergeRopertyValue(original: ValueRow, newChangeSet: string, newValue: Option<Value>): (r: Result<Merge, Error>)
    ensures r.Err? <==> original.value != newValue && newValue.Some? && !IsStorable(newValue.value)
    ensures r.Err? ==> r.error == CannotSerialize
    ensures r.Ok? ==> r.value.row == original.(changeSet := Some(newChangeSet), value := newValue)
    ensures r.Ok? ==> (r.value.changed <==> original.changeSet != Some(newChangeSet) || original.value != newValue)
  {
    var row := if original.changeSet != Some(newChangeSet) then original.(changeSet := Some(newChangeSet)) else original;
    var changed := original.changeSet != Some(newChangeSet);
    if original.value == newValue then Ok(Merge(row, changed))
    else if newValue.None? then Ok(Merge(row.(value := None), true))
    else if IsStorable(newValue.value) then Ok(Merge(row.(value := newValue), true))
    else Err(CannotSerialize)
  }

  /** `storeRopertyValue`: insert when the lookup finds nothing, merge when
      the found row differs. It never ends the transaction, not even when
      it throws. */
  function StoreRopertyValue(w: JpaDao.Wiring, s: Session, k: KeyRecord, pattern: string, value: Option<Value>, changeSet: string): (o: Outcome<()>)
    requires IsActive(s)
    ensures IsActive(o.session) && o.session.db == s.db && o.session.hasFactory == s.hasFactory
    ensures o.result.Err? ==> o.session == s
    ensures o.result.Err? ==> o.result.error == NoTypedQuery || o.result.error == MultipleResults || o.result.error == CannotSerialize
    ensures o.session.phase.pending.keys == s.phase.pending.keys
    ensures var found := Select(s.db.rows, Identity(k.id, pattern, changeSet));
      && (!w.typedQuery ==> o.result == Err(NoTypedQuery))
      && (w.typedQuery && |found| > 1 ==> o.result == Err(MultipleResults))
      && (w.typedQuery && |found| == 0 ==> (o.result.Ok? <==> StorableValue(value)))
      && (w.typedQuery && |found| == 1 && found[0].changeSet == Some(changeSet) && found[0].value == value ==> o == Outcome(s, Ok(())))
  {
    var a := JpaDao.LoadRopertyValue(w, s.db, k, Some(pattern), changeSet);
    if a.result.Err? then Outcome(s, Err(a.result.error))
    else if a.result.value.None? then
      var c := CreateRopertyValue(k, changeSet, value, pattern);
      if c.Err? then Outcome(s, Err(c.error)) else Outcome(PersistActive(s, RowEntity(c.value)), Ok(()))
    else
      var m := MergeRopertyValue(a.result.value.value, changeSet, value);
      if m.Err? then Outcome(s, Err(m.error))
      else if m.value.changed then Outcome(MergeActive(s, RowEntity(m.value.row)), Ok(()))
      else Outcome(s, Ok(()))
  }

  /** `storeDomainSpecificValues`: every variant needs a pattern, whatever
      its change set; the variants of the target change set are stored
      under the lookup sentinel `emptyWhenNull(changeSet)`. A missing
      pattern ends the transaction before throwing; other failures leave it
      open. */
  function StoreDomainSpecificValues(w: JpaDao.Wiring, s: Session, k: KeyRecord, vs: seq<Variant>, changeSet: Option<string>): (o: Outcome<()>)
    requires IsActive(s)
    ensures o.session.hasFactory == s.hasFactory
    ensures o.session.phase == Idle <==> o.result == Err(NullPattern)
    ensures o.result.Err? ==> o.result.error in {NoTypedQuery, MultipleResults, CannotSerialize, NullPattern}
    ensures IsActive(o.session) ==> o.session.db == s.db
    ensures o.session.phase == Idle ==> o.session.db.keys == s.phase.pending.keys
    ensures IsActive(o.session) ==> o.session.phase.pending.keys == s.phase.pending.keys
    ensures o.result.Ok? ==> forall i :: 0 <= i < |vs| ==> vs[i].pattern.Some?
    ensures (forall i :: 0 <= i < |vs| ==> vs[i].pattern.Some?) ==> IsActive(o.session)
    ensures (forall i :: 0 <= i < |vs| ==> !InTarget(vs[i], changeSet)) && (exists i :: 0 <= i < |vs| && vs[i].pattern.None?) ==>
      o == Outcome(EndActive(s), Err(NullPattern))
    decreases |vs|
  {
    if |vs| == 0 then Outcome(s, Ok(()))
    else
      var v := vs[0];
      assert forall i :: 1 <= i < |vs| ==> vs[i] == vs[1..][i - 1];
      if v.pattern.None? then Outcome(EndActive(s), Err(NullPattern))
      else if InTarget(v, changeSet) then
        var o := StoreRopertyValue(w, s, k, v.pattern.value, v.value, EmptyWhenNull(changeSet));
        if o.result.Err? then o else StoreDomainSpecificValues(w, o.session, k, vs[1..], changeSet)
      else StoreDomainSpecificValues(w, s, k, vs[1..], changeSet)
  }

  /** `store`: open a transaction, create the key when it is absent,
      validate the variant set and store the variants of the target change
      set, then commit. */
  function StoreKey(w: JpaDao.Wiring, s: Session, key: string, kv: Option<KeyValues>, changeSet: Option<string>): (o: Outcome<()>)
    ensures JavaText.IsBlank(key) ==> o == Outcome(s, Err(BlankKey))
    ensures !JavaText.IsBlank(key) && kv.None? ==> o == Outcome(s, Err(NullArgument))
    ensures !JavaText.IsBlank(key) && kv.Some? && !s.hasFactory ==> o == Outcome(s, Err(NoFactory))
    ensures o.result.Ok? ==> o.session.phase == Idle && HasKey(o.session.db, key)
    ensures o.result.Ok? ==> (kv.Some? && kv.value.variants.Some? && |kv.value.variants.value| > 0 &&
      forall i :: 0 <= i < |kv.value.variants.value| ==> kv.value.variants.value[i].pattern.Some?)
    ensures o.result == Err(NullValues) || o.result == Err(EmptyValues) || o.result == Err(NullPattern) ==> o.session.phase == Idle
    ensures IsActive(o.session) ==> o.session.db == s.db
    ensures HasKey(s.db, key) ==> o.session.db.keys == s.db.keys
    ensures !HasKey(s.db, key) && o.session.db != s.db ==> o.session.db.keys == s.db.keys + [KeyRecord(key, kv.value.description)]
  {
    if JavaText.IsBlank(key) then Outcome(s, Err(BlankKey))
    else if kv.None? then Outcome(s, Err(NullArgument))
    else
      var b := Begin(s);
      if b.Err? then Outcome(s, Err(b.error))
      else
        var s1 := b.value;
        var found := JpaDao.LoadRopertyKey(s1.db, key).result.value;
        var k := if found.None? then KeyRecord(key, kv.value.description) else found.value;
        var s2 := if found.None? then FindKeyAppend(s1.db.keys, k, key); PersistActive(s1, KeyEntity(k)) else s1;
        match kv.value.variants
        case None => Outcome(EndActive(s2), Err(NullValues))
        case Some(vs) =>
          if |vs| == 0 then Outcome(EndActive(s2), Err(EmptyValues))
          else
            var o := StoreDomainSpecificValues(w, s2, k, vs, changeSet);
            if o.result.Err? then o else Outcome(EndActive(o.session), Ok(()))
  }
}
