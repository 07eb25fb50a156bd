/**
 * The read path of the first generation, `JpaPersistence` of the
 * `persistence` package: `load`, `loadAll` and `reload`. The key lookup is
 * an equality query that can find several rows; everything after it is the
 * read path of the current generation.
 */
module LegacyLoad {
  import opened Wrappers
  import opened Entities
  import opened Query
  import opened Stores
  import JavaText
  import JpaDao
  import Transformer
  import Gathering
  import LegacyDao
  import JpaLoad

  /** The private `load` on a key entity: the rows of the key through the
      transformer; a key without rows is an error. */
  function LoadOf(w: JpaDao.Wiring, db: Store, k: KeyRecord): (r: Result<Option<Loaded>, Error>)
    ensures Count(db.rows, k.id) == 0 ==> r == Err(NoValues(k.id))
    ensures Count(db.rows, k.id) > 0 && !w.factory ==> r == Err(NullAggregate)
    ensures r.Ok? ==> r.value.Some? && |r.value.value.puts| == Count(db.rows, k.id) > 0
  {
    var views := LegacyDao.LoadRopertyValues(db, k);
    if |views| == 0 then Err(NoValues(k.id))
    else Transformer.TransformValues(w, views)
  }

  /** Both generations read the same aggregate for a key entity, wherever
      the current one's query can be built. */
  lemma LoadOfAgrees(w: JpaDao.Wiring, db: Store, k: KeyRecord)
    requires w.typedQuery
    ensures LoadOf(w, db, k) == JpaLoad.LoadOf(w, db, k)
  {
    assert LegacyDao.LoadRopertyValues(db, k) == JpaDao.LoadRopertyValues(w, db, k).result.value;
  }

  /** `load`: null when no key row has the id, an error when several do or
      when the key row has no value rows, the aggregate otherwise. */
  function Load(w: JpaDao.Wiring, db: Store, key: string): (r: Result<Option<Loaded>, Error>)
    ensures JavaText.IsBlank(key) ==> r == Err(BlankKey)
    ensures r == Ok(None) <==> !JavaText.IsBlank(key) && !HasKey(db, key)
    ensures !JavaText.IsBlank(key) && |LegacyDao.KeysWithId(db.keys, key)| > 1 ==> r == Err(MultipleResults)
    ensures (!JavaText.IsBlank(key) && HasKey(db, key) && Count(db.rows, key) == 0 &&
      |LegacyDao.KeysWithId(db.keys, key)| <= 1) ==> r == Err(NoValues(key))
    ensures r.Ok? && r.value.Some? ==> HasKey(db, key) && |r.value.value.puts| == Count(db.rows, key) > 0
  {
    if JavaText.IsBlank(key) then Err(BlankKey)
    else
      var found := LegacyDao.LoadRopertyKey(db, key).result;
      if found.Err? then Err(found.error)
      else if found.value.None? then Ok(None)
      else LoadOf(w, db, found.value.value)
  }

  /** No two key rows share an id, as the primary key of `roperty_key`
      guarantees. */
  predicate KeyIdsUnique(keys: seq<KeyRecord>) {
    forall i, j :: 0 <= i < j < |keys| ==> keys[i].id != keys[j].id
  }

  /** With unique key ids the equality query finds what the primary-key
      lookup finds. */
  lemma {:induction false} KeysWithIdUnique(keys: seq<KeyRecord>, key: string)
    requires KeyIdsUnique(keys)
    ensures LegacyDao.KeysWithId(keys, key) == (if FindKey(keys, key).Some? then [FindKey(keys, key).value] else [])
    decreases |keys|
  {
    if |keys| > 0 {
      assert KeyIdsUnique(keys[1..]) by {
        forall i, j | 0 <= i < j < |keys| - 1
          ensures keys[1..][i].id != keys[1..][j].id
        {
          assert keys[1..][i] == keys[i + 1] && keys[1..][j] == keys[j + 1];
        }
      }
      KeysWithIdUnique(keys[1..], key);
      if keys[0].id == key {
        forall i | 0 <= i < |keys| - 1
          ensures keys[1..][i].id != key
        {
          assert keys[1..][i] == keys[i + 1];
        }
      }
    }
  }

  /** With unique key ids both generations `load` the same. */
  lemma LoadAgrees(w: JpaDao.Wiring, db: Store, key: string)
    requires w.typedQuery && KeyIdsUnique(db.keys)
    ensures Load(w, db, key) == JpaLoad.Load(w, db, key)
  {
    if !JavaText.IsBlank(key) {
      KeysWithIdUnique(db.keys, key);
      var found := FindKey(db.keys, key);
      if found.Some? {
        LoadOfAgrees(w, db, found.value);
      }
    }
  }

  /** One step of `loadAll`: the private `load`, whose null result the loop
      rejects. */
  function LoadPresent(w: JpaDao.Wiring, db: Store, k: KeyRecord): (r: Result<Loaded, Error>)
    ensures r.Ok? <==> LoadOf(w, db, k).Ok?
    ensures r.Ok? ==> LoadOf(w, db, k) == Ok(Some(r.value))
  {
    var r := LoadOf(w, db, k);
    if r.Err? then Err(r.error)
    else if r.value.None? then Err(NoValues(k.id))
    else Ok(r.value.value)
  }

  /** `loadAll`: one aggregate per key row, keyed by id; it succeeds only
      if every key row loads. */
  function LoadAll(w: JpaDao.Wiring, db: Store): (r: Result<map<string, Loaded>, Error>)
    ensures r.Ok? <==> forall i :: 0 <= i < |db.keys| ==> LoadOf(w, db, db.keys[i]).Ok?
    ensures r.Ok? ==> forall id :: id in r.value <==> HasKey(db, id)
    ensures r.Ok? ==> forall id :: id in r.value ==>
      exists i :: 0 <= i < |db.keys| && db.keys[i].id == id && LoadOf(w, db, db.keys[i]) == Ok(Some(r.value[id]))
  {
    LoadEachFound(w, db);
    LoadEach(w, db)
  }

  /** The loop of `loadAll` over the key table (`loadAllRopertyKeys`). */
  function LoadEach(w: JpaDao.Wiring, db: Store): Result<map<string, Loaded>, Error> {
    Gathering.PutEach(db.keys, (k: KeyRecord) => k.id, (k: KeyRecord) => LoadPresent(w, db, k), map[])
  }

  /** What that loop yields for one key. */
  lemma LoadEachAt(w: JpaDao.Wiring, db: Store, id: string)
    requires LoadEach(w, db).Ok? && id in LoadEach(w, db).value
    ensures HasKey(db, id)
    ensures exists i :: 0 <= i < |db.keys| && db.keys[i].id == id && LoadOf(w, db, db.keys[i]) == Ok(Some(LoadEach(w, db).value[id]))
  {
    var key := (k: KeyRecord) => k.id;
    var load := (k: KeyRecord) => LoadPresent(w, db, k);
    Gathering.PutEachFromEmpty(db.keys, key, load, id);
    var i :| 0 <= i < |db.keys| && key(db.keys[i]) == id && load(db.keys[i]) == Ok(LoadEach(w, db).value[id]);
    assert LoadPresent(w, db, db.keys[i]) == Ok(LoadEach(w, db).value[id]);
  }

  /** What the loop of `loadAll` yields, key by key. */
  lemma LoadEachFound(w: JpaDao.Wiring, db: Store)
    ensures var r := LoadEach(w, db);
      r.Ok? ==> forall id :: id in r.value ==>
        (HasKey(db, id) && exists i :: 0 <= i < |db.keys| && db.keys[i].id == id && LoadOf(w, db, db.keys[i]) == Ok(Some(r.value[id])))
  {
    var r := LoadEach(w, db);
    if r.Ok? {
      forall id | id in r.value
        ensures HasKey(db, id)
        ensures exists i :: 0 <= i < |db.keys| && db.keys[i].id == id && LoadOf(w, db, db.keys[i]) == Ok(Some(r.value[id]))
      {
        LoadEachAt(w, db, id);
      }
    }
  }

  /** `reload`: the keys of the given map whose `load` is not null, freshly
      loaded; keys that vanished are dropped and none is added. `order` is
      the iteration order of the map's key set. */
  function Reload(w: JpaDao.Wiring, db: Store, m: map<string, KeyValues>, order: seq<string>): (r: Result<map<string, Loaded>, Error>)
    requires forall id :: id in m <==> id in order
    ensures r.Ok? <==> forall id :: id in m ==> Load(w, db, id).Ok?
    ensures r.Err? ==> exists i :: 0 <= i < |order| && Load(w, db, order[i]) == Err(r.error) && (forall j :: 0 <= j < i ==> Load(w, db, order[j]).Ok?)
    ensures r.Ok? ==> r.value.Keys <= m.Keys
    ensures r.Ok? ==> forall id :: id in m ==> (id in r.value <==> Load(w, db, id).value.Some?)
    ensures r.Ok? ==> forall id :: id in r.value ==> Load(w, db, id) == Ok(Some(r.value[id]))
    ensures r.Ok? ==> forall id :: id in m && !HasKey(db, id) ==> id !in r.value
  {
    var r := Gathering.PutFound(order, (id: string) => Load(w, db, id), map[]);
    assert forall id :: id in order <==> exists i :: 0 <= i < |order| && order[i] == id;
    r
  }
}
