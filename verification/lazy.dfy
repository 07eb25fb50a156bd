/**
 * `LazyJpaPersistence`: the first-generation engine with bulk loading
 * switched off. `loadAll` and `reload` hand back empty maps, so every key
 * is fetched on demand through `load`; `load`, `store` and `remove` are
 * inherited unchanged.
 */
module LazyPersistence {
  import opened Wrappers
  import opened Entities
  import opened Stores
  import JpaDao
  import JavaText
  import LegacyLoad
  import Gathering

  /** The eager base class or its lazy subclass. */
  datatype Strategy = Eager | Lazy

  /** `loadAll`: the lazy subclass returns the empty map and reads nothing. */
  function LoadAll(strategy: Strategy, w: JpaDao.Wiring, db: Store): (r: Result<map<string, Loaded>, Error>)
    ensures strategy == Lazy ==> r == Ok(map[])
    ensures strategy == Eager ==> (r.Ok? <==> forall i :: 0 <= i < |db.keys| ==> LegacyLoad.LoadOf(w, db, db.keys[i]).Ok?)
    ensures strategy == Eager && r.Ok? ==> forall id :: id in r.value <==> HasKey(db, id)
    ensures r.Ok? ==> forall id :: id in r.value ==>
      exists i :: 0 <= i < |db.keys| && db.keys[i].id == id && LegacyLoad.LoadOf(w, db, db.keys[i]) == Ok(Some(r.value[id]))
  {
    match strategy
    case Lazy => Ok(map[])
    case Eager => LegacyLoad.LoadAll(w, db)
  }

  /** `reload`: the lazy subclass returns the empty map, dropping every key
      it was given. */
  function Reload(strategy: Strategy, w: JpaDao.Wiring, db: Store, m: map<string, KeyValues>, order: seq<string>): (r: Result<map<string, Loaded>, Error>)
    requires forall id :: id in m <==> id in order
    ensures strategy == Lazy ==> r == Ok(map[])
    ensures strategy == Eager ==> (r.Ok? <==> forall id :: id in m ==> LegacyLoad.Load(w, db, id).Ok?)
    ensures strategy == Eager && r.Ok? ==> forall id :: id in m ==> (id in r.value <==> LegacyLoad.Load(w, db, id).value.Some?)
    ensures r.Ok? ==> r.value.Keys <= m.Keys
    ensures r.Ok? ==> forall id :: id in r.value ==> LegacyLoad.Load(w, db, id) == Ok(Some(r.value[id]))
  {
    match strategy
    case Lazy => Ok(map[])
    case Eager => LegacyLoad.Reload(w, db, m, order)
  }

  /** With unique key ids the key row of an id is the one `FindKey` finds. */
  lemma {:induction false} FindKeyUnique(keys: seq<KeyRecord>, i: nat)
    requires LegacyLoad.KeyIdsUnique(keys) && i < |keys|
    ensures FindKey(keys, keys[i].id) == Some(keys[i])
    decreases |keys|
  {
    if i > 0 {
      assert keys[0].id != keys[i].id;
      assert LegacyLoad.KeyIdsUnique(keys[1..]) by {
        forall a, b | 0 <= a < b < |keys| - 1
          ensures keys[1..][a].id != keys[1..][b].id
        {
          assert keys[1..][a] == keys[a + 1] && keys[1..][b] == keys[b + 1];
        }
      }
      FindKeyUnique(keys[1..], i - 1);
      assert keys[1..][i - 1] == keys[i];
    }
  }

  /** Key ids are never blank: `RopertyKey` ids come from validated keys. */
  predicate IdsNotBlank(keys: seq<KeyRecord>) {
    forall i :: 0 <= i < |keys| ==> !JavaText.IsBlank(keys[i].id)
  }

  /** `load` of a stored, uniquely held id loads that key row. */
  lemma LoadOfStored(w: JpaDao.Wiring, db: Store, i: nat)
    requires LegacyLoad.KeyIdsUnique(db.keys) && i < |db.keys| && !JavaText.IsBlank(db.keys[i].id)
    ensures LegacyLoad.Load(w, db, db.keys[i].id) == LegacyLoad.LoadOf(w, db, db.keys[i])
  {
    FindKeyUnique(db.keys, i);
    LegacyLoad.KeysWithIdUnique(db.keys, db.keys[i].id);
  }

  /** A key row that loads to `x` is what `load` of its id gives. */
  lemma LoadsAs(w: JpaDao.Wiring, db: Store, id: string, x: Loaded)
    requires LegacyLoad.KeyIdsUnique(db.keys) && IdsNotBlank(db.keys)
    requires exists i :: 0 <= i < |db.keys| && db.keys[i].id == id && LegacyLoad.LoadOf(w, db, db.keys[i]) == Ok(Some(x))
    ensures LegacyLoad.Load(w, db, id) == Ok(Some(x))
  {
    var i :| 0 <= i < |db.keys| && db.keys[i].id == id && LegacyLoad.LoadOf(w, db, db.keys[i]) == Ok(Some(x));
    LoadOfStored(w, db, i);
  }

  /** Every key `loadAll` returned loads, one by one, to the same aggregate. */
  lemma LoadsAsLoadAll(w: JpaDao.Wiring, db: Store, all: map<string, Loaded>)
    requires LegacyLoad.KeyIdsUnique(db.keys) && IdsNotBlank(db.keys)
    requires forall id :: id in all ==>
      exists i :: 0 <= i < |db.keys| && db.keys[i].id == id && LegacyLoad.LoadOf(w, db, db.keys[i]) == Ok(Some(all[id]))
    ensures forall id :: id in all ==> LegacyLoad.Load(w, db, id) == Ok(Some(all[id]))
  {
    forall id | id in all
      ensures LegacyLoad.Load(w, db, id) == Ok(Some(all[id]))
    {
      LoadsAs(w, db, id, all[id]);
    }
  }

  /** Eagerly reloading keys that all load yields what they load. */
  lemma ReloadOfLoadable(w: JpaDao.Wiring, db: Store, m: map<string, KeyValues>, order: seq<string>, all: map<string, Loaded>)
    requires forall id :: id in m <==> id in order
    requires m.Keys == all.Keys
    requires forall id :: id in all ==> LegacyLoad.Load(w, db, id) == Ok(Some(all[id]))
    ensures Reload(Eager, w, db, m, order) == Ok(all)
  {
    assert forall id :: id in order <==> id in all;
    Gathering.PutFoundAll(order, (id: string) => LegacyLoad.Load(w, db, id), all);
  }

  /** Eagerly reloading exactly the keys `loadAll` returned yields what
      `loadAll` returned. */
  lemma ReloadRefreshesLoadAll(w: JpaDao.Wiring, db: Store, m: map<string, KeyValues>, order: seq<string>)
    requires forall id :: id in m <==> id in order
    requires LegacyLoad.KeyIdsUnique(db.keys) && IdsNotBlank(db.keys)
    requires LoadAll(Eager, w, db).Ok? && m.Keys == LoadAll(Eager, w, db).value.Keys
    ensures Reload(Eager, w, db, m, order) == LoadAll(Eager, w, db)
  {
    var all := LoadAll(Eager, w, db).value;
    LoadsAsLoadAll(w, db, all);
    ReloadOfLoadable(w, db, m, order, all);
  }
}
