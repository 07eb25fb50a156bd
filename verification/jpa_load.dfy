/**
 * The read path of the current engine: `load` and the private `load` on a
 * key entity, from the committed store through the transformer.
 */
module JpaLoad {
  import opened Wrappers
  import opened Entities
  import opened Query
  import opened Stores
  import JavaText
  import JpaDao
  import Transformer

  /** The rows of a key as a query returns them. */
  function KeyRows(db: Store, id: string): seq<ValueRow> {
    Select(db.rows, ByKey(id))
  }

  /** The private `load` on a key entity: its rows through the transformer;
      a key without rows is an error. */
  function LoadOf(w: JpaDao.Wiring, db: Store, k: KeyRecord): (r: Result<Option<Loaded>, Error>)
    ensures !w.typedQuery ==> r == Err(NoTypedQuery)
    ensures w.typedQuery && Count(db.rows, k.id) == 0 ==> r == Err(NoValues(k.id))
    ensures w.typedQuery && Count(db.rows, k.id) > 0 && !w.factory ==> r == Err(NullAggregate)
    ensures r.Ok? ==> r.value.Some? && |r.value.value.puts| == Count(db.rows, k.id) > 0
  {
    var a := JpaDao.LoadRopertyValues(w, db, k);
    if a.result.Err? then Err(a.result.error)
    else if |a.result.value| == 0 then Err(NoValues(k.id))
    else Transformer.TransformValues(w, a.result.value)
  }

  /** `load`: null exactly when there is no key row; a key row without
      value rows is an error; otherwise one put per row of the key. */
  function Load(w: JpaDao.Wiring, db: Store, key: string): (r: Result<Option<Loaded>, Error>)
    ensures JavaText.IsBlank(key) ==> r == Err(BlankKey)
    ensures r == Ok(None) <==> !JavaText.IsBlank(key) && !HasKey(db, key)
    ensures !JavaText.IsBlank(key) && HasKey(db, key) && w.typedQuery && Count(db.rows, key) == 0 ==> r == Err(NoValues(key))
    ensures r.Ok? && r.value.Some? ==> HasKey(db, key) && |r.value.value.puts| == Count(db.rows, key) > 0
  {
    if JavaText.IsBlank(key) then Err(BlankKey)
    else
      var found := JpaDao.LoadRopertyKey(db, key).result.value;
      if found.None? then Ok(None) else LoadOf(w, db, found.value)
  }

  /** One step of `loadAll`: the private `load`, whose null result the loop
      rejects (it cannot happen, since a key with rows loads to an aggregate). */
  function LoadPresent(w: JpaDao.Wiring, db: Store, k: KeyRecord): (r: Result<Loaded, Error>)
    ensures r.Ok? <==> LoadOf(w, db, k).Ok?
    ensures r.Ok? ==> LoadOf(w, db, k) == Ok(Some(r.value))
    ensures r.Err? ==> LoadOf(w, db, k) == Err(r.error)
  {
    var r := LoadOf(w, db, k);
    if r.Err? then Err(r.error)
    else if r.value.None? then Err(NoValues(k.id))
    else Ok(r.value.value)
  }

  /** `load` returns an aggregate, not null and not an exception. */
  predicate Found(w: JpaDao.Wiring, db: Store, id: string) {
    Load(w, db, id).Ok? && Load(w, db, id).value.Some?
  }
}
