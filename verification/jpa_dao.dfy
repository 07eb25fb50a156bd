/**
 * The accessors of the current generation, `RopertyKeyDAO` and
 * `RopertyValueDAO` in the `jpa` package, as functions of the committed
 * store. Each opens an entity manager of its own; `closed` records whether
 * it was closed again on the way out.
 */
module JpaDao {
  import opened Wrappers
  import opened Entities
  import opened Query
  import opened Stores
  import JavaText

  /** What the query plumbing yields. `typedQuery`: the query builder returns
      a query (not null); `countResult`: the count query's single result is
      not null; `factory`: the key values factory returns an object. */
  datatype Wiring = Wiring(typedQuery: bool, countResult: bool, factory: bool)

  /** Plumbing that behaves. */
  const Wired: Wiring := Wiring(true, true, true)

  /** An accessor's outcome, and whether its entity manager was closed. */
  datatype Access<T> = Access(result: Result<T, Error>, closed: bool)

  /** `loadRopertyKey`: primary-key lookup, null when absent. */
  function LoadRopertyKey(s: Store, key: string): (a: Access<Option<KeyRecord>>)
    ensures a.closed && a.result.Ok?
    ensures a.result.value.None? <==> forall i :: 0 <= i < |s.keys| ==> s.keys[i].id != key
    ensures a.result.value.Some? ==> a.result.value.value in s.keys && a.result.value.value.id == key
  {
    Access(Ok(FindKey(s.keys, key)), true)
  }

  /** `loadAllRopertyKeys`: every key row, in table order. */
  function LoadAllRopertyKeys(w: Wiring, s: Store): (a: Access<seq<KeyRecord>>)
    ensures a.closed
    ensures a.result.Err? <==> !w.typedQuery
    ensures a.result.Err? ==> a.result.error == NoTypedQuery
    ensures a.result.Ok? ==> a.result.value == s.keys
  {
    if !w.typedQuery then Access(Err(NoTypedQuery), true)
    else Access(Ok(s.keys), true)
  }

  /** The key search: the id, lower-cased, contains the lower-cased fragment. */
  predicate IdLike(id: string, fragment: string) {
    JavaText.Find(JavaText.Lower(id), JavaText.Lower(fragment))
  }

  /** The id column of the key table, in table order. */
  function KeyIds(keys: seq<KeyRecord>): seq<string> {
    seq(|keys|, i requires 0 <= i < |keys| => keys[i].id)
  }

  lemma KeyIdsCons(keys: seq<KeyRecord>)
    requires |keys| > 0
    ensures multiset(KeyIds(keys)) == multiset{keys[0].id} + multiset(KeyIds(keys[1..]))
  {
    assert KeyIds(keys) == [keys[0].id] + KeyIds(keys[1..]);
  }

  /** The result rows of the key search: one id per matched key row, so an
      id occurs as often as key rows carry it when it matches, and not at
      all otherwise. */
  function MatchingIds(keys: seq<KeyRecord>, fragment: string): (r: seq<string>)
    ensures |r| <= |keys|
    ensures forall id :: id in r <==> exists i :: 0 <= i < |keys| && keys[i].id == id && IdLike(id, fragment)
    ensures forall id :: multiset(r)[id] == if IdLike(id, fragment) then multiset(KeyIds(keys))[id] else 0
    decreases |keys|
  {
    if |keys| == 0 then []
    else
      var rest := MatchingIds(keys[1..], fragment);
      assert forall i :: 1 <= i < |keys| ==> keys[i] == keys[1..][i - 1];
      KeyIdsCons(keys);
      (if IdLike(keys[0].id, fragment) then [keys[0].id] else []) + rest
  }

  /** `findKeys`: ids of the keys whose id contains the fragment, ignoring
      case, one per matched key in table order. */
  function FindKeys(w: Wiring, s: Store, fragment: string): (a: Access<seq<string>>)
    ensures a.closed
    ensures a.result.Err? <==> !w.typedQuery
    ensures a.result.Err? ==> a.result.error == NoTypedQuery
    ensures a.result.Ok? ==> forall id :: id in a.result.value <==>
      (HasKey(s, id) && JavaText.Contains(JavaText.Lower(id), JavaText.Lower(fragment)))
  {
    if !w.typedQuery then Access(Err(NoTypedQuery), true)
    else
      var ids := MatchingIds(s.keys, fragment);
      assert forall id :: HasKey(s, id) <==> exists i :: 0 <= i < |s.keys| && s.keys[i].id == id by {
        forall id | HasKey(s, id) ensures exists i :: 0 <= i < |s.keys| && s.keys[i].id == id {
          var k := FindKey(s.keys, id).value;
          var i :| 0 <= i < |s.keys| && s.keys[i] == k;
        }
      }
      Access(Ok(ids), true)
  }

  /** `loadRopertyValues`: every row whose key is `k`, each joined with its key. */
  function LoadRopertyValues(w: Wiring, s: Store, k: KeyRecord): (a: Access<seq<RowView>>)
    ensures a.closed
    ensures a.result.Err? <==> !w.typedQuery
    ensures a.result.Err? ==> a.result.error == NoTypedQuery
    ensures a.result.Ok? ==> |a.result.value| == Count(s.rows, k.id)
    ensures a.result.Ok? ==> forall x :: x in RowsOf(a.result.value) <==> x in s.rows && x.key == k.id
    ensures a.result.Ok? ==> RowsOf(a.result.value) == Select(s.rows, ByKey(k.id))
  {
    if !w.typedQuery then Access(Err(NoTypedQuery), true)
    else
      var views := Joined(s, Select(s.rows, ByKey(k.id)));
      assert RowsOf(views) == Select(s.rows, ByKey(k.id));
      Access(Ok(views), true)
  }

  /** `loadRopertyValue`: the row with exactly this key, pattern and change
      set, null when there is none; more than one is an error raised before
      the entity manager is closed. The query builder refuses a null pattern
      as a comparison value, before any query exists, and the entity manager
      stays open. */
  function LoadRopertyValue(w: Wiring, s: Store, k: KeyRecord, pattern: Option<string>, changeSet: string): (a: Access<Option<ValueRow>>)
    ensures pattern.None? ==> a == Access(Err(NullComparison), false)
    ensures pattern.Some? && !w.typedQuery ==> a == Access(Err(NoTypedQuery), true)
    ensures pattern.Some? && w.typedQuery ==> a.result == Single(Select(s.rows, ByIdentity(k.id, pattern, Some(changeSet))))
    ensures a.closed <==> a.result.Ok? || a.result == Err(NoTypedQuery)
    ensures a.result.Ok? && a.result.value.Some? ==>
      a.result.value.value in s.rows && a.result.value.value.key == k.id && a.result.value.value.pattern == pattern
  {
    if pattern.None? then Access(Err(NullComparison), false)
    else if !w.typedQuery then Access(Err(NoTypedQuery), true)
    else
      var found := Single(Select(s.rows, ByIdentity(k.id, pattern, Some(changeSet))));
      Access(found, found.Ok?)
  }

  /** `getNumberOfValues`: the number of rows of the key. A null count fails
      without closing the entity manager. */
  function GetNumberOfValues(w: Wiring, s: Store, k: KeyRecord): (a: Access<nat>)
    ensures !w.typedQuery ==> a == Access(Err(NoTypedQuery), true)
    ensures w.typedQuery && !w.countResult ==> a == Access(Err(NoCountResult), false)
    ensures w.typedQuery && w.countResult ==> a.closed && a.result == Ok(Count(s.rows, k.id))
  {
    if !w.typedQuery then Access(Err(NoTypedQuery), true)
    else if !w.countResult then Access(Err(NoCountResult), false)
    else Access(Ok(Count(s.rows, k.id)), true)
  }
}
