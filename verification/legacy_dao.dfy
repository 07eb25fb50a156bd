/**
 * The accessors of the first generation (`persistence` package). The key
 * lookup is an equality query with a cardinality check; the two value
 * queries the legacy engine issues by (key, pattern) and by key count are
 * stated with the same criteria the current generation uses.
 */
module LegacyDao {
  import opened Wrappers
  import opened Entities
  import opened Query
  import opened Stores
  import JpaDao

  function KeysWithId(keys: seq<KeyRecord>, id: string): (r: seq<KeyRecord>)
    ensures |r| <= |keys|
    ensures forall k :: k in r <==> k in keys && k.id == id
    ensures |r| == 0 <==> forall i :: 0 <= i < |keys| ==> keys[i].id != id
    decreases |keys|
  {
    if |keys| == 0 then []
    else
      var rest := KeysWithId(keys[1..], id);
      assert forall i :: 1 <= i < |keys| ==> keys[i] == keys[1..][i - 1];
      assert |rest| > 0 ==> rest[0] in rest;
      (if keys[0].id == id then [keys[0]] else []) + rest
  }

  /** `loadRopertyKey`: null for no match, the key for one, an error for
      more; the error path leaves the entity manager open. */
  function LoadRopertyKey(s: Store, key: string): (a: JpaDao.Access<Option<KeyRecord>>)
    ensures a.result == Single(KeysWithId(s.keys, key))
    ensures a.closed <==> a.result.Ok?
    ensures a.result == Ok(None) <==> forall i :: 0 <= i < |s.keys| ==> s.keys[i].id != key
    ensures a.result.Ok? && a.result.value.Some? ==> a.result.value.value in s.keys && a.result.value.value.id == key
  {
    var found := Single(KeysWithId(s.keys, key));
    JpaDao.Access(found, found.Ok?)
  }

  /** `loadAllRopertyKeys`: the full key list. */
  function LoadAllRopertyKeys(s: Store): (keys: seq<KeyRecord>)
    ensures forall k :: k in keys <==> k in s.keys
  {
    s.keys
  }

  /** The rows of a key, each joined with its key. */
  function LoadRopertyValues(s: Store, k: KeyRecord): (views: seq<RowView>)
    ensures |views| == Count(s.rows, k.id)
    ensures RowsOf(views) == Select(s.rows, ByKey(k.id))
    ensures forall x :: x in RowsOf(views) <==> x in s.rows && x.key == k.id
  {
    var views := Joined(s, Select(s.rows, ByKey(k.id)));
    assert RowsOf(views) == Select(s.rows, ByKey(k.id));
    views
  }

  /** The row of a key with a pattern; the change set takes no part. A null
      pattern is refused by the query builder as a comparison value. */
  function LoadRopertyValue(s: Store, k: KeyRecord, pattern: Option<string>): (r: Result<Option<ValueRow>, Error>)
    ensures pattern.None? ==> r == Err(NullComparison)
    ensures pattern.Some? ==> r == Single(Select(s.rows, ByKeyPattern(k.id, pattern)))
    ensures r.Ok? && r.value.Some? ==> r.value.value in s.rows && r.value.value.key == k.id && r.value.value.pattern == pattern
  {
    if pattern.None? then Err(NullComparison)
    else Single(Select(s.rows, ByKeyPattern(k.id, pattern)))
  }
}
