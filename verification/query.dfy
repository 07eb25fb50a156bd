/**
 * The where-clauses the accessors issue against `roperty_value`, evaluated
 * over a sequence of rows with SQL equality: a comparison with NULL on
 * either side never holds.
 */
module Query {
  import opened Wrappers
  import opened Entities

  /** `column = ?` in SQL: unknown (so false) when either side is NULL. */
  predicate SqlEquals<T(==)>(column: Option<T>, param: Option<T>) {
    column.Some? && param.Some? && column.value == param.value
  }

  /** The three criteria shapes used on value rows. */
  datatype RowQuery =
    | ByKey(key: string)
    | ByKeyPattern(key: string, pattern: Option<string>)
    | ByIdentity(key: string, pattern: Option<string>, changeSet: Option<string>)

  predicate Holds(q: RowQuery, r: ValueRow) {
    match q
    case ByKey(k) => r.key == k
    case ByKeyPattern(k, p) => r.key == k && SqlEquals(r.pattern, p)
    case ByIdentity(k, p, cs) => r.key == k && SqlEquals(r.pattern, p) && SqlEquals(r.changeSet, cs)
  }

  /** The result list of the query: matching rows in table order. */
  function Select(rows: seq<ValueRow>, q: RowQuery): (r: seq<ValueRow>)
    ensures |r| <= |rows|
    ensures forall x :: x in r <==> x in rows && Holds(q, x)
    ensures forall i :: 0 <= i < |r| ==> Holds(q, r[i])
    decreases |rows|
  {
    if |rows| == 0 then []
    else (if Holds(q, rows[0]) then [rows[0]] else []) + Select(rows[1..], q)
  }

  lemma {:induction false} SelectAppend(a: seq<ValueRow>, b: seq<ValueRow>, q: RowQuery)
    ensures Select(a + b, q) == Select(a, q) + Select(b, q)
    decreases |a|
  {
    if |a| > 0 {
      assert (a + b)[1..] == a[1..] + b;
      SelectAppend(a[1..], b, q);
    } else {
      assert a + b == b;
    }
  }

  /** The cardinality rule of single-row lookups: none is `null`, one is the
      row, more than one is an error. */
  function Single<T>(matches: seq<T>): (r: Result<Option<T>, Error>)
    ensures r == Ok(None) <==> |matches| == 0
    ensures r.Ok? && r.value.Some? <==> |matches| == 1
    ensures |matches| == 1 ==> r.value.value == matches[0]
    ensures r.Err? <==> |matches| > 1
    ensures r.Err? ==> r.error == MultipleResults
  {
    if |matches| == 0 then Ok(None)
    else if |matches| == 1 then Ok(Some(matches[0]))
    else Err(MultipleResults)
  }

  /** The number of value rows of a key. */
  function Count(rows: seq<ValueRow>, key: string): (n: nat)
    ensures n <= |rows|
    ensures n == 0 <==> forall i :: 0 <= i < |rows| ==> rows[i].key != key
  {
    var sel := Select(rows, ByKey(key));
    assert forall i :: 0 <= i < |rows| && rows[i].key == key ==> rows[i] in sel;
    assert |sel| > 0 ==> sel[0] in sel;
    |sel|
  }
}
