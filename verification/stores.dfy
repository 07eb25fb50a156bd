/**
 * The relational store behind both engines: the `roperty_key` table, the
 * `roperty_value` table and the generator of surrogate row ids, together
 * with the single-entity writes an entity manager performs on them.
 */
module Stores {
  import opened Wrappers
  import opened Entities
  import opened Query

  datatype Store = Store(keys: seq<KeyRecord>, rows: seq<ValueRow>, nextId: nat)

  /** Primary-key lookup in the key table (first row with that id). */
  function FindKey(keys: seq<KeyRecord>, id: string): (r: Option<KeyRecord>)
    ensures r.Some? ==> r.value in keys && r.value.id == id
    ensures r.None? <==> forall i :: 0 <= i < |keys| ==> keys[i].id != id
    decreases |keys|
  {
    if |keys| == 0 then None
    else if keys[0].id == id then Some(keys[0])
    else FindKey(keys[1..], id)
  }

  predicate HasKey(s: Store, id: string) {
    FindKey(s.keys, id).Some?
  }

  lemma {:induction false} FindKeyAppend(keys: seq<KeyRecord>, k: KeyRecord, id: string)
    ensures FindKey(keys + [k], id) ==
      (if FindKey(keys, id).Some? then FindKey(keys, id) else if k.id == id then Some(k) else None)
    decreases |keys|
  {
    if |keys| > 0 {
      assert (keys + [k])[1..] == keys[1..] + [k];
      FindKeyAppend(keys[1..], k, id);
    }
  }

  /** `persist` of a key entity: a new row of the key table. */
  function AddKey(s: Store, k: KeyRecord): Store {
    s.(keys := s.keys + [k])
  }

  /** The ids the key table holds. */
  function KeyIdSet(keys: seq<KeyRecord>): set<string> {
    set i | 0 <= i < |keys| :: keys[i].id
  }

  /** The ids the value table holds. */
  function RowIdSet(rows: seq<ValueRow>): set<nat> {
    set i | 0 <= i < |rows| :: rows[i].id
  }

  /** `merge` of a key entity: the row with its id takes its state, or it is added. */
  function PutKey(s: Store, k: KeyRecord): Store {
    if HasKey(s, k.id) then s.(keys := ReplaceKeys(s.keys, k))
    else AddKey(s, k)
  }

  /** The key rows after `merge` of `k` over an existing id: every position
      keeps its id, the row with `k`'s id becomes `k`, and every other row
      stays as it was. */
  function ReplaceKeys(keys: seq<KeyRecord>, k: KeyRecord): (r: seq<KeyRecord>)
    ensures |r| == |keys|
    ensures forall i :: 0 <= i < |keys| ==> r[i].id == keys[i].id
    ensures forall i :: 0 <= i < |keys| && keys[i].id == k.id ==> r[i] == k
    ensures forall i :: 0 <= i < |keys| && keys[i].id != k.id ==> r[i] == keys[i]
    ensures forall x :: x in r <==> (x == k && k.id in KeyIdSet(keys)) || (x in keys && x.id != k.id)
  {
    seq(|keys|, i requires 0 <= i < |keys| => if keys[i].id == k.id then k else keys[i])
  }

  function KeysExcept(keys: seq<KeyRecord>, id: string): (r: seq<KeyRecord>)
    ensures forall k :: k in r <==> k in keys && k.id != id
    decreases |keys|
  {
    if |keys| == 0 then []
    else (if keys[0].id == id then [] else [keys[0]]) + KeysExcept(keys[1..], id)
  }

  /** `remove` of a key entity. */
  function DropKey(s: Store, id: string): Store {
    s.(keys := KeysExcept(s.keys, id))
  }

  /** `persist` of a value entity: the generator assigns the next surrogate id. */
  function AddRow(s: Store, row: ValueRow): Store {
    s.(rows := s.rows + [row.(id := s.nextId)], nextId := s.nextId + 1)
  }

  predicate HasRow(s: Store, id: nat) {
    exists i :: 0 <= i < |s.rows| && s.rows[i].id == id
  }

  /** The value rows after `merge` of `row` over an existing id: every
      position keeps its id, each row with that id becomes `row`, and every
      other row stays as it was. */
  function ReplaceRows(rows: seq<ValueRow>, row: ValueRow): (r: seq<ValueRow>)
    ensures |r| == |rows|
    ensures forall i :: 0 <= i < |rows| ==> r[i].id == rows[i].id
    ensures forall i :: 0 <= i < |rows| && rows[i].id == row.id ==> r[i] == row
    ensures forall i :: 0 <= i < |rows| && rows[i].id != row.id ==> r[i] == rows[i]
    ensures forall x :: x in r <==> (x == row && row.id in RowIdSet(rows)) || (x in rows && x.id != row.id)
  {
    seq(|rows|, i requires 0 <= i < |rows| => if rows[i].id == row.id then row else rows[i])
  }

  /** `merge` of a value entity: the row with its id takes its state, or it is added. */
  function PutRow(s: Store, row: ValueRow): Store {
    if HasRow(s, row.id) then s.(rows := ReplaceRows(s.rows, row))
    else s.(rows := s.rows + [row])
  }

  function RowsExcept(rows: seq<ValueRow>, id: nat): (r: seq<ValueRow>)
    ensures |r| <= |rows|
    ensures forall x :: x in r <==> x in rows && x.id != id
    decreases |rows|
  {
    if |rows| == 0 then []
    else (if rows[0].id == id then [] else [rows[0]]) + RowsExcept(rows[1..], id)
  }

  /** `remove` of a value entity. */
  function DropRow(s: Store, id: nat): Store {
    s.(rows := RowsExcept(s.rows, id))
  }

  lemma {:induction false} RowsExceptAppend(a: seq<ValueRow>, b: seq<ValueRow>, id: nat)
    ensures RowsExcept(a + b, id) == RowsExcept(a, id) + RowsExcept(b, id)
    decreases |a|
  {
    if |a| > 0 {
      assert (a + b)[1..] == a[1..] + b;
      RowsExceptAppend(a[1..], b, id);
    } else {
      assert a + b == b;
    }
  }

  lemma {:induction false} RowsExceptReplace(rows: seq<ValueRow>, row: ValueRow)
    ensures RowsExcept(ReplaceRows(rows, row), row.id) == RowsExcept(rows, row.id)
    decreases |rows|
  {
    if |rows| > 0 {
      assert ReplaceRows(rows, row)[1..] == ReplaceRows(rows[1..], row);
      RowsExceptReplace(rows[1..], row);
    }
  }

  lemma {:induction false} KeysExceptReplace(keys: seq<KeyRecord>, k: KeyRecord)
    ensures KeysExcept(ReplaceKeys(keys, k), k.id) == KeysExcept(keys, k.id)
    decreases |keys|
  {
    if |keys| > 0 {
      assert ReplaceKeys(keys, k)[1..] == ReplaceKeys(keys[1..], k);
      KeysExceptReplace(keys[1..], k);
    }
  }

  lemma {:induction false} KeysExceptAppend(keys: seq<KeyRecord>, k: KeyRecord)
    ensures KeysExcept(keys + [k], k.id) == KeysExcept(keys, k.id)
    decreases |keys|
  {
    if |keys| > 0 {
      assert (keys + [k])[1..] == keys[1..] + [k];
      KeysExceptAppend(keys[1..], k);
    } else {
      assert KeysExcept([k], k.id) == [] + KeysExcept([], k.id);
    }
  }

  /** Deleting a row after merging it leaves what deleting it directly leaves. */
  lemma DropRowAfterPut(s: Store, row: ValueRow)
    ensures DropRow(PutRow(s, row), row.id) == DropRow(s, row.id)
  {
    if HasRow(s, row.id) {
      RowsExceptReplace(s.rows, row);
    } else {
      RowsExceptAppend(s.rows, [row], row.id);
      assert RowsExcept([row], row.id) == [];
    }
  }

  /** Deleting a key after merging it leaves what deleting it directly leaves. */
  lemma DropKeyAfterPut(s: Store, k: KeyRecord)
    ensures DropKey(PutKey(s, k), k.id) == DropKey(s, k.id)
  {
    if HasKey(s, k.id) {
      KeysExceptReplace(s.keys, k);
    } else {
      KeysExceptAppend(s.keys, k);
    }
  }

  /** The surrogate ids are unique and below the generator's next value,
      as the generator guarantees for rows it numbered. */
  predicate WellKeyed(s: Store) {
    && UniqueIds(s.rows)
    && (forall i :: 0 <= i < |s.rows| ==> s.rows[i].id < s.nextId)
  }

  predicate UniqueIds(rows: seq<ValueRow>) {
    forall i, j :: 0 <= i < j < |rows| ==> rows[i].id != rows[j].id
  }

  /** Every key row has value rows and every value row has its key row:
      the state `load` relies on, which reports a key without rows as an
      inconsistency. */
  predicate Consistent(s: Store) {
    && (forall i :: 0 <= i < |s.keys| ==> Count(s.rows, s.keys[i].id) > 0)
    && (forall i :: 0 <= i < |s.rows| ==> HasKey(s, s.rows[i].key))
  }

  /** Dropping a key removes exactly that id from the key table. */
  lemma HasKeyAfterDrop(s: Store, key: string, id: string)
    ensures HasKey(DropKey(s, key), id) <==> HasKey(s, id) && id != key
  {
    var r := KeysExcept(s.keys, key);
    if HasKey(s, id) && id != key {
      var k := FindKey(s.keys, id).value;
      assert k in r;
      var i :| 0 <= i < |r| && r[i] == k;
    }
    if HasKey(DropKey(s, key), id) {
      var k := FindKey(r, id).value;
      assert k in s.keys;
      var i :| 0 <= i < |s.keys| && s.keys[i] == k;
    }
  }

  /** Deleting by id keeps the ids unique and keeps only rows that were there. */
  lemma {:induction false} RowsExceptUnique(rows: seq<ValueRow>, id: nat)
    requires UniqueIds(rows)
    ensures UniqueIds(RowsExcept(rows, id))
    decreases |rows|
  {
    if |rows| > 0 {
      assert UniqueIds(rows[1..]) by {
        assert forall i :: 1 <= i < |rows| ==> rows[i] == rows[1..][i - 1];
      }
      RowsExceptUnique(rows[1..], id);
      var rest := RowsExcept(rows[1..], id);
      forall x | x in rest
        ensures x.id != rows[0].id
      {
        var j :| 0 <= j < |rows[1..]| && rows[1..][j] == x;
        assert rows[j + 1] == x;
      }
      if rows[0].id != id {
        assert RowsExcept(rows, id) == [rows[0]] + rest;
        UniqueCons(rows[0], rest);
      }
    }
  }

  lemma UniqueCons(x: ValueRow, rest: seq<ValueRow>)
    requires UniqueIds(rest) && forall y :: y in rest ==> y.id != x.id
    ensures UniqueIds([x] + rest)
  {
    var r := [x] + rest;
    forall i, j | 0 <= i < j < |r|
      ensures r[i].id != r[j].id
    {
      assert r[j] == rest[j - 1];
      if i > 0 {
        assert r[i] == rest[i - 1];
      }
    }
  }

  /** Deleting a member row by its (unique) id lowers the row count of its
      key by one and of every other key by nothing. */
  lemma {:induction false} CountExcept(rows: seq<ValueRow>, x: ValueRow, key: string)
    requires UniqueIds(rows) && x in rows
    ensures Count(RowsExcept(rows, x.id), key) == Count(rows, key) - (if x.key == key then 1 else 0)
    decreases |rows|
  {
    var rest := rows[1..];
    assert UniqueIds(rest) by {
      assert forall i :: 1 <= i < |rows| ==> rows[i] == rest[i - 1];
    }
    assert Select(rows, ByKey(key)) == (if Holds(ByKey(key), rows[0]) then [rows[0]] else []) + Select(rest, ByKey(key));
    if rows[0] == x {
      forall i | 0 <= i < |rest|
        ensures rest[i].id != x.id
      {
        assert rows[i + 1] == rest[i];
      }
      RowsExceptAbsent(rest, x.id);
      assert RowsExcept(rows, x.id) == RowsExcept(rest, x.id);
    } else {
      var j :| 0 <= j < |rows| && rows[j] == x;
      assert j > 0 && rows[0].id != x.id;
      assert rest[j - 1] == x;
      CountExcept(rest, x, key);
      var kept := RowsExcept(rows, x.id);
      assert kept == [rows[0]] + RowsExcept(rest, x.id);
      assert kept[0] == rows[0] && kept[1..] == RowsExcept(rest, x.id);
      assert Select(kept, ByKey(key)) == (if Holds(ByKey(key), rows[0]) then [rows[0]] else []) + Select(kept[1..], ByKey(key));
    }
  }

  /** Deleting an id no row carries changes nothing. */
  lemma {:induction false} RowsExceptAbsent(rows: seq<ValueRow>, id: nat)
    requires forall i :: 0 <= i < |rows| ==> rows[i].id != id
    ensures RowsExcept(rows, id) == rows
    decreases |rows|
  {
    if |rows| > 0 {
      RowsExceptAbsent(rows[1..], id);
    }
  }

  /** Replacing by id commutes with a query that cannot tell the replaced
      rows from their replacement. */
  lemma {:induction false} SelectReplace(rows: seq<ValueRow>, row: ValueRow, q: RowQuery)
    requires forall i :: 0 <= i < |rows| && rows[i].id == row.id ==> (Holds(q, rows[i]) <==> Holds(q, row))
    ensures Select(ReplaceRows(rows, row), q) == ReplaceRows(Select(rows, q), row)
    decreases |rows|
  {
    if |rows| > 0 {
      var replaced := ReplaceRows(rows, row);
      assert replaced[1..] == ReplaceRows(rows[1..], row);
      SelectReplace(rows[1..], row, q);
      var head := if Holds(q, rows[0]) then [rows[0]] else [];
      var head' := if Holds(q, replaced[0]) then [replaced[0]] else [];
      assert head' == ReplaceRows(head, row);
      assert Select(replaced, q) == head' + Select(replaced[1..], q);
      assert Select(rows, q) == head + Select(rows[1..], q);
      ReplaceRowsAppend(head, Select(rows[1..], q), row);
    }
  }

  lemma ReplaceRowsAppend(a: seq<ValueRow>, b: seq<ValueRow>, row: ValueRow)
    ensures ReplaceRows(a + b, row) == ReplaceRows(a, row) + ReplaceRows(b, row)
  {
  }

  /** `persist` of a row keeps the store well keyed and adds exactly that
      row under the generated id. */
  lemma AddRowFacts(p: Store, row: ValueRow)
    requires WellKeyed(p)
    ensures WellKeyed(AddRow(p, row))
    ensures forall x :: x in AddRow(p, row).rows <==> x in p.rows || x == row.(id := p.nextId)
  {
  }

  /** Replacing an id no row carries changes nothing. */
  lemma ReplaceAbsent(rows: seq<ValueRow>, row: ValueRow)
    requires forall i :: 0 <= i < |rows| ==> rows[i].id != row.id
    ensures ReplaceRows(rows, row) == rows
  {
  }

  /** Rows as a query returns them: each joined with its owning key entity
      (null when the key row is missing). */
  function Joined(s: Store, rows: seq<ValueRow>): (r: seq<RowView>)
    ensures |r| == |rows|
    ensures forall i :: 0 <= i < |rows| ==> r[i].row == rows[i] && r[i].owner == FindKey(s.keys, rows[i].key)
  {
    seq(|rows|, i requires 0 <= i < |rows| => RowView(rows[i], FindKey(s.keys, rows[i].key)))
  }

  function RowsOf(views: seq<RowView>): (r: seq<ValueRow>)
    ensures |r| == |views|
    ensures forall i :: 0 <= i < |views| ==> r[i] == views[i].row
  {
    seq(|views|, i requires 0 <= i < |views| => views[i].row)
  }
}
