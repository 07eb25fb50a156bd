/**
 * What the `remove` forms of the `jpa` engine do to the invariant `load`
 * relies on (every key has rows, every row has its key): the single form
 * keeps it, and so does a bulk deletion that drops the key exactly when
 * none of its rows is left.
 */
module JpaRemoveLaws {
  import opened Wrappers
  import opened Entities
  import opened Query
  import opened Stores
  import opened ChangeSets
  import opened Transactions
  import JavaText
  import JpaDao
  import opened JpaRemove
  import opened JpaStoreLaws

  /** The store after deleting row `x`, and its key as well when `x` was
      the key's only row. */
  function DropOne(db: Store, x: ValueRow): Store {
    var dropped := DropRow(db, x.id);
    if Count(db.rows, x.key) == 1 then DropKey(dropped, x.key) else dropped
  }

  lemma DropOneWellKeyed(db: Store, x: ValueRow)
    requires WellKeyed(db)
    ensures WellKeyed(DropOne(db, x))
  {
    RowsExceptUnique(db.rows, x.id);
  }

  /** Every key left still has a row. */
  lemma DropOneKeysHaveRows(db: Store, x: ValueRow)
    requires WellKeyed(db) && Consistent(db) && x in db.rows
    ensures forall i :: 0 <= i < |DropOne(db, x).keys| ==> Count(DropOne(db, x).rows, DropOne(db, x).keys[i].id) > 0
  {
    var after := DropOne(db, x);
    forall i | 0 <= i < |after.keys|
      ensures Count(after.rows, after.keys[i].id) > 0
    {
      var k := after.keys[i];
      assert k in db.keys;
      var j :| 0 <= j < |db.keys| && db.keys[j] == k;
      CountExcept(db.rows, x, k.id);
    }
  }

  /** Every row left still has its key. */
  lemma DropOneRowsHaveKeys(db: Store, x: ValueRow)
    requires WellKeyed(db) && Consistent(db) && x in db.rows
    ensures forall i :: 0 <= i < |DropOne(db, x).rows| ==> HasKey(DropOne(db, x), DropOne(db, x).rows[i].key)
  {
    var after := DropOne(db, x);
    var dropped := DropRow(db, x.id);
    forall y | y in dropped.rows
      ensures HasKey(db, y.key)
    {
      var j :| 0 <= j < |db.rows| && db.rows[j] == y;
    }
    if Count(db.rows, x.key) == 1 {
      CountExcept(db.rows, x, x.key);
      forall y | y in dropped.rows
        ensures HasKey(after, y.key)
      {
        HasKeyAfterDrop(dropped, x.key, y.key);
      }
    }
    assert forall i :: 0 <= i < |after.rows| ==> after.rows[i] in dropped.rows;
  }

  /** Deleting one row by its id, and its key as well when that was the
      key's only row, keeps a well-keyed consistent store so. */
  lemma DropOneKeepsConsistent(db: Store, x: ValueRow)
    requires WellKeyed(db) && Consistent(db) && x in db.rows
    ensures WellKeyed(DropOne(db, x)) && Consistent(DropOne(db, x))
  {
    DropOneWellKeyed(db, x);
    DropOneKeysHaveRows(db, x);
    DropOneRowsHaveKeys(db, x);
  }

  /** The single `remove` keeps a well-keyed store consistent: the row goes,
      and the key with it exactly when it had no other row. */
  lemma RemoveValueKeepsConsistent(w: JpaDao.Wiring, s: Session, key: string, dsv: Option<Variant>, changeSet: Option<string>)
    requires WellKeyed(s.db) && Consistent(s.db)
    ensures var db := RemoveValue(w, s, key, dsv, changeSet).session.db;
      WellKeyed(db) && Consistent(db)
  {
    var o := RemoveValue(w, s, key, dsv, changeSet);
    if o.session.db != s.db {
      var s1 := Begin(s).value;
      var k := JpaDao.LoadRopertyKey(s1.db, key).result.value.value;
      var x := JpaDao.LoadRopertyValue(w, s1.db, k, dsv.value.pattern, EmptyWhenNull(changeSet)).result.value.value;
      var s2 := RemoveActive(s1, RowEntity(x));
      var last := JpaDao.GetNumberOfValues(w, s1.db, k).result.value == 1;
      var s3 := if last then RemoveActive(s2, KeyEntity(k)) else s2;
      assert o == Outcome(EndActive(s3), Ok(()));
      assert x in s.db.rows && x.key == key;
      assert o.session.db == DropOne(s.db, x);
      DropOneKeepsConsistent(s.db, x);
    }
  }
  /** A row of the key makes its count positive. */
  lemma CountPositive(rows: seq<ValueRow>, key: string, y: ValueRow)
    requires y in rows && y.key == key
    ensures Count(rows, key) > 0
  {
    var i :| 0 <= i < |rows| && rows[i] == y;
  }

  /** A positive count has a row to show for it. */
  lemma SomeRowOf(rows: seq<ValueRow>, key: string) returns (y: ValueRow)
    requires Count(rows, key) > 0
    ensures y in rows && y.key == key
  {
    var i :| 0 <= i < |rows| && rows[i].key == key;
    y := rows[i];
  }

  /** The ids in `gone` are ids of rows of `key`. */
  ghost predicate OwnedBy(db: Store, key: string, gone: set<nat>) {
    forall id :: id in gone ==> exists x :: x in db.rows && x.key == key && x.id == id
  }

  /** Every row of `key` is among the ones deleted. */
  ghost predicate NoneLeft(db: Store, key: string, gone: set<nat>) {
    forall x :: x in db.rows && x.key == key ==> x.id in gone
  }

  /** `after` is `db` without the rows whose ids are in `gone`, and without
      the key exactly when none of its rows is left. */
  ghost predicate BulkDropped(db: Store, after: Store, key: string, gone: set<nat>) {
    && after.nextId == db.nextId
    && UniqueIds(after.rows)
    && (forall x :: x in after.rows <==> x in db.rows && x.id !in gone)
    && after.keys == (if NoneLeft(db, key, gone) then KeysExcept(db.keys, key) else db.keys)
  }

  /** With unique ids, a deleted row is a row of the key. */
  lemma GoneRowOfKey(db: Store, key: string, gone: set<nat>, y: ValueRow)
    requires UniqueIds(db.rows) && OwnedBy(db, key, gone) && y in db.rows && y.id in gone
    ensures y.key == key
  {
    var x :| x in db.rows && x.key == key && x.id == y.id;
    var i :| 0 <= i < |db.rows| && db.rows[i] == x;
    var j :| 0 <= j < |db.rows| && db.rows[j] == y;
    assert i == j;
  }

  /** A key the bulk deletion leaves in place still has a row. */
  lemma BulkDropKeyHasRow(db: Store, after: Store, key: string, gone: set<nat>, k: KeyRecord)
    requires UniqueIds(db.rows) && Count(db.rows, k.id) > 0 && OwnedBy(db, key, gone)
    requires forall x :: x in after.rows <==> x in db.rows && x.id !in gone
    requires k.id == key ==> !NoneLeft(db, key, gone)
    ensures Count(after.rows, k.id) > 0
  {
    var y := SomeRowOf(db.rows, k.id);
    if y.id !in gone {
      CountPositive(after.rows, k.id, y);
    } else {
      GoneRowOfKey(db, key, gone, y);
      var z :| z in db.rows && z.key == key && z.id !in gone;
      CountPositive(after.rows, key, z);
    }
  }

  lemma BulkDropKeysHaveRows(db: Store, after: Store, key: string, gone: set<nat>)
    requires WellKeyed(db) && Consistent(db) && OwnedBy(db, key, gone) && BulkDropped(db, after, key, gone)
    ensures forall i :: 0 <= i < |after.keys| ==> Count(after.rows, after.keys[i].id) > 0
  {
    forall i | 0 <= i < |after.keys|
      ensures Count(after.rows, after.keys[i].id) > 0
    {
      var k := after.keys[i];
      assert k in db.keys;
      var j :| 0 <= j < |db.keys| && db.keys[j] == k;
      assert k.id == key ==> !NoneLeft(db, key, gone);
      BulkDropKeyHasRow(db, after, key, gone, k);
    }
  }

  lemma BulkDropRowsHaveKeys(db: Store, after: Store, key: string, gone: set<nat>)
    requires Consistent(db) && BulkDropped(db, after, key, gone)
    ensures forall i :: 0 <= i < |after.rows| ==> HasKey(after, after.rows[i].key)
  {
    forall y | y in after.rows
      ensures HasKey(after, y.key)
    {
      var j :| 0 <= j < |db.rows| && db.rows[j] == y;
      if NoneLeft(db, key, gone) {
        HasKeyAfterDrop(db, key, y.key);
      }
    }
  }

  /** Deleting rows of one key, and the key exactly when none of its rows
      is left, keeps a well-keyed consistent store so. */
  lemma BulkDropKeepsConsistent(db: Store, after: Store, key: string, gone: set<nat>)
    requires WellKeyed(db) && Consistent(db) && OwnedBy(db, key, gone) && BulkDropped(db, after, key, gone)
    ensures WellKeyed(after) && Consistent(after)
  {
    BulkDropKeysHaveRows(db, after, key, gone);
    BulkDropRowsHaveKeys(db, after, key, gone);
  }
}
