/**
 * Two places where the `jpa` engine breaks the invariant its own `load`
 * relies on (every key has at least one row, see `Consistent`), each shown
 * on a concrete store, together with the corrected operation and the proof
 * that the correction keeps the invariant.
 *
 * Bulk `remove` decides whether to delete the key by comparing how many rows
 * were removed with how many variants were given. That count says nothing
 * about the rows left over: one variant can remove a row while another row
 * of the key survives (the key goes, its row is orphaned), and two variants
 * can match the same row (the key stays with no rows). The correction
 * deletes the key exactly when no row of it is left.
 *
 * `store` persists a new key before it validates the variant set, and
 * `transactionManager.end()` on the validation failures commits that key:
 * a failed `store` leaves a key without rows behind. A successful `store`
 * whose variants all belong to other change sets does the same. The
 * correction validates first and creates the key only when some variant
 * will be stored under it.
 */
module JpaFindings {
  import opened Wrappers
  import opened Entities
  import opened Query
  import opened Stores
  import opened ChangeSets
  import opened Transactions
  import JavaText
  import JpaDao
  import opened JpaLoad
  import opened JpaRemove
  import opened JpaRemoveLaws
  import opened JpaEngine
  import opened JpaStoreLaws
  import LegacyDao
  import LegacyRemove

  // ------------------------------------------------- bulk remove, as written

  const v1: Value := Value("one", true)
  const v2: Value := Value("two", true)
  const r1: ValueRow := ValueRow(0, "k", Some("p1"), Some(v1), None)
  const r2: ValueRow := ValueRow(1, "k", Some("p2"), Some(v2), None)

  /** A key with two rows under different patterns. */
  const TwoRows: Store := Store([KeyRecord("k", None)], [r1, r2], 2)

  /** A key with one row. */
  const OneRow: Store := Store([KeyRecord("k", None)], [r1], 1)

  /** Fixture shared by the counterexample lemmas below: the rows of "k"
      in `TwoRows`, evaluated once. */
  lemma KeyRowsOfTwo()
    ensures KeyRows(TwoRows, "k") == [r1, r2]
  {
    assert [r1, r2][1..] == [r2];
    assert [r2][1..] == [];
    assert Select([r2], ByKey("k")) == [r2] + Select([], ByKey("k"));
    assert Select([r1, r2], ByKey("k")) == [r1] + Select([r2], ByKey("k"));
  }

  lemma KeyRowsOfOne()
    ensures KeyRows(OneRow, "k") == [r1]
  {
    assert [r1][1..] == [];
  }

  lemma TwoRowsConsistent()
    ensures WellKeyed(TwoRows) && Consistent(TwoRows)
  {
    assert TwoRows.rows[0].key == "k";
  }

  lemma OneRowConsistent()
    ensures WellKeyed(OneRow) && Consistent(OneRow)
  {
    assert OneRow.rows[0].key == "k";
  }

  /** Fixture shared by the counterexample lemmas below: "k" is a key, not
      blank, with rows, so the bulk `remove` reaches `removeKeyValues`. */
  lemma KeyIsLive(db: Store)
    requires db == TwoRows || db == OneRow
    ensures !JavaText.IsBlank("k") && HasKey(db, "k") && Count(db.rows, "k") > 0
  {
    assert !JavaText.IsWhitespace("k"[0]);
    assert db.rows[0].key == "k";
  }

  /** Removing the variant of one row of two: one variant given, one row
      removed, so the key is deleted while the other row stays behind. The
      store has no foreign key, so the row is left without its key; under
      the mandatory owner of `RopertyValue` the commit would fail instead. */
  lemma RemoveKeyOrphansRow()
    ensures var vs := [Variant(Some("p1"), Some(v1), None)];
      var o := RemoveKey(JpaDao.Wired, Session(true, TwoRows, Idle, []), "k", Some(KeyValues(None, Some(vs))), None);
      && WellKeyed(TwoRows) && Consistent(TwoRows)
      && o.result == Ok(())
      && r2 in o.session.db.rows && !HasKey(o.session.db, "k")
      && !Consistent(o.session.db)
  {
    TwoRowsConsistent();
    KeyIsLive(TwoRows);
    KeyRowsOfTwo();
    var vs := [Variant(Some("p1"), Some(v1), None)];
    var rows := [r1, r2];
    MatchesOne(r1, vs[0]);
    MatchesOne(r2, vs[0]);
    assert rows[1..] == [r2] && [r2][1..] == [];
    assert Keep(rows, vs) == [r2];
    assert MatchedIds(rows, vs) == {0};
    var o := RemoveKey(JpaDao.Wired, Session(true, TwoRows, Idle, []), "k", Some(KeyValues(None, Some(vs))), None);
    var db := o.session.db;
    assert db.keys == KeysExcept(TwoRows.keys, "k");
    assert TwoRows.keys[1..] == [];
    assert db.keys == [];
    assert r2 in db.rows;
    var i :| 0 <= i < |db.rows| && db.rows[i] == r2;
    assert !HasKey(db, db.rows[i].key);
  }

  /** The first generation's bulk `remove` applies the same rule and
      deletes the key under the same surviving row. */
  lemma LegacyRemoveKeyOrphansRow()
    ensures var vs := [Variant(Some("p1"), Some(v1), None)];
      var o := LegacyRemove.RemoveKey(Session(true, TwoRows, Idle, []), "k", Some(KeyValues(None, Some(vs))), None);
      && o.result == Ok(())
      && r2 in o.session.db.rows && !HasKey(o.session.db, "k")
      && !Consistent(o.session.db)
  {
    var vs := [Variant(Some("p1"), Some(v1), None)];
    var kv := Some(KeyValues(None, Some(vs)));
    var s := Session(true, TwoRows, Idle, []);
    KeyIsLive(TwoRows);
    KeyRowsOfTwo();
    assert LegacyDao.KeysWithId(TwoRows.keys, "k") == TwoRows.keys by {
      assert TwoRows.keys[1..] == [];
    }
    assert LegacyRemove.Hits([r1, r2], vs[0]) == 1 by {
      assert [r1, r2][1..] == [r2] && [r2][1..] == [];
      assert Matches(r1, vs[0]) && !Matches(r2, vs[0]);
      assert LegacyRemove.Hits([r2], vs[0]) == 0;
    }
    assert !LegacyRemove.Twinned([r1, r2], vs);
    LegacyRemove.RemoveKeyAgrees(JpaDao.Wired, s, "k", kv, None);
    RemoveKeyOrphansRow();
  }

  /** A list whose members are the rows of `before` outside `ids` has no
      member when every row of `before` is in `ids`. */
  lemma NothingLeft(rows: seq<ValueRow>, before: seq<ValueRow>, ids: set<nat>)
    requires forall x :: x in rows <==> x in before && x.id !in ids
    requires forall x :: x in before ==> x.id in ids
    ensures forall x :: x !in rows
  {
  }

  /** Removing one row with two variants that both match it: two variants
      given, one row removed, so the key stays without any row, and `load`
      then fails on it. */
  lemma RemoveKeyLeavesEmptyKey()
    ensures var vs := [Variant(Some("p1"), Some(v1), Some("a")), Variant(Some("p1"), Some(v1), None)];
      var o := RemoveKey(JpaDao.Wired, Session(true, OneRow, Idle, []), "k", Some(KeyValues(None, Some(vs))), None);
      && WellKeyed(OneRow) && Consistent(OneRow)
      && o.result == Ok(())
      && HasKey(o.session.db, "k") && Count(o.session.db.rows, "k") == 0
      && !Consistent(o.session.db)
  {
    OneRowConsistent();
    KeyIsLive(OneRow);
    KeyRowsOfOne();
    var vs := [Variant(Some("p1"), Some(v1), Some("a")), Variant(Some("p1"), Some(v1), None)];
    var rows := [r1];
    assert Matches(r1, vs[0]);
    assert rows[1..] == [];
    assert Keep(rows, vs) == [];
    assert MatchedIds(rows, vs) == {0};
    var o := RemoveKey(JpaDao.Wired, Session(true, OneRow, Idle, []), "k", Some(KeyValues(None, Some(vs))), None);
    var db := o.session.db;
    assert db.keys == OneRow.keys;
    NothingLeft(db.rows, OneRow.rows, {0});
    assert db.keys[0].id == "k";
  }

  // -------------------------------------------------- bulk remove, corrected

  /** `removeKeyValues` with the key deleted exactly when none of its rows is
      left. */
  function RemoveKeyValuesCorrected(s: Session, k: KeyRecord, kv: KeyValues, rows: seq<ValueRow>): (o: Outcome<()>)
    requires IsActive(s)
    ensures o.session.db == (if o.session.phase == Idle then s.phase.pending else s.db)
    ensures IsActive(o.session) && UniqueIds(s.phase.pending.rows) ==> UniqueIds(o.session.phase.pending.rows)
    ensures kv.variants.None? ==> o == Outcome(s, Err(NullValues))
    ensures kv.variants == Some([]) ==> o == Outcome(EndActive(s), Err(EmptyValues))
    ensures kv.variants.Some? && |kv.variants.value| > 0 ==>
      var vs := kv.variants.value;
      o.result.Ok? && IsActive(o.session) &&
      var p := o.session.phase.pending;
      && p.nextId == s.phase.pending.nextId
      && (forall x :: x in p.rows <==> x in s.phase.pending.rows && x.id !in MatchedIds(rows, vs))
      && p.keys == (if |Keep(rows, vs)| == 0 then KeysExcept(s.phase.pending.keys, k.id) else s.phase.pending.keys)
  {
    match kv.variants
    case None => Outcome(s, Err(NullValues))
    case Some(vs) =>
      if |vs| == 0 then Outcome(EndActive(s), Err(EmptyValues))
      else
        var sw := SweepAll(s, vs, rows);
        if |sw.rest| == 0 then Outcome(RemoveActive(sw.session, KeyEntity(k)), Ok(()))
        else Outcome(sw.session, Ok(()))
  }

  /** The bulk `remove` built on `RemoveKeyValuesCorrected`; every other
      step is the one `RemoveKey` takes. */
  function RemoveKeyCorrected(w: JpaDao.Wiring, s: Session, key: string, kv: Option<KeyValues>, changeSet: Option<string>): (o: Outcome<()>)
    ensures o.result.Ok? ==> o.session.phase == Idle
    ensures o.result.Err? ==> o.session.db == s.db
    ensures o.session.phase.Active? ==> o.session.db == s.db
    ensures UniqueIds(s.db.rows) ==> UniqueIds(o.session.db.rows)
    ensures o.session.db.nextId == s.db.nextId
    ensures !JavaText.IsBlank(key) && s.hasFactory && !HasKey(s.db, key) ==>
      o.result == Ok(()) && o.session.db == s.db
    ensures !JavaText.IsBlank(key) && s.hasFactory && HasKey(s.db, key) && w.typedQuery && Count(s.db.rows, key) > 0 ==>
      var rows := KeyRows(s.db, key);
      var db := o.session.db;
      && (kv.None? ==>
            && o.result == Ok(())
            && db.keys == KeysExcept(s.db.keys, key)
            && forall x :: x in db.rows <==> x in s.db.rows && x.id !in IdsOf(rows))
      && (kv.Some? && kv.value.variants.Some? && |kv.value.variants.value| > 0 ==>
            var vs := kv.value.variants.value;
            && o.result == Ok(())
            && db.keys == (if |Keep(rows, vs)| == 0 then KeysExcept(s.db.keys, key) else s.db.keys)
            && forall x :: x in db.rows <==> x in s.db.rows && x.id !in MatchedIds(rows, vs))
  {
    if JavaText.IsBlank(key) then Outcome(s, Err(BlankKey))
    else
      var b := Begin(s);
      if b.Err? then Outcome(s, Err(b.error))
      else
        var s1 := b.value;
        var found := JpaDao.LoadRopertyKey(s1.db, key).result.value;
        if found.None? then Outcome(EndActive(s1), Ok(()))
        else
          var k := found.value;
          var a := JpaDao.LoadRopertyValues(w, s1.db, k);
          if a.result.Err? then Outcome(s1, Err(a.result.error))
          else
            var rows := RowsOf(a.result.value);
            if |rows| == 0 then Outcome(EndActive(s1), Err(NoValues(k.id)))
            else if kv.None? then
              Outcome(EndActive(RemoveActive(RemoveRows(s1, rows), KeyEntity(k))), Ok(()))
            else
              var o := RemoveKeyValuesCorrected(s1, k, kv.value, rows);
              if o.result.Err? then o else Outcome(EndActive(o.session), Ok(()))
  }

  /** The rows `KeyRows` returns are exactly the rows of the key. */
  lemma KeyRowsOwned(db: Store, key: string, gone: set<nat>, vs: seq<Variant>)
    requires gone == MatchedIds(KeyRows(db, key), vs) || gone == IdsOf(KeyRows(db, key))
    ensures OwnedBy(db, key, gone)
  {
  }

  /** Every row of the key matched by some variant is a deleted one; the
      converse needs unique ids. */
  lemma KeptRowSurvives(db: Store, key: string, vs: seq<Variant>, y: ValueRow)
    requires UniqueIds(db.rows) && y in Keep(KeyRows(db, key), vs)
    ensures y in db.rows && y.key == key && y.id !in MatchedIds(KeyRows(db, key), vs)
  {
    forall x | x in KeyRows(db, key) && MatchesAny(x, vs)
      ensures x.id != y.id
    {
      var i :| 0 <= i < |db.rows| && db.rows[i] == x;
      var j :| 0 <= j < |db.rows| && db.rows[j] == y;
      assert i != j;
    }
  }

  /** Nothing of the key survives the sweep exactly when all its rows are
      among the deleted ones. */
  lemma NoneLeftIffSwept(db: Store, key: string, vs: seq<Variant>)
    requires UniqueIds(db.rows)
    ensures NoneLeft(db, key, MatchedIds(KeyRows(db, key), vs)) <==> |Keep(KeyRows(db, key), vs)| == 0
  {
    var rows := KeyRows(db, key);
    if |Keep(rows, vs)| > 0 {
      KeptRowSurvives(db, key, vs, Keep(rows, vs)[0]);
    }
  }

  /** Deleting the ids of all rows `KeyRows` returns leaves none of the key. */
  lemma AllRowsGone(db: Store, key: string)
    ensures NoneLeft(db, key, IdsOf(KeyRows(db, key)))
  {
    forall x | x in db.rows && x.key == key
      ensures x.id in IdsOf(KeyRows(db, key))
    {
      assert x in KeyRows(db, key);
    }
  }

  /** The corrected bulk `remove` without variants deletes every row of
      the key and the key. */
  lemma RemoveAllCorrectedKeepsConsistent(w: JpaDao.Wiring, s: Session, key: string, changeSet: Option<string>)
    requires WellKeyed(s.db) && Consistent(s.db)
    requires !JavaText.IsBlank(key) && s.hasFactory && HasKey(s.db, key) && w.typedQuery && Count(s.db.rows, key) > 0
    ensures var db := RemoveKeyCorrected(w, s, key, None, changeSet).session.db;
      WellKeyed(db) && Consistent(db)
  {
    var db := RemoveKeyCorrected(w, s, key, None, changeSet).session.db;
    var gone := IdsOf(KeyRows(s.db, key));
    KeyRowsOwned(s.db, key, gone, []);
    AllRowsGone(s.db, key);
    assert BulkDropped(s.db, db, key, gone);
    BulkDropKeepsConsistent(s.db, db, key, gone);
  }

  /** The corrected bulk `remove` with variants deletes the matched rows,
      and the key when nothing of it is left. */
  lemma RemoveSomeCorrectedKeepsConsistent(w: JpaDao.Wiring, s: Session, key: string, kv: KeyValues, changeSet: Option<string>)
    requires WellKeyed(s.db) && Consistent(s.db)
    requires !JavaText.IsBlank(key) && s.hasFactory && HasKey(s.db, key) && w.typedQuery && Count(s.db.rows, key) > 0
    requires kv.variants.Some? && |kv.variants.value| > 0
    ensures var db := RemoveKeyCorrected(w, s, key, Some(kv), changeSet).session.db;
      WellKeyed(db) && Consistent(db)
  {
    var db := RemoveKeyCorrected(w, s, key, Some(kv), changeSet).session.db;
    var vs := kv.variants.value;
    var gone := MatchedIds(KeyRows(s.db, key), vs);
    KeyRowsOwned(s.db, key, gone, vs);
    NoneLeftIffSwept(s.db, key, vs);
    assert BulkDropped(s.db, db, key, gone);
    BulkDropKeepsConsistent(s.db, db, key, gone);
  }

  /** The corrected bulk `remove` keeps a well-keyed store consistent. */
  lemma RemoveKeyCorrectedKeepsConsistent(w: JpaDao.Wiring, s: Session, key: string, kv: Option<KeyValues>, changeSet: Option<string>)
    requires WellKeyed(s.db) && Consistent(s.db)
    ensures var db := RemoveKeyCorrected(w, s, key, kv, changeSet).session.db;
      WellKeyed(db) && Consistent(db)
  {
    var o := RemoveKeyCorrected(w, s, key, kv, changeSet);
    if o.session.db != s.db {
      assert !JavaText.IsBlank(key) && s.hasFactory && HasKey(s.db, key) && w.typedQuery;
      var i :| 0 <= i < |s.db.keys| && s.db.keys[i].id == key;
      assert Count(s.db.rows, key) > 0;
      if kv.None? {
        RemoveAllCorrectedKeepsConsistent(w, s, key, changeSet);
      } else {
        RemoveSomeCorrectedKeepsConsistent(w, s, key, kv.value, changeSet);
      }
    }
  }

  // -------------------------------------------------------- store, as written

  /** The committed state with no key and no row. */
  const Empty: Store := Store([], [], 0)

  /** `store` of an empty variant set on an absent key: the key is created,
      the validation fails, and `end()` commits the key without any row. */
  lemma StoreCommitsEmptyKey()
    ensures var o := StoreKey(JpaDao.Wired, Session(true, Empty, Idle, []), "k", Some(KeyValues(None, Some([]))), None);
      && WellKeyed(Empty) && Consistent(Empty)
      && o.result == Err(EmptyValues)
      && HasKey(o.session.db, "k") && Count(o.session.db.rows, "k") == 0
      && !Consistent(o.session.db)
  {
    assert !JavaText.IsWhitespace("k"[0]);
    var o := StoreKey(JpaDao.Wired, Session(true, Empty, Idle, []), "k", Some(KeyValues(None, Some([]))), None);
    assert o.session.db.keys == [KeyRecord("k", None)];
    assert o.session.db.keys[0].id == "k";
  }

  /** `store` of a variant of another change set on an absent key succeeds,
      stores nothing, and commits the key without any row. */
  lemma StoreOtherChangeSetCommitsEmptyKey()
    ensures var vs := [Variant(Some("p1"), Some(v1), Some("a"))];
      var o := StoreKey(JpaDao.Wired, Session(true, Empty, Idle, []), "k", Some(KeyValues(None, Some(vs))), None);
      && o.result == Ok(())
      && HasKey(o.session.db, "k") && Count(o.session.db.rows, "k") == 0
      && !Consistent(o.session.db)
  {
    assert !JavaText.IsWhitespace("k"[0]);
    var vs := [Variant(Some("p1"), Some(v1), Some("a"))];
    assert !InTarget(vs[0], None);
    assert vs[1..] == [];
    var s1 := Begin(Session(true, Empty, Idle, [])).value;
    var s2 := PersistActive(s1, KeyEntity(KeyRecord("k", None)));
    StoreValuesQuiet(JpaDao.Wired, s2, KeyRecord("k", None), vs, None);
    var o := StoreKey(JpaDao.Wired, Session(true, Empty, Idle, []), "k", Some(KeyValues(None, Some(vs))), None);
    assert o.session.db == s2.phase.pending;
    assert o.session.db.keys == [KeyRecord("k", None)];
    assert o.session.db.keys[0].id == "k";
  }

  /** Two variants of one change set with one pattern: the loop looks each
      up in the committed state, finds nothing either time and inserts
      twice. The identity then holds two rows, which is why the settling
      laws of `store` need `DistinctTargets`. */
  lemma StoreDuplicatePatternInsertsTwice()
    ensures var vs := [Variant(Some("p1"), Some(v1), None), Variant(Some("p1"), Some(v2), None)];
      var o := StoreKey(JpaDao.Wired, Session(true, Empty, Idle, []), "k", Some(KeyValues(None, Some(vs))), None);
      && !DistinctTargets(vs, None)
      && o.result == Ok(())
      && |Select(o.session.db.rows, Identity("k", "p1", ""))| == 2
  {
    assert !JavaText.IsWhitespace("k"[0]);
    var vs := [Variant(Some("p1"), Some(v1), None), Variant(Some("p1"), Some(v2), None)];
    assert vs[0].pattern == vs[1].pattern && InTarget(vs[0], None) && InTarget(vs[1], None);
    var k := KeyRecord("k", None);
    var s1 := Begin(Session(true, Empty, Idle, [])).value;
    var s2 := PersistActive(s1, KeyEntity(k));
    assert s2.db == Empty;
    var o1 := StoreRopertyValue(JpaDao.Wired, s2, k, "p1", Some(v1), "");
    assert o1.session == PersistActive(s2, RowEntity(ValueRow(0, "k", Some("p1"), Some(v1), Some(""))));
    var o2 := StoreRopertyValue(JpaDao.Wired, o1.session, k, "p1", Some(v2), "");
    assert o2.session == PersistActive(o1.session, RowEntity(ValueRow(0, "k", Some("p1"), Some(v2), Some(""))));
    assert EmptyWhenNull(None) == "" && o1.result == Ok(()) && o2.result == Ok(());
    assert vs[1..][0] == vs[1] && vs[1..][1..] == [];
    assert StoreDomainSpecificValues(JpaDao.Wired, o2.session, k, [], None) == Outcome(o2.session, Ok(()));
    assert StoreDomainSpecificValues(JpaDao.Wired, o1.session, k, vs[1..], None) == Outcome(o2.session, Ok(()));
    assert StoreDomainSpecificValues(JpaDao.Wired, s2, k, vs, None) == Outcome(o2.session, Ok(()));
    var rows := o2.session.phase.pending.rows;
    assert |rows| == 2 && Holds(Identity("k", "p1", ""), rows[0]) && Holds(Identity("k", "p1", ""), rows[1]);
    assert rows[1..][1..] == [];
    assert Select(rows, Identity("k", "p1", "")) == rows;
  }

  // --------------------------------------------------------- store, corrected

  /** Some variant belongs to the stored change set. */
  predicate AnyTarget(vs: seq<Variant>, changeSet: Option<string>) {
    exists i :: 0 <= i < |vs| && InTarget(vs[i], changeSet)
  }

  /** `store` that validates the variant set before touching the key table,
      and creates the key only when some variant will be stored under it. */
  function StoreKeyCorrected(w: JpaDao.Wiring, s: Session, key: string, kv: Option<KeyValues>, changeSet: Option<string>): (o: Outcome<()>)
    ensures JavaText.IsBlank(key) ==> o == Outcome(s, Err(BlankKey))
    ensures !JavaText.IsBlank(key) && kv.None? ==> o == Outcome(s, Err(NullArgument))
    ensures o.result.Ok? ==> o.session.phase == Idle
    ensures o.result.Err? ==> o.session.db == s.db
    ensures o.result.Ok? ==> (kv.Some? && kv.value.variants.Some? && |kv.value.variants.value| > 0 &&
      forall i :: 0 <= i < |kv.value.variants.value| ==> kv.value.variants.value[i].pattern.Some?)
    ensures o.result.Ok? && !AnyTarget(kv.value.variants.value, changeSet) && !HasKey(s.db, key) ==> o.session.db == s.db
  {
    if JavaText.IsBlank(key) then Outcome(s, Err(BlankKey))
    else if kv.None? then Outcome(s, Err(NullArgument))
    else
      var b := Begin(s);
      if b.Err? then Outcome(s, Err(b.error))
      else
        var s1 := b.value;
        match kv.value.variants
        case None => Outcome(EndActive(s1), Err(NullValues))
        case Some(vs) =>
          if |vs| == 0 then Outcome(EndActive(s1), Err(EmptyValues))
          else if exists i :: 0 <= i < |vs| && vs[i].pattern.None? then Outcome(EndActive(s1), Err(NullPattern))
          else
            var found := JpaDao.LoadRopertyKey(s1.db, key).result.value;
            if found.None? && !AnyTarget(vs, changeSet) then Outcome(EndActive(s1), Ok(()))
            else
              var k := if found.None? then KeyRecord(key, kv.value.description) else found.value;
              var s2 := if found.None? then PersistActive(s1, KeyEntity(k)) else s1;
              var o := StoreDomainSpecificValues(w, s2, k, vs, changeSet);
              if o.result.Err? then o else Outcome(EndActive(o.session), Ok(()))
  }

  /** Where the corrected `store` writes anything, it does what `store`
      does. */
  lemma StoreCorrectedAgrees(w: JpaDao.Wiring, s: Session, key: string, kv: Option<KeyValues>, changeSet: Option<string>)
    requires StoreKeyCorrected(w, s, key, kv, changeSet).result.Ok?
    requires AnyTarget(kv.value.variants.value, changeSet) || HasKey(s.db, key)
    ensures StoreKeyCorrected(w, s, key, kv, changeSet) == StoreKey(w, s, key, kv, changeSet)
  {
  }

  /** A settled identity is a row of the key. */
  lemma SettledCounts(rows: seq<ValueRow>, key: string, pattern: string, changeSet: string, value: Option<Value>)
    requires Settled(rows, key, pattern, changeSet, value)
    ensures Count(rows, key) > 0
  {
    var sel := Select(rows, Identity(key, pattern, changeSet));
    assert sel[0] in sel;
    CountPositive(rows, key, sel[0]);
  }

  /** A corrected `store` that stores some variant leaves a row of the key. */
  lemma StoreCorrectedTargetHasRow(w: JpaDao.Wiring, s: Session, key: string, kv: Option<KeyValues>, changeSet: Option<string>)
    requires WellKeyed(s.db)
    requires kv.Some? && kv.value.variants.Some? && DistinctTargets(kv.value.variants.value, changeSet)
    requires StoreKeyCorrected(w, s, key, kv, changeSet).result.Ok? && AnyTarget(kv.value.variants.value, changeSet)
    ensures Count(StoreKeyCorrected(w, s, key, kv, changeSet).session.db.rows, key) > 0
  {
    var o := StoreKeyCorrected(w, s, key, kv, changeSet);
    var vs := kv.value.variants.value;
    StoreCorrectedAgrees(w, s, key, kv, changeSet);
    StoreSettles(w, s, key, kv, changeSet);
    var i :| 0 <= i < |vs| && InTarget(vs[i], changeSet);
    SettledCounts(o.session.db.rows, key, vs[i].pattern.value, EmptyWhenNull(changeSet), vs[i].value);
  }

  /** A corrected `store` that stores nothing under an existing key
      changes nothing. */
  lemma StoreCorrectedQuiet(w: JpaDao.Wiring, s: Session, key: string, kv: Option<KeyValues>, changeSet: Option<string>)
    requires kv.Some? && kv.value.variants.Some? && !AnyTarget(kv.value.variants.value, changeSet) && HasKey(s.db, key)
    requires StoreKeyCorrected(w, s, key, kv, changeSet).result.Ok?
    ensures StoreKeyCorrected(w, s, key, kv, changeSet).session.db == s.db
  {
    var s1 := Begin(s).value;
    var k := JpaDao.LoadRopertyKey(s1.db, key).result.value.value;
    StoreValuesQuiet(w, s1, k, kv.value.variants.value, changeSet);
  }

  /** The corrected `store` never leaves the stored key without a row. */
  lemma StoreCorrectedKeyHasRows(w: JpaDao.Wiring, s: Session, key: string, kv: Option<KeyValues>, changeSet: Option<string>)
    requires WellKeyed(s.db) && Consistent(s.db)
    requires kv.Some? && kv.value.variants.Some? && DistinctTargets(kv.value.variants.value, changeSet)
    ensures var db := StoreKeyCorrected(w, s, key, kv, changeSet).session.db;
      HasKey(db, key) ==> Count(db.rows, key) > 0
  {
    var o := StoreKeyCorrected(w, s, key, kv, changeSet);
    var vs := kv.value.variants.value;
    if HasKey(s.db, key) {
      var j :| 0 <= j < |s.db.keys| && s.db.keys[j].id == key;
    }
    if o.result.Ok? && AnyTarget(vs, changeSet) {
      StoreCorrectedTargetHasRow(w, s, key, kv, changeSet);
    } else if o.result.Ok? && HasKey(s.db, key) {
      StoreCorrectedQuiet(w, s, key, kv, changeSet);
    }
  }
}
