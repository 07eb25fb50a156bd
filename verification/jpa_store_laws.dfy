/**
 * What a successful `store` of the `jpa` engine leaves behind: every
 * variant of the stored change set is found under its lookup identity with
 * the stored value, lookups of other patterns see what they saw before, and
 * storing the same aggregate again writes nothing.
 */
module JpaStoreLaws {
  import opened Wrappers
  import opened Entities
  import opened Query
  import opened Stores
  import opened ChangeSets
  import opened Transactions
  import JavaText
  import JpaDao
  import opened JpaEngine

  /** The lookup of `(key, pattern, changeSet)` finds exactly one row, and
      it holds `value`. */
  predicate Settled(rows: seq<ValueRow>, key: string, pattern: string, changeSet: string, value: Option<Value>) {
    var found := Select(rows, Identity(key, pattern, changeSet));
    |found| == 1 && found[0].value == value
  }

  /** A new row appended by `persist` is found exactly by its own identity. */
  lemma AddRowSelect(p: Store, row: ValueRow, key: string, pattern: string, changeSet: string)
    requires row.key == key && row.changeSet == Some(changeSet) && row.pattern.Some?
    ensures Select(AddRow(p, row).rows, Identity(key, pattern, changeSet)) ==
      Select(p.rows, Identity(key, pattern, changeSet)) + (if row.pattern == Some(pattern) then [row.(id := p.nextId)] else [])
  {
    SelectAppend(p.rows, [row.(id := p.nextId)], Identity(key, pattern, changeSet));
  }

  /** In a well-keyed store a member row is the only one with its id. */
  lemma OnlyRowWithId(p: Store, x: ValueRow)
    requires WellKeyed(p) && x in p.rows
    ensures forall i :: 0 <= i < |p.rows| && p.rows[i].id == x.id ==> p.rows[i] == x
  {
    var j :| 0 <= j < |p.rows| && p.rows[j] == x;
    forall i | 0 <= i < |p.rows| && p.rows[i].id == x.id
      ensures p.rows[i] == x
    {
      assert i == j;
    }
  }

  /** Merging over a member row keeps the ids, so the store stays well keyed. */
  lemma MergeRowWellKeyed(p: Store, x: ValueRow, m: ValueRow)
    requires WellKeyed(p) && x in p.rows && m.id == x.id
    ensures PutRow(p, m) == p.(rows := ReplaceRows(p.rows, m))
    ensures WellKeyed(PutRow(p, m))
  {
    assert HasRow(p, m.id);
    var r := ReplaceRows(p.rows, m);
    assert forall i :: 0 <= i < |r| ==> r[i].id == p.rows[i].id;
  }

  /** Merging `m` over the only row `x` with its id, where both answer the
      lookup `q`: the lookup now returns `m` where it returned `x`. */
  lemma MergeRowHit(p: Store, x: ValueRow, m: ValueRow, q: RowQuery)
    requires WellKeyed(p) && x in p.rows && m.id == x.id
    requires Holds(q, x) && Holds(q, m) && Select(p.rows, q) == [x]
    ensures Select(PutRow(p, m).rows, q) == [m]
  {
    MergeRowWellKeyed(p, x, m);
    OnlyRowWithId(p, x);
    SelectReplace(p.rows, m, q);
  }

  /** Merging `m` over the only row `x` with its id, where neither answers
      the lookup `q`: the lookup does not move. */
  lemma MergeRowMiss(p: Store, x: ValueRow, m: ValueRow, q: RowQuery)
    requires WellKeyed(p) && x in p.rows && m.id == x.id
    requires !Holds(q, x) && !Holds(q, m)
    ensures Select(PutRow(p, m).rows, q) == Select(p.rows, q)
  {
    MergeRowWellKeyed(p, x, m);
    OnlyRowWithId(p, x);
    SelectReplace(p.rows, m, q);
    var sel := Select(p.rows, q);
    assert forall i :: 0 <= i < |sel| ==> sel[i] in p.rows && Holds(q, sel[i]);
    ReplaceAbsent(sel, m);
  }

  /** The effect a successful `storeRopertyValue` must have on the pending
      state: still well keyed, its own identity settled with the stored
      value, no other pattern's lookup moved, and no row of another key or
      another change set added or lost. */
  ghost predicate StoredOne(before: Store, p: Store, key: string, pattern: string, value: Option<Value>, changeSet: string) {
    && WellKeyed(p)
    && Settled(p.rows, key, pattern, changeSet, value)
    && (forall other :: other != pattern ==>
         Select(p.rows, Identity(key, other, changeSet)) == Select(before.rows, Identity(key, other, changeSet)))
    && OthersKept(before, p, key, changeSet)
  }

  /** Every row outside the key's rows in the change set is in `after`
      exactly when it is in `before`. */
  ghost predicate OthersKept(before: Store, after: Store, key: string, changeSet: string) {
    forall x: ValueRow :: x.key != key || x.changeSet != Some(changeSet) ==> (x in after.rows <==> x in before.rows)
  }

  /** Keeping the other rows composes. */
  lemma OthersKeptTrans(a: Store, b: Store, c: Store, key: string, changeSet: string)
    requires OthersKept(a, b, key, changeSet) && OthersKept(b, c, key, changeSet)
    ensures OthersKept(a, c, key, changeSet)
  {
  }

  /** The insert path: nothing was found, so the new row is the only one. */
  lemma StoreValueInserts(w: JpaDao.Wiring, s: Session, k: KeyRecord, pattern: string, value: Option<Value>, changeSet: string)
    requires IsActive(s) && WellKeyed(s.phase.pending)
    requires Select(s.phase.pending.rows, Identity(k.id, pattern, changeSet)) == []
    requires Select(s.db.rows, Identity(k.id, pattern, changeSet)) == []
    requires StoreRopertyValue(w, s, k, pattern, value, changeSet).result.Ok?
    ensures StoredOne(s.phase.pending, StoreRopertyValue(w, s, k, pattern, value, changeSet).session.phase.pending, k.id, pattern, value, changeSet)
  {
    var before := s.phase.pending;
    var row := CreateRopertyValue(k, changeSet, value, pattern).value;
    var p := AddRow(before, row);
    assert StoreRopertyValue(w, s, k, pattern, value, changeSet).session.phase.pending == p;
    forall other | true
      ensures Select(p.rows, Identity(k.id, other, changeSet)) ==
        Select(before.rows, Identity(k.id, other, changeSet)) + (if other == pattern then [row.(id := before.nextId)] else [])
    {
      AddRowSelect(before, row, k.id, other, changeSet);
    }
  }

  /** The merge path: the one row found takes the value. */
  lemma StoreValueMerges(w: JpaDao.Wiring, s: Session, k: KeyRecord, pattern: string, value: Option<Value>, changeSet: string, x: ValueRow)
    requires IsActive(s) && WellKeyed(s.phase.pending)
    requires Select(s.phase.pending.rows, Identity(k.id, pattern, changeSet)) == [x]
    requires Select(s.db.rows, Identity(k.id, pattern, changeSet)) == [x]
    requires StoreRopertyValue(w, s, k, pattern, value, changeSet).result.Ok?
    ensures StoredOne(s.phase.pending, StoreRopertyValue(w, s, k, pattern, value, changeSet).session.phase.pending, k.id, pattern, value, changeSet)
  {
    var before := s.phase.pending;
    assert x in before.rows && Holds(Identity(k.id, pattern, changeSet), x);
    var m := MergeRopertyValue(x, changeSet, value).value;
    if m.changed {
      assert StoreRopertyValue(w, s, k, pattern, value, changeSet).session.phase.pending == PutRow(before, m.row);
      MergeRowWellKeyed(before, x, m.row);
      MergeRowHit(before, x, m.row, Identity(k.id, pattern, changeSet));
      forall other | other != pattern
        ensures Select(PutRow(before, m.row).rows, Identity(k.id, other, changeSet)) == Select(before.rows, Identity(k.id, other, changeSet))
      {
        MergeRowMiss(before, x, m.row, Identity(k.id, other, changeSet));
      }
    } else {
      assert StoreRopertyValue(w, s, k, pattern, value, changeSet).session.phase.pending == before;
    }
  }

  /** One `storeRopertyValue` that succeeds, when the pending state still
      answers the lookup as the committed state does. */
  lemma StoreValueSettles(w: JpaDao.Wiring, s: Session, k: KeyRecord, pattern: string, value: Option<Value>, changeSet: string)
    requires IsActive(s) && WellKeyed(s.phase.pending)
    requires Select(s.phase.pending.rows, Identity(k.id, pattern, changeSet)) == Select(s.db.rows, Identity(k.id, pattern, changeSet))
    requires StoreRopertyValue(w, s, k, pattern, value, changeSet).result.Ok?
    ensures StoredOne(s.phase.pending, StoreRopertyValue(w, s, k, pattern, value, changeSet).session.phase.pending, k.id, pattern, value, changeSet)
  {
    var found := Select(s.db.rows, Identity(k.id, pattern, changeSet));
    if |found| == 0 {
      StoreValueInserts(w, s, k, pattern, value, changeSet);
    } else {
      assert found == [found[0]];
      StoreValueMerges(w, s, k, pattern, value, changeSet, found[0]);
    }
  }
  /** The variants of the stored change set carry distinct patterns, as a
      `KeyValues` holds one value per pattern and change set. */
  predicate DistinctTargets(vs: seq<Variant>, changeSet: Option<string>) {
    forall i, j :: 0 <= i < j < |vs| && InTarget(vs[i], changeSet) && InTarget(vs[j], changeSet) ==> vs[i].pattern != vs[j].pattern
  }

  /** Some variant of the stored change set has this pattern. */
  predicate Targets(vs: seq<Variant>, changeSet: Option<string>, pattern: string) {
    exists i :: 0 <= i < |vs| && InTarget(vs[i], changeSet) && vs[i].pattern == Some(pattern)
  }

  /** The pending state answers every targeted lookup as the committed one. */
  ghost predicate Unwritten(s: Session, k: KeyRecord, vs: seq<Variant>, changeSet: Option<string>)
    requires IsActive(s)
  {
    forall i :: 0 <= i < |vs| && InTarget(vs[i], changeSet) && vs[i].pattern.Some? ==>
      Select(s.phase.pending.rows, Identity(k.id, vs[i].pattern.value, EmptyWhenNull(changeSet))) ==
      Select(s.db.rows, Identity(k.id, vs[i].pattern.value, EmptyWhenNull(changeSet)))
  }

  /** What the tail of a variant list targets, the whole list targets. */
  lemma TailTargets(vs: seq<Variant>, changeSet: Option<string>)
    requires |vs| > 0
    ensures DistinctTargets(vs, changeSet) ==> DistinctTargets(vs[1..], changeSet)
    ensures forall other :: Targets(vs[1..], changeSet, other) ==> Targets(vs, changeSet, other)
  {
    assert forall i :: 1 <= i < |vs| ==> vs[i] == vs[1..][i - 1];
  }

  /** With distinct targets, the head's pattern is not targeted again. */
  lemma HeadNotInTail(vs: seq<Variant>, changeSet: Option<string>)
    requires |vs| > 0 && DistinctTargets(vs, changeSet) && InTarget(vs[0], changeSet)
    ensures forall j :: 0 <= j < |vs| - 1 && InTarget(vs[1..][j], changeSet) ==> vs[1..][j].pattern != vs[0].pattern
  {
    forall j | 0 <= j < |vs| - 1 && InTarget(vs[1..][j], changeSet)
      ensures vs[1..][j].pattern != vs[0].pattern
    {
      assert vs[1..][j] == vs[j + 1];
    }
  }

  /** The first variant, of the stored change set, written: its identity is
      settled, and the lookups the rest of the list issues are still
      unwritten. */
  lemma HeadStored(w: JpaDao.Wiring, s: Session, k: KeyRecord, vs: seq<Variant>, changeSet: Option<string>)
    requires IsActive(s) && WellKeyed(s.phase.pending) && |vs| > 0
    requires DistinctTargets(vs, changeSet) && Unwritten(s, k, vs, changeSet)
    requires InTarget(vs[0], changeSet) && vs[0].pattern.Some?
    requires StoreRopertyValue(w, s, k, vs[0].pattern.value, vs[0].value, EmptyWhenNull(changeSet)).result.Ok?
    ensures var o1 := StoreRopertyValue(w, s, k, vs[0].pattern.value, vs[0].value, EmptyWhenNull(changeSet));
      && IsActive(o1.session)
      && StoredOne(s.phase.pending, o1.session.phase.pending, k.id, vs[0].pattern.value, vs[0].value, EmptyWhenNull(changeSet))
      && Unwritten(o1.session, k, vs[1..], changeSet)
      && !Targets(vs[1..], changeSet, vs[0].pattern.value)
  {
    var c := EmptyWhenNull(changeSet);
    var p0 := vs[0].pattern.value;
    StoreValueSettles(w, s, k, p0, vs[0].value, c);
    TailTargets(vs, changeSet);
    HeadNotInTail(vs, changeSet);
  }

  /** A successful `storeDomainSpecificValues` settles every variant of the
      stored change set under its identity, and moves no lookup of a
      pattern it does not target. */
  lemma {:induction false} StoreValuesSettle(w: JpaDao.Wiring, s: Session, k: KeyRecord, vs: seq<Variant>, changeSet: Option<string>)
    requires IsActive(s) && WellKeyed(s.phase.pending)
    requires DistinctTargets(vs, changeSet) && Unwritten(s, k, vs, changeSet)
    requires StoreDomainSpecificValues(w, s, k, vs, changeSet).result.Ok?
    ensures var o := StoreDomainSpecificValues(w, s, k, vs, changeSet);
      var c := EmptyWhenNull(changeSet);
      && IsActive(o.session)
      && WellKeyed(o.session.phase.pending)
      && (forall i :: 0 <= i < |vs| && InTarget(vs[i], changeSet) ==>
            w.typedQuery && Settled(o.session.phase.pending.rows, k.id, vs[i].pattern.value, c, vs[i].value))
      && (forall other :: !Targets(vs, changeSet, other) ==>
            Select(o.session.phase.pending.rows, Identity(k.id, other, c)) == Select(s.phase.pending.rows, Identity(k.id, other, c)))
      && OthersKept(s.phase.pending, o.session.phase.pending, k.id, c)
    decreases |vs|
  {
    var c := EmptyWhenNull(changeSet);
    if |vs| > 0 {
      var v := vs[0];
      var tail := vs[1..];
      TailTargets(vs, changeSet);
      var o := StoreDomainSpecificValues(w, s, k, vs, changeSet);
      if InTarget(v, changeSet) {
        var p0 := v.pattern.value;
        var o1 := StoreRopertyValue(w, s, k, p0, v.value, c);
        assert o == StoreDomainSpecificValues(w, o1.session, k, tail, changeSet);
        HeadStored(w, s, k, vs, changeSet);
        StoreValuesSettle(w, o1.session, k, tail, changeSet);
        OthersKeptTrans(s.phase.pending, o1.session.phase.pending, o.session.phase.pending, k.id, c);
      } else {
        assert o == StoreDomainSpecificValues(w, s, k, tail, changeSet);
        assert forall i :: 1 <= i < |vs| ==> vs[i] == tail[i - 1];
        assert Unwritten(s, k, tail, changeSet);
        StoreValuesSettle(w, s, k, tail, changeSet);
      }
    }
  }
  /** `store` on a well-keyed store: when it succeeds, every variant of the
      stored change set is found under `(key, pattern, emptyWhenNull(changeSet))`
      exactly once with its value, lookups of the key's other patterns in
      that change set are as before, no row of another key or another change
      set is added or lost, and the key table gains at most the new key. */
  lemma StoreSettles(w: JpaDao.Wiring, s: Session, key: string, kv: Option<KeyValues>, changeSet: Option<string>)
    requires WellKeyed(s.db)
    requires kv.Some? && kv.value.variants.Some? && DistinctTargets(kv.value.variants.value, changeSet)
    requires StoreKey(w, s, key, kv, changeSet).result.Ok?
    ensures var db := StoreKey(w, s, key, kv, changeSet).session.db;
      var vs := kv.value.variants.value;
      var c := EmptyWhenNull(changeSet);
      && WellKeyed(db)
      && (forall i :: 0 <= i < |vs| && InTarget(vs[i], changeSet) ==>
            w.typedQuery && Settled(db.rows, key, vs[i].pattern.value, c, vs[i].value))
      && (forall other :: !Targets(vs, changeSet, other) ==>
            Select(db.rows, Identity(key, other, c)) == Select(s.db.rows, Identity(key, other, c)))
      && OthersKept(s.db, db, key, c)
      && (db.keys == s.db.keys || db.keys == s.db.keys + [KeyRecord(key, kv.value.description)])
  {
    var vs := kv.value.variants.value;
    var s1 := Begin(s).value;
    var found := JpaDao.LoadRopertyKey(s1.db, key).result.value;
    var k := if found.None? then KeyRecord(key, kv.value.description) else found.value;
    var s2 := if found.None? then PersistActive(s1, KeyEntity(k)) else s1;
    assert s2.phase.pending.rows == s.db.rows && s2.phase.pending.nextId == s.db.nextId && s2.db == s.db;
    var o := StoreDomainSpecificValues(w, s2, k, vs, changeSet);
    assert StoreKey(w, s, key, kv, changeSet) == Outcome(EndActive(o.session), Ok(()));
    StoreValuesSettle(w, s2, k, vs, changeSet);
  }

  /** With every target settled in the committed state, storing the
      variants again issues no write at all. */
  lemma {:induction false} StoreValuesQuiet(w: JpaDao.Wiring, s: Session, k: KeyRecord, vs: seq<Variant>, changeSet: Option<string>)
    requires IsActive(s)
    requires forall i :: 0 <= i < |vs| ==> vs[i].pattern.Some?
    requires forall i :: 0 <= i < |vs| && InTarget(vs[i], changeSet) ==>
      w.typedQuery && Settled(s.db.rows, k.id, vs[i].pattern.value, EmptyWhenNull(changeSet), vs[i].value)
    ensures StoreDomainSpecificValues(w, s, k, vs, changeSet) == Outcome(s, Ok(()))
    decreases |vs|
  {
    if |vs| > 0 {
      var v := vs[0];
      assert forall i :: 1 <= i < |vs| ==> vs[i] == vs[1..][i - 1];
      if InTarget(v, changeSet) {
        var c := EmptyWhenNull(changeSet);
        var found := Select(s.db.rows, Identity(k.id, v.pattern.value, c));
        assert Holds(Identity(k.id, v.pattern.value, c), found[0]);
        assert StoreRopertyValue(w, s, k, v.pattern.value, v.value, c) == Outcome(s, Ok(()));
      }
      StoreValuesQuiet(w, s, k, vs[1..], changeSet);
    }
  }

  /** Repeating a successful `store` with the same arguments writes
      nothing: the committed state stays, and the second call only opens and
      commits a transaction. */
  lemma StoreIsIdempotent(w: JpaDao.Wiring, s: Session, key: string, kv: Option<KeyValues>, changeSet: Option<string>)
    requires WellKeyed(s.db)
    requires kv.Some? && kv.value.variants.Some? && DistinctTargets(kv.value.variants.value, changeSet)
    requires StoreKey(w, s, key, kv, changeSet).result.Ok?
    ensures var once := StoreKey(w, s, key, kv, changeSet).session;
      var twice := StoreKey(w, once, key, kv, changeSet);
      && twice.result == Ok(())
      && twice.session.db == once.db
      && twice.session.log == once.log + [BeginOp, CommitOp]
  {
    var once := StoreKey(w, s, key, kv, changeSet).session;
    var vs := kv.value.variants.value;
    StoreSettles(w, s, key, kv, changeSet);
    assert once.hasFactory;
    var s1 := Begin(once).value;
    var k := JpaDao.LoadRopertyKey(s1.db, key).result.value.value;
    StoreValuesQuiet(w, s1, k, vs, changeSet);
    assert StoreKey(w, once, key, kv, changeSet) == Outcome(EndActive(s1), Ok(()));
  }
}
