/**
 * `store` of the first generation. Rows are identified by key and pattern
 * only; every variant is written whatever its own change-set tag, under the
 * change set of the call; a new row stores `nullWhenEmpty(changeSet)`, while
 * the merge compares the stored change set with the raw argument.
 */
module LegacyStore {
  import opened Wrappers
  import opened Entities
  import opened Query
  import opened Stores
  import opened ChangeSets
  import opened Transactions
  import JavaText
  import JpaDao
  import JpaEngine
  import JpaStoreLaws
  import LegacyDao

  // ---------------------------------------------------------------- merge

  /** The change set a merge leaves on the row: kept when it equals the
      argument, `nullWhenEmpty(changeSet)` otherwise. */
  function MergedChangeSet(stored: Option<string>, changeSet: Option<string>): Option<string> {
    if stored == changeSet then stored else NullWhenEmpty(changeSet)
  }

  /** The merge step of the legacy `store`: bring change set and value of a
      found row up to date and report whether anything differed. A null
      value is accepted; a non-serializable one that differs is refused. */
  function MergeRow(original: ValueRow, changeSet: Option<string>, newValue: Option<Value>): (r: Result<JpaEngine.Merge, Error>)
    ensures r.Err? <==> original.value != newValue && newValue.Some? && !IsStorable(newValue.value)
    ensures r.Err? ==> r.error == CannotSerialize
    ensures r.Ok? ==> r.value.row.id == original.id && r.value.row.key == original.key && r.value.row.pattern == original.pattern
    ensures r.Ok? ==> r.value.row.value == newValue
    ensures r.Ok? ==> (r.value.row.changeSet == changeSet || r.value.row.changeSet == NullWhenEmpty(changeSet))
    ensures r.Ok? ==> (r.value.changed <==> original.changeSet != changeSet || original.value != newValue)
  {
    var changed := original.changeSet != changeSet;
    var row := original.(changeSet := MergedChangeSet(original.changeSet, changeSet));
    if original.value == newValue then Ok(JpaEngine.Merge(row, changed))
    else if newValue.None? then Ok(JpaEngine.Merge(row.(value := None), true))
    else if IsStorable(newValue.value) then Ok(JpaEngine.Merge(row.(value := newValue), true))
    else Err(CannotSerialize)
  }

  /** Merging the merged row again with the same arguments changes nothing,
      except under the empty change set: the row then holds null, which
      never equals `""`, so every later merge reports a change. */
  lemma MergeAgain(original: ValueRow, changeSet: Option<string>, newValue: Option<Value>)
    requires MergeRow(original, changeSet, newValue).Ok?
    ensures var once := MergeRow(original, changeSet, newValue).value.row;
      MergeRow(once, changeSet, newValue).Ok? &&
      (MergeRow(once, changeSet, newValue).value.changed <==> changeSet == Some("") && original.changeSet != Some(""))
  {
  }

  /** Under the empty change set, a row `store` inserted is merged by every
      later `store`. */
  lemma EmptyChangeSetAlwaysMerges(original: ValueRow, newValue: Option<Value>)
    requires original.changeSet == NullWhenEmpty(Some(""))
    requires MergeRow(original, Some(""), newValue).Ok?
    ensures MergeRow(original, Some(""), newValue).value.changed
  {
  }

  /** Merging a null value over a stored one leaves a row the schema's
      non-nullable value column refuses. */
  lemma MergeToNullBreaksSchema(original: ValueRow, changeSet: Option<string>)
    requires original.value.Some?
    ensures MergeRow(original, changeSet, None).Ok?
    ensures !ColumnsOk(MergeRow(original, changeSet, None).value.row)
  {
  }

  // --------------------------------------------------------- rows written

  /** Every row of `after` is a row of `before` or a row of `key` written
      under the change set of the call, raw or as `nullWhenEmpty`. */
  ghost predicate RowsWritten(before: Store, after: Store, key: string, changeSet: Option<string>) {
    forall x :: x in after.rows ==>
      x in before.rows || (x.key == key && (x.changeSet == changeSet || x.changeSet == NullWhenEmpty(changeSet)))
  }

  lemma PutRowMembers(p: Store, m: ValueRow)
    ensures forall x :: x in PutRow(p, m).rows ==> x in p.rows || x == m
  {
    if HasRow(p, m.id) {
      var r := ReplaceRows(p.rows, m);
      forall x | x in r
        ensures x in p.rows || x == m
      {
        var i :| 0 <= i < |r| && r[i] == x;
      }
    }
  }

  // ---------------------------------------------------------------- store

  /** One variant of the loop: look the row up by key and pattern in the
      committed state; insert when there is none, merge when it differs.
      A failure leaves the transaction open. */
  function StoreVariant(s: Session, k: KeyRecord, v: Variant, changeSet: Option<string>): (o: Outcome<()>)
    requires IsActive(s) && v.pattern.Some?
    ensures IsActive(o.session) && o.session.db == s.db && o.session.hasFactory == s.hasFactory
    ensures o.result.Err? ==> o.session == s
    ensures o.result.Err? ==> o.result.error == MultipleResults || o.result.error == CannotSerialize
    ensures o.session.phase.pending.keys == s.phase.pending.keys
    ensures RowsWritten(s.phase.pending, o.session.phase.pending, k.id, changeSet)
    ensures var found := Select(s.db.rows, ByKeyPattern(k.id, v.pattern));
      && (|found| > 1 ==> o.result == Err(MultipleResults))
      && (|found| == 0 ==> (o.result.Ok? <==> StorableValue(v.value)))
      && (|found| == 0 && o.result.Ok? ==>
            o.session.phase.pending == AddRow(s.phase.pending, ValueRow(0, k.id, v.pattern, v.value, NullWhenEmpty(changeSet))))
      && (|found| == 1 && found[0].changeSet == changeSet && found[0].value == v.value ==> o == Outcome(s, Ok(())))
      && (|found| == 1 ==> (o.result.Ok? <==> MergeRow(found[0], changeSet, v.value).Ok?))
      && (|found| == 1 && o.result.Ok? && MergeRow(found[0], changeSet, v.value).value.changed ==>
            o.session.phase.pending == PutRow(s.phase.pending, MergeRow(found[0], changeSet, v.value).value.row))
      && (|found| == 1 && o.result.Ok? && !MergeRow(found[0], changeSet, v.value).value.changed ==> o == Outcome(s, Ok(())))
  {
    var a := LegacyDao.LoadRopertyValue(s.db, k, v.pattern);
    if a.Err? then Outcome(s, Err(a.error))
    else if a.value.None? then
      if StorableValue(v.value) then
        Outcome(PersistActive(s, RowEntity(ValueRow(0, k.id, v.pattern, v.value, NullWhenEmpty(changeSet)))), Ok(()))
      else Outcome(s, Err(CannotSerialize))
    else
      var x := a.value.value;
      assert Holds(ByKeyPattern(k.id, v.pattern), x);
      var m := MergeRow(x, changeSet, v.value);
      if m.Err? then Outcome(s, Err(m.error))
      else if m.value.changed then
        PutRowMembers(s.phase.pending, m.value.row);
        Outcome(MergeActive(s, RowEntity(m.value.row)), Ok(()))
      else Outcome(s, Ok(()))
  }

  /** The loop over the variant set: every variant needs a pattern, and a
      missing one ends the transaction before throwing; other failures
      leave it open. */
  function StoreVariants(s: Session, k: KeyRecord, vs: seq<Variant>, changeSet: Option<string>): (o: Outcome<()>)
    requires IsActive(s)
    ensures o.session.hasFactory == s.hasFactory
    ensures o.session.phase == Idle <==> o.result == Err(NullPattern)
    ensures o.result.Err? ==> o.result.error in {MultipleResults, CannotSerialize, NullPattern}
    ensures IsActive(o.session) ==> o.session.db == s.db
    ensures o.session.phase == Idle ==> o.session.db.keys == s.phase.pending.keys
    ensures IsActive(o.session) ==> o.session.phase.pending.keys == s.phase.pending.keys
    ensures IsActive(o.session) ==> RowsWritten(s.phase.pending, o.session.phase.pending, k.id, changeSet)
    ensures o.result.Ok? ==> forall i :: 0 <= i < |vs| ==> vs[i].pattern.Some?
    decreases |vs|
  {
    if |vs| == 0 then Outcome(s, Ok(()))
    else
      var v := vs[0];
      assert forall i :: 1 <= i < |vs| ==> vs[i] == vs[1..][i - 1];
      if v.pattern.None? then Outcome(EndActive(s), Err(NullPattern))
      else
        var o := StoreVariant(s, k, v, changeSet);
        if o.result.Err? then o
        else
          StoreVariants(o.session, k, vs[1..], changeSet)
  }

  /** The loop never reads a variant's own change-set tag: retagging the
      variants gives the same outcome. */
  lemma {:induction false} StoreIgnoresTags(s: Session, k: KeyRecord, vs: seq<Variant>, tags: seq<Option<string>>, changeSet: Option<string>)
    requires IsActive(s) && |tags| == |vs|
    ensures StoreVariants(s, k, vs, changeSet) ==
      StoreVariants(s, k, seq(|vs|, i requires 0 <= i < |vs| => vs[i].(changeSet := tags[i])), changeSet)
    decreases |vs|
  {
    var retagged := seq(|vs|, i requires 0 <= i < |vs| => vs[i].(changeSet := tags[i]));
    if |vs| > 0 {
      var rest := seq(|vs| - 1, i requires 0 <= i < |vs| - 1 => vs[1..][i].(changeSet := tags[1..][i]));
      assert retagged[1..] == rest;
      if vs[0].pattern.Some? {
        assert StoreVariant(s, k, vs[0], changeSet) == StoreVariant(s, k, retagged[0], changeSet);
        var o := StoreVariant(s, k, vs[0], changeSet);
        if o.result.Ok? {
          StoreIgnoresTags(o.session, k, vs[1..], tags[1..], changeSet);
        }
      }
    }
  }

  /** The legacy `store`: open a transaction, create the key when it is
      absent, validate the variant set and write every variant, then
      commit. */
  function StoreKey(s: Session, key: string, kv: Option<KeyValues>, changeSet: Option<string>): (o: Outcome<()>)
    ensures JavaText.IsBlank(key) ==> o == Outcome(s, Err(BlankKey))
    ensures !JavaText.IsBlank(key) && kv.None? ==> o == Outcome(s, Err(NullArgument))
    ensures !JavaText.IsBlank(key) && kv.Some? && !s.hasFactory ==> o == Outcome(s, Err(NoFactory))
    ensures !JavaText.IsBlank(key) && kv.Some? && s.hasFactory && |LegacyDao.KeysWithId(s.db.keys, key)| > 1 ==>
      o.result == Err(MultipleResults) && IsActive(o.session)
    ensures o.result.Ok? ==> o.session.phase == Idle && HasKey(o.session.db, key)
    ensures o.result.Ok? ==> (kv.Some? && kv.value.variants.Some? && |kv.value.variants.value| > 0 &&
      forall i :: 0 <= i < |kv.value.variants.value| ==> kv.value.variants.value[i].pattern.Some?)
    ensures IsActive(o.session) ==> o.session.db == s.db
    ensures HasKey(s.db, key) ==> o.session.db.keys == s.db.keys
    ensures !HasKey(s.db, key) && o.session.db != s.db ==> o.session.db.keys == s.db.keys + [KeyRecord(key, kv.value.description)]
    ensures o.result.Ok? ==> RowsWritten(s.db, o.session.db, key, changeSet)
  {
    if JavaText.IsBlank(key) then Outcome(s, Err(BlankKey))
    else if kv.None? then Outcome(s, Err(NullArgument))
    else
      var b := Begin(s);
      if b.Err? then Outcome(s, Err(b.error))
      else
        var s1 := b.value;
        var lookup := LegacyDao.LoadRopertyKey(s1.db, key).result;
        if lookup.Err? then Outcome(s1, Err(lookup.error))
        else
          var found := lookup.value;
          var k := if found.None? then KeyRecord(key, kv.value.description) else found.value;
          var s2 := if found.None? then FindKeyAppend(s1.db.keys, k, key); PersistActive(s1, KeyEntity(k)) else s1;
          match kv.value.variants
          case None => Outcome(EndActive(s2), Err(NullValues))
          case Some(vs) =>
            if |vs| == 0 then Outcome(EndActive(s2), Err(EmptyValues))
            else
              var o := StoreVariants(s2, k, vs, changeSet);
              if o.result.Err? then o else Outcome(EndActive(o.session), Ok(()))
  }

  // ------------------------------------------------------ what store leaves

  /** The lookup of `(key, pattern)` finds exactly one row, and it holds
      `value`. */
  predicate Holding(rows: seq<ValueRow>, key: string, pattern: string, value: Option<Value>) {
    var found := Select(rows, ByKeyPattern(key, Some(pattern)));
    |found| == 1 && found[0].value == value
  }

  /** Every row of another key is in `after` exactly when it is in `before`. */
  ghost predicate OtherKeysKept(before: Store, after: Store, key: string) {
    forall x: ValueRow :: x.key != key ==> (x in after.rows <==> x in before.rows)
  }

  /** Some variant has this pattern. */
  predicate Names(vs: seq<Variant>, pattern: string) {
    exists i :: 0 <= i < |vs| && vs[i].pattern == Some(pattern)
  }

  /** No two variants share a pattern. The lookup ignores change sets, so
      this is what one row per pattern needs. */
  predicate DistinctPatterns(vs: seq<Variant>) {
    forall i, j :: 0 <= i < j < |vs| ==> vs[i].pattern != vs[j].pattern
  }

  /** Every lookup the variants issue still sees in the pending state what
      it sees in the committed one. */
  ghost predicate Unwritten(s: Session, k: KeyRecord, vs: seq<Variant>)
    requires IsActive(s)
  {
    forall i :: 0 <= i < |vs| ==>
      Select(s.phase.pending.rows, ByKeyPattern(k.id, vs[i].pattern)) == Select(s.db.rows, ByKeyPattern(k.id, vs[i].pattern))
  }

  /** What one written variant leaves in the pending state `p`: its
      `(key, pattern)` lookup finds exactly one row holding its value,
      lookups of the key's other patterns do not move, and no row of
      another key is touched. */
  ghost predicate WroteOne(before: Store, p: Store, key: string, pattern: string, value: Option<Value>) {
    && WellKeyed(p)
    && Holding(p.rows, key, pattern, value)
    && (forall other :: other != pattern ==>
          Select(p.rows, ByKeyPattern(key, Some(other))) == Select(before.rows, ByKeyPattern(key, Some(other))))
    && OtherKeysKept(before, p, key)
  }

  /** Keeping the other keys' rows composes. */
  lemma OtherKeysKeptTrans(a: Store, b: Store, c: Store, key: string)
    requires OtherKeysKept(a, b, key) && OtherKeysKept(b, c, key)
    ensures OtherKeysKept(a, c, key)
  {
  }

  /** The insert path: nothing was found, so the new row is the only one. */
  lemma StoreVariantInserts(s: Session, k: KeyRecord, v: Variant, changeSet: Option<string>)
    requires IsActive(s) && v.pattern.Some? && WellKeyed(s.phase.pending)
    requires Select(s.phase.pending.rows, ByKeyPattern(k.id, v.pattern)) == []
    requires Select(s.db.rows, ByKeyPattern(k.id, v.pattern)) == []
    requires StoreVariant(s, k, v, changeSet).result.Ok?
    ensures WroteOne(s.phase.pending, StoreVariant(s, k, v, changeSet).session.phase.pending, k.id, v.pattern.value, v.value)
  {
    var before := s.phase.pending;
    var row := ValueRow(0, k.id, v.pattern, v.value, NullWhenEmpty(changeSet));
    var p := AddRow(before, row);
    assert StoreVariant(s, k, v, changeSet).session.phase.pending == p;
    AddRowFacts(before, row);
    forall other
      ensures Select(p.rows, ByKeyPattern(k.id, Some(other))) ==
        Select(before.rows, ByKeyPattern(k.id, Some(other))) + (if other == v.pattern.value then [row.(id := before.nextId)] else [])
    {
      SelectAppend(before.rows, [row.(id := before.nextId)], ByKeyPattern(k.id, Some(other)));
    }
  }

  /** The merge path: the one row found takes the value. */
  lemma StoreVariantMerges(s: Session, k: KeyRecord, v: Variant, changeSet: Option<string>, x: ValueRow)
    requires IsActive(s) && v.pattern.Some? && WellKeyed(s.phase.pending)
    requires Select(s.phase.pending.rows, ByKeyPattern(k.id, v.pattern)) == [x]
    requires Select(s.db.rows, ByKeyPattern(k.id, v.pattern)) == [x]
    requires StoreVariant(s, k, v, changeSet).result.Ok?
    ensures WroteOne(s.phase.pending, StoreVariant(s, k, v, changeSet).session.phase.pending, k.id, v.pattern.value, v.value)
  {
    var before := s.phase.pending;
    var q := ByKeyPattern(k.id, v.pattern);
    assert x in before.rows && Holds(q, x);
    var m := MergeRow(x, changeSet, v.value).value;
    if m.changed {
      var p := PutRow(before, m.row);
      assert StoreVariant(s, k, v, changeSet).session.phase.pending == p;
      JpaStoreLaws.MergeRowWellKeyed(before, x, m.row);
      JpaStoreLaws.MergeRowHit(before, x, m.row, q);
      JpaStoreLaws.OnlyRowWithId(before, x);
      forall other | other != v.pattern.value
        ensures Select(p.rows, ByKeyPattern(k.id, Some(other))) == Select(before.rows, ByKeyPattern(k.id, Some(other)))
      {
        JpaStoreLaws.MergeRowMiss(before, x, m.row, ByKeyPattern(k.id, Some(other)));
      }
    } else {
      assert StoreVariant(s, k, v, changeSet).session.phase.pending == before;
    }
  }

  /** One variant written, when the pending state still answers its lookup
      as the committed state does. */
  lemma StoreVariantSettles(s: Session, k: KeyRecord, v: Variant, changeSet: Option<string>)
    requires IsActive(s) && v.pattern.Some? && WellKeyed(s.phase.pending)
    requires Select(s.phase.pending.rows, ByKeyPattern(k.id, v.pattern)) == Select(s.db.rows, ByKeyPattern(k.id, v.pattern))
    requires StoreVariant(s, k, v, changeSet).result.Ok?
    ensures WroteOne(s.phase.pending, StoreVariant(s, k, v, changeSet).session.phase.pending, k.id, v.pattern.value, v.value)
  {
    var found := Select(s.db.rows, ByKeyPattern(k.id, v.pattern));
    if |found| == 0 {
      StoreVariantInserts(s, k, v, changeSet);
    } else {
      assert found == [found[0]];
      StoreVariantMerges(s, k, v, changeSet, found[0]);
    }
  }

  /** The tail of a list of variants with distinct patterns has distinct
      patterns, none of them the head's; a pattern the list does not name
      is neither the head's nor named by the tail. */
  lemma TailPatterns(vs: seq<Variant>)
    requires |vs| > 0 && DistinctPatterns(vs)
    ensures DistinctPatterns(vs[1..])
    ensures forall i :: 0 <= i < |vs| - 1 ==> vs[1..][i].pattern != vs[0].pattern
    ensures forall other :: !Names(vs, other) ==> !Names(vs[1..], other) && vs[0].pattern != Some(other)
  {
    assert forall i :: 1 <= i < |vs| ==> vs[i] == vs[1..][i - 1];
  }

  /** The loop over variants with distinct patterns: each variant's lookup
      finds exactly one row holding its value, patterns no variant names are
      looked up as before, and rows of other keys are untouched. */
  lemma {:induction false} StoreVariantsSettle(s: Session, k: KeyRecord, vs: seq<Variant>, changeSet: Option<string>)
    requires IsActive(s) && WellKeyed(s.phase.pending)
    requires DistinctPatterns(vs) && Unwritten(s, k, vs)
    requires StoreVariants(s, k, vs, changeSet).result.Ok?
    ensures var o := StoreVariants(s, k, vs, changeSet);
      && IsActive(o.session)
      && WellKeyed(o.session.phase.pending)
      && (forall i :: 0 <= i < |vs| ==> Holding(o.session.phase.pending.rows, k.id, vs[i].pattern.value, vs[i].value))
      && (forall other :: !Names(vs, other) ==>
            Select(o.session.phase.pending.rows, ByKeyPattern(k.id, Some(other))) == Select(s.phase.pending.rows, ByKeyPattern(k.id, Some(other))))
      && OtherKeysKept(s.phase.pending, o.session.phase.pending, k.id)
    decreases |vs|
  {
    if |vs| > 0 {
      var v := vs[0];
      var tail := vs[1..];
      var o1 := StoreVariant(s, k, v, changeSet);
      assert StoreVariants(s, k, vs, changeSet) == StoreVariants(o1.session, k, tail, changeSet);
      StoreVariantSettles(s, k, v, changeSet);
      TailPatterns(vs);
      assert Unwritten(o1.session, k, tail) by {
        forall i | 0 <= i < |tail|
          ensures Select(o1.session.phase.pending.rows, ByKeyPattern(k.id, tail[i].pattern)) ==
            Select(o1.session.db.rows, ByKeyPattern(k.id, tail[i].pattern))
        {
          assert tail[i] == vs[i + 1];
          assert tail[i].pattern == Some(tail[i].pattern.value);
        }
      }
      StoreVariantsSettle(o1.session, k, tail, changeSet);
      var p1 := o1.session.phase.pending;
      var p2 := StoreVariants(o1.session, k, tail, changeSet).session.phase.pending;
      OtherKeysKeptTrans(s.phase.pending, p1, p2, k.id);
      assert !Names(tail, v.pattern.value);
      forall i | 0 <= i < |vs|
        ensures Holding(p2.rows, k.id, vs[i].pattern.value, vs[i].value)
      {
        if i > 0 {
          assert vs[i] == tail[i - 1];
        }
      }
    }
  }

  /** A successful legacy `store` on a well-keyed store whose variants have
      distinct patterns: each variant's `(key, pattern)` lookup finds exactly
      one row holding its value, whatever change sets were involved; the
      key's other patterns and every other key's rows are as before. */
  lemma StoreSettles(s: Session, key: string, kv: Option<KeyValues>, changeSet: Option<string>)
    requires WellKeyed(s.db)
    requires kv.Some? && kv.value.variants.Some? && DistinctPatterns(kv.value.variants.value)
    requires StoreKey(s, key, kv, changeSet).result.Ok?
    ensures var db := StoreKey(s, key, kv, changeSet).session.db;
      var vs := kv.value.variants.value;
      && WellKeyed(db)
      && (forall i :: 0 <= i < |vs| ==> Holding(db.rows, key, vs[i].pattern.value, vs[i].value))
      && (forall other :: !Names(vs, other) ==>
            Select(db.rows, ByKeyPattern(key, Some(other))) == Select(s.db.rows, ByKeyPattern(key, Some(other))))
      && OtherKeysKept(s.db, db, key)
  {
    var vs := kv.value.variants.value;
    var s1 := Begin(s).value;
    var found := LegacyDao.LoadRopertyKey(s1.db, key).result.value;
    var k := if found.None? then KeyRecord(key, kv.value.description) else found.value;
    var s2 := if found.None? then PersistActive(s1, KeyEntity(k)) else s1;
    assert k.id == key;
    assert s2.phase.pending.rows == s.db.rows && s2.phase.pending.nextId == s.db.nextId && s2.db == s.db;
    var o := StoreVariants(s2, k, vs, changeSet);
    assert StoreKey(s, key, kv, changeSet) == Outcome(EndActive(o.session), Ok(()));
    StoreVariantsSettle(s2, k, vs, changeSet);
  }

  // ------------------------------------------------ not idempotent under ""

  const Sample: Value := Value("one", true)
  const SampleVariant: Variant := Variant(Some("p1"), Some(Sample), None)
  const Blank: Store := Store([], [], 0)

  /** The row the first `store` inserts: change set null, not `""`. */
  const Inserted: ValueRow := ValueRow(0, "k", Some("p1"), Some(Sample), None)

  /** The store after the first `store`: the key and the inserted row. */
  const AfterFirst: Store := Store([KeyRecord("k", None)], [Inserted], 1)

  /** The first `store` of the sample variant under `""` inserts it with a
      null change set. */
  lemma FirstStoreInserts(s: Session)
    requires s.hasFactory && s.db == Blank && s.phase == Idle
    ensures var o := StoreKey(s, "k", Some(KeyValues(None, Some([SampleVariant]))), Some(""));
      o.result == Ok(()) && o.session.db == AfterFirst && o.session.hasFactory
  {
    assert !JavaText.IsWhitespace("k"[0]);
    var k := KeyRecord("k", None);
    var vs := [SampleVariant];
    assert vs[1..] == [];
    var s1 := Begin(s).value;
    assert LegacyDao.LoadRopertyKey(s1.db, "k").result == Ok(None);
    var s2 := PersistActive(s1, KeyEntity(k));
    assert s2.phase.pending == Store([k], [], 0);
    assert LegacyDao.LoadRopertyValue(s2.db, k, Some("p1")) == Ok(None);
    var o := StoreVariant(s2, k, SampleVariant, Some(""));
    assert o.session.phase.pending == AfterFirst;
    assert StoreVariants(s2, k, vs, Some("")) == StoreVariants(o.session, k, [], Some(""));
  }

  /** Every later `store` of it under `""` finds the row, compares its null
      change set with `""`, and merges it although nothing changes. */
  lemma LaterStoreMerges(s: Session)
    requires s.hasFactory && s.db == AfterFirst
    ensures var o := StoreKey(s, "k", Some(KeyValues(None, Some([SampleVariant]))), Some(""));
      && o.result == Ok(())
      && o.session.db == AfterFirst
      && o.session.log == s.log + [BeginOp, MergeOp(RowEntity(Inserted)), CommitOp]
  {
    assert !JavaText.IsWhitespace("k"[0]);
    var k := KeyRecord("k", None);
    var vs := [SampleVariant];
    assert vs[1..] == [];
    var s1 := Begin(s).value;
    assert LegacyDao.KeysWithId([k], "k") == [k] by {
      assert [k][1..] == [];
    }
    assert Select([Inserted], ByKeyPattern("k", Some("p1"))) == [Inserted] by {
      assert [Inserted][1..] == [];
    }
    assert LegacyDao.LoadRopertyValue(s1.db, k, Some("p1")) == Ok(Some(Inserted));
    assert MergeRow(Inserted, Some(""), Some(Sample)) == Ok(JpaEngine.Merge(Inserted, true));
    assert HasRow(AfterFirst, 0) by {
      assert AfterFirst.rows[0].id == 0;
    }
    assert ReplaceRows([Inserted], Inserted) == [Inserted];
    var o := StoreVariant(s1, k, SampleVariant, Some(""));
    assert o.session == MergeActive(s1, RowEntity(Inserted));
    assert StoreVariants(s1, k, vs, Some("")) == StoreVariants(o.session, k, [], Some(""));
  }

  /** `store` of one variant under the empty change set, twice: the second
      call writes nothing new but still issues a merge. */
  lemma StoreTwiceRemerges()
    ensures var kv := Some(KeyValues(None, Some([SampleVariant])));
      var once := StoreKey(Session(true, Blank, Idle, []), "k", kv, Some(""));
      var twice := StoreKey(once.session, "k", kv, Some(""));
      && once.result == Ok(()) && twice.result == Ok(())
      && once.session.db.rows == [Inserted]
      && twice.session.db == once.session.db
      && twice.session.log == once.session.log + [BeginOp, MergeOp(RowEntity(Inserted)), CommitOp]
  {
    FirstStoreInserts(Session(true, Blank, Idle, []));
    var once := StoreKey(Session(true, Blank, Idle, []), "k", Some(KeyValues(None, Some([SampleVariant]))), Some(""));
    LaterStoreMerges(once.session);
  }
}
