/**
 * The two `remove` forms of `JpaPersistence` in the `jpa` package: the
 * bulk form, which deletes the rows matching the given variants (or all of
 * them) and possibly the key, and the single form, which deletes the row of
 * one variant in one change set.
 */
module JpaRemove {
  import opened Wrappers
  import opened Entities
  import opened Query
  import opened Stores
  import opened ChangeSets
  import opened Transactions
  import JavaText
  import JpaDao
  import opened JpaLoad

  /** The surrogate ids of some rows. */
  function IdsOf(rows: seq<ValueRow>): set<nat> {
    set x | x in rows :: x.id
  }

  /** `after` is `before` without the rows whose id is in `ids`; the key
      table and the id generator are untouched. */
  ghost predicate RowsDropped(before: Store, after: Store, ids: set<nat>) {
    && after.keys == before.keys
    && after.nextId == before.nextId
    && (forall x :: x in after.rows <==> x in before.rows && x.id !in ids)
    && (UniqueIds(before.rows) ==> UniqueIds(after.rows))
  }

  lemma RowsExceptUniqueIf(rows: seq<ValueRow>, id: nat)
    ensures UniqueIds(rows) ==> UniqueIds(RowsExcept(rows, id))
  {
    if UniqueIds(rows) {
      RowsExceptUnique(rows, id);
    }
  }

  /** `transactionManager.remove` on each row, in order. */
  function RemoveRows(s: Session, rows: seq<ValueRow>): (r: Session)
    requires IsActive(s)
    ensures IsActive(r) && r.db == s.db && r.hasFactory == s.hasFactory
    ensures RowsDropped(s.phase.pending, r.phase.pending, IdsOf(rows))
    decreases |rows|
  {
    if |rows| == 0 then s
    else
      assert IdsOf(rows) == {rows[0].id} + IdsOf(rows[1..]) by {
        assert forall x :: x in rows <==> x == rows[0] || x in rows[1..];
      }
      RowsExceptUniqueIf(s.phase.pending.rows, rows[0].id);
      RemoveRows(RemoveActive(s, RowEntity(rows[0])), rows[1..])
  }

  // ------------------------------------------------------------ bulk form

  /** Some variant of the list matches the row (pattern and value). */
  predicate MatchesAny(x: ValueRow, vs: seq<Variant>) {
    exists i :: 0 <= i < |vs| && Matches(x, vs[i])
  }

  /** The rows no variant of the list matches, in order. */
  function Keep(rows: seq<ValueRow>, vs: seq<Variant>): (r: seq<ValueRow>)
    ensures |r| <= |rows|
    ensures forall x :: x in r <==> x in rows && !MatchesAny(x, vs)
    decreases |rows|
  {
    if |rows| == 0 then []
    else (if MatchesAny(rows[0], vs) then [] else [rows[0]]) + Keep(rows[1..], vs)
  }

  /** The ids of the rows some variant of the list matches. */
  function MatchedIds(rows: seq<ValueRow>, vs: seq<Variant>): set<nat> {
    set x | x in rows && MatchesAny(x, vs) :: x.id
  }

  /** What a sweep leaves: the session, the working list of rows still
      unmatched, and how many rows it removed. */
  datatype Swept = Swept(session: Session, rest: seq<ValueRow>, removed: nat)

  /** Removing one row entity drops exactly that row's id. */
  lemma RemoveRowDrops(s: Session, x: ValueRow)
    requires IsActive(s)
    ensures RowsDropped(s.phase.pending, RemoveActive(s, RowEntity(x)).phase.pending, {x.id})
  {
    RowsExceptUniqueIf(s.phase.pending.rows, x.id);
  }

  /** Dropping two id sets in turn drops their union. */
  lemma RowsDroppedChain(a: Store, b: Store, c: Store, first: set<nat>, second: set<nat>)
    requires RowsDropped(a, b, first) && RowsDropped(b, c, second)
    ensures RowsDropped(a, c, first + second)
  {
  }

  /** The matched ids of a list: its head's, if matched, and its tail's. */
  lemma MatchedIdsCons(rows: seq<ValueRow>, v: Variant)
    requires |rows| > 0
    ensures MatchedIds(rows, [v]) == (if Matches(rows[0], v) then {rows[0].id} else {}) + MatchedIds(rows[1..], [v])
  {
    MatchesOne(rows[0], v);
    assert forall x :: x in rows <==> x == rows[0] || x in rows[1..];
  }

  /** The inner loop of `removeKeyValues`: walk the working list, and remove
      every row the variant matches from the transaction and from the list. */
  function SweepVariant(s: Session, v: Variant, rows: seq<ValueRow>): (r: Swept)
    requires IsActive(s)
    ensures IsActive(r.session) && r.session.db == s.db && r.session.hasFactory == s.hasFactory
    ensures r.rest == Keep(rows, [v])
    ensures r.removed == |rows| - |r.rest|
    ensures RowsDropped(s.phase.pending, r.session.phase.pending, MatchedIds(rows, [v]))
    decreases |rows|
  {
    if |rows| == 0 then Swept(s, [], 0)
    else
      var hit := Matches(rows[0], v);
      MatchesOne(rows[0], v);
      MatchedIdsCons(rows, v);
      if hit then
        var s' := RemoveActive(s, RowEntity(rows[0]));
        var t := SweepVariant(s', v, rows[1..]);
        RemoveRowDrops(s, rows[0]);
        RowsDroppedChain(s.phase.pending, s'.phase.pending, t.session.phase.pending, {rows[0].id}, MatchedIds(rows[1..], [v]));
        Swept(t.session, t.rest, t.removed + 1)
      else
        var t := SweepVariant(s, v, rows[1..]);
        Swept(t.session, [rows[0]] + t.rest, t.removed)
  }

  /** A one-element list matches exactly what its element matches. */
  lemma MatchesOne(x: ValueRow, v: Variant)
    ensures MatchesAny(x, [v]) <==> Matches(x, v)
  {
    assert [v][0] == v;
  }

  /** Matching some variant of a list is matching its head or its tail. */
  lemma MatchesAnySplit(x: ValueRow, vs: seq<Variant>)
    requires |vs| > 0
    ensures MatchesAny(x, vs) <==> MatchesAny(x, [vs[0]]) || MatchesAny(x, vs[1..])
  {
    MatchesOne(x, vs[0]);
    if MatchesAny(x, vs) {
      var i :| 0 <= i < |vs| && Matches(x, vs[i]);
      if i > 0 {
        assert vs[1..][i - 1] == vs[i];
      }
    }
    if MatchesAny(x, vs[1..]) {
      var j :| 0 <= j < |vs| - 1 && Matches(x, vs[1..][j]);
      assert vs[j + 1] == vs[1..][j];
    }
  }

  /** Filtering out one variant's matches first, then the others', is
      filtering out the matches of all of them. */
  lemma {:induction false} KeepSplits(rows: seq<ValueRow>, vs: seq<Variant>)
    requires |vs| > 0
    ensures Keep(Keep(rows, [vs[0]]), vs[1..]) == Keep(rows, vs)
    decreases |rows|
  {
    if |rows| > 0 {
      var x := rows[0];
      MatchesAnySplit(x, vs);
      KeepSplits(rows[1..], vs);
      var first := Keep(rows, [vs[0]]);
      var tail := Keep(rows[1..], [vs[0]]);
      assert Keep(rows, vs) == (if MatchesAny(x, vs) then [] else [x]) + Keep(rows[1..], vs);
      if MatchesAny(x, [vs[0]]) {
        assert first == tail;
      } else {
        assert first == [x] + tail;
        assert first[0] == x && first[1..] == tail;
        assert Keep(first, vs[1..]) == (if MatchesAny(x, vs[1..]) then [] else [x]) + Keep(tail, vs[1..]);
      }
    }
  }

  /** The ids one variant's sweep removes, plus the ids the other variants
      match among the rows left, are the ids all of them match. */
  lemma MatchedIdsSplit(rows: seq<ValueRow>, vs: seq<Variant>)
    requires |vs| > 0
    ensures MatchedIds(rows, [vs[0]]) + MatchedIds(Keep(rows, [vs[0]]), vs[1..]) == MatchedIds(rows, vs)
  {
    forall x | x in rows
      ensures MatchesAny(x, vs) <==> MatchesAny(x, [vs[0]]) || MatchesAny(x, vs[1..])
    {
      MatchesAnySplit(x, vs);
    }
  }

  /** The outer loop of `removeKeyValues`: one sweep per variant, each on
      the rows earlier sweeps left. */
  function SweepAll(s: Session, vs: seq<Variant>, rows: seq<ValueRow>): (r: Swept)
    requires IsActive(s)
    ensures IsActive(r.session) && r.session.db == s.db && r.session.hasFactory == s.hasFactory
    ensures r.rest == Keep(rows, vs)
    ensures r.removed == |rows| - |r.rest|
    ensures RowsDropped(s.phase.pending, r.session.phase.pending, MatchedIds(rows, vs))
    decreases |vs|
  {
    if |vs| == 0 then
      assert Keep(rows, vs) == rows by {
        if Keep(rows, vs) != rows {
          KeepNothing(rows);
        }
      }
      assert MatchedIds(rows, vs) == {};
      Swept(s, rows, 0)
    else
      var a := SweepVariant(s, vs[0], rows);
      var b := SweepAll(a.session, vs[1..], a.rest);
      KeepSplits(rows, vs);
      MatchedIdsSplit(rows, vs);
      Swept(b.session, b.rest, a.removed + b.removed)
  }

  /** Without variants nothing is filtered out. */
  lemma {:induction false} KeepNothing(rows: seq<ValueRow>)
    ensures Keep(rows, []) == rows
    decreases |rows|
  {
    if |rows| > 0 {
      KeepNothing(rows[1..]);
    }
  }

  /** `removeKeyValues`: a null variant set fails (the transaction stays
      open), an empty one ends the transaction and fails; otherwise every
      stored row some variant matches is removed, and the key as well when
      as many rows were removed as variants were given. */
  function RemoveKeyValues(s: Session, k: KeyRecord, kv: KeyValues, rows: seq<ValueRow>): (o: Outcome<()>)
    requires IsActive(s)
    ensures o.session.db == (if o.session.phase == Idle then s.phase.pending else s.db)
    ensures IsActive(o.session) && UniqueIds(s.phase.pending.rows) ==> UniqueIds(o.session.phase.pending.rows)
    ensures kv.variants.None? ==> o == Outcome(s, Err(NullValues))
    ensures kv.variants == Some([]) ==> o == Outcome(EndActive(s), Err(EmptyValues))
    ensures kv.variants.Some? && |kv.variants.value| > 0 ==>
      var vs := kv.variants.value;
      var removed := |rows| - |Keep(rows, vs)|;
      o.result.Ok? && IsActive(o.session) &&
      var p := o.session.phase.pending;
      && p.nextId == s.phase.pending.nextId
      && (forall x :: x in p.rows <==> x in s.phase.pending.rows && x.id !in MatchedIds(rows, vs))
      && p.keys == (if |vs| == removed then KeysExcept(s.phase.pending.keys, k.id) else s.phase.pending.keys)
  {
    match kv.variants
    case None => Outcome(s, Err(NullValues))
    case Some(vs) =>
      if |vs| == 0 then Outcome(EndActive(s), Err(EmptyValues))
      else
        var sw := SweepAll(s, vs, rows);
        if |vs| == sw.removed then Outcome(RemoveActive(sw.session, KeyEntity(k)), Ok(()))
        else Outcome(sw.session, Ok(()))
  }

  /** The bulk `remove`: with a null aggregate every row of the key and the
      key itself go; otherwise `removeKeyValues` decides. An absent key is a
      no-op, a key without rows an inconsistency. The change set is not used. */
  function RemoveKey(w: JpaDao.Wiring, s: Session, key: string, kv: Option<KeyValues>, changeSet: Option<string>): (o: Outcome<()>)
    ensures JavaText.IsBlank(key) ==> o == Outcome(s, Err(BlankKey))
    ensures !JavaText.IsBlank(key) && !s.hasFactory ==> o == Outcome(s, Err(NoFactory))
    ensures o.result.Ok? ==> o.session.phase == Idle
    ensures o.session.phase.Active? ==> o.session.db == s.db
    ensures UniqueIds(s.db.rows) ==> UniqueIds(o.session.db.rows)
    ensures !JavaText.IsBlank(key) && s.hasFactory && !HasKey(s.db, key) ==>
      o.result == Ok(()) && o.session.db == s.db
    ensures !JavaText.IsBlank(key) && s.hasFactory && HasKey(s.db, key) ==>
      && (!w.typedQuery ==> o.result == Err(NoTypedQuery) && IsActive(o.session))
      && (w.typedQuery && Count(s.db.rows, key) == 0 ==> o.result == Err(NoValues(key)) && o.session.db == s.db)
    ensures !JavaText.IsBlank(key) && s.hasFactory && HasKey(s.db, key) && w.typedQuery && Count(s.db.rows, key) > 0 ==>
      var rows := KeyRows(s.db, key);
      var db := o.session.db;
      && (kv.None? ==>
            && o.result == Ok(())
            && db.keys == KeysExcept(s.db.keys, key) && db.nextId == s.db.nextId
            && forall x :: x in db.rows <==> x in s.db.rows && x.id !in IdsOf(rows))
      && (kv.Some? && kv.value.variants.None? ==> o.result == Err(NullValues) && IsActive(o.session))
      && (kv.Some? && kv.value.variants == Some([]) ==> o.result == Err(EmptyValues) && db == s.db)
      && (kv.Some? && kv.value.variants.Some? && |kv.value.variants.value| > 0 ==>
            var vs := kv.value.variants.value;
            && o.result == Ok(())
            && db.keys == (if |vs| == |rows| - |Keep(rows, vs)| then KeysExcept(s.db.keys, key) else s.db.keys)
            && db.nextId == s.db.nextId
            && forall x :: x in db.rows <==> x in s.db.rows && x.id !in MatchedIds(rows, vs))
  {
    if JavaText.IsBlank(key) then Outcome(s, Err(BlankKey))
    else
      var b := Begin(s);
      if b.Err? then Outcome(s, Err(b.error))
      else
        var s1 := b.value;
        var found := JpaDao.LoadRopertyKey(s1.db, key).result.value;
        if found.None? then Outcome(EndActive(s1), Ok(()))
        else
          var k := found.value;
          var a := JpaDao.LoadRopertyValues(w, s1.db, k);
          if a.result.Err? then Outcome(s1, Err(a.result.error))
          else
            var rows := RowsOf(a.result.value);
            if |rows| == 0 then Outcome(EndActive(s1), Err(NoValues(k.id)))
            else if kv.None? then
              Outcome(EndActive(RemoveActive(RemoveRows(s1, rows), KeyEntity(k))), Ok(()))
            else
              var o := RemoveKeyValues(s1, k, kv.value, rows);
              if o.result.Err? then o else Outcome(EndActive(o.session), Ok(()))
  }

  // ---------------------------------------------------------- single form

  /** The single `remove`: delete the row of the variant's pattern in the
      change set (looked up under `emptyWhenNull(changeSet)`), and the key
      as well when it had exactly one row before. The row count is taken
      before anything is removed; a null or non-serializable value ends the
      transaction and fails. A null pattern is refused by the query builder
      inside the lookup, leaving the transaction open. */
  function RemoveValue(w: JpaDao.Wiring, s: Session, key: string, dsv: Option<Variant>, changeSet: Option<string>): (o: Outcome<()>)
    ensures JavaText.IsBlank(key) ==> o == Outcome(s, Err(BlankKey))
    ensures !JavaText.IsBlank(key) && dsv.None? ==> o == Outcome(s, Err(NullArgument))
    ensures !JavaText.IsBlank(key) && dsv.Some? && !s.hasFactory ==> o == Outcome(s, Err(NoFactory))
    ensures o.result.Ok? ==> o.session.phase == Idle
    ensures o.session.phase.Active? ==> o.session.db == s.db
    ensures !JavaText.IsBlank(key) && dsv.Some? && s.hasFactory && !HasKey(s.db, key) ==>
      o.result == Ok(()) && o.session.db == s.db
    ensures !JavaText.IsBlank(key) && dsv.Some? && s.hasFactory && HasKey(s.db, key) ==>
      var v := dsv.value;
      var wired := w.typedQuery && w.countResult;
      var sel := Select(s.db.rows, ByIdentity(key, v.pattern, Some(EmptyWhenNull(changeSet))));
      var db := o.session.db;
      && (!w.typedQuery ==> o.result == Err(NoTypedQuery) && IsActive(o.session))
      && (w.typedQuery && !w.countResult ==> o.result == Err(NoCountResult) && IsActive(o.session))
      && (wired && v.value.None? ==> o.result == Err(NullValue) && db == s.db)
      && (wired && v.value.Some? && !IsStorable(v.value.value) ==> o.result == Err(NotSerializable) && db == s.db)
      && (wired && StorableValue(v.value) && v.pattern.None? ==> o.result == Err(NullComparison) && IsActive(o.session))
      && (wired && StorableValue(v.value) && v.pattern.Some? && |sel| == 0 ==> o.result == Ok(()) && db == s.db)
      && (wired && StorableValue(v.value) && v.pattern.Some? && |sel| > 1 ==> o.result == Err(MultipleResults) && IsActive(o.session))
      && (wired && StorableValue(v.value) && v.pattern.Some? && |sel| == 1 ==>
            && o.result == Ok(())
            && db.keys == (if Count(s.db.rows, key) == 1 then KeysExcept(s.db.keys, key) else s.db.keys)
            && db.nextId == s.db.nextId
            && forall x :: x in db.rows <==> x in s.db.rows && x.id != sel[0].id)
  {
    if JavaText.IsBlank(key) then Outcome(s, Err(BlankKey))
    else if dsv.None? then Outcome(s, Err(NullArgument))
    else
      var b := Begin(s);
      if b.Err? then Outcome(s, Err(b.error))
      else
        var s1 := b.value;
        var found := JpaDao.LoadRopertyKey(s1.db, key).result.value;
        if found.None? then Outcome(EndActive(s1), Ok(()))
        else
          var k := found.value;
          var n := JpaDao.GetNumberOfValues(w, s1.db, k);
          if n.result.Err? then Outcome(s1, Err(n.result.error))
          else
            var value := dsv.value.value;
            if value.None? then Outcome(EndActive(s1), Err(NullValue))
            else if !IsStorable(value.value) then Outcome(EndActive(s1), Err(NotSerializable))
            else
              var a := JpaDao.LoadRopertyValue(w, s1.db, k, dsv.value.pattern, EmptyWhenNull(changeSet));
              if a.result.Err? then Outcome(s1, Err(a.result.error))
              else if a.result.value.None? then Outcome(EndActive(s1), Ok(()))
              else
                var s2 := RemoveActive(s1, RowEntity(a.result.value.value));
                var s3 := if n.result.value == 1 then RemoveActive(s2, KeyEntity(k)) else s2;
                Outcome(EndActive(s3), Ok(()))
  }
}
