/**
 * The two `remove` forms of the first generation, `JpaPersistence` of the
 * `persistence` package. The bulk form walks the variants and, for each,
 * the key's remaining rows, removing a matched row from the transaction,
 * from the working list and the variant from its iterator. A variant that
 * matches a second row makes that iterator's `remove` throw, with the
 * transaction left open. The single form looks the row up by key and
 * pattern only.
 */
module LegacyRemove {
  import opened Wrappers
  import opened Entities
  import opened Query
  import opened Stores
  import opened Transactions
  import JavaText
  import JpaDao
  import LegacyDao
  import LegacyLoad
  import JpaRemove
  import JpaRemoveLaws

  /** How many rows of the list the variant matches. */
  function Hits(rows: seq<ValueRow>, v: Variant): nat
    decreases |rows|
  {
    if |rows| == 0 then 0
    else (if Matches(rows[0], v) then 1 else 0) + Hits(rows[1..], v)
  }

  /** Counting matches is measuring what filtering them out drops. */
  lemma {:induction false} HitsKeep(rows: seq<ValueRow>, v: Variant)
    ensures Hits(rows, v) == |rows| - |JpaRemove.Keep(rows, [v])|
    decreases |rows|
  {
    if |rows| > 0 {
      JpaRemove.MatchesOne(rows[0], v);
      HitsKeep(rows[1..], v);
    }
  }

  /** Two variants with the same pattern and value match the same rows. */
  predicate SameMatch(u: Variant, v: Variant) {
    u.pattern == v.pattern && u.value == v.value
  }

  /** What filtering out one variant's matches does to another's count:
      it clears the count of a variant matching the same rows and leaves
      every other count alone. */
  lemma {:induction false} HitsAfterKeep(rows: seq<ValueRow>, v: Variant, u: Variant)
    ensures Hits(JpaRemove.Keep(rows, [v]), u) == (if SameMatch(u, v) then 0 else Hits(rows, u))
    ensures SameMatch(u, v) ==> Hits(rows, u) == Hits(rows, v)
    decreases |rows|
  {
    if |rows| > 0 {
      JpaRemove.MatchesOne(rows[0], v);
      HitsAfterKeep(rows[1..], v, u);
      var tail := JpaRemove.Keep(rows[1..], [v]);
      assert SameMatch(u, v) ==> Matches(rows[0], u) == Matches(rows[0], v);
      if Matches(rows[0], v) {
        assert JpaRemove.Keep(rows, [v]) == tail;
      } else {
        assert JpaRemove.Keep(rows, [v]) == [rows[0]] + tail;
        assert ([rows[0]] + tail)[1..] == tail;
        assert Hits([rows[0]] + tail, u) == (if Matches(rows[0], u) then 1 else 0) + Hits(tail, u);
      }
    }
  }

  /** What a sweep leaves: the session, the working list, how many rows it
      removed, and whether an iterator's `remove` threw. */
  datatype Swept = Swept(session: Session, rest: seq<ValueRow>, removed: nat, failed: bool)

  /** The inner loop for one variant. `hit` records that the variant has
      already been taken out of its iterator: a further match removes that
      row too and then fails. */
  function SweepVariant(s: Session, v: Variant, rows: seq<ValueRow>, hit: bool): (r: Swept)
    requires IsActive(s)
    ensures IsActive(r.session) && r.session.db == s.db && r.session.hasFactory == s.hasFactory
    ensures r.failed <==> Hits(rows, v) > (if hit then 0 else 1)
    ensures !r.failed ==>
      && r.rest == JpaRemove.Keep(rows, [v])
      && r.removed == Hits(rows, v) == |rows| - |r.rest|
      && r.session == JpaRemove.SweepVariant(s, v, rows).session
    decreases |rows|
  {
    HitsKeep(rows, v);
    if |rows| == 0 then Swept(s, [], 0, false)
    else
      JpaRemove.MatchesOne(rows[0], v);
      if Matches(rows[0], v) then
        var s' := RemoveActive(s, RowEntity(rows[0]));
        if hit then Swept(s', rows[1..], 0, true)
        else
          var t := SweepVariant(s', v, rows[1..], true);
          Swept(t.session, t.rest, t.removed + 1, t.failed)
      else
        var t := SweepVariant(s, v, rows[1..], hit);
        Swept(t.session, [rows[0]] + t.rest, t.removed, t.failed)
  }

  /** Some variant of the list matches two rows of the list. */
  predicate Twinned(rows: seq<ValueRow>, vs: seq<Variant>) {
    exists i :: 0 <= i < |vs| && Hits(rows, vs[i]) > 1
  }

  /** After a variant that matched at most one row has swept, the other
      variants are twinned in what it left exactly when they were before. */
  lemma TwinnedAfterSweep(rows: seq<ValueRow>, vs: seq<Variant>)
    requires |vs| > 0 && Hits(rows, vs[0]) <= 1
    ensures Twinned(JpaRemove.Keep(rows, [vs[0]]), vs[1..]) <==> Twinned(rows, vs)
  {
    var left := JpaRemove.Keep(rows, [vs[0]]);
    forall i | 1 <= i < |vs|
      ensures Hits(left, vs[1..][i - 1]) > 1 <==> Hits(rows, vs[i]) > 1
    {
      assert vs[1..][i - 1] == vs[i];
      HitsAfterKeep(rows, vs[0], vs[i]);
    }
    if Twinned(left, vs[1..]) {
      var j :| 0 <= j < |vs| - 1 && Hits(left, vs[1..][j]) > 1;
      assert Hits(rows, vs[j + 1]) > 1;
    }
    if Twinned(rows, vs) {
      var i :| 0 <= i < |vs| && Hits(rows, vs[i]) > 1;
      assert i > 0;
      assert Hits(left, vs[1..][i - 1]) > 1;
    }
  }

  /** The outer loop: one sweep per variant on the rows earlier sweeps left;
      it fails exactly when some variant matches two of the rows, and
      otherwise removes what the current generation's loop removes, at most
      one row per variant. */
  function SweepAll(s: Session, vs: seq<Variant>, rows: seq<ValueRow>): (r: Swept)
    requires IsActive(s)
    ensures IsActive(r.session) && r.session.db == s.db && r.session.hasFactory == s.hasFactory
    ensures r.failed <==> Twinned(rows, vs)
    ensures !r.failed ==>
      && r.rest == JpaRemove.Keep(rows, vs)
      && r.removed == |rows| - |r.rest|
      && r.removed <= |vs|
      && r.session == JpaRemove.SweepAll(s, vs, rows).session
    decreases |vs|
  {
    if |vs| == 0 then
      JpaRemove.KeepNothing(rows);
      Swept(s, rows, 0, false)
    else
      var a := SweepVariant(s, vs[0], rows, false);
      if a.failed then Swept(a.session, a.rest, a.removed, true)
      else
        var b := SweepAll(a.session, vs[1..], a.rest);
        TwinnedAfterSweep(rows, vs);
        JpaRemove.KeepSplits(rows, vs);
        Swept(b.session, b.rest, a.removed + b.removed, b.failed)
  }

  /** The bulk `remove`. A null aggregate is rejected before the transaction
      begins; an absent key ends it and returns; several key rows with the
      id, a null variant set or an iterator failure leave it open; a key
      without rows and an empty variant set end it and fail. Otherwise the
      matched rows are removed, and the key as well when as many rows were
      removed as variants were given. The change set is not used. */
  function RemoveKey(s: Session, key: string, kv: Option<KeyValues>, changeSet: Option<string>): (o: Outcome<()>)
    ensures JavaText.IsBlank(key) ==> o == Outcome(s, Err(BlankKey))
    ensures !JavaText.IsBlank(key) && kv.None? ==> o == Outcome(s, Err(NullArgument))
    ensures !JavaText.IsBlank(key) && kv.Some? && !s.hasFactory ==> o == Outcome(s, Err(NoFactory))
    ensures o.result.Ok? ==> o.session.phase == Idle
    ensures o.session.phase.Active? ==> o.session.db == s.db
    ensures UniqueIds(s.db.rows) ==> UniqueIds(o.session.db.rows)
    ensures !JavaText.IsBlank(key) && kv.Some? && s.hasFactory ==>
      var ks := LegacyDao.KeysWithId(s.db.keys, key);
      && (|ks| == 0 ==> o.result == Ok(()) && o.session.db == s.db)
      && (|ks| > 1 ==> o.result == Err(MultipleResults) && IsActive(o.session))
    ensures !JavaText.IsBlank(key) && kv.Some? && s.hasFactory && |LegacyDao.KeysWithId(s.db.keys, key)| == 1 ==>
      var rows := Select(s.db.rows, ByKey(key));
      var variants := kv.value.variants;
      && (|rows| == 0 ==> o.result == Err(NoValues(key)) && o.session.db == s.db)
      && (|rows| > 0 && variants.None? ==> o.result == Err(NullValues) && IsActive(o.session))
      && (|rows| > 0 && variants == Some([]) ==> o.result == Err(EmptyValues) && o.session.db == s.db)
      && (|rows| > 0 && variants.Some? && |variants.value| > 0 ==>
            (o.result == Err(IteratorState) <==> Twinned(rows, variants.value)))
  {
    if JavaText.IsBlank(key) then Outcome(s, Err(BlankKey))
    else if kv.None? then Outcome(s, Err(NullArgument))
    else
      var b := Begin(s);
      if b.Err? then Outcome(s, Err(b.error))
      else
        var s1 := b.value;
        var found := LegacyDao.LoadRopertyKey(s1.db, key).result;
        if found.Err? then Outcome(s1, Err(found.error))
        else if found.value.None? then Outcome(EndActive(s1), Ok(()))
        else
          var k := found.value.value;
          var rows := RowsOf(LegacyDao.LoadRopertyValues(s1.db, k));
          if |rows| == 0 then Outcome(EndActive(s1), Err(NoValues(k.id)))
          else RemoveKeyValues(s1, k, kv.value, rows)
  }

  /** The part of the bulk `remove` after the rows are loaded: the variant
      set is copied (a null one throws with the transaction open), an empty
      one ends it and fails, and otherwise the sweep decides. */
  function RemoveKeyValues(s: Session, k: KeyRecord, kv: KeyValues, rows: seq<ValueRow>): (o: Outcome<()>)
    requires IsActive(s)
    ensures o.result.Ok? ==> o.session.phase == Idle
    ensures o.session.phase.Active? ==> o.session.db == s.db
    ensures kv.variants.None? ==> o == Outcome(s, Err(NullValues))
    ensures kv.variants == Some([]) ==> o == Outcome(EndActive(s), Err(EmptyValues))
    ensures kv.variants.Some? && |kv.variants.value| > 0 ==>
      (o.result == Err(IteratorState) <==> Twinned(rows, kv.variants.value))
    ensures o.result != Err(IteratorState) ==>
      var jpa := JpaRemove.RemoveKeyValues(s, k, kv, rows);
      o == (if jpa.result.Err? then jpa else Outcome(EndActive(jpa.session), Ok(())))
  {
    match kv.variants
    case None => Outcome(s, Err(NullValues))
    case Some(vs) =>
      if |vs| == 0 then Outcome(EndActive(s), Err(EmptyValues))
      else
        var sw := SweepAll(s, vs, rows);
        if sw.failed then Outcome(sw.session, Err(IteratorState))
        else
          var s2 := if |vs| == sw.removed then RemoveActive(sw.session, KeyEntity(k)) else sw.session;
          Outcome(EndActive(s2), Ok(()))
  }

  /** With at most one key row for the id, the equality query finds what
      the primary-key lookup finds. */
  lemma KeyLookupAgrees(keys: seq<KeyRecord>, key: string)
    requires |LegacyDao.KeysWithId(keys, key)| <= 1
    ensures Single(LegacyDao.KeysWithId(keys, key)) == Ok(FindKey(keys, key))
  {
    var ks := LegacyDao.KeysWithId(keys, key);
    if FindKey(keys, key).Some? {
      assert FindKey(keys, key).value in ks;
    }
  }

  /** Unless an iterator fails, and wherever the current generation can
      build its query, the bulk `remove` of a non-null aggregate does what
      the current generation's does. */
  lemma RemoveKeyAgrees(w: JpaDao.Wiring, s: Session, key: string, kv: Option<KeyValues>, changeSet: Option<string>)
    requires w.typedQuery && kv.Some? && |LegacyDao.KeysWithId(s.db.keys, key)| <= 1
    ensures RemoveKey(s, key, kv, changeSet).result != Err(IteratorState) ==>
      RemoveKey(s, key, kv, changeSet) == JpaRemove.RemoveKey(w, s, key, kv, changeSet)
  {
    if !JavaText.IsBlank(key) && s.hasFactory {
      var s1 := Begin(s).value;
      KeyLookupAgrees(s1.db.keys, key);
      var found := FindKey(s1.db.keys, key);
      if found.Some? {
        var k := found.value;
        assert RowsOf(LegacyDao.LoadRopertyValues(s1.db, k)) == RowsOf(JpaDao.LoadRopertyValues(w, s1.db, k).result.value);
      }
    }
  }

  /** Whenever the bulk `remove` of a non-empty variant set succeeds, the
      rows some variant matches are gone, and the key with them exactly when
      as many rows were removed as variants were given. */
  lemma RemoveKeyRemoves(s: Session, key: string, kv: Option<KeyValues>, changeSet: Option<string>)
    requires |LegacyDao.KeysWithId(s.db.keys, key)| <= 1
    requires kv.Some? && kv.value.variants.Some? && |kv.value.variants.value| > 0
    ensures var o := RemoveKey(s, key, kv, changeSet);
      var rows := Select(s.db.rows, ByKey(key));
      var vs := kv.value.variants.value;
      var db := o.session.db;
      o.result.Ok? && HasKey(s.db, key) ==>
        && db.keys == (if |vs| == |rows| - |JpaRemove.Keep(rows, vs)| then KeysExcept(s.db.keys, key) else s.db.keys)
        && db.nextId == s.db.nextId
        && forall x :: x in db.rows <==> x in s.db.rows && x.id !in JpaRemove.MatchedIds(rows, vs)
  {
    var o := RemoveKey(s, key, kv, changeSet);
    if o.result.Ok? && HasKey(s.db, key) {
      RemoveKeyAgrees(JpaDao.Wired, s, key, kv, changeSet);
      assert o == JpaRemove.RemoveKey(JpaDao.Wired, s, key, kv, changeSet);
      assert !JavaText.IsBlank(key) && s.hasFactory && Count(s.db.rows, key) > 0;
    }
  }

  /** A key whose rows differ pairwise in pattern or value, as the unique
      index on (key, pattern, value) guarantees, never makes the bulk
      `remove` fail in an iterator. */
  predicate TwinFree(rows: seq<ValueRow>) {
    forall i, j :: 0 <= i < j < |rows| ==> (rows[i].pattern, rows[i].value) != (rows[j].pattern, rows[j].value)
  }

  lemma {:induction false} NoMatchNoHits(rows: seq<ValueRow>, v: Variant)
    requires forall i :: 0 <= i < |rows| ==> !Matches(rows[i], v)
    ensures Hits(rows, v) == 0
    decreases |rows|
  {
    if |rows| > 0 {
      assert forall i :: 1 <= i < |rows| ==> rows[1..][i - 1] == rows[i];
      NoMatchNoHits(rows[1..], v);
    }
  }

  lemma {:induction false} TwinFreeHits(rows: seq<ValueRow>, v: Variant)
    requires TwinFree(rows)
    ensures Hits(rows, v) <= 1
    decreases |rows|
  {
    if |rows| > 0 {
      var tail := rows[1..];
      assert forall i :: 0 <= i < |tail| ==> tail[i] == rows[i + 1];
      assert TwinFree(tail);
      if Matches(rows[0], v) {
        forall i | 0 <= i < |tail|
          ensures !Matches(tail[i], v)
        {
          assert (rows[0].pattern, rows[0].value) != (rows[i + 1].pattern, rows[i + 1].value);
        }
        NoMatchNoHits(tail, v);
      } else {
        TwinFreeHits(tail, v);
      }
    }
  }

  lemma TwinFreeNeverTwinned(rows: seq<ValueRow>, vs: seq<Variant>)
    requires TwinFree(rows)
    ensures !Twinned(rows, vs)
  {
    forall i | 0 <= i < |vs|
      ensures Hits(rows, vs[i]) <= 1
    {
      TwinFreeHits(rows, vs[i]);
    }
  }

  /** The unique index on (key, pattern, value) over the whole table makes
      the rows of any one key twin-free. */
  lemma {:induction false} UniqueIndexTwinFree(rows: seq<ValueRow>, key: string)
    requires UniqueIndexOk(rows)
    ensures TwinFree(Select(rows, ByKey(key)))
    decreases |rows|
  {
    if |rows| > 0 {
      var tail := rows[1..];
      assert forall i :: 0 <= i < |tail| ==> tail[i] == rows[i + 1];
      assert UniqueIndexOk(tail);
      UniqueIndexTwinFree(tail, key);
      var rest := Select(tail, ByKey(key));
      if rows[0].key == key {
        var sel := Select(rows, ByKey(key));
        assert sel == [rows[0]] + rest;
        forall j | 0 <= j < |rest|
          ensures (rows[0].pattern, rows[0].value) != (rest[j].pattern, rest[j].value)
        {
          assert rest[j] in tail && Holds(ByKey(key), rest[j]);
          var m :| 0 <= m < |tail| && tail[m] == rest[j];
          assert (rows[0].key, rows[0].pattern, rows[0].value) != (rows[m + 1].key, rows[m + 1].pattern, rows[m + 1].value);
        }
        forall i, j | 0 <= i < j < |sel|
          ensures (sel[i].pattern, sel[i].value) != (sel[j].pattern, sel[j].value)
        {
          assert sel[j] == rest[j - 1];
          if i > 0 {
            assert sel[i] == rest[i - 1];
          }
        }
      } else {
        assert Select(rows, ByKey(key)) == rest;
      }
    }
  }

  /** The single `remove`: delete the row of the key with the variant's
      pattern, whatever its change set, and the key as well when it had
      exactly one row before. A null or non-serializable value ends the
      transaction and fails; a missing row ends it and returns. A null
      pattern is refused by the query builder inside the lookup, leaving the
      transaction open. */
  function RemoveValue(s: Session, key: string, dsv: Option<Variant>, changeSet: Option<string>): (o: Outcome<()>)
    ensures JavaText.IsBlank(key) ==> o == Outcome(s, Err(BlankKey))
    ensures !JavaText.IsBlank(key) && dsv.None? ==> o == Outcome(s, Err(NullArgument))
    ensures !JavaText.IsBlank(key) && dsv.Some? && !s.hasFactory ==> o == Outcome(s, Err(NoFactory))
    ensures o.result.Ok? ==> o.session.phase == Idle
    ensures o.session.phase.Active? ==> o.session.db == s.db
    ensures !JavaText.IsBlank(key) && dsv.Some? && s.hasFactory ==>
      var ks := LegacyDao.KeysWithId(s.db.keys, key);
      && (|ks| == 0 ==> o.result == Ok(()) && o.session.db == s.db)
      && (|ks| > 1 ==> o.result == Err(MultipleResults) && IsActive(o.session))
    ensures !JavaText.IsBlank(key) && dsv.Some? && s.hasFactory && |LegacyDao.KeysWithId(s.db.keys, key)| == 1 ==>
      var v := dsv.value;
      var sel := Select(s.db.rows, ByKeyPattern(key, v.pattern));
      var db := o.session.db;
      && (v.value.None? ==> o.result == Err(NullValue) && db == s.db)
      && (v.value.Some? && !IsStorable(v.value.value) ==> o.result == Err(NotSerializable) && db == s.db)
      && (StorableValue(v.value) && v.pattern.None? ==> o.result == Err(NullComparison) && IsActive(o.session))
      && (StorableValue(v.value) && v.pattern.Some? && |sel| == 0 ==> o.result == Ok(()) && db == s.db)
      && (StorableValue(v.value) && v.pattern.Some? && |sel| > 1 ==> o.result == Err(MultipleResults) && IsActive(o.session))
      && (StorableValue(v.value) && v.pattern.Some? && |sel| == 1 ==> o.result == Ok(()) && db == JpaRemoveLaws.DropOne(s.db, sel[0]))
  {
    if JavaText.IsBlank(key) then Outcome(s, Err(BlankKey))
    else if dsv.None? then Outcome(s, Err(NullArgument))
    else
      var b := Begin(s);
      if b.Err? then Outcome(s, Err(b.error))
      else
        var s1 := b.value;
        var found := LegacyDao.LoadRopertyKey(s1.db, key).result;
        if found.Err? then Outcome(s1, Err(found.error))
        else if found.value.None? then Outcome(EndActive(s1), Ok(()))
        else
          var k := found.value.value;
          var n := Count(s1.db.rows, k.id);
          var value := dsv.value.value;
          if value.None? then Outcome(EndActive(s1), Err(NullValue))
          else if !IsStorable(value.value) then Outcome(EndActive(s1), Err(NotSerializable))
          else
            var a := LegacyDao.LoadRopertyValue(s1.db, k, dsv.value.pattern);
            if a.Err? then Outcome(s1, Err(a.error))
            else if a.value.None? then Outcome(EndActive(s1), Ok(()))
            else
              var s2 := RemoveActive(s1, RowEntity(a.value.value));
              var s3 := if n == 1 then RemoveActive(s2, KeyEntity(k)) else s2;
              Outcome(EndActive(s3), Ok(()))
  }

  /** The single `remove` keeps a well-keyed store consistent. */
  lemma RemoveValueKeepsConsistent(s: Session, key: string, dsv: Option<Variant>, changeSet: Option<string>)
    requires WellKeyed(s.db) && Consistent(s.db)
    ensures var db := RemoveValue(s, key, dsv, changeSet).session.db;
      WellKeyed(db) && Consistent(db)
  {
    var o := RemoveValue(s, key, dsv, changeSet);
    if o.session.db != s.db {
      var sel := Select(s.db.rows, ByKeyPattern(key, dsv.value.pattern));
      assert sel[0] in sel;
      JpaRemoveLaws.DropOneKeepsConsistent(s.db, sel[0]);
    }
  }

  /** Unlike the current generation, the single `remove` does not look at
      the change set: the same call under any two change sets does the same. */
  lemma RemoveValueIgnoresChangeSet(s: Session, key: string, dsv: Option<Variant>, changeSet: Option<string>, other: Option<string>)
    ensures RemoveValue(s, key, dsv, changeSet) == RemoveValue(s, key, dsv, other)
  {
  }
}
