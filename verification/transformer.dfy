/**
 * `RopertyValueTransformer.transformValues`: turns the rows of one key into
 * a fresh `KeyValues`, one put per row in list order, splitting each pattern
 * into domain parts and choosing the slot by the row's change set.
 */
module Transformer {
  import opened Wrappers
  import opened Entities
  import Patterns
  import JpaDao

  /** The put a row turns into: a NULL change set goes to the default slot,
      any other (the empty string included) to a named one. */
  function PutFor(row: ValueRow, pattern: string): (p: Put)
    ensures p.slot == Default <==> row.changeSet.None?
    ensures p.slot.Named? ==> Some(p.slot.name) == row.changeSet
    ensures p.value == row.value
    ensures p.parts == Patterns.DomainKeyParts(pattern)
  {
    Put(if row.changeSet.None? then Default else Named(row.changeSet.value), row.value, Patterns.DomainKeyParts(pattern))
  }

  /** A row the loop cannot get past: no pattern, or no owning key. */
  predicate Broken(v: RowView) {
    v.row.pattern.None? || v.owner.None?
  }

  /** Index of the first broken row, or the length when there is none. */
  function FirstBroken(views: seq<RowView>): (j: nat)
    ensures j <= |views|
    ensures forall i :: 0 <= i < j ==> !Broken(views[i])
    ensures j < |views| ==> Broken(views[j])
    decreases |views|
  {
    if |views| == 0 then 0
    else if Broken(views[0]) then 0
    else 1 + FirstBroken(views[1..])
  }

  /** The aggregate as built so far, and the exception that ended the loop. */
  datatype Fold = Fold(built: Loaded, failure: Option<Error>)

  /** The loop over `views` stops at the first broken row with that row's
      exception, having put every row before it, and the broken row itself
      when only its key is missing. */
  predicate StopsAtBroken(views: seq<RowView>, f: Fold) {
    var j := FirstBroken(views);
    && (f.failure.None? <==> j == |views|)
    && (f.failure.Some? ==> f.failure.value == if views[j].row.pattern.None? then NullPattern else NullKeyOfValue)
    && |f.built.puts| == j + (if j < |views| && views[j].row.pattern.Some? then 1 else 0)
  }

  /** Put `i` is the put of row `i`, in order. */
  predicate PutsInOrder(views: seq<RowView>, puts: seq<Put>) {
    && |puts| <= |views|
    && forall i :: 0 <= i < |puts| ==>
         views[i].row.pattern.Some? && puts[i] == PutFor(views[i].row, views[i].row.pattern.value)
  }

  /** A loop that gets through leaves the last row's key description. */
  predicate EndsWithLastDescription(desc: Option<string>, views: seq<RowView>, f: Fold) {
    && (f.failure.None? && |views| == 0 ==> f.built.description == desc)
    && (f.failure.None? && |views| > 0 ==>
          views[|views| - 1].owner.Some? && f.built.description == views[|views| - 1].owner.value.description)
  }

  /** What the loop of `transformValues` over `views`, starting from
      description `desc`, yields. */
  predicate Folds(desc: Option<string>, views: seq<RowView>, f: Fold) {
    StopsAtBroken(views, f) && PutsInOrder(views, f.built.puts) && EndsWithLastDescription(desc, views, f)
  }

  /** The loop of `transformValues`: check the pattern, put the value, then
      check the key and copy its description. */
  function TransformRows(desc: Option<string>, views: seq<RowView>): (f: Fold)
    ensures Folds(desc, views, f)
    decreases |views|
  {
    if |views| == 0 then Fold(Loaded(desc, []), None)
    else
      var v := views[0];
      if v.row.pattern.None? then Fold(Loaded(desc, []), Some(NullPattern))
      else
        var put := PutFor(v.row, v.row.pattern.value);
        if v.owner.None? then Fold(Loaded(desc, [put]), Some(NullKeyOfValue))
        else
          var f := TransformRows(v.owner.value.description, views[1..]);
          var g := Fold(f.built.(puts := [put] + f.built.puts), f.failure);
          StopsAtBrokenCons(views, f, g);
          PutsInOrderCons(views, f.built.puts);
          EndsWithCons(desc, views, f, g);
          g
  }

  lemma StopsAtBrokenCons(views: seq<RowView>, f: Fold, g: Fold)
    requires |views| > 0 && !Broken(views[0]) && StopsAtBroken(views[1..], f)
    requires g.failure == f.failure && |g.built.puts| == 1 + |f.built.puts|
    ensures StopsAtBroken(views, g)
  {
    var j := FirstBroken(views[1..]);
    assert FirstBroken(views) == 1 + j;
    assert j < |views| - 1 ==> views[1 + j] == views[1..][j];
  }

  lemma PutsInOrderCons(views: seq<RowView>, puts: seq<Put>)
    requires |views| > 0 && !Broken(views[0]) && PutsInOrder(views[1..], puts)
    ensures PutsInOrder(views, [PutFor(views[0].row, views[0].row.pattern.value)] + puts)
  {
    var all := [PutFor(views[0].row, views[0].row.pattern.value)] + puts;
    forall i | 0 <= i < |all|
      ensures views[i].row.pattern.Some? && all[i] == PutFor(views[i].row, views[i].row.pattern.value)
    {
      if i > 0 {
        assert views[i] == views[1..][i - 1] && all[i] == puts[i - 1];
      }
    }
  }

  lemma EndsWithCons(desc: Option<string>, views: seq<RowView>, f: Fold, g: Fold)
    requires |views| > 0 && !Broken(views[0])
    requires EndsWithLastDescription(views[0].owner.value.description, views[1..], f)
    requires g.failure == f.failure && g.built.description == f.built.description
    ensures EndsWithLastDescription(desc, views, g)
  {
    assert |views| > 1 ==> views[|views| - 1] == views[1..][|views| - 2];
  }

  /** `transformValues`: no rows give null, never an empty aggregate; a null
      aggregate from the factory is rejected; otherwise every row is put, in
      order, and the description is the last row's key description. */
  function TransformValues(w: JpaDao.Wiring, views: seq<RowView>): (r: Result<Option<Loaded>, Error>)
    ensures r == Ok(None) <==> |views| == 0
    ensures |views| > 0 && !w.factory ==> r == Err(NullAggregate)
    ensures r.Ok? && r.value.Some? ==> w.factory && FirstBroken(views) == |views|
    ensures r.Ok? && r.value.Some? ==>
      var l := r.value.value;
      && |l.puts| == |views| > 0
      && (forall i :: 0 <= i < |views| ==> views[i].row.pattern.Some? && l.puts[i] == PutFor(views[i].row, views[i].row.pattern.value))
      && l.description == views[|views| - 1].owner.value.description
    ensures |views| > 0 && w.factory && FirstBroken(views) < |views| ==>
      r == Err(if views[FirstBroken(views)].row.pattern.None? then NullPattern else NullKeyOfValue)
  {
    if |views| == 0 then Ok(None)
    else if !w.factory then Err(NullAggregate)
    else
      var f := TransformRows(None, views);
      if f.failure.Some? then Err(f.failure.value) else Ok(Some(f.built))
  }

  /** The puts of a transformed list, restated against the rows the views carry. */
  lemma PutsFollowRows(w: JpaDao.Wiring, views: seq<RowView>, rows: seq<ValueRow>)
    requires TransformValues(w, views).Ok? && TransformValues(w, views).value.Some?
    requires |rows| == |views| && forall i :: 0 <= i < |views| ==> views[i].row == rows[i]
    ensures var l := TransformValues(w, views).value.value;
      |l.puts| == |rows| &&
      forall i :: 0 <= i < |rows| ==> rows[i].pattern.Some? && l.puts[i] == PutFor(rows[i], rows[i].pattern.value)
  {
  }
}
