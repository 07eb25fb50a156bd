/**
 * The two map-building loops of the load family, over an abstract loader:
 * `loadAll` stores every loaded aggregate and stops at the first failure;
 * `reload` does the same but skips the keys that load to null.
 */
module Gathering {
  import opened Wrappers

  /** Put `load(x)` under `key(x)` for every item, in order; the first
      failure is the result. */
  function PutEach<T, V, E>(items: seq<T>, key: T -> string, load: T -> Result<V, E>, acc: map<string, V>): (r: Result<map<string, V>, E>)
    ensures r.Ok? <==> forall i :: 0 <= i < |items| ==> load(items[i]).Ok?
    ensures r.Err? ==> exists i :: 0 <= i < |items| && load(items[i]) == Err(r.error) && (forall j :: 0 <= j < i ==> load(items[j]).Ok?)
    ensures r.Ok? ==> forall id :: id in r.value <==> id in acc || exists i :: 0 <= i < |items| && key(items[i]) == id
    ensures r.Ok? ==> forall id :: id in r.value ==>
      (exists i :: 0 <= i < |items| && key(items[i]) == id && r.value[id] == load(items[i]).value) || (id in acc && r.value[id] == acc[id])
    decreases |items|
  {
    if |items| == 0 then Ok(acc)
    else
      var one := load(items[0]);
      assert forall i :: 1 <= i < |items| ==> items[i] == items[1..][i - 1];
      if one.Err? then Err(one.error)
      else
        var r := PutEach(items[1..], key, load, acc[key(items[0]) := one.value]);
        if r.Ok? then
          forall id | id in r.value && !(id in acc && r.value[id] == acc[id])
            ensures exists i :: 0 <= i < |items| && key(items[i]) == id && r.value[id] == load(items[i]).value
          {
            if exists j :: 0 <= j < |items| - 1 && key(items[1..][j]) == id && r.value[id] == load(items[1..][j]).value {
              var j :| 0 <= j < |items| - 1 && key(items[1..][j]) == id && r.value[id] == load(items[1..][j]).value;
              assert items[j + 1] == items[1..][j];
            } else {
              assert key(items[0]) == id;
            }
          }
          r
        else r
  }

  /** Started from an empty map, every entry of `PutEach` is the
      successful load of some item carrying its key. */
  lemma PutEachFromEmpty<T, V, E>(items: seq<T>, key: T -> string, load: T -> Result<V, E>, id: string)
    requires PutEach(items, key, load, map[]).Ok? && id in PutEach(items, key, load, map[]).value
    ensures exists i :: 0 <= i < |items| && key(items[i]) == id && load(items[i]) == Ok(PutEach(items, key, load, map[]).value[id])
  {
    var r := PutEach(items, key, load, map[]);
    var i :| 0 <= i < |items| && key(items[i]) == id && r.value[id] == load(items[i]).value;
    assert load(items[i]).Ok?;
  }

  /** Put `load(id)` under `id` for every id whose load is not null, in
      order; the first failure is the result. */
  function PutFound<V, E>(ids: seq<string>, load: string -> Result<Option<V>, E>, acc: map<string, V>): (r: Result<map<string, V>, E>)
    ensures r.Ok? <==> forall i :: 0 <= i < |ids| ==> load(ids[i]).Ok?
    ensures r.Err? ==> exists i :: 0 <= i < |ids| && load(ids[i]) == Err(r.error) && (forall j :: 0 <= j < i ==> load(ids[j]).Ok?)
    ensures r.Ok? ==> forall id :: id in r.value <==> id in acc || (id in ids && load(id).Ok? && load(id).value.Some?)
    ensures r.Ok? ==> forall id :: id in acc && id !in ids ==> r.value[id] == acc[id]
    ensures r.Ok? ==> forall id :: id in ids && load(id).Ok? && load(id).value.Some? ==> r.value[id] == load(id).value.value
    decreases |ids|
  {
    if |ids| == 0 then Ok(acc)
    else
      var one := load(ids[0]);
      assert forall i :: 1 <= i < |ids| ==> ids[i] == ids[1..][i - 1];
      assert forall id :: id in ids <==> id == ids[0] || id in ids[1..];
      if one.Err? then Err(one.error)
      else if one.value.None? then PutFound(ids[1..], load, acc)
      else PutFound(ids[1..], load, acc[ids[0] := one.value.value])
  }

  /** When every id loads to a value, and these are all the ids, the map
      gathered is exactly the id-to-value map. */
  lemma PutFoundAll<V, E>(ids: seq<string>, load: string -> Result<Option<V>, E>, all: map<string, V>)
    requires forall id :: id in ids <==> id in all
    requires forall id :: id in all ==> load(id) == Ok(Some(all[id]))
    ensures PutFound(ids, load, map[]) == Ok(all)
  {
    var r := PutFound(ids, load, map[]);
    assert r.Ok?;
    forall id | id in all
      ensures id in r.value && r.value[id] == all[id]
    {
      assert id in ids && load(id).Ok? && load(id).value.Some?;
    }
    assert r.value.Keys == all.Keys;
    assert r.value == all;
  }
}
