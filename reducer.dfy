/** The reducer of `evaluate`: every partial map a worker produces is folded
    into one global map, entry by entry (main.go:98-117).  The result channel
    is a list of partial maps; receiving them in another order is a
    permutation of that list. */
module Reducer {
  import opened Measurements


  /** The global map after merging `partial` into `global`. */
  function MergeMaps(global: StatsMap, partial: StatsMap): StatsMap
  {
    map k | k in global.Keys + partial.Keys ::
      if k in global && k in partial then Combine(global[k], partial[k])
      else if k in partial then partial[k]
      else global[k]
  }

  /** The inner loop of the reducer: each entry of a partial map is merged
      into the global map; Go ranges over the map in no fixed order, so the
      next key is any key not yet merged. */
  method MergePartial(global: StatsMap, data: StatsMap) returns (stationTempMap: StatsMap)
    ensures stationTempMap == MergeMaps(global, data)
    ensures stationTempMap.Keys == global.Keys + data.Keys
    ensures forall city :: city in global && city in data ==>
      stationTempMap[city] == Combine(global[city], data[city])
    ensures forall city :: city in data && city !in global ==> stationTempMap[city] == data[city]
    ensures forall city :: city in global && city !in data ==> stationTempMap[city] == global[city]
  {
    stationTempMap := global;
    var rest := data.Keys;
    while rest != {}
      invariant rest <= data.Keys
      invariant stationTempMap.Keys == global.Keys + (data.Keys - rest)
      invariant forall k :: k in stationTempMap ==>
        stationTempMap[k] == (if k in data && k !in rest then
                                (if k in global then Combine(global[k], data[k]) else data[k])
                              else global[k])
      decreases rest
    {
      var city :| city in rest;
      var tempInfo := data[city];
      if city in stationTempMap {
        var val := stationTempMap[city];
        if tempInfo.min < val.min {
          val := val.(min := tempInfo.min);
        }
        if tempInfo.max > val.max {
          val := val.(max := tempInfo.max);
        }
        val := val.(sum := val.sum + tempInfo.sum, count := val.count + tempInfo.count);
        stationTempMap := stationTempMap[city := val];
      } else {
        stationTempMap := stationTempMap[city := tempInfo];
      }
      rest := rest - {city};
    }
  }

  /** The global map after merging the partial maps in the order given. */
  function Reduce(global: StatsMap, partials: seq<StatsMap>): StatsMap
  {
    if partials == [] then global
    else MergeMaps(Reduce(global, partials[..|partials| - 1]), partials[|partials| - 1])
  }

  /** The outer loop of the reducer: the partial maps are merged one after
      the other into a global map that starts empty (main.go:80, 98-117). */
  method ReduceResults(partials: seq<StatsMap>) returns (stationTempMap: StatsMap)
    ensures stationTempMap == Reduce(map[], partials)
  {
    stationTempMap := map[];
    var i := 0;
    while i < |partials|
      invariant 0 <= i <= |partials|
      invariant stationTempMap == Reduce(map[], partials[..i])
    {
      stationTempMap := MergePartial(stationTempMap, partials[i]);
      assert partials[..i + 1][..i] == partials[..i];
      i := i + 1;
    }
    assert partials[..i] == partials;
  }

  /** Merging two partial maps in either order gives the same global map. */
  lemma MergeCommutes(global: StatsMap, p: StatsMap, q: StatsMap)
    ensures MergeMaps(MergeMaps(global, p), q) == MergeMaps(MergeMaps(global, q), p)
  {
    var left := MergeMaps(MergeMaps(global, p), q);
    var right := MergeMaps(MergeMaps(global, q), p);
    assert left.Keys == right.Keys;
    forall k | k in left ensures left[k] == right[k] {
      if k in global && k in p && k in q {
        CombineSwap(global[k], p[k], q[k]);
      }
    }
  }

  lemma CombineSwap(a: Stats, b: Stats, c: Stats)
    ensures Combine(Combine(a, b), c) == Combine(Combine(a, c), b)
  {
  }

  /** Moving one partial map to the end of the list does not change the
      result of the reduction. */
  lemma {:induction false} ReduceMoveToEnd(global: StatsMap, a: seq<StatsMap>, x: StatsMap, b: seq<StatsMap>)
    ensures Reduce(global, a + [x] + b) == Reduce(global, a + b + [x])
    decreases |b|
  {
    if b == [] {
      assert a + [x] + b == a + b + [x];
    } else {
      var b' := b[..|b| - 1];
      var y := b[|b| - 1];
      assert (a + [x] + b)[..|a + [x] + b| - 1] == a + [x] + b';
      assert (a + b + [x])[..|a + b + [x]| - 1] == a + b;
      assert (a + b)[..|a + b| - 1] == a + b';
      assert (a + b' + [x])[..|a + b' + [x]| - 1] == a + b';
      ReduceMoveToEnd(global, a, x, b');
      MergeCommutes(Reduce(global, a + b'), x, y);
    }
  }

  lemma ReduceSnoc(global: StatsMap, ps: seq<StatsMap>, x: StatsMap)
    ensures Reduce(global, ps + [x]) == MergeMaps(Reduce(global, ps), x)
  {
    assert (ps + [x])[..|ps|] == ps;
  }

  lemma MultisetRemoveMiddle<T>(ps: seq<T>, x: T, a: seq<T>, b: seq<T>)
    requires multiset(ps + [x]) == multiset(a + [x] + b)
    ensures multiset(ps) == multiset(a + b)
  {
    assert multiset(ps + [x]) == multiset(ps) + multiset{x};
    assert multiset(a + [x] + b) == multiset(a) + multiset{x} + multiset(b);
    assert multiset(a + b) == multiset(a) + multiset(b);
    calc {
      multiset(ps);
      multiset(ps + [x]) - multiset{x};
      multiset(a) + multiset(b);
    }
  }

  /** The order in which the partial maps arrive does not matter: any
      permutation of them reduces to the same global map. */
  lemma {:induction false} ReduceOrderIndependent(global: StatsMap, ps: seq<StatsMap>, qs: seq<StatsMap>)
    requires multiset(ps) == multiset(qs)
    ensures Reduce(global, ps) == Reduce(global, qs)
    decreases |ps|
  {
    if ps != [] {
      var x := ps[|ps| - 1];
      var ps' := ps[..|ps| - 1];
      assert ps == ps' + [x];
      assert x in multiset(qs);
      var j :| 0 <= j < |qs| && qs[j] == x;
      var a, b := qs[..j], qs[j + 1..];
      assert qs == a + [x] + b;
      MultisetRemoveMiddle(ps', x, a, b);
      ReduceOrderIndependent(global, ps', a + b);
      ReduceMoveToEnd(global, a, x, b);
      ReduceSnoc(global, ps', x);
      ReduceSnoc(global, a + b, x);
    } else {
      assert |qs| == |multiset(qs)| == 0;
    }
  }
}
