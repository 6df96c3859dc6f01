/** The formatter `formatAndWriteMesaurements`: the station names are collected
    into a slice, sorted byte-wise by `sort.Strings`, and one report line is
    produced per station in that order (main.go:166-187).  The `%.1f`
    rendering and the buffered writer are not modelled; a row keeps the
    exact integers the line is printed from. */
module Report {
  import opened Measurements


  /** Go's `<` on strings: byte-wise lexicographic order, a proper prefix
      coming first. */
  predicate Less(a: Bytes, b: Bytes)
  {
    if |a| == 0 then |b| > 0
    else if |b| == 0 then false
    else if a[0] != b[0] then a[0] < b[0]
    else Less(a[1..], b[1..])
  }

  lemma {:induction false} LessIrreflexive(a: Bytes)
    ensures !Less(a, a)
  {
    if |a| > 0 {
      LessIrreflexive(a[1..]);
    }
  }

  lemma {:induction false} LessAsymmetric(a: Bytes, b: Bytes)
    requires Less(a, b)
    ensures !Less(b, a)
  {
    if |a| > 0 && |b| > 0 && a[0] == b[0] {
      LessAsymmetric(a[1..], b[1..]);
    }
  }

  lemma {:induction false} LessTransitive(a: Bytes, b: Bytes, c: Bytes)
    requires Less(a, b) && Less(b, c)
    ensures Less(a, c)
  {
    if |a| > 0 && a[0] == b[0] && b[0] == c[0] {
      LessTransitive(a[1..], b[1..], c[1..]);
    }
  }

  /** Two different byte strings are ordered one way or the other. */
  lemma {:induction false} LessTotal(a: Bytes, b: Bytes)
    requires a != b
    ensures Less(a, b) || Less(b, a)
  {
    if |a| > 0 && |b| > 0 && a[0] == b[0] {
      assert a == [a[0]] + a[1..] && b == [b[0]] + b[1..];
      LessTotal(a[1..], b[1..]);
    }
  }

  /** No element is smaller than its predecessor. */
  predicate Sorted(s: seq<Bytes>)
  {
    forall k :: 0 < k < |s| ==> !Less(s[k], s[k - 1])
  }

  /** Strictly ascending and therefore free of duplicates. */
  predicate StrictlyAscending(s: seq<Bytes>)
  {
    forall i, j :: 0 <= i < j < |s| ==> Less(s[i], s[j])
  }

  /** No element occurs twice. */
  predicate Distinct(s: seq<Bytes>)
  {
    forall i, j :: 0 <= i < j < |s| ==> s[i] != s[j]
  }

  /** `sort.Strings`: sorts the slice in place.  Go's library uses a
      different algorithm; what the caller relies on is its contract, that
      the slice becomes a sorted permutation of itself. */
  method SortStrings(a: array<Bytes>)
    modifies a
    ensures Sorted(a[..])
    ensures multiset(a[..]) == old(multiset(a[..]))
  {
    var i := 0;
    while i < a.Length
      invariant 0 <= i <= a.Length
      invariant Sorted(a[..i])
      invariant multiset(a[..]) == old(multiset(a[..]))
    {
      InsertAt(a, i);
      i := i + 1;
    }
    assert a[..i] == a[..];
  }

  /** One insertion step: `a[i]` moves left past every larger element, so
      the sorted prefix grows by one. */
  method InsertAt(a: array<Bytes>, i: int)
    requires 0 <= i < a.Length
    requires Sorted(a[..i])
    modifies a
    ensures Sorted(a[..i + 1])
    ensures multiset(a[..]) == old(multiset(a[..]))
    ensures a[i + 1..] == old(a[i + 1..])
  {
    var j := i;
    SortedExceptStart(a[..], i);
    while j > 0 && Less(a[j], a[j - 1])
      invariant 0 <= j <= i
      invariant SortedExcept(a[..], i, j)
      invariant multiset(a[..]) == old(multiset(a[..]))
      invariant a[i + 1..] == old(a[i + 1..])
    {
      ghost var before := a[..];
      a[j - 1], a[j] := a[j], a[j - 1];
      assert a[..] == before[j - 1 := before[j]][j := before[j - 1]];
      SwapStep(before, i, j);
      j := j - 1;
    }
    SortedExceptEnd(a[..], i, j);
  }

  /** `s[..i + 1]` is sorted except that `s[j]` may be smaller than its
      predecessor; its neighbours on either side are still in order. */
  predicate SortedExcept(s: seq<Bytes>, i: int, j: int)
    requires 0 <= j <= i < |s|
  {
    (forall k :: 0 < k <= i && k != j ==> !Less(s[k], s[k - 1]))
    && (0 < j < i ==> !Less(s[j + 1], s[j - 1]))
  }

  lemma SortedExceptStart(s: seq<Bytes>, i: int)
    requires 0 <= i < |s| && Sorted(s[..i])
    ensures SortedExcept(s, i, i)
  {
    forall k | 0 < k < i ensures !Less(s[k], s[k - 1]) {
      assert s[..i][k] == s[k] && s[..i][k - 1] == s[k - 1];
    }
  }

  /** Swapping `s[j]` with a larger predecessor moves the exception one
      place left and keeps the elements. */
  lemma SwapStep(s: seq<Bytes>, i: int, j: int)
    requires 0 < j <= i < |s| && SortedExcept(s, i, j) && Less(s[j], s[j - 1])
    ensures SortedExcept(s[j - 1 := s[j]][j := s[j - 1]], i, j - 1)
    ensures multiset(s[j - 1 := s[j]][j := s[j - 1]]) == multiset(s)
  {
    var t := s[j - 1 := s[j]][j := s[j - 1]];
    LessAsymmetric(s[j], s[j - 1]);
    assert !Less(t[j], t[j - 1]);
    forall k | 0 < k <= i && k != j - 1 ensures !Less(t[k], t[k - 1]) {
      if k == j + 1 {
        assert t[k] == s[j + 1] && t[k - 1] == s[j - 1];
      } else if k != j {
        assert t[k] == s[k] && t[k - 1] == s[k - 1];
      }
    }
    if 0 < j - 1 {
      assert t[j] == s[j - 1] && t[j - 2] == s[j - 2];
    }
  }

  lemma SortedExceptEnd(s: seq<Bytes>, i: int, j: int)
    requires 0 <= j <= i < |s| && SortedExcept(s, i, j)
    requires j == 0 || !Less(s[j], s[j - 1])
    ensures Sorted(s[..i + 1])
  {
    var p := s[..i + 1];
    forall k | 0 < k < |p| ensures !Less(p[k], p[k - 1]) {
      assert p[k] == s[k] && p[k - 1] == s[k - 1];
    }
  }

  /** Sorted without duplicates is strictly ascending. */
  lemma {:induction false} SortedDistinctAscending(s: seq<Bytes>)
    requires Sorted(s) && Distinct(s)
    ensures StrictlyAscending(s)
    decreases |s|
  {
    if |s| > 1 {
      var init := s[..|s| - 1];
      SortedDistinctAscending(init);
      forall i | 0 <= i < |s| - 1 ensures Less(s[i], s[|s| - 1]) {
        var last := s[|s| - 1];
        var prev := s[|s| - 2];
        LessTotal(prev, last);
        if i < |s| - 2 {
          assert Less(init[i], init[|s| - 2]);
          LessTransitive(s[i], prev, last);
        }
      }
    }
  }

  lemma {:induction false} DistinctMultiset(s: seq<Bytes>)
    ensures Distinct(s) <==> forall x :: multiset(s)[x] <= 1
    decreases |s|
  {
    if s != [] {
      var init := s[..|s| - 1];
      var y := s[|s| - 1];
      assert s == init + [y];
      DistinctMultiset(init);
      if Distinct(s) {
        assert Distinct(init);
        forall i | 0 <= i < |init| ensures init[i] != y {
          assert s[i] != s[|s| - 1];
        }
        assert y !in init;
      } else {
        var i, j :| 0 <= i < j < |s| && s[i] == s[j];
        if j < |s| - 1 {
          assert init[i] == init[j];
          assert !Distinct(init);
          var x :| multiset(init)[x] > 1;
          assert multiset(s) == multiset(init) + multiset{y};
          assert multiset(s)[x] > 1;
        } else {
          assert y in init by { assert init[i] == y; }
          assert multiset(s)[y] == multiset(init)[y] + 1;
        }
      }
    }
  }

  /** The station names of the map, collected in map order and then sorted
      (main.go:167-174). */
  method SortedStations(stationTempMap: StatsMap) returns (stations: seq<Bytes>)
    ensures |stations| == |stationTempMap|
    ensures forall city :: city in stationTempMap <==> city in stations
    ensures StrictlyAscending(stations)
  {
    var buf := new Bytes[|stationTempMap|];
    var count := 0;
    var rest := stationTempMap.Keys;
    while rest != {}
      invariant rest <= stationTempMap.Keys
      invariant count + |rest| == |stationTempMap|
      invariant forall city :: city in buf[..count] <==> city in stationTempMap && city !in rest
      invariant Distinct(buf[..count])
      decreases rest
    {
      var city :| city in rest;
      buf[count] := city;
      assert buf[..count + 1] == buf[..count] + [city];
      count := count + 1;
      rest := rest - {city};
    }
    assert buf[..] == buf[..count];
    ghost var collected := buf[..];
    SortStrings(buf);
    stations := buf[..];
    SortedPermutation(collected, stations);
  }

  /** A sorted permutation of a duplicate-free list has the same elements
      and is strictly ascending. */
  lemma SortedPermutation(collected: seq<Bytes>, stations: seq<Bytes>)
    requires Distinct(collected) && Sorted(stations)
    requires multiset(stations) == multiset(collected)
    ensures forall city :: city in stations <==> city in collected
    ensures StrictlyAscending(stations)
  {
    DistinctMultiset(collected);
    forall city ensures city in stations <==> city in collected {
      assert city in stations <==> city in multiset(stations);
      assert city in collected <==> city in multiset(collected);
    }
    DistinctMultiset(stations);
    SortedDistinctAscending(stations);
  }

  /** One report line before rendering: the station, its minimum, the sum
      and count its mean is computed from, and its maximum. */
  datatype Row = Row(station: Bytes, min: int, sum: int, count: int, max: int)

  /** The report: one row per station, in ascending byte order of the
      station names, each carrying that station's entry (main.go:166-187). */
  method FormatMeasurements(stationTempMap: StatsMap) returns (rows: seq<Row>)
    ensures |rows| == |stationTempMap|
    ensures forall city :: city in stationTempMap <==> exists i :: 0 <= i < |rows| && rows[i].station == city
    ensures forall i, j :: 0 <= i < j < |rows| ==> Less(rows[i].station, rows[j].station)
    ensures forall i :: 0 <= i < |rows| ==>
      (rows[i].station in stationTempMap
       && var s := stationTempMap[rows[i].station];
          rows[i] == Row(rows[i].station, s.min, s.sum, s.count, s.max))
  {
    var stations := SortedStations(stationTempMap);
    rows := [];
    for i := 0 to |stations|
      invariant |rows| == i
      invariant forall k :: 0 <= k < i ==> rows[k].station == stations[k]
      invariant forall k :: 0 <= k < i ==>
        (rows[k].station in stationTempMap
         && var s := stationTempMap[rows[k].station];
            rows[k] == Row(rows[k].station, s.min, s.sum, s.count, s.max))
    {
      var station := stationTempMap[stations[i]];
      rows := rows + [Row(stations[i], station.min, station.sum, station.count, station.max)];
    }
    RowsCoverStations(stationTempMap, stations, rows);
  }

  lemma RowsCoverStations(stationTempMap: StatsMap, stations: seq<Bytes>, rows: seq<Row>)
    requires |rows| == |stations|
    requires forall k :: 0 <= k < |rows| ==> rows[k].station == stations[k]
    requires forall city :: city in stationTempMap <==> city in stations
    ensures forall city :: city in stationTempMap <==> exists i :: 0 <= i < |rows| && rows[i].station == city
  {
    forall city | city in stationTempMap
      ensures exists i :: 0 <= i < |rows| && rows[i].station == city
    {
      var i :| 0 <= i < |stations| && stations[i] == city;
      assert rows[i].station == city;
    }
  }
}
