/** The per-chunk scanner and accumulator of `processReadChunk`: one pass over
    the bytes of a chunk with two cursor variables, `city` and `start`, folding
    each accepted line into a map from station to `Stats`.  The float parser is
    the parameter `parse`; a value field it cannot read is folded with whatever
    `parse` returns for it, since the parse error is ignored. */
module Scanner {
  import opened Measurements

  /** One line the scanner folds: the station bytes and the value-field bytes. */
  datatype Record = Record(station: Bytes, value: Bytes)


  /** The records the scanner folds from index `i` on, when its cursor holds
      `city` and `start` (main.go:129-161).  A ';' sets the city to the bytes
      since `start` and moves `start` past it; a '\n' folds a record only
      when the span since `start` is non-empty and the city is non-empty, and
      only then moves `start`.  The city is never reset. */
  function ScanFrom(buf: Bytes, i: nat, city: Bytes, start: nat): seq<Record>
    requires start <= i <= |buf|
    decreases |buf| - i
  {
    if i == |buf| then []
    else if buf[i] == Semicolon then ScanFrom(buf, i + 1, buf[start..i], i + 1)
    else if buf[i] == NewLine && i - start > 0 && |city| != 0 then
      [Record(city, buf[start..i])] + ScanFrom(buf, i + 1, city, i + 1)
    else ScanFrom(buf, i + 1, city, start)
  }

  /** Whatever the cursor holds, every record the scan folds has a non-empty
      station and a non-empty value: a '\n' folds only when the bytes since
      `start` and the city are both non-empty (main.go:135). */
  lemma {:induction false} ScanFromFields(buf: Bytes, i: nat, city: Bytes, start: nat)
    requires start <= i <= |buf|
    ensures forall k :: 0 <= k < |ScanFrom(buf, i, city, start)| ==>
      |ScanFrom(buf, i, city, start)[k].station| > 0 && |ScanFrom(buf, i, city, start)[k].value| > 0
    decreases |buf| - i
  {
    if i < |buf| {
      if buf[i] == Semicolon {
        ScanFromFields(buf, i + 1, buf[start..i], i + 1);
      } else if buf[i] == NewLine && i - start > 0 && |city| != 0 {
        ScanFromFields(buf, i + 1, city, i + 1);
      } else {
        ScanFromFields(buf, i + 1, city, start);
      }
    }
  }

  /** The records folded from a whole chunk, starting from an empty city. */
  function Lines(buf: Bytes): seq<Record>
  {
    ScanFrom(buf, 0, [], 0)
  }

  /** A fold of value `v` into the map under station `k` (main.go:138-158). */
  function Fold(m: StatsMap, k: Bytes, v: int): (r: StatsMap)
    ensures r.Keys == m.Keys + {k}
    ensures forall j :: j in m && j != k ==> r[j] == m[j]
    ensures k !in m ==> r[k] == Stats(v, v, v, 1)
    ensures k in m ==> r[k].min <= v <= r[k].max
    ensures k in m ==> r[k].min <= m[k].min && r[k].max >= m[k].max
    ensures k in m ==> r[k].sum == m[k].sum + v && r[k].count == m[k].count + 1
  {
    if k in m then m[k := Add(m[k], v)] else m[k := Stats(v, v, v, 1)]
  }

  /** The map obtained by folding the records in order into an empty map. */
  function Aggregate(recs: seq<Record>, parse: Bytes -> int): StatsMap
  {
    if recs == [] then map[]
    else
      var r := recs[|recs| - 1];
      Fold(Aggregate(recs[..|recs| - 1], parse), r.station, parse(r.value))
  }

  /** The values of the records of station `k`, in order. */
  function ValuesOf(recs: seq<Record>, k: Bytes, parse: Bytes -> int): seq<int>
  {
    if recs == [] then []
    else
      var r := recs[|recs| - 1];
      ValuesOf(recs[..|recs| - 1], k, parse) + (if r.station == k then [parse(r.value)] else [])
  }

  lemma {:induction false} ValuesOfNonEmpty(recs: seq<Record>, k: Bytes, parse: Bytes -> int)
    ensures |ValuesOf(recs, k, parse)| > 0 <==> exists i :: 0 <= i < |recs| && recs[i].station == k
  {
    if recs != [] {
      var init := recs[..|recs| - 1];
      ValuesOfNonEmpty(init, k, parse);
      if exists i :: 0 <= i < |recs| && recs[i].station == k {
        var i :| 0 <= i < |recs| && recs[i].station == k;
        if i < |init| {
          assert init[i].station == k;
        }
      }
      if exists i :: 0 <= i < |init| && init[i].station == k {
        var i :| 0 <= i < |init| && init[i].station == k;
        assert recs[i].station == k;
      }
    }
  }

  lemma ValuesOfSnoc(recs: seq<Record>, r: Record, k: Bytes, parse: Bytes -> int)
    ensures ValuesOf(recs + [r], k, parse)
      == ValuesOf(recs, k, parse) + (if r.station == k then [parse(r.value)] else [])
  {
    assert (recs + [r])[..|recs|] == recs;
  }

  /** The step of AggregateIsSummary for one station and one more record. */
  lemma SummaryStep(before: StatsMap, vs: seq<int>, k: Bytes, j: Bytes, v: int)
    requires k in before <==> |vs| > 0
    requires k in before ==> before[k] == Summary(vs)
    ensures var after := Fold(before, j, v);
      var vs' := vs + (if j == k then [v] else []);
      (k in after <==> |vs'| > 0) && (k in after ==> after[k] == Summary(vs'))
  {
    if j == k && k in before {
      SummarySnoc(vs, v);
    } else if j == k {
      assert vs + [v] == [v];
      assert SumOf([v]) == SumOf([]) + v;
    } else {
      assert vs + [] == vs;
    }
  }

  /** The folded map has exactly the stations of the records as keys, and
      each station's entry summarises exactly that station's values: its
      count is the number of its records and its sum their value sum. */
  lemma {:induction false} AggregateIsSummary(recs: seq<Record>, parse: Bytes -> int)
    ensures forall k :: k in Aggregate(recs, parse) <==> |ValuesOf(recs, k, parse)| > 0
    ensures forall k :: k in Aggregate(recs, parse) ==>
      |ValuesOf(recs, k, parse)| > 0 && Aggregate(recs, parse)[k] == Summary(ValuesOf(recs, k, parse))
  {
    if recs != [] {
      var init := recs[..|recs| - 1];
      var r := recs[|recs| - 1];
      assert recs == init + [r];
      AggregateIsSummary(init, parse);
      AggregateSnoc(init, r, parse);
      forall k
        ensures k in Aggregate(recs, parse) <==> |ValuesOf(recs, k, parse)| > 0
        ensures k in Aggregate(recs, parse) ==>
          |ValuesOf(recs, k, parse)| > 0 && Aggregate(recs, parse)[k] == Summary(ValuesOf(recs, k, parse))
      {
        ValuesOfSnoc(init, r, k, parse);
        SummaryStep(Aggregate(init, parse), ValuesOf(init, k, parse), k, r.station, parse(r.value));
      }
    }
  }

  /** The key set of the folded map is the set of stations of the records. */
  lemma AggregateKeys(recs: seq<Record>, parse: Bytes -> int)
    ensures forall k :: k in Aggregate(recs, parse) <==> exists i :: 0 <= i < |recs| && recs[i].station == k
  {
    AggregateIsSummary(recs, parse);
    forall k {
      ValuesOfNonEmpty(recs, k, parse);
    }
  }

  /** `processReadChunk` without the channel send: scans the chunk once,
      keeping `city` and `start`, and folds each accepted line into a map
      that it updates in place (main.go:122-163). */
  method ProcessReadChunk(buf: Bytes, parse: Bytes -> int) returns (stationTempMap: StatsMap)
    ensures stationTempMap == Aggregate(Lines(buf), parse)
  {
    stationTempMap := map[];
    var city: Bytes := [];
    var start := 0;
    var index := 0;
    ghost var folded: seq<Record> := [];
    ghost var all := Lines(buf);
    while index < |buf|
      invariant start <= index <= |buf|
      invariant folded + ScanFrom(buf, index, city, start) == all
      invariant stationTempMap == Aggregate(folded, parse)
    {
      var c := buf[index];
      ScanStep(buf, index, city, start);
      if c == Semicolon {
        city := buf[start..index];
        start := index + 1;
      } else if c == NewLine {
        if index - start > 0 && |city| != 0 {
          var temp := parse(buf[start..index]);
          ghost var r := Record(city, buf[start..index]);
          FoldedStep(folded, r, ScanFrom(buf, index + 1, city, index + 1), parse);
          folded := folded + [r];
          start := index + 1;
          stationTempMap := FoldValue(stationTempMap, city, temp);
        }
      }
      index := index + 1;
    }
    assert ScanFrom(buf, index, city, start) == [];
    assert folded + [] == folded;
  }

  /** The in-place update of one station's entry with one value: a new
      station gets the value as min, max and sum with count 1; a known one
      has its min and max widened to the value and the value added to its
      sum (main.go:138-158). */
  method FoldValue(m: StatsMap, city: Bytes, temp: int) returns (stationTempMap: StatsMap)
    ensures stationTempMap == Fold(m, city, temp)
  {
    stationTempMap := m;
    if city in stationTempMap {
      var val := stationTempMap[city];
      if temp < val.min {
        val := val.(min := temp);
      }
      if temp > val.max {
        val := val.(max := temp);
      }
      val := val.(sum := val.sum + temp, count := val.count + 1);
      stationTempMap := stationTempMap[city := val];
    } else {
      stationTempMap := stationTempMap[city := Stats(temp, temp, temp, 1)];
    }
  }

  /** Moving the next scanned record from the pending list to the folded
      ones. */
  lemma FoldedStep(folded: seq<Record>, r: Record, rest: seq<Record>, parse: Bytes -> int)
    ensures folded + ([r] + rest) == (folded + [r]) + rest
    ensures Aggregate(folded + [r], parse) == Fold(Aggregate(folded, parse), r.station, parse(r.value))
  {
    AggregateSnoc(folded, r, parse);
  }

  /** One step of the scan, case by case. */
  lemma ScanStep(buf: Bytes, i: nat, city: Bytes, start: nat)
    requires start <= i < |buf|
    ensures buf[i] == Semicolon ==>
      ScanFrom(buf, i, city, start) == ScanFrom(buf, i + 1, buf[start..i], i + 1)
    ensures buf[i] == NewLine && i - start > 0 && |city| != 0 ==>
      ScanFrom(buf, i, city, start) == [Record(city, buf[start..i])] + ScanFrom(buf, i + 1, city, i + 1)
    ensures buf[i] != Semicolon && !(buf[i] == NewLine && i - start > 0 && |city| != 0) ==>
      ScanFrom(buf, i, city, start) == ScanFrom(buf, i + 1, city, start)
  {
  }

  lemma AggregateSnoc(recs: seq<Record>, r: Record, parse: Bytes -> int)
    ensures Aggregate(recs + [r], parse) == Fold(Aggregate(recs, parse), r.station, parse(r.value))
  {
    assert (recs + [r])[..|recs|] == recs;
  }

  // Properties of the scan

  /** Bytes that are neither ';' nor '\n' leave the cursor unchanged. */
  lemma {:induction false} ScanSkip(buf: Bytes, i: nat, n: nat, city: Bytes, start: nat)
    requires start <= i && i + n <= |buf|
    requires forall p :: i <= p < i + n ==> buf[p] != Semicolon && buf[p] != NewLine
    ensures ScanFrom(buf, i, city, start) == ScanFrom(buf, i + n, city, start)
    decreases n
  {
    if n > 0 {
      ScanSkip(buf, i + 1, n - 1, city, start);
    }
  }

  /** Whether a record is a well-formed line `<station>;<value>`: both
      fields non-empty and free of ';' and '\n'. */
  predicate WellFormed(r: Record)
  {
    |r.station| > 0 && |r.value| > 0
    && Semicolon !in r.station && NewLine !in r.station
    && Semicolon !in r.value && NewLine !in r.value
  }

  /** Every record of the list is a well-formed line. */
  predicate AllWellFormed(rs: seq<Record>)
  {
    forall j :: 0 <= j < |rs| ==> WellFormed(rs[j])
  }

  /** The bytes of one line `<station>;<value>\n`. */
  function Line(r: Record): Bytes
  {
    r.station + [Semicolon] + r.value + [NewLine]
  }

  /** The bytes of a list of lines. */
  function Encode(rs: seq<Record>): Bytes
  {
    if rs == [] then [] else Line(rs[0]) + Encode(rs[1..])
  }

  /** Where the fields of a line lie when the line is found at index `i`. */
  lemma LineLayout(buf: Bytes, i: nat, r: Record)
    requires i + |Line(r)| <= |buf| && buf[i..i + |Line(r)|] == Line(r)
    ensures |Line(r)| == |r.station| + |r.value| + 2
    ensures buf[i..i + |r.station|] == r.station
    ensures buf[i + |r.station|] == Semicolon
    ensures buf[i + |r.station| + 1..i + |r.station| + 1 + |r.value|] == r.value
    ensures buf[i + |r.station| + 1 + |r.value|] == NewLine
  {
    var l := Line(r);
    var p := |r.station|;
    var q := p + 1 + |r.value|;
    assert l == r.station + ([Semicolon] + (r.value + [NewLine]));
    assert forall x :: 0 <= x < |l| ==> buf[i + x] == l[x];
    assert l[..p] == r.station;
    assert l[p + 1..q] == r.value;
    assert l[p] == Semicolon && l[q] == NewLine;
    assert buf[i..i + p] == l[..p];
    assert buf[i + p + 1..i + q] == l[p + 1..q];
  }

  /** A field of a well-formed line holds neither ';' nor '\n'. */
  lemma FieldBytes(buf: Bytes, i: nat, f: Bytes)
    requires Semicolon !in f && NewLine !in f
    requires i + |f| <= |buf| && buf[i..i + |f|] == f
    ensures forall x :: i <= x < i + |f| ==> buf[x] != Semicolon && buf[x] != NewLine
  {
    forall x | i <= x < i + |f| ensures buf[x] != Semicolon && buf[x] != NewLine {
      assert buf[x] == f[x - i];
    }
  }

  /** Scanning a well-formed line from a line start folds exactly that line,
      whatever city the cursor held before. */
  lemma ScanLine(buf: Bytes, i: nat, city: Bytes, r: Record)
    requires WellFormed(r)
    requires i + |Line(r)| <= |buf| && buf[i..i + |Line(r)|] == Line(r)
    ensures ScanFrom(buf, i, city, i)
      == [r] + ScanFrom(buf, i + |Line(r)|, r.station, i + |Line(r)|)
  {
    LineLayout(buf, i, r);
    ScanFields(buf, i, i, city, r.station, r.value);
  }

  /** A station field, ';', a non-empty value field and '\n' found at `j`
      fold one record whose station is every byte since `start`. */
  lemma ScanFields(buf: Bytes, start: nat, j: nat, city: Bytes, station: Bytes, value: Bytes)
    requires start <= j && start < j + |station| && |value| > 0
    requires Semicolon !in station && NewLine !in station && Semicolon !in value && NewLine !in value
    requires j + |station| + 1 + |value| < |buf|
    requires buf[j..j + |station|] == station && buf[j + |station|] == Semicolon
    requires buf[j + |station| + 1..j + |station| + 1 + |value|] == value
    requires buf[j + |station| + 1 + |value|] == NewLine
    ensures var p, q := j + |station|, j + |station| + 1 + |value|;
      ScanFrom(buf, j, city, start) == [Record(buf[start..p], value)] + ScanFrom(buf, q + 1, buf[start..p], q + 1)
  {
    var p, q := j + |station|, j + |station| + 1 + |value|;
    FieldBytes(buf, j, station);
    FieldBytes(buf, p + 1, value);
    ScanToSemicolon(buf, j, |station|, city, start);
    CityCarriesOver(buf, p + 1, q, buf[start..p]);
  }

  /** A field followed by ';' makes the bytes since `start` the city. */
  lemma ScanToSemicolon(buf: Bytes, j: nat, n: nat, city: Bytes, start: nat)
    requires start <= j && j + n < |buf|
    requires forall x :: j <= x < j + n ==> buf[x] != Semicolon && buf[x] != NewLine
    requires buf[j + n] == Semicolon
    ensures ScanFrom(buf, j, city, start) == ScanFrom(buf, j + n + 1, buf[start..j + n], j + n + 1)
  {
    ScanSkip(buf, j, n, city, start);
    ScanStep(buf, j + n, city, start);
  }

  /** Scanning the encoding of well-formed lines from a line start folds
      exactly those lines. */
  lemma {:induction false} ScanEncoded(buf: Bytes, i: nat, city: Bytes, rs: seq<Record>)
    requires AllWellFormed(rs)
    requires i <= |buf| && buf[i..] == Encode(rs)
    ensures ScanFrom(buf, i, city, i) == rs
    decreases rs
  {
    if rs != [] {
      var n := |Line(rs[0])|;
      assert buf[i..i + n] == Line(rs[0]);
      ScanLine(buf, i, city, rs[0]);
      assert buf[i + n..] == Encode(rs[1..]);
      ScanEncoded(buf, i + n, rs[0].station, rs[1..]);
    }
  }

  /** Round trip: scanning the encoding of well-formed lines recovers them. */
  lemma LinesEncode(rs: seq<Record>)
    requires AllWellFormed(rs)
    ensures Lines(Encode(rs)) == rs
  {
    ScanEncoded(Encode(rs), 0, [], rs);
  }

  /** A line without ';' that follows a folded line is folded under the
      previous line's station, because the city is never reset. */
  lemma CityCarriesOver(buf: Bytes, i: nat, j: nat, city: Bytes)
    requires i < j < |buf| && |city| > 0
    requires forall p :: i <= p < j ==> buf[p] != Semicolon && buf[p] != NewLine
    requires buf[j] == NewLine
    ensures ScanFrom(buf, i, city, i) == [Record(city, buf[i..j])] + ScanFrom(buf, j + 1, city, j + 1)
  {
    ScanSkip(buf, i, j - i, city, i);
  }

  /** A record as the scanner folds it: a non-empty station and a non-empty
      value field, neither holding ';'. */
  predicate CleanRecord(r: Record)
  {
    |r.station| > 0 && |r.value| > 0 && Semicolon !in r.station && Semicolon !in r.value
  }

  /** Every record the scan folds has a non-empty station and value and no
      ';' in either, as long as the cursor's city and the bytes since
      `start` hold no ';'. */
  lemma {:induction false} ScanRecordsClean(buf: Bytes, i: nat, city: Bytes, start: nat)
    requires start <= i <= |buf|
    requires Semicolon !in city && Semicolon !in buf[start..i]
    ensures forall k :: 0 <= k < |ScanFrom(buf, i, city, start)| ==> CleanRecord(ScanFrom(buf, i, city, start)[k])
    decreases |buf| - i
  {
    if i < |buf| {
      ScanStep(buf, i, city, start);
      if buf[i] == Semicolon {
        assert buf[i + 1..i + 1] == [];
        ScanRecordsClean(buf, i + 1, buf[start..i], i + 1);
      } else if buf[i] == NewLine && i - start > 0 && |city| != 0 {
        assert buf[i + 1..i + 1] == [];
        ScanRecordsClean(buf, i + 1, city, i + 1);
        var rest := ScanFrom(buf, i + 1, city, i + 1);
        var all := [Record(city, buf[start..i])] + rest;
        forall k | 0 <= k < |all| ensures CleanRecord(all[k]) {
          if k > 0 {
            assert all[k] == rest[k - 1];
          }
        }
      } else {
        assert buf[start..i + 1] == buf[start..i] + [buf[i]];
        ScanRecordsClean(buf, i + 1, city, start);
      }
    }
  }

  /** Every record folded from a chunk has a non-empty station and value,
      neither holding ';'. */
  lemma LinesClean(buf: Bytes)
    ensures forall k :: 0 <= k < |Lines(buf)| ==> CleanRecord(Lines(buf)[k])
  {
    assert buf[0..0] == [];
    ScanRecordsClean(buf, 0, [], 0);
  }

  /** Before the first ';' of a chunk the city is empty, so nothing is
      folded and `start` stays put: those bytes, '\n' included, become the
      head of the first station name. */
  lemma {:induction false} NoCityNoRecord(buf: Bytes, i: nat, j: nat, start: nat)
    requires start <= i <= j <= |buf|
    requires forall p :: i <= p < j ==> buf[p] != Semicolon
    ensures ScanFrom(buf, i, [], start) == ScanFrom(buf, j, [], start)
    decreases j - i
  {
    if i < j {
      ScanStep(buf, i, [], start);
      NoCityNoRecord(buf, i + 1, j, start);
    }
  }

  /** An empty line followed by a line without ';': the empty line's '\n'
      becomes the first byte of the value folded under the current city. */
  lemma BlankLineJoinsValue(buf: Bytes, i: nat, j: nat, city: Bytes)
    requires i + 1 < j < |buf| && |city| > 0
    requires buf[i] == NewLine && buf[j] == NewLine
    requires forall p :: i < p < j ==> buf[p] != Semicolon && buf[p] != NewLine
    ensures ScanFrom(buf, i, city, i) == [Record(city, buf[i..j])] + ScanFrom(buf, j + 1, city, j + 1)
  {
    ScanStep(buf, i, city, i);
    ScanSkip(buf, i + 1, j - i - 1, city, i);
    ScanStep(buf, j, city, i);
  }

  /** An empty line does not move `start`, so its '\n' becomes the first
      byte of the next station name. */
  lemma BlankLineJoinsNext(buf: Bytes, i: nat, city: Bytes, r: Record)
    requires WellFormed(r)
    requires i + 1 + |Line(r)| <= |buf| && buf[i] == NewLine
    requires buf[i + 1..i + 1 + |Line(r)|] == Line(r)
    ensures ScanFrom(buf, i, city, i)
      == [Record([NewLine] + r.station, r.value)] + ScanFrom(buf, i + 1 + |Line(r)|, [NewLine] + r.station, i + 1 + |Line(r)|)
  {
    var p := i + 1 + |r.station|;
    LineLayout(buf, i + 1, r);
    assert buf[i..p] == [NewLine] + r.station by {
      assert buf[i..p] == [buf[i]] + buf[i + 1..p];
    }
    ScanStep(buf, i, city, i);
    ScanFields(buf, i, i + 1, city, r.station, r.value);
  }
}
