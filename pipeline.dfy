/** `evaluate` run sequentially: the splitter's chunks are scanned one by one
    (the workers), the partial maps are merged into the global map (the
    reducer), and the report is built from it (the formatter).  Given at
    least one worker goroutine, the goroutines, channels and wait group only
    change when these steps run, and with integer values the merge does not
    depend on the order the partial maps arrive in
    (Reducer.ReduceOrderIndependent). */
module Pipeline {
  import opened Measurements
  import opened Splitter
  import opened Scanner
  import opened Reducer
  import opened Report

  /** The records folded from each chunk, chunk after chunk, each chunk
      scanned from a fresh cursor as a worker does. */
  function ConcatLines(chunks: seq<Bytes>): seq<Record>
  {
    if chunks == [] then [] else ConcatLines(chunks[..|chunks| - 1]) + Lines(chunks[|chunks| - 1])
  }

  /** The partial map of each chunk. */
  function Partials(chunks: seq<Bytes>, parse: Bytes -> int): seq<StatsMap>
  {
    seq(|chunks|, i requires 0 <= i < |chunks| => Aggregate(Lines(chunks[i]), parse))
  }

  lemma {:induction false} ValuesOfConcat(a: seq<Record>, b: seq<Record>, k: Bytes, parse: Bytes -> int)
    ensures ValuesOf(a + b, k, parse) == ValuesOf(a, k, parse) + ValuesOf(b, k, parse)
    decreases |b|
  {
    if b == [] {
      assert a + b == a;
    } else {
      var b' := b[..|b| - 1];
      var r := b[|b| - 1];
      assert a + b == (a + b') + [r];
      assert b == b' + [r];
      ValuesOfConcat(a, b', k, parse);
      ValuesOfSnoc(a + b', r, k, parse);
      ValuesOfSnoc(b', r, k, parse);
    }
  }

  /** Merging the maps of two record lists gives the map of their
      concatenation: scanning in parts and merging loses and duplicates
      nothing. */
  lemma MergeAggregates(a: seq<Record>, b: seq<Record>, parse: Bytes -> int)
    ensures MergeMaps(Aggregate(a, parse), Aggregate(b, parse)) == Aggregate(a + b, parse)
  {
    var left := MergeMaps(Aggregate(a, parse), Aggregate(b, parse));
    var right := Aggregate(a + b, parse);
    forall k ensures (k in left <==> k in right) && (k in left ==> left[k] == right[k]) {
      MergeAggregatesAt(a, b, k, parse);
    }
    MapsAgree(left, right);
  }

  lemma MapsAgree(left: StatsMap, right: StatsMap)
    requires forall k :: (k in left <==> k in right) && (k in left ==> left[k] == right[k])
    ensures left == right
  {
    assert left.Keys == right.Keys;
  }

  /** MergeAggregates for one station. */
  lemma MergeAggregatesAt(a: seq<Record>, b: seq<Record>, k: Bytes, parse: Bytes -> int)
    ensures var left := MergeMaps(Aggregate(a, parse), Aggregate(b, parse));
      var right := Aggregate(a + b, parse);
      (k in left <==> k in right) && (k in left ==> left[k] == right[k])
  {
    AggregateAt(a, k, parse);
    AggregateAt(b, k, parse);
    AggregateAt(a + b, k, parse);
    ValuesOfConcat(a, b, k, parse);
    var va, vb := ValuesOf(a, k, parse), ValuesOf(b, k, parse);
    if |va| > 0 && |vb| > 0 {
      SummaryConcat(va, vb);
    } else if |va| > 0 {
      assert va + vb == va;
    } else if |vb| > 0 {
      assert va + vb == vb;
    }
  }

  /** AggregateIsSummary for one station. */
  lemma AggregateAt(recs: seq<Record>, k: Bytes, parse: Bytes -> int)
    ensures k in Aggregate(recs, parse) <==> |ValuesOf(recs, k, parse)| > 0
    ensures k in Aggregate(recs, parse) ==> Aggregate(recs, parse)[k] == Summary(ValuesOf(recs, k, parse))
  {
    AggregateIsSummary(recs, parse);
  }

  /** Reducing the partial maps of the chunks gives the map of all records
      of all chunks. */
  lemma {:induction false} ReduceAggregates(chunks: seq<Bytes>, parse: Bytes -> int)
    ensures Reduce(map[], Partials(chunks, parse)) == Aggregate(ConcatLines(chunks), parse)
    decreases |chunks|
  {
    if chunks != [] {
      var init := chunks[..|chunks| - 1];
      var ps := Partials(chunks, parse);
      assert ps[..|ps| - 1] == Partials(init, parse);
      ReduceAggregates(init, parse);
      MergeAggregates(ConcatLines(init), Lines(chunks[|chunks| - 1]), parse);
    }
  }

  /** The worker loop: every chunk is scanned into its own partial map. */
  method ProcessChunks(chunks: seq<Bytes>, parse: Bytes -> int) returns (partials: seq<StatsMap>)
    ensures partials == Partials(chunks, parse)
  {
    partials := [];
    for i := 0 to |chunks|
      invariant partials == Partials(chunks[..i], parse)
    {
      var partial := ProcessReadChunk(chunks[i], parse);
      partials := partials + [partial];
    }
    assert chunks[..|chunks|] == chunks;
  }

  /** The stations that occur in a record list. */
  function RecordStations(recs: seq<Record>): set<Bytes>
  {
    set j | 0 <= j < |recs| :: recs[j].station
  }

  /** The stations that have a report row. */
  function RowStations(rows: seq<Row>): set<Bytes>
  {
    set i | 0 <= i < |rows| :: rows[i].station
  }

  /** The report rows summarise the records: exactly one row per station of
      the records, each carrying every value of its station, with a mean
      between its minimum and maximum. */
  predicate Summarises(rows: seq<Row>, recs: seq<Record>, parse: Bytes -> int)
  {
    RowStations(rows) == RecordStations(recs)
    && |rows| == |RecordStations(recs)|
    && (forall i :: 0 <= i < |rows| ==> RowSummarises(rows[i], recs, parse))
    && (forall i :: 0 <= i < |rows| ==> MeanWithinBounds(rows[i]))
  }

  /** A row carries the minimum, sum, count and maximum of every value of
      its station. */
  predicate RowSummarises(row: Row, recs: seq<Record>, parse: Bytes -> int)
  {
    var vs := ValuesOf(recs, row.station, parse);
    |vs| > 0 && row == Row(row.station, MinOf(vs), SumOf(vs), |vs|, MaxOf(vs))
  }

  /** With integer values, the mean sum/count lies between the row's minimum and maximum. */
  predicate MeanWithinBounds(row: Row)
  {
    row.count >= 1 && row.min <= row.max
    && row.min * row.count <= row.sum <= row.max * row.count
  }

  lemma StationsMatch(m: StatsMap, rows: seq<Row>, recs: seq<Record>, parse: Bytes -> int)
    requires m == Aggregate(recs, parse)
    requires |rows| == |m|
    requires forall city :: city in m <==> exists i :: 0 <= i < |rows| && rows[i].station == city
    ensures RowStations(rows) == RecordStations(recs)
    ensures |rows| == |RecordStations(recs)|
  {
    AggregateKeys(recs, parse);
    RowStationsAreKeys(m, rows);
    assert RecordStations(recs) == m.Keys;
  }

  lemma RowStationsAreKeys(m: StatsMap, rows: seq<Row>)
    requires forall city :: city in m <==> exists i :: 0 <= i < |rows| && rows[i].station == city
    ensures RowStations(rows) == m.Keys
  {
    forall city ensures city in RowStations(rows) <==> city in m {
    }
  }

  lemma RowsAreSummaries(m: StatsMap, rows: seq<Row>, recs: seq<Record>, parse: Bytes -> int)
    requires m == Aggregate(recs, parse)
    requires forall i :: 0 <= i < |rows| ==>
      (rows[i].station in m
       && var s := m[rows[i].station];
          rows[i] == Row(rows[i].station, s.min, s.sum, s.count, s.max))
    ensures forall i :: 0 <= i < |rows| ==> RowSummarises(rows[i], recs, parse)
    ensures forall i :: 0 <= i < |rows| ==> MeanWithinBounds(rows[i])
  {
    AggregateIsSummary(recs, parse);
    forall i | 0 <= i < |rows|
      ensures RowSummarises(rows[i], recs, parse) && MeanWithinBounds(rows[i])
    {
      MeanBounds(ValuesOf(recs, rows[i].station, parse));
    }
  }

  /** The rows the formatter builds from the map of a record list summarise
      those records. */
  lemma RowsSummarise(m: StatsMap, rows: seq<Row>, recs: seq<Record>, parse: Bytes -> int)
    requires m == Aggregate(recs, parse)
    requires |rows| == |m|
    requires forall city :: city in m <==> exists i :: 0 <= i < |rows| && rows[i].station == city
    requires forall i :: 0 <= i < |rows| ==>
      (rows[i].station in m
       && var s := m[rows[i].station];
          rows[i] == Row(rows[i].station, s.min, s.sum, s.count, s.max))
    ensures Summarises(rows, recs, parse)
  {
    StationsMatch(m, rows, recs, parse);
    RowsAreSummaries(m, rows, recs, parse);
  }

  /** Scanning, merging and reporting a list of chunks: one row per station
      of the records folded from the chunks, in ascending byte order, each
      row summarising every value of its station (main.go:62-120). */
  method SummariseChunks(chunks: seq<Bytes>, parse: Bytes -> int) returns (rows: seq<Row>)
    ensures Summarises(rows, ConcatLines(chunks), parse)
    ensures forall i, j :: 0 <= i < j < |rows| ==> Less(rows[i].station, rows[j].station)
  {
    var partials := ProcessChunks(chunks, parse);
    var stationTempMap := ReduceResults(partials);
    rows := FormatMeasurements(stationTempMap);
    ReduceAggregates(chunks, parse);
    RowsSummarise(stationTempMap, rows, ConcatLines(chunks), parse);
  }

  /** The whole run as written: split, scan, merge, report. */
  method Evaluate(blocks: seq<Bytes>, parse: Bytes -> int) returns (rows: seq<Row>)
    ensures Summarises(rows, ConcatLines(Run(blocks).chunks), parse)
    ensures forall i, j :: 0 <= i < j < |rows| ==> Less(rows[i].station, rows[j].station)
  {
    var chunks := ReadMeasurements(blocks);
    rows := SummariseChunks(chunks, parse);
  }

  /** The whole run with the aligned splitter: on an input made of
      well-formed lines the report summarises exactly those lines,
      however the input is cut into blocks. */
  method EvaluateAligned(blocks: seq<Bytes>, parse: Bytes -> int) returns (rows: seq<Row>)
    ensures Summarises(rows, ConcatLines(RunAligned(blocks).chunks), parse)
    ensures forall rs :: AllWellFormed(rs) && Flatten(blocks) == Encode(rs) ==>
      Summarises(rows, rs, parse)
    ensures forall i, j :: 0 <= i < j < |rows| ==> Less(rows[i].station, rows[j].station)
  {
    var chunks := ReadMeasurementsAligned(blocks);
    rows := SummariseChunks(chunks, parse);
    forall rs | AllWellFormed(rs) && Flatten(blocks) == Encode(rs)
      ensures Summarises(rows, rs, parse)
    {
      AlignedRecoversAllLines(blocks, rs);
    }
  }

  // Chunk boundaries and whole lines

  lemma LineEndsWithNewLine(r: Record, k: nat)
    requires WellFormed(r) && k < |Line(r)|
    ensures Line(r)[k] == NewLine <==> k == |Line(r)| - 1
  {
    var p := |r.station|;
    if k < p {
      assert Line(r)[k] == r.station[k];
    } else if p < k < |Line(r)| - 1 {
      assert Line(r)[k] == r.value[k - p - 1];
    }
  }

  lemma EncodeEndsLine(rs: seq<Record>)
    requires AllWellFormed(rs)
    ensures Encode(rs) == [] <==> rs == []
    ensures rs != [] ==> EndsLine(Encode(rs))
    decreases rs
  {
    if rs != [] {
      EncodeEndsLine(rs[1..]);
    }
  }

  lemma {:induction false} FlattenWholeLines(chunks: seq<Bytes>)
    requires AllWholeLines(chunks)
    ensures Flatten(chunks) == [] || EndsLine(Flatten(chunks))
    decreases |chunks|
  {
    if chunks != [] {
      WholeLinesInit(chunks);
      FlattenWholeLines(chunks[..|chunks| - 1]);
    }
  }

  /** A prefix of the encoding of well-formed lines that is empty or ends
      with '\n' is the encoding of the first n of those lines. */
  lemma {:induction false} SplitEncoded(rs: seq<Record>, p: Bytes, q: Bytes) returns (n: nat)
    requires AllWellFormed(rs)
    requires Encode(rs) == p + q
    requires p == [] || EndsLine(p)
    ensures n <= |rs| && p == Encode(rs[..n]) && q == Encode(rs[n..])
    decreases rs
  {
    if p == [] {
      n := 0;
      assert rs[..0] == [] && rs[0..] == rs;
      assert p + q == q;
    } else {
      var l := Line(rs[0]);
      var rest := rs[1..];
      var p' := FirstLineOfPrefix(rs, p, q);
      var n' := SplitEncoded(rest, p', q);
      n := n' + 1;
      assert rs[..n][1..] == rest[..n'];
      assert rs[n..] == rest[n'..];
    }
  }

  /** A non-empty prefix of the encoding that ends with '\n' starts with the
      whole first line; what follows it is again empty or ends with '\n'. */
  lemma FirstLineOfPrefix(rs: seq<Record>, p: Bytes, q: Bytes) returns (p': Bytes)
    requires AllWellFormed(rs)
    requires Encode(rs) == p + q
    requires p != [] && EndsLine(p)
    ensures rs != [] && p == Line(rs[0]) + p' && p' + q == Encode(rs[1..])
    ensures p' == [] || EndsLine(p')
  {
    EncodeEndsLine(rs);
    var l := Line(rs[0]);
    var rest := rs[1..];
    assert l + Encode(rest) == p + q;
    assert |p| >= |l| by {
      LineEndsWithNewLine(rs[0], if |p| - 1 < |l| then |p| - 1 else 0);
      assert |p| - 1 < |l| ==> (p + q)[|p| - 1] == l[|p| - 1];
    }
    p' := p[|l|..];
    assert p[..|l|] == (p + q)[..|l|] == l;
    assert p == p[..|l|] + p';
    assert (p + q)[|l|..] == p' + q;
    assert (l + Encode(rest))[|l|..] == Encode(rest);
    if p' != [] {
      assert p'[|p'| - 1] == p[|p| - 1];
    }
  }

  /** Chunks made of whole lines of a well-formed input are scanned, chunk
      by chunk from a fresh cursor, into exactly the lines of the input. */
  lemma {:induction false} DecodeChunks(chunks: seq<Bytes>, rs: seq<Record>)
    requires AllWellFormed(rs)
    requires AllWholeLines(chunks)
    requires Flatten(chunks) == Encode(rs)
    ensures ConcatLines(chunks) == rs
    decreases |chunks|
  {
    if chunks == [] {
      EncodeEndsLine(rs);
    } else {
      var init := chunks[..|chunks| - 1];
      var c := chunks[|chunks| - 1];
      WholeLinesInit(chunks);
      FlattenWholeLines(init);
      var n := SplitEncoded(rs, Flatten(init), c);
      WellFormedSplit(rs, n);
      DecodeChunks(init, rs[..n]);
      LinesEncode(rs[n..]);
      assert rs[..n] + rs[n..] == rs;
    }
  }

  lemma WellFormedSplit(rs: seq<Record>, n: nat)
    requires AllWellFormed(rs) && n <= |rs|
    ensures AllWellFormed(rs[..n]) && AllWellFormed(rs[n..])
  {
    assert forall j :: 0 <= j < n ==> rs[..n][j] == rs[j];
    assert forall j :: 0 <= j < |rs| - n ==> rs[n..][j] == rs[n + j];
  }

  /** Dropping the last chunk keeps the others whole lines. */
  lemma WholeLinesInit(chunks: seq<Bytes>)
    requires chunks != [] && AllWholeLines(chunks)
    ensures AllWholeLines(chunks[..|chunks| - 1])
    ensures Flatten(chunks) == Flatten(chunks[..|chunks| - 1]) + chunks[|chunks| - 1]
    ensures ConcatLines(chunks) == ConcatLines(chunks[..|chunks| - 1]) + Lines(chunks[|chunks| - 1])
  {
    var init := chunks[..|chunks| - 1];
    forall i | 0 <= i < |init| ensures init[i] == [] || EndsLine(init[i]) {
      assert init[i] == chunks[i];
    }
  }

  lemma LeftoverOfLinesIsEmpty(x: Bytes, y: Bytes)
    requires EndsLine(x + y) && NewLine !in y
    ensures y == []
  {
  }

  /** With the aligned splitter, every line of a well-formed input reaches a
      worker whole, however the input is cut into blocks. */
  lemma AlignedRecoversAllLines(blocks: seq<Bytes>, rs: seq<Record>)
    requires AllWellFormed(rs)
    requires Flatten(blocks) == Encode(rs)
    ensures ConcatLines(RunAligned(blocks).chunks) == rs
  {
    var st := RunAligned(blocks);
    RunAlignedConserves(blocks);
    RunAlignedWholeLines(blocks);
    EncodeEndsLine(rs);
    if rs != [] {
      LeftoverOfLinesIsEmpty(Flatten(st.chunks), st.leftover);
    } else {
      assert |Flatten(st.chunks) + st.leftover| == 0;
    }
    assert Flatten(st.chunks) + st.leftover == Flatten(st.chunks);
    DecodeChunks(st.chunks, rs);
  }

  /** As long as every block read holds a '\n', the splitter as written and
      the aligned splitter send the same chunks. */
  lemma {:induction false} RunAgreesWhenBlocksHaveNewLines(blocks: seq<Bytes>)
    requires forall i :: 0 <= i < |blocks| ==> NewLine in blocks[i]
    ensures Run(blocks) == RunAligned(blocks)
    decreases |blocks|
  {
    if blocks != [] {
      var block := blocks[|blocks| - 1];
      RunAgreesWhenBlocksHaveNewLines(blocks[..|blocks| - 1]);
      LastIndexIsLast(block, NewLine);
    }
  }

  /** The whole run on a well-formed input whose every block holds a '\n':
      the report summarises exactly the lines of the input. */
  lemma EvaluateWellFormedInput(blocks: seq<Bytes>, rs: seq<Record>, parse: Bytes -> int)
    requires AllWellFormed(rs)
    requires forall i :: 0 <= i < |blocks| ==> NewLine in blocks[i]
    requires Flatten(blocks) == Encode(rs)
    ensures ConcatLines(Run(blocks).chunks) == rs
    ensures Reduce(map[], Partials(Run(blocks).chunks, parse)) == Aggregate(rs, parse)
  {
    RunAgreesWhenBlocksHaveNewLines(blocks);
    AlignedRecoversAllLines(blocks, rs);
    ReduceAggregates(Run(blocks).chunks, parse);
  }
}
