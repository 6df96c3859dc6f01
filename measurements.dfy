/** Shared vocabulary of the aggregation engine: bytes, the two delimiter bytes,
    the per-station `stats` record and the reference summary of a list of values. */
module Measurements {

  /** One byte of the input file. */
  newtype byte = b: int | 0 <= b < 256

  /** A byte string: a block, a chunk, a station name or a value field. */
  type Bytes = seq<byte>

  const NewLine: byte := 10
  const Semicolon: byte := 59

  /** The `stats` record of main.go: running minimum, maximum, sum and count
      of the values seen for one station.  Values are integers (for example
      tenths of a degree), so min, max, sum and count are exact. */
  datatype Stats = Stats(min: int, max: int, sum: int, count: int)

  /** A map from station name to its record, as a worker or the reducer holds it. */
  type StatsMap = map<Bytes, Stats>

  /** Folding one more value into an existing record: the update that the
      scanner does when the station is already in its map. */
  function Add(s: Stats, v: int): (r: Stats)
    ensures r.min <= v <= r.max
    ensures r.min <= s.min && (r.min == s.min || r.min == v)
    ensures r.max >= s.max && (r.max == s.max || r.max == v)
    ensures r.sum == s.sum + v && r.count == s.count + 1
  {
    Stats(if v < s.min then v else s.min,
          if v > s.max then v else s.max,
          s.sum + v,
          s.count + 1)
  }

  /** Combining the global record `g` of a station with an incoming partial
      record `p` of the same station: the reducer's per-key merge rule. */
  function Combine(g: Stats, p: Stats): (r: Stats)
    ensures r.min <= g.min && r.min <= p.min && (r.min == g.min || r.min == p.min)
    ensures r.max >= g.max && r.max >= p.max && (r.max == g.max || r.max == p.max)
    ensures r.sum == g.sum + p.sum && r.count == g.count + p.count
  {
    Stats(if p.min < g.min then p.min else g.min,
          if p.max > g.max then p.max else g.max,
          g.sum + p.sum,
          g.count + p.count)
  }

  /** Smallest element of a non-empty list. */
  function MinOf(vs: seq<int>): (r: int)
    requires |vs| > 0
    ensures r in vs
    ensures forall i :: 0 <= i < |vs| ==> r <= vs[i]
  {
    if |vs| == 1 then vs[0]
    else
      var m := MinOf(vs[..|vs| - 1]);
      var v := vs[|vs| - 1];
      assert vs == vs[..|vs| - 1] + [v];
      if v < m then v else m
  }

  /** Largest element of a non-empty list. */
  function MaxOf(vs: seq<int>): (r: int)
    requires |vs| > 0
    ensures r in vs
    ensures forall i :: 0 <= i < |vs| ==> vs[i] <= r
  {
    if |vs| == 1 then vs[0]
    else
      var m := MaxOf(vs[..|vs| - 1]);
      var v := vs[|vs| - 1];
      assert vs == vs[..|vs| - 1] + [v];
      if v > m then v else m
  }

  /** Sum of a list. */
  function SumOf(vs: seq<int>): int
  {
    if vs == [] then 0 else SumOf(vs[..|vs| - 1]) + vs[|vs| - 1]
  }

  /** The reference value of a station's record: what min, max, sum and
      count must be after exactly the values `vs` were folded in. */
  function Summary(vs: seq<int>): Stats
    requires |vs| > 0
  {
    Stats(MinOf(vs), MaxOf(vs), SumOf(vs), |vs|)
  }

  /** Folding one more value extends the summarised list by that value. */
  lemma SummarySnoc(vs: seq<int>, v: int)
    requires |vs| > 0
    ensures Summary(vs + [v]) == Add(Summary(vs), v)
  {
    assert (vs + [v])[..|vs|] == vs;
  }

  lemma SumOfConcat(a: seq<int>, b: seq<int>)
    ensures SumOf(a + b) == SumOf(a) + SumOf(b)
    decreases |b|
  {
    if b == [] {
      assert a + b == a;
    } else {
      var b' := b[..|b| - 1];
      assert (a + b)[..|a + b| - 1] == a + b';
      SumOfConcat(a, b');
    }
  }

  lemma AddAfterCombine(x: Stats, y: Stats, v: int)
    ensures Add(Combine(x, y), v) == Combine(x, Add(y, v))
  {
  }

  lemma SummaryConcatOne(a: seq<int>, v: int)
    requires |a| > 0
    ensures Summary(a + [v]) == Combine(Summary(a), Summary([v]))
  {
    SummarySnoc(a, v);
    assert SumOf([v]) == SumOf([]) + v;
    assert Summary([v]) == Stats(v, v, v, 1);
  }

  /** Merging two records summarises the concatenation of their value lists:
      the reason the reducer's combination rule is correct. */
  lemma {:induction false} SummaryConcat(a: seq<int>, b: seq<int>)
    requires |a| > 0 && |b| > 0
    ensures Summary(a + b) == Combine(Summary(a), Summary(b))
    decreases |b|
  {
    var v := b[|b| - 1];
    var b' := b[..|b| - 1];
    assert b == b' + [v];
    assert a + b == (a + b') + [v];
    if b' == [] {
      SummaryConcatOne(a, v);
    } else {
      SummaryConcat(a, b');
      SummarySnoc(a + b', v);
      SummarySnoc(b', v);
      AddAfterCombine(Summary(a), Summary(b'), v);
      calc {
        Summary(a + b);
        Add(Summary(a + b'), v);
        Add(Combine(Summary(a), Summary(b')), v);
        Combine(Summary(a), Add(Summary(b'), v));
        Combine(Summary(a), Summary(b));
      }
    }
  }

  lemma MulMonotone(x: int, y: int, n: nat)
    requires x <= y
    ensures x * n <= y * n
  {
  }

  lemma MulSucc(x: int, n: nat)
    ensures x * (n + 1) == x * n + x
  {
  }

  /** The mean sum/count of a summary lies between its minimum and maximum:
      min * count <= sum <= max * count. */
  lemma {:induction false} MeanBounds(vs: seq<int>)
    requires |vs| > 0
    ensures MinOf(vs) * |vs| <= SumOf(vs) <= MaxOf(vs) * |vs|
  {
    if |vs| > 1 {
      var init := vs[..|vs| - 1];
      var v := vs[|vs| - 1];
      MeanBounds(init);
      var n := |init|;
      var lo, hi := MinOf(vs), MaxOf(vs);
      var lo', hi' := MinOf(init), MaxOf(init);
      var s' := SumOf(init);
      assert SumOf(vs) == s' + v;
      assert lo <= lo' && lo <= v;
      assert hi >= hi' && hi >= v;
      MulMonotone(lo, lo', n);
      MulMonotone(hi', hi, n);
      MulSucc(lo, n);
      MulSucc(hi, n);
    }
  }
}
