/**
  Tick durations in a fixed ring, and the percentiles reported from it.
 */
module TickMetrics {
  import opened Wrappers

  const CAPACITY: nat := 12_000
  const RECENT: nat := 100

  // ----- Sorting, as a specification of the library's sort -----

  predicate Ascending(s: seq<real>) { forall i, j :: 0 <= i < j < |s| ==> s[i] <= s[j] }

  function Insert(x: real, s: seq<real>): seq<real> {
    if s == [] || x <= s[0] then [x] + s else [s[0]] + Insert(x, s[1..])
  }

  function Sorted(s: seq<real>): seq<real> {
    if s == [] then [] else Insert(s[0], Sorted(s[1..]))
  }

  function CountAtMost(s: seq<real>, v: real): nat {
    if s == [] then 0 else (if s[0] <= v then 1 else 0) + CountAtMost(s[1..], v)
  }

  function CountBelow(s: seq<real>, v: real): nat {
    if s == [] then 0 else (if s[0] < v then 1 else 0) + CountBelow(s[1..], v)
  }

  lemma {:induction false} CountsOfConcat(a: seq<real>, b: seq<real>, v: real)
    ensures CountAtMost(a + b, v) == CountAtMost(a, v) + CountAtMost(b, v)
    ensures CountBelow(a + b, v) == CountBelow(a, v) + CountBelow(b, v)
  {
    if a == [] {
      assert a + b == b;
    } else {
      assert (a + b)[1..] == a[1..] + b;
      CountsOfConcat(a[1..], b, v);
    }
  }

  lemma {:induction false} InsertKeepsItems(x: real, s: seq<real>)
    ensures multiset(Insert(x, s)) == multiset(s) + multiset{x} && |Insert(x, s)| == |s| + 1
  {
    if s != [] && s[0] < x {
      InsertKeepsItems(x, s[1..]);
      assert s == [s[0]] + s[1..];
    }
  }

  lemma {:induction false} InsertSorts(x: real, s: seq<real>, low: real)
    requires Ascending(s) && low <= x && forall i :: 0 <= i < |s| ==> low <= s[i]
    ensures Ascending(Insert(x, s)) && forall i :: 0 <= i < |Insert(x, s)| ==> low <= Insert(x, s)[i]
  {
    if s != [] && s[0] < x { InsertSorts(x, s[1..], s[0]); }
  }

  lemma {:induction false} InsertCounts(x: real, s: seq<real>, v: real)
    ensures CountAtMost(Insert(x, s), v) == CountAtMost(s, v) + if x <= v then 1 else 0
    ensures CountBelow(Insert(x, s), v) == CountBelow(s, v) + if x < v then 1 else 0
  {
    if s == [] || x <= s[0] {
      assert ([x] + s)[1..] == s;
    } else {
      InsertCounts(x, s[1..], v);
      assert ([s[0]] + Insert(x, s[1..]))[1..] == Insert(x, s[1..]);
    }
  }

  /** The library's contract: ascending, a permutation, and so with the same counts. */
  lemma {:induction false} SortedExact(s: seq<real>)
    ensures Ascending(Sorted(s)) && multiset(Sorted(s)) == multiset(s) && |Sorted(s)| == |s|
  {
    if s != [] {
      var rest := Sorted(s[1..]);
      SortedExact(s[1..]);
      InsertKeepsItems(s[0], rest);
      InsertSorts(s[0], rest, if rest == [] || s[0] <= rest[0] then s[0] else rest[0]);
      assert s == [s[0]] + s[1..];
    }
  }

  lemma {:induction false} SortedCounts(s: seq<real>, v: real)
    ensures CountAtMost(Sorted(s), v) == CountAtMost(s, v) && CountBelow(Sorted(s), v) == CountBelow(s, v)
  {
    if s != [] {
      SortedCounts(s[1..], v);
      InsertCounts(s[0], Sorted(s[1..]), v);
    }
  }

  // ----- Percentiles -----

  function CeilDiv(a: nat, b: nat): nat
    requires b > 0
  {
    (a + b - 1) / b
  }

  function Max(a: int, b: int): int { if a < b then b else a }
  function Min(a: int, b: int): int { if a < b then a else b }

  /** The quantile num/den of ascending values. */
  function Percentile(values: seq<real>, num: nat, den: nat): real
    requires den > 0
  {
    if |values| == 0 then 0.0
    else values[Max(0, Min(|values| - 1, CeilDiv(|values| * num, den) - 1))]
  }

  /** v is the smallest sample value that at least num/den of the sample do not exceed. */
  predicate NearestRank(sample: seq<real>, num: nat, den: nat, v: real) {
    && v in sample
    && CountBelow(sample, v) * den < |sample| * num <= CountAtMost(sample, v) * den
  }

  /** In ascending values the k-th has more than k at most it and at most k below it. */
  lemma {:induction false} RankInAscending(s: seq<real>, k: nat)
    requires Ascending(s) && k < |s|
    ensures CountBelow(s, s[k]) <= k < CountAtMost(s, s[k])
    decreases |s|
  {
    if k > 0 {
      assert s[0] <= s[k];
      RankInAscending(s[1..], k - 1);
    } else {
      NoneBelow(s, s[0]);
    }
  }

  lemma {:induction false} NoneBelow(s: seq<real>, v: real)
    requires forall i :: 0 <= i < |s| ==> v <= s[i]
    ensures CountBelow(s, v) == 0
  {
    if s != [] { NoneBelow(s[1..], v); }
  }

  lemma CeilDivExact(a: nat, b: nat)
    requires b > 0 && a > 0
    ensures CeilDiv(a, b) > 0 && (CeilDiv(a, b) - 1) * b < a <= CeilDiv(a, b) * b
  {
    var q := CeilDiv(a, b);
    assert a + b - 1 == q * b + (a + b - 1) % b;
  }

  lemma PercentileIsNearestRank(sample: seq<real>, num: nat, den: nat)
    requires sample != [] && 0 < num <= den
    ensures NearestRank(sample, num, den, Percentile(Sorted(sample), num, den))
  {
    var s, n := Sorted(sample), |sample|;
    SortedExact(sample);
    assert n * num > 0 by { assert n >= 1 && num >= 1; PositiveProduct(n, num); }
    CeilDivExact(n * num, den);
    var k := CeilDiv(n * num, den) - 1;
    assert k < n by {
      assert n * num <= n * den by { ScaleMonotone(num, den, n); }
      if k >= n { ScaleMonotone(n, k, den); }
    }
    var v := s[k];
    assert Percentile(s, num, den) == v;
    SortedCounts(sample, v);
    RankInAscending(s, k);
    assert v in multiset(s);
    ScaleMonotone(CountBelow(sample, v), k, den);
    ScaleMonotone(k + 1, CountAtMost(sample, v), den);
  }

  lemma PositiveProduct(a: nat, b: nat)
    requires a > 0 && b > 0
    ensures a * b > 0
  {
  }

  lemma ScaleMonotone(a: nat, b: nat, d: nat)
    requires a <= b
    ensures a * d <= b * d && d * a <= d * b
  {
    assert (b - a) * d >= 0;
  }

  /** There is only one nearest-rank value. */
  lemma NearestRankIsUnique(sample: seq<real>, num: nat, den: nat, v: real, w: real)
    requires NearestRank(sample, num, den, v) && NearestRank(sample, num, den, w)
    ensures v == w
  {
    if v < w {
      BelowCoversAtMost(sample, v, w);
      ScaleMonotone(CountAtMost(sample, v), CountBelow(sample, w), den);
    } else if w < v {
      BelowCoversAtMost(sample, w, v);
      ScaleMonotone(CountAtMost(sample, w), CountBelow(sample, v), den);
    }
  }

  lemma {:induction false} BelowCoversAtMost(sample: seq<real>, v: real, w: real)
    requires v < w
    ensures CountAtMost(sample, v) <= CountBelow(sample, w)
  {
    if sample != [] { BelowCoversAtMost(sample[1..], v, w); }
  }

  // ----- The runner's sample statistics -----

  datatype Performance = Performance(p50: real, p95: real, p99: real, max: real)

  /** The runner sorts a copy and uses the same rank; None is its error on no samples. */
  function SamplePerformance(values: seq<real>): Option<Performance> {
    if values == [] then None
    else
      var sorted := Sorted(values);
      SortedExact(values);
      Some(Performance(Percentile(sorted, 50, 100), Percentile(sorted, 95, 100), Percentile(sorted, 99, 100),
                       sorted[|sorted| - 1]))
  }

  /** Runner and bridge agree: both report nearest ranks, and the maximum on top. */
  lemma SamplePerformanceExact(values: seq<real>)
    requires values != []
    ensures SamplePerformance(values).Some?
    ensures var p := SamplePerformance(values).value;
      && NearestRank(values, 50, 100, p.p50) && NearestRank(values, 95, 100, p.p95)
          && NearestRank(values, 99, 100, p.p99)
      && p.max in values && (forall x :: x in values ==> x <= p.max)
      && p.p50 <= p.p95 <= p.p99 <= p.max
  {
    hide NearestRank, Sorted, Percentile;
    PercentileIsNearestRank(values, 50, 100);
    PercentileIsNearestRank(values, 95, 100);
    PercentileIsNearestRank(values, 99, 100);
    SortedExact(values);
    PercentilesOrdered(Sorted(values));
    MaximumOf(values, values);
  }

  // ----- The ring -----

  function LastOf(history: seq<real>, count: nat): seq<real> {
    if |history| <= count then history else history[|history| - count..]
  }

  /** Slot k mod 12,000 holds tick k, for the last 12,000 ticks. */
  predicate RingHolds(data: seq<real>, history: seq<real>) {
    && |data| == CAPACITY
    && forall k :: 0 <= k < |history| && |history| - CAPACITY <= k ==> data[k % CAPACITY] == history[k]
  }

  lemma RingNext(data: seq<real>, history: seq<real>, duration: real)
    requires RingHolds(data, history)
    ensures RingHolds(data[|history| % CAPACITY := duration], history + [duration])
  {
  }

  /** The first min(n, 12,000) slots are the last min(n, 12,000) durations, rotated. */
  lemma RingIsWindow(data: seq<real>, history: seq<real>) returns (turn: nat)
    requires RingHolds(data, history)
    ensures var count := Min(|history|, CAPACITY);
      turn <= count && LastOf(history, CAPACITY) == data[turn..count] + data[..turn]
  {
    var n := |history|;
    if n <= CAPACITY {
      turn := 0;
      assert data[0..n] + data[..0] == history by {
        forall k | 0 <= k < n ensures data[k] == history[k] {
          if k == CAPACITY { assert false; }
          assert k % CAPACITY == k;
        }
      }
    } else {
      turn := n % CAPACITY;
      var window := history[n - CAPACITY..];
      forall i | 0 <= i < CAPACITY ensures window[i] == (data[turn..] + data[..turn])[i] {
        SlotOf(n, i);
        assert window[i] == history[n - CAPACITY + i];
      }
      assert window == data[turn..CAPACITY] + data[..turn];
    }
  }

  lemma SlotOf(n: nat, i: nat)
    requires n > CAPACITY > i
    ensures var slot := n % CAPACITY + i;
      (n - CAPACITY + i) % CAPACITY == if slot < CAPACITY then slot else slot - CAPACITY
  {
    var q := n / CAPACITY;
    assert n - CAPACITY + i == (q - 1) * CAPACITY + (n % CAPACITY + i);
  }

  lemma RotationKeepsSample(a: seq<real>, b: seq<real>, num: nat, den: nat, v: real)
    ensures multiset(a + b) == multiset(b + a)
    ensures NearestRank(a + b, num, den, v) <==> NearestRank(b + a, num, den, v)
  {
    CountsOfConcat(a, b, v);
    CountsOfConcat(b, a, v);
  }

  // ----- The object -----

  datatype Snapshot = Snapshot(ticks: nat, current: real, p50: real, p95: real, p99: real, max: real, recent: seq<real>)

  class HarnessMetrics {
    const milliseconds: array<real>
    var ticks: nat
    ghost var history: seq<real>

    ghost predicate Valid()
      reads this, milliseconds
    {
      milliseconds.Length == CAPACITY && ticks == |history| && RingHolds(milliseconds[..], history)
    }

    constructor ()
      ensures Valid() && history == [] && fresh(milliseconds)
    {
      milliseconds := new real[CAPACITY](_ => 0.0);
      ticks, history := 0, [];
    }

    method EndTick(duration: real)
      requires Valid()
      modifies this, milliseconds
      ensures Valid() && history == old(history) + [duration]
    {
      RingNext(milliseconds[..], history, duration);
      var slot := ticks % CAPACITY;
      milliseconds[slot] := duration;
      assert milliseconds[..] == old(milliseconds[..])[slot := duration];
      ticks := ticks + 1;
      history := history + [duration];
    }

    /** Every reported number, in terms of the plain history of durations. */
    method TakeSnapshot() returns (s: Snapshot)
      requires Valid()
      ensures s.ticks == |history|
      ensures history == [] ==> s == Snapshot(0, 0.0, 0.0, 0.0, 0.0, 0.0, [])
      ensures history != [] ==>
        var sample := LastOf(history, CAPACITY);
        && s.current == history[|history| - 1]
        && NearestRank(sample, 50, 100, s.p50) && NearestRank(sample, 95, 100, s.p95)
            && NearestRank(sample, 99, 100, s.p99)
        && s.max in sample && (forall x :: x in sample ==> x <= s.max)
      ensures s.recent == LastOf(history, RECENT)
      ensures s.p50 <= s.p95 <= s.p99 <= s.max
    {
      var count := Min(ticks, CAPACITY);
      var sample := CopySample(count);
      var sorted := Sorted(sample);
      var recent := RecentDurations(Min(count, RECENT));
      SortedExact(sample);
      if count == 0 {
        return Snapshot(ticks, 0.0, 0.0, 0.0, 0.0, 0.0, recent);
      }
      s := Snapshot(ticks, milliseconds[(ticks - 1) % CAPACITY],
                    Percentile(sorted, 50, 100), Percentile(sorted, 95, 100), Percentile(sorted, 99, 100),
                    sorted[|sorted| - 1], recent);
      SnapshotOfSample(milliseconds[..], history, sample);
      assert milliseconds[..][(ticks - 1) % CAPACITY] == history[ticks - 1];
    }

    method CopySample(count: nat) returns (sample: seq<real>)
      requires Valid() && count <= CAPACITY
      ensures sample == milliseconds[..][..count]
    {
      var copy := new real[count];
      var i := 0;
      while i < count
        invariant 0 <= i <= count && copy[..i] == milliseconds[..i]
      {
        copy[i] := milliseconds[i];
        i := i + 1;
      }
      assert copy[..] == copy[..i];
      return copy[..];
    }

    method RecentDurations(recentCount: nat) returns (recent: seq<real>)
      requires Valid() && recentCount <= ticks && recentCount <= CAPACITY
      ensures recent == history[|history| - recentCount..]
    {
      recent := [];
      var i := recentCount;
      while i > 0
        invariant 0 <= i <= recentCount
        invariant recent == history[ticks - recentCount..ticks - i]
      {
        assert milliseconds[..][(ticks - i) % CAPACITY] == history[ticks - i];
        recent := recent + [milliseconds[(ticks - i) % CAPACITY]];
        i := i - 1;
      }
    }
  }

  lemma SnapshotOfSample(data: seq<real>, history: seq<real>, sample: seq<real>)
    requires RingHolds(data, history) && history != [] && sample == data[..Min(|history|, CAPACITY)]
    ensures var window, sorted := LastOf(history, CAPACITY), Sorted(sample);
      && |sorted| == |sample| == |window|
      && NearestRank(window, 50, 100, Percentile(sorted, 50, 100))
      && NearestRank(window, 95, 100, Percentile(sorted, 95, 100))
      && NearestRank(window, 99, 100, Percentile(sorted, 99, 100))
      && sorted[|sorted| - 1] in window && (forall x :: x in window ==> x <= sorted[|sorted| - 1])
      && Percentile(sorted, 50, 100) <= Percentile(sorted, 95, 100)
                                     <= Percentile(sorted, 99, 100) <= sorted[|sorted| - 1]
  {
    var turn := RingIsWindow(data, history);
    var window, sorted := LastOf(history, CAPACITY), Sorted(sample);
    var a, b := sample[..turn], sample[turn..];
    assert sample == a + b && window == b + a;
    SortedExact(sample);
    PercentileIsNearestRank(sample, 50, 100);
    PercentileIsNearestRank(sample, 95, 100);
    PercentileIsNearestRank(sample, 99, 100);
    RotationKeepsSample(a, b, 50, 100, Percentile(sorted, 50, 100));
    RotationKeepsSample(a, b, 95, 100, Percentile(sorted, 95, 100));
    RotationKeepsSample(a, b, 99, 100, Percentile(sorted, 99, 100));
    PercentilesOrdered(sorted);
    MaximumOf(sample, window);
  }

  lemma PercentilesOrdered(sorted: seq<real>)
    requires Ascending(sorted) && sorted != []
    ensures Percentile(sorted, 50, 100) <= Percentile(sorted, 95, 100)
                                        <= Percentile(sorted, 99, 100) <= sorted[|sorted| - 1]
  {
    var n := |sorted|;
    assert CeilDiv(n * 50, 100) <= CeilDiv(n * 95, 100) <= CeilDiv(n * 99, 100);
  }

  lemma MaximumOf(sample: seq<real>, window: seq<real>)
    requires sample != [] && multiset(sample) == multiset(window)
    ensures var sorted := Sorted(sample);
      |sorted| == |sample| && sorted[|sorted| - 1] in window && forall x :: x in window ==> x <= sorted[|sorted| - 1]
  {
    SortedExact(sample);
    var sorted := Sorted(sample);
    assert sorted[|sorted| - 1] in multiset(window);
    forall x | x in window ensures x <= sorted[|sorted| - 1] {
      assert x in multiset(sorted);
      var i :| 0 <= i < |sorted| && sorted[i] == x;
    }
  }
}
