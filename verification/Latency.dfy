// src/dds_transport.cpp, TelemetrySubscriber::latency: order statistics of the recorded latencies.
// Percentages are given in tenths of a percent, and ranks are exact but for one effect of doubles: 99.9
// is a little more than itself there, so that a rank that is a whole number may come out just above it
// and be rounded up to the next. Whether it does is the input `above`. The library's square root is the
// input `sqrt`.
module Latency {
  import opened Ordering

  datatype Summary = Summary(
    count: nat,
    minUs: int,
    p50Us: int,
    p95Us: int,
    p99Us: int,
    p999Us: int,
    maxUs: int,
    meanUs: real,
    stddevUs: real)

  const EMPTY := Summary(0, 0, 0, 0, 0, 0, 0, 0.0, 0.0)

  // ---------------------------------------------------------------- sorting

  function AtMost(s: seq<int>, v: int): nat {
    if s == [] then 0 else AtMost(s[1..], v) + if s[0] <= v then 1 else 0
  }

  function Below(s: seq<int>, v: int): nat {
    if s == [] then 0 else Below(s[1..], v) + if s[0] < v then 1 else 0
  }

  function Insert(x: int, s: seq<int>): seq<int> {
    if s == [] || x <= s[0] then [x] + s else [s[0]] + Insert(x, s[1..])
  }

  /** Stands for the library sort of the local copy; only its result matters, see SortIsUnique. */
  function SortedCopy(s: seq<int>): seq<int> {
    if s == [] then [] else Insert(s[0], SortedCopy(s[1..]))
  }

  lemma {:induction false} InsertKeeps(x: int, s: seq<int>)
    ensures multiset(Insert(x, s)) == multiset(s) + multiset{x} && |Insert(x, s)| == |s| + 1
    decreases |s|
  {
    if s == [] || x <= s[0] {
    } else {
      InsertKeeps(x, s[1..]);
      assert s == [s[0]] + s[1..];
    }
  }

  lemma {:induction false} InsertSorts(x: int, s: seq<int>)
    requires NonDecreasing(s)
    ensures NonDecreasing(Insert(x, s))
    ensures forall i :: 0 <= i < |Insert(x, s)| ==> Insert(x, s)[i] >= x || (s != [] && Insert(x, s)[i] >= s[0])
    decreases |s|
  {
    if s == [] || x <= s[0] {
    } else {
      InsertSorts(x, s[1..]);
    }
  }

  /** Sorting permutes. */
  lemma {:induction false} SortPermutes(s: seq<int>)
    ensures NonDecreasing(SortedCopy(s)) && multiset(SortedCopy(s)) == multiset(s) && |SortedCopy(s)| == |s|
    decreases |s|
  {
    if s == [] {
    } else {
      SortPermutes(s[1..]);
      InsertKeeps(s[0], SortedCopy(s[1..]));
      InsertSorts(s[0], SortedCopy(s[1..]));
      assert s == [s[0]] + s[1..];
    }
  }

  lemma FirstIsLeast(t: seq<int>, v: int)
    requires NonDecreasing(t) && v in multiset(t)
    ensures t != [] && t[0] <= v
  {
  }

  lemma RestOf(t: seq<int>)
    requires t != []
    ensures multiset(t[1..]) == multiset(t) - multiset{t[0]}
  {
    assert t == [t[0]] + t[1..];
  }

  lemma TailsAgree(s: seq<int>, t: seq<int>)
    requires s != [] && t != [] && s[0] == t[0] && multiset(s) == multiset(t)
    ensures multiset(s[1..]) == multiset(t[1..])
  {
    RestOf(s);
    RestOf(t);
  }

  lemma EmptyOnly(t: seq<int>)
    requires multiset(t) == multiset{}
    ensures t == []
  {
    assert |multiset(t)| == |t|;
  }

  lemma HeadsAgree(s: seq<int>, t: seq<int>)
    requires NonDecreasing(s) && NonDecreasing(t) && s != [] && multiset(s) == multiset(t)
    ensures t != [] && s[0] == t[0]
  {
    assert s[0] in multiset(s);
    FirstIsLeast(t, s[0]);
    assert t[0] in multiset(t);
    FirstIsLeast(s, t[0]);
  }

  /** Whatever sorting algorithm is used, there is only one sorted permutation. */
  lemma {:induction false} SortIsUnique(s: seq<int>, t: seq<int>)
    requires NonDecreasing(s) && NonDecreasing(t) && multiset(s) == multiset(t)
    ensures s == t
    decreases |s|
  {
    if s == [] {
      EmptyOnly(t);
    } else {
      HeadsAgree(s, t);
      TailsAgree(s, t);
      SortIsUnique(s[1..], t[1..]);
      assert s == [s[0]] + s[1..] && t == [t[0]] + t[1..];
    }
  }

  lemma {:induction false} InsertCounts(x: int, s: seq<int>, v: int)
    ensures AtMost(Insert(x, s), v) == AtMost(s, v) + if x <= v then 1 else 0
    ensures Below(Insert(x, s), v) == Below(s, v) + if x < v then 1 else 0
    decreases |s|
  {
    var t := Insert(x, s);
    if s == [] || x <= s[0] {
      assert t[1..] == s;
    } else {
      assert t[1..] == Insert(x, s[1..]);
      InsertCounts(x, s[1..], v);
    }
  }

  /** What the two counts count: one for each sample at most, or below, the value. */
  lemma {:induction false} CountsExactly(s: seq<int>, t: seq<int>, w: int, v: int)
    ensures AtMost([], v) == 0 && AtMost([w], v) == (if w <= v then 1 else 0)
    ensures Below([], v) == 0 && Below([w], v) == (if w < v then 1 else 0)
    ensures AtMost(s + t, v) == AtMost(s, v) + AtMost(t, v) && Below(s + t, v) == Below(s, v) + Below(t, v)
    decreases |s|
  {
    assert [w][1..] == [];
    if s == [] {
      assert s + t == t;
    } else {
      CountsExactly(s[1..], t, w, v);
      assert (s + t)[1..] == s[1..] + t;
    }
  }

  lemma {:induction false} SortCounts(s: seq<int>, v: int)
    ensures AtMost(SortedCopy(s), v) == AtMost(s, v) && Below(SortedCopy(s), v) == Below(s, v)
    decreases |s|
  {
    if s == [] {
    } else {
      SortCounts(s[1..], v);
      InsertCounts(s[0], SortedCopy(s[1..]), v);
    }
  }

  lemma {:induction false} SortedCounts(t: seq<int>, i: nat)
    requires NonDecreasing(t) && i < |t|
    ensures AtMost(t, t[i]) >= i + 1 && Below(t, t[i]) <= i
    decreases |t|
  {
    if i > 0 {
      SortedCounts(t[1..], i - 1);
      assert t[1..][i - 1] == t[i];
    } else {
      NoneBelow(t, t[0]);
    }
  }

  lemma {:induction false} NoneBelow(t: seq<int>, v: int)
    requires forall i :: 0 <= i < |t| ==> v <= t[i]
    ensures Below(t, v) == 0
    decreases |t|
  {
    if t == [] {
    } else {
      NoneBelow(t[1..], v);
    }
  }

  // ---------------------------------------------------------------- nearest rank

  /** At least `permille` thousandths of the samples are at most `v`, and fewer lie strictly below it; or
      exactly as many, if the rank came out above a whole number. */
  ghost predicate IsNearestRank(s: seq<int>, permille: nat, above: bool, v: int) {
    && v in s
    && AtMost(s, v) * 1000 >= permille * |s|
    && (Below(s, v) * 1000 < permille * |s| || (above && Below(s, v) * 1000 == permille * |s|))
  }

  /** The rank the summary uses: rounded up, at least 1 and at most the number of samples. */
  function Rank(permille: nat, n: nat, above: bool): (r: nat)
    requires n > 0
    ensures 1 <= r <= n
  {
    Clamp(Ceiling(permille * n, above), n)
  }

  /** A number of thousandths, rounded up; a whole number may have come out above itself. */
  function Ceiling(x: nat, above: bool): nat {
    if above && x % 1000 == 0 then x / 1000 + 1 else (x + 999) / 1000
  }

  function Clamp(rank: nat, n: nat): (r: nat)
    requires n > 0
    ensures 1 <= r <= n
  {
    var atLeastOne := if rank == 0 then 1 else rank;
    if atLeastOne <= n then atLeastOne else n
  }

  lemma RankRoundsUp(permille: nat, n: nat, above: bool)
    requires n > 0 && 0 < permille <= 1000
    ensures Rank(permille, n, above) * 1000 >= permille * n
    ensures (Rank(permille, n, above) - 1) * 1000 <= permille * n
    ensures !above ==> (Rank(permille, n, above) - 1) * 1000 < permille * n
  {
    Products(permille, 1000, n);
    Products(1, permille, n);
    ClampKeeps(permille * n, n, above);
  }

  lemma ClampKeeps(x: nat, n: nat, above: bool)
    requires 0 < x <= 1000 * n
    ensures Clamp(Ceiling(x, above), n) * 1000 >= x
    ensures (Clamp(Ceiling(x, above), n) - 1) * 1000 <= x
    ensures !above ==> (Clamp(Ceiling(x, above), n) - 1) * 1000 < x
  {
  }

  lemma RankMonotone(p: nat, q: nat, n: nat, above: bool)
    requires n > 0 && p <= q
    ensures Rank(p, n, false) <= Rank(q, n, above)
  {
    Products(p, q, n);
    Quotients(p * n, q * n, above);
  }

  lemma Products(p: nat, q: nat, n: nat)
    requires p <= q
    ensures p * n <= q * n
  {
    assert (q - p) * n >= 0;
  }

  lemma Quotients(x: nat, y: nat, above: bool)
    requires x <= y
    ensures Ceiling(x, false) <= Ceiling(y, above)
  {
  }

  lemma NearestRank(s: seq<int>, permille: nat, above: bool)
    requires s != [] && 0 < permille <= 1000
    ensures |SortedCopy(s)| == |s| && IsNearestRank(s, permille, above, SortedCopy(s)[Rank(permille, |s|, above) - 1])
  {
    var t, r := SortedCopy(s), Rank(permille, |s|, above);
    SortPermutes(s);
    var v := t[r - 1];
    SortedCounts(t, r - 1);
    SortCounts(s, v);
    RankRoundsUp(permille, |s|, above);
    assert v in multiset(t);
  }

  // ---------------------------------------------------------------- mean and variance

  function Sum(s: seq<int>): int {
    if s == [] then 0 else Sum(s[..|s| - 1]) + s[|s| - 1]
  }

  function SumOfSquares(s: seq<int>): int {
    if s == [] then 0 else SumOfSquares(s[..|s| - 1]) + s[|s| - 1] * s[|s| - 1]
  }

  function Mean(s: seq<int>): real
    requires s != []
  {
    Sum(s) as real / |s| as real
  }

  /** The mean of the squares less the square of the mean. */
  function Variance(s: seq<int>): real
    requires s != []
  {
    SumOfSquares(s) as real / |s| as real - Mean(s) * Mean(s)
  }

  function SquareOf(d: real): real {
    d * d
  }

  /** The sum of the squared distances from `m`. */
  function Spread(s: seq<int>, m: real): real {
    if s == [] then 0.0
    else Spread(s[..|s| - 1], m) + SquareOf(s[|s| - 1] as real - m)
  }

  /** What is summed: the samples, and the squares of their distances from a value. */
  lemma SumsExactly(s: seq<int>, v: int, m: real)
    ensures Sum([]) == 0 && Sum(s + [v]) == Sum(s) + v
    ensures Spread([], m) == 0.0 && Spread(s + [v], m) == Spread(s, m) + (v as real - m) * (v as real - m)
  {
    assert (s + [v])[..|s|] == s;
  }

  /** The mean is the sum, and the variance the squared distances from the mean, shared out evenly. */
  lemma MomentsExactly(s: seq<int>)
    requires s != []
    ensures Mean(s) * |s| as real == Sum(s) as real && Variance(s) * |s| as real == Spread(s, Mean(s))
  {
    hide Sum;
    hide SumOfSquares;
    hide Spread;
    SpreadAtMean(s, Mean(s));
    QuotientTimes(Sum(s) as real, |s| as real);
    QuotientTimes(Spread(s, Mean(s)), |s| as real);
  }

  lemma SquareOfDifference(v: int, m: real)
    ensures (v as real - m) * (v as real - m) == (v * v) as real - 2.0 * m * v as real + m * m
  {
    var x := v as real;
    assert (v * v) as real == x * x;
  }

  lemma {:induction false} SpreadExpands(s: seq<int>, m: real)
    ensures Spread(s, m) == SumOfSquares(s) as real - 2.0 * m * Sum(s) as real + |s| as real * m * m
    decreases |s|
  {
    if s == [] {
    } else {
      var n := |s| - 1;
      SpreadExpands(s[..n], m);
      SquareOfDifference(s[n], m);
      assert Sum(s) as real == Sum(s[..n]) as real + s[n] as real;
      assert |s| as real == n as real + 1.0;
      assert 2.0 * m * Sum(s) as real == 2.0 * m * Sum(s[..n]) as real + 2.0 * m * s[n] as real;
      assert |s| as real * m * m == n as real * m * m + m * m;
    }
  }

  lemma ExpansionAtMean(squares: real, total: real, n: real, mean: real)
    requires n > 0.0 && total == mean * n
    ensures (squares - 2.0 * mean * total + n * mean * mean) / n == squares / n - mean * mean
  {
    var p := mean * mean;
    assert mean * total == n * p;
    assert n * mean * mean == n * p;
    assert squares - 2.0 * mean * total + n * mean * mean == squares - n * p;
    assert (squares - n * p) / n == squares / n - (n * p) / n;
    assert (n * p) / n == p;
  }

  /** The mean of the squares less the square of the mean. */
  lemma SpreadAtMean(s: seq<int>, mean: real)
    requires s != [] && mean == Sum(s) as real / |s| as real
    ensures Spread(s, mean) / |s| as real == SumOfSquares(s) as real / |s| as real - mean * mean
  {
    hide Spread;
    SpreadExpands(s, mean);
    QuotientTimes(Sum(s) as real, |s| as real);
    ExpansionAtMean(SumOfSquares(s) as real, Sum(s) as real, |s| as real, mean);
  }

  lemma QuotientTimes(a: real, n: real)
    requires n > 0.0
    ensures a / n * n == a
  {
  }

  lemma QuotientNotNegative(a: real, n: real)
    requires a >= 0.0 && n > 0.0
    ensures a / n >= 0.0
  {
  }

  lemma {:induction false} SpreadNotNegative(s: seq<int>, m: real)
    ensures Spread(s, m) >= 0.0
    decreases |s|
  {
    if s == [] {
    } else {
      SpreadNotNegative(s[..|s| - 1], m);
    }
  }

  lemma {:induction false} SumBetween(s: seq<int>, lo: int, hi: int)
    requires forall i :: 0 <= i < |s| ==> lo <= s[i] <= hi
    ensures |s| * lo <= Sum(s) <= |s| * hi
    decreases |s|
  {
    if s == [] {
    } else {
      var n := |s| - 1;
      SumBetween(s[..n], lo, hi);
      OneTimesMore(n, lo);
      OneTimesMore(n, hi);
    }
  }

  lemma OneTimesMore(n: nat, v: int)
    ensures (n + 1) * v == n * v + v
  {
  }

  lemma MeanBetween(s: seq<int>, lo: int, hi: int)
    requires s != [] && forall i :: 0 <= i < |s| ==> lo <= s[i] <= hi
    ensures lo as real <= Mean(s) <= hi as real
  {
    hide Sum;
    SumBetween(s, lo, hi);
    RealProduct(|s|, lo);
    RealProduct(|s|, hi);
    BetweenQuotient(Sum(s) as real, |s| as real, lo as real, hi as real);
  }

  lemma RealProduct(n: nat, v: int)
    ensures (n * v) as real == n as real * v as real
  {
  }

  lemma BetweenQuotient(a: real, n: real, lo: real, hi: real)
    requires n > 0.0 && n * lo <= a <= n * hi
    ensures lo <= a / n <= hi
  {
    var q := a / n;
    assert a == q * n;
    assert (q - lo) * n >= 0.0 && (hi - q) * n >= 0.0;
  }

  lemma {:induction false} SumOfPermutation(s: seq<int>)
    ensures Sum(SortedCopy(s)) == Sum(s) && SumOfSquares(SortedCopy(s)) == SumOfSquares(s)
    decreases |s|
  {
    if s == [] {
    } else {
      SumOfPermutation(s[1..]);
      InsertAdds(s[0], SortedCopy(s[1..]));
      SumFront(s);
    }
  }

  lemma {:induction false} SumFront(s: seq<int>)
    requires s != []
    ensures Sum(s) == s[0] + Sum(s[1..]) && SumOfSquares(s) == s[0] * s[0] + SumOfSquares(s[1..])
    decreases |s|
  {
    if |s| == 1 {
    } else {
      var n := |s| - 1;
      SumFront(s[..n]);
      assert s[..n][1..] == s[1..][..n - 1];
    }
  }

  lemma {:induction false} InsertAdds(x: int, s: seq<int>)
    ensures Sum(Insert(x, s)) == Sum(s) + x && SumOfSquares(Insert(x, s)) == SumOfSquares(s) + x * x
    decreases |s|
  {
    var t := Insert(x, s);
    SumFront(t);
    if s == [] || x <= s[0] {
      assert t[1..] == s;
    } else {
      SumFront(s);
      assert t[1..] == Insert(x, s[1..]);
      InsertAdds(x, s[1..]);
    }
  }

  // ---------------------------------------------------------------- the summary

  method Percentile(samples: seq<int>, permille: nat, above: bool) returns (v: int)
    requires samples != []
    ensures v == samples[Rank(permille, |samples|, above) - 1]
  {
    var rank := (permille * |samples| + 999) / 1000;
    if above && permille * |samples| % 1000 == 0 { rank := permille * |samples| / 1000 + 1; }
    if rank == 0 { rank := 1; }
    v := samples[(if rank <= |samples| then rank else |samples|) - 1];
  }

  /** What the summary of a non-empty list of latencies says about the list itself. */
  ghost predicate Summarises(s: seq<int>, above: bool, sqrt: real -> real, out: Summary)
    requires s != []
  {
    && out.count == |s|
    && out.minUs in s && out.maxUs in s
    && (forall i :: 0 <= i < |s| ==> out.minUs <= s[i] <= out.maxUs)
    && IsNearestRank(s, 500, false, out.p50Us) && IsNearestRank(s, 950, false, out.p95Us)
    && IsNearestRank(s, 990, false, out.p99Us) && IsNearestRank(s, 999, above, out.p999Us)
    && out.minUs <= out.p50Us <= out.p95Us <= out.p99Us <= out.p999Us <= out.maxUs
    && out.minUs as real <= out.meanUs == Mean(s) <= out.maxUs as real
    && out.stddevUs == sqrt(Variance(s)) && Variance(s) >= 0.0
  }

  /** The order statistics of a summary are taken from the sorted copy at their ranks. */
  ghost predicate Ranked(s: seq<int>, t: seq<int>, above: bool, out: Summary) {
    && |t| == |s| > 0
    && out.minUs == t[0] && out.maxUs == t[|t| - 1]
    && out.p50Us == t[Rank(500, |s|, false) - 1] && out.p95Us == t[Rank(950, |s|, false) - 1]
    && out.p99Us == t[Rank(990, |s|, false) - 1] && out.p999Us == t[Rank(999, |s|, above) - 1]
  }

  lemma OrderStatistics(s: seq<int>, above: bool, out: Summary)
    requires Ranked(s, SortedCopy(s), above, out)
    ensures out.minUs in s && out.maxUs in s
    ensures forall i :: 0 <= i < |s| ==> out.minUs <= s[i] <= out.maxUs
    ensures IsNearestRank(s, 500, false, out.p50Us) && IsNearestRank(s, 950, false, out.p95Us)
    ensures IsNearestRank(s, 990, false, out.p99Us) && IsNearestRank(s, 999, above, out.p999Us)
    ensures out.minUs <= out.p50Us <= out.p95Us <= out.p99Us <= out.p999Us <= out.maxUs
  {
    hide Rank;
    hide IsNearestRank;
    hide SortedCopy;
    var t, n := SortedCopy(s), |s|;
    SortPermutes(s);
    NearestRank(s, 500, false);
    NearestRank(s, 950, false);
    NearestRank(s, 990, false);
    NearestRank(s, 999, above);
    RankMonotone(500, 950, n, false);
    RankMonotone(950, 990, n, false);
    RankMonotone(990, 999, n, above);
    Extremes(s, t);
  }

  lemma Extremes(s: seq<int>, t: seq<int>)
    requires t != [] && NonDecreasing(t) && multiset(s) == multiset(t)
    ensures t[0] in s && t[|t| - 1] in s
    ensures forall i :: 0 <= i < |s| ==> t[0] <= s[i] <= t[|t| - 1]
  {
    assert t[0] in multiset(t) && t[|t| - 1] in multiset(t);
    forall i | 0 <= i < |s| ensures t[0] <= s[i] <= t[|t| - 1] {
      assert s[i] in multiset(t);
    }
  }

  lemma SameMoments(s: seq<int>)
    requires s != []
    ensures SortedCopy(s) != [] && Mean(SortedCopy(s)) == Mean(s) && Variance(SortedCopy(s)) == Variance(s)
  {
    hide Sum;
    hide SumOfSquares;
    hide SortedCopy;
    SortPermutes(s);
    SumOfPermutation(s);
  }

  method Summarise(latencyUs: seq<int>, above: bool, sqrt: real -> real) returns (out: Summary)
    ensures latencyUs == [] ==> out == Summary(0, 0, 0, 0, 0, 0, 0, 0.0, 0.0)
    ensures latencyUs != [] ==> Summarises(latencyUs, above, sqrt, out)
  {
    hide Rank;
    hide IsNearestRank;
    hide SortedCopy;
    hide Sum;
    hide Mean;
    hide Variance;
    out := EMPTY;
    if latencyUs == [] {
      return;
    }
    var samples := SortedCopy(latencyUs);
    SortPermutes(latencyUs);
    out := out.(count := |samples|, minUs := samples[0], maxUs := samples[|samples| - 1]);
    var p50 := Percentile(samples, 500, false);
    var p95 := Percentile(samples, 950, false);
    var p99 := Percentile(samples, 990, false);
    var p999 := Percentile(samples, 999, above);
    out := out.(p50Us := p50, p95Us := p95, p99Us := p99, p999Us := p999);
    var mean, variance := MeanAndVariance(samples);
    out := out.(meanUs := mean, stddevUs := sqrt(variance));
    OrderStatistics(latencyUs, above, out);
    SameMoments(latencyUs);
    MeanBetween(latencyUs, out.minUs, out.maxUs);
  }

  method Accumulate(samples: seq<int>) returns (sum: int)
    ensures sum == Sum(samples)
  {
    sum := 0;
    for i := 0 to |samples|
      invariant sum == Sum(samples[..i])
    {
      assert samples[..i + 1][..i] == samples[..i];
      sum := sum + samples[i];
    }
    assert samples[..|samples|] == samples;
  }

  method AccumulateSpread(samples: seq<int>, mean: real) returns (sq: real)
    ensures sq == Spread(samples, mean)
  {
    hide SquareOf;
    sq := 0.0;
    for i := 0 to |samples|
      invariant sq == Spread(samples[..i], mean)
    {
      assert samples[..i + 1][..i] == samples[..i];
      sq := sq + SquareOf(samples[i] as real - mean);
    }
    assert samples[..|samples|] == samples;
  }

  method MeanAndVariance(samples: seq<int>) returns (mean: real, variance: real)
    requires samples != []
    ensures mean == Mean(samples) && variance == Variance(samples) >= 0.0
  {
    hide Sum;
    hide SumOfSquares;
    hide Spread;
    var sum := Accumulate(samples);
    mean := sum as real / |samples| as real;
    var sq := AccumulateSpread(samples, mean);
    SpreadAtMean(samples, mean);
    SpreadNotNegative(samples, mean);
    QuotientNotNegative(sq, |samples| as real);
    variance := sq / |samples| as real;
  }
}
