/**
 The order statistics of the benchmark reports, over exact reals: the two interpolating
 percentiles, the nearest-rank percentile, the median and the median absolute deviation.
 */
module OrderStatistics {
  import opened Arith
  import opened Counting
  import opened Wrappers

  // ----- Sorting

  ghost predicate Sorted(s: seq<real>) {
    forall i, j :: 0 <= i <= j < |s| ==> s[i] <= s[j]
  }

  function Insert(x: real, s: seq<real>): (r: seq<real>)
    ensures |r| == |s| + 1
  {
    if s == [] || x <= s[0] then [x] + s else [s[0]] + Insert(x, s[1..])
  }

  /** `sorted(values)`. */
  function Sort(s: seq<real>): (r: seq<real>)
    ensures |r| == |s|
  {
    if s == [] then [] else Insert(s[0], Sort(s[1..]))
  }

  lemma {:induction false} InsertAdds(x: real, s: seq<real>)
    ensures multiset(Insert(x, s)) == multiset(s) + multiset{x}
  {
    if s != [] && x > s[0] {
      InsertAdds(x, s[1..]);
      assert s == [s[0]] + s[1..];
    }
  }

  lemma SortedMore(x: real, s: seq<real>)
    requires Sorted(s) && forall i :: 0 <= i < |s| ==> x <= s[i]
    ensures Sorted([x] + s)
  {
    var r := [x] + s;
    assert forall i :: 1 <= i < |r| ==> r[i] == s[i - 1];
  }

  lemma InsertLeast(x: real, s: seq<real>, least: real)
    requires least <= x && forall i :: 0 <= i < |s| ==> least <= s[i]
    ensures forall i :: 0 <= i < |Insert(x, s)| ==> least <= Insert(x, s)[i]
  {
    var r := Insert(x, s);
    InsertAdds(x, s);
    forall i | 0 <= i < |r|
      ensures least <= r[i]
    {
      assert r[i] in multiset(r);
      assert r[i] == x || r[i] in multiset(s);
    }
  }

  lemma {:induction false} InsertSorted(x: real, s: seq<real>)
    requires Sorted(s)
    ensures Sorted(Insert(x, s))
  {
    if s == [] || x <= s[0] {
      SortedMore(x, s);
    } else {
      InsertSorted(x, s[1..]);
      InsertLeast(x, s[1..], s[0]);
      SortedMore(s[0], Insert(x, s[1..]));
    }
  }

  lemma {:induction false} SortSorts(s: seq<real>)
    ensures Sorted(Sort(s)) && multiset(Sort(s)) == multiset(s)
  {
    if s != [] {
      SortSorts(s[1..]);
      InsertSorted(s[0], Sort(s[1..]));
      InsertAdds(s[0], Sort(s[1..]));
      assert s == [s[0]] + s[1..];
    }
  }

  lemma SortedHead(a: seq<real>, b: seq<real>)
    requires a != [] && Sorted(a) && Sorted(b) && multiset(a) == multiset(b)
    ensures b != [] && a[0] == b[0]
  {
    assert a[0] in multiset(b);
    var k :| 0 <= k < |b| && b[k] == a[0];
    assert b[0] in multiset(a);
    var l :| 0 <= l < |a| && a[l] == b[0];
    assert a[0] <= a[l] && b[0] <= b[k];
  }

  lemma SameTail(a: seq<real>, b: seq<real>)
    requires a != [] && b != [] && a[0] == b[0] && multiset(a) == multiset(b)
    ensures multiset(a[1..]) == multiset(b[1..])
  {
    Without(a, b, 0);
    assert b[..0] + b[0 + 1..] == b[1..];
  }

  lemma SortedTail(a: seq<real>)
    requires a != [] && Sorted(a)
    ensures Sorted(a[1..])
  {
  }

  lemma {:induction false} SortedUnique(a: seq<real>, b: seq<real>)
    requires Sorted(a) && Sorted(b) && multiset(a) == multiset(b)
    ensures a == b
  {
    if a == [] {
      assert |multiset(b)| == 0;
    } else {
      SortedHead(a, b);
      SameTail(a, b);
      SortedTail(a);
      SortedTail(b);
      SortedUnique(a[1..], b[1..]);
      assert a == [a[0]] + a[1..] && b == [b[0]] + b[1..];
    }
  }

  /** Sorting forgets the order of the sample. */
  lemma SortPermutation(s: seq<real>, t: seq<real>)
    requires multiset(s) == multiset(t)
    ensures Sort(s) == Sort(t)
  {
    SortSorts(s);
    SortSorts(t);
    SortedUnique(Sort(s), Sort(t));
  }

  lemma SortBounds(s: seq<real>, x: real)
    requires x in s
    ensures Sort(s)[0] <= x <= Sort(s)[|s| - 1]
  {
    SortSorts(s);
    assert x in multiset(Sort(s));
    var k :| 0 <= k < |s| && Sort(s)[k] == x;
  }

  // ----- Percentiles

  function Lerp(a: real, b: real, w: real): real {
    a + (b - a) * w
  }

  function WeightedMean(a: real, b: real, w: real): real {
    a * (1.0 - w) + b * w
  }

  /** The real position of a quantile in a sample of `n` values. */
  function Position(n: nat, q: real): (x: real)
    requires n >= 1 && 0.0 <= q <= 1.0
    ensures 0.0 <= x <= (n - 1) as real
  {
    ScaleRange(q, (n - 1) as real);
    Scale(q, (n - 1) as real)
  }

  function Scale(q: real, m: real): real {
    q * m
  }

  lemma ScaleRange(q: real, m: real)
    requires 0.0 <= q <= 1.0 && m >= 0.0
    ensures 0.0 <= Scale(q, m) <= m
  {
    MulNonNegative(q, m);
    MulNonNegative(1.0 - q, m);
    assert (1.0 - q) * m == m - q * m;
  }

  lemma ScaleMonotone(p: real, q: real, m: real)
    requires p <= q && m >= 0.0
    ensures Scale(p, m) <= Scale(q, m)
  {
    MulAtLeast(q, p, m);
  }

  lemma NeighbourRange(n: nat, x: real)
    requires 0.0 <= x <= (n - 1) as real
    ensures 0 <= x.Floor <= Ceil(x) <= n - 1 && Ceil(x) <= x.Floor + 1
  {
  }

  /** The value at a position, as the contention benchmark computes it. */
  function Interpolate(o: seq<real>, rank: real): real
    requires 0.0 <= rank <= (|o| - 1) as real
  {
    NeighbourRange(|o|, rank);
    var lower, upper := rank.Floor, Ceil(rank);
    if lower == upper then o[lower] else Lerp(o[lower], o[upper], rank - lower as real)
  }

  /** The value at a position, as the index benchmark computes it. */
  function Average(o: seq<real>, position: real): real
    requires 0.0 <= position <= (|o| - 1) as real
  {
    NeighbourRange(|o|, position);
    var lower, upper := position.Floor, Ceil(position);
    if lower == upper then o[lower] else WeightedMean(o[lower], o[upper], position - lower as real)
  }

  /** The percentile of the contention benchmark. */
  function Percentile(values: seq<real>, pct: real): Option<real>
    requires 0.0 <= pct <= 100.0
  {
    if values == [] then None
    else if |values| == 1 then Some(Sort(values)[0])
    else Some(Interpolate(Sort(values), Position(|values|, pct / 100.0)))
  }

  /** The percentile of the index benchmark. */
  function Quantile(values: seq<real>, quantile: real): real
    requires 0.0 <= quantile <= 1.0
  {
    if values == [] then 0.0 else Average(Sort(values), Position(|values|, quantile))
  }

  function RankIndex(n: nat, q: real): int {
    var k := Max(0, Ceil(Scale(q, n as real)) - 1);
    Min(n - 1, k)
  }

  /** The nearest-rank percentile of the vector-database benchmark. */
  function NearestRank(values: seq<real>, pct: real): real
    requires 0.0 <= pct <= 100.0
  {
    if values == [] then 0.0
    else
      RankIndexRange(|values|, pct / 100.0);
      Sort(values)[RankIndex(|values|, pct / 100.0)]
  }

  lemma RankIndexRange(n: nat, q: real)
    requires n >= 1 && 0.0 <= q <= 1.0
    ensures 0 <= RankIndex(n, q) < n
    ensures var x := Position(n, q); x.Floor <= RankIndex(n, q) <= Ceil(x)
  {
    var x := Position(n, q);
    NeighbourRange(n, x);
    assert q * n as real == x + q;
  }

  // ----- The blend of two neighbours

  lemma LerpIsMean(a: real, b: real, w: real)
    ensures Lerp(a, b, w) == WeightedMean(a, b, w)
  {
    assert (b - a) * w == b * w - a * w;
    assert a * (1.0 - w) == a - a * w;
  }

  lemma LerpBetween(a: real, b: real, w: real)
    requires a <= b && 0.0 <= w <= 1.0
    ensures a <= Lerp(a, b, w) <= b
  {
    var d := b - a;
    MulNonNegative(d, w);
    MulNonNegative(d, 1.0 - w);
    assert d * (1.0 - w) == d - d * w;
  }

  lemma LerpMonotone(a: real, b: real, v: real, w: real)
    requires a <= b && v <= w
    ensures Lerp(a, b, v) <= Lerp(a, b, w)
  {
    MulAtLeast(w, v, b - a);
    assert (b - a) * w == w * (b - a) && (b - a) * v == v * (b - a);
  }

  /** The value at the real position `x` of a sorted sample. */
  function Blend(o: seq<real>, x: real): real
    requires 0.0 <= x <= (|o| - 1) as real
  {
    var k := x.Floor;
    if k + 1 < |o| then Lerp(o[k], o[k + 1], x - k as real) else o[k]
  }

  lemma BlendBetween(o: seq<real>, x: real)
    requires Sorted(o) && 0.0 <= x <= (|o| - 1) as real
    ensures o[x.Floor] <= Blend(o, x)
    ensures x.Floor + 1 < |o| ==> Blend(o, x) <= o[x.Floor + 1]
  {
    var k := x.Floor;
    if k + 1 < |o| {
      LerpBetween(o[k], o[k + 1], x - k as real);
    }
  }

  lemma BlendMonotone(o: seq<real>, x: real, y: real)
    requires Sorted(o) && 0.0 <= x <= y <= (|o| - 1) as real
    ensures Blend(o, x) <= Blend(o, y)
  {
    BlendBetween(o, x);
    BlendBetween(o, y);
    if x.Floor == y.Floor {
      var k := x.Floor;
      if k + 1 < |o| {
        LerpMonotone(o[k], o[k + 1], x - k as real, y - k as real);
      }
    } else {
      assert x.Floor + 1 <= y.Floor;
    }
  }

  lemma LerpAtZero(a: real, b: real)
    ensures Lerp(a, b, 0.0) == a
  {
  }

  /** Both computations are this blend. */
  lemma BothAreBlend(o: seq<real>, x: real)
    requires 0.0 <= x <= (|o| - 1) as real
    ensures Interpolate(o, x) == Blend(o, x) == Average(o, x)
  {
    var k := x.Floor;
    if k + 1 < |o| {
      if k == Ceil(x) {
        assert x - k as real == 0.0;
        LerpAtZero(o[k], o[k + 1]);
      } else {
        LerpIsMean(o[k], o[k + 1], x - k as real);
      }
    }
  }

  lemma PercentileIsBlend(values: seq<real>, pct: real)
    requires values != [] && 0.0 <= pct <= 100.0
    ensures Percentile(values, pct) == Some(Blend(Sort(values), Position(|values|, pct / 100.0)))
  {
    var o, x := Sort(values), Position(|values|, pct / 100.0);
    BothAreBlend(o, x);
    if |values| == 1 {
      SingleBlend(o, x);
    }
  }

  lemma SingleBlend(o: seq<real>, x: real)
    requires |o| == 1 && 0.0 <= x <= 0.0
    ensures Blend(o, x) == o[0]
  {
  }

  /** The two interpolating percentiles are the same function. */
  lemma PercentilesAgree(values: seq<real>, pct: real)
    requires values != [] && 0.0 <= pct <= 100.0
    ensures Percentile(values, pct) == Some(Quantile(values, pct / 100.0))
  {
    PercentileIsBlend(values, pct);
    BothAreBlend(Sort(values), Position(|values|, pct / 100.0));
  }

  /** It lies between the least and the greatest value of the sample. */
  lemma PercentileBounds(values: seq<real>, pct: real)
    requires values != [] && 0.0 <= pct <= 100.0
    ensures var o := Sort(values); o[0] <= Percentile(values, pct).value <= o[|o| - 1]
    ensures Sort(values)[0] in values && Sort(values)[|values| - 1] in values
    ensures forall v :: v in values ==> Sort(values)[0] <= v <= Sort(values)[|values| - 1]
  {
    var o, x := Sort(values), Position(|values|, pct / 100.0);
    PercentileIsBlend(values, pct);
    SortSorts(values);
    BlendBetween(o, x);
    assert o[0] in multiset(o) && o[|o| - 1] in multiset(o);
    forall v | v in values
      ensures o[0] <= v <= o[|o| - 1]
    {
      SortBounds(values, v);
    }
  }

  /** It does not depend on the order of the sample. */
  lemma PercentileOrder(values: seq<real>, others: seq<real>, pct: real)
    requires multiset(values) == multiset(others) && 0.0 <= pct <= 100.0
    ensures Percentile(values, pct) == Percentile(others, pct)
    ensures NearestRank(values, pct) == NearestRank(others, pct)
  {
    SortPermutation(values, others);
  }

  lemma PositionMonotone(n: nat, p: real, q: real)
    requires n >= 1 && 0.0 <= p <= q <= 1.0
    ensures Position(n, p) <= Position(n, q)
  {
    ScaleMonotone(p, q, (n - 1) as real);
  }

  /** It never decreases as the percentage grows. */
  lemma PercentileMonotone(values: seq<real>, p: real, q: real)
    requires values != [] && 0.0 <= p <= q <= 100.0
    ensures Percentile(values, p).value <= Percentile(values, q).value
  {
    PercentileIsBlend(values, p);
    PercentileIsBlend(values, q);
    QuantileMonotone(values, p / 100.0, q / 100.0);
  }

  lemma QuantileMonotone(values: seq<real>, p: real, q: real)
    requires values != [] && 0.0 <= p <= q <= 1.0
    ensures Blend(Sort(values), Position(|values|, p)) <= Blend(Sort(values), Position(|values|, q))
  {
    SortSorts(values);
    PositionMonotone(|values|, p, q);
    BlendMonotone(Sort(values), Position(|values|, p), Position(|values|, q));
  }

  // ----- The percentiles on the sample itself

  /** `o` is the sample in increasing order. */
  ghost predicate IsSorting(o: seq<real>, values: seq<real>) {
    Sorted(o) && multiset(o) == multiset(values)
  }

  lemma SortingIs(o: seq<real>, values: seq<real>)
    requires IsSorting(o, values)
    ensures o == Sort(values) && |o| == |values|
  {
    SortSorts(values);
    SortedUnique(o, Sort(values));
  }

  lemma BlendAt(o: seq<real>, k: nat, w: real)
    requires k + 1 < |o| && 0.0 <= w <= 1.0
    ensures 0.0 <= k as real + w <= (|o| - 1) as real
    ensures Blend(o, k as real + w) == o[k] + (o[k + 1] - o[k]) * w
  {
    var x := k as real + w;
    if w < 1.0 {
      assert x.Floor == k && x - k as real == w;
      assert Blend(o, x) == Lerp(o[k], o[k + 1], w);
    } else {
      assert x == (k + 1) as real && x.Floor == k + 1;
      LerpAtOne(o[k], o[k + 1]);
      if k + 2 < |o| {
        LerpAtZero(o[k + 1], o[k + 2]);
        assert Blend(o, x) == Lerp(o[k + 1], o[k + 2], 0.0);
      }
    }
  }

  lemma LerpAtOne(a: real, b: real)
    ensures a + (b - a) * 1.0 == b
  {
  }

  lemma PositionAt(n: nat, x: real)
    requires n >= 2 && 0.0 <= x <= (n - 1) as real
    ensures 0.0 <= x / (n - 1) as real <= 1.0 && Position(n, x / (n - 1) as real) == x
  {
    var m := (n - 1) as real;
    assert (x / m) * m == x;
    QuotientRange(x, m);
  }

  lemma QuotientRange(x: real, m: real)
    requires m >= 1.0 && 0.0 <= x <= m
    ensures 0.0 <= x / m <= 1.0
  {
  }

  /** The sample points lie at equal distances from 0 to 1, and between two of them the
      quantile runs along the straight line. */
  lemma QuantileInterpolates(values: seq<real>, o: seq<real>, k: nat, w: real)
    requires IsSorting(o, values) && k + 1 < |o| && 0.0 <= w <= 1.0
    ensures var q := (k as real + w) / (|o| - 1) as real;
            0.0 <= q <= 1.0 && Quantile(values, q) == o[k] + (o[k + 1] - o[k]) * w
  {
    SortingIs(o, values);
    PositionAt(|o|, k as real + w);
    BlendAt(o, k, w);
    BothAreBlend(o, k as real + w);
  }

  /** The same for the percentile, on a scale from 0 to 100. */
  lemma PercentileInterpolates(values: seq<real>, o: seq<real>, k: nat, w: real)
    requires IsSorting(o, values) && k + 1 < |o| && 0.0 <= w <= 1.0
    ensures var pct := 100.0 * ((k as real + w) / (|o| - 1) as real);
            0.0 <= pct <= 100.0 && Percentile(values, pct) == Some(o[k] + (o[k + 1] - o[k]) * w)
  {
    var q := (k as real + w) / (|o| - 1) as real;
    QuantileInterpolates(values, o, k, w);
    SortingIs(o, values);
    assert (100.0 * q) / 100.0 == q;
    PercentilesAgree(values, 100.0 * q);
  }

  /** Samples of one value and of none. */
  lemma SmallSamples(values: seq<real>, pct: real)
    requires |values| <= 1 && 0.0 <= pct <= 100.0
    ensures values == [] ==> Percentile(values, pct).None? && Quantile(values, pct / 100.0) == 0.0 && NearestRank(values, pct) == 0.0
    ensures forall v :: values == [v] ==>
      Percentile(values, pct) == Some(v) && Quantile(values, pct / 100.0) == v && NearestRank(values, pct) == v
  {
    if |values| == 1 {
      assert values == [values[0]];
      SortSorts(values);
      SortedUnique(Sort(values), values);
      RankIndexRange(1, pct / 100.0);
      PercentilesAgree(values, pct);
    }
  }

  // ----- Nearest rank

  lemma RankIndexAt(n: nat, q: real, k: nat)
    requires k < n && 0.0 <= q <= 1.0
    requires Scale(q, n as real) <= (k + 1) as real && (k as real < Scale(q, n as real) || k == 0)
    ensures RankIndex(n, q) == k
  {
  }

  /** The `k`-th value, counted from 0, is given for the percentages above `k` and up to
      `k + 1` parts in `n`, the first one also for 0. */
  lemma NearestAt(values: seq<real>, o: seq<real>, pct: real, k: nat)
    requires IsSorting(o, values) && k < |o| && 0.0 <= pct <= 100.0
    requires pct * |o| as real <= 100.0 * (k + 1) as real && (k == 0 || 100.0 * k as real < pct * |o| as real)
    ensures NearestRank(values, pct) == o[k]
  {
    SortingIs(o, values);
    ShareOf(pct, |o| as real);
    RankIndexAt(|o|, pct / 100.0, k);
  }

  lemma ShareOf(pct: real, n: real)
    ensures 100.0 * Scale(pct / 100.0, n) == pct * n
  {
    assert 100.0 * (pct / 100.0) == pct;
    assert 100.0 * ((pct / 100.0) * n) == (100.0 * (pct / 100.0)) * n;
  }

  lemma IndexIsNeighbour(n: nat, q: real)
    requires n >= 1 && 0.0 <= q <= 1.0
    ensures var x := Position(n, q);
            && 0 <= x.Floor <= Ceil(x) < n
            && (RankIndex(n, q) == x.Floor || RankIndex(n, q) == Ceil(x))
  {
    RankIndexRange(n, q);
    NeighbourRange(n, Position(n, q));
  }

  /** The nearest-rank percentile is one of the two samples that the others blend. */
  lemma NearestIsNeighbour(values: seq<real>, pct: real)
    requires values != [] && 0.0 <= pct <= 100.0
    ensures var o, x := Sort(values), Scale(pct / 100.0, (|values| - 1) as real);
            && 0 <= x.Floor <= Ceil(x) < |o|
            && (NearestRank(values, pct) == o[x.Floor] || NearestRank(values, pct) == o[Ceil(x)])
  {
    IndexIsNeighbour(|values|, pct / 100.0);
  }

  lemma RankIndexShare(n: nat, q: real)
    requires n >= 1 && 0.0 <= q <= 1.0
    ensures (RankIndex(n, q) + 1) as real >= Scale(q, n as real)
    ensures RankIndex(n, q) > 0 ==> RankIndex(n, q) as real < Scale(q, n as real)
  {
    ScaleRange(q, n as real);
  }

  lemma CountBelowIndex(o: seq<real>, k: nat)
    requires Sorted(o) && k < |o|
    ensures Count(o, (v: real) => v < o[k]) <= k
  {
    var p := (v: real) => v < o[k];
    assert o == o[..k] + o[k..];
    CountAppend(o[..k], o[k..], p);
    CountZero(o[k..], p);
  }

  lemma RankCounts(values: seq<real>, k: nat)
    requires k < |values|
    ensures var r := Sort(values)[k];
            Count(values, (v: real) => v <= r) >= k + 1 && Count(values, (v: real) => v < r) <= k
  {
    var o := Sort(values);
    var r := o[k];
    SortSorts(values);
    CountPermutation(values, o, (v: real) => v <= r);
    CountPermutation(values, o, (v: real) => v < r);
    CountStretch(o, (v: real) => v <= r, 0, k + 1);
    CountBelowIndex(o, k);
  }

  lemma RankShare(values: seq<real>, k: nat, share: real)
    requires k < |values| && (k + 1) as real >= share && (k > 0 ==> k as real < share)
    ensures var r := Sort(values)[k];
            && Count(values, (v: real) => v <= r) as real >= share
            && (r == Sort(values)[0] || Count(values, (v: real) => v < r) as real < share)
  {
    RankCounts(values, k);
  }

  /** It has its name: at least that share of the sample is no greater, and, unless it is
      the least value, less than that share is smaller. */
  lemma NearestIsRank(values: seq<real>, pct: real, share: real)
    requires values != [] && 0.0 <= pct <= 100.0 && share == Scale(pct / 100.0, |values| as real)
    ensures var r := NearestRank(values, pct);
            && Count(values, (v: real) => v <= r) as real >= share
            && (r == Sort(values)[0] || Count(values, (v: real) => v < r) as real < share)
  {
    RankIndexRange(|values|, pct / 100.0);
    QuantileShare(values, pct / 100.0, RankIndex(|values|, pct / 100.0), share);
  }

  lemma QuantileShare(values: seq<real>, q: real, k: nat, share: real)
    requires values != [] && 0.0 <= q <= 1.0 && k == RankIndex(|values|, q) && k < |values|
    requires share == Scale(q, |values| as real)
    ensures var r := Sort(values)[k];
            && Count(values, (v: real) => v <= r) as real >= share
            && (r == Sort(values)[0] || Count(values, (v: real) => v < r) as real < share)
  {
    RankIndexShare(|values|, q);
    RankShare(values, k, share);
  }
}
