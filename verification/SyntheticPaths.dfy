/**
 The synthetic workload: row `i` lives in the directory spelled by the digits of `i` in
 base `fanout`, lowest digit first, so that a scope of `k` segments selects one residue
 class modulo the `k`-th power of `fanout`.
 */
module SyntheticPaths {
  import opened Arith
  import opened Numerals
  import opened PyText
  import PathScope
  import CommonScope
  import ResourceUris
  import opened Wrappers

  // ----- Digits

  /** The `k`-th digit of `i` in base `f`. */
  function BaseDigit(i: nat, f: nat, k: nat): (d: nat)
    requires f >= 1
  {
    PowPositive(f, k);
    (i / Pow(f, k)) % f
  }

  /** One more digit: the residue and the quotient for the next power. */
  lemma ModStep(i: nat, f: nat, k: nat)
    requires f >= 1
    ensures Pow(f, k) >= 1 && Pow(f, k + 1) >= 1
    ensures i % Pow(f, k + 1) == i % Pow(f, k) + Pow(f, k) * BaseDigit(i, f, k)
    ensures i / Pow(f, k + 1) == (i / Pow(f, k)) / f
  {
    PowPositive(f, k);
    PowPositive(f, k + 1);
    DivDiv(i, Pow(f, k), f);
  }

  ghost predicate SameDigits(i: nat, j: nat, f: nat, k: nat)
    requires f >= 1
  {
    forall l :: 0 <= l < k ==> BaseDigit(i, f, l) == BaseDigit(j, f, l)
  }

  lemma {:induction false} SameDigitsIff(i: nat, j: nat, f: nat, k: nat)
    requires f >= 1
    ensures Pow(f, k) >= 1
    ensures SameDigits(i, j, f, k) <==> i % Pow(f, k) == j % Pow(f, k)
  {
    PowPositive(f, k);
    if k > 0 {
      SameDigitsIff(i, j, f, k - 1);
      ModStep(i, f, k - 1);
      ModStep(j, f, k - 1);
      DigitsOfSum(Pow(f, k - 1), i % Pow(f, k - 1), BaseDigit(i, f, k - 1), j % Pow(f, k - 1), BaseDigit(j, f, k - 1));
      assert SameDigits(i, j, f, k) <==> SameDigits(i, j, f, k - 1) && BaseDigit(i, f, k - 1) == BaseDigit(j, f, k - 1);
    }
  }

  // ----- Paths

  function Segment(level: nat, digit: nat): string {
    "d" + Decimal(level) + "_" + Decimal(digit)
  }

  lemma SegmentInjective(level: nat, digit: nat, digit': nat)
    requires Segment(level, digit) == Segment(level, digit')
    ensures digit == digit'
  {
    var n := |"d" + Decimal(level) + "_"|;
    assert Segment(level, digit)[n..] == Decimal(digit);
    assert Segment(level, digit')[n..] == Decimal(digit');
    DecimalInjective(digit, digit');
  }

  lemma SegmentClean(level: nat, digit: nat)
    ensures PathScope.IsSegment(Segment(level, digit)) && !PathScope.EndsInSpace(Segment(level, digit))
  {
    var s := Segment(level, digit);
    var n := |Decimal(digit)|;
    assert s[|s| - 1] == Decimal(digit)[n - 1];
    assert forall c :: c in s ==> c == 'd' || c == '_' || c in Decimal(level) || c in Decimal(digit);
  }

  /** How many segments a path has, and the base it is written in. */
  function Levels(depth: int): nat {
    Max(1, depth)
  }

  function Base(fanout: int): nat {
    Max(1, fanout)
  }

  function RowSegments(i: nat, depth: int, fanout: int): (r: seq<string>)
    ensures |r| == Levels(depth)
    ensures forall l :: 0 <= l < |r| ==> r[l] == Segment(l, BaseDigit(i, Base(fanout), l))
  {
    seq(Levels(depth), l requires 0 <= l < Levels(depth) => Segment(l, BaseDigit(i, Base(fanout), l)))
  }

  /** `synthetic_path`: the loop that divides a running value spells the digits. */
  method SyntheticPath(index: nat, depth: int, fanout: int) returns (path: string)
    ensures path == PathScope.Render(RowSegments(index, depth, fanout))
  {
    var f := Max(1, fanout);
    var parts := [];
    var value := index;
    for level := 0 to Max(1, depth)
      invariant |parts| == level
      invariant Pow(f, level) >= 1 && value == index / Pow(f, level)
      invariant forall l :: 0 <= l < level ==> parts[l] == Segment(l, BaseDigit(index, f, l))
    {
      ModStep(index, f, level);
      parts := parts + ["d" + Decimal(level) + "_" + Decimal(value % f)];
      value := value / f;
    }
    assert parts == RowSegments(index, depth, fanout);
    path := "/" + Join(parts, '/');
  }

  lemma RowSegmentsClean(i: nat, depth: int, fanout: int)
    ensures PathScope.Clean(RowSegments(i, depth, fanout))
  {
    var r := RowSegments(i, depth, fanout);
    forall l | 0 <= l < |r|
      ensures PathScope.IsSegment(r[l]) && !PathScope.EndsInSpace(r[l])
    {
      SegmentClean(l, BaseDigit(i, Base(fanout), l));
    }
  }

  /** Two rows share their first `k` segments exactly when they are congruent modulo the
      `k`-th power of the fanout. */
  lemma SharedSegmentsIff(i: nat, j: nat, depth: int, fanout: int, k: nat)
    requires k <= Levels(depth)
    ensures Pow(Base(fanout), k) >= 1
    ensures RowSegments(i, depth, fanout)[..k] == RowSegments(j, depth, fanout)[..k]
       <==> i % Pow(Base(fanout), k) == j % Pow(Base(fanout), k)
  {
    var f := Base(fanout);
    var a, b := RowSegments(i, depth, fanout), RowSegments(j, depth, fanout);
    SameDigitsIff(i, j, f, k);
    if a[..k] == b[..k] {
      forall l | 0 <= l < k
        ensures BaseDigit(i, f, l) == BaseDigit(j, f, l)
      {
        assert a[..k][l] == b[..k][l];
        SegmentInjective(l, BaseDigit(i, f, l), BaseDigit(j, f, l));
      }
    }
  }

  /** Rows below the number of leaves have different paths. */
  lemma DistinctPaths(i: nat, j: nat, depth: int, fanout: int)
    requires i < Pow(Base(fanout), Levels(depth)) && j < Pow(Base(fanout), Levels(depth)) && i != j
    ensures RowSegments(i, depth, fanout) != RowSegments(j, depth, fanout)
    ensures PathScope.Render(RowSegments(i, depth, fanout)) != PathScope.Render(RowSegments(j, depth, fanout))
  {
    var n := Levels(depth);
    var a, b := RowSegments(i, depth, fanout), RowSegments(j, depth, fanout);
    SharedSegmentsIff(i, j, depth, fanout, n);
    assert a[..n] == a && b[..n] == b;
    DivUnique(i, Pow(Base(fanout), n), 0, i);
    DivUnique(j, Pow(Base(fanout), n), 0, j);
    RowSegmentsClean(i, depth, fanout);
    RowSegmentsClean(j, depth, fanout);
    CommonScope.SplitRender(a);
    CommonScope.SplitRender(b);
  }

  // ----- What a scope selects

  lemma PathPrefixRender(segs: seq<string>, k: nat)
    requires PathScope.Segments(segs) && 1 <= k <= |segs|
    ensures PathScope.PathPrefix(PathScope.Render(segs), k) == PathScope.Render(segs[..k])
  {
    CommonScope.SplitRender(segs);
  }

  function RowPath(i: nat, depth: int, fanout: int): string {
    PathScope.Render(RowSegments(i, depth, fanout))
  }

  /** The URI of a row: its path, and its id behind it. */
  function RowUri(i: nat, depth: int, fanout: int): string {
    ResourceUris.ResourceUri("synthetic", RowPath(i, depth, fanout), Some("syn-" + Decimal(i)))
  }

  /** The scope of the query for row `r`, `k` segments deep. */
  function QueryScope(r: nat, depth: int, fanout: int, k: nat): string {
    ResourceUris.ResourceUri("synthetic", PathScope.PathPrefix(RowPath(r, depth, fanout), k), None)
  }

  lemma FirstSegments(a: seq<string>, b: seq<string>, item: string, k: nat)
    requires k <= |a| && k <= |b|
    ensures b[..k] <= a + [item] <==> a[..k] == b[..k]
  {
    assert (a + [item])[..k] == a[..k];
  }

  /** Row `i` is in the scope of row `r` exactly when they are congruent. */
  lemma ScopeSelects(i: nat, r: nat, depth: int, fanout: int, k: nat)
    requires 1 <= k <= Levels(depth)
    ensures Pow(Base(fanout), k) >= 1
    ensures PathScope.Matches(RowUri(i, depth, fanout), QueryScope(r, depth, fanout, k))
       <==> i % Pow(Base(fanout), k) == r % Pow(Base(fanout), k)
  {
    var a, b := RowSegments(i, depth, fanout), RowSegments(r, depth, fanout);
    var id := "syn-" + Decimal(i);
    RowSegmentsClean(i, depth, fanout);
    RowSegmentsClean(r, depth, fanout);
    PathPrefixRender(b, k);
    assert PathScope.Clean(b[..k]);
    ResourceUris.ScopeUriIff("synthetic", a, id, b[..k]);
    FirstSegments(a, b, ResourceUris.SafeUriSegment(id), k);
    SharedSegmentsIff(i, r, depth, fanout, k);
  }

  function InScope(r: nat, depth: int, fanout: int, k: nat): nat -> bool {
    (i: nat) => PathScope.Matches(RowUri(i, depth, fanout), QueryScope(r, depth, fanout, k))
  }

  /** How many of the first `rows` rows the scope selects. */
  function SelectedRows(rows: nat, r: nat, depth: int, fanout: int, k: nat): nat {
    CountBelow(rows, InScope(r, depth, fanout, k))
  }

  lemma SelectedResidue(rows: nat, r: nat, depth: int, fanout: int, k: nat, m: nat)
    requires 1 <= k <= Levels(depth) && m == Pow(Base(fanout), k)
    ensures m >= 1 && SelectedRows(rows, r, depth, fanout, k) == CountResidue(rows, m, r % m)
  {
    PowPositive(Base(fanout), k);
    var p, q := InScope(r, depth, fanout, k), (i: nat) => i % m == r % m;
    forall i: nat | i < rows
      ensures p(i) == q(i)
    {
      ScopeSelects(i, r, depth, fanout, k);
    }
    CountSame(rows, p, q);
  }

  /** How many of the first `rows` rows are congruent to row `r`: `ceil((rows - r mod m) / m)`. */
  function ClassSize(rows: nat, r: nat, m: nat): int
    requires m >= 1
  {
    (rows - r % m + m - 1) / m
  }

  lemma ClassCount(rows: nat, r: nat, m: nat)
    requires m >= 1 && r < rows
    ensures CountResidue(rows, m, r % m) == ClassSize(rows, r, m)
  {
    CountResidueIs(rows, m, r % m);
  }

  /** The exact number of rows in the scope. */
  lemma SelectedExactly(rows: nat, r: nat, depth: int, fanout: int, k: nat, m: nat)
    requires 1 <= k <= Levels(depth) && r < rows && m == Pow(Base(fanout), k)
    ensures m >= 1 && SelectedRows(rows, r, depth, fanout, k) == ClassSize(rows, r, m)
  {
    SelectedResidue(rows, r, depth, fanout, k, m);
    ClassCount(rows, r, m);
  }

  /** The row the query was made for is one of them. */
  lemma OwnRowSelected(r: nat, depth: int, fanout: int, k: nat)
    requires 1 <= k <= Levels(depth)
    ensures PathScope.Matches(RowUri(r, depth, fanout), QueryScope(r, depth, fanout, k))
  {
    ScopeSelects(r, r, depth, fanout, k);
  }

  // ----- How deep the scope is

  /** One part in `m` is no more than the selectivity. */
  ghost predicate Within(m: nat, selectivity: real) {
    m as real * selectivity >= 1.0
  }

  /** `ceil(log(selectivity) / log(1 / fanout))` in exact arithmetic: the least `k` for which
      one part in `fanout` to the `k` is no more than the selectivity. */
  ghost predicate IsCeilLog(selectivity: real, f: nat, k: nat) {
    Within(Pow(f, k), selectivity) && (k > 0 ==> !Within(Pow(f, k - 1), selectivity))
  }

  /** `min(1.0, max(1e-9, selectivity))`. */
  function Clamp(selectivity: real): (s: real)
    ensures 0.000000001 <= s <= 1.0
    ensures 0.000000001 <= selectivity <= 1.0 ==> s == selectivity
    ensures selectivity < 0.000000001 ==> s == 0.000000001
    ensures selectivity > 1.0 ==> s == 1.0
  {
    var s := if selectivity < 0.000000001 then 0.000000001 else selectivity;
    if s > 1.0 then 1.0 else s
  }

  /** `filter_segments`, given the ceiling of the logarithm. */
  function FilterSegments(ceilLog: nat, depth: int): (k: nat)
    ensures 1 <= k <= Levels(depth)
    ensures 1 <= ceilLog <= depth ==> k == ceilLog
    ensures ceilLog > depth ==> k == Levels(depth)
  {
    Max(1, Min(depth, ceilLog))
  }

  lemma {:induction false} PowGrows(f: nat, n: nat)
    requires f >= 2
    ensures Pow(f, n) > n
  {
    if n > 0 {
      PowGrows(f, n - 1);
      var p := Pow(f, n - 1);
      MulLarge(f - 1, p);
      assert f * p == (f - 1) * p + p;
    }
  }

  lemma LargeEnough(p: nat, q: nat, s: real)
    requires p <= q && s > 0.0 && Within(p, s)
    ensures Within(q, s)
  {
    MulAtLeast(q as real, p as real, s);
  }

  /** The logarithm exists for every selectivity the clamp lets through. */
  lemma CeilLogExists(selectivity: real, f: nat) returns (k: nat)
    requires 0.0 < selectivity <= 1.0 && f >= 2
    ensures IsCeilLog(selectivity, f, k)
  {
    k := Reciprocal(selectivity);
    PowGrows(f, k);
    LargeEnough(k, Pow(f, k), selectivity);
    while k > 0 && Within(Pow(f, k - 1), selectivity)
      invariant Within(Pow(f, k), selectivity)
    {
      k := k - 1;
    }
  }

  lemma Reciprocal(s: real) returns (n: nat)
    requires 0.0 < s <= 1.0
    ensures n as real * s >= 1.0
  {
    var x := 1.0 / s;
    assert x * s == 1.0;
    n := x.Floor + 1;
    MulAtLeast(n as real, x, s);
  }

  lemma CountAtMost(rows: nat, c: nat, m: nat, s: real, n: nat)
    requires m >= 1 && c < rows && s > 0.0 && m as real * s >= 1.0
    requires n == (rows - c + m - 1) / m
    ensures n <= Ceil(rows as real * s)
  {
    DivNextBlock(rows - c - 1, m);
    assert (n - 1) * m <= rows - 1;
    var t := (n - 1) as real;
    assert t * m as real <= (rows - 1) as real by {
      assert ((n - 1) * m) as real == t * m as real;
    }
    RealBound(t, m as real, s, rows as real);
  }

  lemma RealBound(t: real, m: real, s: real, rows: real)
    requires t >= 0.0 && s > 0.0 && m * s >= 1.0 && t * m <= rows - 1.0
    ensures t < rows * s
  {
    MulNonNegative(t, m * s - 1.0);
    assert t * (m * s - 1.0) == (t * m) * s - t;
    MulAtLeast(rows - 1.0, t * m, s);
    assert (rows - 1.0) * s == rows * s - s;
  }

  /** A scope of `k` segments never selects more than the share `s`, rounded up, of any
      number of rows. */
  ghost predicate Bounded(depth: int, fanout: int, k: nat, s: real) {
    forall rows: nat, r: nat :: r < rows ==> SelectedRows(rows, r, depth, fanout, k) <= Ceil(rows as real * s)
  }

  lemma ClassAtMost(rows: nat, r: nat, m: nat, s: real)
    requires m >= 1 && r < rows && s > 0.0 && Within(m, s)
    ensures ClassSize(rows, r, m) <= Ceil(rows as real * s)
  {
    ModAtMost(r, m);
    CountAtMost(rows, r % m, m, s, ClassSize(rows, r, m));
  }

  lemma Exchange(n: real, m: real, s: real)
    requires n * (1.0 - m * s) >= 1.0
    ensures (n * m) * s <= n - 1.0
  {
    assert n * (1.0 - m * s) == n - (n * m) * s;
  }

  lemma ProductPositive(m: real, s: real)
    requires m >= 1.0 && s > 0.0
    ensures m * s > 0.0
  {
  }

  /** A whole number of periods is more than its share when the period is too short. */
  lemma Periods(m: nat, s: real) returns (n: nat)
    requires m >= 1 && s > 0.0 && m as real * s < 1.0
    ensures n >= 1 && n * m >= 1 && Ceil((n * m) as real * s) < n
  {
    ProductPositive(m as real, s);
    n := Reciprocal(1.0 - m as real * s);
    Exchange(n as real, m as real, s);
    MulLarge(n, m);
    assert (n * m) as real == n as real * m as real;
  }

  lemma ClassOfPeriods(n: nat, m: nat)
    requires m >= 1
    ensures ClassSize(n * m, 0, m) == n
  {
    DivUnique(0, m, 0, 0);
    DivUnique(n * m + m - 1, m, n, m - 1);
  }

  lemma Crowded(m: nat, s: real) returns (rows: nat)
    requires m >= 1 && s > 0.0 && !Within(m, s)
    ensures rows >= 1 && ClassSize(rows, 0, m) > Ceil(rows as real * s)
  {
    var n := Periods(m, s);
    ClassOfPeriods(n, m);
    rows := n * m;
  }

  lemma Narrow(depth: int, fanout: int, k: nat, m: nat, s: real)
    requires 1 <= k <= Levels(depth) && m == Pow(Base(fanout), k) && s > 0.0 && Within(m, s)
    ensures Bounded(depth, fanout, k, s)
  {
    forall rows: nat, r: nat | r < rows
      ensures SelectedRows(rows, r, depth, fanout, k) <= Ceil(rows as real * s)
    {
      SelectedExactly(rows, r, depth, fanout, k, m);
      ClassAtMost(rows, r, m, s);
    }
  }

  lemma TooWide(depth: int, fanout: int, k: nat, m: nat, s: real)
    requires 1 <= k <= Levels(depth) && m == Pow(Base(fanout), k) && m >= 1 && s > 0.0 && !Within(m, s)
    ensures !Bounded(depth, fanout, k, s)
  {
    var rows := Crowded(m, s);
    SelectedExactly(rows, 0, depth, fanout, k, m);
    assert SelectedRows(rows, 0, depth, fanout, k) > Ceil(rows as real * s);
  }

  /** The bound holds for every number of rows and every query exactly when the scope is no
      wider than asked. */
  lemma BoundedIff(depth: int, fanout: int, k: nat, m: nat, s: real)
    requires 1 <= k <= Levels(depth) && m == Pow(Base(fanout), k) && s > 0.0
    ensures Bounded(depth, fanout, k, s) <==> Within(m, s)
  {
    if Within(m, s) {
      Narrow(depth, fanout, k, m, s);
    } else {
      PowPositive(Base(fanout), k);
      TooWide(depth, fanout, k, m, s);
    }
  }

  lemma {:induction false} PowMonotone(f: nat, k: nat, l: nat)
    requires f >= 1 && k <= l
    ensures Pow(f, k) <= Pow(f, l)
  {
    if k < l {
      PowMonotone(f, k, l - 1);
      PowPositive(f, l - 1);
      MulLarge(f, Pow(f, l - 1));
    }
  }

  /** A power is large enough exactly from the logarithm on. */
  lemma NarrowIff(f: nat, s: real, ceilLog: nat, k: nat, m: nat)
    requires f >= 1 && 0.0 < s <= 1.0 && IsCeilLog(s, f, ceilLog) && m == Pow(f, k)
    ensures Within(m, s) <==> ceilLog <= k
  {
    if ceilLog <= k {
      PowMonotone(f, ceilLog, k);
      LargeEnough(Pow(f, ceilLog), m, s);
    } else {
      PowMonotone(f, k, ceilLog - 1);
      if Within(m, s) {
        LargeEnough(m, Pow(f, ceilLog - 1), s);
      }
    }
  }

  lemma LogIsZero(f: nat, s: real, ceilLog: nat)
    requires f >= 1 && 0.0 < s <= 1.0 && IsCeilLog(s, f, ceilLog)
    ensures ceilLog == 0 <==> s == 1.0
  {
    NarrowIff(f, s, ceilLog, 0, 1);
    assert Within(1, s) <==> s >= 1.0;
  }

  lemma WideEnough(depth: int, fanout: int, s: real, ceilLog: nat, k: nat, m: nat)
    requires 0.0 < s <= 1.0 && IsCeilLog(s, Max(2, fanout), ceilLog)
    requires k == FilterSegments(ceilLog, depth) && m == Pow(Base(fanout), k)
    ensures Within(m, s) <==> s == 1.0 || (fanout >= 2 && ceilLog <= Levels(depth))
  {
    LogIsZero(Max(2, fanout), s, ceilLog);
    if fanout >= 2 {
      NarrowIff(fanout, s, ceilLog, k, m);
    } else {
      PowOne(k);
    }
  }

  /** The workload keeps its promise exactly when it asks for everything, or the fanout is at
      least two and the paths are deep enough. */
  lemma SelectivityIff(depth: int, fanout: int, selectivity: real, ceilLog: nat)
    requires IsCeilLog(Clamp(selectivity), Max(2, fanout), ceilLog)
    ensures Bounded(depth, fanout, FilterSegments(ceilLog, depth), Clamp(selectivity))
       <==> Clamp(selectivity) == 1.0 || (fanout >= 2 && ceilLog <= Levels(depth))
  {
    var s, k := Clamp(selectivity), FilterSegments(ceilLog, depth);
    var m := Pow(Base(fanout), k);
    BoundedIff(depth, fanout, k, m, s);
    WideEnough(depth, fanout, s, ceilLog, k, m);
  }

  /** The two clamps on the fanout differ: a fanout below two is one for the paths and two
      for the depth of the scope, and then every scope selects every row. */
  lemma FanoutOneSelectsAll(rows: nat, r: nat, depth: int, fanout: int, k: nat)
    requires fanout <= 1 && 1 <= k <= Levels(depth)
    ensures SelectedRows(rows, r, depth, fanout, k) == rows
  {
    PowOne(k);
    SelectedResidue(rows, r, depth, fanout, k, 1);
    CountResidueIs(rows, 1, 0);
  }

  lemma {:induction false} PowOne(k: nat)
    ensures Pow(1, k) == 1
  {
    if k > 0 {
      PowOne(k - 1);
    }
  }
}
