/**
 The filters of the collection benchmark: buckets and paths computed from the row number,
 and exactly how many rows each filter selects.
 */
module FilterBuckets {
  import opened Arith
  import opened Numerals
  import opened Wrappers
  import PathScope

  datatype Field = UniformBucket | ClusterBucket

  datatype Filter =
    | Everything
    | LessThan(field: Field, bound: nat)
    | Equals(field: Field, value: nat)
    | Under(prefix: seq<string>)

  datatype Distribution = NoDistribution | Uniform | Clustered | ByPath

  datatype Scenario = Scenario(name: string, filter: Filter, distribution: Distribution, selectivity: real)

  // ----- The code

  /** `scalar_fields`. */
  function ScalarFields(row: nat, count: nat): (nat, nat)
    requires count >= 1
  {
    (row % 1000, Min(999, row * 1000 / count))
  }

  /** The segments of the `uri` of `make_record`. */
  function UriSegments(row: nat): seq<string> {
    ["docs", "g" + Decimal(row % 10), "h" + Decimal((row / 10) % 10), "i" + Decimal((row / 100) % 10),
     "item-" + Decimal(row)]
  }

  /** What a filter says about a record; a path filter of unlimited depth is a scope. */
  predicate Selects(filter: Filter, row: nat, count: nat)
    requires count >= 1
  {
    match filter
    case Everything => true
    case LessThan(UniformBucket, bound) => ScalarFields(row, count).0 < bound
    case LessThan(ClusterBucket, bound) => ScalarFields(row, count).1 < bound
    case Equals(UniformBucket, value) => ScalarFields(row, count).0 == value
    case Equals(ClusterBucket, value) => ScalarFields(row, count).1 == value
    case Under(prefix) => PathScope.Matches(PathScope.Render(UriSegments(row)), PathScope.Render(prefix))
  }

  function Selected(filter: Filter, count: nat): nat
    requires count >= 1
  {
    CountBelow(count, (row: nat) => Selects(filter, row, count))
  }

  // ----- Counting

  lemma BlockStep(x: nat, m: nat, u: nat)
    requires m >= 1 && u <= m
    ensures ((x + 1) / m) * u + Min((x + 1) % m, u) == (x / m) * u + Min(x % m, u) + if x % m < u then 1 else 0
  {
    DivNext(x, m);
    assert (x / m + 1) * u == (x / m) * u + u;
  }

  lemma {:induction false} CountLess(n: nat, m: nat, u: nat)
    requires m >= 1 && u <= m
    ensures CountBelow(n, (i: nat) => i % m < u) == (n / m) * u + Min(n % m, u)
  {
    if n == 0 {
      DivUnique(0, m, 0, 0);
    } else {
      CountLess(n - 1, m, u);
      BlockStep(n - 1, m, u);
    }
  }

  lemma {:induction false} CountInitial(n: nat, t: nat)
    ensures CountBelow(n, (i: nat) => i < t) == Min(n, t)
  {
    if n > 0 {
      CountInitial(n - 1, t);
    }
  }

  lemma {:induction false} CountAll(n: nat, p: nat -> bool)
    requires forall i: nat :: i < n ==> p(i)
    ensures CountBelow(n, p) == n
  {
    if n > 0 {
      CountAll(n - 1, p);
    }
  }

  // ----- Uniform buckets

  /** Every block of a thousand rows gives `u` rows, and the last part gives what it has. */
  lemma UniformSelected(u: nat, count: nat)
    requires count >= 1 && u <= 1000
    ensures Selected(LessThan(UniformBucket, u), count) == (count / 1000) * u + Min(count % 1000, u)
  {
    CountLess(count, 1000, u);
    CountSame(count, (row: nat) => Selects(LessThan(UniformBucket, u), row, count), (i: nat) => i % 1000 < u);
  }

  // ----- Clustered buckets

  lemma ClusterIff(row: nat, count: nat, u: nat)
    requires count >= 1 && row < count && u <= 1000
    ensures row * 1000 / count <= 999
    ensures row * 1000 / count < u <==> row < (count * u + 999) / 1000
  {
    var q, r := row * 1000 / count, row * 1000 % count;
    assert row * 1000 == q * count + r;
    MulBelow(q, 1000, count, r);
    MulBelow(q, u, count, r);
    assert count * u == u * count && 1000 * count == count * 1000;
  }

  lemma MulBelow(q: nat, u: nat, m: nat, r: nat)
    requires r < m
    ensures q < u <==> q * m + r < u * m
  {
    if q < u {
      MulLess(q, u, m, r);
    } else {
      assert (q - u) * m >= 0;
      assert (q - u) * m == q * m - u * m;
    }
  }

  /** `ceil(count * u / 1000)`. */
  function Share(count: nat, u: nat): (t: nat)
    requires u <= 1000
    ensures t <= count
  {
    ShareBound(count, u);
    (count * u + 999) / 1000
  }

  lemma ShareBound(count: nat, u: nat)
    requires u <= 1000
    ensures (count * u + 999) / 1000 <= count
  {
    assert count * (1000 - u) >= 0;
    assert count * (1000 - u) == count * 1000 - count * u;
  }

  lemma ClusterSelects(u: nat, row: nat, count: nat)
    requires row < count && u <= 1000
    ensures Selects(LessThan(ClusterBucket, u), row, count) <==> row < Share(count, u)
  {
    ClusterIff(row, count, u);
  }

  /** The clustered filter selects the first `ceil(count * u / 1000)` rows. */
  lemma ClusteredSelected(u: nat, count: nat)
    requires count >= 1 && u <= 1000
    ensures Selected(LessThan(ClusterBucket, u), count) == Share(count, u)
  {
    var t := Share(count, u);
    var p := (row: nat) => Selects(LessThan(ClusterBucket, u), row, count);
    forall row: nat | row < count
      ensures p(row) == (row < t)
    {
      ClusterSelects(u, row, count);
    }
    CountInitial(count, t);
    CountSame(count, p, (i: nat) => i < t);
  }

  // ----- Paths

  lemma LetterClean(letter: char, d: nat)
    requires letter == 'g' || letter == 'h' || letter == 'i'
    ensures PathScope.IsSegment([letter] + Decimal(d)) && !PathScope.EndsInSpace([letter] + Decimal(d))
    ensures [letter] + Decimal(d) == [letter, '0'] <==> d == 0
  {
    var s, t := [letter] + Decimal(d), Decimal(d);
    assert s[|s| - 1] == t[|t| - 1];
    assert Decimal(0) == "0";
    if s == [letter, '0'] {
      assert Decimal(d) == s[1..] == "0";
      DecimalInjective(d, 0);
    }
  }

  lemma UriClean(row: nat)
    ensures PathScope.Clean(UriSegments(row))
  {
    LetterClean('g', row % 10);
    LetterClean('h', (row / 10) % 10);
    LetterClean('i', (row / 100) % 10);
    ItemClean(row);
  }

  lemma ItemClean(row: nat)
    ensures var s := "item-" + Decimal(row); PathScope.IsSegment(s) && !PathScope.EndsInSpace(s)
  {
    var s, t := "item-" + Decimal(row), Decimal(row);
    assert s[|s| - 1] == t[|t| - 1];
  }

  /** The scope of the first `k` zero digits, and the rows it stands for. */
  function ZeroScope(k: nat): seq<string>
    requires 1 <= k <= 3
  {
    ["docs", "g0", "h0", "i0"][..k + 1]
  }

  function Every(k: nat): nat {
    if k == 1 then 10 else if k == 2 then 100 else 1000
  }

  lemma ZeroDigits(row: nat)
    ensures row % 100 == 0 <==> row % 10 == 0 && (row / 10) % 10 == 0
    ensures row % 1000 == 0 <==> row % 10 == 0 && (row / 10) % 10 == 0 && (row / 100) % 10 == 0
  {
    DivDiv(row, 10, 10);
    DivDiv(row, 100, 10);
  }

  lemma ZeroPrefix(u: seq<string>, k: nat)
    requires |u| == 5 && u[0] == "docs" && 1 <= k <= 3
    ensures ZeroScope(k) <= u <==> u[1] == "g0" && (k >= 2 ==> u[2] == "h0") && (k >= 3 ==> u[3] == "i0")
  {
    var z := ZeroScope(k);
    assert z <= u <==> forall i :: 0 <= i <= k ==> z[i] == u[i];
  }

  lemma UriPrefix(row: nat, k: nat)
    requires 1 <= k <= 3
    ensures ZeroScope(k) <= UriSegments(row) <==> row % Every(k) == 0
  {
    LetterClean('g', row % 10);
    LetterClean('h', (row / 10) % 10);
    LetterClean('i', (row / 100) % 10);
    ZeroDigits(row);
    ZeroPrefix(UriSegments(row), k);
  }

  lemma UnderIff(row: nat, k: nat)
    requires 1 <= k <= 3
    ensures PathScope.Matches(PathScope.Render(UriSegments(row)), PathScope.Render(ZeroScope(k))) <==> row % Every(k) == 0
  {
    UriClean(row);
    assert PathScope.Clean(ZeroScope(k));
    PathScope.CleanMatchesIff(UriSegments(row), ZeroScope(k));
    UriPrefix(row, k);
  }

  /** A path filter selects one row in ten, in a hundred or in a thousand, starting with row 0. */
  lemma UnderSelected(k: nat, count: nat)
    requires 1 <= k <= 3 && count >= 1
    ensures Selected(Under(ZeroScope(k)), count) == (count + Every(k) - 1) / Every(k)
  {
    var p := (row: nat) => Selects(Under(ZeroScope(k)), row, count);
    forall row: nat | row < count
      ensures p(row) == (row % Every(k) == 0)
    {
      UnderIff(row, k);
    }
    CountSame(count, p, (i: nat) => i % Every(k) == 0);
    CountResidueIs(count, Every(k), 0);
  }

  // ----- The scenarios

  const LABELS: seq<(string, nat, real)> := [("10pct", 100, 0.1), ("1pct", 10, 0.01), ("0_1pct", 1, 0.001)]

  function BucketScenario(distribution: Distribution, field: Field, i: nat): Scenario
    requires i < 3
  {
    var (name, bound, selectivity) := LABELS[i];
    var prefix := if distribution.Uniform? then "uniform_" else "clustered_";
    Scenario(prefix + name, LessThan(field, bound), distribution, selectivity)
  }

  function PathScenario(i: nat): Scenario
    requires i < 3
  {
    Scenario("path_" + LABELS[i].0, Under(ZeroScope(i + 1)), ByPath, LABELS[i].2)
  }

  const SCENARIOS: seq<Scenario> := [
    Scenario("unfiltered", Everything, NoDistribution, 1.0),
    Scenario("uniform_10pct", LessThan(UniformBucket, 100), Uniform, 0.1),
    Scenario("uniform_1pct", LessThan(UniformBucket, 10), Uniform, 0.01),
    Scenario("uniform_0_1pct", LessThan(UniformBucket, 1), Uniform, 0.001),
    Scenario("clustered_10pct", LessThan(ClusterBucket, 100), Clustered, 0.1),
    Scenario("clustered_1pct", LessThan(ClusterBucket, 10), Clustered, 0.01),
    Scenario("clustered_0_1pct", LessThan(ClusterBucket, 1), Clustered, 0.001),
    Scenario("path_10pct", Under(["docs", "g0"]), ByPath, 0.1),
    Scenario("path_1pct", Under(["docs", "g0", "h0"]), ByPath, 0.01),
    Scenario("path_0_1pct", Under(["docs", "g0", "h0", "i0"]), ByPath, 0.001)]

  lemma BucketScenarios(i: nat)
    requires i < 3
    ensures BucketScenario(Uniform, UniformBucket, i) == SCENARIOS[1 + i]
    ensures BucketScenario(Clustered, ClusterBucket, i) == SCENARIOS[4 + i]
  {
  }

  lemma PathScenarios(i: nat)
    requires i < 3
    ensures PathScenario(i) == SCENARIOS[7 + i]
  {
    var all := ["docs", "g0", "h0", "i0"];
    assert all[..2] == ["docs", "g0"] && all[..3] == ["docs", "g0", "h0"] && all[..4] == all;
  }

  /** On any number of whole thousands of rows the filter selects exactly the share that the
      scenario names. */
  ghost predicate Exact(s: Scenario) {
    forall count: nat :: count >= 1 && count % 1000 == 0 ==> SelectsShare(s.filter, count, s.selectivity)
  }

  ghost predicate SelectsShare(filter: Filter, count: nat, share: real)
    requires count >= 1
  {
    Selected(filter, count) as real == count as real * share
  }

  lemma UniformScenarioExact(i: nat)
    requires i < 3
    ensures Exact(BucketScenario(Uniform, UniformBucket, i))
  {
    forall count: nat | count >= 1 && count % 1000 == 0
      ensures SelectsShare(LessThan(UniformBucket, LABELS[i].1), count, LABELS[i].2)
    {
      UniformExact(i, count);
    }
  }

  lemma ClusteredScenarioExact(i: nat)
    requires i < 3
    ensures Exact(BucketScenario(Clustered, ClusterBucket, i))
  {
    forall count: nat | count >= 1 && count % 1000 == 0
      ensures SelectsShare(LessThan(ClusterBucket, LABELS[i].1), count, LABELS[i].2)
    {
      ClusteredExact(i, count);
    }
  }

  lemma PathScenarioExact(i: nat)
    requires i < 3
    ensures Exact(PathScenario(i))
  {
    forall count: nat | count >= 1 && count % 1000 == 0
      ensures SelectsShare(PathScenario(i).filter, count, LABELS[i].2)
    {
      PathExact(i, count);
    }
  }

  lemma UnfilteredExact()
    ensures Exact(SCENARIOS[0])
  {
    forall count: nat | count >= 1
      ensures SelectsShare(Everything, count, 1.0)
    {
      UnfilteredSelected(count);
    }
  }

  lemma AllExact()
    ensures forall i :: 0 <= i < 10 ==> Exact(SCENARIOS[i])
  {
    forall i | 0 <= i < 10
      ensures Exact(SCENARIOS[i])
    {
      if i == 0 {
        UnfilteredExact();
      } else if i < 4 {
        BucketScenarios(i - 1);
        UniformScenarioExact(i - 1);
      } else if i < 7 {
        BucketScenarios(i - 4);
        ClusteredScenarioExact(i - 4);
      } else {
        PathScenarios(i - 7);
        PathScenarioExact(i - 7);
      }
    }
  }

  /** `filter_scenarios`: the ten scenarios by name, filter and share, each of them exact. */
  method FilterScenarios() returns (scenarios: seq<Scenario>)
    ensures scenarios == SCENARIOS
    ensures forall i :: 0 <= i < 10 ==> Exact(scenarios[i])
  {
    scenarios := [Scenario("unfiltered", Everything, NoDistribution, 1.0)];
    var kinds := [(Uniform, UniformBucket), (Clustered, ClusterBucket)];
    for d := 0 to 2
      invariant |scenarios| == 1 + 3 * d && scenarios == SCENARIOS[..|scenarios|]
    {
      for i := 0 to 3
        invariant |scenarios| == 1 + 3 * d + i && scenarios == SCENARIOS[..|scenarios|]
      {
        BucketScenarios(i);
        scenarios := scenarios + [BucketScenario(kinds[d].0, kinds[d].1, i)];
      }
    }
    for i := 0 to 3
      invariant |scenarios| == 7 + i && scenarios == SCENARIOS[..|scenarios|]
    {
      PathScenarios(i);
      scenarios := scenarios + [PathScenario(i)];
    }
    AllExact();
  }

  /** Without a filter every row is selected. */
  lemma UnfilteredSelected(count: nat)
    requires count >= 1
    ensures Selected(Everything, count) == count
  {
    CountAll(count, (row: nat) => Selects(Everything, row, count));
  }

  lemma UniformExact(i: nat, count: nat)
    requires i < 3 && count >= 1 && count % 1000 == 0
    ensures SelectsShare(LessThan(UniformBucket, LABELS[i].1), count, LABELS[i].2)
  {
    UniformSelected(LABELS[i].1, count);
    Thousands(count, i);
  }

  lemma ClusteredExact(i: nat, count: nat)
    requires i < 3 && count >= 1 && count % 1000 == 0
    ensures SelectsShare(LessThan(ClusterBucket, LABELS[i].1), count, LABELS[i].2)
  {
    ClusteredSelected(LABELS[i].1, count);
    Thousands(count, i);
  }

  lemma PathExact(i: nat, count: nat)
    requires i < 3 && count >= 1 && count % 1000 == 0
    ensures SelectsShare(PathScenario(i).filter, count, LABELS[i].2)
  {
    UnderSelected(i + 1, count);
    Thousands(count, i);
  }

  lemma Thousands(count: nat, i: nat)
    requires count % 1000 == 0 && i < 3
    ensures var u := LABELS[i].1;
            && (count / 1000) * u + Min(0, u) == Share(count, u) == (count + Every(i + 1) - 1) / Every(i + 1)
            && Share(count, u) as real == count as real * LABELS[i].2
  {
    var q := count / 1000;
    assert count == 1000 * q;
    ThousandsShare(q, 100);
    ThousandsShare(q, 10);
    ThousandsShare(q, 1);
    DivUnique(count + 9, 10, 100 * q, 9);
    DivUnique(count + 99, 100, 10 * q, 99);
    DivUnique(count + 999, 1000, q, 999);
  }

  lemma ThousandsShare(q: nat, u: nat)
    requires u <= 1000
    ensures Share(1000 * q, u) == q * u
  {
    assert 1000 * q * u == (q * u) * 1000;
    DivUnique(1000 * q * u + 999, 1000, q * u, 999);
  }

  /** `prebuild_selective_scenario`: the eligible count is exactly the number of rows in
      bucket 0, for every number of rows. */
  method PrebuildSelective(count: nat, nativeThreshold: int) returns (r: Option<Scenario>)
    requires count >= 1
    ensures r.None? <==> nativeThreshold <= 0 || Selected(Equals(UniformBucket, 0), count) > nativeThreshold
    ensures r.Some? ==> Selected(r.value.filter, count) <= nativeThreshold
    ensures r.Some? ==> r.value.selectivity * count as real == Selected(r.value.filter, count) as real
    ensures r.Some? ==> r.value.filter == Equals(UniformBucket, 0) && r.value.distribution == Uniform
                        && r.value.name == "prebuild_selective_0_1pct"
  {
    var eligible := (count + 999) / 1000;
    BucketZero(count);
    if nativeThreshold <= 0 || eligible > nativeThreshold {
      return None;
    }
    var share := Ratio(eligible, count);
    r := Some(Scenario("prebuild_selective_0_1pct", Equals(UniformBucket, 0), Uniform, share));
  }

  function Ratio(part: nat, count: nat): (r: real)
    requires count >= 1
    ensures r * count as real == part as real
  {
    part as real / count as real
  }

  lemma BucketZero(count: nat)
    requires count >= 1
    ensures Selected(Equals(UniformBucket, 0), count) == (count + 999) / 1000
  {
    CountSame(count, (row: nat) => Selects(Equals(UniformBucket, 0), row, count), (i: nat) => i % 1000 == 0);
    CountResidueIs(count, 1000, 0);
  }
}
