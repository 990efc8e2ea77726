/**
 Aggregating independent benchmark runs (`summarize_files`): the results of all files are
 grouped by variant, and each metric is summed up by its median, its median absolute
 deviation and its range.
 */
module RunSummary {
  import opened Counting
  import opened OrderStatistics
  import opened Wrappers

  // ----- Median and median absolute deviation

  function MiddleOf(o: seq<real>): real
    requires o != []
  {
    var h := |o| / 2;
    if |o| % 2 == 1 then o[h] else (o[h - 1] + o[h]) / 2.0
  }

  /** `statistics.median`. */
  function Median(values: seq<real>): real
    requires values != []
  {
    MiddleOf(Sort(values))
  }

  function Abs(x: real): real {
    if x < 0.0 then -x else x
  }

  function Deviations(values: seq<real>, m: real): (d: seq<real>)
    ensures |d| == |values| && forall i :: 0 <= i < |d| ==> d[i] == Abs(values[i] - m)
  {
    MapSeq(values, (v: real) => Abs(v - m))
  }

  function Mad(values: seq<real>): real
    requires values != []
  {
    Median(Deviations(values, Median(values)))
  }

  datatype Summary = Empty | Summary(count: nat, median: real, mad: real, min: real, max: real)

  function IfPresent(value: Option<real>): seq<real> {
    if value.Some? then [value.value] else []
  }

  function Present(values: seq<Option<real>>): seq<real> {
    if values == [] then [] else IfPresent(values[0]) + Present(values[1..])
  }

  /** `metric_summary`. */
  function MetricSummary(values: seq<Option<real>>): Summary {
    var present := Present(values);
    if present == [] then Empty
    else
      var o := Sort(present);
      Summary(|present|, Median(present), Mad(present), o[0], o[|o| - 1])
  }

  // ----- Half of the values lie within the deviation of the median

  lemma MiddleBounds(o: seq<real>)
    requires o != [] && Sorted(o)
    ensures var h := |o| / 2;
            && MiddleOf(o) <= o[h]
            && o[(|o| - 1) / 2] <= MiddleOf(o)
  {
  }

  lemma {:induction false} CountDeviations(values: seq<real>, m: real, t: real)
    ensures Count(Deviations(values, m), (d: real) => d <= t) == Count(values, (v: real) => Abs(v - m) <= t)
  {
    if values != [] {
      CountDeviations(values[1..], m, t);
      assert Deviations(values, m)[1..] == Deviations(values[1..], m);
    }
  }

  lemma MedianCovers(values: seq<real>)
    requires values != []
    ensures 2 * Count(values, (v: real) => v <= Median(values)) >= |values|
  {
    var o, m := Sort(values), Median(values);
    var p := (v: real) => v <= m;
    SortSorts(values);
    CountPermutation(values, o, p);
    MiddleBounds(o);
    CountStretch(o, p, 0, (|o| - 1) / 2 + 1);
  }

  /** At least half of the values are no farther from the median than the deviation says. */
  lemma HalfWithinMad(values: seq<real>)
    requires values != []
    ensures 2 * Count(values, (v: real) => Abs(v - Median(values)) <= Mad(values)) >= |values|
  {
    var m := Median(values);
    MedianCovers(Deviations(values, m));
    CountDeviations(values, m, Mad(values));
  }

  // ----- The deviation is at most half the range

  lemma CountAbove(o: seq<real>, h: nat, t: real)
    requires Sorted(o) && h < |o| && o[h] > t
    ensures Count(o, (x: real) => x <= t) <= h
  {
    var p := (x: real) => x <= t;
    assert o == o[..h] + o[h..];
    CountAppend(o[..h], o[h..], p);
    CountZero(o[h..], p);
  }

  lemma CountSmallest(d: seq<real>, t: real)
    requires d != [] && Count(d, (x: real) => x <= t) > |d| / 2
    ensures Sort(d)[|d| / 2] <= t
  {
    SortSorts(d);
    CountPermutation(d, Sort(d), (x: real) => x <= t);
    if Sort(d)[|d| / 2] > t {
      CountAbove(Sort(d), |d| / 2, t);
    }
  }

  /** More than half of a sorted sample is as close to the middle as the nearer end is. */
  lemma NearMiddle(o: seq<real>)
    requires o != [] && Sorted(o)
    ensures var m, n := MiddleOf(o), |o|;
            && (forall i :: (n - 1) / 2 <= i < n ==> Abs(o[i] - m) <= o[n - 1] - m)
            && (forall i :: 0 <= i <= n / 2 ==> Abs(o[i] - m) <= m - o[0])
  {
    var m, n, h := MiddleOf(o), |o|, |o| / 2;
    MiddleBounds(o);
    assert o[0] <= o[h] <= o[n - 1];
    if n % 2 == 0 {
      assert o[h] - m == m - o[h - 1];
      assert o[0] <= o[h - 1];
    }
  }

  lemma CountClose(o: seq<real>, m: real, r: real)
    requires o != [] && (o[|o| - 1] - m <= r || m - o[0] <= r)
    requires forall i :: (|o| - 1) / 2 <= i < |o| ==> Abs(o[i] - m) <= o[|o| - 1] - m
    requires forall i :: 0 <= i <= |o| / 2 ==> Abs(o[i] - m) <= m - o[0]
    ensures Count(o, (v: real) => Abs(v - m) <= r) > |o| / 2
  {
    var p := (v: real) => Abs(v - m) <= r;
    if o[|o| - 1] - m <= r {
      CountStretch(o, p, (|o| - 1) / 2, |o|);
    } else {
      CountStretch(o, p, 0, |o| / 2 + 1);
    }
  }

  lemma CloseSorted(o: seq<real>, m: real, r: real)
    requires o != [] && Sorted(o) && m == MiddleOf(o) && r == (o[|o| - 1] - o[0]) / 2.0
    ensures Count(o, (v: real) => Abs(v - m) <= r) > |o| / 2
  {
    NearMiddle(o);
    CountClose(o, m, r);
  }

  lemma CloseValues(values: seq<real>, m: real, r: real)
    requires values != [] && m == Median(values)
    requires r == (Sort(values)[|values| - 1] - Sort(values)[0]) / 2.0
    ensures Count(values, (v: real) => Abs(v - m) <= r) > |values| / 2
  {
    SortSorts(values);
    CloseSorted(Sort(values), m, r);
    CountPermutation(values, Sort(values), (v: real) => Abs(v - m) <= r);
  }

  /** The deviation is never negative and at most half the range. */
  lemma MadRange(values: seq<real>)
    requires values != []
    ensures var o := Sort(values); 0.0 <= Mad(values) <= (o[|o| - 1] - o[0]) / 2.0
  {
    var m := Median(values);
    LeastDeviation(Deviations(values, m));
    MadAtMost(values, m, (Sort(values)[|values| - 1] - Sort(values)[0]) / 2.0);
  }

  lemma MadAtMost(values: seq<real>, m: real, r: real)
    requires values != [] && m == Median(values)
    requires r == (Sort(values)[|values| - 1] - Sort(values)[0]) / 2.0
    ensures Median(Deviations(values, m)) <= r
  {
    CloseValues(values, m, r);
    CountDeviations(values, m, r);
    MedianAtMost(Deviations(values, m), r);
  }

  lemma MedianAtMost(d: seq<real>, t: real)
    requires d != [] && Count(d, (x: real) => x <= t) > |d| / 2
    ensures Median(d) <= t
  {
    CountSmallest(d, t);
    SortSorts(d);
    MiddleBounds(Sort(d));
  }

  lemma LeastDeviation(d: seq<real>)
    requires d != [] && forall i :: 0 <= i < |d| ==> d[i] >= 0.0
    ensures MiddleOf(Sort(d)) >= 0.0
  {
    var o := Sort(d);
    SortSorts(d);
    MiddleBounds(o);
    var k := (|o| - 1) / 2;
    assert o[k] in multiset(d);
  }

  // ----- The order of the values does not matter

  lemma {:induction false} PresentPermutation(s: seq<Option<real>>, t: seq<Option<real>>)
    requires multiset(s) == multiset(t)
    ensures multiset(Present(s)) == multiset(Present(t))
  {
    if s == [] {
      EmptyPermutation(t);
    } else {
      var u, v := Pick(s, t);
      PresentPermutation(s[1..], u + v);
      PresentSplit(u, s[0], v);
    }
  }

  lemma PresentSplit(u: seq<Option<real>>, x: Option<real>, v: seq<Option<real>>)
    ensures multiset(Present(u + ([x] + v))) == multiset(IfPresent(x)) + multiset(Present(u + v))
  {
    PresentAppend(u, [x] + v);
    PresentAppend(u, v);
    assert ([x] + v)[1..] == v;
    Shuffle(Present(u), IfPresent(x), Present(v));
  }

  lemma {:induction false} PresentAppend(s: seq<Option<real>>, t: seq<Option<real>>)
    ensures Present(s + t) == Present(s) + Present(t)
  {
    if s == [] {
      assert s + t == t;
    } else {
      assert (s + t)[1..] == s[1..] + t;
      PresentAppend(s[1..], t);
    }
  }

  /** A metric summary is a function of the multiset of its values. */
  lemma SummaryOrder(s: seq<Option<real>>, t: seq<Option<real>>)
    requires multiset(s) == multiset(t)
    ensures MetricSummary(s) == MetricSummary(t)
  {
    PresentPermutation(s, t);
    var a, b := Present(s), Present(t);
    assert |multiset(a)| == |a| && |multiset(b)| == |b|;
    if a != [] {
      SortPermutation(a, b);
      MapPermutation(a, b, (v: real) => Abs(v - Median(a)));
      SortPermutation(Deviations(a, Median(a)), Deviations(b, Median(a)));
    }
  }

  // ----- What a summary says

  lemma {:induction false} PresentCounts(values: seq<Option<real>>, x: real)
    ensures multiset(Present(values))[x] == multiset(values)[Some(x)]
  {
    if values != [] {
      PresentCounts(values[1..], x);
      assert values == [values[0]] + values[1..];
      assert multiset(values)[Some(x)] == multiset{values[0]}[Some(x)] + multiset(values[1..])[Some(x)];
      assert multiset(Present(values))[x] == multiset(IfPresent(values[0]))[x] + multiset(Present(values[1..]))[x];
    }
  }

  lemma PresentHas(values: seq<Option<real>>, x: real)
    ensures x in Present(values) <==> Some(x) in values
  {
    PresentCounts(values, x);
    assert x in Present(values) <==> x in multiset(Present(values));
    assert Some(x) in values <==> Some(x) in multiset(values);
  }

  lemma {:induction false} PresentSize(values: seq<Option<real>>)
    ensures |Present(values)| == Count(values, (v: Option<real>) => v.Some?)
  {
    if values != [] {
      PresentSize(values[1..]);
    }
  }

  /** `o` lists the values that are present, in increasing order. */
  ghost predicate Lists(o: seq<real>, values: seq<Option<real>>) {
    Sorted(o) && forall x: real :: multiset(o)[x] == multiset(values)[Some(x)]
  }

  lemma SortLists(values: seq<Option<real>>)
    ensures Lists(Sort(Present(values)), values)
  {
    SortSorts(Present(values));
    forall x: real
      ensures multiset(Sort(Present(values)))[x] == multiset(values)[Some(x)]
    {
      PresentCounts(values, x);
    }
  }

  /** How far a value lies from `m`. */
  function Distance(v: Option<real>, m: real): Option<real> {
    match v
    case None => None
    case Some(x) => Some(if x < m then m - x else x - m)
  }

  function Distances(values: seq<Option<real>>, m: real): seq<Option<real>> {
    MapSeq(values, (v: Option<real>) => Distance(v, m))
  }

  /** `m` is the middle of the values that are present: the middle one, or the mean of the
      two middle ones. */
  ghost predicate IsMiddle(m: real, values: seq<Option<real>>) {
    exists o ::
      && Lists(o, values) && o != []
      && (|o| % 2 == 1 ==> m == o[|o| / 2])
      && (|o| % 2 == 0 ==> m == (o[|o| / 2 - 1] + o[|o| / 2]) / 2.0)
  }

  ghost predicate IsLeast(x: real, values: seq<Option<real>>) {
    Some(x) in values && forall y :: Some(y) in values ==> x <= y
  }

  ghost predicate IsGreatest(x: real, values: seq<Option<real>>) {
    Some(x) in values && forall y :: Some(y) in values ==> y <= x
  }

  /** The fields of a summary, each by what it is. */
  ghost predicate Summarizes(s: Summary, values: seq<Option<real>>) {
    if s.Empty? then forall i :: 0 <= i < |values| ==> values[i].None?
    else
      && s.count == Count(values, (v: Option<real>) => v.Some?) && s.count >= 1
      && IsLeast(s.min, values) && IsGreatest(s.max, values)
      && IsMiddle(s.median, values)
      && IsMiddle(s.mad, Distances(values, s.median))
  }

  lemma MedianIsMiddle(values: seq<Option<real>>)
    requires Present(values) != []
    ensures IsMiddle(Median(Present(values)), values)
  {
    SortLists(values);
    assert Lists(Sort(Present(values)), values);
  }

  lemma FirstDeviation(v: real, rest: seq<real>, m: real)
    ensures Deviations([v] + rest, m) == [Abs(v - m)] + Deviations(rest, m)
  {
    assert ([v] + rest)[1..] == rest;
  }

  lemma {:induction false} PresentDistances(values: seq<Option<real>>, m: real)
    ensures Present(Distances(values, m)) == Deviations(Present(values), m)
  {
    if values != [] {
      PresentDistances(values[1..], m);
      assert Distances(values, m)[1..] == Distances(values[1..], m);
      if values[0].Some? {
        FirstDeviation(values[0].value, Present(values[1..]), m);
      }
    }
  }

  lemma ExtremesAre(values: seq<Option<real>>)
    requires Present(values) != []
    ensures var o := Sort(Present(values)); IsLeast(o[0], values) && IsGreatest(o[|o| - 1], values)
  {
    var p, o := Present(values), Sort(Present(values));
    SortSorts(p);
    assert o[0] in multiset(p) && o[|o| - 1] in multiset(p);
    PresentHas(values, o[0]);
    PresentHas(values, o[|o| - 1]);
    forall y | Some(y) in values
      ensures o[0] <= y <= o[|o| - 1]
    {
      PresentHas(values, y);
      SortBounds(p, y);
    }
  }

  lemma NonePresent(values: seq<Option<real>>)
    requires Present(values) == []
    ensures forall i :: 0 <= i < |values| ==> values[i].None?
  {
    forall i | 0 <= i < |values|
      ensures values[i].None?
    {
      if values[i].Some? {
        PresentHas(values, values[i].value);
      }
    }
  }

  /** A metric summary says of the values what its fields are called. */
  lemma SummaryIs(values: seq<Option<real>>)
    ensures Summarizes(MetricSummary(values), values)
  {
    var p := Present(values);
    if p == [] {
      NonePresent(values);
    } else {
      PresentSize(values);
      ExtremesAre(values);
      MedianIsMiddle(values);
      PresentDistances(values, Median(p));
      MedianIsMiddle(Distances(values, Median(p)));
    }
  }

  lemma {:induction false} CountPresent(values: seq<Option<real>>, p: real -> bool)
    ensures Count(values, (v: Option<real>) => v.Some? && p(v.value)) == Count(Present(values), p)
  {
    if values != [] {
      CountPresent(values[1..], p);
      if values[0].Some? {
        assert Present(values)[1..] == Present(values[1..]);
      } else {
        assert Present(values) == Present(values[1..]);
      }
    }
  }

  lemma SidesOfSorted(o: seq<real>, m: real)
    requires o != [] && Sorted(o) && o[(|o| - 1) / 2] <= m <= o[|o| / 2]
    ensures 2 * Count(o, (x: real) => x < m) <= |o| && 2 * Count(o, (x: real) => x > m) <= |o|
  {
    var h, g := |o| / 2, (|o| - 1) / 2 + 1;
    assert forall i :: h <= i < |o| ==> m <= o[h] <= o[i];
    assert forall i :: 0 <= i < g ==> o[i] <= o[g - 1] <= m;
    CountFrom(o, (x: real) => x < m, h);
    CountUpTo(o, (x: real) => x > m, g);
  }

  lemma SidesOf(p: seq<real>, m: real)
    requires p != [] && m == Median(p)
    ensures 2 * Count(p, (x: real) => x < m) <= |p| && 2 * Count(p, (x: real) => x > m) <= |p|
  {
    var o := Sort(p);
    SortSorts(p);
    MiddleBounds(o);
    CountPermutation(p, o, (x: real) => x < m);
    CountPermutation(p, o, (x: real) => x > m);
    SidesOfSorted(o, m);
  }

  /** On each side of the median lies at most half of the values that are present. */
  lemma HalfOnEachSide(values: seq<Option<real>>)
    requires MetricSummary(values).Summary?
    ensures var s := MetricSummary(values);
            && 2 * Count(values, (v: Option<real>) => v.Some? && v.value < s.median) <= s.count
            && 2 * Count(values, (v: Option<real>) => v.Some? && v.value > s.median) <= s.count
  {
    var p, m := Present(values), MetricSummary(values).median;
    SidesOf(p, m);
    var below, above := (x: real) => x < m, (x: real) => x > m;
    CountPresent(values, below);
    CountPresent(values, above);
    SameCount(values, (v: Option<real>) => v.Some? && below(v.value), (v: Option<real>) => v.Some? && v.value < m);
    SameCount(values, (v: Option<real>) => v.Some? && above(v.value), (v: Option<real>) => v.Some? && v.value > m);
  }

  lemma {:induction false} SameCount(values: seq<Option<real>>, p: Option<real> -> bool, q: Option<real> -> bool)
    requires forall v :: p(v) == q(v)
    ensures Count(values, p) == Count(values, q)
  {
    if values != [] {
      SameCount(values[1..], p, q);
    }
  }

  lemma CountFrom(o: seq<real>, p: real -> bool, h: nat)
    requires h <= |o| && forall i :: h <= i < |o| ==> !p(o[i])
    ensures Count(o, p) <= h
  {
    assert o == o[..h] + o[h..];
    CountAppend(o[..h], o[h..], p);
    CountZero(o[h..], p);
  }

  lemma CountUpTo(o: seq<real>, p: real -> bool, h: nat)
    requires h <= |o| && forall i :: 0 <= i < h ==> !p(o[i])
    ensures Count(o, p) <= |o| - h
  {
    assert o == o[..h] + o[h..];
    CountAppend(o[..h], o[h..], p);
    CountZero(o[..h], p);
  }

  // ----- Grouping the results of several files

  /** A variant: the backend and the canonical form of its search parameters. */
  type Variant = (string, string)

  /** One result: its backend if it names one, its search parameters, its numeric metrics. */
  datatype Result = Result(backend: string, params: string, metrics: map<string, real>)

  /** A result file; `runtime` holds the canonical form of each runtime field it names. */
  datatype Document = Document(
    path: string, dataset: string, parameters: string, results: seq<Result>, timestamp: Option<string>,
    runtime: map<string, string>)

  function VariantOf(r: Result): Variant {
    (r.backend, r.params)
  }

  function Metric(r: Result, name: string): Option<real> {
    if name in r.metrics then Some(r.metrics[name]) else None
  }

  type Groups = map<Variant, seq<Result>>

  function GroupOf(groups: Groups, key: Variant): seq<Result> {
    if key in groups then groups[key] else []
  }

  /** Every result names its backend, and no variant occurs twice. */
  predicate ResultsOk(results: seq<Result>) {
    && (forall i :: 0 <= i < |results| ==> results[i].backend != "")
    && (forall i, j :: 0 <= i < j < |results| ==> VariantOf(results[i]) != VariantOf(results[j]))
  }

  function Variants(results: seq<Result>): (s: set<Variant>)
    ensures forall key :: key in s <==> exists i :: 0 <= i < |results| && VariantOf(results[i]) == key
  {
    set i | 0 <= i < |results| :: VariantOf(results[i])
  }

  /** The result of a variant; the last one, should there be several. */
  function ResultFor(results: seq<Result>, key: Variant): Result
    requires key in Variants(results)
  {
    var n := |results| - 1;
    if VariantOf(results[n]) == key then results[n] else ResultFor(results[..n], key)
  }

  lemma {:induction false} ResultForIs(results: seq<Result>, i: nat)
    requires ResultsOk(results) && i < |results|
    ensures ResultFor(results, VariantOf(results[i])) == results[i]
  {
    var n := |results| - 1;
    if i < n {
      assert results[..n][i] == results[i];
      ResultForIs(results[..n], i);
    }
  }

  lemma {:induction false} ResultForFound(results: seq<Result>, key: Variant) returns (k: nat)
    requires key in Variants(results)
    ensures k < |results| && results[k] == ResultFor(results, key) && VariantOf(results[k]) == key
  {
    var n := |results| - 1;
    if VariantOf(results[n]) == key {
      k := n;
    } else {
      k := ResultForFound(results[..n], key);
    }
  }

  /** `r` is the result of a variant among `results`: it is there, and if no variant occurs
      twice it is the only one. */
  ghost predicate IsResultFor(results: seq<Result>, key: Variant, r: Result) {
    && (exists k :: 0 <= k < |results| && results[k] == r && VariantOf(results[k]) == key)
    && (ResultsOk(results) ==> forall k :: 0 <= k < |results| && VariantOf(results[k]) == key ==> results[k] == r)
  }

  lemma ResultForIsResult(results: seq<Result>, key: Variant)
    requires key in Variants(results)
    ensures IsResultFor(results, key, ResultFor(results, key))
  {
    var found := ResultForFound(results, key);
    if ResultsOk(results) {
      forall k | 0 <= k < |results| && VariantOf(results[k]) == key
        ensures results[k] == ResultFor(results, key)
      {
        ResultForIs(results, k);
      }
    }
  }

  /** What the results add to the group of a variant. */
  function Addition(results: seq<Result>, key: Variant): seq<Result> {
    if key in Variants(results) then [ResultFor(results, key)] else []
  }

  ghost predicate Grown(groups: Groups, grown: Groups, results: seq<Result>) {
    && grown.Keys == groups.Keys + Variants(results)
    && forall key :: GroupOf(grown, key) == GroupOf(groups, key) + Addition(results, key)
  }

  /** The inner loop: one document, its results appended to their groups. */
  method GroupDocument(doc: Document, groups: Groups) returns (variants: Option<set<Variant>>, grown: Groups)
    ensures variants.Some? <==> ResultsOk(doc.results)
    ensures variants.Some? ==> variants.value == Variants(doc.results) && Grown(groups, grown, doc.results)
  {
    grown := groups;
    var current: set<Variant> := {};
    for n := 0 to |doc.results|
      invariant ResultsOk(doc.results[..n]) && current == Variants(doc.results[..n])
      invariant Grown(groups, grown, doc.results[..n])
    {
      var result := doc.results[n];
      var key := VariantOf(result);
      if result.backend == "" || key in current {
        NotOk(doc.results, n);
        return None, grown;
      }
      assert doc.results[..n + 1] == doc.results[..n] + [result];
      VariantsMore(doc.results[..n], result);
      OkMore(doc.results[..n], result);
      GrownMore(groups, grown, doc.results[..n], result);
      current := current + {key};
      grown := grown[key := GroupOf(grown, key) + [result]];
    }
    assert doc.results[..|doc.results|] == doc.results;
    variants := Some(current);
  }

  lemma OkMore(results: seq<Result>, r: Result)
    requires ResultsOk(results) && r.backend != "" && VariantOf(r) !in Variants(results)
    ensures ResultsOk(results + [r])
  {
  }

  lemma AdditionMore(results: seq<Result>, r: Result, key: Variant)
    requires VariantOf(r) !in Variants(results)
    ensures Addition(results + [r], key) == if key == VariantOf(r) then [r] else Addition(results, key)
  {
    VariantsMore(results, r);
    assert (results + [r])[..|results|] == results;
  }

  lemma GrownMore(groups: Groups, grown: Groups, results: seq<Result>, r: Result)
    requires Grown(groups, grown, results) && VariantOf(r) !in Variants(results)
    ensures Grown(groups, grown[VariantOf(r) := GroupOf(grown, VariantOf(r)) + [r]], results + [r])
  {
    VariantsMore(results, r);
    forall key
      ensures GroupOf(grown[VariantOf(r) := GroupOf(grown, VariantOf(r)) + [r]], key)
           == GroupOf(groups, key) + Addition(results + [r], key)
    {
      AdditionMore(results, r, key);
      GroupMore(GroupOf(groups, key), GroupOf(grown, key), Addition(results, key), grown, r, key);
    }
  }

  lemma GroupMore(before: seq<Result>, now: seq<Result>, addition: seq<Result>, grown: Groups, r: Result, key: Variant)
    requires now == GroupOf(grown, key) && now == before + addition
    requires key == VariantOf(r) ==> addition == []
    ensures GroupOf(grown[VariantOf(r) := GroupOf(grown, VariantOf(r)) + [r]], key)
         == before + if key == VariantOf(r) then [r] else addition
  {
  }

  lemma NotOk(results: seq<Result>, n: nat)
    requires n < |results|
    requires results[n].backend == "" || VariantOf(results[n]) in Variants(results[..n])
    ensures !ResultsOk(results)
  {
    if results[n].backend != "" {
      var i :| 0 <= i < n && VariantOf(results[..n][i]) == VariantOf(results[n]);
      assert results[i] == results[..n][i];
    }
  }

  lemma VariantsMore(results: seq<Result>, r: Result)
    ensures Variants(results + [r]) == Variants(results) + {VariantOf(r)}
  {
    var more := results + [r];
    assert more[|results|] == r;
    assert forall i :: 0 <= i < |results| ==> more[i] == results[i];
  }

  // ----- All the files

  /** Two documents describe runs of the same benchmark. */
  ghost predicate Agree(d: Document, e: Document) {
    d.dataset == e.dataset && d.parameters == e.parameters && Variants(d.results) == Variants(e.results)
  }

  ghost predicate Usable(d: Document) {
    ResultsOk(d.results) && d.timestamp.Some? && d.timestamp.value != ""
  }

  function Paths(docs: seq<Document>): seq<string> {
    MapSeq(docs, (d: Document) => d.path)
  }

  function Timestamps(docs: seq<Document>): seq<Option<string>> {
    MapSeq(docs, (d: Document) => d.timestamp)
  }

  /** What `summarize_files` asks for: at least two files, no file and no timestamp twice,
      all usable and of the same benchmark with the same variants. */
  ghost predicate Consistent(docs: seq<Document>) {
    && |docs| >= 2
    && Distinct(Paths(docs)) && Distinct(Timestamps(docs))
    && (forall d :: d in docs ==> Usable(d))
    && (forall d, e :: d in docs && e in docs ==> Agree(d, e))
  }

  /** The group of a variant over the first documents: one result of each. */
  ghost predicate OnePerFile(groups: Groups, docs: seq<Document>, variants: set<Variant>) {
    && groups.Keys == (if docs == [] then {} else variants)
    && forall key :: GroupOf(groups, key) == Column(docs, key)
  }

  function Column(docs: seq<Document>, key: Variant): seq<Result> {
    if docs == [] then []
    else Column(docs[..|docs| - 1], key) + Addition(docs[|docs| - 1].results, key)
  }

  /** The condition that the loop has checked on the first documents. */
  ghost predicate Checked(docs: seq<Document>, first: Document) {
    && Distinct(Timestamps(docs))
    && forall i :: 0 <= i < |docs| ==> Usable(docs[i]) && Agree(docs[i], first)
  }

  /** The outer loop of `summarize_files`: it succeeds exactly on consistent files, and then
      each variant has one result of each file, in the order of the files. */
  method SummarizeFiles(docs: seq<Document>) returns (r: Option<Groups>)
    ensures r.Some? <==> Consistent(docs)
    ensures r.Some? ==> OnePerFile(r.value, docs, Variants(docs[0].results))
  {
    if |docs| < 2 {
      return None;
    }
    var unique := DistinctStrings(Paths(docs));
    if !unique {
      return None;
    }
    var first := docs[0];
    var groups: Groups := map[];
    var timestamps: set<Option<string>> := {};
    for n := 0 to |docs|
      invariant Checked(docs[..n], first)
      invariant timestamps == StampSet(docs[..n])
      invariant OnePerFile(groups, docs[..n], Variants(first.results))
    {
      var doc := docs[n];
      ghost var before := docs[..n];
      assert docs[..n + 1] == before + [doc];
      var ok, grown := TryDocument(doc, first, timestamps, groups);
      if !ok {
        NotConsistent(docs, n);
        return None;
      }
      StampsMore(before, doc);
      CheckedMore(before, doc, first);
      OnePerFileMore(groups, grown, before, doc, first);
      timestamps := timestamps + {doc.timestamp};
      groups := grown;
    }
    assert docs[..|docs|] == docs;
    CheckedIsConsistent(docs);
    r := Some(groups);
  }

  /** The body of the outer loop. */
  method TryDocument(doc: Document, first: Document, timestamps: set<Option<string>>, groups: Groups)
    returns (ok: bool, grown: Groups)
    ensures ok <==> Usable(doc) && Agree(doc, first) && doc.timestamp !in timestamps
    ensures ok ==> Grown(groups, grown, doc.results)
  {
    grown := groups;
    if doc.dataset != first.dataset {
      return false, grown;
    }
    if doc.parameters != first.parameters {
      return false, grown;
    }
    var variants;
    variants, grown := GroupDocument(doc, groups);
    if variants.None? || variants.value != Variants(first.results) {
      return false, grown;
    }
    if doc.timestamp.None? || doc.timestamp.value == "" {
      return false, grown;
    }
    ok := doc.timestamp !in timestamps;
  }

  method DistinctStrings(s: seq<string>) returns (r: bool)
    ensures r <==> Distinct(s)
  {
    var seen: set<string> := {};
    for i := 0 to |s|
      invariant Distinct(s[..i]) && seen == set j | 0 <= j < i :: s[j]
    {
      if s[i] in seen {
        return false;
      }
      seen := seen + {s[i]};
    }
    assert s[..|s|] == s;
    return true;
  }

  function StampSet(docs: seq<Document>): (s: set<Option<string>>)
    ensures forall t :: t in s <==> exists i :: 0 <= i < |docs| && docs[i].timestamp == t
  {
    set i | 0 <= i < |docs| :: docs[i].timestamp
  }

  lemma StampsMore(docs: seq<Document>, doc: Document)
    ensures StampSet(docs + [doc]) == StampSet(docs) + {doc.timestamp}
  {
    var more := docs + [doc];
    assert more[|docs|] == doc;
    assert forall i :: 0 <= i < |docs| ==> more[i] == docs[i];
  }

  lemma CheckedMore(docs: seq<Document>, doc: Document, first: Document)
    requires Checked(docs, first) && Usable(doc) && Agree(doc, first) && doc.timestamp !in StampSet(docs)
    ensures Checked(docs + [doc], first)
  {
    assert Timestamps(docs + [doc]) == Timestamps(docs) + [doc.timestamp];
  }

  lemma OnePerFileMore(groups: Groups, grown: Groups, docs: seq<Document>, doc: Document, first: Document)
    requires OnePerFile(groups, docs, Variants(first.results)) && Grown(groups, grown, doc.results)
    requires Agree(doc, first)
    ensures OnePerFile(grown, docs + [doc], Variants(first.results))
  {
    forall key
      ensures GroupOf(grown, key) == Column(docs + [doc], key)
    {
      assert (docs + [doc])[..|docs|] == docs;
      assert GroupOf(groups, key) == Column(docs, key);
      assert GroupOf(grown, key) == GroupOf(groups, key) + Addition(doc.results, key);
    }
  }

  lemma NotConsistent(docs: seq<Document>, n: nat)
    requires n < |docs|
    requires !Usable(docs[n]) || !Agree(docs[n], docs[0]) || docs[n].timestamp in StampSet(docs[..n])
    ensures !Consistent(docs)
  {
    if Usable(docs[n]) && Agree(docs[n], docs[0]) {
      var i :| 0 <= i < n && docs[..n][i].timestamp == docs[n].timestamp;
      assert Timestamps(docs)[i] == Timestamps(docs)[n];
    } else {
      assert docs[n] in docs && docs[0] in docs;
    }
  }

  lemma CheckedIsConsistent(docs: seq<Document>)
    requires |docs| >= 2 && Distinct(Paths(docs)) && Checked(docs, docs[0])
    ensures Consistent(docs)
  {
  }

  // ----- One entry per file, and no dependence on the order of the files

  /** Each variant group has exactly one entry per file: the result of that file with that
      variant. */
  lemma {:induction false} ColumnIsOnePerFile(docs: seq<Document>, key: Variant, i: nat)
    requires forall j :: 0 <= j < |docs| ==> key in Variants(docs[j].results)
    requires i < |docs|
    ensures |Column(docs, key)| == |docs| && IsResultFor(docs[i].results, key, Column(docs, key)[i])
  {
    var n := |docs| - 1;
    var before, last := Column(docs[..n], key), Addition(docs[n].results, key);
    if n == 0 {
      assert before == [];
    } else {
      ColumnIsOnePerFile(docs[..n], key, if i < n then i else 0);
    }
    ResultForIsResult(docs[n].results, key);
    OneAppended(before, last, n, i);
  }

  lemma OneAppended(before: seq<Result>, last: seq<Result>, n: nat, i: nat)
    requires |before| == n && |last| == 1 && i <= n
    ensures |before + last| == n + 1 && (before + last)[i] == if i < n then before[i] else last[0]
  {
  }

  /** The summary of one metric of one variant. */
  function Aggregate(docs: seq<Document>, key: Variant, name: string): Summary {
    MetricSummary(MapSeq(Column(docs, key), (r: Result) => Metric(r, name)))
  }

  lemma {:induction false} ColumnPermutation(s: seq<Document>, t: seq<Document>, key: Variant)
    requires multiset(s) == multiset(t)
    ensures multiset(Column(s, key)) == multiset(Column(t, key))
  {
    if s == [] {
      EmptyPermutation(t);
    } else {
      var u, v := Pick(s, t);
      ColumnPermutation(s[1..], u + v, key);
      assert s == [s[0]] + s[1..];
      ColumnAppend([s[0]], s[1..], key);
      ColumnAppend(u, [s[0]] + v, key);
      ColumnAppend([s[0]], v, key);
      ColumnAppend(u, v, key);
      Shuffle(Column(u, key), Column([s[0]], key), Column(v, key));
    }
  }

  lemma {:induction false} ColumnAppend(s: seq<Document>, t: seq<Document>, key: Variant)
    ensures Column(s + t, key) == Column(s, key) + Column(t, key)
  {
    if t == [] {
      assert s + t == s;
    } else {
      var n := |t| - 1;
      assert (s + t)[..|s + t| - 1] == s + t[..n];
      ColumnAppend(s, t[..n], key);
    }
  }

  lemma ConsistentOrder(docs: seq<Document>, others: seq<Document>)
    requires multiset(docs) == multiset(others) && Consistent(docs)
    ensures Consistent(others)
  {
    assert |multiset(docs)| == |docs| && |multiset(others)| == |others|;
    assert forall d :: d in others ==> d in multiset(docs);
    MapPermutation(docs, others, (d: Document) => d.path);
    MapPermutation(docs, others, (d: Document) => d.timestamp);
    DistinctPermutation(Paths(docs), Paths(others));
    DistinctPermutation(Timestamps(docs), Timestamps(others));
  }

  lemma SameVariants(docs: seq<Document>, others: seq<Document>)
    requires multiset(docs) == multiset(others) && Consistent(docs) && others != []
    ensures Variants(docs[0].results) == Variants(others[0].results)
  {
    assert others[0] in multiset(docs);
    assert docs[0] in docs && others[0] in docs;
    assert Agree(docs[0], others[0]);
  }

  lemma AggregateOrder(docs: seq<Document>, others: seq<Document>, key: Variant, name: string)
    requires multiset(docs) == multiset(others)
    ensures Aggregate(docs, key, name) == Aggregate(others, key, name)
  {
    ColumnPermutation(docs, others, key);
    var f := (r: Result) => Metric(r, name);
    MapPermutation(Column(docs, key), Column(others, key), f);
    SummaryOrder(MapSeq(Column(docs, key), f), MapSeq(Column(others, key), f));
  }
}
