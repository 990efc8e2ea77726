/**
 The document that `summarize_files` returns: a row for each variant, in the order of
 `variant_sort_key`, with a summary of each metric, and for each runtime field the sorted
 list of the values that the files have. None of it depends on the order of the files.
 */
module RunReport {
  import opened Counting
  import opened RunSummary
  import opened SortedSets
  import opened Wrappers

  const BACKENDS := ["native", "cuvs_brute_force", "cuvs_brute_force_fp16", "cuvs_cagra", "cuvs_cagra_fp16"]

  const METRICS := [
    "build_seconds", "first_search_per_query_ms", "warm_p50_ms", "warm_p95_ms", "warm_p99_ms",
    "qps", "recall_at_k", "rss_delta_bytes", "gpu_used_delta_bytes"]

  const RUNTIME_FIELDS := ["git_revision", "git_dirty", "gpu_name", "cpu_model", "cuvs", "cupy"]

  // ----- The order of the variants

  /** The `itopk_size` and the `search_width` that encoded search parameters ask for. */
  type Sizes = string -> (int, int)

  datatype SortKey = SortKey(rank: nat, backend: string, itopk: int, width: int, params: string)

  /** `BACKEND_ORDER.get(backend, len(BACKEND_ORDER))`. */
  function Rank(backend: string, from: nat): nat
    decreases |BACKENDS| - from
  {
    if from >= |BACKENDS| || BACKENDS[from] == backend then from else Rank(backend, from + 1)
  }

  /** `variant_sort_key`. */
  function KeyOf(sizes: Sizes, v: Variant): SortKey {
    SortKey(Rank(v.0, 0), v.0, sizes(v.1).0, sizes(v.1).1, v.1)
  }

  /** The order of tuples. */
  predicate KeyLess(a: SortKey, b: SortKey) {
    if a.rank != b.rank then a.rank < b.rank
    else if a.backend != b.backend then StringLess(a.backend, b.backend)
    else if a.itopk != b.itopk then a.itopk < b.itopk
    else if a.width != b.width then a.width < b.width
    else StringLess(a.params, b.params)
  }

  function VariantOrder(sizes: Sizes): (Variant, Variant) -> bool {
    (v, w) => KeyLess(KeyOf(sizes, v), KeyOf(sizes, w))
  }

  lemma KeysOrdered(a: SortKey, b: SortKey, c: SortKey)
    ensures !KeyLess(a, a)
    ensures KeyLess(a, b) && KeyLess(b, c) ==> KeyLess(a, c)
    ensures KeyLess(a, b) || a == b || KeyLess(b, a)
  {
    StringIrreflexive(a.params);
    StringIrreflexive(a.backend);
    StringTotal(a.params, b.params);
    StringTotal(a.backend, b.backend);
    if StringLess(a.params, b.params) && StringLess(b.params, c.params) {
      StringTransitive(a.params, b.params, c.params);
    }
    if StringLess(a.backend, b.backend) && StringLess(b.backend, c.backend) {
      StringTransitive(a.backend, b.backend, c.backend);
    }
  }

  lemma VariantsOrdered(sizes: Sizes)
    ensures TotalOrder(VariantOrder(sizes))
  {
    var less := VariantOrder(sizes);
    forall u: Variant, v: Variant, w: Variant
      ensures !less(u, u)
      ensures less(u, v) && less(v, w) ==> less(u, w)
      ensures less(u, v) || u == v || less(v, u)
    {
      KeysOrdered(KeyOf(sizes, u), KeyOf(sizes, v), KeyOf(sizes, w));
    }
  }

  // ----- The report

  datatype Row = Row(variant: Variant, metrics: seq<Summary>)

  datatype Report = Report(
    runCount: nat, dataset: string, parameters: string, runtime: seq<seq<string>>, results: seq<Row>)

  function RowOf(key: Variant, results: seq<Result>): Row {
    Row(key, MapSeq(METRICS, (name: string) => MetricSummary(MapSeq(results, (r: Result) => Metric(r, name)))))
  }

  /** The variants of a document in the order of its results. */
  function VariantList(doc: Document): seq<Variant> {
    MapSeq(doc.results, (r: Result) => VariantOf(r))
  }

  function SortedVariants(doc: Document, sizes: Sizes): seq<Variant> {
    SortedSet(VariantList(doc), VariantOrder(sizes))
  }

  /** `canonical(run.get(field))`. */
  function RuntimeValue(doc: Document, field: string): string {
    if field in doc.runtime then doc.runtime[field] else "null"
  }

  function RuntimeValues(docs: seq<Document>, field: string): seq<string> {
    SortedSet(MapSeq(docs, (d: Document) => RuntimeValue(d, field)), STRING_ORDER)
  }

  function RowsOf(docs: seq<Document>, keys: seq<Variant>): seq<Row> {
    MapSeq(keys, (key: Variant) => RowOf(key, Column(docs, key)))
  }

  function ReportOf(docs: seq<Document>, sizes: Sizes): Report
    requires docs != []
  {
    Report(
      |docs|, docs[0].dataset, docs[0].parameters,
      MapSeq(RUNTIME_FIELDS, (field: string) => RuntimeValues(docs, field)),
      RowsOf(docs, SortedVariants(docs[0], sizes)))
  }

  lemma VariantListIs(doc: Document, key: Variant)
    ensures key in VariantList(doc) <==> key in Variants(doc.results)
  {
    if key in Variants(doc.results) {
      var i :| 0 <= i < |doc.results| && VariantOf(doc.results[i]) == key;
      assert VariantList(doc)[i] == key;
    }
    if key in VariantList(doc) {
      var i :| 0 <= i < |VariantList(doc)| && VariantList(doc)[i] == key;
      assert VariantOf(doc.results[i]) == key;
    }
  }

  lemma SortedVariantsAre(doc: Document, sizes: Sizes, key: Variant)
    ensures key in SortedVariants(doc, sizes) <==> key in Variants(doc.results)
  {
    SortedSetHas(VariantList(doc), VariantOrder(sizes), key);
    VariantListIs(doc, key);
  }

  /** The rows: one for each variant of the files, in strictly increasing order. */
  lemma RowsInOrder(docs: seq<Document>, sizes: Sizes, key: Variant)
    requires docs != []
    ensures var keys := MapSeq(ReportOf(docs, sizes).results, (row: Row) => row.variant);
            Increasing(keys, VariantOrder(sizes)) && (key in keys <==> key in Variants(docs[0].results))
  {
    var keys := SortedVariants(docs[0], sizes);
    VariantsOrdered(sizes);
    SortedSetIncreases(VariantList(docs[0]), VariantOrder(sizes));
    SortedVariantsAre(docs[0], sizes, key);
    assert MapSeq(ReportOf(docs, sizes).results, (row: Row) => row.variant) == keys;
  }

  lemma GroupsAre(groups: Groups, docs: seq<Document>, sizes: Sizes, key: Variant)
    requires docs != [] && OnePerFile(groups, docs, Variants(docs[0].results)) && key in SortedVariants(docs[0], sizes)
    ensures key in groups && groups[key] == Column(docs, key)
  {
    SortedVariantsAre(docs[0], sizes, key);
    assert GroupOf(groups, key) == Column(docs, key);
  }

  /** The loop over the sorted groups. */
  method BuildRows(groups: Groups, keys: seq<Variant>, ghost docs: seq<Document>) returns (rows: seq<Row>)
    requires forall key :: key in keys ==> key in groups && groups[key] == Column(docs, key)
    ensures rows == RowsOf(docs, keys)
  {
    rows := [];
    for n := 0 to |keys|
      invariant |rows| == n && forall i :: 0 <= i < n ==> rows[i] == RowOf(keys[i], Column(docs, keys[i]))
    {
      assert keys[n] in keys;
      rows := rows + [RowOf(keys[n], groups[keys[n]])];
    }
  }

  // ----- What the report says

  /** `v` is what a result of the document with that variant has for a metric. */
  ghost predicate IsMetricOf(v: Option<real>, doc: Document, key: Variant, name: string) {
    exists k ::
      && 0 <= k < |doc.results| && doc.results[k].backend == key.0 && doc.results[k].params == key.1
      && v == if name in doc.results[k].metrics then Some(doc.results[k].metrics[name]) else None
  }

  /** The values of a metric of a variant, file by file. */
  ghost predicate AreMetrics(values: seq<Option<real>>, docs: seq<Document>, key: Variant, name: string) {
    |values| == |docs| && forall f :: 0 <= f < |docs| ==> IsMetricOf(values[f], docs[f], key, name)
  }

  /** Each entry of the row summarizes one metric of the variant over all the files. */
  ghost predicate RowIs(row: Row, docs: seq<Document>) {
    && |row.metrics| == |METRICS|
    && forall i :: 0 <= i < |METRICS| ==> EntryIs(row.metrics[i], docs, row.variant, METRICS[i])
  }

  ghost predicate EntryIs(s: Summary, docs: seq<Document>, key: Variant, name: string) {
    exists values :: AreMetrics(values, docs, key, name) && Summarizes(s, values)
  }

  /** The values of a runtime field, each once and in increasing order. */
  ghost predicate FieldIs(list: seq<string>, docs: seq<Document>, field: string) {
    && Increasing(list, STRING_ORDER)
    && forall v :: v in list <==> exists i :: 0 <= i < |docs| && v == (if field in docs[i].runtime then docs[i].runtime[field] else "null")
  }

  lemma RowMetrics(docs: seq<Document>, key: Variant, name: string)
    requires forall j :: 0 <= j < |docs| ==> key in Variants(docs[j].results)
    ensures AreMetrics(MapSeq(Column(docs, key), (r: Result) => Metric(r, name)), docs, key, name)
  {
    var values := MapSeq(Column(docs, key), (r: Result) => Metric(r, name));
    if docs != [] {
      ColumnIsOnePerFile(docs, key, 0);
    }
    forall f | 0 <= f < |docs|
      ensures IsMetricOf(values[f], docs[f], key, name)
    {
      ColumnIsOnePerFile(docs, key, f);
      var k :| 0 <= k < |docs[f].results| && docs[f].results[k] == Column(docs, key)[f] && VariantOf(docs[f].results[k]) == key;
    }
  }

  lemma RowOfIs(docs: seq<Document>, key: Variant)
    requires forall j :: 0 <= j < |docs| ==> key in Variants(docs[j].results)
    ensures RowIs(RowOf(key, Column(docs, key)), docs)
  {
    var row := RowOf(key, Column(docs, key));
    assert |row.metrics| == |METRICS| && row.variant == key;
    forall i | 0 <= i < |METRICS|
      ensures EntryIs(row.metrics[i], docs, key, METRICS[i])
    {
      EntryOf(docs, key, METRICS[i]);
      assert row.metrics[i] == Aggregate(docs, key, METRICS[i]);
    }
  }

  lemma EntryOf(docs: seq<Document>, key: Variant, name: string)
    requires forall j :: 0 <= j < |docs| ==> key in Variants(docs[j].results)
    ensures EntryIs(Aggregate(docs, key, name), docs, key, name)
  {
    RowMetrics(docs, key, name);
    SummaryIs(MapSeq(Column(docs, key), (r: Result) => Metric(r, name)));
  }

  lemma RuntimeIs(docs: seq<Document>, field: string)
    ensures FieldIs(RuntimeValues(docs, field), docs, field)
  {
    var all := MapSeq(docs, (d: Document) => RuntimeValue(d, field));
    StringsOrdered();
    SortedSetIncreases(all, STRING_ORDER);
    forall v
      ensures v in RuntimeValues(docs, field) <==> exists i :: 0 <= i < |docs| && v == RuntimeValue(docs[i], field)
    {
      SortedSetHas(all, STRING_ORDER, v);
      if v in all {
        var i :| 0 <= i < |all| && all[i] == v;
      }
      if i :| 0 <= i < |docs| && v == RuntimeValue(docs[i], field) {
        assert all[i] == v;
      }
    }
  }

  /** The report of consistent files, part by part. */
  ghost predicate ReportIs(report: Report, docs: seq<Document>, sizes: Sizes) {
    var keys := MapSeq(report.results, (row: Row) => row.variant);
    && report.runCount == |docs|
    && (forall d :: d in docs ==> report.dataset == d.dataset && report.parameters == d.parameters)
    && |report.runtime| == |RUNTIME_FIELDS|
    && (forall i :: 0 <= i < |RUNTIME_FIELDS| ==> FieldIs(report.runtime[i], docs, RUNTIME_FIELDS[i]))
    && Increasing(keys, VariantOrder(sizes))
    && (forall d, key :: d in docs ==> (key in keys <==> key in Variants(d.results)))
    && (forall j :: 0 <= j < |report.results| ==> RowIs(report.results[j], docs))
  }

  lemma KeysAre(docs: seq<Document>, sizes: Sizes, d: Document, key: Variant)
    requires Consistent(docs) && d in docs
    ensures key in SortedVariants(docs[0], sizes) <==> key in Variants(d.results)
  {
    SortedVariantsAre(docs[0], sizes, key);
    assert docs[0] in docs && Agree(docs[0], d);
  }

  lemma ReportOfIs(docs: seq<Document>, sizes: Sizes)
    requires Consistent(docs)
    ensures ReportIs(ReportOf(docs, sizes), docs, sizes)
  {
    var report, keys := ReportOf(docs, sizes), SortedVariants(docs[0], sizes);
    assert MapSeq(report.results, (row: Row) => row.variant) == keys;
    RowsInOrder(docs, sizes, ("", ""));
    forall d, key | d in docs
      ensures key in keys <==> key in Variants(d.results)
    {
      KeysAre(docs, sizes, d, key);
    }
    forall i | 0 <= i < |RUNTIME_FIELDS|
      ensures FieldIs(report.runtime[i], docs, RUNTIME_FIELDS[i])
    {
      RuntimeIs(docs, RUNTIME_FIELDS[i]);
    }
    forall d | d in docs
      ensures report.dataset == d.dataset && report.parameters == d.parameters
    {
      assert docs[0] in docs && Agree(docs[0], d);
    }
    forall j | 0 <= j < |keys|
      ensures RowIs(report.results[j], docs)
    {
      RowAt(docs, sizes, j);
    }
  }

  lemma RowAt(docs: seq<Document>, sizes: Sizes, j: nat)
    requires Consistent(docs) && j < |SortedVariants(docs[0], sizes)|
    ensures RowIs(ReportOf(docs, sizes).results[j], docs)
  {
    var key := SortedVariants(docs[0], sizes)[j];
    forall f | 0 <= f < |docs|
      ensures key in Variants(docs[f].results)
    {
      KeysAre(docs, sizes, docs[f], key);
    }
    RowOfIs(docs, key);
  }

  /** What the order of the rows comes to: the listed backends first and in the order of the
      list, the others by name; within a backend by the sizes and then by the parameters. */
  lemma OrderIs(sizes: Sizes, v: Variant, w: Variant)
    requires VariantOrder(sizes)(v, w)
    ensures forall i, j :: 0 <= i < |BACKENDS| && 0 <= j < |BACKENDS| && BACKENDS[i] == v.0 && BACKENDS[j] == w.0 ==> i <= j
    ensures w.0 in BACKENDS ==> v.0 in BACKENDS
    ensures v.0 !in BACKENDS ==> v.0 == w.0 || StringLess(v.0, w.0)
    ensures v.0 == w.0 ==>
      var ((a, b), (c, d)) := (sizes(v.1), sizes(w.1));
      a < c || (a == c && (b < d || (b == d && StringLess(v.1, w.1))))
  {
    RankIs(v.0, 0);
    RankIs(w.0, 0);
  }

  lemma {:induction false} RankIs(backend: string, from: nat)
    requires from <= |BACKENDS|
    ensures from <= Rank(backend, from) <= |BACKENDS|
    ensures Rank(backend, from) < |BACKENDS| ==> BACKENDS[Rank(backend, from)] == backend
    ensures forall i :: from <= i < Rank(backend, from) ==> BACKENDS[i] != backend
    decreases |BACKENDS| - from
  {
    if from < |BACKENDS| && BACKENDS[from] != backend {
      RankIs(backend, from + 1);
    }
  }

  /** `summarize_files`: a report exactly for consistent files. */
  method Summarize(docs: seq<Document>, sizes: Sizes) returns (r: Option<Report>)
    ensures r.Some? <==> Consistent(docs)
    ensures r.Some? ==> r.value == ReportOf(docs, sizes) && ReportIs(r.value, docs, sizes)
  {
    var grouped := SummarizeFiles(docs);
    if grouped.None? {
      return None;
    }
    var keys := SortedVariants(docs[0], sizes);
    forall key | key in keys
      ensures key in grouped.value && grouped.value[key] == Column(docs, key)
    {
      GroupsAre(grouped.value, docs, sizes, key);
    }
    var rows := BuildRows(grouped.value, keys, docs);
    var runtime := MapSeq(RUNTIME_FIELDS, (field: string) => RuntimeValues(docs, field));
    r := Some(Report(|docs|, docs[0].dataset, docs[0].parameters, runtime, rows));
    ReportOfIs(docs, sizes);
  }

  // ----- The order of the files does not matter

  lemma SameMembers<T>(s: seq<T>, t: seq<T>)
    requires multiset(s) == multiset(t)
    ensures forall x :: x in s <==> x in t
  {
    forall x
      ensures x in s <==> x in t
    {
      assert x in multiset(s) <==> x in multiset(t);
    }
  }

  lemma RuntimeOrder(docs: seq<Document>, others: seq<Document>, field: string)
    requires multiset(docs) == multiset(others)
    ensures RuntimeValues(docs, field) == RuntimeValues(others, field)
  {
    var f := (d: Document) => RuntimeValue(d, field);
    MapPermutation(docs, others, f);
    SameMembers(MapSeq(docs, f), MapSeq(others, f));
    StringsOrdered();
    SameSet(MapSeq(docs, f), MapSeq(others, f), STRING_ORDER);
  }

  lemma SortedVariantsSame(d: Document, e: Document, sizes: Sizes)
    requires Variants(d.results) == Variants(e.results)
    ensures SortedVariants(d, sizes) == SortedVariants(e, sizes)
  {
    VariantsOrdered(sizes);
    forall key
      ensures key in VariantList(d) <==> key in VariantList(e)
    {
      VariantListIs(d, key);
      VariantListIs(e, key);
    }
    SameSet(VariantList(d), VariantList(e), VariantOrder(sizes));
  }

  lemma RowOrder(docs: seq<Document>, others: seq<Document>, key: Variant)
    requires multiset(docs) == multiset(others)
    ensures RowOf(key, Column(docs, key)) == RowOf(key, Column(others, key))
  {
    forall i | 0 <= i < |METRICS|
      ensures RowOf(key, Column(docs, key)).metrics[i] == RowOf(key, Column(others, key)).metrics[i]
    {
      AggregateOrder(docs, others, key, METRICS[i]);
    }
  }

  /** Files in another order are accepted alike and give the same report. */
  lemma SummaryIgnoresOrder(docs: seq<Document>, others: seq<Document>, sizes: Sizes)
    requires multiset(docs) == multiset(others) && Consistent(docs)
    ensures Consistent(others) && ReportOf(docs, sizes) == ReportOf(others, sizes)
  {
    ConsistentOrder(docs, others);
    SameVariants(docs, others);
    SortedVariantsSame(docs[0], others[0], sizes);
    FirstAgree(docs, others);
    var keys := SortedVariants(docs[0], sizes);
    forall i | 0 <= i < |keys|
      ensures RowsOf(docs, keys)[i] == RowsOf(others, keys)[i]
    {
      RowOrder(docs, others, keys[i]);
    }
    forall i | 0 <= i < |RUNTIME_FIELDS|
      ensures RuntimeValues(docs, RUNTIME_FIELDS[i]) == RuntimeValues(others, RUNTIME_FIELDS[i])
    {
      RuntimeOrder(docs, others, RUNTIME_FIELDS[i]);
    }
    assert ReportOf(docs, sizes).runtime == ReportOf(others, sizes).runtime;
  }

  lemma FirstAgree(docs: seq<Document>, others: seq<Document>)
    requires multiset(docs) == multiset(others) && Consistent(docs) && others != []
    ensures |docs| == |others| && docs[0].dataset == others[0].dataset && docs[0].parameters == others[0].parameters
  {
    assert |multiset(docs)| == |docs| && |multiset(others)| == |others|;
    assert others[0] in multiset(docs);
    assert docs[0] in docs && others[0] in docs;
    assert Agree(docs[0], others[0]);
  }
}
