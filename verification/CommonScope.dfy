/**
 The lowest common ancestor of a list of paths, and the query scope that the Wiki workload
 derives from the best-scored ground-truth items.
 */
module CommonScope {
  import opened PyText
  import opened PathScope
  import opened Arith
  import opened Wrappers

  // ----- The parts of a path

  lemma {:induction false} NonEmptyAll(parts: seq<string>)
    requires forall i :: 0 <= i < |parts| ==> parts[i] != ""
    ensures NonEmpty(parts) == parts
  {
    if parts != [] {
      NonEmptyAll(parts[1..]);
      assert [parts[0]] + parts[1..] == parts;
    }
  }

  lemma StripRender(segs: seq<string>)
    requires segs != [] && Segments(segs)
    ensures Strip(Render(segs), SLASH) == Join(segs, '/')
  {
    RenderBody(segs);
    BodyEnd(segs);
    var s, j := Render(segs), Join(segs, '/');
    assert s[1..] == j;
    assert j[0] != '/' by {
      assert j[0] == segs[0][0] && segs[0][0] in segs[0];
    }
    LStripKeeps(j, SLASH);
    assert j[|j| - 1] == s[|s| - 1];
    RStripKeeps(j, SLASH);
  }

  /** Splitting undoes joining. */
  lemma SplitRender(segs: seq<string>)
    requires Segments(segs)
    ensures NonEmpty(Split(Strip(Render(segs), SLASH), '/')) == segs
  {
    if segs == [] {
      assert Render(segs) == "/";
      assert "/"[1..] == "";
      assert NonEmpty([""]) == [];
    } else {
      StripRender(segs);
      SplitJoin(segs, '/');
      NonEmptyAll(segs);
    }
  }

  lemma PathPartsRender(segs: seq<string>)
    requires Segments(segs)
    ensures PathParts(Render(segs)) == Trimmed(segs)
  {
    NormalRender(segs);
    TrimmedSegments(segs);
    SplitRender(Trimmed(segs));
  }

  // ----- The common prefix

  /** The first index at which two lists differ or one of them ends. */
  function Agree(a: seq<string>, b: seq<string>): (n: nat)
    ensures n <= |a| && n <= |b| && a[..n] == b[..n]
    ensures n < |a| && n < |b| ==> a[n] != b[n]
  {
    if a == [] || b == [] || a[0] != b[0] then 0
    else
      var n := Agree(a[1..], b[1..]);
      assert a[..n + 1] == [a[0]] + a[1..][..n] && b[..n + 1] == [b[0]] + b[1..][..n];
      n + 1
  }

  function CommonParts(lists: seq<seq<string>>): (r: seq<string>)
    requires lists != []
  {
    var n := |lists| - 1;
    if n == 0 then lists[0]
    else
      var r := CommonParts(lists[..n]);
      r[..Agree(r, lists[n])]
  }

  /** `q` is a prefix of every list. */
  ghost predicate Above(q: seq<string>, lists: seq<seq<string>>) {
    forall i :: 0 <= i < |lists| ==> q <= lists[i]
  }

  lemma AgreeIff(a: seq<string>, b: seq<string>, q: seq<string>)
    ensures q <= a && q <= b <==> q <= a[..Agree(a, b)]
  {
    var n := Agree(a, b);
    if q <= a && q <= b {
      assert |q| <= n;
    }
    if q <= a[..n] {
      assert q == a[..n][..|q|] == b[..n][..|q|];
    }
  }

  /** The common prefix is the deepest one: the prefixes of all the lists are exactly its
      prefixes. */
  lemma {:induction false} CommonPartsIff(lists: seq<seq<string>>, q: seq<string>)
    requires lists != []
    ensures Above(q, lists) <==> q <= CommonParts(lists)
  {
    var n := |lists| - 1;
    if n > 0 {
      CommonPartsIff(lists[..n], q);
      AgreeIff(CommonParts(lists[..n]), lists[n], q);
      AboveLast(q, lists);
    }
  }

  lemma AboveLast(q: seq<string>, lists: seq<seq<string>>)
    requires lists != []
    ensures var n := |lists| - 1; Above(q, lists) <==> Above(q, lists[..n]) && q <= lists[n]
  {
    var n := |lists| - 1;
    assert forall i :: 0 <= i < n ==> lists[..n][i] == lists[i];
  }

  lemma CommonPartsAbove(lists: seq<seq<string>>, i: nat)
    requires i < |lists|
    ensures CommonParts(lists) <= lists[i]
  {
    CommonPartsIff(lists, CommonParts(lists));
  }

  lemma AboveFirst(q: seq<string>, lists: seq<seq<string>>, k: nat)
    requires k <= |lists| && Above(q, lists)
    ensures Above(q, lists[..k])
  {
    assert forall i :: 0 <= i < k ==> lists[..k][i] == lists[i];
  }

  /** The common prefix depends on which lists there are, not on their order or number. */
  lemma CommonPartsOrder(lists: seq<seq<string>>, others: seq<seq<string>>)
    requires lists != [] && others != []
    requires forall l :: l in lists <==> l in others
    ensures CommonParts(lists) == CommonParts(others)
  {
    var r, r' := CommonParts(lists), CommonParts(others);
    AboveSame(r, lists, others);
    AboveSame(r', others, lists);
    CommonPartsIff(lists, r);
    CommonPartsIff(others, r);
    CommonPartsIff(lists, r');
    CommonPartsIff(others, r');
  }

  lemma AboveSame(q: seq<string>, lists: seq<seq<string>>, others: seq<seq<string>>)
    requires forall l :: l in others ==> l in lists
    ensures Above(q, lists) ==> Above(q, others)
  {
    assert forall i :: 0 <= i < |others| ==> others[i] in lists;
  }

  function PartsOf(paths: seq<string>): (r: seq<seq<string>>)
    ensures |r| == |paths| && forall i :: 0 <= i < |r| ==> r[i] == PathParts(paths[i])
  {
    seq(|paths|, i requires 0 <= i < |paths| => PathParts(paths[i]))
  }

  function CommonScopeOf(paths: seq<string>): string {
    if paths == [] then "/" else Render(CommonParts(PartsOf(paths)))
  }

  /** The loop of `common_path_prefix`, on the parts of the paths. */
  method CommonPrefix(lists: seq<seq<string>>) returns (prefix: seq<string>)
    requires lists != []
    ensures prefix == CommonParts(lists)
  {
    prefix := lists[0];
    assert lists[..1] == [lists[0]];
    for k := 1 to |lists|
      invariant prefix == CommonParts(lists[..k])
    {
      var index := CommonLength(prefix, lists[k]);
      prefix := prefix[..index];
      CommonPartsMore(lists, k);
      if prefix == [] {
        EmptyStaysEmpty(lists, k + 1);
        return;
      }
    }
    assert lists[..|lists|] == lists;
  }

  /** `common_path_prefix`. */
  method CommonPathPrefix(paths: seq<string>) returns (r: string)
    ensures r == CommonScopeOf(paths)
  {
    if paths == [] {
      return "/";
    }
    var prefix := CommonPrefix(PartsOf(paths));
    r := if prefix != [] then "/" + Join(prefix, '/') else "/";
  }

  lemma CommonPartsMore(lists: seq<seq<string>>, k: nat)
    requires 0 < k < |lists|
    ensures var c := CommonParts(lists[..k]); CommonParts(lists[..k + 1]) == c[..Agree(c, lists[k])]
  {
    assert lists[..k + 1][..k] == lists[..k];
  }

  /** The inner loop. */
  method CommonLength(prefix: seq<string>, parts: seq<string>) returns (index: nat)
    ensures index == Agree(prefix, parts)
  {
    index := 0;
    while index < Min(|prefix|, |parts|) && prefix[index] == parts[index]
      invariant index <= |prefix| && index <= |parts|
      invariant Agree(prefix, parts) == index + Agree(prefix[index..], parts[index..])
    {
      assert prefix[index..][1..] == prefix[index + 1..] && parts[index..][1..] == parts[index + 1..];
      index := index + 1;
    }
  }

  lemma EmptyStaysEmpty(lists: seq<seq<string>>, k: nat)
    requires 0 < k <= |lists| && CommonParts(lists[..k]) == []
    ensures CommonParts(lists) == []
  {
    var q := CommonParts(lists);
    CommonPartsIff(lists, q);
    AboveFirst(q, lists, k);
    CommonPartsIff(lists[..k], q);
  }

  // ----- The scope and the paths it came from

  ghost function RenderAll(paths: seq<seq<string>>): (r: seq<string>)
    ensures |r| == |paths| && forall i :: 0 <= i < |r| ==> r[i] == Render(paths[i])
  {
    seq(|paths|, i requires 0 <= i < |paths| => Render(paths[i]))
  }

  ghost predicate AllSegments(paths: seq<seq<string>>) {
    forall i :: 0 <= i < |paths| ==> Segments(paths[i])
  }

  ghost function TrimAll(paths: seq<seq<string>>): (r: seq<seq<string>>)
    ensures |r| == |paths| && forall i :: 0 <= i < |r| ==> r[i] == Trimmed(paths[i])
  {
    seq(|paths|, i requires 0 <= i < |paths| => Trimmed(paths[i]))
  }

  /** The segments of the scope. */
  ghost function ScopeParts(paths: seq<seq<string>>): seq<string>
    requires paths != []
  {
    CommonParts(TrimAll(paths))
  }

  lemma PartsOfRender(paths: seq<seq<string>>)
    requires AllSegments(paths)
    ensures PartsOf(RenderAll(paths)) == TrimAll(paths)
  {
    forall i | 0 <= i < |paths|
      ensures PathParts(RenderAll(paths)[i]) == TrimAll(paths)[i]
    {
      PathPartsRender(paths[i]);
    }
  }

  lemma ScopePartsAre(paths: seq<seq<string>>, q: seq<string>)
    requires paths != []
    ensures q <= ScopeParts(paths) <==> forall i :: 0 <= i < |paths| ==> q <= Trimmed(paths[i])
  {
    var lists := TrimAll(paths);
    CommonPartsIff(lists, q);
    assert Above(q, lists) <==> forall i :: 0 <= i < |paths| ==> q <= Trimmed(paths[i]) by {
      assert forall i :: 0 <= i < |paths| ==> lists[i] == Trimmed(paths[i]);
    }
  }

  lemma ScopeSegments(paths: seq<seq<string>>)
    requires paths != [] && AllSegments(paths)
    ensures Segments(ScopeParts(paths))
  {
    ScopePartsAre(paths, ScopeParts(paths));
    TrimmedSegments(paths[0]);
    var r, t := ScopeParts(paths), Trimmed(paths[0]);
    assert forall i :: 0 <= i < |r| ==> r[i] == t[i];
  }

  /** A scope that survives `normalize_path`. */
  predicate Stays(r: seq<string>) {
    r == [] || !EndsInSpace(r[|r| - 1]) || RStrip(r[|r| - 1], SPACE) == ""
  }

  lemma TrimmedPrefix(r: seq<string>, t: seq<string>)
    requires r <= t && Segments(r)
    ensures Trimmed(r) <= t <==> Stays(r)
  {
    if r != [] {
      var n := |r| - 1;
      var front, last := r[..n], RStrip(r[n], SPACE);
      assert front <= t && r[n] == t[n];
      assert front + [last] <= t <==> last == t[n] by {
        assert (front + [last])[n] == last;
      }
      assert !EndsInSpace(r[n]) ==> last == r[n];
    }
  }

  /** Whether the derived scope matches the paths it was derived from: always, unless the
      last common directory ends in white space (without being all white space), and then
      it matches none of them. */
  lemma ScopeCovers(paths: seq<seq<string>>, i: nat)
    requires i < |paths| && AllSegments(paths)
    ensures CommonScopeOf(RenderAll(paths)) == Render(ScopeParts(paths))
    ensures Matches(Render(paths[i]), Render(ScopeParts(paths))) <==> Stays(ScopeParts(paths))
  {
    var r := ScopeParts(paths);
    PartsOfRender(paths);
    ScopeSegments(paths);
    ScopePartsAre(paths, r);
    MatchesIff(paths[i], r);
    TrimmedPrefix(r, Trimmed(paths[i]));
  }

  /** No scope that matches all the paths is deeper. */
  lemma ScopeDeepest(paths: seq<seq<string>>, q: seq<string>)
    requires paths != [] && AllSegments(paths) && Segments(q)
    requires forall i :: 0 <= i < |paths| ==> Matches(Render(paths[i]), Render(q))
    ensures Trimmed(q) <= ScopeParts(paths)
  {
    forall i | 0 <= i < |paths|
      ensures Trimmed(q) <= Trimmed(paths[i])
    {
      MatchesIff(paths[i], q);
    }
    ScopePartsAre(paths, Trimmed(q));
  }

  ghost predicate AllClean(paths: seq<seq<string>>) {
    forall i :: 0 <= i < |paths| ==> Clean(paths[i])
  }

  ghost predicate MatchesAll(paths: seq<seq<string>>, q: seq<string>) {
    forall i :: 0 <= i < |paths| ==> Matches(Render(paths[i]), Render(q))
  }

  lemma CleanTrimAll(paths: seq<seq<string>>)
    requires AllClean(paths)
    ensures TrimAll(paths) == paths
  {
    forall i | 0 <= i < |paths|
      ensures Trimmed(paths[i]) == paths[i]
    {
      TrimmedClean(paths[i]);
    }
  }

  /** On clean paths the scopes that match all the paths are the ancestors of the common one. */
  lemma CleanScope(paths: seq<seq<string>>, q: seq<string>)
    requires paths != [] && AllClean(paths) && Clean(q)
    ensures q <= ScopeParts(paths) <==> MatchesAll(paths, q)
  {
    CleanTrimAll(paths);
    CommonPartsIff(paths, q);
    forall i | 0 <= i < |paths|
      ensures Matches(Render(paths[i]), Render(q)) <==> q <= paths[i]
    {
      CleanMatchesIff(paths[i], q);
    }
  }

  lemma ScopeClean(paths: seq<seq<string>>)
    requires paths != [] && AllClean(paths)
    ensures Clean(ScopeParts(paths))
  {
    CleanTrimAll(paths);
    CommonPartsAbove(paths, 0);
    PrefixClean(ScopeParts(paths), paths[0]);
  }

  lemma PrefixClean(r: seq<string>, p: seq<string>)
    requires Clean(p) && r <= p
    ensures Clean(r)
  {
    assert forall i :: 0 <= i < |r| ==> r[i] == p[i];
  }

  /** A scope derived from clean paths matches each of them. */
  lemma CleanScopeCovers(paths: seq<seq<string>>, i: nat)
    requires i < |paths| && AllClean(paths)
    ensures Matches(Render(paths[i]), CommonScopeOf(RenderAll(paths)))
  {
    ScopeCovers(paths, i);
    ScopeClean(paths);
  }

  ghost predicate IsCleanPath(path: string) {
    exists segs :: Clean(segs) && path == Render(segs)
  }

  lemma CleanParts(path: string)
    requires IsCleanPath(path)
    ensures Clean(PathParts(path)) && Render(PathParts(path)) == path
  {
    var segs :| Clean(segs) && path == Render(segs);
    PathPartsRender(segs);
    TrimmedClean(segs);
  }

  /** The same, said of the paths as strings. */
  lemma CleanPathsCovered(paths: seq<string>)
    requires forall p :: p in paths ==> IsCleanPath(p)
    ensures forall p :: p in paths ==> Matches(p, CommonScopeOf(paths))
  {
    var lists := PartsOf(paths);
    forall i | 0 <= i < |paths|
      ensures Clean(lists[i]) && Render(lists[i]) == paths[i]
    {
      CleanParts(paths[i]);
    }
    assert RenderAll(lists) == paths;
    forall p | p in paths
      ensures Matches(p, CommonScopeOf(paths))
    {
      var i :| 0 <= i < |paths| && paths[i] == p;
      CleanScopeCovers(lists, i);
    }
  }

  /** Two documents in the directory `a ` are both missed by the scope `/a ` derived from them. */
  lemma SpacedScopeMisses(b: string, c: string)
    requires Clean([b]) && Clean([c]) && b != c
    ensures ScopeParts([["a ", b], ["a ", c]]) == ["a "]
    ensures !Matches(Render(["a ", b]), Render(["a "])) && !Matches(Render(["a ", c]), Render(["a "]))
  {
    var p, q, r := ["a ", b], ["a ", c], ["a "];
    TrimmedPair(b);
    TrimmedPair(c);
    ScopeOfTwo(p, q);
    assert p[..Agree(p, q)] == r by {
      assert p[1..][0] != q[1..][0];
    }
    assert RStrip("a", SPACE) == "a" && "a "[..1] == "a";
    assert Trimmed(r) == r[..0] + ["a"] == ["a"];
    assert Segments(p) && Segments(q) && Segments(r);
    MatchesIff(p, r);
    MatchesIff(q, r);
  }

  lemma TrimmedPair(b: string)
    requires Clean([b])
    ensures Trimmed(["a ", b]) == ["a ", b]
  {
    assert IsSegment([b][0]) && !EndsInSpace([b][0]);
    RStripKeeps(b, SPACE);
    assert ["a ", b][..1] + [b] == ["a ", b];
  }

  lemma ScopeOfTwo(p: seq<string>, q: seq<string>)
    ensures ScopeParts([p, q]) == Trimmed(p)[..Agree(Trimmed(p), Trimmed(q))]
  {
    var lists := TrimAll([p, q]);
    assert lists[..1] == [Trimmed(p)];
    assert CommonParts([Trimmed(p)]) == Trimmed(p);
    assert lists[1] == Trimmed(q);
    assert CommonParts(lists) == Trimmed(p)[..Agree(Trimmed(p), lists[1])];
  }

  // ----- The scope derived from the ground truth

  datatype GroundTruthItem = GroundTruthItem(corpusId: string, score: real)

  /** `max(item.score for item in items)`. */
  method HighestScore(items: seq<GroundTruthItem>) returns (highest: real)
    requires items != []
    ensures IsHighest(items, highest)
  {
    highest := items[0].score;
    for i := 1 to |items|
      invariant exists j :: 0 <= j < i && items[j].score == highest
      invariant forall j :: 0 <= j < i ==> items[j].score <= highest
    {
      if items[i].score > highest {
        highest := items[i].score;
      }
    }
  }

  ghost predicate IsHighest(items: seq<GroundTruthItem>, score: real) {
    && (exists j :: 0 <= j < |items| && items[j].score == score)
    && (forall j :: 0 <= j < |items| ==> items[j].score <= score)
  }

  /** `derived_gt_lca_scope`; `None` is the `KeyError` of a best-scored item without a path.
      The scope is the common one of exactly the paths of the best-scored items, so on clean
      paths the filter by that scope keeps every best-scored item. */
  method DerivedScope(items: seq<GroundTruthItem>, corpusPaths: map<string, string>)
    returns (scope: Option<string>, relevant: seq<string>)
    ensures items == [] ==> scope == Some("/")
    ensures items != [] ==>
      (scope.None? <==> exists i :: 0 <= i < |items| && IsHighest(items, items[i].score) && items[i].corpusId !in corpusPaths)
    ensures scope.Some? ==> scope.value == CommonScopeOf(relevant)
    ensures scope.Some? ==> forall i :: 0 <= i < |items| && IsHighest(items, items[i].score) ==>
      items[i].corpusId in corpusPaths && corpusPaths[items[i].corpusId] in relevant
    ensures scope.Some? && (forall p :: p in relevant ==> IsCleanPath(p)) ==>
      forall i :: 0 <= i < |items| && IsHighest(items, items[i].score) ==> Matches(corpusPaths[items[i].corpusId], scope.value)
    ensures forall p :: p in relevant ==>
      exists i :: 0 <= i < |items| && IsHighest(items, items[i].score) && items[i].corpusId in corpusPaths && corpusPaths[items[i].corpusId] == p
  {
    relevant := [];
    if items == [] {
      return Some("/"), relevant;
    }
    var highest := HighestScore(items);
    var found;
    found, relevant := PathsWithScore(items, corpusPaths, highest);
    if !found {
      return None, relevant;
    }
    var r := CommonPathPrefix(relevant);
    scope := Some(r);
    if forall p :: p in relevant ==> IsCleanPath(p) {
      CleanPathsCovered(relevant);
    }
  }

  /** The paths of the items with a score, or not all of them are known. */
  method PathsWithScore(items: seq<GroundTruthItem>, corpusPaths: map<string, string>, score: real)
    returns (found: bool, paths: seq<string>)
    ensures found <==> forall i :: 0 <= i < |items| && items[i].score == score ==> items[i].corpusId in corpusPaths
    ensures found ==> forall i :: 0 <= i < |items| && items[i].score == score ==> corpusPaths[items[i].corpusId] in paths
    ensures forall p :: p in paths ==>
      exists i :: 0 <= i < |items| && items[i].score == score && items[i].corpusId in corpusPaths && corpusPaths[items[i].corpusId] == p
  {
    paths := [];
    for n := 0 to |items|
      invariant forall i :: 0 <= i < n && items[i].score == score ==>
        items[i].corpusId in corpusPaths && corpusPaths[items[i].corpusId] in paths
      invariant forall p :: p in paths ==>
        exists i :: 0 <= i < n && items[i].score == score && items[i].corpusId in corpusPaths && corpusPaths[items[i].corpusId] == p
    {
      if items[n].score == score {
        if items[n].corpusId !in corpusPaths {
          return false, paths;
        }
        paths := paths + [corpusPaths[items[n].corpusId]];
      }
    }
    found := true;
  }
}
