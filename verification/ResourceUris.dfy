/**
 The URIs that records and scopes get in the benchmark (`resource_uri`): the path between a
 prefix for the dataset and, for a record, its id. The prefix test on two such URIs is the
 prefix test on the segments.
 */
module ResourceUris {
  import opened PyText
  import opened PathScope
  import opened Wrappers
  import CommonScope

  // ----- The code

  /** `isalnum`, on ASCII. */
  predicate IsAlnum(c: char) {
    'a' <= c <= 'z' || 'A' <= c <= 'Z' || '0' <= c <= '9'
  }

  predicate IsSafe(c: char) {
    IsAlnum(c) || c == '_' || c == '-' || c == '.'
  }

  function Safe(text: string): (r: string)
    ensures |r| == |text| && forall i :: 0 <= i < |r| ==> IsSafe(r[i])
  {
    seq(|text|, i requires 0 <= i < |text| => if IsSafe(text[i]) then text[i] else '_')
  }

  /** `safe_uri_segment`. */
  function SafeUriSegment(value: string): string {
    var text := Safe(Strip(value, SPACE));
    if text == "" then "item" else text
  }

  /** `resource_uri`. */
  function ResourceUri(dataset: string, path: string, itemId: Option<string>): string {
    var suffix := Strip(NormalizePath(Split(if path == "" then "/" else path, ';')[0]), SLASH);
    var base := "viking://resources/bench/" + SafeUriSegment(dataset);
    var dir := if suffix == "" then base else base + "/" + suffix;
    if itemId.Some? then dir + "/" + SafeUriSegment(itemId.value) else dir
  }

  // ----- The segments of a URI

  lemma SafeClean(value: string)
    ensures IsSegment(SafeUriSegment(value)) && !EndsInSpace(SafeUriSegment(value))
  {
    var s := SafeUriSegment(value);
    assert forall i :: 0 <= i < |s| ==> IsSafe(s[i]);
  }

  /** A name of safe characters is kept; in any other the unsafe characters, and only these,
      become underscores, after the white space around it is gone. */
  lemma SafeKeeps(value: string)
    ensures value != "" && (forall i :: 0 <= i < |value| ==> IsSafe(value[i])) ==> SafeUriSegment(value) == value
    ensures var t, r := Strip(value, SPACE), SafeUriSegment(value);
            if t == "" then r == "item"
            else |r| == |t| && forall i :: 0 <= i < |t| ==> r[i] == t[i] || (r[i] == '_' && !IsSafe(t[i]))
  {
    if value != "" && forall i :: 0 <= i < |value| ==> IsSafe(value[i]) {
      LStripKeeps(value, SPACE);
      RStripKeeps(value, SPACE);
      assert Safe(value) == value;
    }
  }

  function Root(dataset: string): seq<string> {
    ["resources", "bench", SafeUriSegment(dataset)]
  }

  function ItemSegments(itemId: Option<string>): seq<string> {
    if itemId.Some? then [SafeUriSegment(itemId.value)] else []
  }

  function UriSegments(dataset: string, segs: seq<string>, itemId: Option<string>): seq<string> {
    Root(dataset) + segs + ItemSegments(itemId)
  }

  lemma RootClean(dataset: string)
    ensures Clean(Root(dataset))
  {
    SafeClean(dataset);
  }

  lemma ItemClean(itemId: Option<string>)
    ensures Clean(ItemSegments(itemId))
  {
    if itemId.Some? {
      SafeClean(itemId.value);
    }
  }

  lemma CleanAppend(a: seq<string>, b: seq<string>)
    requires Clean(a) && Clean(b)
    ensures Clean(a + b)
  {
  }

  lemma UriSegmentsClean(dataset: string, segs: seq<string>, itemId: Option<string>)
    requires Clean(segs)
    ensures Clean(UriSegments(dataset, segs, itemId))
  {
    RootClean(dataset);
    ItemClean(itemId);
    CleanAppend(Root(dataset), segs);
    CleanAppend(Root(dataset) + segs, ItemSegments(itemId));
  }

  lemma {:induction false} JoinAppend(a: seq<string>, b: seq<string>)
    requires a != [] && b != []
    ensures Join(a + b, '/') == Join(a, '/') + "/" + Join(b, '/')
  {
    assert (a + b)[1..] == a[1..] + b;
    if |a| > 1 {
      JoinAppend(a[1..], b);
      Regroup(a[0], Join(a[1..], '/'), Join(b, '/'));
    } else {
      assert a[1..] + b == b;
    }
  }

  lemma Regroup(x: string, y: string, z: string)
    ensures x + ['/'] + (y + "/" + z) == (x + ['/'] + y) + "/" + z
  {
  }

  lemma JoinThree(a: string, b: string, c: string)
    ensures Join([a, b, c], '/') == a + "/" + (b + "/" + c)
  {
    assert [a, b, c][1..] == [b, c] && [b, c][1..] == [c];
    assert Join([b, c], '/') == b + ['/'] + c;
  }

  lemma RootJoin(dataset: string)
    ensures "viking://resources/bench/" + SafeUriSegment(dataset) == VIKING + Join(Root(dataset), '/')
  {
    JoinThree("resources", "bench", SafeUriSegment(dataset));
    RootText(SafeUriSegment(dataset));
  }

  lemma RootText(d: string)
    ensures "viking://resources/bench/" + d == VIKING + ("resources" + "/" + ("bench" + "/" + d))
  {
    assert "viking://resources/bench/" == VIKING + "resources/" + "bench/";
  }

  /** What the path of a clean list of segments adds. */
  lemma SuffixIs(segs: seq<string>)
    requires Clean(segs)
    ensures Render(segs) != "" && Strip(NormalizePath(Split(Render(segs), ';')[0]), SLASH) == Join(segs, '/')
    ensures segs != [] ==> Join(segs, '/') != ""
  {
    RenderBody(segs);
    BodyNoList(segs);
    SplitNone(Render(segs), ';');
    NormalRender(segs);
    TrimmedClean(segs);
    if segs == [] {
      assert "/"[1..] == "";
    } else {
      CommonScope.StripRender(segs);
      assert |segs[0]| >= 1;
    }
  }

  /** The URI spells its segments. */
  lemma UriIs(dataset: string, segs: seq<string>, itemId: Option<string>)
    requires Clean(segs)
    ensures ResourceUri(dataset, Render(segs), itemId) == VIKING + Join(UriSegments(dataset, segs, itemId), '/')
  {
    var root := Root(dataset);
    RootJoin(dataset);
    SuffixIs(segs);
    var dir := root + segs;
    if segs == [] {
      assert dir == root;
    } else {
      JoinAppend(root, segs);
      Prefixed(Join(root, '/'), Join(segs, '/'));
    }
    if itemId.Some? {
      var item := ItemSegments(itemId);
      JoinAppend(dir, item);
      Prefixed(Join(dir, '/'), item[0]);
    } else {
      assert UriSegments(dataset, segs, itemId) == dir;
    }
  }

  lemma Prefixed(a: string, b: string)
    ensures VIKING + (a + "/" + b) == VIKING + a + "/" + b
  {
  }

  // ----- The prefix test

  lemma JoinEnds(ps: seq<string>)
    requires Clean(ps) && ps != []
    ensures var s := Join(ps, '/'); s != "" && s[0] != '/' && s[|s| - 1] != '/' && !IsSpace(s[|s| - 1])
  {
    var n := |ps| - 1;
    var last := ps[n];
    assert ps == ps[..n] + [last];
    assert last[|last| - 1] in last && ps[0][0] in ps[0];
    RenderBody(ps);
    BodyAppend(ps[..n], last);
    SameEnd(Body(ps[..n]), last, Join(ps, '/'));
    assert Join(ps, '/')[0] == ps[0][0];
  }

  lemma SameEnd(a: string, last: string, j: string)
    requires last != "" && "/" + j == a + "/" + last
    ensures j != "" && j[|j| - 1] == last[|last| - 1]
  {
    var r := "/" + j;
    assert r[|r| - 1] == last[|last| - 1];
  }

  lemma NormalUri(ps: seq<string>)
    requires Clean(ps) && ps != []
    ensures NormalizePath(VIKING + Join(ps, '/')) == Render(ps)
  {
    var t := Join(ps, '/');
    var s := VIKING + t;
    JoinEnds(ps);
    LStripKeeps(s, SPACE);
    RStripKeeps(s, SPACE);
    assert VIKING <= s && s[|VIKING|..] == t;
    LStripKeeps(t, SLASH);
    RStripKeeps(t, SLASH);
    RStripKeeps("/" + t, SLASH);
  }

  /** The URI with the given segments. */
  function Spelled(ps: seq<string>): string {
    VIKING + Join(ps, '/')
  }

  lemma NoList(ps: seq<string>)
    requires Clean(ps)
    ensures ';' !in Spelled(ps)
  {
    RenderBody(ps);
    BodyNoList(ps);
    assert forall c :: c in Join(ps, '/') ==> c in Render(ps);
  }

  /** A single path is tested by itself. */
  lemma SingleMatches(item: string, prefix: string)
    requires ';' !in item
    ensures Matches(item, prefix) <==> MatchesOne(item, NormalizePath(prefix))
  {
    SplitNone(item, ';');
    var items, scope := [item], NormalizePath(prefix);
    assert MatchesAny(items, scope) <==> MatchesOne(items[0], scope);
  }

  lemma UriMatches(ps: seq<string>, qs: seq<string>)
    requires Clean(ps) && ps != [] && Clean(qs) && qs != []
    ensures Matches(Spelled(ps), Spelled(qs)) <==> qs <= ps
  {
    NoList(ps);
    SingleMatches(Spelled(ps), Spelled(qs));
    NormalUri(ps);
    NormalUri(qs);
    ScopeIff(ps, qs);
  }

  lemma SamePrefix(a: seq<string>, b: seq<string>, c: seq<string>)
    ensures a + b <= a + c <==> b <= c
  {
    if a + b <= a + c {
      assert b == (a + b)[|a|..] && c == (a + c)[|a|..];
      assert b == (a + c)[|a|..|a + b|] == c[..|b|];
    }
  }

  /** A record is in a scope of its dataset exactly when the scope's segments are a prefix of
      the record's, its id included. */
  lemma ScopeUriIff(dataset: string, ps: seq<string>, itemId: string, qs: seq<string>)
    requires Clean(ps) && Clean(qs)
    ensures Matches(ResourceUri(dataset, Render(ps), Some(itemId)), ResourceUri(dataset, Render(qs), None))
       <==> qs <= ps + [SafeUriSegment(itemId)]
  {
    var root, rest := Root(dataset), ps + [SafeUriSegment(itemId)];
    RecordSpelled(dataset, ps, itemId);
    ScopeSpelled(dataset, qs);
    UriMatches(root + rest, root + qs);
    SamePrefix(root, qs, rest);
  }

  lemma RecordSpelled(dataset: string, ps: seq<string>, itemId: string)
    requires Clean(ps)
    ensures var segs := Root(dataset) + (ps + [SafeUriSegment(itemId)]);
            Clean(segs) && ResourceUri(dataset, Render(ps), Some(itemId)) == Spelled(segs)
  {
    UriIs(dataset, ps, Some(itemId));
    UriSegmentsClean(dataset, ps, Some(itemId));
    assert UriSegments(dataset, ps, Some(itemId)) == Root(dataset) + (ps + [SafeUriSegment(itemId)]);
  }

  lemma ScopeSpelled(dataset: string, qs: seq<string>)
    requires Clean(qs)
    ensures var segs := Root(dataset) + qs;
            Clean(segs) && ResourceUri(dataset, Render(qs), None) == Spelled(segs)
  {
    UriIs(dataset, qs, None);
    UriSegmentsClean(dataset, qs, None);
    assert UriSegments(dataset, qs, None) == Root(dataset) + qs;
  }
}
