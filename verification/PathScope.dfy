/**
 Directory scopes of the vector-database benchmark: paths as strings, and the prefix test
 that a scope filter is checked with.

 The code compares strings. The results here say what that means for the segments.
 */
module PathScope {
  import opened Arith
  import opened PyText

  const SPACE: char -> bool := c => IsSpace(c)
  const SLASH: char -> bool := c => c == '/'
  const VIKING := "viking://"

  // ----- The code

  /** `normalize_path` on a string. */
  function NormalizePath(path: string): string {
    var stripped := Strip(path, SPACE);
    if stripped == "" then "/"
    else
      var rooted :=
        if VIKING <= stripped then "/" + Strip(stripped[|VIKING|..], SLASH)
        else if stripped[0] != '/' then "/" + stripped
        else stripped;
      if |rooted| > 1 then RStrip(rooted, SLASH) else rooted
  }

  predicate MatchesOne(item: string, scope: string) {
    var path := NormalizePath(item);
    path == scope || RStrip(scope, SLASH) + "/" <= path
  }

  predicate MatchesAny(items: seq<string>, scope: string) {
    exists i :: 0 <= i < |items| && MatchesOne(items[i], scope)
  }

  /** What `path_matches` decides: one of the `;`-separated paths is in the scope. */
  predicate Matches(pathValue: string, prefix: string) {
    MatchesAny(Split(pathValue, ';'), NormalizePath(prefix))
  }

  function NonEmpty(parts: seq<string>): seq<string> {
    if parts == [] then []
    else (if parts[0] == "" then [] else [parts[0]]) + NonEmpty(parts[1..])
  }

  function PathParts(path: string): seq<string> {
    NonEmpty(Split(Strip(NormalizePath(path), SLASH), '/'))
  }

  /** `"/" + "/".join(parts)`. */
  function Render(parts: seq<string>): string {
    "/" + Join(parts, '/')
  }

  /** `path_prefix`. */
  function PathPrefix(path: string, segments: int): string {
    var parts := NonEmpty(Split(Strip(path, SLASH), '/'));
    if parts == [] then "/"
    else
      var n := Min(segments, |parts|);
      Render(parts[..if n < 1 then 1 else n])
  }

  // ----- Segments

  /** A non-empty name without separators. */
  predicate IsSegment(s: string) {
    s != [] && '/' !in s && ';' !in s
  }

  predicate EndsInSpace(s: string) {
    s != [] && IsSpace(s[|s| - 1])
  }

  /** A path all of whose segments are non-empty and do not end in white space. */
  predicate Clean(segs: seq<string>) {
    forall i :: 0 <= i < |segs| ==> IsSegment(segs[i]) && !EndsInSpace(segs[i])
  }

  predicate Segments(segs: seq<string>) {
    forall i :: 0 <= i < |segs| ==> IsSegment(segs[i])
  }

  function Body(segs: seq<string>): string {
    if segs == [] then "" else "/" + segs[0] + Body(segs[1..])
  }

  lemma SlashBetween(a: string, b: string)
    ensures "/" + (a + ['/'] + b) == "/" + a + ("/" + b)
  {
  }

  lemma {:induction false} RenderBody(segs: seq<string>)
    ensures Render(segs) == if segs == [] then "/" else Body(segs)
  {
    if |segs| == 1 {
      assert Body(segs) == "/" + segs[0] + Body(segs[1..]);
    } else if |segs| > 1 {
      RenderBody(segs[1..]);
      SlashBetween(segs[0], Join(segs[1..], '/'));
    }
  }

  // ----- String prefixes are segment prefixes

  /** Two texts that start with a segment each start with the same one, if one text is a
      prefix of the other up to a separator. */
  lemma SameHead(a: string, x: string, b: string, y: string)
    requires '/' !in a && '/' !in b
    requires x != [] && x[0] == '/' && y != [] && y[0] == '/'
    requires a + x <= b + y
    ensures a == b && x <= y
  {
    assert (a + x)[|a|] == '/';
    assert (b + y)[|a|] == '/';
    assert forall i :: 0 <= i < |a| ==> a[i] in a;
    assert |a| >= |b| && (a + x)[|b|] == (b + y)[|b|] == '/';
    assert a == (a + x)[..|a|] == (b + y)[..|a|] == b;
    assert x == (a + x)[|a|..] && y == (b + y)[|a|..];
  }

  lemma {:induction false} BodyPrefix(ps: seq<string>, qs: seq<string>)
    requires Segments(ps) && Segments(qs)
    ensures Body(qs) + "/" <= Body(ps) + "/" <==> qs <= ps
  {
    if qs == [] {
      assert Body(qs) + "/" == "/";
    } else if ps == [] {
      assert |Body(qs)| >= 1;
    } else {
      BodyPrefix(ps[1..], qs[1..]);
      var x, y := Body(qs[1..]) + "/", Body(ps[1..]) + "/";
      assert Body(qs) + "/" == "/" + (qs[0] + x);
      assert Body(ps) + "/" == "/" + (ps[0] + y);
      SlashPrefix(qs[0] + x, ps[0] + y);
      HeadPrefix(qs[0], x, ps[0], y);
      SegmentPrefix(qs, ps);
    }
  }

  lemma HeadPrefix(a: string, x: string, b: string, y: string)
    requires '/' !in a && '/' !in b
    requires x != [] && x[0] == '/' && y != [] && y[0] == '/'
    ensures a + x <= b + y <==> a == b && x <= y
  {
    if a + x <= b + y {
      SameHead(a, x, b, y);
    }
  }

  lemma SegmentPrefix(qs: seq<string>, ps: seq<string>)
    requires qs != [] && ps != []
    ensures qs <= ps <==> qs[0] == ps[0] && qs[1..] <= ps[1..]
  {
    assert qs == [qs[0]] + qs[1..] && ps == [ps[0]] + ps[1..];
    if qs <= ps {
      assert qs[1..] == ps[1..][..|qs| - 1];
    }
  }

  lemma SlashPrefix(u: string, v: string)
    ensures "/" + u <= "/" + v <==> u <= v
  {
    assert ("/" + u)[1..] == u && ("/" + v)[1..] == v;
    if "/" + u <= "/" + v {
      assert u == ("/" + v)[1..|u| + 1];
    }
  }

  lemma SlashEnd(s: string, t: string)
    ensures s + "/" <= t + "/" <==> s == t || s + "/" <= t
  {
    if s + "/" <= t + "/" {
      if |s| == |t| {
        assert s == (s + "/")[..|s|] == (t + "/")[..|s|] == t;
      } else {
        assert s + "/" == (t + "/")[..|s| + 1] == t[..|s| + 1];
      }
    }
  }

  // ----- Normal paths

  /** The segments that `normalize_path` leaves: white space at the very end goes, and with
      it the last segment if that was all white space. */
  function Trimmed(segs: seq<string>): seq<string> {
    if segs == [] then []
    else
      var n := |segs| - 1;
      var last := RStrip(segs[n], SPACE);
      if last == "" then segs[..n] else segs[..n] + [last]
  }

  lemma TrimmedSegments(segs: seq<string>)
    requires Segments(segs)
    ensures Segments(Trimmed(segs))
  {
    if segs != [] {
      var n := |segs| - 1;
      assert forall c :: c in RStrip(segs[n], SPACE) ==> c in segs[n];
    }
  }

  lemma TrimmedClean(segs: seq<string>)
    requires Clean(segs)
    ensures Trimmed(segs) == segs
  {
    if segs != [] {
      var n := |segs| - 1;
      assert RStrip(segs[n], SPACE) == segs[n];
      assert segs[..n] + [segs[n]] == segs;
    }
  }

  lemma {:induction false} RStripAppend(a: string, b: string, p: char -> bool)
    ensures RStrip(a + b, p) == if RStrip(b, p) == [] then RStrip(a, p) else a + RStrip(b, p)
  {
    if b == [] {
      assert a + b == a;
    } else {
      var c := b[..|b| - 1];
      assert (a + b)[..|a + b| - 1] == a + c;
      if p(b[|b| - 1]) {
        RStripAppend(a, c, p);
      }
    }
  }

  lemma LStripKeeps(s: string, p: char -> bool)
    requires s != [] && !p(s[0])
    ensures LStrip(s, p) == s
  {
  }

  lemma RStripKeeps(s: string, p: char -> bool)
    requires s != [] && !p(s[|s| - 1])
    ensures RStrip(s, p) == s
  {
  }

  lemma {:induction false} BodyAppend(segs: seq<string>, last: string)
    ensures Body(segs + [last]) == Body(segs) + "/" + last
  {
    if segs == [] {
      assert Body([last][1..]) == "";
    } else {
      assert (segs + [last])[1..] == segs[1..] + [last];
      BodyAppend(segs[1..], last);
    }
  }

  /** A path ends in a character of its last segment, never in a slash. */
  lemma BodyEnd(segs: seq<string>)
    requires segs != [] && Segments(segs)
    ensures |Body(segs)| >= 2 && Body(segs)[0] == '/' && Body(segs)[|Body(segs)| - 1] != '/'
  {
    var n := |segs| - 1;
    assert segs == segs[..n] + [segs[n]];
    BodyAppend(segs[..n], segs[n]);
    assert segs[n][|segs[n]| - 1] in segs[n];
  }

  lemma RootedScope(segs: seq<string>)
    requires Segments(segs)
    ensures RStrip(Render(segs), SLASH) == Body(segs)
  {
    RenderBody(segs);
    if segs != [] {
      BodyEnd(segs);
    } else {
      assert "/"[..0] == "";
    }
  }

  lemma NormalOf(path: string, stripped: string)
    requires Strip(path, SPACE) == stripped && stripped != "" && stripped[0] == '/'
    ensures NormalizePath(path) == if |stripped| > 1 then RStrip(stripped, SLASH) else stripped
  {
    NotViking(stripped);
  }

  /** Stripping a path strips its last segment. */
  lemma StripLast(front: seq<string>, last: string)
    ensures var path, trimmed := Body(front + [last]), RStrip(last, SPACE);
            Strip(path, SPACE) == Body(front) + "/" + trimmed
  {
    var start := Body(front) + "/";
    BodyAppend(front, last);
    StartsWithSlash(front);
    LStripKeeps(start + last, SPACE);
    RStripAppend(start, last, SPACE);
    RStripKeeps(start, SPACE);
    assert start + "" == start;
  }

  lemma StartsWithSlash(segs: seq<string>)
    ensures var s := Body(segs) + "/"; s[0] == '/' && s[|s| - 1] == '/'
  {
  }

  lemma TrimmedLast(front: seq<string>, last: string)
    ensures var trimmed := RStrip(last, SPACE);
            Trimmed(front + [last]) == if trimmed == "" then front else front + [trimmed]
  {
    assert (front + [last])[..|front|] == front;
  }

  lemma NormalKept(path: string, front: seq<string>, trimmed: string)
    requires Segments(front + [trimmed]) && Strip(path, SPACE) == Body(front) + "/" + trimmed
    ensures NormalizePath(path) == Render(front + [trimmed])
  {
    var segs := front + [trimmed];
    BodyAppend(front, trimmed);
    RenderBody(segs);
    BodyEnd(segs);
    NormalOf(path, Body(segs));
    RStripKeeps(Body(segs), SLASH);
  }

  lemma NormalDropped(path: string, front: seq<string>)
    requires Segments(front) && Strip(path, SPACE) == Body(front) + "/"
    ensures NormalizePath(path) == Render(front)
  {
    StartsWithSlash(front);
    NormalOf(path, Body(front) + "/");
    RenderBody(front);
    SlashDropped(front);
    if front != [] {
      BodyEnd(front);
    }
  }

  lemma KeptSegments(front: seq<string>, last: string, trimmed: string)
    requires Segments(front) && IsSegment(last) && trimmed <= last && trimmed != ""
    ensures Segments(front + [trimmed])
  {
    assert forall c :: c in trimmed ==> c in last;
  }

  lemma NormalLast(front: seq<string>, last: string)
    requires Segments(front) && IsSegment(last)
    ensures NormalizePath(Body(front + [last])) == Render(Trimmed(front + [last]))
  {
    var trimmed := RStrip(last, SPACE);
    StripLast(front, last);
    TrimmedLast(front, last);
    if trimmed != "" {
      KeptSegments(front, last, trimmed);
      NormalKept(Body(front + [last]), front, trimmed);
    } else {
      assert Body(front) + "/" + "" == Body(front) + "/";
      NormalDropped(Body(front + [last]), front);
    }
  }

  lemma NormalRender(segs: seq<string>)
    requires Segments(segs)
    ensures NormalizePath(Render(segs)) == Render(Trimmed(segs))
  {
    RenderBody(segs);
    if segs == [] {
      LStripKeeps("/", SPACE);
      RStripKeeps("/", SPACE);
      NormalOf("/", "/");
    } else {
      var n := |segs| - 1;
      assert segs == segs[..n] + [segs[n]];
      NormalLast(segs[..n], segs[n]);
    }
  }

  lemma NotViking(s: string)
    requires s != [] && s[0] == '/'
    ensures !(VIKING <= s)
  {
    assert VIKING[0] == 'v';
  }

  lemma SlashDropped(segs: seq<string>)
    requires segs != [] ==> Segments(segs)
    ensures segs != [] ==> RStrip(Body(segs) + "/", SLASH) == Body(segs)
    ensures segs == [] ==> Body(segs) + "/" == "/"
  {
    if segs != [] {
      BodyEnd(segs);
      RStripAppend(Body(segs), "/", SLASH);
      assert "/"[..0] == "";
    }
  }

  // ----- The prefix test

  /** Both ways the string test can succeed, on two normal paths. */
  lemma ScopeIff(ps: seq<string>, qs: seq<string>)
    requires Segments(ps) && Segments(qs)
    ensures (Render(ps) == Render(qs) || RStrip(Render(qs), SLASH) + "/" <= Render(ps)) <==> qs <= ps
  {
    RootedScope(qs);
    RenderBody(ps);
    RenderBody(qs);
    BodyPrefix(ps, qs);
    SlashEnd(Body(qs), Body(ps));
    if ps != [] {
      BodyEnd(ps);
    }
    if qs != [] {
      BodyEnd(qs);
    }
  }

  /** `path_matches` on any two paths made of segments: after the white space at the ends
      is gone, the segments of the scope are a prefix of those of the path. */
  lemma MatchesIff(ps: seq<string>, qs: seq<string>)
    requires Segments(ps) && Segments(qs)
    ensures Matches(Render(ps), Render(qs)) <==> Trimmed(qs) <= Trimmed(ps)
  {
    RenderBody(ps);
    BodyNoList(ps);
    SplitNone(Render(ps), ';');
    NormalRender(ps);
    NormalRender(qs);
    TrimmedSegments(ps);
    TrimmedSegments(qs);
    ScopeIff(Trimmed(ps), Trimmed(qs));
    var items := [Render(ps)];
    var scope := Render(Trimmed(qs));
    assert MatchesAny(items, scope) <==> MatchesOne(items[0], scope);
  }

  lemma {:induction false} BodyNoList(segs: seq<string>)
    requires Segments(segs)
    ensures ';' !in Body(segs)
  {
    if segs != [] {
      BodyNoList(segs[1..]);
    }
  }

  /** On clean paths it is the prefix test on the segments themselves. */
  lemma CleanMatchesIff(ps: seq<string>, qs: seq<string>)
    requires Clean(ps) && Clean(qs)
    ensures Matches(Render(ps), Render(qs)) <==> qs <= ps
  {
    MatchesIff(ps, qs);
    TrimmedClean(ps);
    TrimmedClean(qs);
  }
}
