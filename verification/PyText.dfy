/** The Python string operations that the models share. */
module PyText {

  /** `str.isspace`. */
  predicate IsSpace(c: char) {
    var n := c as int;
    || 0x09 <= n <= 0x0D || 0x1C <= n <= 0x20 || n == 0x85 || n == 0xA0 || n == 0x1680
    || 0x2000 <= n <= 0x200A || n == 0x2028 || n == 0x2029 || n == 0x202F || n == 0x205F || n == 0x3000
  }

  /** `s.lstrip()` and `s.lstrip(chars)`, with the characters to strip given as a predicate. */
  function LStrip(s: string, p: char -> bool): (r: string)
    ensures |r| <= |s| && (r != [] ==> !p(r[0]))
  {
    if s != [] && p(s[0]) then LStrip(s[1..], p) else s
  }

  function RStrip(s: string, p: char -> bool): (r: string)
    ensures r <= s && (r != [] ==> !p(r[|r| - 1]))
    ensures forall i :: |r| <= i < |s| ==> p(s[i])
  {
    if s != [] && p(s[|s| - 1]) then RStrip(s[..|s| - 1], p) else s
  }

  function Strip(s: string, p: char -> bool): string {
    RStrip(LStrip(s, p), p)
  }

  /** The text `t` is `s` without the characters to strip at both ends. */
  ghost predicate IsStripped(t: string, s: string, p: char -> bool) {
    exists i :: 0 <= i <= |s| - |t| && IsMiddle(t, s, p, i)
  }

  predicate IsMiddle(t: string, s: string, p: char -> bool, i: nat)
    requires i + |t| <= |s|
  {
    && t == s[i..i + |t|] && (t != [] ==> !p(t[0]) && !p(t[|t| - 1]))
    && (forall k :: 0 <= k < i ==> p(s[k])) && (forall k :: i + |t| <= k < |s| ==> p(s[k]))
  }

  lemma {:induction false} LStripIs(s: string, p: char -> bool)
    ensures LStrip(s, p) == s[|s| - |LStrip(s, p)|..]
    ensures forall i :: 0 <= i < |s| - |LStrip(s, p)| ==> p(s[i])
  {
    if s != [] && p(s[0]) {
      LStripIs(s[1..], p);
    }
  }

  lemma StripIs(s: string, p: char -> bool)
    ensures IsStripped(Strip(s, p), s, p)
  {
    LStripIs(s, p);
    var a := LStrip(s, p);
    var t, i := Strip(s, p), |s| - |a|;
    assert a == s[i..] && t == a[..|t|] == s[i..i + |t|];
    assert t != [] ==> t[0] == a[0];
    forall k | i + |t| <= k < |s|
      ensures p(s[k])
    {
      assert s[k] == a[k - i];
    }
    assert IsMiddle(t, s, p, i);
  }

  /** `s.split(sep)` for a one-character separator. */
  function Split(s: string, sep: char): (parts: seq<string>)
    ensures parts != []
    ensures forall i :: 0 <= i < |parts| ==> sep !in parts[i]
  {
    if s == [] then [""]
    else
      var rest := Split(s[1..], sep);
      if s[0] == sep then [""] + rest else [[s[0]] + rest[0]] + rest[1..]
  }

  /** `sep.join(parts)` for a one-character separator. */
  function Join(parts: seq<string>, sep: char): string {
    if parts == [] then ""
    else if |parts| == 1 then parts[0]
    else parts[0] + [sep] + Join(parts[1..], sep)
  }

  lemma {:induction false} JoinSplit(s: string, sep: char)
    ensures Join(Split(s, sep), sep) == s
  {
    if s != [] {
      var rest := Split(s[1..], sep);
      JoinSplit(s[1..], sep);
      if s[0] == sep {
        assert ([""] + rest)[1..] == rest;
      } else {
        assert ([[s[0]] + rest[0]] + rest[1..])[1..] == rest[1..];
      }
    }
  }

  lemma {:induction false} SplitNone(s: string, sep: char)
    requires sep !in s
    ensures Split(s, sep) == [s]
  {
    if s != [] {
      SplitNone(s[1..], sep);
      assert [s[0]] + s[1..] == s;
    }
  }

  lemma {:induction false} SplitAt(a: string, b: string, sep: char)
    requires sep !in a
    ensures Split(a + [sep] + b, sep) == [a] + Split(b, sep)
  {
    var s := a + [sep] + b;
    if a == [] {
      assert s[1..] == b;
    } else {
      assert s[1..] == a[1..] + [sep] + b;
      SplitAt(a[1..], b, sep);
      assert [a[0]] + a[1..] == a;
    }
  }

  lemma {:induction false} SplitJoin(parts: seq<string>, sep: char)
    requires parts != [] && forall i :: 0 <= i < |parts| ==> sep !in parts[i]
    ensures Split(Join(parts, sep), sep) == parts
  {
    if |parts| == 1 {
      SplitNone(parts[0], sep);
    } else {
      SplitJoin(parts[1..], sep);
      SplitAt(parts[0], Join(parts[1..], sep), sep);
    }
  }
}
