/**
 Section 7 of RFC 8259 read from the side of the writer: how a list of code points may be
 written between quotes, with numbers and letters given outright. Whatever way is chosen,
 the decoder gives back exactly the code points.
 */
module JsonEscapes {
  import opened JsonDecoder
  import opened JsonGrammar
  import opened Wrappers

  // ----- Writing code points

  /** How one code point is written, where there is a choice: as itself, by a letter, or by
      hexadecimal digits, each in either case. */
  datatype Style = Raw | Letter | Digits(upper: nat -> bool)

  predicate MayStandRaw(c: int) {
    0x20 <= c <= 0x21 || 0x23 <= c <= 0x5B || 0x5D <= c <= 0xD7FF || 0xE000 <= c <= 0x10FFFF
  }

  function LetterOf(c: int): Option<char> {
    if c == 0x22 then Some('"')
    else if c == 0x5C then Some('\\')
    else if c == 0x2F then Some('/')
    else if c == 0x08 then Some('b')
    else if c == 0x0C then Some('f')
    else if c == 0x0A then Some('n')
    else if c == 0x0D then Some('r')
    else if c == 0x09 then Some('t')
    else None
  }

  function DigitOf(d: int, upper: bool): char
    requires 0 <= d < 16
  {
    if upper then "0123456789ABCDEF"[d] else "0123456789abcdef"[d]
  }

  function FourDigits(n: int, upper: nat -> bool, from: nat): (h: string)
    requires 0 <= n < 0x10000
    ensures |h| == 4
  {
    [DigitOf(n / 0x1000, upper(from)), DigitOf(n / 0x100 % 0x10, upper(from + 1)),
     DigitOf(n / 0x10 % 0x10, upper(from + 2)), DigitOf(n % 0x10, upper(from + 3))]
  }

  function Case(style: Style): nat -> bool {
    if style.Digits? then style.upper else (_ => false)
  }

  predicate IsPoint(c: int) {
    0 <= c <= 0x10FFFF
  }

  function HighHalf(c: int): int {
    0xD800 + (c - 0x10000) / 0x400
  }

  function LowHalf(c: int): int {
    0xDC00 + (c - 0x10000) % 0x400
  }

  function WritePoint(c: int, style: Style): string
    requires IsPoint(c)
  {
    if style.Raw? && MayStandRaw(c) then [c as char]
    else if style.Letter? && LetterOf(c).Some? then ['\\', LetterOf(c).value]
    else if c < 0x10000 then ['\\', 'u'] + FourDigits(c, Case(style), 0)
    else
      ['\\', 'u'] + FourDigits(HighHalf(c), Case(style), 0) + (['\\', 'u'] + FourDigits(LowHalf(c), Case(style), 4))
  }

  /** The points, the closing quote, and `k` behind it. */
  function WritePoints(points: seq<int>, styles: seq<Style>, k: string): string
    requires |styles| == |points| && forall c :: c in points ==> IsPoint(c)
  {
    if points == [] then ['"'] + k
    else WritePoint(points[0], styles[0]) + WritePoints(points[1..], styles[1..], k)
  }

  predicate IsHigh(c: int) {
    0xD800 <= c <= 0xDBFF
  }

  predicate IsLow(c: int) {
    0xDC00 <= c <= 0xDFFF
  }

  /** Code points in which no lone high surrogate stands before a lone low one: these two
      would be read as one. */
  ghost predicate Writable(points: seq<int>) {
    && (forall c :: c in points ==> IsPoint(c))
    && forall i :: 0 <= i < |points| - 1 ==> !(IsHigh(points[i]) && IsLow(points[i + 1]))
  }

  // ----- The pieces that are written

  function PiecesOf(c: int, style: Style): seq<Piece>
    requires IsPoint(c)
  {
    if style.Raw? && MayStandRaw(c) then [Plain(c as char)]
    else if style.Letter? && LetterOf(c).Some? then [Short(LetterOf(c).value)]
    else if c < 0x10000 then [Coded(c, Case(style), 0)]
    else [Coded(HighHalf(c), Case(style), 0), Coded(LowHalf(c), Case(style), 4)]
  }

  function Coded(n: int, upper: nat -> bool, from: nat): Piece
    requires 0 <= n < 0x10000
  {
    Hex(FourDigits(n, upper, from))
  }

  function AllPieces(points: seq<int>, styles: seq<Style>): seq<Piece>
    requires |styles| == |points| && forall c :: c in points ==> IsPoint(c)
  {
    if points == [] then [] else PiecesOf(points[0], styles[0]) + AllPieces(points[1..], styles[1..])
  }

  lemma DigitValue(d: int, upper: bool)
    requires 0 <= d < 16
    ensures IsHexDigit(DigitOf(d, upper)) && HexValue(DigitOf(d, upper)) == d
  {
    assert d == 0 || d == 1 || d == 2 || d == 3 || d == 4 || d == 5 || d == 6 || d == 7
        || d == 8 || d == 9 || d == 10 || d == 11 || d == 12 || d == 13 || d == 14 || d == 15;
  }

  lemma FourParts(n: int)
    requires 0 <= n < 0x10000
    ensures n == (n / 0x1000) * 0x1000 + (n / 0x100 % 0x10) * 0x100 + (n / 0x10 % 0x10) * 0x10 + n % 0x10
  {
    var a := n / 0x10;
    var b := a / 0x10;
    assert n / 0x100 == b && n / 0x1000 == b / 0x10;
  }

  lemma FourValue(n: int, upper: nat -> bool, from: nat)
    requires 0 <= n < 0x10000
    ensures var h := FourDigits(n, upper, from); IsHex4(h) && Hex4Value(h) == n
  {
    DigitValue(n / 0x1000, upper(from));
    DigitValue(n / 0x100 % 0x10, upper(from + 1));
    DigitValue(n / 0x10 % 0x10, upper(from + 2));
    DigitValue(n % 0x10, upper(from + 3));
    FourParts(n);
  }

  lemma CodedIs(n: int, upper: nat -> bool, from: nat)
    requires 0 <= n < 0x10000
    ensures PieceOk(Coded(n, upper, from)) && PieceCode(Coded(n, upper, from)) == n
  {
    FourValue(n, upper, from);
  }

  lemma Halves(c: int)
    requires 0x10000 <= c <= 0x10FFFF
    ensures IsHigh(HighHalf(c)) && IsLow(LowHalf(c))
    ensures c == JoinSurrogates(HighHalf(c), LowHalf(c))
  {
  }

  lemma LetterValue(c: int)
    requires LetterOf(c).Some?
    ensures IsShortEscape(LetterOf(c).value) && ShortValue(LetterOf(c).value) == c
  {
  }

  /** A point that is one piece. */
  lemma SinglePiece(c: int, style: Style)
    requires IsPoint(c) && (c < 0x10000 || style.Raw?)
    ensures |PiecesOf(c, style)| == 1 && PieceOk(PiecesOf(c, style)[0]) && PieceCode(PiecesOf(c, style)[0]) == c
  {
    if style.Raw? && MayStandRaw(c) {
    } else if style.Letter? && LetterOf(c).Some? {
      LetterValue(c);
    } else {
      CodedIs(c, Case(style), 0);
    }
  }

  /** A point that is two pieces. */
  lemma TwoPieces(c: int, style: Style)
    requires 0x10000 <= c <= 0x10FFFF && !style.Raw?
    ensures var ps := PiecesOf(c, style);
            && |ps| == 2 && PieceOk(ps[0]) && PieceOk(ps[1]) && IsHighSurrogate(ps[0]) && IsLowSurrogate(ps[1])
            && c == JoinSurrogates(PieceCode(ps[0]), PieceCode(ps[1]))
  {
    Halves(c);
    CodedIs(HighHalf(c), Case(style), 0);
    CodedIs(LowHalf(c), Case(style), 4);
    assert LetterOf(c).None?;
    assert PiecesOf(c, style) == [Coded(HighHalf(c), Case(style), 0), Coded(LowHalf(c), Case(style), 4)];
  }

  lemma PiecesOfOk(c: int, style: Style)
    requires IsPoint(c)
    ensures PiecesOk(PiecesOf(c, style))
  {
    if c < 0x10000 || style.Raw? {
      SinglePiece(c, style);
    } else {
      TwoPieces(c, style);
    }
  }

  lemma {:induction false} AllPiecesOk(points: seq<int>, styles: seq<Style>)
    requires |styles| == |points| && forall c :: c in points ==> IsPoint(c)
    ensures PiecesOk(AllPieces(points, styles))
  {
    if points != [] {
      PiecesOfOk(points[0], styles[0]);
      AllPiecesOk(points[1..], styles[1..]);
    }
  }

  lemma SpellOne(p: Piece, ps: seq<Piece>, k: string)
    ensures SpellPieces([p] + ps, k) == SpellPiece(p) + SpellPieces(ps, k)
  {
    assert ([p] + ps)[1..] == ps;
  }

  lemma SpellTwo(p: Piece, q: Piece, ps: seq<Piece>, k: string)
    ensures SpellPieces([p, q] + ps, k) == (SpellPiece(p) + SpellPiece(q)) + SpellPieces(ps, k)
  {
    assert [p, q] + ps == [p] + ([q] + ps);
    SpellOne(p, [q] + ps, k);
    SpellOne(q, ps, k);
    Regroup(SpellPiece(p), SpellPiece(q), SpellPieces(ps, k));
  }

  lemma SpellPoint(c: int, style: Style, ps: seq<Piece>, k: string)
    requires IsPoint(c)
    ensures SpellPieces(PiecesOf(c, style) + ps, k) == WritePoint(c, style) + SpellPieces(ps, k)
  {
    var first := PiecesOf(c, style);
    if |first| == 1 {
      SpellOne(first[0], ps, k);
    } else {
      SpellTwo(first[0], first[1], ps, k);
    }
  }

  lemma {:induction false} WritePointsIs(points: seq<int>, styles: seq<Style>, k: string)
    requires |styles| == |points| && forall c :: c in points ==> IsPoint(c)
    ensures WritePoints(points, styles, k) == SpellPieces(AllPieces(points, styles), k)
  {
    if points != [] {
      WritePointsIs(points[1..], styles[1..], k);
      SpellPoint(points[0], styles[0], AllPieces(points[1..], styles[1..]), k);
    }
  }

  // ----- What the pieces stand for

  /** The first piece of a point is a low surrogate only if the point is one. */
  lemma FirstPiece(c: int, style: Style)
    requires IsPoint(c) && !IsLow(c)
    ensures PieceOk(PiecesOf(c, style)[0]) && !IsLowSurrogate(PiecesOf(c, style)[0])
  {
    if c < 0x10000 || style.Raw? {
      SinglePiece(c, style);
    } else {
      TwoPieces(c, style);
    }
  }

  lemma OnePoint(p: Piece, ps: seq<Piece>)
    requires PieceOk(p) && PiecesOk(ps) && !(IsHighSurrogate(p) && ps != [] && IsLowSurrogate(ps[0]))
    ensures PiecesOk([p] + ps) && Points([p] + ps) == [PieceCode(p)] + Points(ps)
  {
    assert ([p] + ps)[1..] == ps;
  }

  lemma JoinedPoint(p: Piece, q: Piece, ps: seq<Piece>)
    requires PieceOk(p) && PieceOk(q) && PiecesOk(ps) && IsHighSurrogate(p) && IsLowSurrogate(q)
    ensures PiecesOk([p, q] + ps)
    ensures Points([p, q] + ps) == [JoinSurrogates(PieceCode(p), PieceCode(q))] + Points(ps)
  {
    assert ([p, q] + ps)[2..] == ps;
  }

  lemma ReadOne(first: seq<Piece>, c: int, ps: seq<Piece>)
    requires |first| == 1 && PieceOk(first[0]) && PieceCode(first[0]) == c
    requires PiecesOk(ps) && (IsHigh(c) && ps != [] ==> !IsLowSurrogate(ps[0]))
    ensures PiecesOk(first + ps) && Points(first + ps) == [c] + Points(ps)
  {
    OnePoint(first[0], ps);
    assert first == [first[0]];
  }

  lemma ReadTwo(first: seq<Piece>, c: int, ps: seq<Piece>)
    requires |first| == 2 && PieceOk(first[0]) && PieceOk(first[1]) && PiecesOk(ps)
    requires IsHighSurrogate(first[0]) && IsLowSurrogate(first[1])
    requires c == JoinSurrogates(PieceCode(first[0]), PieceCode(first[1]))
    ensures PiecesOk(first + ps) && Points(first + ps) == [c] + Points(ps)
  {
    JoinedPoint(first[0], first[1], ps);
    assert first == [first[0], first[1]];
  }

  lemma PointRead(c: int, style: Style, ps: seq<Piece>)
    requires IsPoint(c) && PiecesOk(ps) && (IsHigh(c) && ps != [] ==> !IsLowSurrogate(ps[0]))
    ensures PiecesOk(PiecesOf(c, style) + ps) && Points(PiecesOf(c, style) + ps) == [c] + Points(ps)
  {
    if c < 0x10000 || style.Raw? {
      SinglePiece(c, style);
      ReadOne(PiecesOf(c, style), c, ps);
    } else {
      TwoPieces(c, style);
      ReadTwo(PiecesOf(c, style), c, ps);
    }
  }

  lemma {:induction false} PointsOfPieces(points: seq<int>, styles: seq<Style>)
    requires Writable(points) && |styles| == |points|
    ensures PiecesOk(AllPieces(points, styles)) && Points(AllPieces(points, styles)) == points
  {
    AllPiecesOk(points, styles);
    if points != [] {
      var c, ps := points[0], AllPieces(points[1..], styles[1..]);
      PointsOfPieces(points[1..], styles[1..]);
      if |points| > 1 && !IsLow(points[1]) {
        FirstPiece(points[1], styles[1]);
        assert ps[0] == PiecesOf(points[1], styles[1])[0];
      }
      PointRead(c, styles[0], ps);
      assert points == [c] + points[1..];
    }
  }

  /** However a list of code points is written between quotes, the decoder reads exactly
      that list and leaves what follows. */
  lemma WrittenRead(points: seq<int>, styles: seq<Style>, k: string)
    requires Writable(points) && |styles| == |points|
    ensures Value(['"'] + WritePoints(points, styles, k)) == Ok(Text(points), k)
  {
    PointsOfPieces(points, styles);
    WritePointsIs(points, styles, k);
    PiecesComplete(AllPieces(points, styles), k);
    QuotedComplete(WritePoints(points, styles, k));
  }

  // ----- Every string of the grammar is written this way

  predicate IsUpper(c: char) {
    'A' <= c <= 'F'
  }

  lemma DigitBack(c: char)
    requires IsHexDigit(c)
    ensures 0 <= HexValue(c) < 16 && DigitOf(HexValue(c), IsUpper(c)) == c
  {
    var d := HexValue(c);
    assert d == 0 || d == 1 || d == 2 || d == 3 || d == 4 || d == 5 || d == 6 || d == 7
        || d == 8 || d == 9 || d == 10 || d == 11 || d == 12 || d == 13 || d == 14 || d == 15;
  }

  lemma PartsBack(a: int, b: int, c: int, d: int)
    requires 0 <= a < 16 && 0 <= b < 16 && 0 <= c < 16 && 0 <= d < 16
    ensures var n := a * 0x1000 + b * 0x100 + c * 0x10 + d;
            && 0 <= n < 0x10000 && n / 0x1000 == a && n / 0x100 % 0x10 == b && n / 0x10 % 0x10 == c && n % 0x10 == d
  {
    var n := a * 0x1000 + b * 0x100 + c * 0x10 + d;
    var q := a * 0x100 + b * 0x10 + c;
    var r := a * 0x10 + b;
    assert n == 0x10 * q + d && n / 0x10 == q;
    assert n == 0x100 * r + (c * 0x10 + d) && n / 0x100 == r;
    assert q == 0x10 * r + c;
  }

  lemma HexRange(c: char)
    ensures 0 <= HexValue(c) < 16
  {
  }

  lemma HexParts(h: string, n: int)
    requires |h| == 4 && n == Hex4Value(h)
    ensures 0 <= n < 0x10000 && n / 0x1000 == HexValue(h[0]) && n / 0x100 % 0x10 == HexValue(h[1])
    ensures n / 0x10 % 0x10 == HexValue(h[2]) && n % 0x10 == HexValue(h[3])
  {
    HexRange(h[0]);
    HexRange(h[1]);
    HexRange(h[2]);
    HexRange(h[3]);
    PartsBack(HexValue(h[0]), HexValue(h[1]), HexValue(h[2]), HexValue(h[3]));
  }

  lemma FourBack(h: string, upper: nat -> bool, from: nat)
    requires IsHex4(h) && forall i :: 0 <= i < 4 ==> upper(from + i) == IsUpper(h[i])
    ensures 0 <= Hex4Value(h) < 0x10000 && FourDigits(Hex4Value(h), upper, from) == h
  {
    HexParts(h, Hex4Value(h));
    assert upper(from + 0) == upper(from);
    DigitBack(h[0]);
    DigitBack(h[1]);
    DigitBack(h[2]);
    DigitBack(h[3]);
  }

  function CaseOf(h: string): nat -> bool {
    (i: nat) => i < |h| && IsUpper(h[i])
  }

  /** The style that writes a single piece. */
  function StyleOf(p: Piece): Style {
    match p
    case Plain(_) => Raw
    case Short(_) => Letter
    case Hex(h) => Digits(CaseOf(h))
  }

  lemma PlainCode(c: char)
    requires PieceOk(Plain(c))
    ensures MayStandRaw(c as int) && (c as int) as char == c
  {
  }

  lemma ShortBack(e: char)
    requires IsShortEscape(e)
    ensures IsPoint(ShortValue(e)) && LetterOf(ShortValue(e)) == Some(e)
  {
  }

  lemma PieceBack(p: Piece)
    requires PieceOk(p)
    ensures IsPoint(PieceCode(p)) && PiecesOf(PieceCode(p), StyleOf(p)) == [p]
  {
    match p
    case Plain(c) => PlainCode(c);
    case Short(e) => ShortBack(e);
    case Hex(h) => FourBack(h, CaseOf(h), 0);
  }

  lemma HalvesBack(a: int, b: int)
    requires IsHigh(a) && IsLow(b)
    ensures var c := JoinSurrogates(a, b);
            0x10000 <= c <= 0x10FFFF && HighHalf(c) == a && LowHalf(c) == b
  {
  }

  lemma CodedBack(p: Piece, upper: nat -> bool, from: nat)
    requires PieceOk(p) && p.Hex? && forall i :: 0 <= i < 4 ==> upper(from + i) == IsUpper(p.digits[i])
    ensures 0 <= PieceCode(p) < 0x10000 && Coded(PieceCode(p), upper, from) == p
  {
    FourBack(p.digits, upper, from);
  }

  lemma PairOf(a: int, b: int, upper: nat -> bool, p: Piece, q: Piece)
    requires IsHigh(a) && IsLow(b) && Coded(a, upper, 0) == p && Coded(b, upper, 4) == q
    ensures 0x10000 <= JoinSurrogates(a, b) <= 0x10FFFF && PiecesOf(JoinSurrogates(a, b), Digits(upper)) == [p, q]
  {
    HalvesBack(a, b);
  }

  lemma CaseOfBoth(g: string, h: string)
    requires |g| == 4 && |h| == 4
    ensures forall i :: 0 <= i < 4 ==> CaseOf(g + h)(0 + i) == IsUpper(g[i])
    ensures forall i :: 0 <= i < 4 ==> CaseOf(g + h)(4 + i) == IsUpper(h[i])
  {
  }

  lemma PairBack(p: Piece, q: Piece, upper: nat -> bool)
    requires PieceOk(p) && PieceOk(q) && IsHighSurrogate(p) && IsLowSurrogate(q) && upper == CaseOf(p.digits + q.digits)
    ensures var c := JoinSurrogates(PieceCode(p), PieceCode(q));
            0x10000 <= c <= 0x10FFFF && PiecesOf(c, Digits(upper)) == [p, q]
  {
    CaseOfBoth(p.digits, q.digits);
    CodedBack(p, upper, 0);
    CodedBack(q, upper, 4);
    PairOf(PieceCode(p), PieceCode(q), upper, p, q);
  }

  lemma WritableMore(c: int, points: seq<int>)
    requires IsPoint(c) && Writable(points) && !(IsHigh(c) && points != [] && IsLow(points[0]))
    ensures Writable([c] + points)
  {
    var all := [c] + points;
    forall i | 0 <= i < |all| - 1
      ensures !(IsHigh(all[i]) && IsLow(all[i + 1]))
    {
      assert all[i + 1] == points[i];
      assert i > 0 ==> all[i] == points[i - 1];
    }
  }

  lemma SurrogateIsHex(p: Piece)
    requires PieceOk(p)
    ensures IsHigh(PieceCode(p)) <==> IsHighSurrogate(p)
    ensures IsLow(PieceCode(p)) <==> IsLowSurrogate(p)
  {
  }

  /** A point that is a low surrogate was written by a piece that is one. */
  lemma LowFirst(ps: seq<Piece>)
    requires PiecesOk(ps) && Points(ps) != [] && IsLow(Points(ps)[0])
    ensures ps != [] && IsLowSurrogate(ps[0])
  {
    SurrogateIsHex(ps[0]);
  }

  lemma AllMore(c: int, style: Style, points: seq<int>, styles: seq<Style>)
    requires IsPoint(c) && |styles| == |points| && forall d :: d in points ==> IsPoint(d)
    ensures AllPieces([c] + points, [style] + styles) == PiecesOf(c, style) + AllPieces(points, styles)
  {
    assert ([c] + points)[1..] == points && ([style] + styles)[1..] == styles;
  }

  /** Whether the first two pieces are one point. */
  predicate StartsPair(ps: seq<Piece>)
    requires PiecesOk(ps)
  {
    |ps| >= 2 && IsHighSurrogate(ps[0]) && IsLowSurrogate(ps[1])
  }

  lemma AddPoint(ps: seq<Piece>, n: nat, c: int, style: Style, points: seq<int>, rest: seq<Style>)
    requires n <= |ps| && IsPoint(c) && PiecesOf(c, style) == ps[..n]
    requires Writable(points) && |rest| == |points| && AllPieces(points, rest) == ps[n..]
    requires !(IsHigh(c) && points != [] && IsLow(points[0]))
    ensures Writable([c] + points) && AllPieces([c] + points, [style] + rest) == ps
  {
    WritableMore(c, points);
    AllMore(c, style, points, rest);
    assert ps == ps[..n] + ps[n..];
  }

  lemma AddPair(ps: seq<Piece>, rest: seq<Style>) returns (styles: seq<Style>)
    requires PiecesOk(ps) && StartsPair(ps)
    requires var points := Points(ps[2..]); Writable(points) && |rest| == |points| && AllPieces(points, rest) == ps[2..]
    ensures Writable(Points(ps)) && |styles| == |Points(ps)| && AllPieces(Points(ps), styles) == ps
  {
    var upper := CaseOf(ps[0].digits + ps[1].digits);
    var c := JoinSurrogates(PieceCode(ps[0]), PieceCode(ps[1]));
    PairBack(ps[0], ps[1], upper);
    assert ps[..2] == [ps[0], ps[1]];
    AddPoint(ps, 2, c, Digits(upper), Points(ps[2..]), rest);
    styles := [Digits(upper)] + rest;
  }

  lemma AddSingle(ps: seq<Piece>, rest: seq<Style>) returns (styles: seq<Style>)
    requires PiecesOk(ps) && ps != [] && !StartsPair(ps)
    requires var points := Points(ps[1..]); Writable(points) && |rest| == |points| && AllPieces(points, rest) == ps[1..]
    ensures Writable(Points(ps)) && |styles| == |Points(ps)| && AllPieces(Points(ps), styles) == ps
  {
    var c, style, points := PieceCode(ps[0]), StyleOf(ps[0]), Points(ps[1..]);
    PieceBack(ps[0]);
    SurrogateIsHex(ps[0]);
    if points != [] && IsLow(points[0]) {
      LowFirst(ps[1..]);
    }
    assert ps[..1] == [ps[0]];
    AddPoint(ps, 1, c, style, points, rest);
    styles := [style] + rest;
  }

  /** The pieces of any string are those of its code points in some style. */
  lemma {:induction false} PiecesBack(ps: seq<Piece>) returns (styles: seq<Style>)
    requires PiecesOk(ps)
    ensures Writable(Points(ps)) && |styles| == |Points(ps)| && AllPieces(Points(ps), styles) == ps
    decreases |ps|
  {
    if ps == [] {
      styles := [];
    } else {
      var n := if StartsPair(ps) then 2 else 1;
      var rest := PiecesBack(ps[n..]);
      if StartsPair(ps) {
        styles := AddPair(ps, rest);
      } else {
        styles := AddSingle(ps, rest);
      }
    }
  }
}
