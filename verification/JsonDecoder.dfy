/**
 The value decoder that the streaming reader calls: `json.JSONDecoder().raw_decode`, on
 the text that is in the buffer from the read position on.

 Every parser takes the text still to be read and gives back what is left of it, so that
 "the same decode happens on a longer buffer" reads `Value(s + t) == Ok(v, rest + t)`.
 */
module JsonDecoder {

  /** A decoded value. Text is a sequence of code points (a `\u` escape can denote a lone
      surrogate, which is no `char`); a number is kept as its lexeme. */
  datatype Json =
    | Null
    | Bool(b: bool)
    | Number(lexeme: string)
    | NonFinite(name: string)
    | Text(points: seq<int>)
    | Array(items: seq<Json>)
    | Object(members: seq<(seq<int>, Json)>)

  datatype Parsed<+T> = Ok(value: T, rest: string) | Err

  // ----- Blanks

  predicate IsBlank(c: char) {
    c == ' ' || c == '\t' || c == '\n' || c == '\r'
  }

  function SkipBlank(s: string): (r: string)
    ensures |r| <= |s|
    ensures r != [] ==> !IsBlank(r[0])
  {
    if s != [] && IsBlank(s[0]) then SkipBlank(s[1..]) else s
  }

  // ----- Numbers

  predicate IsDigit(c: char) {
    '0' <= c <= '9'
  }

  function DropDigits(s: string): (r: string)
    ensures |r| <= |s|
    ensures r != [] ==> !IsDigit(r[0])
    ensures s != [] && IsDigit(s[0]) ==> |r| < |s|
  {
    if s != [] && IsDigit(s[0]) then DropDigits(s[1..]) else s
  }

  /** What follows `-?(0|[1-9][0-9]*)`. */
  function DropInteger(s: string): (r: Parsed<()>)
    ensures r.Ok? ==> |r.rest| < |s|
  {
    var u := if s != [] && s[0] == '-' then s[1..] else s;
    if u == [] || !IsDigit(u[0]) then Err
    else if u[0] == '0' then Ok((), u[1..])
    else Ok((), DropDigits(u))
  }

  /** What follows an optional `\.[0-9]+`. */
  function DropFraction(s: string): (r: string)
    ensures |r| <= |s|
  {
    if |s| >= 2 && s[0] == '.' && IsDigit(s[1]) then DropDigits(s[1..]) else s
  }

  predicate IsExponentMark(c: char) {
    c == 'e' || c == 'E'
  }

  function DropSign(s: string): (r: string)
    ensures |r| <= |s|
  {
    if s != [] && (s[0] == '+' || s[0] == '-') then s[1..] else s
  }

  /** What follows an optional `[eE][-+]?[0-9]+`. */
  function DropExponent(s: string): (r: string)
    ensures |r| <= |s|
  {
    if s != [] && IsExponentMark(s[0]) then
      var u := DropSign(s[1..]);
      if u != [] && IsDigit(u[0]) then DropDigits(u) else s
    else s
  }

  function DropNumber(s: string): (r: Parsed<()>)
    ensures r.Ok? ==> |r.rest| < |s|
  {
    match DropInteger(s)
    case Err => Err
    case Ok(_, r) => Ok((), DropExponent(DropFraction(r)))
  }

  // ----- Strings

  /** One element of a quoted string, as written. */
  datatype Piece = Plain(c: char) | Short(e: char) | Hex(digits: string)

  predicate IsShortEscape(c: char) {
    c == '"' || c == '\\' || c == '/' || c == 'b' || c == 'f' || c == 'n' || c == 'r' || c == 't'
  }

  predicate IsHexDigit(c: char) {
    '0' <= c <= '9' || 'a' <= c <= 'f' || 'A' <= c <= 'F'
  }

  predicate IsHex4(h: string) {
    |h| == 4 && IsHexDigit(h[0]) && IsHexDigit(h[1]) && IsHexDigit(h[2]) && IsHexDigit(h[3])
  }

  predicate PieceOk(p: Piece) {
    match p
    case Plain(c) => c != '"' && c != '\\' && c as int >= 0x20
    case Short(e) => IsShortEscape(e)
    case Hex(h) => IsHex4(h)
  }

  /** The string after its opening quote, up to and including the closing one. */
  function Pieces(s: string): (r: Parsed<seq<Piece>>)
    ensures r.Ok? ==> |r.rest| < |s|
    ensures r.Ok? ==> forall p :: p in r.value ==> PieceOk(p)
  {
    if s == [] then Err
    else if s[0] == '"' then Ok([], s[1..])
    else if s[0] == '\\' then
      if |s| >= 6 && s[1] == 'u' && IsHex4(s[2..6]) then PutPiece(Hex(s[2..6]), Pieces(s[6..]))
      else if |s| >= 2 && IsShortEscape(s[1]) then PutPiece(Short(s[1]), Pieces(s[2..]))
      else Err
    else if s[0] as int < 0x20 then Err
    else PutPiece(Plain(s[0]), Pieces(s[1..]))
  }

  function PutPiece(p: Piece, r: Parsed<seq<Piece>>): Parsed<seq<Piece>> {
    match r
    case Err => Err
    case Ok(ps, rest) => Ok([p] + ps, rest)
  }

  function HexValue(c: char): int {
    if '0' <= c <= '9' then c as int - '0' as int
    else if 'a' <= c <= 'f' then c as int - 'a' as int + 10
    else if 'A' <= c <= 'F' then c as int - 'A' as int + 10
    else 0
  }

  function Hex4Value(h: string): int
    requires |h| == 4
  {
    HexValue(h[0]) * 0x1000 + HexValue(h[1]) * 0x100 + HexValue(h[2]) * 0x10 + HexValue(h[3])
  }

  function ShortValue(e: char): int {
    match e
    case 'b' => 8
    case 'f' => 12
    case 'n' => 10
    case 'r' => 13
    case 't' => 9
    case _ => e as int
  }

  function PieceCode(p: Piece): int
    requires PieceOk(p)
  {
    match p
    case Plain(c) => c as int
    case Short(e) => ShortValue(e)
    case Hex(h) => Hex4Value(h)
  }

  predicate IsHighSurrogate(p: Piece)
    requires PieceOk(p)
  {
    p.Hex? && 0xD800 <= PieceCode(p) <= 0xDBFF
  }

  predicate IsLowSurrogate(p: Piece)
    requires PieceOk(p)
  {
    p.Hex? && 0xDC00 <= PieceCode(p) <= 0xDFFF
  }

  /** The code points of a string: an escaped high surrogate directly followed by an
      escaped low one is one code point, every other piece stands for itself. */
  function Points(ps: seq<Piece>): (r: seq<int>)
    requires forall p :: p in ps ==> PieceOk(p)
  {
    if ps == [] then []
    else if |ps| >= 2 && IsHighSurrogate(ps[0]) && IsLowSurrogate(ps[1]) then
      [JoinSurrogates(PieceCode(ps[0]), PieceCode(ps[1]))] + Points(ps[2..])
    else [PieceCode(ps[0])] + Points(ps[1..])
  }

  function JoinSurrogates(high: int, low: int): int {
    0x10000 + (high - 0xD800) * 0x400 + (low - 0xDC00)
  }

  // ----- Values

  function Literal(s: string, word: string, v: Json): (r: Parsed<Json>) {
    if word <= s then Ok(v, s[|word|..]) else Err
  }

  /** A literal or a number. */
  function Scalar(s: string): (r: Parsed<Json>)
    ensures r.Ok? ==> |r.rest| < |s| && !r.value.Object?
  {
    if s == [] then Err
    else if s[0] == 'n' then Literal(s, "null", Null)
    else if s[0] == 't' then Literal(s, "true", Bool(true))
    else if s[0] == 'f' then Literal(s, "false", Bool(false))
    else if s[0] == 'N' then Literal(s, "NaN", NonFinite("NaN"))
    else if s[0] == 'I' then Literal(s, "Infinity", NonFinite("Infinity"))
    else if |s| >= 2 && s[0] == '-' && s[1] == 'I' then Literal(s, "-Infinity", NonFinite("-Infinity"))
    else
      match DropNumber(s)
      case Ok(_, rest) => Ok(Number(s[..|s| - |rest|]), rest)
      case Err => Err
  }

  /** `scan_once`: one value from the start of `s`. */
  function Value(s: string): (r: Parsed<Json>)
    ensures r.Ok? ==> |r.rest| < |s|
    ensures r.Ok? ==> (r.value.Object? <==> s[0] == '{')
    decreases |s|, 0
  {
    if s == [] then Err
    else if s[0] == '"' then
      match Pieces(s[1..])
      case Err => Err
      case Ok(ps, rest) => Ok(Text(Points(ps)), rest)
    else if s[0] == '{' then
      var u := SkipBlank(s[1..]);
      if u != [] && u[0] == '}' then Ok(Object([]), u[1..])
      else
        match Members(u)
        case Err => Err
        case Ok(ms, rest) => Ok(Object(ms), rest)
    else if s[0] == '[' then
      var u := SkipBlank(s[1..]);
      if u != [] && u[0] == ']' then Ok(Array([]), u[1..])
      else
        match Elements(u)
        case Err => Err
        case Ok(vs, rest) => Ok(Array(vs), rest)
    else Scalar(s)
  }

  /** What comes after an element or member: the closing bracket (`false`), or a comma and
      the blanks behind it (`true`). */
  function Separator(s: string, close: char): (r: Parsed<bool>)
    ensures r.Ok? ==> |r.rest| < |s|
  {
    var u := SkipBlank(s);
    if u != [] && u[0] == close then Ok(false, u[1..])
    else if u != [] && u[0] == ',' then Ok(true, SkipBlank(u[1..]))
    else Err
  }

  /** The elements of a non-empty array, up to and including the closing bracket. */
  function Elements(s: string): (r: Parsed<seq<Json>>)
    ensures r.Ok? ==> |r.rest| < |s|
    decreases |s|, 1
  {
    match Value(s)
    case Err => Err
    case Ok(v, rest) =>
      match Separator(rest, ']')
      case Err => Err
      case Ok(more, u) =>
        if !more then Ok([v], u)
        else
          match Elements(u)
          case Err => Err
          case Ok(vs, rest') => Ok([v] + vs, rest')
  }

  /** A quoted key, the colon and the blanks around it. */
  function Key(s: string): (r: Parsed<seq<int>>)
    ensures r.Ok? ==> |r.rest| < |s|
  {
    if s == [] || s[0] != '"' then Err
    else
      match Pieces(s[1..])
      case Err => Err
      case Ok(ps, rest) =>
        var u := SkipBlank(rest);
        if u != [] && u[0] == ':' then Ok(Points(ps), SkipBlank(u[1..])) else Err
  }

  function Member(s: string): (r: Parsed<(seq<int>, Json)>)
    ensures r.Ok? ==> |r.rest| < |s|
    decreases |s|, 1
  {
    match Key(s)
    case Err => Err
    case Ok(k, vs) =>
      match Value(vs)
      case Err => Err
      case Ok(v, rest) => Ok((k, v), rest)
  }

  /** The members of a non-empty object, up to and including the closing brace. */
  function Members(s: string): (r: Parsed<seq<(seq<int>, Json)>>)
    ensures r.Ok? ==> |r.rest| < |s|
    decreases |s|, 2
  {
    match Member(s)
    case Err => Err
    case Ok(m, rest) =>
      match Separator(rest, '}')
      case Err => Err
      case Ok(more, u) =>
        if !more then Ok([m], u)
        else
          match Members(u)
          case Err => Err
          case Ok(ms, rest') => Ok([m] + ms, rest')
  }

  // ----- Prefix stability: a decode that succeeds on a partial buffer

  lemma {:induction false} SkipBlankStable(s: string, t: string)
    requires SkipBlank(s) != []
    ensures SkipBlank(s + t) == SkipBlank(s) + t
  {
    if s != [] && IsBlank(s[0]) {
      assert (s + t)[1..] == s[1..] + t;
      SkipBlankStable(s[1..], t);
    }
  }

  lemma {:induction false} DropDigitsStable(s: string, t: string)
    requires DropDigits(s) != []
    ensures DropDigits(s + t) == DropDigits(s) + t
  {
    if s != [] && IsDigit(s[0]) {
      assert (s + t)[1..] == s[1..] + t;
      DropDigitsStable(s[1..], t);
    }
  }

  /** The text after a number can neither lengthen it nor turn into a fraction or an exponent. */
  predicate Delimited(rest: string) {
    rest != [] && !IsDigit(rest[0]) && rest[0] != '.' && !IsExponentMark(rest[0])
  }

  lemma DropIntegerStable(s: string, t: string)
    requires DropInteger(s).Ok?
    ensures DropInteger(s + t).Ok?
    ensures DropInteger(s).rest != [] ==> DropInteger(s + t).rest == DropInteger(s).rest + t
  {
    var u := if s[0] == '-' then s[1..] else s;
    var u' := if s[0] == '-' then (s + t)[1..] else s + t;
    assert u' == u + t;
    if u[0] == '0' {
      assert (u + t)[1..] == u[1..] + t;
    } else if DropDigits(u) != [] {
      DropDigitsStable(u, t);
    }
  }

  lemma DropFractionStable(s: string, t: string)
    requires DropFraction(s) != [] && DropFraction(s)[0] != '.'
    ensures DropFraction(s + t) == DropFraction(s) + t
  {
    if |s| >= 2 && s[0] == '.' && IsDigit(s[1]) {
      assert (s + t)[1..] == s[1..] + t;
      DropDigitsStable(s[1..], t);
    }
  }

  lemma DropExponentStable(s: string, t: string)
    requires DropExponent(s) != [] && !IsExponentMark(DropExponent(s)[0])
    ensures DropExponent(s + t) == DropExponent(s) + t
  {
    if IsExponentMark(s[0]) {
      var u := DropSign(s[1..]);
      assert DropSign((s + t)[1..]) == u + t by {
        assert (s + t)[1..] == s[1..] + t;
        assert s[1..] != [] && DropSign(s[1..]) != [];
        if s[1] == '+' || s[1] == '-' {
          assert (s[1..] + t)[1..] == s[1..][1..] + t;
        }
      }
      DropDigitsStable(u, t);
    }
  }

  lemma DropNumberStable(s: string, t: string)
    requires DropNumber(s).Ok?
    ensures DropNumber(s + t).Ok?
    ensures Delimited(DropNumber(s).rest) ==> DropNumber(s + t).rest == DropNumber(s).rest + t
  {
    DropIntegerStable(s, t);
    if Delimited(DropNumber(s).rest) {
      var r := DropInteger(s).rest;
      var f := DropFraction(r);
      assert f != [] && f[0] != '.';
      DropFractionStable(r, t);
      DropExponentStable(f, t);
    }
  }

  lemma {:induction false} PiecesStable(s: string, t: string)
    requires Pieces(s).Ok?
    ensures Pieces(s + t) == Ok(Pieces(s).value, Pieces(s).rest + t)
  {
    if s[0] == '"' {
      assert (s + t)[1..] == s[1..] + t;
    } else if s[0] == '\\' {
      if s[1] == 'u' {
        assert (s + t)[2..6] == s[2..6];
        assert (s + t)[6..] == s[6..] + t;
        PiecesStable(s[6..], t);
      } else {
        assert (s + t)[2..] == s[2..] + t;
        PiecesStable(s[2..], t);
      }
    } else {
      assert (s + t)[1..] == s[1..] + t;
      PiecesStable(s[1..], t);
    }
  }

  lemma KeyStable(s: string, t: string)
    requires Key(s).Ok? && Key(s).rest != []
    ensures Key(s + t) == Ok(Key(s).value, Key(s).rest + t)
  {
    assert (s + t)[1..] == s[1..] + t;
    PiecesStable(s[1..], t);
    var rest := Pieces(s[1..]).rest;
    SkipBlankStable(rest, t);
    var u := SkipBlank(rest);
    assert (u + t)[1..] == u[1..] + t;
    SkipBlankStable(u[1..], t);
  }

  /** Whatever decodes on a partial buffer, except a number the buffer may have cut short,
      decodes to the same value and leaves the same text when more of the file is there. */
  lemma {:induction false} ValueStable(s: string, t: string)
    requires Value(s).Ok?
    requires Value(s).value.Number? ==> Delimited(Value(s).rest)
    ensures Value(s + t) == Ok(Value(s).value, Value(s).rest + t)
    decreases |s|, 0
  {
    assert (s + t)[1..] == s[1..] + t;
    if s[0] == '"' {
      PiecesStable(s[1..], t);
    } else if s[0] == '{' || s[0] == '[' {
      var u := SkipBlank(s[1..]);
      SkipBlankStable(s[1..], t);
      assert (u + t)[1..] == u[1..] + t;
      if s[0] == '{' && u[0] != '}' {
        MembersStable(u, t);
      } else if s[0] == '[' && u[0] != ']' {
        ElementsStable(u, t);
      }
    } else {
      ScalarStable(s, t);
    }
  }

  lemma LiteralStable(s: string, t: string, word: string, v: Json)
    requires Literal(s, word, v).Ok?
    ensures Literal(s + t, word, v) == Ok(v, Literal(s, word, v).rest + t)
  {
    assert (s + t)[|word|..] == s[|word|..] + t;
  }

  /** A text that starts with a number is decoded as that number. */
  lemma ScalarNumber(s: string)
    requires DropNumber(s).Ok?
    ensures s[0] !in "\"{[ntfNI"
    ensures Scalar(s) == Ok(Number(s[..|s| - |DropNumber(s).rest|]), DropNumber(s).rest)
  {
  }

  lemma NumberStable(s: string, t: string)
    requires DropNumber(s).Ok?
    ensures Scalar(s + t).Ok?
    ensures Delimited(Scalar(s).rest) ==> Scalar(s + t) == Ok(Scalar(s).value, Scalar(s).rest + t)
  {
    DropNumberStable(s, t);
    ScalarNumber(s);
    ScalarNumber(s + t);
    var rest := DropNumber(s).rest;
    assert (s + t)[..|s + t| - |rest + t|] == s[..|s| - |rest|];
  }

  lemma ScalarStable(s: string, t: string)
    requires Scalar(s).Ok?
    ensures Scalar(s + t).Ok?
    ensures (Scalar(s).value.Number? ==> Delimited(Scalar(s).rest))
            ==> Scalar(s + t) == Ok(Scalar(s).value, Scalar(s).rest + t)
  {
    if s[0] == 'n' {
      LiteralStable(s, t, "null", Null);
    } else if s[0] == 't' {
      LiteralStable(s, t, "true", Bool(true));
    } else if s[0] == 'f' {
      LiteralStable(s, t, "false", Bool(false));
    } else if s[0] == 'N' {
      LiteralStable(s, t, "NaN", NonFinite("NaN"));
    } else if s[0] == 'I' {
      LiteralStable(s, t, "Infinity", NonFinite("Infinity"));
    } else if |s| >= 2 && s[0] == '-' && s[1] == 'I' {
      LiteralStable(s, t, "-Infinity", NonFinite("-Infinity"));
    } else {
      NumberStable(s, t);
    }
  }

  /** The blanks, comma or bracket that must follow an item also close a number. */
  lemma SeparatorStable(s: string, t: string, close: char)
    requires close == ']' || close == '}'
    requires Separator(s, close).Ok?
    requires Separator(s, close).value ==> Separator(s, close).rest != []
    ensures Delimited(s)
    ensures Separator(s + t, close) == Ok(Separator(s, close).value, Separator(s, close).rest + t)
  {
    var u := SkipBlank(s);
    SkipBlankStable(s, t);
    assert (u + t)[1..] == u[1..] + t;
    if u[0] == ',' {
      SkipBlankStable(u[1..], t);
    }
  }

  lemma {:induction false} ElementsStable(s: string, t: string)
    requires Elements(s).Ok?
    ensures Elements(s + t) == Ok(Elements(s).value, Elements(s).rest + t)
    decreases |s|, 1
  {
    var rest := Value(s).rest;
    SeparatorStable(rest, t, ']');
    ValueStable(s, t);
    var sep := Separator(rest, ']');
    if sep.value {
      ElementsStable(sep.rest, t);
    }
  }

  lemma {:induction false} MemberStable(s: string, t: string)
    requires Member(s).Ok? && Delimited(Member(s).rest)
    ensures Member(s + t) == Ok(Member(s).value, Member(s).rest + t)
    decreases |s|, 1
  {
    KeyStable(s, t);
    ValueStable(Key(s).rest, t);
  }

  lemma {:induction false} MembersStable(s: string, t: string)
    requires Members(s).Ok?
    ensures Members(s + t) == Ok(Members(s).value, Members(s).rest + t)
    decreases |s|, 2
  {
    var rest := Member(s).rest;
    SeparatorStable(rest, t, '}');
    MemberStable(s, t);
    var sep := Separator(rest, '}');
    if sep.value {
      MembersStable(sep.rest, t);
    }
  }

  /** An early decode never changes what the reader does: an object is final, and a value
      of any other kind stays a value of another kind. */
  lemma EarlyDecode(s: string, t: string)
    requires Value(s).Ok?
    ensures Value(s + t).Ok?
    ensures Value(s).value.Object? ==> Value(s + t) == Ok(Value(s).value, Value(s).rest + t)
    ensures !Value(s).value.Object? ==> !Value(s + t).value.Object?
  {
    if Value(s).value.Number? {
      ScalarStable(s, t);
    } else {
      ValueStable(s, t);
    }
  }
}
