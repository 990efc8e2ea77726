/**
 The JSON grammar (sections 2 to 7 of RFC 8259, with the three non-finite literals that
 Python's decoder adds), given as syntax trees that keep the blanks and the escapes as
 written, and the proof that the decoder recognises exactly this grammar.

 `Spell(t, k)` is the text of the tree `t` followed by the text `k`.
 */
module JsonGrammar {
  import opened JsonDecoder

  datatype Tree =
    | Word(text: string)
    | Num(n: Numeral)
    | Quoted(pieces: seq<Piece>)
    | EmptyArray(blank: string)
    | ArrayOf(blank: string, items: Items)
    | EmptyObject(blank: string)
    | ObjectOf(blank: string, fields: Fields)

  /** Section 6: sign, integer, fraction (empty when absent), exponent (empty when absent). */
  datatype Numeral = Numeral(minus: bool, whole: string, frac: string, mark: string, exp: string)

  /** An element and the blanks after it, and, unless it is the last, the blanks after the
      comma and the other elements. */
  datatype Items =
    | LastItem(v: Tree, after: string)
    | MoreItems(v: Tree, after: string, before: string, next: Items)

  datatype Field = Field(key: seq<Piece>, afterKey: string, beforeValue: string, v: Tree)

  datatype Fields =
    | LastField(f: Field, after: string)
    | MoreFields(f: Field, after: string, before: string, next: Fields)

  // ----- Well-formedness

  predicate Blanks(s: string) {
    forall i :: 0 <= i < |s| ==> IsBlank(s[i])
  }

  predicate AllDigits(s: string) {
    forall i :: 0 <= i < |s| ==> IsDigit(s[i])
  }

  predicate IsMark(s: string) {
    1 <= |s| <= 2 && IsExponentMark(s[0]) && (|s| == 2 ==> s[1] == '+' || s[1] == '-')
  }

  predicate NumeralOk(n: Numeral) {
    && n.whole != [] && AllDigits(n.whole) && (n.whole[0] == '0' ==> |n.whole| == 1)
    && AllDigits(n.frac) && AllDigits(n.exp)
    && (n.exp == [] ==> n.mark == []) && (n.exp != [] ==> IsMark(n.mark))
  }

  predicate PiecesOk(ps: seq<Piece>) {
    forall p :: p in ps ==> PieceOk(p)
  }

  predicate IsWord(w: string) {
    w == "null" || w == "true" || w == "false" || w == "NaN" || w == "Infinity" || w == "-Infinity"
  }

  predicate TreeOk(t: Tree) {
    match t
    case Word(w) => IsWord(w)
    case Num(n) => NumeralOk(n)
    case Quoted(ps) => PiecesOk(ps)
    case EmptyArray(b) => Blanks(b)
    case ArrayOf(b, items) => Blanks(b) && ItemsOk(items)
    case EmptyObject(b) => Blanks(b)
    case ObjectOf(b, fields) => Blanks(b) && FieldsOk(fields)
  }

  predicate ItemsOk(items: Items) {
    match items
    case LastItem(v, after) => TreeOk(v) && Blanks(after)
    case MoreItems(v, after, before, next) => TreeOk(v) && Blanks(after) && Blanks(before) && ItemsOk(next)
  }

  predicate FieldOk(f: Field) {
    PiecesOk(f.key) && Blanks(f.afterKey) && Blanks(f.beforeValue) && TreeOk(f.v)
  }

  predicate FieldsOk(fields: Fields) {
    match fields
    case LastField(f, after) => FieldOk(f) && Blanks(after)
    case MoreFields(f, after, before, next) => FieldOk(f) && Blanks(after) && Blanks(before) && FieldsOk(next)
  }

  // ----- Spelling

  function SpellPiece(p: Piece): string {
    match p
    case Plain(c) => [c]
    case Short(e) => ['\\', e]
    case Hex(h) => ['\\', 'u'] + h
  }

  function SpellPieces(ps: seq<Piece>, k: string): string {
    if ps == [] then ['"'] + k else SpellPiece(ps[0]) + SpellPieces(ps[1..], k)
  }

  function SpellExponent(n: Numeral, k: string): string {
    if n.exp == [] then k else n.mark + (n.exp + k)
  }

  function SpellFraction(n: Numeral, k: string): string {
    if n.frac == [] then SpellExponent(n, k) else ['.'] + (n.frac + SpellExponent(n, k))
  }

  function SpellWhole(n: Numeral, k: string): string {
    n.whole + SpellFraction(n, k)
  }

  function SpellNumeral(n: Numeral, k: string): string {
    if n.minus then ['-'] + SpellWhole(n, k) else SpellWhole(n, k)
  }

  function Spell(t: Tree, k: string): string {
    match t
    case Word(w) => w + k
    case Num(n) => SpellNumeral(n, k)
    case Quoted(ps) => ['"'] + SpellPieces(ps, k)
    case EmptyArray(b) => ['['] + (b + ([']'] + k))
    case ArrayOf(b, items) => ['['] + (b + SpellItems(items, k))
    case EmptyObject(b) => ['{'] + (b + (['}'] + k))
    case ObjectOf(b, fields) => ['{'] + (b + SpellFields(fields, k))
  }

  function SpellItems(items: Items, k: string): string {
    match items
    case LastItem(v, after) => Spell(v, after + ([']'] + k))
    case MoreItems(v, after, before, next) => Spell(v, after + ([','] + (before + SpellItems(next, k))))
  }

  function SpellField(f: Field, k: string): string {
    ['"'] + SpellPieces(f.key, f.afterKey + ([':'] + (f.beforeValue + Spell(f.v, k))))
  }

  function SpellFields(fields: Fields, k: string): string {
    match fields
    case LastField(f, after) => SpellField(f, after + (['}'] + k))
    case MoreFields(f, after, before, next) => SpellField(f, after + ([','] + (before + SpellFields(next, k))))
  }

  // ----- Meaning

  function WordMeaning(w: string): Json {
    match w
    case "null" => Null
    case "true" => Bool(true)
    case "false" => Bool(false)
    case _ => NonFinite(w)
  }

  function Meaning(t: Tree): Json
    requires TreeOk(t)
  {
    match t
    case Word(w) => WordMeaning(w)
    case Num(n) => Number(SpellNumeral(n, []))
    case Quoted(ps) => Text(Points(ps))
    case EmptyArray(_) => Array([])
    case ArrayOf(_, items) => Array(ItemsMeaning(items))
    case EmptyObject(_) => Object([])
    case ObjectOf(_, fields) => Object(FieldsMeaning(fields))
  }

  function ItemsMeaning(items: Items): seq<Json>
    requires ItemsOk(items)
  {
    match items
    case LastItem(v, _) => [Meaning(v)]
    case MoreItems(v, _, _, next) => [Meaning(v)] + ItemsMeaning(next)
  }

  function FieldMeaning(f: Field): (seq<int>, Json)
    requires FieldOk(f)
  {
    (Points(f.key), Meaning(f.v))
  }

  function FieldsMeaning(fields: Fields): seq<(seq<int>, Json)>
    requires FieldsOk(fields)
  {
    match fields
    case LastField(f, _) => [FieldMeaning(f)]
    case MoreFields(f, _, _, next) => [FieldMeaning(f)] + FieldsMeaning(next)
  }

  // ----- Spelling is concatenation

  lemma {:induction false} SpellPiecesAppend(ps: seq<Piece>, k: string, l: string)
    ensures SpellPieces(ps, k + l) == SpellPieces(ps, k) + l
  {
    if ps != [] {
      SpellPiecesAppend(ps[1..], k, l);
    }
  }

  lemma SpellNumeralAppend(n: Numeral, k: string, l: string)
    ensures SpellNumeral(n, k + l) == SpellNumeral(n, k) + l
  {
    assert SpellExponent(n, k + l) == SpellExponent(n, k) + l;
    assert SpellFraction(n, k + l) == SpellFraction(n, k) + l;
    assert SpellWhole(n, k + l) == SpellWhole(n, k) + l;
  }

  /** The text of a tree does not depend on what follows it. */
  lemma {:induction false} SpellAppend(t: Tree, k: string, l: string)
    ensures Spell(t, k + l) == Spell(t, k) + l
  {
    match t
    case Word(w) => assert w + (k + l) == (w + k) + l;
    case Num(n) => SpellNumeralAppend(n, k, l);
    case Quoted(ps) =>
      SpellPiecesAppend(ps, k, l);
      OpenAppend('"', [], SpellPieces(ps, k), l);
    case EmptyArray(b) => CloseAppend('[', b, ']', k, l);
    case ArrayOf(b, items) =>
      SpellItemsAppend(items, k, l);
      OpenAppend('[', b, SpellItems(items, k), l);
    case EmptyObject(b) => CloseAppend('{', b, '}', k, l);
    case ObjectOf(b, fields) =>
      SpellFieldsAppend(fields, k, l);
      OpenAppend('{', b, SpellFields(fields, k), l);
  }

  lemma OpenAppend(open: char, b: string, u: string, l: string)
    ensures [open] + (b + (u + l)) == ([open] + (b + u)) + l
    ensures [open] + (u + l) == ([open] + u) + l
  {
  }

  lemma CloseAppend(open: char, b: string, close: char, k: string, l: string)
    ensures [open] + (b + ([close] + (k + l))) == ([open] + (b + ([close] + k))) + l
  {
  }

  lemma {:induction false} SpellItemsAppend(items: Items, k: string, l: string)
    ensures SpellItems(items, k + l) == SpellItems(items, k) + l
  {
    match items
    case LastItem(v, after) =>
      assert after + ([']'] + (k + l)) == (after + ([']'] + k)) + l;
      SpellAppend(v, after + ([']'] + k), l);
    case MoreItems(v, after, before, next) =>
      SpellItemsAppend(next, k, l);
      var u := SpellItems(next, k);
      assert after + ([','] + (before + (u + l))) == (after + ([','] + (before + u))) + l;
      SpellAppend(v, after + ([','] + (before + u)), l);
  }

  lemma {:induction false} SpellFieldAppend(f: Field, k: string, l: string)
    ensures SpellField(f, k + l) == SpellField(f, k) + l
  {
    SpellAppend(f.v, k, l);
    var u := Spell(f.v, k);
    assert f.afterKey + ([':'] + (f.beforeValue + (u + l))) == (f.afterKey + ([':'] + (f.beforeValue + u))) + l;
    SpellPiecesAppend(f.key, f.afterKey + ([':'] + (f.beforeValue + u)), l);
  }

  lemma {:induction false} SpellFieldsAppend(fields: Fields, k: string, l: string)
    ensures SpellFields(fields, k + l) == SpellFields(fields, k) + l
  {
    match fields
    case LastField(f, after) =>
      assert after + (['}'] + (k + l)) == (after + (['}'] + k)) + l;
      SpellFieldAppend(f, after + (['}'] + k), l);
    case MoreFields(f, after, before, next) =>
      SpellFieldsAppend(next, k, l);
      var u := SpellFields(next, k);
      assert after + ([','] + (before + (u + l))) == (after + ([','] + (before + u))) + l;
      SpellFieldAppend(f, after + ([','] + (before + u)), l);
  }

  // ----- Completeness: every tree is decoded to its meaning

  lemma {:induction false} SkipBlanks(b: string, k: string)
    requires Blanks(b) && (k != [] ==> !IsBlank(k[0]))
    ensures SkipBlank(b + k) == k
  {
    if b == [] {
      assert b + k == k;
    } else {
      assert (b + k)[1..] == b[1..] + k;
      SkipBlanks(b[1..], k);
    }
  }

  lemma {:induction false} DropAllDigits(d: string, k: string)
    requires AllDigits(d) && (k != [] ==> !IsDigit(k[0]))
    ensures DropDigits(d + k) == k
  {
    if d == [] {
      assert d + k == k;
    } else {
      assert (d + k)[1..] == d[1..] + k;
      DropAllDigits(d[1..], k);
    }
  }

  /** A number may be followed by the end of the text or by anything that does not continue it. */
  predicate Closed(k: string) {
    k == [] || Delimited(k)
  }

  lemma ExponentComplete(n: Numeral, k: string)
    requires NumeralOk(n) && Closed(k)
    ensures DropExponent(SpellExponent(n, k)) == k
  {
    if n.exp != [] {
      var s := SpellExponent(n, k);
      assert DropSign(s[1..]) == n.exp + k by {
        if |n.mark| == 1 {
          assert s[1..] == n.exp + k;
        } else {
          assert s[1..][1..] == n.exp + k;
        }
      }
      DropAllDigits(n.exp, k);
    }
  }

  lemma FractionComplete(n: Numeral, k: string)
    requires NumeralOk(n) && Closed(k)
    ensures DropFraction(SpellFraction(n, k)) == SpellExponent(n, k)
    ensures SpellFraction(n, k) != [] ==> !IsDigit(SpellFraction(n, k)[0])
  {
    if n.frac != [] {
      assert SpellFraction(n, k)[1..] == n.frac + SpellExponent(n, k);
      DropAllDigits(n.frac, SpellExponent(n, k));
    }
  }

  lemma WholeComplete(whole: string, k: string)
    requires whole != [] && AllDigits(whole) && (whole[0] == '0' ==> |whole| == 1) && (k != [] ==> !IsDigit(k[0]))
    ensures DropInteger(whole + k) == Ok((), k)
    ensures DropInteger(['-'] + (whole + k)) == Ok((), k)
  {
    var u := whole + k;
    assert u[0] == whole[0] && (['-'] + u)[1..] == u;
    if whole[0] == '0' {
      assert u[1..] == k;
    } else {
      DropAllDigits(whole, k);
    }
  }

  lemma NumeralComplete(n: Numeral, k: string)
    requires NumeralOk(n) && Closed(k)
    ensures DropNumber(SpellNumeral(n, k)) == Ok((), k)
  {
    FractionComplete(n, k);
    ExponentComplete(n, k);
    WholeComplete(n.whole, SpellFraction(n, k));
  }

  lemma NumComplete(n: Numeral, k: string)
    requires NumeralOk(n) && Closed(k)
    ensures Value(SpellNumeral(n, k)) == Ok(Number(SpellNumeral(n, [])), k)
  {
    var s := SpellNumeral(n, k);
    NumeralComplete(n, k);
    SpellNumeralSplit(n, k);
    ScalarNumber(s);
  }

  lemma SpellNumeralSplit(n: Numeral, k: string)
    ensures var s := SpellNumeral(n, k); |k| <= |s| && s[..|s| - |k|] == SpellNumeral(n, [])
  {
    assert [] + k == k;
    SpellNumeralAppend(n, [], k);
  }

  lemma WordComplete(w: string, k: string)
    requires IsWord(w)
    ensures Value(w + k) == Ok(WordMeaning(w), k)
  {
    assert (w + k)[|w|..] == k;
    assert w <= w + k;
    assert Value(w + k) == Scalar(w + k);
  }

  lemma {:induction false} PiecesComplete(ps: seq<Piece>, k: string)
    requires PiecesOk(ps)
    ensures Pieces(SpellPieces(ps, k)) == Ok(ps, k)
  {
    var s := SpellPieces(ps, k);
    if ps == [] {
      assert s[1..] == k;
    } else {
      PiecesComplete(ps[1..], k);
      assert ps[0] in ps;
      assert [ps[0]] + ps[1..] == ps;
      match ps[0]
      case Plain(c) => assert s[1..] == SpellPieces(ps[1..], k);
      case Short(e) => assert s[2..] == SpellPieces(ps[1..], k);
      case Hex(h) =>
        assert s[2..6] == h;
        assert s[6..] == SpellPieces(ps[1..], k);
    }
  }

  lemma KeyComplete(f: Field, k: string)
    requires FieldOk(f)
    ensures Key(SpellField(f, k)) == Ok(Points(f.key), Spell(f.v, k))
  {
    var s := SpellField(f, k);
    var value := Spell(f.v, k);
    var colon := [':'] + (f.beforeValue + value);
    assert s[1..] == SpellPieces(f.key, f.afterKey + colon);
    PiecesComplete(f.key, f.afterKey + colon);
    SkipBlanks(f.afterKey, colon);
    assert colon[1..] == f.beforeValue + value;
    SpellStart(f.v, k);
    SkipBlanks(f.beforeValue, value);
  }

  predicate StartsValue(s: string) {
    s != [] && !IsBlank(s[0]) && s[0] !in "]},"
  }

  lemma NumeralStart(n: Numeral, k: string)
    requires NumeralOk(n)
    ensures StartsValue(SpellNumeral(n, k))
  {
    assert SpellWhole(n, k)[0] == n.whole[0];
  }

  lemma WordStart(w: string, k: string)
    requires IsWord(w)
    ensures StartsValue(w + k)
  {
    assert w != [] && (w + k)[0] == w[0];
  }

  lemma SpellStart(t: Tree, k: string)
    requires TreeOk(t)
    ensures StartsValue(Spell(t, k))
  {
    match t
    case Num(n) => NumeralStart(n, k);
    case Word(w) => WordStart(w, k);
    case _ =>
  }

  lemma SeparatorComplete(after: string, k: string, close: char)
    requires Blanks(after)
    requires close == ']' || close == '}'
    ensures Separator(after + ([close] + k), close) == Ok(false, k)
    ensures Closed(after + ([close] + k))
  {
    SkipBlanks(after, [close] + k);
    assert ([close] + k)[1..] == k;
  }

  lemma CommaComplete(after: string, before: string, k: string, close: char)
    requires Blanks(after) && Blanks(before) && k != [] && !IsBlank(k[0])
    requires close == ']' || close == '}'
    ensures Separator(after + ([','] + (before + k)), close) == Ok(true, k)
    ensures Closed(after + ([','] + (before + k)))
  {
    var u := [','] + (before + k);
    SkipBlanks(after, u);
    assert u[1..] == before + k;
    SkipBlanks(before, k);
  }

  /** Every spelling of a value, with any blanks and escapes, is decoded to that value and
      leaves exactly the text behind it. */
  lemma {:induction false} ValueComplete(t: Tree, k: string)
    requires TreeOk(t)
    requires t.Num? ==> Closed(k)
    ensures Value(Spell(t, k)) == Ok(Meaning(t), k)
  {
    match t
    case Word(w) => WordComplete(w, k);
    case Num(n) => NumComplete(n, k);
    case Quoted(ps) =>
      PiecesComplete(ps, k);
      QuotedComplete(SpellPieces(ps, k));
    case EmptyArray(b) => EmptyComplete(b, k);
    case ArrayOf(b, items) =>
      ItemsComplete(items, k);
      ArrayComplete(b, SpellItems(items, k));
    case EmptyObject(b) => EmptyComplete(b, k);
    case ObjectOf(b, fields) =>
      FieldsComplete(fields, k);
      ObjectComplete(b, SpellFields(fields, k));
  }

  lemma QuotedComplete(u: string)
    requires Pieces(u).Ok?
    ensures Value(['"'] + u) == Ok(Text(Points(Pieces(u).value)), Pieces(u).rest)
  {
    assert (['"'] + u)[1..] == u;
  }

  lemma Behind(open: char, b: string, u: string)
    requires Blanks(b) && (u != [] ==> !IsBlank(u[0]))
    ensures SkipBlank(([open] + (b + u))[1..]) == u
  {
    assert ([open] + (b + u))[1..] == b + u;
    SkipBlanks(b, u);
  }

  lemma EmptyComplete(b: string, k: string)
    requires Blanks(b)
    ensures Value(['['] + (b + ([']'] + k))) == Ok(Array([]), k)
    ensures Value(['{'] + (b + (['}'] + k))) == Ok(Object([]), k)
  {
    Behind('[', b, [']'] + k);
    Behind('{', b, ['}'] + k);
    assert ([']'] + k)[1..] == k && (['}'] + k)[1..] == k;
  }

  lemma ArrayComplete(b: string, u: string)
    requires Blanks(b) && u != [] && !IsBlank(u[0]) && u[0] != ']' && Elements(u).Ok?
    ensures Value(['['] + (b + u)) == Ok(Array(Elements(u).value), Elements(u).rest)
  {
    Behind('[', b, u);
  }

  lemma ObjectComplete(b: string, u: string)
    requires Blanks(b) && u != [] && !IsBlank(u[0]) && u[0] != '}' && Members(u).Ok?
    ensures Value(['{'] + (b + u)) == Ok(Object(Members(u).value), Members(u).rest)
  {
    Behind('{', b, u);
  }

  lemma {:induction false} ItemsComplete(items: Items, k: string)
    requires ItemsOk(items)
    ensures Elements(SpellItems(items, k)) == Ok(ItemsMeaning(items), k)
    ensures SpellItems(items, k) != [] && !IsBlank(SpellItems(items, k)[0]) && SpellItems(items, k)[0] != ']'
  {
    match items
    case LastItem(v, after) =>
      SeparatorComplete(after, k, ']');
      SpellStart(v, after + ([']'] + k));
      ValueComplete(v, after + ([']'] + k));
    case MoreItems(v, after, before, next) =>
      ItemsComplete(next, k);
      var u := SpellItems(next, k);
      CommaComplete(after, before, u, ']');
      SpellStart(v, after + ([','] + (before + u)));
      ValueComplete(v, after + ([','] + (before + u)));
  }

  lemma {:induction false} FieldComplete(f: Field, k: string)
    requires FieldOk(f) && Closed(k)
    ensures Member(SpellField(f, k)) == Ok(FieldMeaning(f), k)
  {
    KeyComplete(f, k);
    ValueComplete(f.v, k);
  }

  lemma {:induction false} FieldsComplete(fields: Fields, k: string)
    requires FieldsOk(fields)
    ensures Members(SpellFields(fields, k)) == Ok(FieldsMeaning(fields), k)
    ensures SpellFields(fields, k) != [] && SpellFields(fields, k)[0] == '"'
  {
    match fields
    case LastField(f, after) =>
      SeparatorComplete(after, k, '}');
      FieldComplete(f, after + (['}'] + k));
    case MoreFields(f, after, before, next) =>
      FieldsComplete(next, k);
      var u := SpellFields(next, k);
      CommaComplete(after, before, u, '}');
      FieldComplete(f, after + ([','] + (before + u)));
  }

  // ----- Soundness: whatever is decoded is spelled by a tree with that meaning

  /** The part of `s` in front of its suffix `r`. */
  function Front(s: string, r: string): (f: string)
    requires |r| <= |s|
  {
    s[..|s| - |r|]
  }

  /** One more character in front. */
  lemma FrontMore(s: string, r: string)
    requires s != [] && |r| < |s| && s[1..] == Front(s[1..], r) + r
    ensures Front(s, r) == [s[0]] + Front(s[1..], r) && s == Front(s, r) + r
  {
    var f := Front(s[1..], r);
    assert s == [s[0]] + s[1..];
    Regroup([s[0]], f, r);
    FrontOf([s[0]] + f, r);
  }

  lemma Regroup(a: string, b: string, c: string)
    ensures a + (b + c) == (a + b) + c
  {
  }

  lemma FrontOf(f: string, r: string)
    ensures Front(f + r, r) == f
  {
  }

  lemma NothingInFront(s: string)
    ensures Front(s, s) == [] && s == Front(s, s) + s
  {
  }

  lemma {:induction false} BlankFront(s: string)
    ensures var b := Front(s, SkipBlank(s)); Blanks(b) && s == b + SkipBlank(s)
  {
    if s == [] || !IsBlank(s[0]) {
      NothingInFront(s);
    } else {
      BlankFront(s[1..]);
      FrontMore(s, SkipBlank(s[1..]));
    }
  }

  lemma {:induction false} DigitFront(s: string)
    ensures var d := Front(s, DropDigits(s)); AllDigits(d) && s == d + DropDigits(s)
  {
    if s == [] || !IsDigit(s[0]) {
      NothingInFront(s);
    } else {
      DigitFront(s[1..]);
      FrontMore(s, DropDigits(s[1..]));
    }
  }

  lemma {:induction false} PiecesSound(s: string)
    requires Pieces(s).Ok?
    ensures PiecesOk(Pieces(s).value)
    ensures s == SpellPieces(Pieces(s).value, Pieces(s).rest)
  {
    var ps := Pieces(s).value;
    if s[0] != '"' {
      var n := |SpellPiece(ps[0])|;
      PiecesSound(s[n..]);
      assert ps[1..] == Pieces(s[n..]).value;
      assert s == s[..n] + s[n..];
      assert s[..n] == SpellPiece(ps[0]) by {
        if ps[0].Hex? {
          assert s[..6] == s[..2] + s[2..6];
        }
      }
    }
  }

  lemma ExponentSound(s: string) returns (mark: string, exp: string)
    ensures AllDigits(exp) && (exp == [] ==> mark == []) && (exp != [] ==> IsMark(mark))
    ensures s == if exp == [] then DropExponent(s) else mark + (exp + DropExponent(s))
  {
    mark, exp := [], [];
    if s != [] && IsExponentMark(s[0]) {
      var u := DropSign(s[1..]);
      if u != [] && IsDigit(u[0]) {
        DigitFront(u);
        mark, exp := Front(s, u), Front(u, DropDigits(u));
        assert s == mark + u;
      }
    }
  }

  lemma FractionSound(s: string) returns (frac: string)
    ensures AllDigits(frac)
    ensures s == if frac == [] then DropFraction(s) else ['.'] + (frac + DropFraction(s))
  {
    frac := [];
    if |s| >= 2 && s[0] == '.' && IsDigit(s[1]) {
      DigitFront(s[1..]);
      frac := Front(s[1..], DropDigits(s[1..]));
      assert s == ['.'] + s[1..];
    }
  }

  lemma WholeSound(u: string) returns (whole: string)
    requires u != [] && IsDigit(u[0])
    ensures whole != [] && AllDigits(whole) && (whole[0] == '0' ==> |whole| == 1)
    ensures u == whole + if u[0] == '0' then u[1..] else DropDigits(u)
  {
    if u[0] == '0' {
      whole := ['0'];
      assert u == [u[0]] + u[1..];
    } else {
      DigitFront(u);
      whole := Front(u, DropDigits(u));
    }
  }

  lemma IntegerSound(s: string) returns (minus: bool, whole: string)
    requires DropInteger(s).Ok?
    ensures whole != [] && AllDigits(whole) && (whole[0] == '0' ==> |whole| == 1)
    ensures s == if minus then ['-'] + (whole + DropInteger(s).rest) else whole + DropInteger(s).rest
  {
    minus := s[0] == '-';
    if minus {
      assert s == ['-'] + s[1..];
      whole := WholeSound(s[1..]);
    } else {
      whole := WholeSound(s);
    }
  }

  lemma NumeralSound(s: string) returns (n: Numeral)
    requires DropNumber(s).Ok?
    ensures NumeralOk(n) && s == SpellNumeral(n, DropNumber(s).rest)
  {
    var k := DropNumber(s).rest;
    var r := DropInteger(s).rest;
    var minus, whole := IntegerSound(s);
    var frac := FractionSound(r);
    var mark, exp := ExponentSound(DropFraction(r));
    n := Numeral(minus, whole, frac, mark, exp);
    assert SpellExponent(n, k) == DropFraction(r);
    assert SpellFraction(n, k) == r;
  }

  lemma NumberSound(s: string) returns (t: Tree)
    requires DropNumber(s).Ok?
    ensures TreeOk(t) && s == Spell(t, Scalar(s).rest) && Scalar(s) == Ok(Meaning(t), Scalar(s).rest)
  {
    var n := NumeralSound(s);
    t := Num(n);
    SpellNumeralSplit(n, DropNumber(s).rest);
    ScalarNumber(s);
  }

  lemma ScalarSound(s: string) returns (t: Tree)
    requires Scalar(s).Ok?
    ensures TreeOk(t) && s == Spell(t, Scalar(s).rest) && Meaning(t) == Scalar(s).value
  {
    var k := Scalar(s).rest;
    if s[0] == 'n' {
      t := Word("null");
    } else if s[0] == 't' {
      t := Word("true");
    } else if s[0] == 'f' {
      t := Word("false");
    } else if s[0] == 'N' {
      t := Word("NaN");
    } else if s[0] == 'I' {
      t := Word("Infinity");
    } else if |s| >= 2 && s[0] == '-' && s[1] == 'I' {
      t := Word("-Infinity");
    } else {
      t := NumberSound(s);
    }
  }

  lemma SeparatorSound(s: string, close: char) returns (after: string, before: string)
    requires Separator(s, close).Ok?
    ensures Blanks(after) && Blanks(before)
    ensures s == if Separator(s, close).value
                 then after + ([','] + (before + Separator(s, close).rest))
                 else after + ([close] + Separator(s, close).rest)
  {
    var u, rest := SkipBlank(s), Separator(s, close).rest;
    BlankFront(s);
    after, before := Front(s, u), [];
    assert s == after + u && u == [u[0]] + u[1..];
    if Separator(s, close).value {
      BlankFront(u[1..]);
      before := Front(u[1..], rest);
      assert u == [','] + (before + rest);
    } else {
      assert u == [close] + rest;
    }
  }

  /** Whatever the decoder accepts is a spelling of the value it gives, followed by the
      text it leaves. */
  lemma {:induction false} ValueSound(s: string) returns (t: Tree)
    requires Value(s).Ok?
    ensures TreeOk(t) && s == Spell(t, Value(s).rest) && Meaning(t) == Value(s).value
    decreases |s|, 0
  {
    var k := Value(s).rest;
    assert s == [s[0]] + s[1..];
    if s[0] == '"' {
      PiecesSound(s[1..]);
      t := Quoted(Pieces(s[1..]).value);
    } else if s[0] == '{' {
      t := ObjectSound(s);
    } else if s[0] == '[' {
      t := ArraySound(s);
    } else {
      t := ScalarSound(s);
    }
  }

  /** The blanks behind an opening bracket, and what follows them. */
  lemma Opening(s: string) returns (b: string, u: string)
    requires s != []
    ensures Blanks(b) && u == SkipBlank(s[1..]) && s == [s[0]] + (b + u)
  {
    u := SkipBlank(s[1..]);
    BlankFront(s[1..]);
    b := Front(s[1..], u);
    assert s == [s[0]] + s[1..];
  }

  lemma {:induction false} ArraySound(s: string) returns (t: Tree)
    requires Value(s).Ok? && s[0] == '['
    ensures TreeOk(t) && s == Spell(t, Value(s).rest) && Meaning(t) == Value(s).value
    decreases |s[1..]|, 2
  {
    var b, u := Opening(s);
    if u != [] && u[0] == ']' {
      t := EmptyArray(b);
      assert u == [']'] + u[1..];
    } else {
      var items := ElementsSound(u);
      t := ArrayOf(b, items);
    }
  }

  lemma {:induction false} ObjectSound(s: string) returns (t: Tree)
    requires Value(s).Ok? && s[0] == '{'
    ensures TreeOk(t) && s == Spell(t, Value(s).rest) && Meaning(t) == Value(s).value
    decreases |s[1..]|, 3
  {
    var b, u := Opening(s);
    if u != [] && u[0] == '}' {
      t := EmptyObject(b);
      assert u == ['}'] + u[1..];
    } else {
      var fields := MembersSound(u);
      t := ObjectOf(b, fields);
    }
  }

  lemma {:induction false} ElementsSound(s: string) returns (items: Items)
    requires Elements(s).Ok?
    ensures ItemsOk(items) && s == SpellItems(items, Elements(s).rest) && ItemsMeaning(items) == Elements(s).value
    decreases |s|, 1
  {
    var v := ValueSound(s);
    var sep := Separator(Value(s).rest, ']');
    var after, before := SeparatorSound(Value(s).rest, ']');
    if sep.value {
      var next := ElementsSound(sep.rest);
      items := MoreItems(v, after, before, next);
    } else {
      items := LastItem(v, after);
    }
  }

  /** The blanks around a colon. */
  lemma AroundColon(r: string) returns (after: string, before: string)
    requires SkipBlank(r) != [] && SkipBlank(r)[0] == ':'
    ensures Blanks(after) && Blanks(before)
    ensures r == after + ([':'] + (before + SkipBlank(SkipBlank(r)[1..])))
  {
    var u := SkipBlank(r);
    BlankFront(r);
    BlankFront(u[1..]);
    after, before := Front(r, u), Front(u[1..], SkipBlank(u[1..]));
    assert u == [':'] + u[1..];
  }

  lemma KeySound(s: string) returns (after: string, before: string)
    requires Key(s).Ok?
    ensures Blanks(after) && Blanks(before) && PiecesOk(Pieces(s[1..]).value)
    ensures s == ['"'] + SpellPieces(Pieces(s[1..]).value, after + ([':'] + (before + Key(s).rest)))
  {
    PiecesSound(s[1..]);
    after, before := AroundColon(Pieces(s[1..]).rest);
    assert s == ['"'] + s[1..];
  }

  lemma {:induction false} MemberSound(s: string) returns (f: Field)
    requires Member(s).Ok?
    ensures FieldOk(f) && s == SpellField(f, Member(s).rest) && FieldMeaning(f) == Member(s).value
    decreases |s|, 1
  {
    var after, before := KeySound(s);
    var v := ValueSound(Key(s).rest);
    f := Field(Pieces(s[1..]).value, after, before, v);
  }

  lemma {:induction false} MembersSound(s: string) returns (fields: Fields)
    requires Members(s).Ok?
    ensures FieldsOk(fields) && s == SpellFields(fields, Members(s).rest)
    ensures FieldsMeaning(fields) == Members(s).value
    decreases |s|, 2
  {
    var f := MemberSound(s);
    var rest := Member(s).rest;
    var sep := Separator(rest, '}');
    var after, before := SeparatorSound(rest, '}');
    if sep.value {
      var next := MembersSound(sep.rest);
      fields := MoreFields(f, after, before, next);
    } else {
      fields := LastField(f, after);
    }
  }

  /** The decoder accepts a text as one whole value exactly when the grammar spells it. */
  lemma DecoderIsGrammar(s: string, v: Json)
    ensures Value(s) == Ok(v, []) <==> exists t :: TreeOk(t) && Spell(t, []) == s && Meaning(t) == v
  {
    if Value(s) == Ok(v, []) {
      var t := ValueSound(s);
    }
    forall t | TreeOk(t) && Spell(t, []) == s && Meaning(t) == v
      ensures Value(s) == Ok(v, [])
    {
      ValueComplete(t, []);
    }
  }

  /** What is left after a decode is the end of the text it started from. */
  lemma RestIsSuffix(s: string)
    requires Value(s).Ok?
    ensures Value(s).rest == s[|s| - |Value(s).rest|..]
  {
    var t := ValueSound(s);
    var k := Value(s).rest;
    assert [] + k == k;
    SpellAppend(t, [], k);
  }
}
