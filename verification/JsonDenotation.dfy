/**
 What a JSON text denotes, said without the decoder: words, numerals, lists and members as
 they stand, and strings by the way their code points may be written. The decoder and the
 streaming reader give exactly these values.
 */
module JsonDenotation {
  import opened JsonDecoder
  import opened JsonGrammar
  import opened JsonEscapes
  import opened JsonArrayReader
  import opened JsonArrayText

  // ----- The alphabets of RFC 8259

  /** Sections 2, 6 and 7, character by character. */
  lemma Alphabets(c: char)
    ensures IsBlank(c) <==> c in " \t\n\r"
    ensures IsDigit(c) <==> c in "0123456789"
    ensures IsExponentMark(c) <==> c in "eE"
    ensures IsHexDigit(c) <==> c in "0123456789abcdefABCDEF"
    ensures IsShortEscape(c) <==> c in "\"\\/bfnrt"
    ensures PieceOk(Plain(c)) <==> c != '"' && c != '\\' && c !in CONTROLS
  {
    ControlsAre(c);
  }

  /** The 32 control characters. */
  const CONTROLS: string := seq(0x20, i requires 0 <= i < 0x20 => i as char)

  lemma ControlsAre(c: char)
    ensures c in CONTROLS <==> c as int < 0x20
  {
    if c as int < 0x20 {
      assert CONTROLS[c as int] == c;
    }
  }

  // ----- Denotation

  predicate WordDenotes(w: string, v: Json) {
    || (w == "null" && v == Null)
    || (w == "true" && v == Bool(true))
    || (w == "false" && v == Bool(false))
    || (w in ["NaN", "Infinity", "-Infinity"] && v == NonFinite(w))
  }

  /** The pieces are a way to write these code points. */
  ghost predicate StringDenotes(ps: seq<Piece>, points: seq<int>) {
    Writable(points) && exists styles: seq<Style> ::
      |styles| == |points| && SpellPieces(ps, []) == WritePoints(points, styles, [])
  }

  ghost predicate Denotes(t: Tree, v: Json) {
    match t
    case Word(w) => WordDenotes(w, v)
    case Num(n) => v == Number(SpellNumeral(n, []))
    case Quoted(ps) => v.Text? && StringDenotes(ps, v.points)
    case EmptyArray(_) => v == Array([])
    case ArrayOf(_, items) => v.Array? && ItemsDenote(items, v.items)
    case EmptyObject(_) => v == Object([])
    case ObjectOf(_, fields) => v.Object? && FieldsDenote(fields, v.members)
  }

  ghost predicate ItemsDenote(items: Items, vs: seq<Json>) {
    match items
    case LastItem(v, _) => |vs| == 1 && Denotes(v, vs[0])
    case MoreItems(v, _, _, next) => |vs| >= 1 && Denotes(v, vs[0]) && ItemsDenote(next, vs[1..])
  }

  ghost predicate FieldDenotes(f: Field, member: (seq<int>, Json)) {
    StringDenotes(f.key, member.0) && Denotes(f.v, member.1)
  }

  ghost predicate FieldsDenote(fields: Fields, members: seq<(seq<int>, Json)>) {
    match fields
    case LastField(f, _) => |members| == 1 && FieldDenotes(f, members[0])
    case MoreFields(f, _, _, next) => |members| >= 1 && FieldDenotes(f, members[0]) && FieldsDenote(next, members[1..])
  }

  lemma StringIff(ps: seq<Piece>, points: seq<int>)
    requires PiecesOk(ps)
    ensures StringDenotes(ps, points) <==> Points(ps) == points
  {
    if StringDenotes(ps, points) {
      var styles: seq<Style> :| |styles| == |points| && SpellPieces(ps, []) == WritePoints(points, styles, []);
      PointsOfPieces(points, styles);
      WritePointsIs(points, styles, []);
      PiecesComplete(ps, []);
      PiecesComplete(AllPieces(points, styles), []);
    }
    if Points(ps) == points {
      var styles := PiecesBack(ps);
      WritePointsIs(points, styles, []);
    }
  }

  /** A tree denotes exactly one value, its meaning. */
  lemma {:induction false} DenotesIff(t: Tree, v: Json)
    requires TreeOk(t)
    ensures Denotes(t, v) <==> Meaning(t) == v
  {
    match t
    case Quoted(ps) =>
      if v.Text? {
        StringIff(ps, v.points);
      }
    case ArrayOf(_, items) =>
      if v.Array? {
        ItemsIff(items, v.items);
      }
    case ObjectOf(_, fields) =>
      if v.Object? {
        FieldsIff(fields, v.members);
      }
    case _ =>
  }

  lemma Uncons<T>(x: T, xs: seq<T>, vs: seq<T>)
    ensures [x] + xs == vs <==> |vs| >= 1 && vs[0] == x && vs[1..] == xs
  {
    if |vs| >= 1 {
      assert vs == [vs[0]] + vs[1..];
    }
    assert ([x] + xs)[1..] == xs;
  }

  lemma {:induction false} ItemsIff(items: Items, vs: seq<Json>)
    requires ItemsOk(items)
    ensures ItemsDenote(items, vs) <==> ItemsMeaning(items) == vs
  {
    match items
    case LastItem(v, _) =>
      if |vs| == 1 {
        DenotesIff(v, vs[0]);
      }
    case MoreItems(v, _, _, next) =>
      Uncons(Meaning(v), ItemsMeaning(next), vs);
      if |vs| >= 1 {
        DenotesIff(v, vs[0]);
        ItemsIff(next, vs[1..]);
      }
  }

  lemma {:induction false} FieldIff(f: Field, member: (seq<int>, Json))
    requires FieldOk(f)
    ensures FieldDenotes(f, member) <==> FieldMeaning(f) == member
  {
    StringIff(f.key, member.0);
    DenotesIff(f.v, member.1);
  }

  lemma {:induction false} FieldsIff(fields: Fields, members: seq<(seq<int>, Json)>)
    requires FieldsOk(fields)
    ensures FieldsDenote(fields, members) <==> FieldsMeaning(fields) == members
  {
    match fields
    case LastField(f, _) =>
      if |members| == 1 {
        FieldIff(f, members[0]);
      }
    case MoreFields(f, _, _, next) =>
      Uncons(FieldMeaning(f), FieldsMeaning(next), members);
      if |members| >= 1 {
        FieldIff(f, members[0]);
        FieldsIff(next, members[1..]);
      }
  }

  /** The decoder accepts a text as one whole value exactly when the text denotes it. */
  lemma DecoderDenotes(s: string, v: Json)
    ensures Value(s) == Ok(v, []) <==> exists t :: TreeOk(t) && Spell(t, []) == s && Denotes(t, v)
  {
    DecoderIsGrammar(s, v);
    if Value(s) == Ok(v, []) {
      var t :| TreeOk(t) && Spell(t, []) == s && Meaning(t) == v;
      DenotesIff(t, v);
    }
    forall t | TreeOk(t) && Spell(t, []) == s && Denotes(t, v)
      ensures Value(s) == Ok(v, [])
    {
      DenotesIff(t, v);
    }
  }

  // ----- Array texts

  ghost predicate EntriesDenote(es: Entries, records: seq<Json>) {
    match es
    case LastEntry(_, v, _) => |records| == 1 && Denotes(v, records[0])
    case MoreEntries(_, v, _, next) => |records| >= 1 && Denotes(v, records[0]) && EntriesDenote(next, records[1..])
  }

  ghost predicate DocumentDenotes(doc: Document, records: seq<Json>) {
    if doc.Listing? then EntriesDenote(doc.entries, records) else records == []
  }

  lemma {:induction false} EntriesIff(es: Entries, records: seq<Json>)
    requires EntriesOk(es)
    ensures EntriesDenote(es, records) <==> EntryRecords(es) == records
  {
    match es
    case LastEntry(_, v, _) =>
      if |records| == 1 {
        DenotesIff(v, records[0]);
      }
    case MoreEntries(_, v, _, next) =>
      Uncons(Meaning(v), EntryRecords(next), records);
      if |records| >= 1 {
        DenotesIff(v, records[0]);
        EntriesIff(next, records[1..]);
      }
  }

  lemma DocumentIff(doc: Document, records: seq<Json>)
    requires DocumentOk(doc)
    ensures DocumentDenotes(doc, records) <==> Records(doc) == records
  {
    if doc.Listing? {
      EntriesIff(doc.entries, records);
    }
  }

  /** The texts that are read to the end are exactly the array texts of objects, and the
      records are what the text denotes. */
  lemma ReaderDenotes(text: string, records: seq<Json>)
    ensures Outcome(text) == Reading(records, Finished) <==>
            exists doc :: DocumentOk(doc) && SpellDocument(doc) == text && DocumentDenotes(doc, records)
  {
    ReaderIsGrammar(text, records);
    if Outcome(text) == Reading(records, Finished) {
      var doc :| DocumentOk(doc) && SpellDocument(doc) == text && Records(doc) == records;
      DocumentIff(doc, records);
    }
    forall doc | DocumentOk(doc) && SpellDocument(doc) == text && DocumentDenotes(doc, records)
      ensures Outcome(text) == Reading(records, Finished)
    {
      DocumentIff(doc, records);
    }
  }
}
