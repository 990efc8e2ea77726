/**
 The reader with the real decoder: it accepts exactly the array texts of section 5 of
 RFC 8259 whose elements are objects (with any `isspace` characters between the elements),
 it yields exactly their elements, and neither the records nor the way it ends depends on
 how the text is cut into chunks.
 */
module JsonArrayText {
  import opened JsonDecoder
  import opened JsonGrammar
  import opened JsonArrayReader
  import opened PyText
  import opened Wrappers

  // ----- Array texts

  /** An object with the space around it and, unless it is the last, those after the comma. */
  datatype Entries =
    | LastEntry(before: string, v: Tree, after: string)
    | MoreEntries(before: string, v: Tree, after: string, next: Entries)

  datatype Document =
    | EmptyListing(lead: string, inner: string, tail: string)
    | Listing(lead: string, entries: Entries, tail: string)

  predicate Spaces(s: string) {
    forall i :: 0 <= i < |s| ==> IsSpace(s[i])
  }

  predicate IsObject(t: Tree) {
    TreeOk(t) && (t.EmptyObject? || t.ObjectOf?)
  }

  predicate EntriesOk(es: Entries) {
    && Spaces(es.before) && IsObject(es.v) && Spaces(es.after)
    && (es.MoreEntries? ==> EntriesOk(es.next))
  }

  predicate DocumentOk(doc: Document) {
    && Spaces(doc.lead) && Spaces(doc.tail)
    && (doc.EmptyListing? ==> Spaces(doc.inner))
    && (doc.Listing? ==> EntriesOk(doc.entries))
  }

  function SpellEntries(es: Entries, k: string): string {
    match es
    case LastEntry(before, v, after) => before + Spell(v, after + k)
    case MoreEntries(before, v, after, next) => before + Spell(v, after + ([','] + SpellEntries(next, k)))
  }

  /** The text that opens the array, up to `k`. */
  function Opened(lead: string, k: string): string {
    lead + (['['] + k)
  }

  function SpellDocument(doc: Document): string {
    match doc
    case EmptyListing(lead, inner, tail) => Opened(lead, inner + ([']'] + tail))
    case Listing(lead, entries, tail) => Opened(lead, SpellEntries(entries, [']'] + tail))
  }

  function EntryRecords(es: Entries): (r: seq<Json>)
    requires EntriesOk(es)
  {
    match es
    case LastEntry(_, v, _) => [Meaning(v)]
    case MoreEntries(_, v, _, next) => [Meaning(v)] + EntryRecords(next)
  }

  function Records(doc: Document): seq<Json>
    requires DocumentOk(doc)
  {
    if doc.Listing? then EntryRecords(doc.entries) else []
  }

  // ----- The decoder is stable

  lemma ValueIsStable()
    ensures Stable(Value)
  {
    forall s: string, t: string
      ensures StableOn(Value, s, t)
    {
      if Value(s).Ok? {
        EarlyDecode(s, t);
        RestIsSuffix(s);
      }
    }
  }

  /** What the reader does on the whole text. */
  ghost function Outcome(text: string): Reading {
    ValueIsStable();
    Scan(Value, Start, text)
  }

  // ----- Reading in chunks

  /** The generator over any list of non-empty chunks: the records and the ending are those
      of the whole text, cut off at the limit. */
  method ReadChunks(chunks: seq<string>, limit: Option<int>) returns (r: Reading)
    requires NonEmptyChunks(chunks)
    ensures r == Limited(Outcome(Flatten(chunks)), limit)
  {
    ValueIsStable();
    var reader := new Reader(Value, chunks);
    var records, ending := reader.Read(limit);
    r := Reading(records, ending);
  }

  /** `iter_json_array_records`; `None` is the refusal of a chunk size that is not positive. */
  method IterJsonArrayRecords(text: string, limit: Option<int>, chunkSize: int) returns (r: Option<Reading>)
    ensures r.None? <==> chunkSize <= 0
    ensures r.Some? ==> r.value == Limited(Outcome(text), limit)
  {
    if chunkSize <= 0 {
      return None;
    }
    var reading := ReadChunks(Cut(text, chunkSize), limit);
    r := Some(reading);
  }

  // ----- Every array text is read

  lemma {:induction false} SpacesSkipped(b: string, k: string)
    requires Spaces(b)
    ensures SkipSpace(b + k) == SkipSpace(k)
  {
    if b == [] {
      assert b + k == k;
    } else {
      assert (b + k)[1..] == b[1..] + k;
      SpacesSkipped(b[1..], k);
    }
  }

  lemma SpacesOnly(s: string)
    requires Spaces(s)
    ensures SkipSpace(s) == []
  {
    assert s + [] == s;
    SpacesSkipped(s, []);
  }

  ghost function ScanFrom(mode: Mode, s: string): Reading {
    ValueIsStable();
    Scan(Value, mode, s)
  }

  lemma SpacesIgnored(mode: Mode, b: string, k: string)
    requires Spaces(b)
    ensures ScanFrom(mode, b + k) == ScanFrom(mode, k)
  {
    ValueIsStable();
    SpacesSkipped(b, k);
    ScanSkips(Value, mode, b + k, k);
  }

  lemma ScanRecord(mode: Mode, t: Tree, k: string)
    requires mode.FirstItem? || mode.NextItem?
    requires IsObject(t)
    ensures ScanFrom(mode, Spell(t, k)) == Put([Meaning(t)], ScanFrom(AfterItem, k))
  {
    ValueIsStable();
    var s := Spell(t, k);
    assert s[0] == '{' && SkipSpace(s) == s;
    ValueComplete(t, k);
    var d: Decoder := Value;
    assert d(s) == Ok(Meaning(t), k);
    assert ScanFrom(mode, s) == ScanItem(d, s);
  }

  /** A list of objects, with any space and any spelling, yields the objects, and the
      reader goes on with what follows the last one. */
  lemma {:induction false} EntriesRead(mode: Mode, es: Entries, k: string)
    requires mode.FirstItem? || mode.NextItem?
    requires EntriesOk(es)
    ensures ScanFrom(mode, SpellEntries(es, k)) == Put(EntryRecords(es), ScanFrom(AfterItem, k))
    decreases es
  {
    match es
    case LastEntry(before, v, after) => EntryRead(mode, before, v, after, k);
    case MoreEntries(before, v, after, next) =>
      var u := SpellEntries(next, k);
      EntryRead(mode, before, v, after, [','] + u);
      CommaRead(u);
      EntriesRead(NextItem, next, k);
      PutPut([Meaning(v)], EntryRecords(next), ScanFrom(AfterItem, k));
  }

  lemma PutPut(a: seq<Json>, b: seq<Json>, r: Reading)
    ensures Put(a, Put(b, r)) == Put(a + b, r)
  {
    assert a + (b + r.records) == (a + b) + r.records;
  }

  lemma CommaRead(u: string)
    ensures ScanFrom(AfterItem, [','] + u) == ScanFrom(NextItem, u)
  {
    assert ([','] + u)[1..] == u;
  }

  lemma EntryRead(mode: Mode, before: string, v: Tree, after: string, k: string)
    requires mode.FirstItem? || mode.NextItem?
    requires Spaces(before) && IsObject(v) && Spaces(after)
    ensures ScanFrom(mode, before + Spell(v, after + k)) == Put([Meaning(v)], ScanFrom(AfterItem, k))
  {
    SpacesIgnored(mode, before, Spell(v, after + k));
    ScanRecord(mode, v, after + k);
    SpacesIgnored(AfterItem, after, k);
  }

  lemma OpenedRead(lead: string, k: string)
    requires Spaces(lead)
    ensures Outcome(Opened(lead, k)) == ScanFrom(FirstItem, k)
  {
    SpacesIgnored(Start, lead, ['['] + k);
    assert (['['] + k)[1..] == k;
  }

  lemma ClosedRead(mode: Mode, k: string)
    requires mode.FirstItem? || mode.AfterItem?
    ensures ScanFrom(mode, [']'] + k) == Reading([], EndOfText(k))
  {
    assert ([']'] + k)[1..] == k;
  }

  lemma DocumentRead(doc: Document)
    requires DocumentOk(doc)
    ensures Outcome(SpellDocument(doc)) == Reading(Records(doc), Finished)
  {
    SpacesOnly(doc.tail);
    var close := [']'] + doc.tail;
    match doc
    case EmptyListing(lead, inner, tail) =>
      OpenedRead(lead, inner + close);
      SpacesIgnored(FirstItem, inner, close);
      ClosedRead(FirstItem, tail);
    case Listing(lead, entries, tail) =>
      OpenedRead(lead, SpellEntries(entries, close));
      EntriesRead(FirstItem, entries, close);
      ClosedRead(AfterItem, tail);
  }

  // ----- Whatever is read to the end is an array text

  lemma {:induction false} SpaceFront(s: string)
    ensures var b := Front(s, SkipSpace(s)); Spaces(b) && s == b + SkipSpace(s)
  {
    if s == [] || !IsSpace(s[0]) {
      NothingInFront(s);
    } else {
      SpaceFront(s[1..]);
      FrontMore(s, SkipSpace(s[1..]));
    }
  }

  lemma ObjectTree(s: string) returns (t: Tree)
    requires Value(s).Ok? && Value(s).value.Object?
    ensures IsObject(t) && s == Spell(t, Value(s).rest) && Meaning(t) == Value(s).value
  {
    t := ValueSound(s);
  }

  lemma FinishedRecord(mode: Mode, s: string)
    requires mode.FirstItem? || mode.NextItem?
    requires ScanFrom(mode, s).ending.Finished?
    requires SkipSpace(s) != [] && SkipSpace(s)[0] != ']'
    ensures var u := SkipSpace(s);
            Value(u).Ok? && Value(u).value.Object? &&
            ScanFrom(mode, s) == Put([Value(u).value], ScanFrom(AfterItem, Value(u).rest))
  {
    ValueIsStable();
    var d: Decoder := Value;
    var u := SkipSpace(s);
    assert d(u) == Value(u);
    assert ScanFrom(mode, s) == ScanItem(d, u);
  }

  lemma FinishedSeparator(s: string)
    requires ScanFrom(AfterItem, s).ending.Finished?
    ensures var u := SkipSpace(s);
            && u != [] && (u[0] == ',' || u[0] == ']')
            && (u[0] == ',' ==> ScanFrom(AfterItem, s) == ScanFrom(NextItem, u[1..]))
            && (u[0] == ']' ==> SkipSpace(u[1..]) == [] && ScanFrom(AfterItem, s).records == [])
  {
  }

  lemma FinishedNext(s: string)
    requires ScanFrom(NextItem, s).ending.Finished?
    ensures SkipSpace(s) != [] && SkipSpace(s)[0] != ']'
  {
  }

  /** The first entry of a list that is read to its end, and the text behind it. */
  lemma FirstEntry(mode: Mode, s: string) returns (before: string, t: Tree, after: string, w: string)
    requires mode.FirstItem? || mode.NextItem?
    requires ScanFrom(mode, s).ending.Finished?
    requires SkipSpace(s) != [] && SkipSpace(s)[0] != ']'
    ensures Spaces(before) && IsObject(t) && Spaces(after) && s == before + Spell(t, after + w)
    ensures |w| < |s| && w == SkipSpace(w)
    ensures ScanFrom(mode, s) == Put([Meaning(t)], ScanFrom(AfterItem, w))
  {
    var u := SkipSpace(s);
    SpaceFront(s);
    before := Front(s, u);
    FinishedRecord(mode, s);
    t := ObjectTree(u);
    var rest := Value(u).rest;
    w := SkipSpace(rest);
    SpaceFront(rest);
    after := Front(rest, w);
    SkipFirst(rest);
  }

  lemma SkipFirst(s: string)
    ensures SkipSpace(SkipSpace(s)) == SkipSpace(s)
    ensures ScanFrom(AfterItem, s) == ScanFrom(AfterItem, SkipSpace(s))
  {
    ValueIsStable();
    ScanSkips(Value, AfterItem, s, SkipSpace(s));
  }

  lemma {:induction false} EntriesOf(mode: Mode, s: string) returns (es: Entries, tail: string)
    requires mode.FirstItem? || mode.NextItem?
    requires ScanFrom(mode, s).ending.Finished?
    requires SkipSpace(s) != [] && SkipSpace(s)[0] != ']'
    ensures EntriesOk(es) && Spaces(tail) && s == SpellEntries(es, [']'] + tail)
    ensures EntryRecords(es) == ScanFrom(mode, s).records
    decreases |s|
  {
    var before, t, after, w := FirstEntry(mode, s);
    FinishedSeparator(w);
    assert w == [w[0]] + w[1..];
    if w[0] == ']' {
      tail := w[1..];
      AllSpaces(tail);
      es := LastEntry(before, t, after);
    } else {
      var next;
      FinishedNext(w[1..]);
      next, tail := EntriesOf(NextItem, w[1..]);
      es := MoreEntries(before, t, after, next);
    }
  }

  lemma FinishedOpened(text: string) returns (lead: string, s: string)
    requires Outcome(text).ending.Finished?
    ensures Spaces(lead) && text == Opened(lead, s) && Outcome(text) == ScanFrom(FirstItem, s)
  {
    var u := SkipSpace(text);
    SpaceFront(text);
    lead, s := Front(text, u), u[1..];
    assert u == ['['] + s;
  }

  lemma FirstClosed(s: string)
    requires SkipSpace(s) != [] && SkipSpace(s)[0] == ']'
    ensures ScanFrom(FirstItem, s) == Reading([], EndOfText(SkipSpace(s)[1..]))
  {
  }

  lemma FinishedEmpty(s: string) returns (inner: string, tail: string)
    requires ScanFrom(FirstItem, s).ending.Finished?
    requires SkipSpace(s) != [] && SkipSpace(s)[0] == ']'
    ensures Spaces(inner) && Spaces(tail) && s == inner + ([']'] + tail)
    ensures ScanFrom(FirstItem, s).records == []
  {
    FirstClosed(s);
    var w := SkipSpace(s);
    SpaceFront(s);
    inner, tail := Front(s, w), w[1..];
    assert w == [']'] + tail;
    AllSpaces(tail);
  }

  lemma AllSpaces(s: string)
    requires SkipSpace(s) == []
    ensures Spaces(s)
  {
    SpaceFront(s);
    assert s == Front(s, []);
  }

  lemma DocumentOf(text: string) returns (doc: Document)
    requires Outcome(text).ending.Finished?
    ensures DocumentOk(doc) && SpellDocument(doc) == text && Records(doc) == Outcome(text).records
  {
    var lead, s := FinishedOpened(text);
    if SkipSpace(s) != [] && SkipSpace(s)[0] == ']' {
      var inner, tail := FinishedEmpty(s);
      doc := EmptyListing(lead, inner, tail);
    } else {
      var es, tail := EntriesOf(FirstItem, s);
      doc := Listing(lead, es, tail);
    }
  }

  /** The texts read to the end are exactly the array texts, and the records are their elements. */
  lemma ReaderIsGrammar(text: string, records: seq<Json>)
    ensures Outcome(text) == Reading(records, Finished) <==>
            exists doc :: DocumentOk(doc) && SpellDocument(doc) == text && Records(doc) == records
  {
    if Outcome(text) == Reading(records, Finished) {
      var doc := DocumentOf(text);
    }
    forall doc | DocumentOk(doc) && SpellDocument(doc) == text && Records(doc) == records
      ensures Outcome(text) == Reading(records, Finished)
    {
      DocumentRead(doc);
    }
  }

  // ----- Rejections: what is yielded before them, and why they happen

  lemma TrailingCommaRejected(lead: string, es: Entries, space: string, k: string)
    requires Spaces(lead) && EntriesOk(es) && Spaces(space)
    ensures Outcome(Opened(lead, SpellEntries(es, [','] + (space + ([']'] + k)))))
         == Reading(EntryRecords(es), Rejected(TrailingComma))
  {
    var u := space + ([']'] + k);
    OpenedRead(lead, SpellEntries(es, [','] + u));
    EntriesRead(FirstItem, es, [','] + u);
    assert ([','] + u)[1..] == u;
    SpacesIgnored(NextItem, space, [']'] + k);
  }

  lemma MissingCommaRejected(lead: string, es: Entries, c: char, k: string)
    requires Spaces(lead) && EntriesOk(es) && !IsSpace(c) && c != ',' && c != ']'
    ensures Outcome(Opened(lead, SpellEntries(es, [c] + k)))
         == Reading(EntryRecords(es), Rejected(ExpectedSeparator))
  {
    OpenedRead(lead, SpellEntries(es, [c] + k));
    EntriesRead(FirstItem, es, [c] + k);
  }

  /** Also behind an array without elements. */
  lemma ContentAfterRejected(lead: string, es: Entries, inner: string, space: string, c: char, k: string)
    requires Spaces(lead) && EntriesOk(es) && Spaces(inner) && Spaces(space) && !IsSpace(c)
    ensures Outcome(Opened(lead, SpellEntries(es, [']'] + (space + ([c] + k)))))
         == Reading(EntryRecords(es), Rejected(ContentAfterArray))
    ensures Outcome(Opened(lead, inner + ([']'] + (space + ([c] + k)))))
         == Reading([], Rejected(ContentAfterArray))
  {
    var u := space + ([c] + k);
    SpacesSkipped(space, [c] + k);
    OpenedRead(lead, SpellEntries(es, [']'] + u));
    EntriesRead(FirstItem, es, [']'] + u);
    ClosedRead(AfterItem, u);
    OpenedRead(lead, inner + ([']'] + u));
    SpacesIgnored(FirstItem, inner, [']'] + u);
    ClosedRead(FirstItem, u);
  }

  lemma NotAnArrayRejected(lead: string, c: char, k: string)
    requires Spaces(lead) && !IsSpace(c) && c != '['
    ensures Outcome(lead + ([c] + k)) == Reading([], Rejected(NotAnArray))
  {
    SpacesIgnored(Start, lead, [c] + k);
  }

  lemma NothingLeft(mode: Mode, space: string)
    requires Spaces(space)
    ensures ScanFrom(mode, space) == Reading([], Rejected(Truncated))
  {
    SpacesOnly(space);
  }

  /** A text that stops before its array, at its beginning, behind an element or behind a comma. */
  lemma TruncatedRejected(lead: string, es: Entries, space: string)
    requires Spaces(lead) && EntriesOk(es) && Spaces(space)
    ensures Outcome(space) == Reading([], Rejected(Truncated))
    ensures Outcome(Opened(lead, space)) == Reading([], Rejected(Truncated))
    ensures Outcome(Opened(lead, SpellEntries(es, space))) == Reading(EntryRecords(es), Rejected(Truncated))
    ensures Outcome(Opened(lead, SpellEntries(es, [','] + space))) == Reading(EntryRecords(es), Rejected(Truncated))
  {
    NothingLeft(Start, space);
    OpenedRead(lead, space);
    NothingLeft(FirstItem, space);
    OpenedRead(lead, SpellEntries(es, space));
    EntriesRead(FirstItem, es, space);
    NothingLeft(AfterItem, space);
    OpenedRead(lead, SpellEntries(es, [','] + space));
    EntriesRead(FirstItem, es, [','] + space);
    assert ([','] + space)[1..] == space;
    NothingLeft(NextItem, space);
  }

  /** What the decoder makes of an element that is not an object. */
  function Fault(u: string): Rejection {
    if Value(u).Ok? then NotAnObject else InvalidJson
  }

  lemma FaultFound(mode: Mode, space: string, u: string)
    requires mode.FirstItem? || mode.NextItem?
    requires Spaces(space) && u != [] && !IsSpace(u[0]) && u[0] != ']' && !(Value(u).Ok? && Value(u).value.Object?)
    ensures ScanFrom(mode, space + u) == Reading([], Rejected(Fault(u)))
  {
    SpacesIgnored(mode, space, u);
    ValueIsStable();
    var d: Decoder := Value;
    assert d(u) == Value(u);
    assert ScanFrom(mode, u) == ScanItem(d, u);
  }

  /** An element that is not an object: rejected as one if it is another JSON value, and as
      invalid if it is none, whether it is the first or comes behind others. */
  lemma ElementRejected(lead: string, es: Entries, space: string, u: string)
    requires Spaces(lead) && EntriesOk(es) && Spaces(space)
    requires u != [] && !IsSpace(u[0]) && u[0] != ']' && !(Value(u).Ok? && Value(u).value.Object?)
    ensures var why := if Value(u).Ok? then NotAnObject else InvalidJson;
            && Outcome(Opened(lead, space + u)) == Reading([], Rejected(why))
            && Outcome(Opened(lead, SpellEntries(es, [','] + (space + u)))) == Reading(EntryRecords(es), Rejected(why))
  {
    OpenedRead(lead, space + u);
    FaultFound(FirstItem, space, u);
    OpenedRead(lead, SpellEntries(es, [','] + (space + u)));
    EntriesRead(FirstItem, es, [','] + (space + u));
    assert ([','] + (space + u))[1..] == space + u;
    FaultFound(NextItem, space, u);
  }
}
