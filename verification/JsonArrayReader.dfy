/**
 The streaming reader of a top-level JSON array of objects (`iter_json_array_records`):
 a buffer that slides over the file, refilled one chunk at a time.

 `Scan` says what the reader must do on the whole text and `Reader.Read` is the code; that
 they agree for every list of chunks is the main result. Both take the value decoder as an
 argument and use only that it is `Stable`, which `JsonArrayText` proves of the real one.
 */
module JsonArrayReader {
  import opened JsonDecoder
  import opened PyText
  import opened Wrappers

  datatype Rejection =
    | Truncated
    | NotAnArray
    | ContentAfterArray
    | ExpectedSeparator
    | TrailingComma
    | InvalidJson
    | NotAnObject

  datatype Ending = Finished | Rejected(why: Rejection)

  /** The records yielded, in order, and how the generator ended. */
  datatype Reading = Reading(records: seq<Json>, ending: Ending)

  /** What the reader expects next: `started`, `expect_value` and `after_comma` in one. */
  datatype Mode = Start | FirstItem | NextItem | AfterItem

  // ----- Decoders

  type Decoder = string -> Parsed<Json>

  /** `d` leaves a proper suffix of its text, a decoded object is final, and a value of
      another kind stays of another kind, whatever text follows. */
  ghost predicate StableOn(d: Decoder, s: string, t: string) {
    d(s).Ok? ==>
      && |d(s).rest| < |s|
      && d(s).rest == s[|s| - |d(s).rest|..]
      && d(s + t).Ok?
      && (d(s).value.Object? ==> d(s + t) == Ok(d(s).value, d(s).rest + t))
      && (!d(s).value.Object? ==> !d(s + t).value.Object?)
  }

  ghost predicate Stable(d: Decoder) {
    forall s: string, t: string :: StableOn(d, s, t)
  }

  lemma DecoderShrinks(d: Decoder, s: string)
    requires Stable(d)
    ensures d(s).Ok? ==> |d(s).rest| < |s|
  {
    assert StableOn(d, s, []);
  }

  // ----- The whole text at once

  function SkipSpace(s: string): (r: string)
    ensures |r| <= |s|
    ensures r != [] ==> !IsSpace(r[0])
  {
    if s != [] && IsSpace(s[0]) then SkipSpace(s[1..]) else s
  }

  function EndOfText(s: string): Ending {
    if SkipSpace(s) == [] then Finished else Rejected(ContentAfterArray)
  }

  function Put(front: seq<Json>, r: Reading): Reading {
    Reading(front + r.records, r.ending)
  }

  ghost function Scan(d: Decoder, mode: Mode, s: string): (r: Reading)
    requires Stable(d)
    decreases |s|
  {
    var u := SkipSpace(s);
    if u == [] then Reading([], Rejected(Truncated))
    else
      match mode
      case Start =>
        if u[0] == '[' then Scan(d, FirstItem, u[1..]) else Reading([], Rejected(NotAnArray))
      case AfterItem =>
        if u[0] == ',' then Scan(d, NextItem, u[1..])
        else Reading([], if u[0] == ']' then EndOfText(u[1..]) else Rejected(ExpectedSeparator))
      case _ =>
        if u[0] == ']' then
          Reading([], if mode.NextItem? then Rejected(TrailingComma) else EndOfText(u[1..]))
        else ScanItem(d, u)
  }

  ghost function ScanItem(d: Decoder, s: string): Reading
    requires Stable(d) && s != []
    decreases |s|, 0
  {
    match d(s)
    case Err => Reading([], Rejected(InvalidJson))
    case Ok(v, rest) =>
      DecoderShrinks(d, s);
      if v.Object? then Put([v], Scan(d, AfterItem, rest)) else Reading([], Rejected(NotAnObject))
  }

  /** What a run with a limit shows of the unlimited run. */
  function Limited(r: Reading, limit: Option<int>): Reading {
    if limit.Some? && limit.value <= 0 then Reading([], Finished)
    else if limit.Some? && |r.records| >= limit.value then Reading(r.records[..limit.value], Finished)
    else r
  }

  // ----- Chunks

  function Flatten(chunks: seq<string>): string {
    if chunks == [] then [] else chunks[0] + Flatten(chunks[1..])
  }

  predicate NonEmptyChunks(chunks: seq<string>) {
    forall i :: 0 <= i < |chunks| ==> chunks[i] != []
  }

  /** What `handle.read(size)` returns, call after call, before its final empty string. */
  function Cut(text: string, size: nat): (chunks: seq<string>)
    requires size > 0
    ensures NonEmptyChunks(chunks)
    ensures Flatten(chunks) == text
    ensures forall i :: 0 <= i < |chunks| ==> |chunks[i]| <= size
  {
    if text == [] then []
    else if |text| <= size then [text]
    else
      assert text == text[..size] + text[size..];
      [text[..size]] + Cut(text[size..], size)
  }

  // ----- The code

  /** What one round of the reader's loop comes to. */
  datatype Step = Again | Yield(record: Json) | Stop(ending: Ending)

  class Reader {
    const decoder: Decoder
    /** The chunks the file handle has not handed out yet. */
    var chunks: seq<string>
    var buffer: string
    var position: nat
    var eof: bool
    var started: bool
    var expectValue: bool
    var afterComma: bool

    ghost predicate Valid()
      reads this
    {
      position <= |buffer| && NonEmptyChunks(chunks) && (eof ==> chunks == [])
      && (!started ==> expectValue && !afterComma)
    }

    /** The text not consumed yet. */
    ghost function Unread(): string
      requires Valid()
      reads this
    {
      buffer[position..] + Flatten(chunks)
    }

    ghost function Expecting(): Mode
      reads this
    {
      if !started then Start
      else if !expectValue then AfterItem
      else if afterComma then NextItem
      else FirstItem
    }

    /** What is left to do, on the whole of the unread text. */
    ghost function Todo(): Reading
      requires Valid() && Stable(decoder)
      reads this
    {
      Scan(decoder, Expecting(), Unread())
    }

    /** A chunk was handed over, the end of the file was seen, or text was consumed. */
    twostate predicate Progress()
      reads this
    {
      || |chunks| < old(|chunks|)
      || (|chunks| == old(|chunks|) && eof && !old(eof))
      || (|chunks| == old(|chunks|) && eof == old(eof) && |buffer| - position < old(|buffer| - position))
    }

    constructor (decoder: Decoder, chunks: seq<string>)
      requires NonEmptyChunks(chunks)
      ensures Valid() && Unread() == Flatten(chunks) && Expecting() == Start
      ensures this.decoder == decoder
    {
      this.decoder, this.chunks := decoder, chunks;
      buffer, position, eof := "", 0, false;
      started, expectValue, afterComma := false, true, false;
    }

    method Refill()
      requires Valid() && !eof
      modifies this`buffer, this`position, this`chunks, this`eof
      ensures Valid() && Unread() == old(Unread())
      ensures if old(chunks) == [] then eof && chunks == [] else !eof && chunks == old(chunks[1..])
    {
      if position > 0 {
        buffer := buffer[position..];
        position := 0;
      }
      if chunks != [] {
        buffer, chunks := buffer + chunks[0], chunks[1..];
      } else {
        eof := true;
      }
    }

    method SkipSpaces()
      requires Valid()
      modifies this`position
      ensures Valid() && old(position) <= position
      ensures SkipSpace(Unread()) == SkipSpace(old(Unread()))
      ensures position < |buffer| ==> !IsSpace(buffer[position])
    {
      while position < |buffer| && IsSpace(buffer[position])
        invariant Valid() && old(position) <= position
        invariant SkipSpace(Unread()) == SkipSpace(old(Unread()))
      {
        OneConsumed(buffer, position, Flatten(chunks));
        position := position + 1;
      }
    }

    /** The `while True` loop that follows a closing bracket. */
    method ReadToEnd() returns (ending: Ending)
      requires Valid()
      modifies this`buffer, this`position, this`chunks, this`eof
      ensures ending == EndOfText(old(Unread()))
    {
      while true
        invariant Valid() && SkipSpace(Unread()) == SkipSpace(old(Unread()))
        decreases |chunks|, !eof
      {
        SkipSpaces();
        if position < |buffer| {
          return Rejected(ContentAfterArray);
        }
        if eof {
          return Finished;
        }
        Refill();
      }
    }

    /** One `raw_decode` at the read position, or one more chunk for the next one. */
    method Decode() returns (step: Step)
      requires Valid() && Stable(decoder) && position < |buffer| && started
      modifies this
      ensures step.Again? ==> Valid() && Progress() && Unread() == old(Unread()) && Expecting() == old(Expecting())
      ensures step.Yield? ==> Valid() && Progress() && started == old(started) && !expectValue
      ensures step.Yield? ==> ScanItem(decoder, old(Unread())) == Put([step.record], Scan(decoder, AfterItem, Unread()))
      ensures step.Stop? ==> ScanItem(decoder, old(Unread())) == Reading([], step.ending)
    {
      var decoded := decoder(buffer[position..]);
      if decoded.Err? {
        if eof {
          assert Unread() == buffer[position..];
          return Stop(Rejected(InvalidJson));
        }
        Refill();
        return Again;
      }
      assert StableOn(decoder, buffer[position..], Flatten(chunks));
      position := |buffer| - |decoded.rest|;
      expectValue, afterComma := false, false;
      if !decoded.value.Object? {
        return Stop(Rejected(NotAnObject));
      }
      assert Unread() == decoded.rest + Flatten(chunks);
      return Yield(decoded.value);
    }

    /** The part of the round that looks at the next character. */
    method Dispatch() returns (step: Step)
      requires Valid() && Stable(decoder) && position < |buffer| && !IsSpace(buffer[position])
      modifies this
      ensures step.Again? ==> Valid() && Progress() && Todo() == old(Todo())
      ensures step.Yield? ==> Valid() && Progress() && old(Todo()) == Put([step.record], Todo())
      ensures step.Stop? ==> old(Todo()) == Reading([], step.ending)
    {
      OneConsumed(buffer, position, Flatten(chunks));
      if !started {
        if buffer[position] != '[' {
          return Stop(Rejected(NotAnArray));
        }
        position, started := position + 1, true;
        return Again;
      }
      if !expectValue {
        if buffer[position] == ',' {
          position, expectValue, afterComma := position + 1, true, true;
          return Again;
        }
        if buffer[position] == ']' {
          position := position + 1;
          var ending := ReadToEnd();
          return Stop(ending);
        }
        return Stop(Rejected(ExpectedSeparator));
      }
      if buffer[position] == ']' {
        if afterComma {
          return Stop(Rejected(TrailingComma));
        }
        position := position + 1;
        var ending := ReadToEnd();
        return Stop(ending);
      }
      step := Decode();
    }

    /** No chunk was given back, and no text either unless a chunk came. */
    twostate predicate Steady()
      reads this
    {
      || |chunks| < old(|chunks|)
      || (|chunks| == old(|chunks|) && eof && !old(eof))
      || (|chunks| == old(|chunks|) && eof == old(eof) && |buffer| - position <= old(|buffer| - position))
    }

    /** The start of a round: to the next character that is not a space, if the buffer has one. */
    method Approach()
      requires Valid() && Stable(decoder)
      modifies this`buffer, this`position, this`chunks, this`eof
      ensures Valid() && Steady() && Expecting() == old(Expecting())
      ensures SkipSpace(Unread()) == SkipSpace(old(Unread()))
      ensures position < |buffer| ==> !IsSpace(buffer[position])
    {
      if position >= |buffer| && !eof {
        Refill();
      }
      SkipSpaces();
    }

    /** One round of the loop. */
    method Round() returns (step: Step)
      requires Valid() && Stable(decoder)
      modifies this
      ensures step.Again? ==> Valid() && Progress() && Todo() == old(Todo())
      ensures step.Yield? ==> Valid() && Progress() && old(Todo()) == Put([step.record], Todo())
      ensures step.Stop? ==> old(Todo()) == Reading([], step.ending)
    {
      Approach();
      ScanSkips(decoder, Expecting(), old(Unread()), Unread());
      if position >= |buffer| {
        if eof {
          return Stop(Rejected(Truncated));
        }
        Refill();
        return Again;
      }
      step := Dispatch();
    }

    /** The generator. It ends on every input, since every round makes progress. */
    method Read(limit: Option<int>) returns (records: seq<Json>, ending: Ending)
      requires Valid() && Stable(decoder) && Expecting() == Start
      modifies this
      ensures Reading(records, ending) == Limited(old(Todo()), limit)
    {
      records := [];
      if limit.Some? && limit.value <= 0 {
        return records, Finished;
      }
      ghost var whole := Todo();
      ghost var todo := whole;
      while true
        invariant Valid() && todo == Todo()
        invariant whole == Put(records, todo)
        invariant limit.Some? ==> |records| < limit.value
        decreases |chunks|, !eof, |buffer| - position
      {
        var step := Round();
        match step {
          case Again =>
          case Stop(why) => return records, why;
          case Yield(record) =>
            todo := Todo();
            PutMore(records, record, todo);
            records := records + [record];
            if limit.Some? && |records| >= limit.value {
              return records, Finished;
            }
        }
      }
    }
  }

  /** Behind the next character. */
  lemma OneConsumed(buffer: string, position: nat, later: string)
    requires position < |buffer|
    ensures var u := buffer[position..] + later;
            u != [] && u[0] == buffer[position] && u[1..] == buffer[position + 1..] + later
  {
  }

  lemma PutMore(front: seq<Json>, record: Json, r: Reading)
    ensures Put(front, Put([record], r)) == Put(front + [record], r)
    ensures Put(front + [record], r).records[..|front| + 1] == front + [record]
  {
    assert front + ([record] + r.records) == front + [record] + r.records;
  }

  lemma ScanSkips(d: Decoder, mode: Mode, s: string, t: string)
    requires Stable(d) && SkipSpace(s) == SkipSpace(t)
    ensures Scan(d, mode, s) == Scan(d, mode, t)
  {
  }
}
