/**
 Putting the recall block in front of the user's latest message, once: the block carries a
 marker, and a message whose text already contains the marker is left alone.
 */
module RecallInjection {
  import PyText

  const MARKER := "Source: openviking-auto-recall"

  /** A block of an array content: text (with its other properties), or anything else. */
  datatype Block = TextBlock(text: string, extra: int) | OtherBlock(value: int)

  /** The shapes of a message content: a string, an array, or any other value. */
  datatype Content = Str(s: string) | Blocks(blocks: seq<Block>) | Other(value: int)

  datatype Message = Message(role: string, content: Content, extra: int)

  // ----- The code

  /** `buildRecallContextBlock`. */
  function BuildBlock(lines: seq<string>): string {
    PyText.Join(
      ["<relevant-memories>", MARKER, "The following OpenViking memories may be relevant:"] + lines + ["</relevant-memories>"],
      '\n')
  }

  /** The texts of the blocks, without the empty ones. */
  function Texts(blocks: seq<Block>): seq<string> {
    if blocks == [] then []
    else (if blocks[0].TextBlock? && blocks[0].text != "" then [blocks[0].text] else []) + Texts(blocks[1..])
  }

  /** `extractAgentMessageText`. */
  function ExtractText(content: Content): string {
    match content
    case Str(s) => s
    case Blocks(blocks) => PyText.Join(Texts(blocks), '\n')
    case Other(_) => ""
  }

  ghost predicate Contains(s: string, t: string) {
    exists i :: 0 <= i <= |s| && t <= s[i..]
  }

  /** `String.includes`, for the marker. */
  predicate HasMarker(s: string) {
    if |s| < |MARKER| then false else MARKER <= s || HasMarker(s[1..])
  }

  /** `hasAutoRecallBlock`. */
  predicate HasRecallBlock(m: Message) {
    HasMarker(ExtractText(m.content))
  }

  /** `prependTextToMessageContent`. A new text block has no other properties. */
  function PrependText(content: Content, text: string): Content {
    match content
    case Str(s) => Str(text + "\n\n" + s)
    case Blocks(blocks) =>
      if blocks == [] then Blocks([TextBlock(text, 0)])
      else if blocks[0].TextBlock? then Blocks([TextBlock(text + "\n\n" + blocks[0].text, blocks[0].extra)] + blocks[1..])
      else Blocks([TextBlock(text, 0)] + blocks)
    case Other(_) => Str(text)
  }

  /** `prependRecallToLatestUserMessage`. */
  function Inject(messages: seq<Message>, block: string): (r: seq<Message>)
    ensures |r| == |messages|
  {
    if messages == [] then messages
    else
      var n := |messages| - 1;
      var latest := messages[n];
      if latest.role != "user" || HasRecallBlock(latest) then messages
      else messages[..n] + [latest.(content := PrependText(latest.content, block))]
  }

  // ----- The marker is found

  lemma {:induction false} HasMarkerIff(s: string)
    ensures HasMarker(s) <==> Contains(s, MARKER)
  {
    if MARKER <= s {
      assert s[0..] == s;
    } else if s == [] {
      assert forall i :: 0 <= i <= 0 ==> s[i..] == [];
    } else {
      HasMarkerIff(s[1..]);
      if Contains(s[1..], MARKER) {
        var i :| 0 <= i <= |s[1..]| && MARKER <= s[1..][i..];
        assert s[1..][i..] == s[i + 1..];
      }
      if Contains(s, MARKER) {
        var i :| 0 <= i <= |s| && MARKER <= s[i..];
        assert i > 0 by {
          assert s[0..] == s;
        }
        assert s[1..][i - 1..] == s[i..];
      }
    }
  }

  lemma ContainsAround(a: string, t: string, b: string)
    ensures Contains(a + t + b, t)
  {
    assert (a + t + b)[|a|..] == t + b;
  }

  lemma ContainsWider(s: string, t: string, b: string)
    requires Contains(s, t)
    ensures Contains(s + b, t)
  {
    var i :| 0 <= i <= |s| && t <= s[i..];
    assert (s + b)[i..] == s[i..] + b;
  }

  lemma BlockHasMarker(lines: seq<string>)
    ensures Contains(BuildBlock(lines), MARKER)
  {
    var tail := ["The following OpenViking memories may be relevant:"] + lines + ["</relevant-memories>"];
    var head := "<relevant-memories>";
    assert ["<relevant-memories>", MARKER, "The following OpenViking memories may be relevant:"] + lines + ["</relevant-memories>"]
        == [head, MARKER] + tail;
    SecondJoined(head, MARKER, tail);
  }

  /** The second of several lines is contained in their join. */
  lemma SecondJoined(a: string, t: string, tail: seq<string>)
    requires tail != []
    ensures Contains(PyText.Join([a, t] + tail, '\n'), t)
  {
    var rest := PyText.Join(tail, '\n');
    assert ([a, t] + tail)[1..] == [t] + tail && ([t] + tail)[1..] == tail;
    assert PyText.Join([a, t] + tail, '\n') == a + ['\n'] + (t + ['\n'] + rest);
    Around(a + ['\n'], t, ['\n'], rest);
    ContainsAround(a + ['\n'], t, ['\n'] + rest);
  }

  lemma Around(a: string, t: string, b: string, c: string)
    ensures a + (t + b + c) == a + t + (b + c)
  {
  }

  /** The lines of a block: the opening tag, the marker, the sentence, the memory lines as
      they are and in their order, and the closing tag. */
  lemma BlockLines(lines: seq<string>)
    requires Plain(lines)
    ensures PyText.Split(BuildBlock(lines), '\n')
         == ["<relevant-memories>", "Source: openviking-auto-recall", "The following OpenViking memories may be relevant:"]
            + lines + ["</relevant-memories>"]
  {
    var head, tail := ["<relevant-memories>", MARKER, "The following OpenViking memories may be relevant:"], ["</relevant-memories>"];
    BorderPlain();
    PlainAppend(head, lines);
    PlainAppend(head + lines, tail);
    PyText.SplitJoin(head + lines + tail, '\n');
  }

  predicate Plain(lines: seq<string>) {
    forall i :: 0 <= i < |lines| ==> '\n' !in lines[i]
  }

  lemma BorderPlain()
    ensures Plain(["<relevant-memories>", MARKER, "The following OpenViking memories may be relevant:"])
    ensures Plain(["</relevant-memories>"])
  {
    SentencePlain();
    assert '\n' !in "<relevant-memories>" && '\n' !in MARKER && '\n' !in "</relevant-memories>";
  }

  lemma SentencePlain()
    ensures '\n' !in "The following OpenViking memories may be relevant:"
  {
    var a, b := "The following OpenViking ", "memories may be relevant:";
    assert '\n' !in a && '\n' !in b;
    AppendPlain(a, b);
    assert a + b == "The following OpenViking memories may be relevant:";
  }

  lemma AppendPlain(a: string, b: string)
    requires '\n' !in a && '\n' !in b
    ensures '\n' !in a + b
  {
  }

  lemma PlainAppend(a: seq<string>, b: seq<string>)
    requires Plain(a) && Plain(b)
    ensures Plain(a + b)
  {
  }

  lemma {:induction false} JoinAppend(a: seq<string>, b: seq<string>)
    requires a != [] && b != []
    ensures PyText.Join(a + b, '\n') == PyText.Join(a, '\n') + ['\n'] + PyText.Join(b, '\n')
  {
    assert (a + b)[1..] == a[1..] + b;
    if |a| == 1 {
      assert a[1..] + b == b;
    } else {
      JoinAppend(a[1..], b);
      Around(a[0] + ['\n'], PyText.Join(a[1..], '\n'), ['\n'], PyText.Join(b, '\n'));
      assert PyText.Join(a, '\n') + ['\n'] + PyText.Join(b, '\n')
          == a[0] + ['\n'] + PyText.Join(a[1..], '\n') + (['\n'] + PyText.Join(b, '\n'));
    }
  }

  lemma MiddleJoined(head: seq<string>, lines: seq<string>, tail: seq<string>)
    requires head != [] && lines != [] && tail != []
    ensures Contains(PyText.Join(head + lines + tail, '\n'), PyText.Join(lines, '\n'))
  {
    var a, t, b := PyText.Join(head, '\n'), PyText.Join(lines, '\n'), PyText.Join(tail, '\n');
    JoinAppend(head + lines, tail);
    JoinAppend(head, lines);
    assert a + ['\n'] + t + ['\n'] + b == a + ['\n'] + t + (['\n'] + b);
    ContainsAround(a + ['\n'], t, ['\n'] + b);
  }

  /** Whatever the lines are, the block contains them, joined by newlines. */
  lemma BlockContains(lines: seq<string>)
    ensures Contains(BuildBlock(lines), PyText.Join(lines, '\n'))
  {
    if lines == [] {
      var s := BuildBlock(lines);
      assert "" <= s[0..];
    } else {
      var head, tail := ["<relevant-memories>", MARKER, "The following OpenViking memories may be relevant:"], ["</relevant-memories>"];
      MiddleJoined(head, lines, tail);
    }
  }

  lemma JoinStarts(first: string, rest: seq<string>)
    ensures first <= PyText.Join([first] + rest, '\n')
  {
    assert ([first] + rest)[1..] == rest;
  }

  lemma StartContains(s: string, t: string, u: string)
    requires s <= u && Contains(s, t)
    ensures Contains(u, t)
  {
    assert u == s + u[|s|..];
    ContainsWider(s, t, u[|s|..]);
  }

  lemma PrependFirst(content: Content, block: string)
    requires block != ""
    ensures block <= ExtractText(PrependText(content, block))
  {
    var c := PrependText(content, block);
    if c.Blocks? {
      var first := c.blocks[0].text;
      assert block <= first;
      assert Texts(c.blocks) == [first] + Texts(c.blocks[1..]);
      JoinStarts(first, Texts(c.blocks[1..]));
    }
  }

  /** Every content shape shows the marker after a block that has it was put in front. */
  lemma PrependShows(content: Content, block: string)
    requires Contains(block, MARKER)
    ensures HasMarker(ExtractText(PrependText(content, block)))
  {
    var text := ExtractText(PrependText(content, block));
    assert block != "" by {
      assert MARKER != "";
    }
    PrependFirst(content, block);
    StartContains(block, MARKER, text);
    HasMarkerIff(text);
  }

  // ----- Injecting

  /** Injecting a recall block twice is injecting it once, whatever the messages are, also
      when the second block is another one. */
  lemma InjectTwice(messages: seq<Message>, lines: seq<string>, others: seq<string>)
    ensures Inject(Inject(messages, BuildBlock(lines)), BuildBlock(others)) == Inject(messages, BuildBlock(lines))
  {
    var once := Inject(messages, BuildBlock(lines));
    if once != messages {
      BlockHasMarker(lines);
      PrependShows(messages[|messages| - 1].content, BuildBlock(lines));
    }
  }

  /** All messages but the latest are kept; the latest keeps its role and its other
      properties, it changes exactly when it is a user message without a recall block, and
      a user message has a recall block afterwards. */
  lemma InjectKeeps(messages: seq<Message>, lines: seq<string>)
    requires messages != []
    ensures var n, r := |messages| - 1, Inject(messages, BuildBlock(lines));
            && |r| == |messages| && r[..n] == messages[..n]
            && r[n].role == messages[n].role && r[n].extra == messages[n].extra
            && (r == messages <==> messages[n].role != "user" || HasRecallBlock(messages[n]))
            && (messages[n].role == "user" ==> HasRecallBlock(r[n]))
  {
    var n := |messages| - 1;
    if messages[n].role == "user" && !HasRecallBlock(messages[n]) {
      BlockHasMarker(lines);
      PrependShows(messages[n].content, BuildBlock(lines));
    }
  }

  /** The blocks of an array content that are not text. */
  ghost function NonTexts(content: Content): seq<Block> {
    if content.Blocks? then NonTextBlocks(content.blocks) else []
  }

  ghost function NonTextBlocks(blocks: seq<Block>): seq<Block> {
    if blocks == [] then []
    else (if blocks[0].TextBlock? then [] else [blocks[0]]) + NonTextBlocks(blocks[1..])
  }

  predicate Newlines(s: string) {
    forall i :: 0 <= i < |s| ==> s[i] == '\n'
  }

  /** `t` is the block, newlines, and the old text. */
  ghost predicate Headed(t: string, block: string, earlier: string) {
    exists sep :: Newlines(sep) && t == block + sep + earlier && (earlier != "" ==> sep != "")
  }

  lemma HeadedBy(t: string, block: string, sep: string, earlier: string)
    requires Newlines(sep) && t == block + sep + earlier && (earlier != "" ==> sep != "")
    ensures Headed(t, block, earlier)
  {
  }

  lemma JoinOne(first: string, rest: seq<string>)
    ensures PyText.Join([first] + rest, '\n') == if rest == [] then first else first + "\n" + PyText.Join(rest, '\n')
  {
    assert ([first] + rest)[1..] == rest;
  }

  lemma JoinHeaded(block: string, earlier: string, rest: seq<string>)
    ensures var t := PyText.Join([block + "\n\n" + earlier] + rest, '\n');
            var joined := PyText.Join(if earlier == "" then rest else [earlier] + rest, '\n');
            Headed(t, block, joined) && (earlier != "" ==> t == block + "\n\n" + joined)
  {
    var t, k := PyText.Join([block + "\n\n" + earlier] + rest, '\n'), PyText.Join(rest, '\n');
    JoinOne(block + "\n\n" + earlier, rest);
    JoinOne(earlier, rest);
    if earlier != "" {
      var joined := PyText.Join([earlier] + rest, '\n');
      assert t == block + "\n\n" + joined;
      HeadedBy(t, block, "\n\n", joined);
    } else if rest == [] {
      HeadedBy(t, block, "\n\n", "");
    } else {
      assert t == block + "\n\n\n" + k;
      HeadedBy(t, block, "\n\n\n", k);
    }
  }

  lemma JoinHeadedPlain(block: string, rest: seq<string>)
    ensures Headed(PyText.Join([block] + rest, '\n'), block, PyText.Join(rest, '\n'))
  {
    JoinOne(block, rest);
    if rest == [] {
      assert block == block + "" + "";
      HeadedBy(block, block, "", "");
    } else {
      HeadedBy(block + "\n" + PyText.Join(rest, '\n'), block, "\n", PyText.Join(rest, '\n'));
    }
  }

  /** The content begins with text that is not empty. */
  predicate BeginsWithText(content: Content) {
    match content
    case Str(s) => s != ""
    case Blocks(blocks) => blocks != [] && blocks[0].TextBlock? && blocks[0].text != ""
    case Other(_) => false
  }

  /** The text is the block, newlines and the old text, and nothing else; a text at the
      beginning is set off by one empty line. The blocks that are not text are kept, and
      so are the properties of a text block that the block was put into, and all after it. */
  lemma TextKept(content: Content, block: string)
    requires block != ""
    ensures Headed(ExtractText(PrependText(content, block)), block, ExtractText(content))
    ensures BeginsWithText(content) ==> ExtractText(PrependText(content, block)) == block + "\n\n" + ExtractText(content)
    ensures NonTexts(PrependText(content, block)) == NonTexts(content)
    ensures content.Blocks? && content.blocks != [] && content.blocks[0].TextBlock? ==>
      var now := PrependText(content, block);
      now.Blocks? && now.blocks != [] && now.blocks[0].TextBlock? && now.blocks[0].extra == content.blocks[0].extra
      && now.blocks[1..] == content.blocks[1..]
  {
    match content
    case Str(s) => HeadedBy(block + "\n\n" + s, block, "\n\n", s);
    case Other(_) =>
      assert block == block + "" + "";
      HeadedBy(block, block, "", "");
    case Blocks(blocks) =>
      var c := PrependText(content, block).blocks;
      if blocks == [] {
        assert Texts(blocks) == [] && c[1..] == blocks;
        JoinHeadedPlain(block, []);
        assert [block] + [] == [block];
      } else if blocks[0].TextBlock? {
        var was, rest := blocks[0].text, Texts(blocks[1..]);
        assert c[1..] == blocks[1..] && Texts(c) == [block + "\n\n" + was] + rest;
        assert Texts(blocks) == if was == "" then rest else [was] + rest;
        JoinHeaded(block, was, rest);
      } else {
        assert c[1..] == blocks && Texts(c) == [block] + Texts(blocks);
        JoinHeadedPlain(block, Texts(blocks));
      }
  }

  /** After the injection into a user message without a block, the text of the message is
      the block with all the memory lines, and behind it the text that was there. */
  lemma InjectShows(messages: seq<Message>, lines: seq<string>)
    requires messages != [] && messages[|messages| - 1].role == "user" && !HasRecallBlock(messages[|messages| - 1])
    ensures var n := |messages| - 1;
            var text := ExtractText(Inject(messages, BuildBlock(lines))[n].content);
            && Headed(text, BuildBlock(lines), ExtractText(messages[n].content))
            && Contains(text, PyText.Join(lines, '\n'))
  {
    var n := |messages| - 1;
    var block := BuildBlock(lines);
    var text := ExtractText(Inject(messages, block)[n].content);
    BlockHasMarker(lines);
    assert block != "";
    TextKept(messages[n].content, block);
    BlockContains(lines);
    var sep :| Newlines(sep) && text == block + sep + ExtractText(messages[n].content);
    StartContains(block, PyText.Join(lines, '\n'), text);
  }
}
