/**
 The memory lines that the plugin injects: one line for each recalled memory, and the
 greedy selection of whole lines that fits a character budget.
 */
module RecallLines {
  import PyText
  import opened Wrappers

  datatype Memory = Memory(uri: string, category: Option<string>, summary: Option<string>, level: int)

  datatype Options = Options(
    preferAbstract: bool, includeUri: bool, maxInjectedChars: Option<int>, tokenBudget: Option<int>)

  /** The content behind a `uri`; `None` when reading throws or gives no text. */
  type Reader = string -> Option<string>

  // ----- Formatting

  /** The white space of JavaScript's `trim`. */
  predicate IsJsSpace(c: char) {
    var n := c as int;
    || 0x09 <= n <= 0x0D || n == 0x20 || n == 0xA0 || n == 0x1680 || 0x2000 <= n <= 0x200A
    || n == 0x2028 || n == 0x2029 || n == 0x202F || n == 0x205F || n == 0x3000 || n == 0xFEFF
  }

  /** It is that of Python but for five control characters, and the byte order mark. */
  lemma SpaceTables(c: char)
    ensures IsJsSpace(c) <==> (PyText.IsSpace(c) && c as int !in {0x1C, 0x1D, 0x1E, 0x1F, 0x85}) || c as int == 0xFEFF
  {
  }

  function Trim(s: string): string {
    PyText.Strip(s, c => IsJsSpace(c))
  }

  /** `value?.trim() || fallback`. */
  function TrimOr(value: Option<string>, fallback: string): string {
    if value.Some? && Trim(value.value) != "" then Trim(value.value) else fallback
  }

  function IndentFrom(lines: seq<string>): seq<string> {
    if lines == [] then [] else ["  " + lines[0]] + IndentFrom(lines[1..])
  }

  function IndentContent(content: string): string {
    PyText.Join(IndentFrom(PyText.Split(content, '\n')), '\n')
  }

  /** `formatMemoryLine`. */
  function FormatMemoryLine(item: Memory, content: string, options: Options): (line: string)
    ensures |line| >= 4
  {
    var category := TrimOr(item.category, "memory");
    if !options.includeUri then "- [" + category + "] " + content
    else "- [" + category + "]" + "\n" + "  <uri>" + item.uri + "</uri>" + "\n" + IndentContent(content)
  }

  /** `resolveMemoryContent`. */
  function ResolveContent(item: Memory, read: Reader, options: Options): string {
    if options.preferAbstract && TrimOr(item.summary, "") != "" then TrimOr(item.summary, "")
    else if item.level == 2 then TrimOr(read(item.uri), TrimOr(item.summary, item.uri))
    else TrimOr(item.summary, item.uri)
  }

  function LineOf(item: Memory, read: Reader, options: Options): (line: string)
    ensures |line| >= 4
  {
    FormatMemoryLine(item, ResolveContent(item, read, options), options)
  }

  function AllLines(memories: seq<Memory>, read: Reader, options: Options): (lines: seq<string>)
    ensures |lines| == |memories|
    ensures forall i :: 0 <= i < |lines| ==> lines[i] == LineOf(memories[i], read, options)
  {
    seq(|memories|, i requires 0 <= i < |memories| => LineOf(memories[i], read, options))
  }

  /** `buildMemoryLines`. */
  method BuildMemoryLines(memories: seq<Memory>, read: Reader, options: Options) returns (lines: seq<string>)
    ensures lines == AllLines(memories, read, options)
  {
    lines := [];
    for i := 0 to |memories|
      invariant |lines| == i
      invariant forall j :: 0 <= j < i ==> lines[j] == LineOf(memories[j], read, options)
    {
      lines := lines + [LineOf(memories[i], read, options)];
    }
  }

  // ----- What a line says

  lemma {:induction false} IndentIs(lines: seq<string>)
    ensures |IndentFrom(lines)| == |lines|
    ensures forall i :: 0 <= i < |lines| ==> IndentFrom(lines)[i] == "  " + lines[i]
  {
    if lines != [] {
      IndentIs(lines[1..]);
    }
  }

  predicate OneLine(s: string) {
    '\n' !in s
  }

  lemma IndentedLines(content: string)
    ensures var parts := PyText.Split(content, '\n');
            PyText.Split(IndentContent(content), '\n') == IndentFrom(parts)
  {
    var parts := PyText.Split(content, '\n');
    IndentIs(parts);
    PyText.SplitJoin(IndentFrom(parts), '\n');
  }

  lemma HeaderLines(a: string, b: string, rest: string)
    requires OneLine(a) && OneLine(b)
    ensures PyText.Split(a + "\n" + b + "\n" + rest, '\n') == [a, b] + PyText.Split(rest, '\n')
  {
    assert a + "\n" + b + "\n" + rest == a + ['\n'] + (b + ['\n'] + rest);
    PyText.SplitAt(a, b + ['\n'] + rest, '\n');
    PyText.SplitAt(b, rest, '\n');
  }

  /** There is something to show: a character that is not white space. */
  ghost predicate HasText(value: Option<string>) {
    value.Some? && exists i :: 0 <= i < |value.value| && !IsJsSpace(value.value[i])
  }

  ghost predicate IsTrimmed(t: string, s: string) {
    PyText.IsStripped(t, s, c => IsJsSpace(c))
  }

  lemma TrimIs(s: string)
    ensures IsTrimmed(Trim(s), s)
    ensures Trim(s) != "" <==> HasText(Some(s))
  {
    var p := c => IsJsSpace(c);
    PyText.StripIs(s, p);
    var t := Trim(s);
    var i :| 0 <= i <= |s| - |t| && PyText.IsMiddle(t, s, p, i);
    if t != "" {
      assert s[i] == t[0];
    }
  }

  lemma TrimOrIs(value: Option<string>, fallback: string)
    ensures var r := TrimOr(value, fallback);
            if HasText(value) then r != "" && IsTrimmed(r, value.value) else r == fallback
  {
    if value.Some? {
      TrimIs(value.value);
    }
  }

  /** What a memory shows: its abstract when that is preferred, or when there is no other text;
      the text read, for a memory of level 2; and its address when there is neither. */
  lemma ContentIs(item: Memory, read: Reader, options: Options)
    ensures var r := ResolveContent(item, read, options);
            var full := item.level == 2 && HasText(read(item.uri));
            if HasText(item.summary) && (options.preferAbstract || !full) then IsTrimmed(r, item.summary.value)
            else if full then IsTrimmed(r, read(item.uri).value)
            else r == item.uri
  {
    TrimOrIs(item.summary, "");
    TrimOrIs(item.summary, item.uri);
    TrimOrIs(read(item.uri), TrimOr(item.summary, item.uri));
  }

  /** The category that is shown: the trimmed one, or "memory". */
  ghost predicate IsCategory(category: string, item: Memory) {
    if HasText(item.category) then IsTrimmed(category, item.category.value) else category == "memory"
  }

  /** One line for the category, one for the address and the lines of the content, each
      behind two blanks. */
  ghost predicate Shows(lines: seq<string>, category: string, uri: string, content: string) {
    var parts := PyText.Split(content, '\n');
    && PyText.Join(parts, '\n') == content
    && |lines| == |parts| + 2 && lines[0] == "- [" + category + "]" && lines[1] == "  <uri>" + uri + "</uri>"
    && forall i :: 0 <= i < |parts| ==> lines[i + 2] == "  " + parts[i]
  }

  lemma UriLines(category: string, uri: string, content: string)
    requires OneLine(category) && OneLine(uri)
    ensures Shows(
      PyText.Split("- [" + category + "]" + "\n" + "  <uri>" + uri + "</uri>" + "\n" + IndentContent(content), '\n'),
      category, uri, content)
  {
    var a, b, rest := "- [" + category + "]", "  <uri>" + uri + "</uri>", IndentContent(content);
    assert "- [" + category + "]" + "\n" + "  <uri>" + uri + "</uri>" + "\n" + rest == a + "\n" + b + "\n" + rest;
    HeaderLines(a, b, rest);
    IndentedLines(content);
    IndentIs(PyText.Split(content, '\n'));
    PyText.JoinSplit(content, '\n');
  }

  /** A memory line shows the category and the content; with the address asked for, and
      neither it nor the category spread over several lines, on lines of their own. */
  lemma LineShows(item: Memory, content: string, options: Options)
    ensures var line := FormatMemoryLine(item, content, options);
            exists category :: IsCategory(category, item) &&
              if !options.includeUri then line == "- [" + category + "] " + content
              else OneLine(category) && OneLine(item.uri) ==> Shows(PyText.Split(line, '\n'), category, item.uri, content)
  {
    var category := TrimOr(item.category, "memory");
    TrimOrIs(item.category, "memory");
    assert IsCategory(category, item);
    if options.includeUri && OneLine(category) && OneLine(item.uri) {
      UriLines(category, item.uri, content);
    }
  }

  // ----- The selection

  function CharBudget(options: Options): int {
    if options.maxInjectedChars.Some? then options.maxInjectedChars.value
    else if options.tokenBudget.Some? then options.tokenBudget.value
    else 0
  }

  /** The length of `lines.join("\n")`. */
  function JoinedLength(lines: seq<string>): nat {
    |PyText.Join(lines, '\n')|
  }

  /** What the lines would measure with one more at the end. */
  function Projected(lines: seq<string>, line: string): nat {
    JoinedLength(lines) + (if lines == [] then 0 else 1) + |line|
  }

  lemma {:induction false} JoinedMore(lines: seq<string>, line: string)
    ensures JoinedLength(lines + [line]) == Projected(lines, line)
  {
    if lines != [] {
      assert (lines + [line])[1..] == lines[1..] + [line];
      JoinedMore(lines[1..], line);
      if |lines| == 1 {
        assert lines[1..] == [];
      }
    }
  }

  /** Going through all the lines and keeping each that still fits. */
  function Chosen(all: seq<string>, budget: int): (lines: seq<string>) {
    if all == [] then []
    else
      var n := |all| - 1;
      var lines := Chosen(all[..n], budget);
      if Projected(lines, all[n]) <= budget then lines + [all[n]] else lines
  }

  function Tokens(lines: seq<string>, estimate: string -> nat): nat {
    if lines == [] then 0 else Tokens(lines[..|lines| - 1], estimate) + estimate(lines[|lines| - 1])
  }

  /** Once the budget is used up no line fits any more, since no line is empty. */
  lemma {:induction false} BreakIsSafe(all: seq<string>, budget: int, i: nat)
    requires i <= |all| && forall k :: 0 <= k < |all| ==> |all[k]| >= 1
    requires JoinedLength(Chosen(all[..i], budget)) >= budget
    ensures Chosen(all, budget) == Chosen(all[..i], budget)
    decreases |all|
  {
    if i == |all| {
      assert all[..i] == all;
    } else {
      var n := |all| - 1;
      assert all[..n][..i] == all[..i];
      BreakIsSafe(all[..n], budget, i);
    }
  }

  /** `buildMemoryLinesWithBudget`, with the early `break`: the lines of the full greedy
      pass, and their token estimate. */
  method BuildMemoryLinesWithBudget(memories: seq<Memory>, read: Reader, options: Options, estimate: string -> nat)
    returns (lines: seq<string>, estimatedTokens: nat)
    ensures var all := AllLines(memories, read, options);
            && (options.maxInjectedChars.Some? ==> lines == Chosen(all, options.maxInjectedChars.value))
            && (options.maxInjectedChars.None? && options.tokenBudget.Some? ==> lines == Chosen(all, options.tokenBudget.value))
            && (options.maxInjectedChars.None? && options.tokenBudget.None? ==> lines == [])
    ensures estimatedTokens == Tokens(lines, estimate)
  {
    lines, estimatedTokens := SelectLines(
      memories, m => LineOf(m, read, options), CharBudget(options), estimate, AllLines(memories, read, options));
    BreakIsSafe(AllLines(memories, read, options), 0, 0);
  }

  /** The loop of the selection; `format` makes the line of a memory. */
  method SelectLines(memories: seq<Memory>, format: Memory -> string, charBudget: int, estimate: string -> nat, ghost all: seq<string>)
    returns (lines: seq<string>, totalTokens: nat)
    requires |all| == |memories| && forall i :: 0 <= i < |all| ==> all[i] == format(memories[i])
    requires forall i :: 0 <= i < |all| ==> |all[i]| >= 1
    ensures lines == Chosen(all, charBudget) && totalTokens == Tokens(lines, estimate)
  {
    lines, totalTokens := [], 0;
    var totalChars := 0;
    for i := 0 to |memories|
      invariant lines == Chosen(all[..i], charBudget)
      invariant totalChars == JoinedLength(lines) && totalTokens == Tokens(lines, estimate)
    {
      if totalChars >= charBudget {
        BreakIsSafe(all, charBudget, i);
        return;
      }
      var line := format(memories[i]);
      var separatorChars := if |lines| > 0 then 1 else 0;
      var projectedChars := totalChars + separatorChars + |line|;
      assert all[..i + 1][..i] == all[..i];
      if projectedChars > charBudget {
        continue;
      }
      JoinedMore(lines, line);
      TokensMore(lines, line, estimate);
      lines := lines + [line];
      totalTokens := totalTokens + estimate(line);
      totalChars := projectedChars;
    }
    assert all[..|memories|] == all;
  }

  lemma TokensMore(lines: seq<string>, line: string, estimate: string -> nat)
    ensures Tokens(lines + [line], estimate) == Tokens(lines, estimate) + estimate(line)
  {
    assert (lines + [line])[..|lines|] == lines;
  }

  // ----- What the selection is worth

  /** The positions of the lines chosen. */
  function Picks(all: seq<string>, budget: int): (picks: seq<nat>)
  {
    if all == [] then []
    else
      var n := |all| - 1;
      Picks(all[..n], budget) + if Projected(Chosen(all[..n], budget), all[n]) <= budget then [n] else []
  }

  /** The lines chosen are those at increasing positions: whole lines, in their order. */
  lemma {:induction false} ChosenInOrder(all: seq<string>, budget: int)
    ensures var picks, lines := Picks(all, budget), Chosen(all, budget);
            && |picks| == |lines|
            && (forall k :: 0 <= k < |picks| ==> picks[k] < |all| && lines[k] == all[picks[k]])
            && (forall a, b :: 0 <= a < b < |picks| ==> picks[a] < picks[b])
  {
    if all != [] {
      ChosenInOrder(all[..|all| - 1], budget);
    }
  }

  /** Joined with newlines they stay within the budget, unless there are none. */
  lemma {:induction false} ChosenFits(all: seq<string>, budget: int)
    ensures Chosen(all, budget) != [] ==> JoinedLength(Chosen(all, budget)) <= budget
  {
    if all != [] {
      var n := |all| - 1;
      ChosenFits(all[..n], budget);
      JoinedMore(Chosen(all[..n], budget), all[n]);
    }
  }

  /** No line that was left out fits at the end of the chosen ones. */
  lemma {:induction false} ChosenMaximal(all: seq<string>, budget: int, i: nat)
    requires i < |all| && i !in Picks(all, budget)
    ensures Projected(Chosen(all, budget), all[i]) > budget
  {
    var n := |all| - 1;
    var before := Chosen(all[..n], budget);
    JoinedMore(before, all[n]);
    if i < n {
      ChosenMaximal(all[..n], budget, i);
    }
  }
}
