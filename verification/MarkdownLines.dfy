/** Lines as CommonMark 0.31.2 section 2.1 cuts them: at LF, at CR LF, and at a CR alone. */
module MarkdownLines {
  import opened Sorting

  /** A line and the characters that end it ("" only for an unterminated last line). */
  datatype Line = Line(content: string, ending: string)

  predicate IsEol(c: char) {
    c == '\n' || c == '\r'
  }

  function ContentLength(text: string): (n: nat)
    ensures n <= |text|
    ensures forall i :: 0 <= i < n ==> !IsEol(text[i])
    ensures n < |text| ==> IsEol(text[n])
  {
    if text == [] || IsEol(text[0]) then 0 else 1 + ContentLength(text[1..])
  }

  /** Length of the line ending at the start of `rest`. */
  function EndingLength(rest: string): (n: nat)
    ensures n <= |rest|
  {
    if rest == [] then 0
    else if rest[0] == '\r' && |rest| > 1 && rest[1] == '\n' then 2
    else 1
  }

  /** The line `text` opens with. */
  function FirstLine(text: string): Line {
    var n := ContentLength(text);
    Line(text[..n], text[n..][..EndingLength(text[n..])])
  }

  function LineLength(line: Line): nat {
    |line.content| + |line.ending|
  }

  function Full(line: Line): string {
    line.content + line.ending
  }

  lemma FirstLineIsPrefix(text: string)
    requires text != []
    ensures 0 < LineLength(FirstLine(text)) <= |text|
    ensures text[..LineLength(FirstLine(text))] == Full(FirstLine(text))
  {
    var n := ContentLength(text);
    var e := EndingLength(text[n..]);
    assert text[..n + e] == text[..n] + text[n..][..e];
  }

  function Split(text: string): seq<Line> {
    if text == [] then []
    else
      FirstLineIsPrefix(text);
      [FirstLine(text)] + Split(text[LineLength(FirstLine(text))..])
  }

  lemma SplitCons(text: string, line: Line)
    requires text != [] && FirstLine(text) == line
    ensures 0 < LineLength(line) <= |text|
    ensures Split(text) == [line] + Split(text[LineLength(line)..])
  {
    FirstLineIsPrefix(text);
  }

  function Join(lines: seq<Line>): string {
    if lines == [] then [] else Full(lines[0]) + Join(lines[1..])
  }

  lemma JoinCons(line: Line, rest: seq<Line>)
    ensures Join([line] + rest) == Full(line) + Join(rest)
  {
    assert ([line] + rest)[1..] == rest;
  }

  lemma FirstLineThenRest(text: string)
    requires text != []
    ensures LineLength(FirstLine(text)) <= |text|
    ensures Full(FirstLine(text)) + text[LineLength(FirstLine(text))..] == text
  {
    FirstLineIsPrefix(text);
    var n := LineLength(FirstLine(text));
    assert text[..n] + text[n..] == text;
  }

  /** The keepends lines concatenate to the text. */
  lemma {:induction false} JoinSplit(text: string)
    ensures Join(Split(text)) == text
    decreases |text|
  {
    if text == [] {
    } else {
      var line := FirstLine(text);
      SplitCons(text, line);
      var rest := text[LineLength(line)..];
      JoinSplit(rest);
      JoinCons(line, Split(rest));
      FirstLineThenRest(text);
    }
  }

  // ---- which sequences of lines come from a text

  predicate Bare(s: string) {
    forall i :: 0 <= i < |s| ==> !IsEol(s[i])
  }

  predicate Terminated(line: Line) {
    Bare(line.content) && (line.ending == "\n" || line.ending == "\r" || line.ending == "\r\n")
  }

  /** Lines in order, all terminated but possibly the last. */
  predicate Lines(lines: seq<Line>) {
    && (forall i :: 0 <= i < |lines| ==> Bare(lines[i].content))
    && (forall i :: 0 <= i < |lines| - 1 ==> Terminated(lines[i]))
    && (lines != [] ==>
          Terminated(lines[|lines| - 1])
          || (lines[|lines| - 1].ending == "" && lines[|lines| - 1].content != ""))
  }

  lemma FirstLineShape(text: string)
    requires text != []
    ensures Bare(FirstLine(text).content)
    ensures Terminated(FirstLine(text)) || (FirstLine(text).ending == "" && FirstLine(text).content == text)
  {
    var n := ContentLength(text);
    var rest := text[n..];
    if rest != [] {
      assert rest[0] == text[n];
      var e := rest[..EndingLength(rest)];
      assert e == if rest[0] == '\r' && |rest| > 1 && rest[1] == '\n' then "\r\n" else [rest[0]];
    }
  }

  lemma {:induction false} SplitGivesLines(text: string)
    ensures Lines(Split(text))
    decreases |text|
  {
    if text == [] {
    } else {
      FirstLineIsPrefix(text);
      FirstLineShape(text);
      var n := LineLength(FirstLine(text));
      SplitGivesLines(text[n..]);
      var s, t := Split(text), Split(text[n..]);
      assert s == [FirstLine(text)] + t;
      if t == [] {
        assert s[|s| - 1] == FirstLine(text);
      } else {
        assert s[|s| - 1] == t[|t| - 1];
        assert |text[n..]| > 0;
      }
    }
  }

  // ---- joining lines back together

  /** A lone CR followed by a line that is just LF reads as one CR LF ending: the empty line
      disappears. Nothing else changes when lines are joined. */
  function Merged(lines: seq<Line>): seq<Line> {
    if Merges(lines) then
      [Line(lines[0].content, "\r\n")] + Merged(lines[2..])
    else if lines == [] then []
    else [lines[0]] + Merged(lines[1..])
  }

  lemma ContentLengthIs(content: string, rest: string)
    requires Bare(content) && (rest != [] ==> IsEol(rest[0]))
    ensures ContentLength(content + rest) == |content|
  {
    var t := content + rest;
    assert forall i :: 0 <= i < |content| ==> t[i] == content[i];
    assert rest != [] ==> t[|content|] == rest[0];
  }

  /** Reading the first line back off joined text. */
  lemma FirstOfJoined(content: string, ending: string, rest: string)
    requires Terminated(Line(content, ending))
    requires ending == "\r" && rest != [] ==> rest[0] != '\n'
    ensures FirstLine(content + (ending + rest)) == Line(content, ending)
    ensures (content + (ending + rest))[|content| + |ending|..] == rest
  {
    var t := content + (ending + rest);
    assert (ending + rest)[0] == ending[0];
    ContentLengthIs(content, ending + rest);
    assert t[..|content|] == content && t[|content|..] == ending + rest;
    assert ending == "\r" && rest != [] ==> (ending + rest)[1] == rest[0];
    assert ending == "\r\n" ==> (ending + rest)[1] == '\n';
    assert EndingLength(ending + rest) == |ending|;
    assert (ending + rest)[..|ending|] == ending;
    assert t[|content| + |ending|..] == rest;
  }

  lemma SplitOfJoined(content: string, ending: string, rest: string)
    requires Terminated(Line(content, ending))
    requires ending == "\r" && rest != [] ==> rest[0] != '\n'
    ensures Split(content + (ending + rest)) == [Line(content, ending)] + Split(rest)
  {
    var t := content + (ending + rest);
    FirstOfJoined(content, ending, rest);
    SplitCons(t, Line(content, ending));
    assert t[LineLength(Line(content, ending))..] == rest;
  }

  lemma JoinedStart(lines: seq<Line>)
    requires Lines(lines) && lines != []
    ensures Join(lines) != [] && (Join(lines)[0] == '\n' <==> lines[0] == Line("", "\n"))
  {
    var first := lines[0];
    if first.content != "" { assert Join(lines)[0] == first.content[0]; }
    else { assert Join(lines)[0] == first.ending[0]; }
  }

  lemma TailIsLines(lines: seq<Line>, k: nat)
    requires Lines(lines) && k <= |lines|
    ensures Lines(lines[k..])
  {
    var tail := lines[k..];
    forall i | 0 <= i < |tail| - 1 ensures Terminated(tail[i]) { assert tail[i] == lines[k + i]; }
    if tail != [] { assert tail[|tail| - 1] == lines[|lines| - 1]; }
  }

  lemma SplitLast(line: Line)
    requires Bare(line.content) && line.content != "" && line.ending == ""
    ensures Split(Full(line)) == [line]
  {
    assert Full(line) == line.content + "";
    ContentLengthIs(line.content, "");
    assert Full(line)[..|line.content|] == line.content;
  }

  predicate Merges(lines: seq<Line>) {
    |lines| >= 2 && lines[0].ending == "\r" && lines[1] == Line("", "\n")
  }

  lemma SplitOfMerging(lines: seq<Line>)
    requires Lines(lines) && Merges(lines)
    ensures Split(Join(lines)) == [Line(lines[0].content, "\r\n")] + Split(Join(lines[2..]))
    ensures Lines(lines[2..])
  {
    var content, later := lines[0].content, Join(lines[2..]);
    assert lines[1..][1..] == lines[2..];
    assert Join(lines[1..]) == "\n" + later;
    assert Join(lines) == (content + "\r") + ("\n" + later);
    Reassociate(content, "\r", "\n" + later);
    Reassociate("\r", "\n", later);
    assert "\r" + "\n" == "\r\n";
    TailIsLines(lines, 2);
    SplitOfJoined(content, "\r\n", later);
  }

  lemma SplitOfPlain(lines: seq<Line>)
    requires Lines(lines) && lines != [] && !Merges(lines)
    ensures Split(Join(lines)) == [lines[0]] + Split(Join(lines[1..]))
    ensures Lines(lines[1..])
  {
    var first, rest := lines[0], lines[1..];
    TailIsLines(lines, 1);
    assert Join(lines) == first.content + (first.ending + Join(rest));
    if first.ending == "" {
      assert |lines| == 1;
      SplitLast(first);
      assert Join(lines) == Full(first);
    } else {
      assert Terminated(first);
      if rest != [] { JoinedStart(rest); }
      SplitOfJoined(first.content, first.ending, Join(rest));
    }
  }

  /** Splitting joined lines gives them back, up to the one merge. */
  lemma {:induction false} SplitJoin(lines: seq<Line>)
    requires Lines(lines)
    ensures Split(Join(lines)) == Merged(lines)
    decreases |lines|
  {
    if lines == [] {
    } else if Merges(lines) {
      SplitOfMerging(lines);
      SplitJoin(lines[2..]);
    } else {
      SplitOfPlain(lines);
      SplitJoin(lines[1..]);
    }
  }

  /** Merging only ever drops lines: every content that remains was there before. */
  lemma {:induction false} MergedContents(lines: seq<Line>, i: nat) returns (j: nat)
    requires i < |Merged(lines)|
    ensures j < |lines| && lines[j].content == Merged(lines)[i].content
    decreases |lines|
  {
    if Merges(lines) {
      if i == 0 { j := 0; } else {
        var k := MergedContents(lines[2..], i - 1);
        j := k + 2;
      }
    } else if i == 0 {
      j := 0;
    } else {
      var k := MergedContents(lines[1..], i - 1);
      j := k + 1;
    }
  }

  // ---- the lines of a text, by its characters

  ghost predicate NoLineBreak(s: string) {
    forall i :: 0 <= i < |s| ==> s[i] != '\n' && s[i] != '\r'
  }

  /** No CR ends a line that a lone LF follows. */
  ghost predicate Apart(lines: seq<Line>) {
    forall i :: 0 < i < |lines| ==> lines[i - 1].ending == "\r" ==> lines[i] != Line("", "\n")
  }

  /** The lines make up the text, hold no line break, and end in LF, CR or CR LF, only the last perhaps in
      nothing; a CR and the LF after it are never two endings. */
  ghost predicate BreaksInto(text: string, lines: seq<Line>) {
    && Join(lines) == text
    && (forall i :: 0 <= i < |lines| ==> NoLineBreak(lines[i].content))
    && (forall i :: 0 <= i < |lines| ==>
          || lines[i].ending == "\n" || lines[i].ending == "\r" || lines[i].ending == "\r\n"
          || (i == |lines| - 1 && lines[i].ending == "" && lines[i].content != ""))
    && Apart(lines)
  }

  lemma {:induction false} MergedLength(lines: seq<Line>)
    ensures |Merged(lines)| <= |lines|
    ensures Apart(lines) ==> Merged(lines) == lines
    ensures !Apart(lines) ==> |Merged(lines)| < |lines|
    decreases |lines|
  {
    if Merges(lines) {
      MergedLength(lines[2..]);
      assert lines[1 - 1].ending == "\r" && lines[1] == Line("", "\n");
    } else if lines == [] {
    } else {
      var rest := lines[1..];
      MergedLength(rest);
      forall i | 0 < i < |rest| ensures rest[i - 1] == lines[i] && rest[i] == lines[i + 1] { }
      if i :| 0 < i < |lines| && lines[i - 1].ending == "\r" && lines[i] == Line("", "\n") {
        assert rest[i - 2].ending == "\r" && rest[i - 1] == Line("", "\n");
      }
    }
  }

  lemma {:induction false} BareIsUnbroken(s: string)
    ensures Bare(s) <==> NoLineBreak(s)
  {
  }

  lemma LinesAreUnbroken(lines: seq<Line>)
    requires Lines(lines) && Apart(lines)
    ensures BreaksInto(Join(lines), lines)
  {
    forall i | 0 <= i < |lines| ensures NoLineBreak(lines[i].content) { BareIsUnbroken(lines[i].content); }
  }

  lemma UnbrokenAreLines(text: string, lines: seq<Line>)
    requires BreaksInto(text, lines)
    ensures Lines(lines) && Apart(lines)
  {
    forall i | 0 <= i < |lines| ensures Bare(lines[i].content) { BareIsUnbroken(lines[i].content); }
  }

  /** `_MD_LINE_ENDING_RE` cuts a text into exactly one sequence of lines. */
  lemma {:induction false} LinesByText(text: string, lines: seq<Line>)
    ensures Split(text) == lines <==> BreaksInto(text, lines)
  {
    if Split(text) == lines {
      JoinSplit(text);
      SplitGivesLines(text);
      SplitJoin(lines);
      MergedLength(lines);
      LinesAreUnbroken(lines);
    }
    if BreaksInto(text, lines) {
      UnbrokenAreLines(text, lines);
      SplitJoin(lines);
      MergedLength(lines);
    }
  }

  // ---- `_md_split_lines`

  function Shown(line: Line, keepends: bool): string {
    if keepends then Full(line) else line.content
  }

  /** The next match of `\r\n|\r|\n` at or after pos. */
  method NextEnding(text: string, pos: nat) returns (found: bool, start: nat, end: nat)
    requires pos <= |text|
    ensures pos <= start <= end <= |text|
    ensures start == pos + ContentLength(text[pos..])
    ensures found <==> start < |text|
    ensures end == start + EndingLength(text[start..])
  {
    start := pos;
    while start < |text| && !IsEol(text[start])
      invariant pos <= start <= |text|
      invariant start - pos + ContentLength(text[start..]) == ContentLength(text[pos..])
    {
      assert text[start..][1..] == text[start + 1..];
      start := start + 1;
    }
    found := start < |text|;
    end := start;
    if found {
      end := if text[start] == '\r' && start + 1 < |text| && text[start + 1] == '\n' then start + 2 else start + 1;
    }
  }

  ghost predicate SplitSoFar(text: string, keepends: bool, pos: nat, lines: seq<string>) {
    && pos <= |text|
    && |lines| + |Split(text[pos..])| == |Split(text)|
    && Split(text)[|lines|..] == Split(text[pos..])
    && forall i :: 0 <= i < |lines| ==> lines[i] == Shown(Split(text)[i], keepends)
  }

  lemma HeadLine(text: string, pos: nat, start: nat, end: nat)
    requires pos < |text| && pos <= start <= end <= |text|
    requires start == pos + ContentLength(text[pos..]) && end == start + EndingLength(text[start..])
    ensures FirstLine(text[pos..]) == Line(text[pos..start], text[start..end])
  {
    var rest := text[pos..];
    assert rest[start - pos..] == text[start..];
    assert rest[..start - pos] == text[pos..start];
    assert text[start..][..end - start] == text[start..end];
  }

  lemma SplitHead(text: string, pos: nat, start: nat, end: nat)
    requires pos < |text| && pos <= start <= end <= |text|
    requires start == pos + ContentLength(text[pos..]) && end == start + EndingLength(text[start..])
    ensures Split(text[pos..]) == [Line(text[pos..start], text[start..end])] + Split(text[end..])
    ensures pos < end
  {
    var rest, line := text[pos..], Line(text[pos..start], text[start..end]);
    HeadLine(text, pos, start, end);
    assert rest[LineLength(line)..] == text[end..];
    SplitCons(rest, line);
  }

  lemma ShownOneMore(all: seq<Line>, keepends: bool, lines: seq<string>, head: Line, tail: seq<Line>)
    requires |lines| <= |all| && all[|lines|..] == [head] + tail
    requires forall i :: 0 <= i < |lines| ==> lines[i] == Shown(all[i], keepends)
    ensures |lines| + 1 + |tail| == |all| && all[|lines| + 1..] == tail
    ensures forall i :: 0 <= i < |lines| + 1 ==> (lines + [Shown(head, keepends)])[i] == Shown(all[i], keepends)
  {
    var n := |lines|;
    assert all[n] == all[n..][0];
    assert all[n + 1..] == all[n..][1..];
  }

  lemma ShownSlice(text: string, keepends: bool, pos: nat, start: nat, end: nat)
    requires pos <= start <= end <= |text|
    ensures Shown(Line(text[pos..start], text[start..end]), keepends) == text[pos..if keepends then end else start]
  {
    assert text[pos..start] + text[start..end] == text[pos..end];
  }

  lemma SplitAdvance(text: string, keepends: bool, pos: nat, lines: seq<string>, start: nat, end: nat, line: string)
    requires SplitSoFar(text, keepends, pos, lines) && pos < |text|
    requires pos <= start <= end <= |text|
    requires start == pos + ContentLength(text[pos..]) && end == start + EndingLength(text[start..])
    requires line == text[pos..if keepends then end else start]
    ensures SplitSoFar(text, keepends, end, lines + [line]) && pos < end
  {
    SplitHead(text, pos, start, end);
    var l := Line(text[pos..start], text[start..end]);
    ShownSlice(text, keepends, pos, start, end);
    ShownOneMore(Split(text), keepends, lines, l, Split(text[end..]));
  }

  method SplitLines(text: string, keepends: bool) returns (lines: seq<string>)
    ensures |lines| == |Split(text)|
    ensures forall i :: 0 <= i < |lines| ==> lines[i] == Shown(Split(text)[i], keepends)
  {
    lines := [];
    var pos := 0;
    assert text[0..] == text;
    var found, start, end := NextEnding(text, pos);
    while found
      invariant SplitSoFar(text, keepends, pos, lines)
      invariant pos <= start <= end <= |text|
      invariant start == pos + ContentLength(text[pos..]) && end == start + EndingLength(text[start..])
      invariant found <==> start < |text|
      decreases |text| - pos
    {
      var line := text[pos..if keepends then end else start];
      SplitAdvance(text, keepends, pos, lines, start, end, line);
      lines, pos := lines + [line], end;
      found, start, end := NextEnding(text, pos);
    }
    if pos < |text| {
      SplitAdvance(text, keepends, pos, lines, |text|, |text|, text[pos..]);
      lines := lines + [text[pos..]];
    }
  }
}
