/** The block structure read off the characters of the lines: what opens and closes a fence, and what is
    quoted or a heading, without the scanner's own functions. */
module MarkdownText {
  import opened Sorting
  import opened MarkdownLines
  import opened MarkdownStructure
  import opened MarkdownStrip

  // ---- one line, in characters

  /** `columns` runs over the columns reached by the first n characters, all spaces and tabs: a space is one
      column, a tab goes to the next multiple of four. */
  ghost predicate Columns(line: string, n: nat, columns: seq<nat>) {
    && n <= |line| && |columns| == n + 1 && columns[0] == 0
    && forall i :: 0 <= i < n ==> ColumnStep(line[i], columns[i], columns[i + 1])
  }

  predicate ColumnStep(c: char, from: nat, to: nat) {
    || (c == ' ' && to == from + 1)
    || (c == '\t' && to % 4 == 0 && from < to <= from + 4)
  }

  /** The line is `rest` after an indent of at most the given number of columns. */
  ghost predicate Indented(line: string, maxIndent: Option<int>, rest: string) {
    exists n: nat, columns ::
      && Columns(line, n, columns) && rest == line[n..]
      && (rest == [] || (rest[0] != ' ' && rest[0] != '\t'))
      && (maxIndent.Some? ==> columns[n] <= maxIndent.value)
  }

  /** At least m of the mark at the start. */
  predicate StartsWith(s: string, mark: char, m: nat) {
    m <= |s| && forall i :: 0 <= i < m ==> s[i] == mark
  }

  predicate OnlyBlanks(s: string) {
    forall i :: 0 <= i < |s| ==> s[i] == ' ' || s[i] == '\t'
  }

  /** Exactly m >= 3 backticks or tildes, then an info text; no backtick in one after backticks. */
  predicate OpeningText(s: string, mark: char, m: nat) {
    && m >= 3 && (mark == '`' || mark == '~') && StartsWith(s, mark, m)
    && (|s| > m ==> s[m] != mark)
    && (mark == '`' ==> '`' !in s[m..])
  }

  /** m marks or more, then blanks only. */
  ghost predicate ClosingText(s: string, mark: char, m: nat) {
    exists n :: m <= n <= |s| && StartsWith(s, mark, n) && OnlyBlanks(s[n..])
  }

  /** One to six `#`, then the end or a blank. */
  ghost predicate HeadingText(s: string) {
    exists n :: 1 <= n <= 6 && StartsWith(s, '#', n) && (|s| > n ==> s[n] == ' ' || s[n] == '\t')
  }

  ghost predicate OpeningLine(line: string, maxIndent: Option<int>, mark: char, m: nat) {
    exists rest :: Indented(line, maxIndent, rest) && OpeningText(rest, mark, m)
  }

  ghost predicate ClosingLine(line: string, maxIndent: Option<int>, mark: char, m: nat) {
    exists rest :: Indented(line, maxIndent, rest) && ClosingText(rest, mark, m)
  }

  ghost predicate QuoteLine(line: string, maxIndent: Option<int>) {
    exists rest :: Indented(line, maxIndent, rest) && rest != [] && rest[0] == '>'
  }

  ghost predicate HeadingLine(line: string) {
    exists rest :: Indented(line, Some(3), rest) && HeadingText(rest)
  }

  // ---- the scanner's functions mean these

  /** The columns the indent of the line reaches, starting at `from`. */
  lemma {:induction false} IndentReached(line: string, from: nat) returns (columns: seq<nat>)
    ensures |columns| == IndentLength(line) + 1 && columns[0] == from
    ensures columns[IndentLength(line)] == IndentColumns(line, from)
    ensures forall i :: 0 <= i < IndentLength(line) ==> ColumnStep(line[i], columns[i], columns[i + 1])
    ensures IndentLength(line) < |line| ==> line[IndentLength(line)] != ' ' && line[IndentLength(line)] != '\t'
  {
    if line == [] || !IsBlank(line[0]) {
      columns := [from];
    } else {
      var next := NextColumn(from, line[0]);
      StepIsNext(line[0], from);
      var rest := IndentReached(line[1..], next);
      columns := [from] + rest;
      forall i | 0 <= i < IndentLength(line) ensures ColumnStep(line[i], columns[i], columns[i + 1]) {
        if i > 0 {
          assert line[i] == line[1..][i - 1];
          assert columns[i] == rest[i - 1] && columns[i + 1] == rest[i];
        }
      }
    }
  }

  lemma StepIsNext(c: char, from: nat)
    requires IsBlank(c)
    ensures ColumnStep(c, from, NextColumn(from, c))
  {
    TabStop(from);
  }

  lemma TabStop(from: nat)
    ensures (from + 4 - from % 4) % 4 == 0 && from < from + 4 - from % 4 <= from + 4
  {
  }

  /** The next column is determined. */
  lemma StepIsUnique(c: char, from: nat, a: nat, b: nat)
    requires ColumnStep(c, from, a) && ColumnStep(c, from, b)
    ensures a == b
  {
  }

  lemma {:induction false} ColumnsUnique(line: string, n: nat, a: seq<nat>, b: seq<nat>)
    requires Columns(line, n, a) && Columns(line, n, b)
    ensures a == b
  {
    for i := 0 to n
      invariant forall k :: 0 <= k <= i ==> a[k] == b[k]
    {
      StepIsUnique(line[i], a[i], a[i + 1], b[i + 1]);
    }
  }

  lemma BlankBefore(line: string, n: nat, columns: seq<nat>, i: nat)
    requires Columns(line, n, columns) && i < n
    ensures line[i] == ' ' || line[i] == '\t'
  {
    assert ColumnStep(line[i], columns[i], columns[i + 1]);
  }

  lemma IndentIsUnique(line: string, n: nat, a: seq<nat>, m: nat, b: seq<nat>)
    requires Columns(line, n, a) && (n < |line| ==> line[n] != ' ' && line[n] != '\t')
    requires Columns(line, m, b) && (m < |line| ==> line[m] != ' ' && line[m] != '\t')
    ensures n == m && a == b
  {
    if n < m {
      BlankBefore(line, m, b, n);
    } else if m < n {
      BlankBefore(line, n, a, m);
    } else {
      ColumnsUnique(line, n, a, b);
    }
  }

  /** `_md_strip_marker_indent`: the rest of the line, or None when the indent is wider than the bound. */
  lemma StripIsIndented(line: string, maxIndent: Option<int>, rest: string)
    ensures StripIndent(line, maxIndent) == Some(rest) <==> Indented(line, maxIndent, rest)
  {
    var len := IndentLength(line);
    var columns := IndentReached(line, 0);
    assert Columns(line, len, columns);
    if StripIndent(line, maxIndent) == Some(rest) {
      assert rest == line[len..] && (rest != [] ==> rest[0] == line[len]);
    }
    if Indented(line, maxIndent, rest) {
      var n: nat, cs :| && Columns(line, n, cs) && rest == line[n..]
                        && (rest == [] || (rest[0] != ' ' && rest[0] != '\t'))
                        && (maxIndent.Some? ==> cs[n] <= maxIndent.value);
      assert n < |line| ==> rest[0] == line[n];
      IndentIsUnique(line, len, columns, n, cs);
    }
  }

  lemma {:induction false} RunIsLongest(s: string, mark: char)
    ensures StartsWith(s, mark, RunLength(s, mark))
    ensures RunLength(s, mark) < |s| ==> s[RunLength(s, mark)] != mark
  {
    if s == [] || s[0] != mark {
    } else {
      RunIsLongest(s[1..], mark);
      var n := RunLength(s[1..], mark);
      forall i | 0 <= i < n + 1 ensures s[i] == mark {
        if i > 0 { assert s[i] == s[1..][i - 1]; }
      }
      assert n + 1 < |s| ==> s[n + 1] == s[1..][n];
    }
  }

  lemma OpensInCharacters(s: string, mark: char, m: nat)
    ensures DelimiterOf(s) == Opens(Fence(mark, m)) <==> OpeningText(s, mark, m)
  {
    RunIsLongest(s, mark);
    if s != [] { RunIsLongest(s, s[0]); }
  }

  lemma BlankInCharacters(s: string)
    ensures AllBlank(s) <==> OnlyBlanks(s)
  {
  }

  lemma ClosesInCharacters(line: string, maxIndent: Option<int>, mark: char, m: nat)
    requires mark != ' ' && mark != '\t'
    ensures Closes(line, Fence(mark, m), maxIndent) <==> ClosingLine(line, maxIndent, mark, m)
  {
    var stripped := StripIndent(line, maxIndent);
    if stripped.Some? {
      var s := stripped.value;
      var n := RunLength(s, mark);
      StripIsIndented(line, maxIndent, s);
      RunIsLongest(s, mark);
      BlankInCharacters(s[n..]);
    }
    if ClosingLine(line, maxIndent, mark, m) {
      var rest :| Indented(line, maxIndent, rest) && ClosingText(rest, mark, m);
      StripIsIndented(line, maxIndent, rest);
      RunIsLongest(rest, mark);
      var n :| m <= n <= |rest| && StartsWith(rest, mark, n) && OnlyBlanks(rest[n..]);
      assert n < |rest| ==> rest[n] == rest[n..][0];
      assert n == RunLength(rest, mark);
      BlankInCharacters(rest[n..]);
    }
  }

  lemma HeadingInCharacters(s: string)
    ensures IsAtxHeading(s) <==> HeadingText(s)
  {
    RunIsLongest(s, '#');
    if HeadingText(s) {
      var n :| 1 <= n <= 6 && StartsWith(s, '#', n) && (|s| > n ==> s[n] == ' ' || s[n] == '\t');
      assert n == RunLength(s, '#');
    }
  }

  // ---- the blocks of a text

  /** A fenced block: the opener, no closer before the last line, and a closer there unless the text ends. */
  ghost predicate BlockText(lines: seq<string>, maxIndent: Option<int>, open: nat, end: nat, mark: char, m: nat) {
    && open < end <= |lines| && OpeningLine(lines[open], maxIndent, mark, m)
    && (forall j :: open < j < end - 1 ==> !ClosingLine(lines[j], maxIndent, mark, m))
    && (end < |lines| ==> end - 1 > open && ClosingLine(lines[end - 1], maxIndent, mark, m))
  }

  ghost predicate HasBlock(lines: seq<string>, maxIndent: Option<int>, open: nat, end: nat) {
    exists mark: char, m: nat :: BlockText(lines, maxIndent, open, end, mark, m)
  }

  ghost predicate OpensSome(line: string, maxIndent: Option<int>) {
    exists mark: char, m: nat :: OpeningLine(line, maxIndent, mark, m)
  }

  /** The spans are the fenced blocks: sorted and disjoint, each a block, and no line outside them opens one. */
  ghost predicate Blocks(lines: seq<string>, maxIndent: Option<int>, spans: seq<(nat, nat)>) {
    && SpansOrdered(spans, |lines|)
    && (forall k :: 0 <= k < |spans| ==> HasBlock(lines, maxIndent, spans[k].0, spans[k].1))
    && (forall i :: 0 <= i < |lines| && !InSpan(spans, i) ==> !OpensSome(lines[i], maxIndent))
  }

  lemma OpenerByText(line: string, maxIndent: Option<int>, mark: char, m: nat)
    ensures KindOf(line, maxIndent) == Opener(Fence(mark, m)) <==> OpeningLine(line, maxIndent, mark, m)
  {
    var container := StripIndent(line, maxIndent);
    if container.Some? {
      StripIsIndented(line, maxIndent, container.value);
      OpensInCharacters(container.value, mark, m);
    }
    if OpeningLine(line, maxIndent, mark, m) {
      var rest :| Indented(line, maxIndent, rest) && OpeningText(rest, mark, m);
      StripIsIndented(line, maxIndent, rest);
    }
  }

  lemma OpenerIsText(line: string, maxIndent: Option<int>)
    ensures KindOf(line, maxIndent).Opener? <==> OpensSome(line, maxIndent)
  {
    var kind := KindOf(line, maxIndent);
    if kind.Opener? { OpenerByText(line, maxIndent, kind.fence.mark, kind.fence.length); }
    if OpensSome(line, maxIndent) {
      var mark: char, m: nat :| OpeningLine(line, maxIndent, mark, m);
      OpenerByText(line, maxIndent, mark, m);
    }
  }

  /** A line that no fence holds is quoted or a heading by its characters. */
  lemma ViewsByText(line: string, maxIndent: Option<int>)
    ensures KindOf(line, maxIndent).Quoted? <==> QuoteLine(line, maxIndent)
    ensures KindOf(line, maxIndent).Heading? <==> HeadingLine(line)
  {
    var container, stripped := StripIndent(line, maxIndent), StripIndent(line, Some(3));
    if container.Some? { StripIsIndented(line, maxIndent, container.value); }
    if stripped.Some? {
      StripIsIndented(line, Some(3), stripped.value);
      HeadingInCharacters(stripped.value);
    }
    if QuoteLine(line, maxIndent) {
      var rest :| Indented(line, maxIndent, rest) && rest != [] && rest[0] == '>';
      StripIsIndented(line, maxIndent, rest);
    }
    if HeadingLine(line) {
      var rest :| Indented(line, Some(3), rest) && HeadingText(rest);
      StripIsIndented(line, Some(3), rest);
      HeadingInCharacters(rest);
    }
  }

  /** A block of the automaton is a block of the text, and the other way round. */
  lemma BlockByText(lines: seq<string>, maxIndent: Option<int>, open: nat, end: nat, mark: char, m: nat)
    requires open < end <= |lines| && KindOf(lines[open], maxIndent) == Opener(Fence(mark, m))
    ensures BlockText(lines, maxIndent, open, end, mark, m)
       <==> && (forall j :: open < j < end - 1 ==> !Closes(lines[j], Fence(mark, m), maxIndent))
            && (end < |lines| ==> end - 1 > open && Closes(lines[end - 1], Fence(mark, m), maxIndent))
  {
    OpenerByText(lines[open], maxIndent, mark, m);
    forall j | 0 <= j < |lines|
      ensures Closes(lines[j], Fence(mark, m), maxIndent) <==> ClosingLine(lines[j], maxIndent, mark, m)
    {
      ClosesInCharacters(lines[j], maxIndent, mark, m);
    }
  }

  // ---- from blocks to the automaton

  /** A block of the text that starts outside any fence is a block of the automaton. */
  lemma TextIsBlock(lines: seq<string>, maxIndent: Option<int>, open: nat, end: nat)
    requires HasBlock(lines, maxIndent, open, end) && ModeAt(lines, open, maxIndent).Outside?
    ensures BlockAt(lines, open, end, maxIndent)
  {
    var mark: char, m: nat :| BlockText(lines, maxIndent, open, end, mark, m);
    OpenerByText(lines[open], maxIndent, mark, m);
    BlockByText(lines, maxIndent, open, end, mark, m);
  }

  lemma NotStarted(spans: seq<(nat, nat)>, n: nat, k: nat, i: nat)
    requires SpansOrdered(spans, n) && k <= |spans|
    requires forall j :: 0 <= j < k ==> spans[j].1 <= i
    requires k < |spans| ==> i < spans[k].0
    ensures !InSpan(spans, i)
  {
  }

  /** The scan stands before line i, outside any fence, with the first k spans behind it. */
  ghost predicate Reached(lines: seq<string>, maxIndent: Option<int>, spans: seq<(nat, nat)>, k: nat, i: nat) {
    && k <= |spans| && i <= |lines| && SpansAgree(lines, maxIndent, i, spans[..k])
    && (k < |spans| ==> i <= spans[k].0)
    && (i < |lines| ==> ModeAt(lines, i, maxIndent).Outside?)
  }

  lemma PastBlock(lines: seq<string>, maxIndent: Option<int>, spans: seq<(nat, nat)>, k: nat, i: nat)
    requires SpansOrdered(spans, |lines|) && Reached(lines, maxIndent, spans, k, i)
    requires i < |lines| && k < |spans| && spans[k].0 == i && HasBlock(lines, maxIndent, i, spans[k].1)
    ensures i < spans[k].1 <= |lines| && Reached(lines, maxIndent, spans, k + 1, spans[k].1)
  {
    var end := spans[k].1;
    TextIsBlock(lines, maxIndent, i, end);
    OneMore(lines, maxIndent, spans[..k], i, end);
    assert spans[..k] + [(i, end)] == spans[..k + 1];
  }

  lemma OneMore(lines: seq<string>, maxIndent: Option<int>, seen: seq<(nat, nat)>, i: nat, end: nat)
    requires BlockAt(lines, i, end, maxIndent) && SpansAgree(lines, maxIndent, i, seen)
    ensures SpansAgree(lines, maxIndent, end, seen + [(i, end)])
    ensures end < |lines| ==> ModeAt(lines, end, maxIndent).Outside?
  {
    SpansAfterBlock(lines, maxIndent, i, end, seen);
    BlockIsFenced(lines, i, end, maxIndent);
  }

  lemma PastLine(lines: seq<string>, maxIndent: Option<int>, spans: seq<(nat, nat)>, k: nat, i: nat)
    requires Blocks(lines, maxIndent, spans) && Reached(lines, maxIndent, spans, k, i)
    requires i < |lines| && (k < |spans| ==> spans[k].0 != i)
    ensures Reached(lines, maxIndent, spans, k, i + 1)
  {
    var seen := spans[..k];
    forall j | 0 <= j < k ensures spans[j].1 <= i { assert seen[j] == spans[j]; }
    NotStarted(spans, |lines|, k, i);
    OpenerIsText(lines[i], maxIndent);
    SpansAfterLine(lines, maxIndent, i, seen);
  }

  lemma PastStep(lines: seq<string>, maxIndent: Option<int>, spans: seq<(nat, nat)>, k: nat, i: nat)
    returns (nextK: nat, nextI: nat)
    requires Blocks(lines, maxIndent, spans) && Reached(lines, maxIndent, spans, k, i) && i < |lines|
    ensures i < nextI <= |lines| && Reached(lines, maxIndent, spans, nextK, nextI)
  {
    if k < |spans| && spans[k].0 == i {
      PastBlock(lines, maxIndent, spans, k, i);
      nextK, nextI := k + 1, spans[k].1;
    } else {
      PastLine(lines, maxIndent, spans, k, i);
      nextK, nextI := k, i + 1;
    }
  }

  lemma ReachedEnd(lines: seq<string>, maxIndent: Option<int>, spans: seq<(nat, nat)>, k: nat)
    requires SpansOrdered(spans, |lines|) && Reached(lines, maxIndent, spans, k, |lines|)
    ensures SpansAgree(lines, maxIndent, |lines|, spans)
  {
    assert k == |spans|;
    assert spans[..k] == spans;
  }

  lemma {:induction false} Walk(lines: seq<string>, maxIndent: Option<int>, spans: seq<(nat, nat)>, k: nat, i: nat)
    requires Blocks(lines, maxIndent, spans) && i <= |lines| && Reached(lines, maxIndent, spans, k, i)
    ensures SpansAgree(lines, maxIndent, |lines|, spans)
    decreases |lines| - i
  {
    if i == |lines| {
      ReachedEnd(lines, maxIndent, spans, k);
    } else {
      var nextK, nextI := PastStep(lines, maxIndent, spans, k, i);
      Walk(lines, maxIndent, spans, nextK, nextI);
    }
  }

  // ---- from the automaton to blocks

  lemma NoStartInside(spans: seq<(nat, nat)>, n: nat, k: nat, i: nat)
    requires SpansOrdered(spans, n) && k < |spans| && spans[k].0 < i < spans[k].1
    ensures InSpan(spans, i) && !StartsSpan(spans, i)
  {
  }

  /** Inside a span the automaton stays in the fence its first line opens. */
  lemma {:induction false} InsideSpan(lines: seq<string>, maxIndent: Option<int>, spans: seq<(nat, nat)>,
                                      k: nat, i: nat, f: Fence)
    requires SpansAgree(lines, maxIndent, |lines|, spans) && k < |spans| && spans[k].0 < i < spans[k].1
    requires OpensAt(lines, spans[k].0, maxIndent) && f == KindOf(lines[spans[k].0], maxIndent).fence
    ensures ModeAt(lines, i, maxIndent) == Inside(f)
    ensures i - 1 > spans[k].0 ==> !Closes(lines[i - 1], f, maxIndent)
    decreases i
  {
    if i == spans[k].0 + 1 {
    } else {
      InsideSpan(lines, maxIndent, spans, k, i - 1, f);
      NoStartInside(spans, |lines|, k, i);
    }
  }

  /** A span does not run into the next one: what follows it is outside, or starts a span. */
  lemma AfterSpan(lines: seq<string>, maxIndent: Option<int>, spans: seq<(nat, nat)>, k: nat)
    requires SpansAgree(lines, maxIndent, |lines|, spans) && k < |spans| && spans[k].1 < |lines|
    ensures ModeAt(lines, spans[k].1, maxIndent).Outside?
  {
    var end := spans[k].1;
    if InSpan(spans, end) {
      var j :| 0 <= j < |spans| && spans[j].0 <= end < spans[j].1;
      assert j > k;
      assert StartsSpan(spans, end);
    }
  }

  lemma SpanStaysOpen(lines: seq<string>, maxIndent: Option<int>, spans: seq<(nat, nat)>, k: nat, f: Fence)
    requires SpansAgree(lines, maxIndent, |lines|, spans) && k < |spans|
    requires OpensAt(lines, spans[k].0, maxIndent) && f == KindOf(lines[spans[k].0], maxIndent).fence
    ensures forall j :: spans[k].0 < j < spans[k].1 - 1 ==> !Closes(lines[j], f, maxIndent)
  {
    forall j | spans[k].0 < j < spans[k].1 - 1 ensures !Closes(lines[j], f, maxIndent) {
      InsideSpan(lines, maxIndent, spans, k, j + 1, f);
    }
  }

  lemma SpanCloses(lines: seq<string>, maxIndent: Option<int>, spans: seq<(nat, nat)>, k: nat, f: Fence)
    requires SpansAgree(lines, maxIndent, |lines|, spans) && k < |spans| && spans[k].1 < |lines|
    requires OpensAt(lines, spans[k].0, maxIndent) && f == KindOf(lines[spans[k].0], maxIndent).fence
    ensures spans[k].1 - 1 > spans[k].0 && Closes(lines[spans[k].1 - 1], f, maxIndent)
  {
    AfterSpan(lines, maxIndent, spans, k);
    if spans[k].1 - 1 > spans[k].0 { InsideSpan(lines, maxIndent, spans, k, spans[k].1 - 1, f); }
  }

  lemma SpanIsBlock(lines: seq<string>, maxIndent: Option<int>, spans: seq<(nat, nat)>, k: nat)
    requires SpansAgree(lines, maxIndent, |lines|, spans) && k < |spans|
    ensures HasBlock(lines, maxIndent, spans[k].0, spans[k].1)
  {
    var open, end := spans[k].0, spans[k].1;
    assert StartsSpan(spans, open);
    var f := KindOf(lines[open], maxIndent).fence;
    SpanStaysOpen(lines, maxIndent, spans, k, f);
    if end < |lines| { SpanCloses(lines, maxIndent, spans, k, f); }
    BlockByText(lines, maxIndent, open, end, f.mark, f.length);
  }

  /** The spans agree with the automaton exactly when they are the blocks of the text. */
  lemma SpansByText(lines: seq<string>, maxIndent: Option<int>, spans: seq<(nat, nat)>)
    ensures SpansAgree(lines, maxIndent, |lines|, spans) <==> Blocks(lines, maxIndent, spans)
  {
    if SpansAgree(lines, maxIndent, |lines|, spans) {
      forall k | 0 <= k < |spans| ensures HasBlock(lines, maxIndent, spans[k].0, spans[k].1) {
        SpanIsBlock(lines, maxIndent, spans, k);
      }
      forall i | 0 <= i < |lines| && !InSpan(spans, i) ensures !OpensSome(lines[i], maxIndent) {
        OpenerIsText(lines[i], maxIndent);
      }
    }
    if Blocks(lines, maxIndent, spans) { Walk(lines, maxIndent, spans, 0, 0); }
  }

  // ---- the scan, in characters

  /** The spans are the blocks of the text, `quoted` its quote lines outside them, `headings` its headings
      outside them, in order. */
  ghost predicate TextStructure(lines: seq<string>, maxIndent: Option<int>, r: Structure) {
    && Blocks(lines, maxIndent, r.spans)
    && (forall i: nat :: i in r.quoted <==> i < |lines| && !InSpan(r.spans, i) && QuoteLine(lines[i], maxIndent))
    && (forall j, k :: 0 <= j < k < |r.headings| ==> r.headings[j] < r.headings[k])
    && (forall i: nat :: i in r.headings <==> i < |lines| && !InSpan(r.spans, i) && HeadingLine(lines[i]))
  }

  lemma ViewOfLine(lines: seq<string>, maxIndent: Option<int>, spans: seq<(nat, nat)>, i: nat)
    requires SpansAgree(lines, maxIndent, |lines|, spans) && i < |lines|
    ensures QuotedAt(lines, i, maxIndent) <==> !InSpan(spans, i) && QuoteLine(lines[i], maxIndent)
    ensures HeadingAt(lines, i, maxIndent) <==> !InSpan(spans, i) && HeadingLine(lines[i])
  {
    ViewsByText(lines[i], maxIndent);
  }

  /** What the scan reports is exactly the structure the characters of the lines spell out, for any bound on
      the indent. */
  lemma ScanByText(lines: seq<string>, maxIndent: Option<int>, r: Structure)
    ensures Agrees(lines, maxIndent, |lines|, r) <==> TextStructure(lines, maxIndent, r)
  {
    SpansByText(lines, maxIndent, r.spans);
    if SpansAgree(lines, maxIndent, |lines|, r.spans) {
      forall i: nat | i < |lines|
        ensures QuotedAt(lines, i, maxIndent) <==> !InSpan(r.spans, i) && QuoteLine(lines[i], maxIndent)
        ensures HeadingAt(lines, i, maxIndent) <==> !InSpan(r.spans, i) && HeadingLine(lines[i])
      {
        ViewOfLine(lines, maxIndent, r.spans, i);
      }
    }
  }

  // ---- the stripped text, in characters

  /** `at` lists, in order, the lines before n that lie in no span. */
  ghost predicate ListsOutside(spans: seq<(nat, nat)>, n: nat, at: seq<nat>) {
    && (forall j, k :: 0 <= j < k < |at| ==> at[j] < at[k])
    && (forall i: nat :: i in at <==> i < n && !InSpan(spans, i))
  }

  function Picked(lines: seq<Line>, at: seq<nat>): (r: seq<Line>)
    requires forall k :: 0 <= k < |at| ==> at[k] < |lines|
    ensures |r| == |at| && forall k :: 0 <= k < |at| ==> r[k] == lines[at[k]]
  {
    seq(|at|, k requires 0 <= k < |at| => lines[at[k]])
  }

  lemma ListedBefore(spans: seq<(nat, nat)>, n: nat, at: seq<nat>)
    requires ListsOutside(spans, n + 1, at)
    ensures !InSpan(spans, n) ==> at != [] && at[|at| - 1] == n && ListsOutside(spans, n, at[..|at| - 1])
    ensures InSpan(spans, n) ==> ListsOutside(spans, n, at)
  {
    if !InSpan(spans, n) {
      assert n in at;
      var k :| 0 <= k < |at| && at[k] == n;
      assert at[|at| - 1] in at;
      var less := at[..|at| - 1];
      forall i: nat ensures i in less <==> i < n && !InSpan(spans, i) {
        if i in less { assert i in at; }
        if i < n && !InSpan(spans, i) {
          assert i in at;
          var j :| 0 <= j < |at| && at[j] == i;
          assert less[j] == i;
        }
      }
    }
  }

  lemma ListedIsEarlier(spans: seq<(nat, nat)>, n: nat, at: seq<nat>, k: nat)
    requires ListsOutside(spans, n, at) && k < |at|
    ensures at[k] < n
  {
    assert at[k] in at;
  }

  lemma {:induction false} UndroppedIsPicked(lines: seq<Line>, drop: seq<bool>, spans: seq<(nat, nat)>,
                                             n: nat, at: seq<nat>)
    requires n <= |lines| == |drop| && ListsOutside(spans, n, at)
    requires forall k :: 0 <= k < |at| ==> at[k] < |lines|
    requires forall i :: 0 <= i < n ==> (drop[i] <==> InSpan(spans, i))
    ensures Undropped(lines, drop, n) == Picked(lines, at)
  {
    if n == 0 {
      if at != [] { ListedIsEarlier(spans, 0, at, 0); }
    } else {
      ListedBefore(spans, n - 1, at);
      if drop[n - 1] {
        UndroppedIsPicked(lines, drop, spans, n - 1, at);
      } else {
        var less := at[..|at| - 1];
        UndroppedIsPicked(lines, drop, spans, n - 1, less);
        assert Picked(lines, at) == Picked(lines, less) + [lines[n - 1]];
      }
    }
  }

  /** Cut the text at its line breaks, find its fenced blocks at any indent, take the lines in none of them:
      joined, they are what stripping returns. */
  lemma StrippedByText(text: string, lines: seq<Line>, spans: seq<(nat, nat)>, at: seq<nat>)
    requires BreaksInto(text, lines) && Blocks(Contents(lines), None, spans)
    requires ListsOutside(spans, |lines|, at) && forall k :: 0 <= k < |at| ==> at[k] < |lines|
    ensures Stripped(text) == Join(Picked(lines, at))
  {
    LinesByText(text, lines);
    SpansByText(Contents(lines), None, spans);
    UndroppedIsPicked(lines, Drops(lines), spans, |lines|, at);
  }
}
