/** `_scan_markdown_structure` and the block part of `_strip_fenced_code_blocks`.

    The scanner looks ahead for a fence's closing line. The reference it is proved against is a
    one-pass automaton that reads each line once and is either outside any fence or inside a
    fence with a character and a length (CommonMark 0.31.2, sections 4.2, 4.5 and 5.1). */
module MarkdownStructure {
  import opened Sorting

  // ---- one line: indent, delimiters, markers

  predicate IsBlank(c: char) {
    c == ' ' || c == '\t'
  }

  function IndentLength(line: string): (n: nat)
    ensures n <= |line|
  {
    if line == [] || !IsBlank(line[0]) then 0 else 1 + IndentLength(line[1..])
  }

  /** Column after one more indent character: a tab advances to the next multiple of four. */
  function NextColumn(columns: nat, c: char): nat {
    if c == ' ' then columns + 1 else columns + 4 - columns % 4
  }

  /** Column reached after the indent of `line`, starting at `columns`. */
  function IndentColumns(line: string, columns: nat): (r: nat)
    ensures r >= columns
  {
    if line == [] || !IsBlank(line[0]) then columns else IndentColumns(line[1..], NextColumn(columns, line[0]))
  }

  function StripIndent(line: string, maxIndent: Option<int>): Option<string> {
    if maxIndent.Some? && IndentColumns(line, 0) > maxIndent.value then None
    else Some(line[IndentLength(line)..])
  }

  method StripMarkerIndent(line: string, maxIndent: Option<int>) returns (r: Option<string>)
    ensures r == StripIndent(line, maxIndent)
  {
    var columns: nat, chars := 0, 0;
    while chars < |line| && IsBlank(line[chars])
      invariant 0 <= chars <= |line|
      invariant IndentColumns(line, 0) == IndentColumns(line[chars..], columns)
      invariant IndentLength(line) == chars + IndentLength(line[chars..])
    {
      assert line[chars..][1..] == line[chars + 1..];
      columns := NextColumn(columns, line[chars]);
      chars := chars + 1;
      if maxIndent.Some? && columns > maxIndent.value {
        break;
      }
    }
    if maxIndent.Some? && columns > maxIndent.value {
      return None;
    }
    return Some(line[chars..]);
  }

  function RunLength(s: string, c: char): (n: nat)
    ensures n <= |s|
  {
    if s == [] || s[0] != c then 0 else 1 + RunLength(s[1..], c)
  }

  datatype Fence = Fence(mark: char, length: nat)

  datatype Delimiter = NoDelimiter | BadInfo | Opens(fence: Fence)

  /** `^(`{3,}|~{3,})[ \t]*(.*)$`, and a backtick fence may not have a backtick in its info string. */
  function DelimiterOf(s: string): Delimiter {
    if s == [] || (s[0] != '`' && s[0] != '~') || RunLength(s, s[0]) < 3 then NoDelimiter
    else if s[0] == '`' && '`' in s[RunLength(s, '`')..] then BadInfo
    else Opens(Fence(s[0], RunLength(s, s[0])))
  }

  predicate AllBlank(s: string) {
    forall i :: 0 <= i < |s| ==> IsBlank(s[i])
  }

  /** `^c{n,}[ \t]*$` after the indent. */
  predicate Closes(line: string, fence: Fence, maxIndent: Option<int>) {
    var stripped := StripIndent(line, maxIndent);
    && stripped.Some?
    && RunLength(stripped.value, fence.mark) >= fence.length
    && AllBlank(stripped.value[RunLength(stripped.value, fence.mark)..])
  }

  /** `^#{1,6}([ \t].*)?$` */
  predicate IsAtxHeading(s: string) {
    var n := RunLength(s, '#');
    1 <= n <= 6 && (n == |s| || IsBlank(s[n]))
  }

  datatype Kind = Plain | Quoted | Heading | Opener(fence: Fence)

  /** What a line is when no fence is open. ATX headings always keep the 0-3 column bound. */
  function KindOf(line: string, maxIndent: Option<int>): Kind {
    var container := StripIndent(line, maxIndent);
    var delimiter := if container.Some? then DelimiterOf(container.value) else NoDelimiter;
    if delimiter.Opens? then Opener(delimiter.fence)
    else if delimiter.BadInfo? then Plain
    else if container.Some? && container.value != [] && container.value[0] == '>' then Quoted
    else if StripIndent(line, Some(3)).Some? && IsAtxHeading(StripIndent(line, Some(3)).value) then Heading
    else Plain
  }

  // ---- the one-pass automaton

  datatype Mode = Outside | Inside(fence: Fence)

  function NextMode(mode: Mode, line: string, maxIndent: Option<int>): Mode {
    match mode
    case Outside =>
      var kind := KindOf(line, maxIndent);
      if kind.Opener? then Inside(kind.fence) else Outside
    case Inside(fence) => if Closes(line, fence, maxIndent) then Outside else mode
  }

  /** The mode before line i. */
  function ModeAt(lines: seq<string>, i: nat, maxIndent: Option<int>): Mode
    requires i <= |lines|
  {
    if i == 0 then Outside else NextMode(ModeAt(lines, i - 1, maxIndent), lines[i - 1], maxIndent)
  }

  predicate OpensAt(lines: seq<string>, i: nat, maxIndent: Option<int>)
    requires i < |lines|
  {
    ModeAt(lines, i, maxIndent).Outside? && KindOf(lines[i], maxIndent).Opener?
  }

  /** Line i belongs to a fenced block: its opener, its closer, or anything between. */
  predicate FencedAt(lines: seq<string>, i: nat, maxIndent: Option<int>)
    requires i < |lines|
  {
    ModeAt(lines, i, maxIndent).Inside? || KindOf(lines[i], maxIndent).Opener?
  }

  predicate QuotedAt(lines: seq<string>, i: nat, maxIndent: Option<int>)
    requires i < |lines|
  {
    ModeAt(lines, i, maxIndent).Outside? && KindOf(lines[i], maxIndent).Quoted?
  }

  predicate HeadingAt(lines: seq<string>, i: nat, maxIndent: Option<int>)
    requires i < |lines|
  {
    ModeAt(lines, i, maxIndent).Outside? && KindOf(lines[i], maxIndent).Heading?
  }

  // ---- what a scan reports

  datatype Structure = Structure(spans: seq<(nat, nat)>, quoted: set<nat>, headings: seq<nat>)

  ghost predicate InSpan(spans: seq<(nat, nat)>, i: int) {
    exists k :: 0 <= k < |spans| && spans[k].0 <= i < spans[k].1
  }

  ghost predicate StartsSpan(spans: seq<(nat, nat)>, i: int) {
    exists k :: 0 <= k < |spans| && spans[k].0 == i
  }

  /** Sorted, disjoint, non-empty, inside [0, n). */
  ghost predicate SpansOrdered(spans: seq<(nat, nat)>, n: nat) {
    && (forall k :: 0 <= k < |spans| ==> spans[k].0 < spans[k].1 <= n)
    && (forall j, k :: 0 <= j < k < |spans| ==> spans[j].1 <= spans[k].0)
  }

  ghost predicate SpansAgree(lines: seq<string>, maxIndent: Option<int>, n: nat, spans: seq<(nat, nat)>)
    requires n <= |lines|
  {
    && SpansOrdered(spans, n)
    && (forall i: nat :: i < n ==> (InSpan(spans, i) <==> FencedAt(lines, i, maxIndent)))
    && (forall i: nat :: i < n ==> (StartsSpan(spans, i) <==> OpensAt(lines, i, maxIndent)))
  }

  ghost predicate QuotedAgree(lines: seq<string>, maxIndent: Option<int>, n: nat, quoted: set<nat>)
    requires n <= |lines|
  {
    forall i: nat :: i in quoted <==> i < n && QuotedAt(lines, i, maxIndent)
  }

  ghost predicate HeadingsAgree(lines: seq<string>, maxIndent: Option<int>, n: nat, headings: seq<nat>)
    requires n <= |lines|
  {
    && (forall j, k :: 0 <= j < k < |headings| ==> headings[j] < headings[k])
    && (forall i: nat :: i in headings <==> i < n && HeadingAt(lines, i, maxIndent))
  }

  /** The structure agrees with the automaton on the first n lines. */
  ghost predicate Agrees(lines: seq<string>, maxIndent: Option<int>, n: nat, r: Structure) {
    && n <= |lines|
    && SpansAgree(lines, maxIndent, n, r.spans)
    && QuotedAgree(lines, maxIndent, n, r.quoted)
    && HeadingsAgree(lines, maxIndent, n, r.headings)
  }

  // ---- lookahead

  method FindFenceClose(lines: seq<string>, start: nat, fence: Fence, maxIndent: Option<int>) returns (at: Option<nat>)
    requires start <= |lines|
    ensures at.Some? ==> start <= at.value < |lines| && Closes(lines[at.value], fence, maxIndent)
    ensures forall j :: start <= j < (if at.Some? then at.value else |lines|) ==> !Closes(lines[j], fence, maxIndent)
  {
    for index := start to |lines|
      invariant forall j :: start <= j < index ==> !Closes(lines[j], fence, maxIndent)
    {
      var stripped := StripMarkerIndent(lines[index], maxIndent);
      if stripped.Some? && RunLength(stripped.value, fence.mark) >= fence.length
         && AllBlank(stripped.value[RunLength(stripped.value, fence.mark)..]) {
        return Some(index);
      }
    }
    return None;
  }

  /** After an opener the automaton stays inside the fence up to the first closing line. */
  lemma {:induction false} StaysInside(lines: seq<string>, open: nat, i: nat, maxIndent: Option<int>)
    requires open < i <= |lines| && OpensAt(lines, open, maxIndent)
    requires forall j :: open < j < i ==> !Closes(lines[j], KindOf(lines[open], maxIndent).fence, maxIndent)
    ensures ModeAt(lines, i, maxIndent) == Inside(KindOf(lines[open], maxIndent).fence)
    decreases i
  {
    if i == open + 1 {
    } else {
      StaysInside(lines, open, i - 1, maxIndent);
    }
  }

  ghost predicate BlockAt(lines: seq<string>, open: nat, end: nat, maxIndent: Option<int>) {
    && open < end <= |lines| && OpensAt(lines, open, maxIndent)
    && (forall j :: open < j < end - 1 ==> !Closes(lines[j], KindOf(lines[open], maxIndent).fence, maxIndent))
    && (end < |lines| ==> end - 1 > open && Closes(lines[end - 1], KindOf(lines[open], maxIndent).fence, maxIndent))
  }

  /** The lines of a block are exactly fenced, and unless the text ends the automaton is outside
      again after it. */
  lemma BlockIsFenced(lines: seq<string>, open: nat, end: nat, maxIndent: Option<int>)
    requires BlockAt(lines, open, end, maxIndent)
    ensures forall i: nat :: open < i < end ==> ModeAt(lines, i, maxIndent).Inside?
    ensures end < |lines| ==> ModeAt(lines, end, maxIndent).Outside?
  {
    forall i: nat | open < i < end ensures ModeAt(lines, i, maxIndent) == Inside(KindOf(lines[open], maxIndent).fence) {
      StaysInside(lines, open, i, maxIndent);
    }
  }

  lemma SpanAdded(spans: seq<(nat, nat)>, open: nat, end: nat)
    requires SpansOrdered(spans, open) && open < end
    ensures SpansOrdered(spans + [(open, end)], end)
    ensures forall i :: InSpan(spans + [(open, end)], i) <==> InSpan(spans, i) || open <= i < end
    ensures forall i :: StartsSpan(spans + [(open, end)], i) <==> StartsSpan(spans, i) || i == open
    ensures forall i :: i >= open ==> !InSpan(spans, i) && !StartsSpan(spans, i)
  {
    var more := spans + [(open, end)];
    forall i ensures InSpan(more, i) <==> InSpan(spans, i) || open <= i < end {
      if InSpan(spans, i) {
        var k :| 0 <= k < |spans| && spans[k].0 <= i < spans[k].1;
        assert more[k] == spans[k];
      }
      if open <= i < end { assert more[|spans|].0 <= i < more[|spans|].1; }
    }
    forall i ensures StartsSpan(more, i) <==> StartsSpan(spans, i) || i == open {
      if StartsSpan(spans, i) {
        var k :| 0 <= k < |spans| && spans[k].0 == i;
        assert more[k] == spans[k];
      }
      if i == open { assert more[|spans|].0 == i; }
    }
  }

  lemma BlockLine(lines: seq<string>, maxIndent: Option<int>, open: nat, end: nat, i: nat)
    requires BlockAt(lines, open, end, maxIndent) && open <= i < end
    ensures FencedAt(lines, i, maxIndent) && !QuotedAt(lines, i, maxIndent) && !HeadingAt(lines, i, maxIndent)
    ensures OpensAt(lines, i, maxIndent) <==> i == open
  {
    BlockIsFenced(lines, open, end, maxIndent);
  }

  lemma SpansAfterBlock(lines: seq<string>, maxIndent: Option<int>, open: nat, end: nat, spans: seq<(nat, nat)>)
    requires BlockAt(lines, open, end, maxIndent) && SpansAgree(lines, maxIndent, open, spans)
    ensures SpansAgree(lines, maxIndent, end, spans + [(open, end)])
  {
    SpanAdded(spans, open, end);
    forall i: nat | i < end
      ensures InSpan(spans + [(open, end)], i) <==> FencedAt(lines, i, maxIndent)
      ensures StartsSpan(spans + [(open, end)], i) <==> OpensAt(lines, i, maxIndent)
    {
      if i >= open { BlockLine(lines, maxIndent, open, end, i); }
    }
  }

  lemma AgreesAfterBlock(lines: seq<string>, maxIndent: Option<int>, open: nat, end: nat, r: Structure)
    requires Agrees(lines, maxIndent, open, r) && BlockAt(lines, open, end, maxIndent)
    ensures Agrees(lines, maxIndent, end, r.(spans := r.spans + [(open, end)]))
  {
    SpansAfterBlock(lines, maxIndent, open, end, r.spans);
    forall i: nat | open <= i < end ensures !QuotedAt(lines, i, maxIndent) && !HeadingAt(lines, i, maxIndent) {
      BlockLine(lines, maxIndent, open, end, i);
    }
  }

  lemma NothingPast(spans: seq<(nat, nat)>, n: nat)
    requires SpansOrdered(spans, n)
    ensures SpansOrdered(spans, n + 1) && !InSpan(spans, n) && !StartsSpan(spans, n)
  {
  }

  lemma SpansAfterLine(lines: seq<string>, maxIndent: Option<int>, i: nat, spans: seq<(nat, nat)>)
    requires i < |lines| && SpansAgree(lines, maxIndent, i, spans) && !FencedAt(lines, i, maxIndent)
    ensures SpansAgree(lines, maxIndent, i + 1, spans)
  {
    NothingPast(spans, i);
  }

  lemma HeadingsAfterLine(lines: seq<string>, maxIndent: Option<int>, i: nat, headings: seq<nat>)
    requires i < |lines| && HeadingsAgree(lines, maxIndent, i, headings)
    ensures HeadingsAgree(lines, maxIndent, i + 1, if HeadingAt(lines, i, maxIndent) then headings + [i] else headings)
  {
    forall k | 0 <= k < |headings| ensures headings[k] < i { assert headings[k] in headings; }
  }

  lemma QuotedAfterLine(lines: seq<string>, maxIndent: Option<int>, i: nat, quoted: set<nat>)
    requires i < |lines| && QuotedAgree(lines, maxIndent, i, quoted)
    ensures QuotedAgree(lines, maxIndent, i + 1, if QuotedAt(lines, i, maxIndent) then quoted + {i} else quoted)
  {
  }

  /** A line outside any fence that is not an opener adds itself to at most one view. */
  lemma AgreesAfterLine(lines: seq<string>, maxIndent: Option<int>, i: nat, r: Structure, kind: Kind)
    requires Agrees(lines, maxIndent, i, r) && i < |lines|
    requires ModeAt(lines, i, maxIndent).Outside? && kind == KindOf(lines[i], maxIndent) && !kind.Opener?
    ensures Agrees(lines, maxIndent, i + 1,
                   Structure(r.spans,
                             if kind.Quoted? then r.quoted + {i} else r.quoted,
                             if kind.Heading? then r.headings + [i] else r.headings))
  {
    SpansAfterLine(lines, maxIndent, i, r.spans);
    HeadingsAfterLine(lines, maxIndent, i, r.headings);
    QuotedAfterLine(lines, maxIndent, i, r.quoted);
  }

  // ---- the scanner

  /** One scanning step at a line outside any fence. */
  method ScanLine(lines: seq<string>, index: nat, maxIndent: Option<int>, r0: Structure)
    returns (next: nat, r: Structure)
    requires index < |lines| && Agrees(lines, maxIndent, index, r0) && ModeAt(lines, index, maxIndent).Outside?
    ensures index < next <= |lines| && Agrees(lines, maxIndent, next, r)
    ensures next < |lines| ==> ModeAt(lines, next, maxIndent).Outside?
  {
    r := r0;
    ghost var kind := KindOf(lines[index], maxIndent);
    var stripped := StripMarkerIndent(lines[index], Some(3));
    var container := StripMarkerIndent(lines[index], maxIndent);
    next := index + 1;
    if container.Some? {
      var delimiter := DelimiterOf(container.value);
      if delimiter.BadInfo? {
        AgreesAfterLine(lines, maxIndent, index, r, kind);
        return;
      }
      if delimiter.Opens? {
        var close := FindFenceClose(lines, index + 1, delimiter.fence, maxIndent);
        next := if close.Some? then close.value + 1 else |lines|;
        AgreesAfterBlock(lines, maxIndent, index, next, r);
        BlockIsFenced(lines, index, next, maxIndent);
        r := r.(spans := r.spans + [(index, next)]);
        return;
      }
      if container.value != [] && container.value[0] == '>' {
        AgreesAfterLine(lines, maxIndent, index, r, kind);
        r := r.(quoted := r.quoted + {index});
        return;
      }
    }
    AgreesAfterLine(lines, maxIndent, index, r, kind);
    if stripped.Some? && IsAtxHeading(stripped.value) {
      r := r.(headings := r.headings + [index]);
    }
  }

  /** The scan agrees with the automaton on every line, for any `max_indent`. */
  method ScanLines(lines: seq<string>, maxIndent: Option<int>) returns (r: Structure)
    ensures Agrees(lines, maxIndent, |lines|, r)
  {
    r := Structure([], {}, []);
    var index := 0;
    while index < |lines|
      invariant 0 <= index <= |lines| && Agrees(lines, maxIndent, index, r)
      invariant index < |lines| ==> ModeAt(lines, index, maxIndent).Outside?
      decreases |lines| - index
    {
      index, r := ScanLine(lines, index, maxIndent, r);
    }
  }

  // ---- the automaton determines the whole structure

  ghost function Starts(spans: seq<(nat, nat)>): (r: seq<int>)
    ensures |r| == |spans| && forall k :: 0 <= k < |spans| ==> r[k] == spans[k].0
  {
    seq(|spans|, k requires 0 <= k < |spans| => spans[k].0)
  }

  lemma StartsIncrease(spans: seq<(nat, nat)>, n: nat)
    requires SpansOrdered(spans, n)
    ensures Increasing(Starts(spans))
    ensures forall i :: i in Starts(spans) <==> StartsSpan(spans, i)
  {
    var starts := Starts(spans);
    forall i | StartsSpan(spans, i) ensures i in starts {
      var k :| 0 <= k < |spans| && spans[k].0 == i;
      assert starts[k] == i;
    }
    forall i | i in starts ensures StartsSpan(spans, i) {
      var k :| 0 <= k < |starts| && starts[k] == i;
      assert spans[k].0 == i;
    }
  }

  lemma LaterSpan(spans: seq<(nat, nat)>, n: nat, k: nat, i: nat) returns (j: nat)
    requires SpansOrdered(spans, n) && k < |spans| && spans[k].1 <= i && InSpan(spans, i)
    ensures k < j < |spans| && spans[j].0 <= i
  {
    j :| j < |spans| && spans[j].0 <= i < spans[j].1;
  }

  /** Spans that cover the same lines and start at the same lines do not end later. */
  lemma EndsNoLater(a: seq<(nat, nat)>, b: seq<(nat, nat)>, n: nat, k: nat)
    requires SpansOrdered(a, n) && SpansOrdered(b, n) && |a| == |b| && k < |a|
    requires forall j :: 0 <= j < |a| ==> a[j].0 == b[j].0
    requires forall i: nat :: i < n && InSpan(b, i) ==> InSpan(a, i)
    ensures b[k].1 <= a[k].1
  {
    var end := a[k].1;
    if end < b[k].1 {
      assert b[k].0 <= end < b[k].1 && InSpan(b, end);
      var j := LaterSpan(a, n, k, end);
    }
  }

  lemma SameSpans(a: seq<(nat, nat)>, b: seq<(nat, nat)>, n: nat)
    requires SpansOrdered(a, n) && SpansOrdered(b, n)
    requires forall i: nat :: i < n ==> (InSpan(a, i) <==> InSpan(b, i)) && (StartsSpan(a, i) <==> StartsSpan(b, i))
    ensures a == b
  {
    StartsIncrease(a, n);
    StartsIncrease(b, n);
    forall i ensures i in Starts(a) <==> i in Starts(b) {
      assert StartsSpan(a, i) ==> 0 <= i < n;
      assert StartsSpan(b, i) ==> 0 <= i < n;
    }
    IncreasingUnique(Starts(a), Starts(b));
    assert forall k :: 0 <= k < |a| ==> a[k].0 == Starts(a)[k] == Starts(b)[k] == b[k].0;
    forall k | 0 <= k < |a| ensures a[k] == b[k] {
      EndsNoLater(a, b, n, k);
      EndsNoLater(b, a, n, k);
    }
  }

  /** Two structures that agree with the automaton are the same structure. */
  lemma AgreementIsUnique(lines: seq<string>, maxIndent: Option<int>, a: Structure, b: Structure)
    requires Agrees(lines, maxIndent, |lines|, a) && Agrees(lines, maxIndent, |lines|, b)
    ensures a == b
  {
    SameSpans(a.spans, b.spans, |lines|);
    assert a.quoted == b.quoted;
    SameHeadings(a.headings, b.headings);
  }

  lemma SameHeadings(a: seq<nat>, b: seq<nat>)
    requires (forall j, k :: 0 <= j < k < |a| ==> a[j] < a[k]) && (forall j, k :: 0 <= j < k < |b| ==> b[j] < b[k])
    requires forall i: nat :: i in a <==> i in b
    ensures a == b
  {
    forall i: int ensures i in a <==> i in b {
      if i in a { var k :| 0 <= k < |a| && a[k] == i; }
      if i in b { var k :| 0 <= k < |b| && b[k] == i; }
    }
    IncreasingUnique(a, b);
  }
}
