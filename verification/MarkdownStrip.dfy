/** The block part of `_strip_fenced_code_blocks`: drop every fenced line, keep the rest verbatim,
    and why scanning the result finds no fence. */
module MarkdownStrip {
  import opened Sorting
  import opened MarkdownLines
  import opened MarkdownStructure

  ghost function Contents(lines: seq<Line>): (r: seq<string>)
    ensures |r| == |lines| && forall i :: 0 <= i < |lines| ==> r[i] == lines[i].content
  {
    seq(|lines|, i requires 0 <= i < |lines| => lines[i].content)
  }

  /** Container-tolerant mode: any indent. */
  ghost predicate Fenced(lines: seq<Line>, i: nat)
    requires i < |lines|
  {
    FencedAt(Contents(lines), i, None)
  }

  /** Which lines the scan drops. */
  ghost function Drops(lines: seq<Line>): (r: seq<bool>)
    ensures |r| == |lines| && forall i: nat :: i < |lines| ==> r[i] == Fenced(lines, i)
  {
    seq(|lines|, i requires 0 <= i < |lines| => Fenced(lines, i))
  }

  /** Those of the first n lines that are not dropped, in order. */
  function Undropped(lines: seq<Line>, drop: seq<bool>, n: nat): seq<Line>
    requires n <= |lines| == |drop|
  {
    if n == 0 then []
    else if drop[n - 1] then Undropped(lines, drop, n - 1)
    else Undropped(lines, drop, n - 1) + [lines[n - 1]]
  }

  /** The lines outside every fenced block. */
  ghost function Kept(lines: seq<Line>): seq<Line> {
    Undropped(lines, Drops(lines), |lines|)
  }

  ghost function Stripped(text: string): string {
    Join(Kept(Split(text)))
  }

  // ---- the method

  lemma {:induction false} JoinAppend(lines: seq<Line>, line: Line)
    ensures Join(lines + [line]) == Join(lines) + Full(line)
  {
    if lines == [] {
      JoinCons(line, []);
      assert [] + [line] == [line] + [];
      assert Full(line) + Join([]) == Join([]) + Full(line);
    } else {
      var rest := lines[1..];
      JoinAppend(rest, line);
      assert lines + [line] == [lines[0]] + (rest + [line]);
      JoinCons(lines[0], rest + [line]);
      assert Full(lines[0]) + (Join(rest) + Full(line)) == (Full(lines[0]) + Join(rest)) + Full(line);
    }
  }

  /** `drop[index] = True` for every index of every span. */
  method MarkSpans(spans: seq<(nat, nat)>, n: nat) returns (drop: array<bool>)
    requires SpansOrdered(spans, n)
    ensures fresh(drop) && drop.Length == n
    ensures forall i :: 0 <= i < n ==> (drop[i] <==> InSpan(spans, i))
  {
    drop := new bool[n](_ => false);
    for k := 0 to |spans|
      invariant forall i :: 0 <= i < n ==> (drop[i] <==> exists j :: 0 <= j < k && spans[j].0 <= i < spans[j].1)
    {
      var (start, end) := spans[k];
      for index := start to end
        invariant forall i :: 0 <= i < n ==>
          (drop[i] <==> (start <= i < index) || exists j :: 0 <= j < k && spans[j].0 <= i < spans[j].1)
      {
        drop[index] := true;
      }
      assert spans[k].0 == start && spans[k].1 == end;
    }
  }

  lemma {:induction false} UndroppedStep(all: seq<Line>, drop: seq<bool>, i: nat)
    requires i < |all| == |drop|
    ensures Join(Undropped(all, drop, i + 1))
         == if drop[i] then Join(Undropped(all, drop, i)) else Join(Undropped(all, drop, i)) + Full(all[i])
  {
    JoinAppend(Undropped(all, drop, i), all[i]);
  }

  /** `"".join(line for line, is_dropped in zip(lines, drop) if not is_dropped)` */
  method JoinKept(ghost all: seq<Line>, lines: seq<string>, drop: array<bool>) returns (r: string)
    requires |all| == |lines| == drop.Length
    requires forall i :: 0 <= i < |all| ==> lines[i] == Full(all[i])
    ensures r == Join(Undropped(all, drop[..], |all|))
  {
    r := "";
    for i := 0 to |lines|
      invariant r == Join(Undropped(all, drop[..], i))
    {
      UndroppedStep(all, drop[..], i);
      if !drop[i] {
        r := r + lines[i];
      }
    }
  }

  lemma {:induction false} NothingDropped(lines: seq<Line>, drop: seq<bool>, n: nat)
    requires n <= |lines| == |drop| && forall i :: 0 <= i < n ==> !drop[i]
    ensures Undropped(lines, drop, n) == lines[..n]
  {
    if n == 0 {
    } else {
      NothingDropped(lines, drop, n - 1);
      TakeStep(lines, n - 1);
    }
  }

  lemma NothingFencedKeepsAll(lines: seq<Line>)
    requires forall i: nat :: i < |lines| ==> !Fenced(lines, i)
    ensures Kept(lines) == lines
  {
    NothingDropped(lines, Drops(lines), |lines|);
    TakeAll(lines);
  }

  lemma NoSpansKeepsText(text: string, structure: Structure)
    requires Agrees(Contents(Split(text)), None, |Split(text)|, structure) && structure.spans == []
    ensures Stripped(text) == text
  {
    var all := Split(text);
    forall i: nat | i < |all| ensures !Fenced(all, i) { assert !InSpan(structure.spans, i); }
    NothingFencedKeepsAll(all);
    JoinSplit(text);
  }

  method StripFencedBlocks(text: string) returns (r: string)
    ensures r == Stripped(text)
  {
    var lines := SplitLines(text, false);
    ghost var all := Split(text);
    assert lines == Contents(all);
    var structure := ScanLines(lines, None);
    if structure.spans == [] {
      NoSpansKeepsText(text, structure);
      return text;
    }
    var full := SplitLines(text, true);
    var drop := MarkSpans(structure.spans, |full|);
    assert drop[..] == Drops(all);
    r := JoinKept(all, full, drop);
  }

  // ---- what is left

  lemma {:induction false} UndroppedFrom(lines: seq<Line>, drop: seq<bool>, n: nat, k: nat) returns (i: nat)
    requires n <= |lines| == |drop| && k < |Undropped(lines, drop, n)|
    ensures i < n && lines[i] == Undropped(lines, drop, n)[k] && !drop[i]
    ensures k < |Undropped(lines, drop, n)| - 1 ==> i < n - 1
  {
    if drop[n - 1] || k < |Undropped(lines, drop, n - 1)| {
      i := UndroppedFrom(lines, drop, n - 1, k);
    } else {
      i := n - 1;
    }
  }

  lemma KeptIsSubsequence(lines: seq<Line>, k: nat) returns (i: nat)
    requires k < |Kept(lines)|
    ensures i < |lines| && lines[i] == Kept(lines)[k] && !Fenced(lines, i)
    ensures k < |Kept(lines)| - 1 ==> i < |lines| - 1
  {
    i := UndroppedFrom(lines, Drops(lines), |lines|, k);
  }

  predicate Shaped(line: Line, last: bool) {
    && Bare(line.content)
    && (Terminated(line) || (last && line.ending == "" && line.content != ""))
  }

  lemma KeptLineShaped(lines: seq<Line>, k: nat)
    requires Lines(lines) && k < |Kept(lines)|
    ensures Shaped(Kept(lines)[k], k == |Kept(lines)| - 1)
  {
    var i := KeptIsSubsequence(lines, k);
    if i < |lines| - 1 { assert Terminated(lines[i]); }
  }

  lemma ShapedAreLines(lines: seq<Line>)
    requires forall k :: 0 <= k < |lines| ==> Shaped(lines[k], k == |lines| - 1)
    ensures Lines(lines)
  {
  }

  lemma KeptAreLines(lines: seq<Line>)
    requires Lines(lines)
    ensures Lines(Kept(lines))
  {
    var kept := Kept(lines);
    forall k | 0 <= k < |kept| ensures Shaped(kept[k], k == |kept| - 1) {
      KeptLineShaped(lines, k);
    }
    ShapedAreLines(kept);
  }

  /** Kept lines are not openers, and joining them makes no line with new content: not even where
      a line ending in a lone CR meets a following LF. */
  lemma StrippedLinesOpenNothing(text: string, i: nat)
    requires i < |Split(Stripped(text))|
    ensures !KindOf(Split(Stripped(text))[i].content, None).Opener?
  {
    var all := Split(text);
    var kept := Kept(all);
    SplitGivesLines(text);
    KeptAreLines(all);
    SplitJoin(kept);
    var j := MergedContents(kept, i);
    var m := KeptIsSubsequence(all, j);
    assert !FencedAt(Contents(all), m, None);
  }

  lemma {:induction false} NoOpenersStaysOutside(lines: seq<string>, i: nat)
    requires i <= |lines| && forall j :: 0 <= j < i ==> !KindOf(lines[j], None).Opener?
    ensures ModeAt(lines, i, None).Outside?
  {
    if i == 0 {
    } else {
      NoOpenersStaysOutside(lines, i - 1);
    }
  }

  /** Rescanning the stripped text finds no fence at all. */
  lemma RescanFindsNoFence(text: string)
    ensures forall i: nat :: i < |Split(Stripped(text))| ==> !Fenced(Split(Stripped(text)), i)
  {
    var lines := Split(Stripped(text));
    forall i: nat | i < |lines| ensures !KindOf(lines[i].content, None).Opener? {
      StrippedLinesOpenNothing(text, i);
    }
    forall i: nat | i < |lines| ensures !Fenced(lines, i) {
      NoOpenersStaysOutside(Contents(lines), i);
    }
  }

  /** So stripping is idempotent, and a rescan reports no span. */
  lemma StripTwice(text: string, structure: Structure)
    requires Agrees(Contents(Split(Stripped(text))), None, |Split(Stripped(text))|, structure)
    ensures structure.spans == [] && Stripped(Stripped(text)) == Stripped(text)
  {
    var s := Stripped(text);
    RescanFindsNoFence(text);
    if structure.spans != [] {
      var start := structure.spans[0].0;
      assert InSpan(structure.spans, start);
      assert Fenced(Split(s), start);
    }
    NoSpansKeepsText(s, structure);
  }

  /** Text with no fence comes back verbatim. */
  lemma NothingLostOutsideFences(text: string)
    requires forall i: nat :: i < |Split(text)| ==> !Fenced(Split(text), i)
    ensures Stripped(text) == text
  {
    var all := Split(text);
    NothingFencedKeepsAll(all);
    JoinSplit(text);
  }
}
