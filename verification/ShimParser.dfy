/** `parse_shim_mapping`: the names listed in the mapping blocks of a module's source.

    The two regular expressions are written out as matchers. Neither ever has a choice to
    backtrack over: word characters, white space, `=`, quotes and braces are disjoint. */
module ShimParser {
  import opened Sorting

  predicate IsWord(c: char) {
    ('a' <= c <= 'z') || ('A' <= c <= 'Z') || ('0' <= c <= '9') || c == '_'
  }

  predicate IsSpace(c: char) {
    c == ' ' || c == '\t' || c == '\n' || c == '\r' || c == '\U{0C}' || c == '\U{0B}'
  }

  function WordRun(s: string): (n: nat)
    ensures n <= |s|
  {
    if s == [] || !IsWord(s[0]) then 0 else 1 + WordRun(s[1..])
  }

  function SpaceRun(s: string): (n: nat)
    ensures n <= |s|
  {
    if s == [] || !IsSpace(s[0]) then 0 else 1 + SpaceRun(s[1..])
  }

  /** End of `(\w+)\s*=\s*\{` matched at the start of s, or -1. */
  function MatchMapping(s: string): (n: int)
    ensures n == -1 || 0 < n <= |s|
  {
    var w := WordRun(s);
    if w == 0 then -1 else MatchEquals(s, w)
  }

  /** The rest of it, behind the name. */
  function MatchEquals(s: string, i: nat): (n: int)
    requires i <= |s|
    ensures n == -1 || i < n <= |s|
  {
    var k := i + SpaceRun(s[i..]);
    if k >= |s| || s[k] != '=' then -1 else MatchBrace(s, k + 1)
  }

  /** Behind the equals sign. */
  function MatchBrace(s: string, i: nat): (n: int)
    requires i <= |s|
    ensures n == -1 || i < n <= |s|
  {
    var m := i + SpaceRun(s[i..]);
    if m >= |s| || s[m] != '{' then -1 else m + 1
  }

  /** `\s*['"](\w+)['"]\s*:` at the start of s: the name and the end, or None. */
  datatype Entry = NoEntry | Entry(name: string, end: nat)

  function MatchEntry(s: string): (e: Entry)
    ensures e.Entry? ==> 0 < e.end <= |s|
  {
    var q := SpaceRun(s);
    if q >= |s| || (s[q] != '\'' && s[q] != '"') then NoEntry else MatchName(s, q + 1)
  }

  /** The rest of it, from the opening quote on: the name begins at i. */
  function MatchName(s: string, i: nat): (e: Entry)
    requires i <= |s|
    ensures e.Entry? ==> i < e.end <= |s|
  {
    var w := WordRun(s[i..]);
    var r := i + w;
    if w == 0 || r >= |s| || (s[r] != '\'' && s[r] != '"') then NoEntry else MatchColon(s, i, r)
  }

  /** From the closing quote at r on. */
  function MatchColon(s: string, i: nat, r: nat): (e: Entry)
    requires i <= r < |s|
    ensures e.Entry? ==> r < e.end <= |s|
  {
    var c := r + 1 + SpaceRun(s[r + 1..]);
    if c >= |s| || s[c] != ':' then NoEntry else Entry(s[i..r], c + 1)
  }

  /** The entry expression run over s with `finditer`; `start` says whether s begins a line. */
  function Entries(s: string, start: bool): seq<string>
    decreases |s|
  {
    if s == [] then []
    else
      var e := if start then MatchEntry(s) else NoEntry;
      if e.Entry? then [e.name] + Entries(s[e.end..], false)
      else Entries(s[1..], s[0] == '\n')
  }

  /** Length of the block whose opening brace is already behind: up to the matching brace, or all
      but the last character when it never closes. */
  function BlockLength(s: string, depth: nat): int
    requires depth > 0
  {
    if s == [] then -1
    else
      var d := if s[0] == '{' then depth + 1 else if s[0] == '}' then depth - 1 else depth;
      if d == 0 then 0 else 1 + BlockLength(s[1..], d)
  }

  function Block(s: string): string {
    var n := BlockLength(s, 1);
    if 0 <= n <= |s| then s[..n] else []
  }

  /** The mapping expression run over the source with `finditer`. */
  function Parse(s: string, start: bool): seq<string>
    decreases |s|
  {
    if s == [] then []
    else
      var n := if start then MatchMapping(s) else -1;
      if n > 0 then Entries(Block(s[n..]), true) + Parse(s[n..], false)
      else Parse(s[1..], s[0] == '\n')
  }

  // ---- the implementation

  lemma {:induction false} BlockLengthBound(s: string, depth: nat)
    requires depth > 0
    ensures -1 <= BlockLength(s, depth) <= |s|
  {
    if s == [] {
    } else {
      var d := if s[0] == '{' then depth + 1 else if s[0] == '}' then depth - 1 else depth;
      if d > 0 { BlockLengthBound(s[1..], d); }
    }
  }

  method ReadBlock(source: string, start: nat) returns (block: string)
    requires start <= |source|
    ensures block == Block(source[start..])
  {
    ghost var rest := source[start..];
    BlockLengthBound(rest, 1);
    var depth: nat, i := 1, start;
    while i < |source| && depth > 0
      invariant start <= i <= |source|
      invariant depth > 0 ==> BlockLength(rest, 1) == i - start + BlockLength(source[i..], depth)
      invariant depth == 0 ==> i > start && BlockLength(rest, 1) == i - start - 1
      decreases |source| - i
    {
      assert source[i..][1..] == source[i + 1..];
      if source[i] == '{' {
        depth := depth + 1;
      } else if source[i] == '}' {
        depth := depth - 1;
      }
      i := i + 1;
    }
    // source[block_start : i - 1]
    block := if i - 1 >= start then source[start..i - 1] else [];
    assert i - 1 >= start ==> source[start..i - 1] == rest[..i - 1 - start];
  }

  method ReadEntries(block: string) returns (names: seq<string>)
    ensures names == Entries(block, true)
  {
    names := [];
    var rest, start := block, true;
    while rest != []
      invariant names + Entries(rest, start) == Entries(block, true)
      decreases |rest|
    {
      var e := if start then MatchEntry(rest) else NoEntry;
      if e.Entry? {
        Reassociate(names, [e.name], Entries(rest[e.end..], false));
        names, rest, start := names + [e.name], rest[e.end..], false;
      } else {
        rest, start := rest[1..], rest[0] == '\n';
      }
    }
  }

  method ParseShimMapping(source: string) returns (names: seq<string>)
    ensures names == Parse(source, true)
  {
    names := [];
    var rest, start := source, true;
    while rest != []
      invariant names + Parse(rest, start) == Parse(source, true)
      decreases |rest|
    {
      var n := if start then MatchMapping(rest) else -1;
      if n > 0 {
        var block := ReadBlock(rest, n);
        var found := ReadEntries(block);
        Reassociate(names, found, Parse(rest[n..], false));
        names, rest, start := names + found, rest[n..], false;
      } else {
        rest, start := rest[1..], rest[0] == '\n';
      }
    }
  }

  // ---- reading text line by line

  predicate NoNewline(s: string) {
    forall i :: 0 <= i < |s| ==> s[i] != '\n'
  }

  /** Word characters, then white space, then something other than `=`, all on this line. */
  predicate BreaksOff(line: string, w: nat, k: nat) {
    && 0 < w <= k < |line|
    && (forall i :: 0 <= i < w ==> IsWord(line[i]))
    && (forall i :: w <= i < k ==> IsSpace(line[i]))
    && !IsSpace(line[k]) && !IsWord(line[w]) && line[k] != '='
  }

  /** A line the mapping expression cannot start in, whatever follows. */
  ghost predicate Quiet(line: string) {
    NoNewline(line) && (line == [] || !IsWord(line[0]) || exists w, k :: BreaksOff(line, w, k))
  }

  lemma {:induction false} WordRunIs(s: string, w: nat)
    requires w < |s| && !IsWord(s[w]) && forall i :: 0 <= i < w ==> IsWord(s[i])
    ensures WordRun(s) == w
  {
    if w == 0 {
    } else {
      WordRunIs(s[1..], w - 1);
    }
  }

  lemma {:induction false} SpaceRunIs(s: string, n: nat)
    requires n < |s| && !IsSpace(s[n]) && forall i :: 0 <= i < n ==> IsSpace(s[i])
    ensures SpaceRun(s) == n
  {
    if n == 0 {
    } else {
      SpaceRunIs(s[1..], n - 1);
    }
  }

  lemma {:induction false} SpaceRunFrom(s: string, w: nat, k: nat)
    requires w <= k < |s| && !IsSpace(s[k]) && forall i :: w <= i < k ==> IsSpace(s[i])
    ensures SpaceRun(s[w..]) == k - w
  {
    var t := s[w..];
    assert t[k - w] == s[k];
    forall i | 0 <= i < k - w ensures IsSpace(t[i]) { assert t[i] == s[w + i]; }
    SpaceRunIs(t, k - w);
  }

  lemma {:induction false} WordRunFrom(s: string, w: nat, k: nat)
    requires w <= k < |s| && !IsWord(s[k]) && forall i :: w <= i < k ==> IsWord(s[i])
    ensures WordRun(s[w..]) == k - w
  {
    var t := s[w..];
    assert t[k - w] == s[k];
    forall i | 0 <= i < k - w ensures IsWord(t[i]) { assert t[i] == s[w + i]; }
    WordRunIs(t, k - w);
  }

  lemma {:induction false} RunsDetermined(s: string, w: nat, k: nat)
    requires w <= k < |s|
    requires forall i :: 0 <= i < w ==> IsWord(s[i])
    requires forall i :: w <= i < k ==> IsSpace(s[i])
    requires !IsWord(s[w]) && !IsSpace(s[k])
    ensures WordRun(s) == w && w + SpaceRun(s[w..]) == k
  {
    WordRunIs(s, w);
    SpaceRunFrom(s, w, k);
  }

  lemma NoMatchWithoutWord(s: string)
    requires s == [] || !IsWord(s[0])
    ensures MatchMapping(s) == -1
  {
  }

  lemma {:induction false} NoMatchBrokenOff(s: string, w: nat, k: nat)
    requires BreaksOff(s, w, k)
    ensures MatchMapping(s) == -1
  {
    RunsDetermined(s, w, k);
  }

  lemma BreaksOffEarly(line: string, rest: string, w: nat, k: nat)
    requires BreaksOff(line, w, k)
    ensures BreaksOff(line + rest, w, k)
  {
    var s := line + rest;
    assert forall i :: 0 <= i < |line| ==> s[i] == line[i];
  }

  lemma {:induction false} QuietDoesNotMatch(line: string, rest: string)
    requires Quiet(line)
    ensures MatchMapping(line + ("\n" + rest)) == -1
  {
    if line == [] || !IsWord(line[0]) {
      NoMatchWithoutWord(line + ("\n" + rest));
    } else {
      var w, k :| BreaksOff(line, w, k);
      BreaksOffEarly(line, "\n" + rest, w, k);
      NoMatchBrokenOff(line + ("\n" + rest), w, k);
    }
  }

  lemma {:induction false} RestOfLine(line: string, rest: string)
    requires NoNewline(line)
    ensures Parse(line + ("\n" + rest), false) == Parse(rest, true)
  {
    var s := line + ("\n" + rest);
    if line == [] {
      assert s[0] == '\n' && s[1..] == rest;
    } else {
      assert s[0] == line[0] && s[1..] == line[1..] + ("\n" + rest);
      RestOfLine(line[1..], rest);
    }
  }

  lemma QuietLineSkipped(line: string, rest: string)
    requires Quiet(line)
    ensures Parse(line + ("\n" + rest), true) == Parse(rest, true)
  {
    var s := line + ("\n" + rest);
    QuietDoesNotMatch(line, rest);
    if line == [] {
      assert s[0] == '\n' && s[1..] == rest;
    } else {
      assert s[0] == line[0] && s[1..] == line[1..] + ("\n" + rest);
      RestOfLine(line[1..], rest);
    }
  }

  /** Lines, each ended by a newline. */
  function Text(lines: seq<string>): string {
    if lines == [] then [] else lines[0] + ("\n" + Text(lines[1..]))
  }

  lemma TextHead(line: string, lines: seq<string>, rest: string)
    ensures Text([line] + lines) + rest == line + ("\n" + (Text(lines) + rest))
  {
    assert ([line] + lines)[1..] == lines;
    Reassociate(line, "\n" + Text(lines), rest);
    Reassociate("\n", Text(lines), rest);
  }

  lemma {:induction false} TextAppend(a: seq<string>, b: seq<string>)
    ensures Text(a + b) == Text(a) + Text(b)
  {
    if a == [] {
      assert a + b == b;
    } else {
      TextAppend(a[1..], b);
      assert (a + b)[1..] == a[1..] + b;
      Reassociate(a[0], "\n" + Text(a[1..]), Text(b));
      Reassociate("\n", Text(a[1..]), Text(b));
    }
  }

  lemma {:induction false} QuietTextSkipped(lines: seq<string>, rest: string)
    requires forall i :: 0 <= i < |lines| ==> Quiet(lines[i])
    ensures Parse(Text(lines) + rest, true) == Parse(rest, true)
  {
    if lines == [] {
      assert Text(lines) + rest == rest;
    } else {
      assert lines == [lines[0]] + lines[1..];
      TextHead(lines[0], lines[1..], rest);
      QuietLineSkipped(lines[0], Text(lines[1..]) + rest);
      QuietTextSkipped(lines[1..], rest);
    }
  }

  // ---- mapping blocks

  predicate Identifier(s: string) {
    s != [] && forall i :: 0 <= i < |s| ==> IsWord(s[i])
  }

  predicate BraceFree(s: string) {
    forall i :: 0 <= i < |s| ==> s[i] != '{' && s[i] != '}'
  }

  /** `    'name': value` */
  function EntryLine(name: string, value: string): string {
    "    '" + name + "':" + value
  }

  lemma {:induction false} EntryFromRuns(s: string, q: nat, r: nat)
    requires q + 1 < r && r + 1 < |s| && s[q] == '\'' && s[r] == '\'' && s[r + 1] == ':'
    requires SpaceRun(s) == q && WordRun(s[q + 1..]) == r - q - 1 && SpaceRun(s[r + 1..]) == 0
    ensures MatchEntry(s) == Entry(s[q + 1..r], r + 2)
  {
    var w := WordRun(s[q + 1..]);
    assert q + 1 + w == r && w != 0;
    var c := r + 1 + SpaceRun(s[r + 1..]);
    assert c == r + 1;
  }

  lemma {:induction false} EntryFound(s: string, q: nat, r: nat)
    requires q + 1 < r && r + 1 < |s|
    requires (forall i :: 0 <= i < q ==> IsSpace(s[i])) && s[q] == '\''
    requires (forall i :: q < i < r ==> IsWord(s[i])) && s[r] == '\'' && s[r + 1] == ':'
    ensures MatchEntry(s) == Entry(s[q + 1..r], r + 2)
  {
    SpaceRunIs(s, q);
    WordRunFrom(s, q + 1, r);
    SpaceRunFrom(s, r + 1, r + 1);
    EntryFromRuns(s, q, r);
  }

  lemma PartsAt(a: string, b: string, n: nat)
    requires n == |a|
    ensures (a + b)[..n] == a && (a + b)[n..] == b
  {
  }

  lemma TailAt(s: string, i: nat, k: nat)
    requires i + k <= |s|
    ensures s[i..][k..] == s[i + k..] && s[i..][..k] == s[i..i + k]
  {
  }

  lemma {:induction false} EntryLayout(lead: string, name: string, tail: string)
    ensures var s := lead + ("'" + (name + ("':" + tail)));
      var q, r := |lead|, |lead| + 1 + |name|;
      && |s| == r + 2 + |tail| && s[..q] == lead && s[q] == '\'' && s[q + 1..r] == name
      && s[r] == '\'' && s[r + 1] == ':' && s[r + 2..] == tail
  {
    var late := "':" + tail;
    var inner := name + late;
    var s := lead + ("'" + inner);
    var q, r := |lead|, |lead| + 1 + |name|;
    PartsAt(lead, "'" + inner, q);
    PartsAt("'", inner, 1);
    TailAt(s, q, 1);
    PartsAt(name, late, |name|);
    TailAt(s, q + 1, |name|);
    PartsAt("':", tail, 2);
    TailAt(s, r, 2);
    assert s[q] == s[q..][0] && s[r] == s[r..][0] && s[r + 1] == s[r..][1];
  }

  lemma {:induction false} EntryFoundHere(s: string, lead: string, name: string)
    requires Identifier(name) && forall i :: 0 <= i < |lead| ==> IsSpace(lead[i])
    requires |lead| + |name| + 3 <= |s| && s[..|lead|] == lead && s[|lead|] == '\''
    requires s[|lead| + 1..|lead| + 1 + |name|] == name
    requires s[|lead| + 1 + |name|] == '\'' && s[|lead| + 2 + |name|] == ':'
    ensures MatchEntry(s) == Entry(name, |lead| + |name| + 3)
  {
    var q, r := |lead|, |lead| + 1 + |name|;
    assert forall i :: 0 <= i < q ==> s[i] == s[..q][i];
    assert forall i :: q < i < r ==> s[i] == s[q + 1..r][i - q - 1];
    EntryFound(s, q, r);
  }

  lemma {:induction false} EntriesRestOfLine(line: string, rest: string)
    requires NoNewline(line)
    ensures Entries(line + ("\n" + rest), false) == Entries(rest, true)
  {
    var s := line + ("\n" + rest);
    if line == [] {
      assert s[0] == '\n' && s[1..] == rest;
    } else {
      assert s[0] == line[0] && s[1..] == line[1..] + ("\n" + rest);
      EntriesRestOfLine(line[1..], rest);
    }
  }

  lemma {:induction false} EntryReadAt(s: string, name: string, end: nat, value: string, rest: string)
    requires MatchEntry(s) == Entry(name, end) && NoNewline(value)
    requires end <= |s| && s[end..] == value + ("\n" + rest)
    ensures Entries(s, true) == [name] + Entries(rest, true)
  {
    EntriesRestOfLine(value, rest);
  }

  /** One entry line, possibly with the newline that ended the line before. */
  lemma {:induction false} EntryLineRead(lead: string, name: string, value: string, rest: string)
    requires Identifier(name) && NoNewline(value) && forall i :: 0 <= i < |lead| ==> IsSpace(lead[i])
    ensures Entries(lead + ("'" + (name + ("':" + (value + ("\n" + rest))))), true) == [name] + Entries(rest, true)
  {
    var tail := value + ("\n" + rest);
    var s := lead + ("'" + (name + ("':" + tail)));
    EntryLayout(lead, name, tail);
    EntryFoundHere(s, lead, name);
    EntryReadAt(s, name, |lead| + |name| + 3, value, rest);
  }
}
