/** The two expressions of the parser and its brace counting, said on the text they match. */
module ShimPatterns {
  import opened Sorting
  import opened ShimParser

  /** `\w+`, over ASCII. */
  predicate Word(s: string) {
    s != [] && forall i :: 0 <= i < |s| ==>
      ('a' <= s[i] <= 'z') || ('A' <= s[i] <= 'Z') || ('0' <= s[i] <= '9') || s[i] == '_'
  }

  /** `\s*`, over ASCII: space, tab, line feed, carriage return, vertical tab, form feed. */
  predicate White(s: string) {
    forall i :: 0 <= i < |s| ==>
      s[i] == ' ' || s[i] == '\t' || s[i] == '\n' || s[i] == '\r' || s[i] == '\U{0B}' || s[i] == '\U{0C}'
  }

  /** `(\w+)\s*=\s*\{` */
  ghost predicate MappingText(s: string) {
    exists name, a, b :: Word(name) && White(a) && White(b) && s == name + (a + ("=" + (b + "{")))
  }

  /** `\s*['"](\w+)['"]\s*:` */
  ghost predicate EntryText(s: string, name: string) {
    exists a, b, q: char, r: char ::
      && White(a) && White(b) && Word(name) && (q == '\'' || q == '"') && (r == '\'' || r == '"')
      && s == a + ([q] + (name + ([r] + (b + ":"))))
  }

  // ---- runs of word characters and of white space

  lemma {:induction false} WordRunTaken(s: string)
    ensures forall i :: 0 <= i < WordRun(s) ==> IsWord(s[i])
    ensures WordRun(s) < |s| ==> !IsWord(s[WordRun(s)])
  {
    if s == [] || !IsWord(s[0]) {
    } else {
      var n := WordRun(s[1..]);
      WordRunTaken(s[1..]);
      forall i | 0 <= i < n + 1 ensures IsWord(s[i]) {
        if i > 0 { assert s[i] == s[1..][i - 1]; }
      }
      assert n + 1 < |s| ==> s[n + 1] == s[1..][n];
    }
  }

  lemma {:induction false} SpaceRunTaken(s: string)
    ensures forall i :: 0 <= i < SpaceRun(s) ==> IsSpace(s[i])
    ensures SpaceRun(s) < |s| ==> !IsSpace(s[SpaceRun(s)])
  {
    if s == [] || !IsSpace(s[0]) {
    } else {
      var n := SpaceRun(s[1..]);
      SpaceRunTaken(s[1..]);
      forall i | 0 <= i < n + 1 ensures IsSpace(s[i]) {
        if i > 0 { assert s[i] == s[1..][i - 1]; }
      }
      assert n + 1 < |s| ==> s[n + 1] == s[1..][n];
    }
  }

  lemma {:induction false} WordThen(name: string, rest: string)
    requires Word(name) && rest != [] && !IsWord(rest[0])
    ensures WordRun(name + rest) == |name| && (name + rest)[|name|..] == rest
  {
    var s := name + rest;
    forall i | 0 <= i < |name| ensures IsWord(s[i]) { assert s[i] == name[i]; }
    WordRunIs(s, |name|);
  }

  lemma {:induction false} WhiteThen(a: string, rest: string)
    requires White(a) && rest != [] && !IsSpace(rest[0])
    ensures SpaceRun(a + rest) == |a| && (a + rest)[|a|..] == rest
  {
    var s := a + rest;
    forall i | 0 <= i < |a| ensures IsSpace(s[i]) { assert s[i] == a[i]; }
    SpaceRunIs(s, |a|);
  }

  lemma {:induction false} WordTaken(s: string)
    ensures WordRun(s) > 0 ==> Word(s[..WordRun(s)])
  {
    WordRunTaken(s);
    forall i | 0 <= i < WordRun(s) ensures IsWord(s[..WordRun(s)][i]) { assert s[..WordRun(s)][i] == s[i]; }
  }

  lemma {:induction false} WhiteTaken(s: string)
    ensures White(s[..SpaceRun(s)])
  {
    SpaceRunTaken(s);
    forall i | 0 <= i < SpaceRun(s) ensures IsSpace(s[..SpaceRun(s)][i]) { assert s[..SpaceRun(s)][i] == s[i]; }
  }

  lemma Halves(s: string, n: nat)
    requires n <= |s|
    ensures s == s[..n] + s[n..]
  {
  }

  // ---- the mapping expression

  lemma {:induction false} MappingMatched(s: string, n: nat)
    requires MatchMapping(s) == n > 0
    ensures MappingText(s[..n])
  {
    var w := WordRun(s);
    var a := s[w..][..SpaceRun(s[w..])];
    var k := w + |a|;
    var b := s[k + 1..][..SpaceRun(s[k + 1..])];
    WordTaken(s);
    WhiteTaken(s[w..]);
    WhiteTaken(s[k + 1..]);
    assert s[..n] == s[..w] + (a + ("=" + (b + "{")));
  }

  lemma {:induction false} MappingAt(s: string, w: nat, k: nat, m: nat)
    requires 0 < w == WordRun(s) && k == w + SpaceRun(s[w..]) && k < |s| && s[k] == '='
    requires m == k + 1 + SpaceRun(s[k + 1..]) && m < |s| && s[m] == '{'
    ensures MatchMapping(s) == m + 1
  {
  }

  lemma DropTwice(s: string, i: nat, j: nat)
    requires i + j <= |s|
    ensures s[i..][j..] == s[i + j..]
  {
  }

  lemma {:induction false} MappingFound(name: string, a: string, b: string, rest: string)
    requires Word(name) && White(a) && White(b)
    ensures MatchMapping(name + (a + ("=" + (b + ("{" + rest))))) == |name| + |a| + |b| + 2
  {
    var afterEquals := b + ("{" + rest);
    var afterName := a + ("=" + afterEquals);
    var s, w, k := name + afterName, |name|, |name| + |a|;
    WhiteThen(b, "{" + rest);
    WhiteThen(a, "=" + afterEquals);
    NameEnds(a, afterEquals);
    WordThen(name, afterName);
    DropTwice(s, w, |a|);
    DropTwice(s, k, 1);
    DropTwice(s, k + 1, |b|);
    assert s[k..] == "=" + afterEquals && s[k + 1..] == afterEquals;
    assert s[k] == s[k..][0] && s[k + 1 + |b|] == s[k + 1 + |b|..][0];
    MappingAt(s, w, k, k + 1 + |b|);
  }

  lemma NameEnds(a: string, afterEquals: string)
    requires White(a)
    ensures !IsWord((a + ("=" + afterEquals))[0])
  {
  }

  lemma MappingTail(name: string, a: string, b: string, rest: string)
    ensures (name + (a + ("=" + (b + "{")))) + rest == name + (a + ("=" + (b + ("{" + rest))))
  {
    Reassociate(name, a + ("=" + (b + "{")), rest);
    Reassociate(a, "=" + (b + "{"), rest);
    Reassociate("=", b + "{", rest);
    Reassociate(b, "{", rest);
  }

  /** Where the mapping expression matches at the start of s, and how far. */
  lemma {:induction false} MappingByText(s: string, n: nat)
    requires 0 < n <= |s|
    ensures MatchMapping(s) == n <==> MappingText(s[..n])
  {
    if MatchMapping(s) == n { MappingMatched(s, n); }
    if MappingText(s[..n]) {
      var name, a, b :| Word(name) && White(a) && White(b) && s[..n] == name + (a + ("=" + (b + "{")));
      MappingFound(name, a, b, s[n..]);
      MappingTail(name, a, b, s[n..]);
      Halves(s, n);
    }
  }

  // ---- the entry expression

  lemma EntryShape(s: string, q: nat, r: nat, c: nat, a: string, name: string, b: string)
    requires q < r < c < |s| && s[c] == ':' && a == s[..q] && name == s[q + 1..r] && b == s[r + 1..c]
    ensures s[..c + 1] == a + ([s[q]] + (name + ([s[r]] + (b + ":"))))
  {
  }

  lemma TakeOfDrop(s: string, i: nat, n: nat)
    requires i + n <= |s|
    ensures s[i..][..n] == s[i..i + n]
  {
  }

  lemma {:induction false} EntryParts(s: string, name: string, n: nat) returns (q: nat, r: nat)
    requires MatchEntry(s) == Entry(name, n)
    ensures q < r < n - 1 < |s| && s[n - 1] == ':' && name == s[q + 1..r] && name != []
    ensures q == SpaceRun(s) && r == q + 1 + WordRun(s[q + 1..]) && n - 1 == r + 1 + SpaceRun(s[r + 1..])
    ensures (s[q] == '\'' || s[q] == '"') && (s[r] == '\'' || s[r] == '"')
  {
    q := SpaceRun(s);
    r := q + 1 + WordRun(s[q + 1..]);
  }

  lemma {:induction false} EntryPieces(s: string, q: nat, r: nat, c: nat)
    requires q == SpaceRun(s) && q < r < c < |s|
    requires r == q + 1 + WordRun(s[q + 1..]) && q + 1 < r && c == r + 1 + SpaceRun(s[r + 1..])
    ensures White(s[..q]) && Word(s[q + 1..r]) && White(s[r + 1..c])
  {
    WhiteTaken(s);
    WordTaken(s[q + 1..]);
    WhiteTaken(s[r + 1..]);
    TakeOfDrop(s, q + 1, r - q - 1);
    TakeOfDrop(s, r + 1, c - r - 1);
  }

  lemma {:induction false} EntryMatched(s: string, name: string, n: nat)
    requires MatchEntry(s) == Entry(name, n)
    ensures EntryText(s[..n], name)
  {
    var q, r := EntryParts(s, name, n);
    EntryFromParts(s, name, n, q, r);
  }

  lemma {:induction false} EntryFromParts(s: string, name: string, n: nat, q: nat, r: nat)
    requires q < r < n - 1 < |s| && s[n - 1] == ':' && name == s[q + 1..r] && name != []
    requires q == SpaceRun(s) && r == q + 1 + WordRun(s[q + 1..]) && n - 1 == r + 1 + SpaceRun(s[r + 1..])
    requires (s[q] == '\'' || s[q] == '"') && (s[r] == '\'' || s[r] == '"')
    ensures EntryText(s[..n], name)
  {
    var c := n - 1;
    var a, b := s[..q], s[r + 1..c];
    EntryPieces(s, q, r, c);
    EntryJoined(s, q, r, c, a, name, b);
  }

  lemma EntryJoined(s: string, q: nat, r: nat, c: nat, a: string, name: string, b: string)
    requires q < r < c < |s| && s[c] == ':' && a == s[..q] && name == s[q + 1..r] && b == s[r + 1..c]
    requires White(a) && White(b) && Word(name)
    requires (s[q] == '\'' || s[q] == '"') && (s[r] == '\'' || s[r] == '"')
    ensures EntryText(s[..c + 1], name)
  {
    EntryShape(s, q, r, c, a, name, b);
    EntryIs(s[..c + 1], a, s[q], name, s[r], b);
  }

  lemma EntryIs(s: string, a: string, q: char, name: string, r: char, b: string)
    requires White(a) && White(b) && Word(name) && (q == '\'' || q == '"') && (r == '\'' || r == '"')
    requires s == a + ([q] + (name + ([r] + (b + ":"))))
    ensures EntryText(s, name)
  {
  }

  /** From position i on, s reads t. */
  predicate ReadsFrom(s: string, i: nat, t: string) {
    i <= |s| && s[i..] == t
  }

  lemma Past(s: string, i: nat, x: string, t: string)
    requires ReadsFrom(s, i, x + t)
    ensures ReadsFrom(s, i + |x|, t) && s[i..i + |x|] == x
  {
    assert s[i..][|x|..] == s[i + |x|..];
    assert s[i..][..|x|] == s[i..i + |x|];
  }

  lemma HeadOf(s: string, i: nat, c: char, t: string)
    requires ReadsFrom(s, i, [c] + t)
    ensures i < |s| && s[i] == c && ReadsFrom(s, i + 1, t)
  {
    assert s[i] == s[i..][0];
    assert s[i..][1..] == s[i + 1..];
  }

  lemma Piece(s: string, i: nat, x: string, c: char, t: string)
    requires ReadsFrom(s, i, x + ([c] + t))
    ensures i + |x| < |s| && s[i + |x|] == c && ReadsFrom(s, i + |x| + 1, t) && s[i..i + |x|] == x
  {
    Past(s, i, x, [c] + t);
    HeadOf(s, i + |x|, c, t);
  }

  lemma {:induction false} ColonAt(s: string, i: nat, r: nat, c: nat)
    requires i <= r < c < |s| && s[c] == ':' && c == r + 1 + SpaceRun(s[r + 1..])
    ensures MatchColon(s, i, r) == Entry(s[i..r], c + 1)
  {
  }

  lemma {:induction false} NameAt(s: string, i: nat, r: nat)
    requires i < r < |s| && r == i + WordRun(s[i..]) && (s[r] == '\'' || s[r] == '"')
    ensures MatchName(s, i) == MatchColon(s, i, r)
  {
  }

  lemma {:induction false} QuoteAt(s: string, q: nat)
    requires q == SpaceRun(s) && q < |s| && (s[q] == '\'' || s[q] == '"')
    ensures MatchEntry(s) == MatchName(s, q + 1)
  {
  }

  lemma {:induction false} EntryAt(s: string, q: nat, i: nat, r: nat, c: nat)
    requires q == SpaceRun(s) && i == q + 1 && q < |s| && (s[q] == '\'' || s[q] == '"')
    requires i < r < |s| && r == i + WordRun(s[i..]) && (s[r] == '\'' || s[r] == '"')
    requires r < c < |s| && s[c] == ':' && c == r + 1 + SpaceRun(s[r + 1..])
    ensures MatchEntry(s) == Entry(s[i..r], c + 1)
  {
    QuoteAt(s, q);
    NameAt(s, i, r);
    ColonAt(s, i, r, c);
  }

  lemma {:induction false} EntryLayout(s: string, a: string, q: char, name: string, r: char, b: string, rest: string,
                                       t: string, u: string, e: nat)
    requires s == a + ([q] + t) && t == name + ([r] + u) && u == b + (":" + rest) && e == |a| + 1 + |name|
    ensures |a| < |s| && s[|a|] == q && ReadsFrom(s, |a| + 1, t) && e < |s| && s[|a| + 1..e] == name
    ensures s[e] == r && ReadsFrom(s, e + 1, u) && e + 1 + |b| < |s| && s[e + 1 + |b|] == ':'
  {
    assert ReadsFrom(s, 0, s);
    Piece(s, 0, a, q, t);
    Piece(s, |a| + 1, name, r, u);
    Piece(s, e + 1, b, ':', rest);
  }

  lemma {:induction false} EntryFoundAt(a: string, q: char, name: string, r: char, b: string, rest: string)
    requires White(a) && White(b) && Word(name) && (q == '\'' || q == '"') && (r == '\'' || r == '"')
    ensures MatchEntry(a + ([q] + (name + ([r] + (b + (":" + rest)))))) == Entry(name, |a| + |name| + |b| + 3)
  {
    var u := b + (":" + rest);
    var t := name + ([r] + u);
    var s, i := a + ([q] + t), |a| + 1;
    var r0 := i + |name|;
    EntryLayout(s, a, q, name, r, b, rest, t, u, r0);
    EntryRuns(s, a, q, name, r, b, rest, t, u);
    EntryAt(s, |a|, i, r0, r0 + 1 + |b|);
  }

  lemma {:induction false} EntryRuns(s: string, a: string, q: char, name: string, r: char, b: string, rest: string,
                                     t: string, u: string)
    requires White(a) && White(b) && Word(name) && (q == '\'' || q == '"') && (r == '\'' || r == '"')
    requires s == a + ([q] + t) && t == name + ([r] + u) && u == b + (":" + rest)
    ensures SpaceRun(s) == |a| && WordRun(t) == |name| && SpaceRun(u) == |b|
  {
    WhiteThen(b, ":" + rest);
    WordThen(name, [r] + u);
    WhiteThen(a, [q] + t);
  }

  lemma EntryTail(a: string, q: char, name: string, r: char, b: string, rest: string)
    ensures (a + ([q] + (name + ([r] + (b + ":"))))) + rest == a + ([q] + (name + ([r] + (b + (":" + rest)))))
  {
    Reassociate(a, [q] + (name + ([r] + (b + ":"))), rest);
    Reassociate([q], name + ([r] + (b + ":")), rest);
    Reassociate(name, [r] + (b + ":"), rest);
    Reassociate([r], b + ":", rest);
    Reassociate(b, ":", rest);
  }

  /** Where the entry expression matches at the start of s, how far, and the name it captures. */
  lemma {:induction false} EntryByText(s: string, name: string, n: nat)
    requires n <= |s|
    ensures MatchEntry(s) == Entry(name, n) <==> EntryText(s[..n], name)
  {
    if MatchEntry(s) == Entry(name, n) { EntryMatched(s, name, n); }
    if EntryText(s[..n], name) {
      var a, b, q: char, r: char :|
        && White(a) && White(b) && Word(name) && (q == '\'' || q == '"') && (r == '\'' || r == '"')
        && s[..n] == a + ([q] + (name + ([r] + (b + ":"))));
      EntryFoundAt(a, q, name, r, b, s[n..]);
      EntryTail(a, q, name, r, b, s[n..]);
      Halves(s, n);
    }
  }

  // ---- braces

  /** How many braces are open after the first k characters, counting the one before them. */
  function OpenAfter(s: string, k: nat): int
    requires k <= |s|
  {
    if k == 0 then 1
    else OpenAfter(s, k - 1) + if s[k - 1] == '{' then 1 else if s[k - 1] == '}' then -1 else 0
  }

  lemma {:induction false} OpenShift(s: string, k: nat)
    requires 1 <= k <= |s|
    ensures OpenAfter(s, k) == OpenAfter(s[1..], k - 1) + OpenAfter(s, 1) - 1
  {
    if k == 1 {
    } else {
      OpenShift(s, k - 1);
      assert s[k - 1] == s[1..][k - 2];
    }
  }

  lemma {:induction false} BlockLengthIs(s: string, depth: nat)
    requires depth > 0
    ensures var n := BlockLength(s, depth);
            && (n < |s| - 1 || (n == |s| - 1 && n >= 0 && OpenAfter(s, |s|) == 1 - depth) ==>
                  0 <= n < |s| && OpenAfter(s, n + 1) == 1 - depth)
            && n <= |s| - 1
            && forall k :: 0 <= k <= |s| && k <= n ==> OpenAfter(s, k) > 1 - depth
  {
    if s == [] {
    } else {
      var d := if s[0] == '{' then depth + 1 else if s[0] == '}' then depth - 1 else depth;
      assert OpenAfter(s, 1) == 1 + d - depth;
      if d == 0 {
      } else {
        BlockLengthIs(s[1..], d);
        var n := BlockLength(s, depth);
        forall k | 0 <= k <= |s| && k <= n ensures OpenAfter(s, k) > 1 - depth {
          if k > 0 { OpenShift(s, k); }
        }
        if 0 <= n < |s| { OpenShift(s, n + 1); }
        OpenShift(s, |s|);
      }
    }
  }

  /** The block ends before the first brace that leaves none open, and short of the last character when there
      is none. */
  lemma {:induction false} BlockByBraces(s: string, n: nat)
    requires n < |s| && forall k :: 0 <= k <= n ==> OpenAfter(s, k) > 0
    ensures OpenAfter(s, n + 1) == 0 ==> Block(s) == s[..n]
    ensures n == |s| - 1 ==> Block(s) == s[..n]
  {
    BlockLengthIs(s, 1);
  }

  // ---- `finditer`: matches from left to right, at line starts, none overlapping

  predicate LineStart(s: string, p: nat) {
    p == 0 || (p <= |s| && s[p - 1] == '\n')
  }

  datatype Span = Span(start: nat, end: nat)

  /** What an expression finds at a position: how far it matches, and the names that gives. */
  datatype Hit = Miss | Hit(end: nat, names: seq<string>)

  predicate Covered(at: seq<Span>, p: nat) {
    exists k :: 0 <= k < |at| && at[k].start <= p < at[k].end
  }

  predicate InOrder(s: string, from: nat, at: seq<Span>) {
    && (forall k :: 0 <= k < |at| ==> from <= at[k].start < at[k].end <= |s| && LineStart(s, at[k].start))
    && (forall j, k :: 0 <= j < k < |at| ==> at[j].end <= at[k].start)
  }

  predicate FoundAt(hit: nat -> Hit, span: Span) {
    hit(span.start).Hit? && hit(span.start).end == span.end
  }

  /** The matches from `from` on: every span is one, and no line start outside them is. */
  ghost predicate Scanned(s: string, from: nat, hit: nat -> Hit, at: seq<Span>) {
    && InOrder(s, from, at) && (forall k :: 0 <= k < |at| ==> FoundAt(hit, at[k]))
    && (forall p: nat :: from <= p < |s| && LineStart(s, p) && !Covered(at, p) ==> hit(p).Miss?)
  }

  function NamesAt(hit: nat -> Hit, at: seq<Span>): seq<string> {
    if at == [] then []
    else (if hit(at[0].start).Hit? then hit(at[0].start).names else []) + NamesAt(hit, at[1..])
  }

  /** What a scan that goes on after each match, or one character further, makes of the text from p on. */
  predicate ScanStep(s: string, hit: nat -> Hit, value: nat -> seq<string>, p: nat) {
    if LineStart(s, p) && hit(p).Hit? then p < hit(p).end <= |s| && value(p) == hit(p).names + value(hit(p).end)
    else value(p) == value(p + 1)
  }

  lemma CoveredCons(first: Span, rest: seq<Span>, p: nat)
    ensures Covered([first] + rest, p) <==> first.start <= p < first.end || Covered(rest, p)
  {
    var all := [first] + rest;
    assert all[0] == first && forall k :: 0 <= k < |rest| ==> all[k + 1] == rest[k];
  }

  lemma InOrderCons(s: string, first: Span, rest: seq<Span>)
    requires first.start < first.end <= |s| && LineStart(s, first.start) && InOrder(s, first.end, rest)
    ensures InOrder(s, first.start, [first] + rest)
  {
  }

  lemma ScannedHit(s: string, i: nat, hit: nat -> Hit, first: Span, rest: seq<Span>)
    requires first.start == i < first.end <= |s| && LineStart(s, i) && FoundAt(hit, first)
    requires Scanned(s, first.end, hit, rest)
    ensures Scanned(s, i, hit, [first] + rest)
  {
    InOrderCons(s, first, rest);
    forall p: nat | i <= p < |s| && LineStart(s, p) && !Covered([first] + rest, p) ensures hit(p).Miss? {
      CoveredCons(first, rest, p);
    }
  }

  lemma ScannedMiss(s: string, i: nat, hit: nat -> Hit, at: seq<Span>)
    requires i < |s| && (LineStart(s, i) ==> hit(i).Miss?) && Scanned(s, i + 1, hit, at)
    ensures Scanned(s, i, hit, at)
  {
  }

  lemma NamesCons(hit: nat -> Hit, first: Span, rest: seq<Span>)
    requires FoundAt(hit, first)
    ensures NamesAt(hit, [first] + rest) == hit(first.start).names + NamesAt(hit, rest)
  {
    assert ([first] + rest)[1..] == rest;
  }

  /** The names are those of the matches from i on. */
  ghost predicate Gathers(s: string, i: nat, hit: nat -> Hit, names: seq<string>) {
    exists at :: Scanned(s, i, hit, at) && names == NamesAt(hit, at)
  }

  lemma GathersHit(s: string, i: nat, hit: nat -> Hit, names: seq<string>)
    requires i < |s| && LineStart(s, i) && hit(i).Hit? && i < hit(i).end <= |s| && Gathers(s, hit(i).end, hit, names)
    ensures Gathers(s, i, hit, hit(i).names + names)
  {
    var rest :| Scanned(s, hit(i).end, hit, rest) && names == NamesAt(hit, rest);
    var first := Span(i, hit(i).end);
    ScannedHit(s, i, hit, first, rest);
    NamesCons(hit, first, rest);
  }

  lemma GathersMiss(s: string, i: nat, hit: nat -> Hit, names: seq<string>)
    requires i < |s| && (LineStart(s, i) ==> hit(i).Miss?) && Gathers(s, i + 1, hit, names)
    ensures Gathers(s, i, hit, names)
  {
    var at :| Scanned(s, i + 1, hit, at) && names == NamesAt(hit, at);
    ScannedMiss(s, i, hit, at);
  }

  lemma GathersNone(s: string, hit: nat -> Hit)
    ensures Gathers(s, |s|, hit, [])
  {
    assert Scanned(s, |s|, hit, []);
  }

  lemma {:induction false} ScanFrom(s: string, i: nat, hit: nat -> Hit, value: nat -> seq<string>)
    requires i <= |s| && value(|s|) == [] && forall p: nat :: p < |s| ==> ScanStep(s, hit, value, p)
    ensures Gathers(s, i, hit, value(i))
    decreases |s| - i
  {
    if i == |s| {
      GathersNone(s, hit);
    } else {
      assert ScanStep(s, hit, value, i);
      if LineStart(s, i) && hit(i).Hit? {
        ScanFrom(s, hit(i).end, hit, value);
        GathersHit(s, i, hit, value(hit(i).end));
      } else {
        ScanFrom(s, i + 1, hit, value);
        GathersMiss(s, i, hit, value(i + 1));
      }
    }
  }

  lemma HitStep(s: string, hit: nat -> Hit, value: nat -> seq<string>, p: nat, e: nat, names: seq<string>)
    requires LineStart(s, p) && hit(p) == Hit(e, names) && p < e <= |s| && value(p) == names + value(e)
    ensures ScanStep(s, hit, value, p)
  {
  }

  lemma MissStep(s: string, hit: nat -> Hit, value: nat -> seq<string>, p: nat)
    requires !(LineStart(s, p) && hit(p).Hit?) && value(p) == value(p + 1)
    ensures ScanStep(s, hit, value, p)
  {
  }

  lemma {:induction false} OneNameEach(hit: nat -> Hit, at: seq<Span>)
    requires forall k :: 0 <= k < |at| ==> FoundAt(hit, at[k]) && |hit(at[k].start).names| == 1
    ensures |NamesAt(hit, at)| == |at|
    ensures forall k :: 0 <= k < |at| ==> hit(at[k].start) == Hit(at[k].end, [NamesAt(hit, at)[k]])
  {
    if at == [] {
    } else {
      OneNameEach(hit, at[1..]);
      assert hit(at[0].start).names == [hit(at[0].start).names[0]];
    }
  }

  /** What follows the spans, one text after the other, read and joined. */
  function Collected(s: string, at: seq<Span>, read: string -> seq<string>): seq<string>
    requires forall k :: 0 <= k < |at| ==> at[k].end <= |s|
  {
    if at == [] then [] else read(s[at[0].end..]) + Collected(s, at[1..], read)
  }

  lemma {:induction false} NamesCollected(s: string, hit: nat -> Hit, at: seq<Span>, read: string -> seq<string>)
    requires forall k :: 0 <= k < |at| ==>
               at[k].end <= |s| && FoundAt(hit, at[k]) && hit(at[k].start).names == read(s[at[k].end..])
    ensures NamesAt(hit, at) == Collected(s, at, read)
  {
    if at == [] {
    } else {
      NamesCollected(s, hit, at[1..], read);
    }
  }

  // ---- the two scans

  function EntryHit(s: string): nat -> Hit {
    (p: nat) =>
      var e := if p <= |s| then MatchEntry(s[p..]) else NoEntry;
      if e.Entry? then Hit(p + e.end, [e.name]) else Miss
  }

  function EntriesFrom(s: string): nat -> seq<string> {
    (p: nat) => if p <= |s| then Entries(s[p..], LineStart(s, p)) else []
  }

  lemma {:induction false} FirstEntry(s: string, name: string, n: nat)
    requires MatchEntry(s) == Entry(name, n) && n <= |s|
    ensures Entries(s, true) == [name] + Entries(s[n..], false)
  {
  }

  lemma EndsInColon(s: string, name: string)
    requires EntryText(s, name)
    ensures s != [] && s[|s| - 1] == ':'
  {
  }

  lemma {:induction false} EntryTextHere(s: string, i: nat, name: string, n: nat, e: nat)
    requires e == i + n <= |s| && MatchEntry(s[i..]) == Entry(name, n)
    ensures EntryText(s[i..e], name)
  {
    EntryByText(s[i..], name, n);
    TakeOfDrop(s, i, n);
  }

  lemma {:induction false} NotAfterColon(s: string, i: nat, name: string, n: nat, e: nat)
    requires i < e == i + n <= |s| && MatchEntry(s[i..]) == Entry(name, n)
    ensures !LineStart(s, e) && s[i..][n..] == s[e..]
  {
    EntryTextHere(s, i, name, n, e);
    EndsInColon(s[i..e], name);
    assert s[e - 1] == s[i..e][n - 1];
    DropTwice(s, i, n);
  }

  lemma {:induction false} EntriesHere(s: string, i: nat, name: string, n: nat, e: nat)
    requires i < e == i + n <= |s| && MatchEntry(s[i..]) == Entry(name, n)
    ensures Entries(s[i..], true) == [name] + Entries(s[e..], LineStart(s, e))
  {
    NotAfterColon(s, i, name, n, e);
    FirstEntry(s[i..], name, n);
  }

  lemma {:induction false} EntriesLaterOn(s: string, i: nat)
    requires i < |s| && (LineStart(s, i) ==> MatchEntry(s[i..]).NoEntry?)
    ensures Entries(s[i..], LineStart(s, i)) == Entries(s[i + 1..], LineStart(s, i + 1))
  {
    assert s[i..][0] == s[i];
    DropTwice(s, i, 1);
  }

  lemma {:induction false} EntriesFromHit(s: string, p: nat, name: string, n: nat, e: nat)
    requires p < e == p + n <= |s| && LineStart(s, p) && MatchEntry(s[p..]) == Entry(name, n)
    ensures EntriesFrom(s)(p) == [name] + EntriesFrom(s)(e)
  {
    EntriesHere(s, p, name, n, e);
  }

  lemma {:induction false} EntriesFromMiss(s: string, p: nat)
    requires p < |s| && (LineStart(s, p) ==> MatchEntry(s[p..]).NoEntry?)
    ensures EntriesFrom(s)(p) == EntriesFrom(s)(p + 1)
  {
    EntriesLaterOn(s, p);
  }

  lemma {:induction false} EntryScanStep(s: string, p: nat)
    requires p < |s|
    ensures ScanStep(s, EntryHit(s), EntriesFrom(s), p)
  {
    var m := MatchEntry(s[p..]);
    if LineStart(s, p) && m.Entry? {
      var e, names := p + m.end, [m.name];
      EntriesFromHit(s, p, m.name, m.end, e);
      HitStep(s, EntryHit(s), EntriesFrom(s), p, e, names);
    } else {
      EntriesFromMiss(s, p);
      MissStep(s, EntryHit(s), EntriesFrom(s), p);
    }
  }

  lemma {:induction false} NoEntryHere(s: string, i: nat, e: nat, name: string)
    requires i < e <= |s| && MatchEntry(s[i..]).NoEntry?
    ensures !EntryText(s[i..e], name)
  {
    EntryByText(s[i..], name, e - i);
    TakeOfDrop(s, i, e - i);
  }

  /** Where the entry expression matches, leftmost first, and the names it captures. */
  ghost predicate EntriesAt(s: string, at: seq<Span>, names: seq<string>) {
    && InOrder(s, 0, at) && |names| == |at|
    && (forall k :: 0 <= k < |at| ==> EntryText(s[at[k].start..at[k].end], names[k]))
    && (forall p: nat, e: nat, name :: p < e <= |s| && LineStart(s, p) && !Covered(at, p) ==>
          !EntryText(s[p..e], name))
  }

  lemma {:induction false} EntryHitIs(s: string, p: nat, e: nat, name: string)
    requires p < e <= |s| && EntryHit(s)(p) == Hit(e, [name])
    ensures MatchEntry(s[p..]) == Entry(name, e - p)
  {
    var m := MatchEntry(s[p..]);
    assert [m.name] == [name];
  }

  lemma {:induction false} EntryFoundText(s: string, p: nat, e: nat, name: string)
    requires p < e <= |s| && EntryHit(s)(p) == Hit(e, [name])
    ensures EntryText(s[p..e], name)
  {
    EntryHitIs(s, p, e, name);
    EntryTextHere(s, p, name, e - p, e);
  }

  lemma {:induction false} EntryMissed(s: string, p: nat, e: nat, name: string)
    requires p < e <= |s| && EntryHit(s)(p).Miss?
    ensures !EntryText(s[p..e], name)
  {
    NoEntryHere(s, p, e, name);
  }

  lemma ScannedEntries(s: string, hit: nat -> Hit, at: seq<Span>)
    requires hit == EntryHit(s) && Scanned(s, 0, hit, at)
    ensures EntriesAt(s, at, NamesAt(hit, at))
  {
    OneNameEach(hit, at);
    forall k | 0 <= k < |at| ensures EntryText(s[at[k].start..at[k].end], NamesAt(hit, at)[k]) {
      EntryFoundText(s, at[k].start, at[k].end, NamesAt(hit, at)[k]);
    }
    forall p: nat, e: nat, name | p < e <= |s| && LineStart(s, p) && !Covered(at, p)
      ensures !EntryText(s[p..e], name)
    {
      EntryMissed(s, p, e, name);
    }
  }

  /** `_SHIM_ENTRY_RE.finditer(block)` */
  lemma {:induction false} EntriesByText(s: string) returns (at: seq<Span>)
    ensures EntriesAt(s, at, Entries(s, true))
  {
    var hit := EntryHit(s);
    forall p: nat | p < |s| ensures ScanStep(s, hit, EntriesFrom(s), p) { EntryScanStep(s, p); }
    ScanFrom(s, 0, hit, EntriesFrom(s));
    assert s[0..] == s;
    at :| Scanned(s, 0, hit, at) && Entries(s, true) == NamesAt(hit, at);
    ScannedEntries(s, hit, at);
  }

  // ---- the mappings

  /** The names in the block at the start of t. */
  function NamesInBlock(t: string): seq<string> {
    Entries(Block(t), true)
  }

  function MappingHit(s: string, read: string -> seq<string>): nat -> Hit {
    (p: nat) =>
      var n := if p <= |s| then MatchMapping(s[p..]) else -1;
      if n > 0 then Hit(p + n, read(s[p..][n..])) else Miss
  }

  function ParseFrom(s: string): nat -> seq<string> {
    (p: nat) => if p <= |s| then Parse(s[p..], LineStart(s, p)) else []
  }

  lemma {:induction false} FirstMapping(s: string, n: nat)
    requires MatchMapping(s) == n > 0
    ensures n <= |s| && Parse(s, true) == Entries(Block(s[n..]), true) + Parse(s[n..], false)
  {
  }

  lemma EndsInBrace(s: string)
    requires MappingText(s)
    ensures s != [] && s[|s| - 1] == '{'
  {
  }

  lemma {:induction false} MappingTextHere(s: string, i: nat, n: nat, e: nat)
    requires e == i + n <= |s| && MatchMapping(s[i..]) == n > 0
    ensures MappingText(s[i..e])
  {
    MappingByText(s[i..], n);
    TakeOfDrop(s, i, n);
  }

  lemma {:induction false} NotAfterBrace(s: string, i: nat, n: nat, e: nat)
    requires e == i + n <= |s| && MatchMapping(s[i..]) == n > 0
    ensures !LineStart(s, e) && s[i..][n..] == s[e..]
  {
    MappingTextHere(s, i, n, e);
    EndsInBrace(s[i..e]);
    assert s[e - 1] == s[i..e][n - 1];
    DropTwice(s, i, n);
  }

  lemma {:induction false} ParseHere(s: string, i: nat, n: nat, e: nat)
    requires e == i + n <= |s| && MatchMapping(s[i..]) == n > 0
    ensures Parse(s[i..], true) == NamesInBlock(s[i..][n..]) + Parse(s[e..], LineStart(s, e))
  {
    NotAfterBrace(s, i, n, e);
    FirstMapping(s[i..], n);
  }

  lemma {:induction false} ParseFromHit(s: string, p: nat, n: nat, e: nat, names: seq<string>)
    requires e == p + n <= |s| && LineStart(s, p) && MatchMapping(s[p..]) == n > 0 && names == NamesInBlock(s[p..][n..])
    ensures ParseFrom(s)(p) == names + ParseFrom(s)(e)
  {
    ParseHere(s, p, n, e);
  }

  lemma {:induction false} ParseLaterOn(s: string, i: nat)
    requires i < |s| && (LineStart(s, i) ==> MatchMapping(s[i..]) == -1)
    ensures Parse(s[i..], LineStart(s, i)) == Parse(s[i + 1..], LineStart(s, i + 1))
  {
    assert s[i..][0] == s[i];
    DropTwice(s, i, 1);
  }

  lemma {:induction false} ParseFromMiss(s: string, p: nat)
    requires p < |s| && (LineStart(s, p) ==> MatchMapping(s[p..]) == -1)
    ensures ParseFrom(s)(p) == ParseFrom(s)(p + 1)
  {
    ParseLaterOn(s, p);
  }

  lemma {:induction false} ParseScanStep(s: string, p: nat)
    requires p < |s|
    ensures ScanStep(s, MappingHit(s, NamesInBlock), ParseFrom(s), p)
  {
    var n := MatchMapping(s[p..]);
    if LineStart(s, p) && n > 0 {
      var e, names := p + n, NamesInBlock(s[p..][n..]);
      ParseFromHit(s, p, n, e, names);
      HitStep(s, MappingHit(s, NamesInBlock), ParseFrom(s), p, e, names);
    } else {
      ParseFromMiss(s, p);
      MissStep(s, MappingHit(s, NamesInBlock), ParseFrom(s), p);
    }
  }

  lemma {:induction false} NoMappingHere(s: string, i: nat, e: nat)
    requires i < e <= |s| && MatchMapping(s[i..]) == -1
    ensures !MappingText(s[i..e])
  {
    MappingByText(s[i..], e - i);
    TakeOfDrop(s, i, e - i);
  }

  /** Where the mapping expression matches, leftmost first. */
  ghost predicate MappingsAt(s: string, at: seq<Span>) {
    && InOrder(s, 0, at) && (forall k :: 0 <= k < |at| ==> MappingText(s[at[k].start..at[k].end]))
    && (forall p: nat, e: nat :: p < e <= |s| && LineStart(s, p) && !Covered(at, p) ==> !MappingText(s[p..e]))
  }

  lemma {:induction false} HitIs(s: string, read: string -> seq<string>, p: nat, e: nat) returns (n: nat)
    requires p < e <= |s| && MappingHit(s, read)(p).Hit? && MappingHit(s, read)(p).end == e
    ensures n == e - p > 0 && MatchMapping(s[p..]) == n && MappingHit(s, read)(p) == Hit(e, read(s[p..][n..]))
  {
    n := MatchMapping(s[p..]);
  }

  lemma BehindSpan(s: string, p: nat, n: nat, e: nat)
    requires n == e - p && p <= e <= |s|
    ensures s[p..][n..] == s[e..]
  {
  }

  lemma {:induction false} MappingFoundNames(s: string, read: string -> seq<string>, p: nat, e: nat)
    requires p < e <= |s| && MappingHit(s, read)(p).Hit? && MappingHit(s, read)(p).end == e
    ensures MappingHit(s, read)(p).names == read(s[e..])
  {
    var n := HitIs(s, read, p, e);
    BehindSpan(s, p, n, e);
  }

  lemma {:induction false} MappingFoundText(s: string, read: string -> seq<string>, p: nat, e: nat)
    requires p < e <= |s| && MappingHit(s, read)(p).Hit? && MappingHit(s, read)(p).end == e
    ensures MappingText(s[p..e])
  {
    var n := HitIs(s, read, p, e);
    MappingTextHere(s, p, n, e);
  }

  lemma {:induction false} MappingMissed(s: string, read: string -> seq<string>, p: nat, e: nat)
    requires p < e <= |s| && MappingHit(s, read)(p).Miss?
    ensures !MappingText(s[p..e])
  {
    NoMappingHere(s, p, e);
  }

  lemma ScannedMappings(s: string, read: string -> seq<string>, hit: nat -> Hit, at: seq<Span>)
    requires hit == MappingHit(s, read) && Scanned(s, 0, hit, at)
    ensures MappingsAt(s, at) && NamesAt(hit, at) == Collected(s, at, read)
  {
    forall k | 0 <= k < |at|
      ensures MappingText(s[at[k].start..at[k].end]) && hit(at[k].start).names == read(s[at[k].end..])
    {
      MappingFoundText(s, read, at[k].start, at[k].end);
      MappingFoundNames(s, read, at[k].start, at[k].end);
    }
    NamesCollected(s, hit, at, read);
    forall p: nat, e: nat | p < e <= |s| && LineStart(s, p) && !Covered(at, p) ensures !MappingText(s[p..e]) {
      MappingMissed(s, read, p, e);
    }
  }

  lemma ScanMappings(s: string, read: string -> seq<string>, value: nat -> seq<string>) returns (at: seq<Span>)
    requires value(|s|) == []
    requires forall p: nat :: p < |s| ==> ScanStep(s, MappingHit(s, read), value, p)
    ensures MappingsAt(s, at) && value(0) == Collected(s, at, read)
  {
    var hit := MappingHit(s, read);
    ScanFrom(s, 0, hit, value);
    at :| Scanned(s, 0, hit, at) && value(0) == NamesAt(hit, at);
    ScannedMappings(s, read, hit, at);
  }

  lemma {:induction false} ParseEnds(s: string)
    ensures ParseFrom(s)(|s|) == [] && ParseFrom(s)(0) == Parse(s, true)
  {
    assert s[0..] == s;
  }

  /** The parser returns, for the leftmost matches of the mapping expression at line starts, none overlapping, the
      names that the matches of the entry expression capture in their blocks. */
  lemma {:induction false} ParseByText(s: string) returns (at: seq<Span>)
    ensures MappingsAt(s, at) && Parse(s, true) == Collected(s, at, NamesInBlock)
  {
    forall p: nat | p < |s| ensures ScanStep(s, MappingHit(s, NamesInBlock), ParseFrom(s), p) { ParseScanStep(s, p); }
    ParseEnds(s);
    at := ScanMappings(s, NamesInBlock, ParseFrom(s));
  }
}
