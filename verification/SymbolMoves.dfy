/** Symbols that moved or were copied between files (`derive_moved_symbols`, `derive_copied_symbols`).
    Each side of a diff is the list of its symbols, file by file: a dictionary of dictionaries, read
    in insertion order. */
module SymbolMoves {
  import opened Sorting
  import opened StubVerdict

  datatype Symbol = Symbol(path: string, qname: string, dump: string)

  /** A move or a copy. */
  datatype Link = Link(name: string, sourceFile: string, destFile: string,
                       sourceClass: Option<string>, destClass: Option<string>, equivalent: bool)

  // ---- `_split_qualified`

  function DotAt(q: string): (n: nat)
    ensures n <= |q| && (n < |q| ==> q[n] == '.')
    ensures forall i :: 0 <= i < n ==> q[i] != '.'
  {
    if q == [] || q[0] == '.' then 0 else 1 + DotAt(q[1..])
  }

  function Bare(q: string): string {
    if DotAt(q) < |q| then q[DotAt(q) + 1..] else q
  }

  function ClassOf(q: string): Option<string> {
    if DotAt(q) < |q| then Some(q[..DotAt(q)]) else None
  }

  /** Class and bare name together give the qualified name back. */
  lemma SplitLosesNothing(p: string, q: string)
    requires Bare(p) == Bare(q) && ClassOf(p) == ClassOf(q)
    ensures p == q
  {
    assert DotAt(p) < |p| ==> p == p[..DotAt(p)] + ['.'] + p[DotAt(p) + 1..];
    assert DotAt(q) < |q| ==> q == q[..DotAt(q)] + ['.'] + q[DotAt(q) + 1..];
  }

  // ---- the two sides

  predicate Has(side: seq<Symbol>, path: string, qname: string) {
    exists s :: s in side && s.path == path && s.qname == qname
  }

  predicate Added(base: seq<Symbol>, s: Symbol) {
    !Has(base, s.path, s.qname)
  }

  /** Of the first n symbols at head, those of the given bare name that are added (or that survive). */
  function Index(base: seq<Symbol>, head: seq<Symbol>, n: nat, added: bool, bare: string): seq<Symbol>
    requires n <= |head|
  {
    if n == 0 then []
    else
      var s := head[n - 1];
      Index(base, head, n - 1, added, bare) + if Added(base, s) == added && Bare(s.qname) == bare then [s] else []
  }

  lemma {:induction false} IndexMembers(base: seq<Symbol>, head: seq<Symbol>, n: nat, added: bool, bare: string)
    requires n <= |head|
    ensures forall s :: s in Index(base, head, n, added, bare)
                   <==> s in head[..n] && Added(base, s) == added && Bare(s.qname) == bare
  {
    if n == 0 {
    } else {
      IndexMembers(base, head, n - 1, added, bare);
      TakeStep(head, n - 1);
      assert forall s :: s in head[..n] <==> s in head[..n - 1] || s == head[n - 1];
    }
  }

  function Get(index: map<string, seq<Symbol>>, bare: string): seq<Symbol> {
    if bare in index then index[bare] else []
  }

  ghost predicate Indexed(index: map<string, seq<Symbol>>, base: seq<Symbol>, head: seq<Symbol>, n: nat, added: bool)
    requires n <= |head|
  {
    forall bare :: Index(base, head, n, added, bare) == Get(index, bare)
  }

  lemma IndexedStep(index: map<string, seq<Symbol>>, base: seq<Symbol>, head: seq<Symbol>, n: nat, added: bool)
    requires n < |head| && Indexed(index, base, head, n, added)
    ensures var s := head[n];
            Indexed(if Added(base, s) == added then index[Bare(s.qname) := Get(index, Bare(s.qname)) + [s]] else index,
                    base, head, n + 1, added)
  {
    var s := head[n];
    var after := if Added(base, s) == added then index[Bare(s.qname) := Get(index, Bare(s.qname)) + [s]] else index;
    forall bare ensures Index(base, head, n + 1, added, bare) == Get(after, bare) {
      assert Index(base, head, n, added, bare) == Get(index, bare);
      assert Get(index, bare) + [] == Get(index, bare);
    }
  }

  method BuildIndex(base: seq<Symbol>, head: seq<Symbol>, added: bool) returns (index: map<string, seq<Symbol>>)
    ensures Indexed(index, base, head, |head|, added)
  {
    index := map[];
    for i := 0 to |head|
      invariant Indexed(index, base, head, i, added)
    {
      IndexedStep(index, base, head, i, added);
      var s := head[i];
      if Added(base, s) == added {
        index := index[Bare(s.qname) := Get(index, Bare(s.qname)) + [s]];
      }
    }
  }

  // ---- choosing a destination

  predicate Foreign(s: Symbol, path: string) {
    s.path != path
  }

  /** The first candidate in another file. */
  function FirstForeign(candidates: seq<Symbol>, path: string): Option<Symbol> {
    if candidates == [] then None
    else if Foreign(candidates[0], path) then Some(candidates[0])
    else FirstForeign(candidates[1..], path)
  }

  /** The first candidate in another file that is not a stub. */
  function FirstSolid(candidates: seq<Symbol>, path: string): Option<Symbol> {
    if candidates == [] then None
    else if Foreign(candidates[0], path) && !TrivialStub(candidates[0].dump) then Some(candidates[0])
    else FirstSolid(candidates[1..], path)
  }

  function Choice(candidates: seq<Symbol>, path: string): Option<Symbol> {
    if FirstSolid(candidates, path).Some? then FirstSolid(candidates, path) else FirstForeign(candidates, path)
  }

  /** The candidate loop: remember the first, stop at the first that is not a stub. */
  method Choose(candidates: seq<Symbol>, path: string) returns (chosen: Option<Symbol>)
    ensures chosen == Choice(candidates, path)
  {
    chosen := None;
    var i := 0;
    while i < |candidates|
      invariant i <= |candidates|
      invariant FirstSolid(candidates, path) == FirstSolid(candidates[i..], path)
      invariant FirstForeign(candidates, path) == if chosen.Some? then chosen else FirstForeign(candidates[i..], path)
    {
      var c := candidates[i];
      assert candidates[i..][0] == c && candidates[i..][1..] == candidates[i + 1..];
      if c.path != path {
        if chosen.None? { chosen := Some(c); }
        var stub := IsTrivialStubDump(c.dump);
        if !stub { return Some(c); }
      }
      i := i + 1;
    }
  }

  // ---- moves

  function LinkTo(from: Symbol, to: Symbol): Link {
    Link(Bare(from.qname), from.path, to.path, ClassOf(from.qname), ClassOf(to.qname), from.dump == to.dump)
  }

  function Removed(head: seq<Symbol>, s: Symbol): bool {
    !Has(head, s.path, s.qname)
  }

  function Destination(base: seq<Symbol>, head: seq<Symbol>, s: Symbol): Option<Symbol> {
    if Removed(head, s) then Choice(Index(base, head, |head|, true, Bare(s.qname)), s.path) else None
  }

  /** The moves of the first n symbols at base. */
  function Moves(base: seq<Symbol>, head: seq<Symbol>, n: nat): seq<Link>
    requires n <= |base|
  {
    if n == 0 then []
    else
      var to := Destination(base, head, base[n - 1]);
      Moves(base, head, n - 1) + if to.Some? then [LinkTo(base[n - 1], to.value)] else []
  }

  method DeriveMoved(base: seq<Symbol>, head: seq<Symbol>) returns (moved: seq<Link>)
    ensures moved == Moves(base, head, |base|)
  {
    var addedByName := BuildIndex(base, head, true);
    moved := [];
    for i := 0 to |base|
      invariant moved == Moves(base, head, i)
    {
      var s := base[i];
      if !Has(head, s.path, s.qname) {
        var chosen := Choose(Get(addedByName, Bare(s.qname)), s.path);
        if chosen.Some? { moved := moved + [LinkTo(s, chosen.value)]; }
      }
    }
  }

  // ---- copies

  function Original(base: seq<Symbol>, head: seq<Symbol>, s: Symbol): Option<Symbol> {
    if Added(base, s) then FirstForeign(Index(base, head, |head|, false, Bare(s.qname)), s.path) else None
  }

  function CopyOf(from: Symbol, to: Symbol): Link {
    Link(Bare(to.qname), from.path, to.path, ClassOf(from.qname), ClassOf(to.qname), from.dump == to.dump)
  }

  function Copies(base: seq<Symbol>, head: seq<Symbol>, n: nat): seq<Link>
    requires n <= |head|
  {
    if n == 0 then []
    else
      var from := Original(base, head, head[n - 1]);
      Copies(base, head, n - 1) + if from.Some? then [CopyOf(from.value, head[n - 1])] else []
  }

  method FindForeign(candidates: seq<Symbol>, path: string) returns (found: Option<Symbol>)
    ensures found == FirstForeign(candidates, path)
  {
    var i := 0;
    while i < |candidates|
      invariant i <= |candidates| && FirstForeign(candidates, path) == FirstForeign(candidates[i..], path)
    {
      assert candidates[i..][0] == candidates[i] && candidates[i..][1..] == candidates[i + 1..];
      if candidates[i].path != path { return Some(candidates[i]); }
      i := i + 1;
    }
    return None;
  }

  method DeriveCopied(base: seq<Symbol>, head: seq<Symbol>) returns (copied: seq<Link>)
    ensures copied == Copies(base, head, |head|)
  {
    var survivorsByName := BuildIndex(base, head, false);
    copied := [];
    for i := 0 to |head|
      invariant copied == Copies(base, head, i)
    {
      var s := head[i];
      if !Has(base, s.path, s.qname) {
        var from := FindForeign(Get(survivorsByName, Bare(s.qname)), s.path);
        if from.Some? { copied := copied + [CopyOf(from.value, s)]; }
      }
    }
  }

  // ---- what the two lists mean

  lemma {:induction false} FirstForeignIs(candidates: seq<Symbol>, path: string)
    ensures var c := FirstForeign(candidates, path);
            && (c.Some? ==> c.value in candidates && Foreign(c.value, path))
            && (c.None? ==> forall s :: s in candidates ==> !Foreign(s, path))
  {
    if candidates == [] {
    } else {
      FirstForeignIs(candidates[1..], path);
      assert forall s :: s in candidates <==> s == candidates[0] || s in candidates[1..];
    }
  }

  lemma {:induction false} FirstSolidIs(candidates: seq<Symbol>, path: string)
    ensures var c := FirstSolid(candidates, path);
            && (c.Some? ==> c.value in candidates && Foreign(c.value, path) && !TrivialStub(c.value.dump))
            && (c.None? ==> forall s :: s in candidates && Foreign(s, path) ==> TrivialStub(s.dump))
  {
    if candidates == [] {
    } else {
      FirstSolidIs(candidates[1..], path);
      assert forall s :: s in candidates <==> s == candidates[0] || s in candidates[1..];
    }
  }

  /** t was added under the bare name of `from`, in another file. */
  predicate Elsewhere(base: seq<Symbol>, from: Symbol, t: Symbol) {
    Added(base, t) && Bare(t.qname) == Bare(from.qname) && Foreign(t, from.path)
  }

  /** Somewhere in another file the bare name was added. */
  ghost predicate AddedElsewhere(base: seq<Symbol>, head: seq<Symbol>, from: Symbol, to: Symbol) {
    to in head && Elsewhere(base, from, to)
  }

  /** A symbol moves exactly when it was removed and its bare name was added to another file; it goes
      to a candidate that is not a stub whenever there is one. */
  lemma MovesExactly(base: seq<Symbol>, head: seq<Symbol>, s: Symbol)
    ensures var to := Destination(base, head, s);
            && (to.Some? <==> Removed(head, s) && exists t :: AddedElsewhere(base, head, s, t))
            && (to.Some? ==> AddedElsewhere(base, head, s, to.value))
            && (to.Some? && TrivialStub(to.value.dump) ==>
                  forall t :: AddedElsewhere(base, head, s, t) ==> TrivialStub(t.dump))
  {
    var candidates := Index(base, head, |head|, true, Bare(s.qname));
    IndexMembers(base, head, |head|, true, Bare(s.qname));
    TakeAll(head);
    FirstForeignIs(candidates, s.path);
    FirstSolidIs(candidates, s.path);
    assert forall t :: AddedElsewhere(base, head, s, t) <==> t in candidates && Foreign(t, s.path);
  }

  // ---- which candidate, by position at head

  /** Position i is the first addition elsewhere that is not a stub. */
  ghost predicate SolidAt(base: seq<Symbol>, head: seq<Symbol>, s: Symbol, i: int) {
    && 0 <= i < |head| && Elsewhere(base, s, head[i]) && !TrivialStub(head[i].dump)
    && forall j :: 0 <= j < i && Elsewhere(base, s, head[j]) ==> TrivialStub(head[j].dump)
  }

  ghost predicate OnlyStubs(base: seq<Symbol>, head: seq<Symbol>, s: Symbol) {
    forall j :: 0 <= j < |head| && Elsewhere(base, s, head[j]) ==> TrivialStub(head[j].dump)
  }

  /** Position i is the first addition elsewhere of any kind. */
  ghost predicate ForeignAt(base: seq<Symbol>, head: seq<Symbol>, s: Symbol, i: int) {
    && 0 <= i < |head| && Elsewhere(base, s, head[i])
    && forall j :: 0 <= j < i ==> !Elsewhere(base, s, head[j])
  }

  /** The addition the removed symbol is compared with: the first that is not a stub or, when all are
      stubs, the first. */
  ghost predicate FirstChoice(base: seq<Symbol>, head: seq<Symbol>, s: Symbol, i: int) {
    SolidAt(base, head, s, i) || (OnlyStubs(base, head, s) && ForeignAt(base, head, s, i))
  }

  lemma {:induction false} SolidSnoc(candidates: seq<Symbol>, t: Symbol, path: string)
    ensures FirstSolid(candidates + [t], path)
         == if FirstSolid(candidates, path).Some? then FirstSolid(candidates, path)
            else if Foreign(t, path) && !TrivialStub(t.dump) then Some(t) else None
  {
    if candidates == [] {
      assert [] + [t] == [t] && [t][1..] == [];
    } else {
      assert (candidates + [t])[1..] == candidates[1..] + [t];
      SolidSnoc(candidates[1..], t, path);
    }
  }

  lemma {:induction false} ForeignSnoc(candidates: seq<Symbol>, t: Symbol, path: string)
    ensures FirstForeign(candidates + [t], path)
         == if FirstForeign(candidates, path).Some? then FirstForeign(candidates, path)
            else if Foreign(t, path) then Some(t) else None
  {
    if candidates == [] {
      assert [] + [t] == [t] && [t][1..] == [];
    } else {
      assert (candidates + [t])[1..] == candidates[1..] + [t];
      ForeignSnoc(candidates[1..], t, path);
    }
  }

  lemma IndexNext(base: seq<Symbol>, head: seq<Symbol>, s: Symbol, n: nat)
    requires n < |head|
    ensures var before := Index(base, head, n, true, Bare(s.qname));
            var after := Index(base, head, n + 1, true, Bare(s.qname));
            && FirstSolid(after, s.path)
               == (if FirstSolid(before, s.path).Some? then FirstSolid(before, s.path)
                   else if Elsewhere(base, s, head[n]) && !TrivialStub(head[n].dump) then Some(head[n]) else None)
            && FirstForeign(after, s.path)
               == (if FirstForeign(before, s.path).Some? then FirstForeign(before, s.path)
                   else if Elsewhere(base, s, head[n]) then Some(head[n]) else None)
  {
    var before := Index(base, head, n, true, Bare(s.qname));
    SolidSnoc(before, head[n], s.path);
    ForeignSnoc(before, head[n], s.path);
    assert before + [] == before;
  }

  ghost predicate SolidUpTo(base: seq<Symbol>, head: seq<Symbol>, s: Symbol, n: nat, c: Option<Symbol>, i: int) {
    if c.Some? then i < n && SolidAt(base, head, s, i) && c.value == head[i]
    else n <= |head| && forall j :: 0 <= j < n && Elsewhere(base, s, head[j]) ==> TrivialStub(head[j].dump)
  }

  ghost predicate ForeignUpTo(base: seq<Symbol>, head: seq<Symbol>, s: Symbol, n: nat, c: Option<Symbol>, i: int) {
    if c.Some? then i < n && ForeignAt(base, head, s, i) && c.value == head[i]
    else n <= |head| && forall j :: 0 <= j < n ==> !Elsewhere(base, s, head[j])
  }

  lemma SolidStep(base: seq<Symbol>, head: seq<Symbol>, s: Symbol, n: nat, c: Option<Symbol>, i: int)
    requires n < |head| && SolidUpTo(base, head, s, n, c, i)
    ensures var t := head[n];
            SolidUpTo(base, head, s, n + 1,
                      if c.Some? then c else if Elsewhere(base, s, t) && !TrivialStub(t.dump) then Some(t) else None,
                      if c.Some? then i else n)
  {
  }

  lemma ForeignStep(base: seq<Symbol>, head: seq<Symbol>, s: Symbol, n: nat, c: Option<Symbol>, i: int)
    requires n < |head| && ForeignUpTo(base, head, s, n, c, i)
    ensures var t := head[n];
            ForeignUpTo(base, head, s, n + 1, if c.Some? then c else if Elsewhere(base, s, t) then Some(t) else None,
                        if c.Some? then i else n)
  {
  }

  lemma SolidOfIndex(base: seq<Symbol>, head: seq<Symbol>, s: Symbol) returns (i: int)
    ensures SolidUpTo(base, head, s, |head|, FirstSolid(Index(base, head, |head|, true, Bare(s.qname)), s.path), i)
  {
    i := -1;
    for n := 0 to |head|
      invariant SolidUpTo(base, head, s, n, FirstSolid(Index(base, head, n, true, Bare(s.qname)), s.path), i)
    {
      var c := FirstSolid(Index(base, head, n, true, Bare(s.qname)), s.path);
      IndexNext(base, head, s, n);
      SolidStep(base, head, s, n, c, i);
      i := if c.Some? then i else n;
    }
  }

  lemma {:induction false} ForeignOfIndex(base: seq<Symbol>, head: seq<Symbol>, s: Symbol) returns (i: int)
    ensures ForeignUpTo(base, head, s, |head|, FirstForeign(Index(base, head, |head|, true, Bare(s.qname)), s.path), i)
  {
    i := -1;
    for n := 0 to |head|
      invariant ForeignUpTo(base, head, s, n, FirstForeign(Index(base, head, n, true, Bare(s.qname)), s.path), i)
    {
      var c := FirstForeign(Index(base, head, n, true, Bare(s.qname)), s.path);
      IndexNext(base, head, s, n);
      ForeignStep(base, head, s, n, c, i);
      i := if c.Some? then i else n;
    }
  }

  /** The destination is the first choice, by position. */
  lemma DestinationIsFirstChoice(base: seq<Symbol>, head: seq<Symbol>, s: Symbol, i: int)
    requires Removed(head, s) && FirstChoice(base, head, s, i)
    ensures Destination(base, head, s) == Some(head[i])
  {
    var j := SolidOfIndex(base, head, s);
    var k := ForeignOfIndex(base, head, s);
    if SolidAt(base, head, s, i) {
      assert SolidAt(base, head, s, j) && i == j;
    } else {
      assert ForeignAt(base, head, s, k) && i == k;
    }
  }

  /** Exactly when a move is reported equivalent: when the first choice is byte-identical. */
  lemma VerbatimMoveIsEquivalent(base: seq<Symbol>, head: seq<Symbol>, s: Symbol, i: int)
    requires Removed(head, s) && FirstChoice(base, head, s, i)
    ensures Destination(base, head, s).Some?
    ensures LinkTo(s, Destination(base, head, s).value).equivalent <==> head[i].dump == s.dump
  {
    DestinationIsFirstChoice(base, head, s, i);
  }

  /** A removed symbol has a first choice exactly when its bare name was added elsewhere. */
  lemma FirstChoiceExists(base: seq<Symbol>, head: seq<Symbol>, s: Symbol)
    ensures (exists i :: FirstChoice(base, head, s, i)) <==> exists t :: AddedElsewhere(base, head, s, t)
  {
    var i := SolidOfIndex(base, head, s);
    var k := ForeignOfIndex(base, head, s);
    if t :| AddedElsewhere(base, head, s, t) {
      var j :| 0 <= j < |head| && head[j] == t;
      assert FirstChoice(base, head, s, i) || FirstChoice(base, head, s, k);
    }
    if i :| FirstChoice(base, head, s, i) { assert AddedElsewhere(base, head, s, head[i]); }
  }

  // ---- two byte-identical moves that are reported as modified

  /** An `f` moves from a to c; b gains another `f`, listed first, that is no stub. */
  lemma OtherListedFirst(d: string, e: string)
    requires d != e && !TrivialStub(e)
    ensures var s, other, copy := Symbol("a", "f", d), Symbol("b", "f", e), Symbol("c", "f", d);
            Destination([s], [other, copy], s) == Some(other) && !LinkTo(s, other).equivalent
  {
    var s, other, copy := Symbol("a", "f", d), Symbol("b", "f", e), Symbol("c", "f", d);
    assert SolidAt([s], [other, copy], s, 0);
    DestinationIsFirstChoice([s], [other, copy], s, 0);
  }

  /** A stub `f` moves from a to c, listed first; b gains an `f` that is no stub. */
  lemma StubListedFirst(d: string, e: string)
    requires TrivialStub(d) && !TrivialStub(e)
    ensures var s, copy, other := Symbol("a", "f", d), Symbol("c", "f", d), Symbol("b", "f", e);
            Destination([s], [copy, other], s) == Some(other) && !LinkTo(s, other).equivalent
  {
    var s, copy, other := Symbol("a", "f", d), Symbol("c", "f", d), Symbol("b", "f", e);
    assert SolidAt([s], [copy, other], s, 1);
    DestinationIsFirstChoice([s], [copy, other], s, 1);
  }

  // ---- one link per mover, in order

  /** Every move is the one of some removed symbol. */
  lemma {:induction false} MoveComesFromRemoval(base: seq<Symbol>, head: seq<Symbol>, n: nat, m: Link)
    returns (s: Symbol, to: Symbol)
    requires n <= |base| && m in Moves(base, head, n)
    ensures s in base && Removed(head, s) && Destination(base, head, s) == Some(to) && m == LinkTo(s, to)
  {
    s := base[n - 1];
    if m in Moves(base, head, n - 1) {
      s, to := MoveComesFromRemoval(base, head, n - 1, m);
    } else {
      to := Destination(base, head, s).value;
    }
  }

  predicate HasDestination(base: seq<Symbol>, head: seq<Symbol>, i: int) {
    0 <= i < |base| && Destination(base, head, base[i]).Some?
  }

  function LinkOf(base: seq<Symbol>, head: seq<Symbol>, i: int): Link
    requires HasDestination(base, head, i)
  {
    LinkTo(base[i], Destination(base, head, base[i]).value)
  }

  /** `at` lists the symbols with a destination among the first n of base, and `links` their links. */
  ghost predicate LinksInOrder(base: seq<Symbol>, head: seq<Symbol>, n: nat, at: seq<int>, links: seq<Link>) {
    && Increasing(at) && |at| == |links|
    && (forall i :: i in at <==> i < n && HasDestination(base, head, i))
    && (forall k :: 0 <= k < |at| ==> HasDestination(base, head, at[k]) && links[k] == LinkOf(base, head, at[k]))
  }

  lemma NextLink(base: seq<Symbol>, head: seq<Symbol>, n: nat, at: seq<int>, links: seq<Link>)
    requires n < |base| && LinksInOrder(base, head, n, at, links) && HasDestination(base, head, n)
    ensures LinksInOrder(base, head, n + 1, at + [n], links + [LinkOf(base, head, n)])
  {
    assert forall k :: 0 <= k < |at| ==> at[k] in at;
    assert forall i :: i in at + [n] <==> i in at || i == n;
  }

  lemma NoLink(base: seq<Symbol>, head: seq<Symbol>, n: nat, at: seq<int>, links: seq<Link>)
    requires n < |base| && LinksInOrder(base, head, n, at, links) && !HasDestination(base, head, n)
    ensures LinksInOrder(base, head, n + 1, at, links)
  {
  }

  lemma MovesNext(base: seq<Symbol>, head: seq<Symbol>, n: nat)
    requires n < |base|
    ensures Moves(base, head, n + 1)
         == if HasDestination(base, head, n) then Moves(base, head, n) + [LinkOf(base, head, n)]
           else Moves(base, head, n)
  {
    assert Moves(base, head, n) + [] == Moves(base, head, n);
  }

  /** The k-th link is that of the k-th removed symbol with a destination, in the order of base. */
  lemma OneMoveEach(base: seq<Symbol>, head: seq<Symbol>) returns (at: seq<int>)
    ensures LinksInOrder(base, head, |base|, at, Moves(base, head, |base|))
  {
    at := [];
    for n := 0 to |base|
      invariant LinksInOrder(base, head, n, at, Moves(base, head, n))
    {
      MovesNext(base, head, n);
      if HasDestination(base, head, n) {
        NextLink(base, head, n, at, Moves(base, head, n));
        at := at + [n];
      } else {
        NoLink(base, head, n, at, Moves(base, head, n));
      }
    }
  }

  /** The symbol is on both sides, under the bare name of s, in another file. */
  ghost predicate SurvivesElsewhere(base: seq<Symbol>, head: seq<Symbol>, o: Symbol, s: Symbol) {
    o in head && Has(base, o.path, o.qname) && Bare(o.qname) == Bare(s.qname) && Foreign(o, s.path)
  }

  /** The original of a copy is still there; an addition is a copy exactly when its bare name survives
      in another file. */
  lemma CopiesExactly(base: seq<Symbol>, head: seq<Symbol>, s: Symbol)
    ensures var from := Original(base, head, s);
            && (from.Some? <==> Added(base, s) && exists o :: SurvivesElsewhere(base, head, o, s))
            && (from.Some? ==> SurvivesElsewhere(base, head, from.value, s))
  {
    var survivors := Index(base, head, |head|, false, Bare(s.qname));
    IndexMembers(base, head, |head|, false, Bare(s.qname));
    TakeAll(head);
    FirstForeignIs(survivors, s.path);
    assert forall o :: SurvivesElsewhere(base, head, o, s) <==> o in survivors && Foreign(o, s.path);
  }

  /** Every copy is the one of some added symbol, and its original survives. */
  lemma {:induction false} CopyComesFromSurvivor(base: seq<Symbol>, head: seq<Symbol>, n: nat, c: Link)
    returns (o: Symbol, s: Symbol)
    requires n <= |head| && c in Copies(base, head, n)
    ensures Original(base, head, s) == Some(o) && SurvivesElsewhere(base, head, o, s) && c == CopyOf(o, s)
  {
    s := head[n - 1];
    if c in Copies(base, head, n - 1) {
      o, s := CopyComesFromSurvivor(base, head, n - 1, c);
    } else {
      o := Original(base, head, s).value;
      CopiesExactly(base, head, s);
    }
  }

  lemma SourcesDiffer(head: seq<Symbol>, gone: Symbol, kept: Symbol)
    requires Removed(head, gone) && kept in head
    ensures !(Bare(gone.qname) == Bare(kept.qname) && gone.path == kept.path
      && ClassOf(gone.qname) == ClassOf(kept.qname))
  {
    assert Has(head, kept.path, kept.qname);
    if Bare(gone.qname) == Bare(kept.qname) && ClassOf(gone.qname) == ClassOf(kept.qname) {
      SplitLosesNothing(gone.qname, kept.qname);
    }
  }

  predicate SameSource(m: Link, c: Link) {
    m.name == c.name && m.sourceFile == c.sourceFile && m.sourceClass == c.sourceClass
  }

  lemma LinksDiffer(head: seq<Symbol>, gone: Symbol, dest: Symbol, kept: Symbol, copy: Symbol)
    requires Removed(head, gone) && kept in head && Bare(kept.qname) == Bare(copy.qname)
    ensures !SameSource(LinkTo(gone, dest), CopyOf(kept, copy))
  {
    SourcesDiffer(head, gone, kept);
  }

  /** No symbol is the source of both a move and a copy: a move's source is gone, a copy's stays. */
  lemma MovedNeverCopied(base: seq<Symbol>, head: seq<Symbol>, n: nat, k: nat, m: Link, c: Link)
    requires n <= |base| && k <= |head| && m in Moves(base, head, n) && c in Copies(base, head, k)
    ensures !SameSource(m, c)
  {
    var gone, dest := MoveComesFromRemoval(base, head, n, m);
    var kept, copy := CopyComesFromSurvivor(base, head, k, c);
    LinksDiffer(head, gone, dest, kept, copy);
  }
}
