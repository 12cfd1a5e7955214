/** Moves and copies read off the two listings: positions, paths, qualified names and dumps alone. */
module MoveTexts {
  import opened Sorting
  import opened StubVerdict
  import opened SymbolMoves

  /** The qualified name is a bare name, or a class up to the first dot and the name after it. */
  predicate Named(qname: string, cls: Option<string>, bare: string) {
    if cls.None? then '.' !in qname && qname == bare
    else '.' !in cls.value && qname == cls.value + "." + bare
  }

  ghost predicate ShareName(p: string, q: string) {
    exists c, d, bare :: Named(p, c, bare) && Named(q, d, bare)
  }

  lemma NamedIs(q: string, cls: Option<string>, bare: string)
    ensures Named(q, cls, bare) <==> ClassOf(q) == cls && Bare(q) == bare
  {
    var n := DotAt(q);
    if n < |q| { assert q == q[..n] + "." + q[n + 1..]; }
    if Named(q, cls, bare) && cls.Some? {
      var c := cls.value;
      assert q[|c|] == '.' && q[..|c|] == c && q[|c| + 1..] == bare;
    }
  }

  lemma ShareIs(p: string, q: string)
    ensures ShareName(p, q) <==> Bare(p) == Bare(q)
  {
    NamedIs(p, ClassOf(p), Bare(p));
    NamedIs(q, ClassOf(q), Bare(q));
    if ShareName(p, q) {
      var c, d, bare :| Named(p, c, bare) && Named(q, d, bare);
      NamedIs(p, c, bare);
      NamedIs(q, d, bare);
    }
  }

  /** The side lists the qualified name in the file. */
  predicate Lists(side: seq<Symbol>, path: string, qname: string) {
    exists k :: 0 <= k < |side| && side[k].path == path && side[k].qname == qname
  }

  lemma ListsIs(side: seq<Symbol>, path: string, qname: string)
    ensures Lists(side, path, qname) <==> Has(side, path, qname)
  {
    if s :| s in side && s.path == path && s.qname == qname {
      var k :| 0 <= k < |side| && side[k] == s;
    }
    if k :| 0 <= k < |side| && side[k].path == path && side[k].qname == qname { assert side[k] in side; }
  }

  // ---- moves

  /** Position j at head: an addition to another file under the name that `from` had. */
  ghost predicate Candidate(base: seq<Symbol>, head: seq<Symbol>, from: Symbol, j: int) {
    && 0 <= j < |head| && head[j].path != from.path && !Lists(base, head[j].path, head[j].qname)
    && ShareName(head[j].qname, from.qname)
  }

  /** The first candidate that is not a stub or, when all are stubs, the first. */
  ghost predicate Chosen(base: seq<Symbol>, head: seq<Symbol>, from: Symbol, j: int) {
    && Candidate(base, head, from, j)
    && if TrivialStub(head[j].dump)
       then && (forall i :: Candidate(base, head, from, i) ==> TrivialStub(head[i].dump))
            && (forall i :: Candidate(base, head, from, i) ==> j <= i)
       else forall i :: Candidate(base, head, from, i) && !TrivialStub(head[i].dump) ==> j <= i
  }

  /** What a link says about its two symbols. */
  predicate Links(from: Symbol, to: Symbol, link: Link) {
    && link.sourceFile == from.path && Named(from.qname, link.sourceClass, link.name)
    && link.destFile == to.path && Named(to.qname, link.destClass, link.name)
    && (link.equivalent <==> from.dump == to.dump)
  }

  lemma CandidateIs(base: seq<Symbol>, head: seq<Symbol>, from: Symbol, j: int)
    requires 0 <= j < |head|
    ensures Candidate(base, head, from, j) <==> Elsewhere(base, from, head[j])
  {
    ListsIs(base, head[j].path, head[j].qname);
    ShareIs(head[j].qname, from.qname);
  }

  lemma CandidatesAre(base: seq<Symbol>, head: seq<Symbol>, from: Symbol)
    ensures forall j :: 0 <= j < |head| ==> (Candidate(base, head, from, j) <==> Elsewhere(base, from, head[j]))
  {
    forall j | 0 <= j < |head| ensures Candidate(base, head, from, j) <==> Elsewhere(base, from, head[j]) {
      CandidateIs(base, head, from, j);
    }
  }

  lemma ChosenIs(base: seq<Symbol>, head: seq<Symbol>, from: Symbol, j: int)
    ensures Chosen(base, head, from, j) <==> FirstChoice(base, head, from, j)
  {
    CandidatesAre(base, head, from);
  }

  lemma LinksIs(from: Symbol, to: Symbol)
    requires Bare(from.qname) == Bare(to.qname)
    ensures Links(from, to, LinkTo(from, to)) && Links(from, to, CopyOf(from, to))
  {
    NamedIs(from.qname, ClassOf(from.qname), Bare(from.qname));
    NamedIs(to.qname, ClassOf(to.qname), Bare(to.qname));
  }

  /** Position i at base was removed and some candidate was added. */
  ghost predicate Mover(base: seq<Symbol>, head: seq<Symbol>, i: int) {
    && 0 <= i < |base| && !Lists(head, base[i].path, base[i].qname)
    && exists j :: Candidate(base, head, base[i], j)
  }

  lemma MoverIs(base: seq<Symbol>, head: seq<Symbol>, i: int)
    requires 0 <= i < |base|
    ensures Mover(base, head, i) <==> HasDestination(base, head, i)
  {
    var s := base[i];
    ListsIs(head, s.path, s.qname);
    MovesExactly(base, head, s);
    CandidatesAre(base, head, s);
    if t :| AddedElsewhere(base, head, s, t) {
      var j :| 0 <= j < |head| && head[j] == t;
      assert Candidate(base, head, s, j);
    }
    if j :| Candidate(base, head, s, j) { assert AddedElsewhere(base, head, s, head[j]); }
  }

  lemma LinkByText(base: seq<Symbol>, head: seq<Symbol>, i: int) returns (j: int)
    requires HasDestination(base, head, i)
    ensures Chosen(base, head, base[i], j) && Links(base[i], head[j], LinkOf(base, head, i))
  {
    var s := base[i];
    MovesExactly(base, head, s);
    FirstChoiceExists(base, head, s);
    j :| FirstChoice(base, head, s, j);
    DestinationIsFirstChoice(base, head, s, j);
    ChosenIs(base, head, s, j);
    LinksIs(s, head[j]);
  }

  /** The moves, one for each mover, in the order of base, each to the chosen candidate. */
  ghost predicate MovesAre(base: seq<Symbol>, head: seq<Symbol>, at: seq<int>, to: seq<int>, links: seq<Link>) {
    && |at| == |to| == |links| && (forall i, j :: 0 <= i < j < |at| ==> at[i] < at[j])
    && (forall i :: i in at <==> Mover(base, head, i))
    && (forall k :: 0 <= k < |at| ==> Mover(base, head, at[k]) && Chosen(base, head, base[at[k]], to[k]))
    && (forall k :: 0 <= k < |at| ==>
          0 <= at[k] < |base| && 0 <= to[k] < |head| && Links(base[at[k]], head[to[k]], links[k]))
  }

  lemma MovesByText(base: seq<Symbol>, head: seq<Symbol>, moved: seq<Link>) returns (at: seq<int>, to: seq<int>)
    requires moved == Moves(base, head, |base|)
    ensures MovesAre(base, head, at, to, moved)
  {
    at := OneMoveEach(base, head);
    to := [];
    forall i ensures i in at <==> Mover(base, head, i) {
      if 0 <= i < |base| { MoverIs(base, head, i); }
    }
    for k := 0 to |at|
      invariant |to| == k
      invariant forall n :: 0 <= n < k ==>
        0 <= at[n] < |base| && Chosen(base, head, base[at[n]], to[n]) && Links(base[at[n]], head[to[n]], moved[n])
    {
      var j := LinkByText(base, head, at[k]);
      to := to + [j];
    }
    forall k | 0 <= k < |at| ensures Mover(base, head, at[k]) { assert at[k] in at; }
  }

  // ---- copies

  /** Position i at head: still listed in its file, another one, under the name of the addition. */
  ghost predicate Survivor(base: seq<Symbol>, head: seq<Symbol>, added: Symbol, i: int) {
    && 0 <= i < |head| && head[i].path != added.path && Lists(base, head[i].path, head[i].qname)
    && ShareName(head[i].qname, added.qname)
  }

  ghost predicate FirstSurvivor(base: seq<Symbol>, head: seq<Symbol>, added: Symbol, i: int) {
    Survivor(base, head, added, i) && forall k :: Survivor(base, head, added, k) ==> i <= k
  }

  lemma SurvivorIs(base: seq<Symbol>, head: seq<Symbol>, added: Symbol, i: int)
    requires 0 <= i < |head|
    ensures Survivor(base, head, added, i) <==> SurvivesElsewhere(base, head, head[i], added)
  {
    ListsIs(base, head[i].path, head[i].qname);
    ShareIs(head[i].qname, added.qname);
  }

  /** The survivors of the first n symbols at head: c is the first, at i, or there is none. */
  ghost predicate SurvivorUpTo(base: seq<Symbol>, head: seq<Symbol>, added: Symbol, n: nat, c: Option<Symbol>, i: int) {
    if c.Some? then i < n <= |head| && FirstSurvivor(base, head, added, i) && c.value == head[i]
    else forall k :: 0 <= k < n ==> !Survivor(base, head, added, k)
  }

  lemma NextSurvivor(base: seq<Symbol>, head: seq<Symbol>, added: Symbol, n: nat)
    requires n < |head|
    ensures var c := FirstForeign(Index(base, head, n, false, Bare(added.qname)), added.path);
            FirstForeign(Index(base, head, n + 1, false, Bare(added.qname)), added.path)
            == if c.Some? then c else if Survivor(base, head, added, n) then Some(head[n]) else None
  {
    var before := Index(base, head, n, false, Bare(added.qname));
    ForeignSnoc(before, head[n], added.path);
    SurvivorIs(base, head, added, n);
    assert head[n] in head;
    assert before + [] == before;
  }

  lemma {:induction false} OriginalAt(base: seq<Symbol>, head: seq<Symbol>, added: Symbol) returns (i: int)
    ensures SurvivorUpTo(base, head, added, |head|,
                         FirstForeign(Index(base, head, |head|, false, Bare(added.qname)), added.path), i)
  {
    i := -1;
    for n := 0 to |head|
      invariant SurvivorUpTo(base, head, added, n,
                             FirstForeign(Index(base, head, n, false, Bare(added.qname)), added.path), i)
    {
      var c := FirstForeign(Index(base, head, n, false, Bare(added.qname)), added.path);
      NextSurvivor(base, head, added, n);
      i := if c.Some? then i else n;
    }
  }

  /** Position j at head was added, and some original survives. */
  ghost predicate Copied(base: seq<Symbol>, head: seq<Symbol>, j: int) {
    && 0 <= j < |head| && !Lists(base, head[j].path, head[j].qname)
    && exists i :: Survivor(base, head, head[j], i)
  }

  lemma CopyByText(base: seq<Symbol>, head: seq<Symbol>, j: int) returns (i: int)
    requires 0 <= j < |head|
    ensures Copied(base, head, j) <==> Original(base, head, head[j]).Some?
    ensures Copied(base, head, j) ==> FirstSurvivor(base, head, head[j], i)
    ensures Copied(base, head, j) ==> Links(head[i], head[j], CopyOf(Original(base, head, head[j]).value, head[j]))
  {
    var s := head[j];
    ListsIs(base, s.path, s.qname);
    i := OriginalAt(base, head, s);
    if Original(base, head, s).Some? {
      SurvivorIs(base, head, s, i);
      LinksIs(head[i], s);
    }
  }

  /** The copies, one for each copied addition, in the order of head, each of its first surviving original. */
  ghost predicate CopiesAre(base: seq<Symbol>, head: seq<Symbol>, n: nat, at: seq<int>, of: seq<int>,
                            links: seq<Link>) {
    && |at| == |of| == |links| && (forall i, j :: 0 <= i < j < |at| ==> at[i] < at[j])
    && (forall j :: j in at <==> j < n && Copied(base, head, j))
    && (forall k :: 0 <= k < |at| ==> Copied(base, head, at[k]) && FirstSurvivor(base, head, head[at[k]], of[k]))
    && (forall k :: 0 <= k < |at| ==>
          0 <= at[k] < |head| && 0 <= of[k] < |head| && Links(head[of[k]], head[at[k]], links[k]))
  }

  lemma OneMoreCopy(base: seq<Symbol>, head: seq<Symbol>, n: nat, at: seq<int>, of: seq<int>, links: seq<Link>, i: int,
                    link: Link)
    requires CopiesAre(base, head, n, at, of, links) && n < |head| && Copied(base, head, n)
    requires FirstSurvivor(base, head, head[n], i) && Links(head[i], head[n], link)
    ensures CopiesAre(base, head, n + 1, at + [n], of + [i], links + [link])
  {
    forall k | 0 <= k < |at| ensures at[k] < n { assert at[k] in at; }
    forall j ensures j in at + [n] <==> j < n + 1 && Copied(base, head, j) {
      assert j in at + [n] <==> j in at || j == n;
    }
  }

  lemma CopiesNext(base: seq<Symbol>, head: seq<Symbol>, n: nat)
    requires n < |head|
    ensures Copies(base, head, n + 1)
         == var from := Original(base, head, head[n]);
            if from.Some? then Copies(base, head, n) + [CopyOf(from.value, head[n])] else Copies(base, head, n)
  {
    assert Copies(base, head, n) + [] == Copies(base, head, n);
  }

  ghost predicate CopiesListed(base: seq<Symbol>, head: seq<Symbol>, n: nat, links: seq<Link>) {
    exists at: seq<int>, of: seq<int> :: CopiesAre(base, head, n, at, of, links)
  }

  lemma CopyStep(base: seq<Symbol>, head: seq<Symbol>, n: nat, links: seq<Link>)
    requires n < |head| && CopiesListed(base, head, n, links)
    ensures var from := Original(base, head, head[n]);
            CopiesListed(base, head, n + 1, if from.Some? then links + [CopyOf(from.value, head[n])] else links)
  {
    var at: seq<int>, of: seq<int> :| CopiesAre(base, head, n, at, of, links);
    var i := CopyByText(base, head, n);
    if Copied(base, head, n) {
      OneMoreCopy(base, head, n, at, of, links, i, CopyOf(Original(base, head, head[n]).value, head[n]));
    } else {
      assert CopiesAre(base, head, n + 1, at, of, links);
    }
  }

  predicate CopyKeeps(base: seq<Symbol>, head: seq<Symbol>, kept: (seq<Link>, nat) -> bool, links: seq<Link>, n: nat)
    requires n < |head|
  {
    var from := Original(base, head, head[n]);
    kept(links, n) ==> kept(if from.Some? then links + [CopyOf(from.value, head[n])] else links, n + 1)
  }

  /** What every addition keeps holds of the copies among the first n. */
  lemma {:induction false} KeptByCopies(base: seq<Symbol>, head: seq<Symbol>, n: nat, kept: (seq<Link>, nat) -> bool)
    requires n <= |head| && kept([], 0)
    requires forall links, i: nat :: i < |head| ==> CopyKeeps(base, head, kept, links, i)
    ensures kept(Copies(base, head, n), n)
  {
    if n == 0 {
    } else {
      KeptByCopies(base, head, n - 1, kept);
      assert CopyKeeps(base, head, kept, Copies(base, head, n - 1), n - 1);
      CopiesNext(base, head, n - 1);
    }
  }

  ghost function Listing(base: seq<Symbol>, head: seq<Symbol>): (seq<Link>, nat) -> bool {
    (links: seq<Link>, n: nat) => CopiesListed(base, head, n, links)
  }

  lemma ListingStep(base: seq<Symbol>, head: seq<Symbol>, links: seq<Link>, n: nat)
    requires n < |head|
    ensures CopyKeeps(base, head, Listing(base, head), links, n)
  {
    if Listing(base, head)(links, n) { CopyStep(base, head, n, links); }
  }

  lemma NothingListed(base: seq<Symbol>, head: seq<Symbol>)
    ensures Listing(base, head)([], 0)
  {
    assert CopiesAre(base, head, 0, [], [], []);
  }

  lemma CopiesByText(base: seq<Symbol>, head: seq<Symbol>, copied: seq<Link>) returns (at: seq<int>, of: seq<int>)
    requires copied == Copies(base, head, |head|)
    ensures CopiesAre(base, head, |head|, at, of, copied)
  {
    NothingListed(base, head);
    forall links, n: nat | n < |head| ensures CopyKeeps(base, head, Listing(base, head), links, n) {
      ListingStep(base, head, links, n);
    }
    KeptByCopies(base, head, |head|, Listing(base, head));
    at, of :| CopiesAre(base, head, |head|, at, of, copied);
  }
}
