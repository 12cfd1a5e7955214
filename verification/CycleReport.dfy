/** What a blocker-cycle report is worth: soundness, completeness, and the exact meaning of
    `truncated`, for any set of edges and any caps. */
module CycleReport {
  import opened Sorting
  import opened Graphs
  import opened BlockerGraph
  import opened CycleSearch
  import opened BlockerCycles

  ghost predicate InFirst(adj: Adjacency, i: nat, c: seq<int>) {
    exists k :: 0 <= k < i && k < |Components(adj)| && CycleWithin(adj, Components(adj)[k], c)
  }

  ghost predicate Missing(adj: Adjacency, i: nat, cycles: seq<seq<int>>) {
    exists c :: InFirst(adj, i, c) && c !in cycles
  }

  function StepCap(budget: int): nat {
    if budget < 1 then 1 else budget
  }

  /** What holds of the running totals after the first i components. */
  ghost predicate ScanState(adj: Adjacency, caps: Caps, i: nat, s: Enumeration) {
    && Distinct(s.cycles)
    && (forall c :: c in s.cycles ==> InFirst(adj, i, c))
    && (!s.truncated ==> forall c :: InFirst(adj, i, c) ==> c in s.cycles)
    && (s.truncated && caps.stepBudget.None? ==> Missing(adj, i, s.cycles))
    && (caps.stepBudget.Some? ==> s.steps <= i * StepCap(caps.stepBudget.value))
  }

  /** Components are disjoint, so a cycle of a later one was not met before. */
  lemma LaterIsUnseen(adj: Adjacency, i: nat, k: nat, c: seq<int>)
    requires i <= k < |Components(adj)| && CycleWithin(adj, Components(adj)[k], c)
    ensures !InFirst(adj, i, c)
  {
    forall m | 0 <= m < i ensures !CycleWithin(adj, Components(adj)[m], c) {
      ComponentsDisjoint(adj, m, k);
      assert c[0] in Components(adj)[k];
    }
  }

  lemma FirstGrows(adj: Adjacency, i: nat, c: seq<int>)
    requires i < |Components(adj)|
    ensures InFirst(adj, i + 1, c) <==> InFirst(adj, i, c) || CycleWithin(adj, Components(adj)[i], c)
  {
    if InFirst(adj, i + 1, c) {
      var k :| 0 <= k < i + 1 && k < |Components(adj)| && CycleWithin(adj, Components(adj)[k], c);
    }
  }

  ghost function ResultAt(adj: Adjacency, caps: Caps, i: nat): Enumeration
    requires i < |Components(adj)|
  {
    ComponentsAreClasses(adj, i);
    ComponentResult(adj, Components(adj)[i], caps)
  }

  /** What one component's result means, in terms of the cycles of the first components. */
  lemma StepFacts(adj: Adjacency, caps: Caps, i: nat)
    requires SortedGraph(adj) && i < |Components(adj)|
    ensures forall c :: InFirst(adj, i + 1, c) <==> InFirst(adj, i, c) || CycleWithin(adj, Components(adj)[i], c)
    ensures forall c :: CycleWithin(adj, Components(adj)[i], c) ==> !InFirst(adj, i, c)
  {
    forall c ensures InFirst(adj, i + 1, c) <==> InFirst(adj, i, c) || CycleWithin(adj, Components(adj)[i], c) {
      FirstGrows(adj, i, c);
    }
    forall c | CycleWithin(adj, Components(adj)[i], c) ensures !InFirst(adj, i, c) {
      LaterIsUnseen(adj, i, i, c);
    }
  }

  lemma DistinctJoin(a: seq<seq<int>>, b: seq<seq<int>>)
    requires Distinct(a) && Distinct(b) && forall c :: c in b ==> c !in a
    ensures Distinct(a + b)
  {
    forall i, j | 0 <= i < j < |a + b| ensures (a + b)[i] != (a + b)[j] {
      if i < |a| <= j { assert (a + b)[i] in a && (a + b)[j] in b; }
    }
  }

  /** Without a budget, a truncated join has missed a cycle. */
  lemma StepMisses(adj: Adjacency, caps: Caps, i: nat, s: Enumeration) returns (c: seq<int>)
    requires SortedGraph(adj) && i < |Components(adj)| && ScanState(adj, caps, i, s)
    requires Joined(s, ResultAt(adj, caps, i)).truncated && caps.stepBudget.None?
    ensures InFirst(adj, i + 1, c) && c !in Joined(s, ResultAt(adj, caps, i)).cycles
  {
    ComponentsAreClasses(adj, i);
    ComponentResultExact(adj, Components(adj)[i], caps);
    StepFacts(adj, caps, i);
    if s.truncated {
      c :| InFirst(adj, i, c) && c !in s.cycles;
    } else {
      c :| CycleWithin(adj, Components(adj)[i], c) && c !in ResultAt(adj, caps, i).cycles;
    }
  }

  lemma StepsAddUp(n: nat, cap: nat)
    ensures (n + 1) * cap == n * cap + cap
  {
  }

  lemma ScanStateStep(adj: Adjacency, caps: Caps, i: nat, s: Enumeration)
    requires SortedGraph(adj) && i < |Components(adj)| && ScanState(adj, caps, i, s)
    ensures ScanState(adj, caps, i + 1, Joined(s, ResultAt(adj, caps, i)))
  {
    ComponentsAreClasses(adj, i);
    var one := ResultAt(adj, caps, i);
    ComponentResultExact(adj, Components(adj)[i], caps);
    var next := Joined(s, one);
    StepFacts(adj, caps, i);
    DistinctJoin(s.cycles, one.cycles);
    if next.truncated && caps.stepBudget.None? {
      var c := StepMisses(adj, caps, i, s);
    }
    if caps.stepBudget.Some? { StepsAddUp(i, StepCap(caps.stepBudget.value)); }
  }

  /** The whole scan, before the final cut to `limit`. */
  ghost predicate Accounted(adj: Adjacency, caps: Caps, r: Enumeration) {
    && Distinct(r.cycles)
    && (forall c :: c in r.cycles ==> Cycle(adj, c))
    && (!r.truncated ==> forall c :: Cycle(adj, c) ==> c in AtMost(r.cycles, caps.limit))
    && (r.truncated && caps.stepBudget.None? ==> exists c :: Cycle(adj, c) && c !in AtMost(r.cycles, caps.limit))
    && (caps.stepBudget.Some? ==> r.steps <= |Components(adj)| * StepCap(caps.stepBudget.value))
  }

  /** A component that passes the structural check does contain a cycle. */
  lemma CyclicComponentHasCycle(adj: Adjacency, k: nat) returns (c: seq<int>)
    requires Closed(adj) && k < |Components(adj)| && Cyclic(adj, Components(adj)[k])
    ensures CycleWithin(adj, Components(adj)[k], c)
  {
    ComponentsAreClasses(adj, k);
    var members := Components(adj)[k];
    var u := Leaders(adj)[k];
    if v :| v in members && Edge(adj, v, v) {
      c := [v];
    } else {
      var v := AnotherMember(members, u);
      assert Mutual(adj, u, v);
      c := NontrivialClassHasCycle(adj, u, v);
    }
  }

  lemma AnotherMember(s: set<int>, u: int) returns (v: int)
    requires |s| > 1
    ensures v in s && v != u
  {
    assert exists x :: x in s && x != u by {
      if forall x :: x in s ==> x == u {
        assert s <= {u};
        SubsetSize(s, {u});
      }
    }
    v :| v in s && v != u;
  }

  lemma AcyclicComponentHasNone(adj: Adjacency, k: nat, c: seq<int>)
    requires k < |Components(adj)| && CycleWithin(adj, Components(adj)[k], c)
    ensures Cyclic(adj, Components(adj)[k])
  {
    var members := Components(adj)[k];
    if |c| == 1 {
      assert Edge(adj, c[0], c[0]);
    } else {
      SimplePathFits(c, members);
    }
  }

  /** Stopping at the limit: the flag says exactly whether something went unreported. */
  lemma StopIsAccounted(adj: Adjacency, caps: Caps, i: nat, s: Enumeration)
    requires Closed(adj) && i < |Components(adj)| && ScanState(adj, caps, i + 1, s)
    requires LimitReached(caps, s)
    ensures Accounted(adj, caps, Stopped(adj, caps, i, s))
  {
    var kept := AtMost(s.cycles, caps.limit);
    var r := Stopped(adj, caps, i, s);
    forall c | c in s.cycles ensures Cycle(adj, c) {
      assert InFirst(adj, i + 1, c);
    }
    if !r.truncated {
      assert kept == s.cycles;
      forall c | Cycle(adj, c) ensures c in kept {
        var k := CycleInOneComponent(adj, c);
        AcyclicComponentHasNone(adj, k, c);
        assert k < i + 1;
        assert InFirst(adj, i + 1, c);
      }
    } else if caps.stepBudget.None? {
      if |s.cycles| > caps.limit.value {
        var c := s.cycles[caps.limit.value];
        assert c in s.cycles && c !in kept;
      } else if s.truncated {
        assert kept == s.cycles;
        var c :| InFirst(adj, i + 1, c) && c !in s.cycles;
        assert Cycle(adj, c);
      } else {
        assert kept == s.cycles;
        var k :| i < k < |Components(adj)| && Cyclic(adj, Components(adj)[k]);
        var c := CyclicComponentHasCycle(adj, k);
        LaterIsUnseen(adj, i + 1, k, c);
        assert Cycle(adj, c) && c !in kept;
      }
    }
    if caps.stepBudget.Some? {
      MulMonotone(i + 1, |Components(adj)|, StepCap(caps.stepBudget.value));
    }
  }

  lemma MulMonotone(a: nat, b: nat, c: nat)
    requires a <= b
    ensures a * c <= b * c
  {
  }

  lemma EndIsAccounted(adj: Adjacency, caps: Caps, s: Enumeration)
    requires Closed(adj) && ScanState(adj, caps, |Components(adj)|, s)
    requires caps.limit.Some? ==> |s.cycles| <= caps.limit.value
    ensures Accounted(adj, caps, s)
  {
    var n := |Components(adj)|;
    forall c ensures InFirst(adj, n, c) <==> Cycle(adj, c) {
      if Cycle(adj, c) {
        var k := CycleInOneComponent(adj, c);
      }
    }
  }

  /** One round, with what it leaves behind. */
  lemma Round(adj: Adjacency, caps: Caps, i: nat, s: Enumeration) returns (next: Enumeration)
    requires Closed(adj) && SortedGraph(adj) && i < |Components(adj)| && ScanState(adj, caps, i, s)
    ensures ScanState(adj, caps, i + 1, next)
    ensures if LimitReached(caps, next)
            then Accounted(adj, caps, Scan(adj, caps, i, s))
            else Scan(adj, caps, i, s) == Scan(adj, caps, i + 1, next)
  {
    ComponentsAreClasses(adj, i);
    next := Joined(s, ResultAt(adj, caps, i));
    ScanStep(adj, caps, i, s, ResultAt(adj, caps, i), next);
    ScanStateStep(adj, caps, i, s);
    if LimitReached(caps, next) {
      StopIsAccounted(adj, caps, i, next);
    }
  }

  lemma ScanIsAccounted(adj: Adjacency, caps: Caps)
    requires Closed(adj) && SortedGraph(adj)
    ensures Accounted(adj, caps, Scanned(adj, caps))
  {
    var s := Enumeration([], false, 0);
    var i := 0;
    while i < |Components(adj)|
      invariant 0 <= i <= |Components(adj)|
      invariant ScanState(adj, caps, i, s)
      invariant caps.limit.Some? ==> |s.cycles| <= caps.limit.value
      invariant Scanned(adj, caps) == Scan(adj, caps, i, s)
    {
      var next := Round(adj, caps, i, s);
      if LimitReached(caps, next) { return; }
      s, i := next, i + 1;
    }
    EndIsAccounted(adj, caps, s);
  }

  // ---- the report

  ghost function Report(edges: Adjacency, caps: Caps): Enumeration {
    Enumerate(Normalized(edges), caps)
  }

  lemma SortedReport(xs: seq<seq<int>>)
    requires Distinct(xs)
    ensures LexIncreasing(Sort(LexLeq, xs))
    ensures forall c :: c in Sort(LexLeq, xs) <==> c in xs
    ensures |Sort(LexLeq, xs)| == |xs|
  {
    var s := Sort(LexLeq, xs);
    LexPreorder();
    SortSorted(LexLeq, xs);
    SortIsPermutation(LexLeq, xs);
    SamePermutationElements(s, xs);
    DistinctPermutation(xs, s);
    forall i, j | 0 <= i < j < |s| ensures LexLess(s[i], s[j]) {
      assert LexLeq(s[i], s[j]);
    }
  }

  lemma {:induction false} ReportFacts(edges: Adjacency, caps: Caps)
    ensures var kept := AtMost(Scanned(Normalized(edges), caps).cycles, caps.limit);
      && Closed(Normalized(edges)) && SortedGraph(Normalized(edges))
      && Accounted(Normalized(edges), caps, Scanned(Normalized(edges), caps))
      && Distinct(kept) && (forall c :: c in kept ==> Cycle(edges, c))
      && LexIncreasing(Report(edges, caps).cycles)
      && (forall c :: c in Report(edges, caps).cycles <==> c in kept)
      && |Report(edges, caps).cycles| == |kept|
  {
    var adj := Normalized(edges);
    NormalizedKeepsEdges(edges);
    ScanIsAccounted(adj, caps);
    var kept := AtMost(Scanned(adj, caps).cycles, caps.limit);
    assert forall i :: 0 <= i < |kept| ==>
      kept[i] == Scanned(adj, caps).cycles[i] && kept[i] in Scanned(adj, caps).cycles;
    SortedReport(kept);
  }

  /** Every reported list is an elementary cycle of the graph with its least member first; the
      list is strictly increasing, so nothing is repeated; and it respects the limit. */
  lemma ReportIsSound(edges: Adjacency, caps: Caps)
    ensures forall c :: c in Report(edges, caps).cycles ==> Cycle(edges, c)
    ensures LexIncreasing(Report(edges, caps).cycles) && Distinct(Report(edges, caps).cycles)
    ensures caps.limit.Some? ==> |Report(edges, caps).cycles| <= caps.limit.value
  {
    ReportFacts(edges, caps);
    LexIncreasingDistinct(Report(edges, caps).cycles);
  }

  /** If the report is not truncated it holds every elementary cycle, self-loops included: some
      rotation of any elementary cycle is in the list. */
  lemma UntruncatedReportIsComplete(edges: Adjacency, caps: Caps)
    requires !Report(edges, caps).truncated
    ensures forall c :: c in Report(edges, caps).cycles <==> Cycle(edges, c)
    ensures forall c :: ElementaryCycle(edges, c) ==>
      exists r :: r in Report(edges, caps).cycles && |r| == |c| && Elements(r) == Elements(c)
  {
    ReportFacts(edges, caps);
    NormalizedKeepsEdges(edges);
    forall c | ElementaryCycle(edges, c)
      ensures exists r :: r in Report(edges, caps).cycles && |r| == |c| && Elements(r) == Elements(c)
    {
      var r := RotateLeastFirst(edges, c);
    }
  }

  /** With no step budget, `truncated` says exactly that some elementary cycle is unreported. */
  lemma TruncatedIffUnreported(edges: Adjacency, caps: Caps)
    requires caps.stepBudget.None?
    ensures Report(edges, caps).truncated <==> exists c :: Cycle(edges, c) && c !in Report(edges, caps).cycles
  {
    ReportFacts(edges, caps);
    NormalizedKeepsEdges(edges);
    if !Report(edges, caps).truncated { UntruncatedReportIsComplete(edges, caps); }
  }

  /** Work is bounded: at most max(1, budget) expansions per component. */
  lemma WorkIsBounded(edges: Adjacency, caps: Caps)
    requires caps.stepBudget.Some?
    ensures Report(edges, caps).steps <= |Components(Normalized(edges))| * StepCap(caps.stepBudget.value)
  {
    ReportFacts(edges, caps);
  }

  /** The report depends only on the set of edges and the vertices that declare any. */
  lemma ReportIgnoresListing(a: Adjacency, b: Adjacency, caps: Caps)
    requires a.Keys == b.Keys && forall u, v :: Edge(a, u, v) <==> Edge(b, u, v)
    ensures Report(a, caps) == Report(b, caps)
  {
    NormalizedIgnoresListing(a, b);
  }

  lemma AcyclicComponentIsFree(adj: Adjacency, caps: Caps, k: nat)
    requires Closed(adj) && k < |Components(adj)| && forall c :: !Cycle(adj, c)
    ensures ResultAt(adj, caps, k) == Enumeration([], false, 0)
    ensures !Cyclic(adj, Components(adj)[k])
  {
    ComponentsAreClasses(adj, k);
    var members := Components(adj)[k];
    if Cyclic(adj, members) { var c := CyclicComponentHasCycle(adj, k); }
    SubsetSize({Leaders(adj)[k]}, members);
    SingletonCycles(adj, members);
    var node := SortedOf(members)[0];
    assert !Edge(adj, node, node);
  }

  lemma AcyclicRound(adj: Adjacency, caps: Caps, i: nat)
    requires Closed(adj) && i < |Components(adj)| && forall c :: !Cycle(adj, c)
    ensures var none := Enumeration([], false, 0);
      Scan(adj, caps, i, none) == if LimitReached(caps, none) then none else Scan(adj, caps, i + 1, none)
  {
    var none := Enumeration([], false, 0);
    forall k | i <= k < |Components(adj)| ensures !Cyclic(adj, Components(adj)[k]) {
      AcyclicComponentIsFree(adj, caps, k);
    }
    ComponentsAreClasses(adj, i);
    AcyclicComponentIsFree(adj, caps, i);
    assert Joined(none, none) == none;
    ScanStep(adj, caps, i, none, none, none);
  }

  lemma AcyclicScan(adj: Adjacency, caps: Caps)
    requires Closed(adj) && forall c :: !Cycle(adj, c)
    ensures Scanned(adj, caps) == Enumeration([], false, 0)
  {
    for i := 0 to |Components(adj)|
      invariant Scanned(adj, caps) == Scan(adj, caps, i, Enumeration([], false, 0))
    {
      AcyclicRound(adj, caps, i);
      if LimitReached(caps, Enumeration([], false, 0)) { return; }
    }
  }

  /** An acyclic graph is reported as such whatever the caps, with no search at all. */
  lemma AcyclicReportIsEmpty(edges: Adjacency, caps: Caps)
    requires forall c :: !Cycle(edges, c)
    ensures Report(edges, caps) == Enumeration([], false, 0)
  {
    NormalizedKeepsEdges(edges);
    AcyclicScan(Normalized(edges), caps);
    assert Sort(LexLeq, []) == [];
  }
}
