/** What a blocker-cycle report holds when it is cut short: the components' sorted cycle lists one after
    the other, each under the cycle cap, cut to the limit and sorted. */
module ReportContents {
  import opened Sorting
  import opened Graphs
  import opened CycleSearch
  import opened CycleProperties
  import opened BlockerGraph
  import opened BlockerCycles
  import opened CycleReport

  // ---- lists one after the other

  type Cycles = seq<seq<int>>

  /** The first n lists joined. */
  function Concat(parts: seq<Cycles>, n: nat): Cycles
    requires n <= |parts|
  {
    if n == 0 then [] else Concat(parts, n - 1) + parts[n - 1]
  }

  lemma {:induction false} ConcatGrows(parts: seq<Cycles>, i: nat, n: nat)
    requires i <= n <= |parts|
    ensures Concat(parts, i) <= Concat(parts, n)
  {
    if i == n {
    } else {
      ConcatGrows(parts, i, n - 1);
    }
  }

  lemma SamePrefix(a: Cycles, b: Cycles, limit: Option<nat>)
    requires a <= b && limit.Some? && |a| >= limit.value
    ensures AtMost(a, limit) == AtMost(b, limit)
  {
  }

  // ---- the scan keeps the first results

  /** What each component contributes, in component order. */
  ghost function Contributions(adj: Adjacency, caps: Caps): seq<Cycles> {
    seq(|Components(adj)|, k requires 0 <= k < |Components(adj)| => ResultAt(adj, caps, k).cycles)
  }

  /** One component of the scan. */
  lemma {:induction false} ScanRound(adj: Adjacency, caps: Caps, parts: seq<Cycles>, i: nat, s: Enumeration)
    returns (next: Enumeration)
    requires parts == Contributions(adj, caps) && i < |Components(adj)| && s.cycles == Concat(parts, i)
    ensures next.cycles == Concat(parts, i + 1)
    ensures if LimitReached(caps, next) then Scan(adj, caps, i, s).cycles == next.cycles
            else Scan(adj, caps, i, s) == Scan(adj, caps, i + 1, next)
  {
    ComponentsAreClasses(adj, i);
    next := Joined(s, ResultAt(adj, caps, i));
    ScanStep(adj, caps, i, s, ResultAt(adj, caps, i), next);
  }

  lemma {:induction false} ScanKeepsFirst(adj: Adjacency, caps: Caps, parts: seq<Cycles>)
    requires parts == Contributions(adj, caps)
    ensures AtMost(Scanned(adj, caps).cycles, caps.limit) == AtMost(Concat(parts, |parts|), caps.limit)
  {
    var s := Enumeration([], false, 0);
    for i := 0 to |parts|
      invariant s.cycles == Concat(parts, i)
      invariant Scanned(adj, caps) == Scan(adj, caps, i, s)
    {
      s := ScanRound(adj, caps, parts, i, s);
      if LimitReached(caps, s) {
        ConcatGrows(parts, i + 1, |parts|);
        SamePrefix(s.cycles, Concat(parts, |parts|), caps.limit);
        return;
      }
    }
  }

  /** Under any caps the report is the first `limit` of what the components contribute, sorted. */
  lemma ReportIsFirst(edges: Adjacency, caps: Caps)
    ensures var parts := Contributions(Normalized(edges), caps);
            && Report(edges, caps).cycles == Sort(LexLeq, AtMost(Concat(parts, |parts|), caps.limit))
            && |Report(edges, caps).cycles| == |AtMost(Concat(parts, |parts|), caps.limit)|
  {
    var adj := Normalized(edges);
    ScanKeepsFirst(adj, caps, Contributions(adj, caps));
    ReportFacts(edges, caps);
  }

  // ---- without a step budget

  lemma {:induction false} CappedWithoutBudget(trace: seq<Event>, cycleLimit: Option<nat>)
    ensures Capped(trace, cycleLimit, None).cycles == AtMost(Emitted(trace), cycleLimit)
  {
    var stop := StopAt(trace, 0, cycleLimit, None);
    assert trace == trace[..stop] + trace[stop..];
    EmittedAppend(trace[..stop], trace[stop..]);
    if stop == |trace| {
      assert trace[..stop] == trace;
    } else {
      SamePrefix(Emitted(trace[..stop]), Emitted(trace), cycleLimit);
    }
  }

  /** The first of the component's sorted cycles, under the cap on cycles; a single vertex ignores it. */
  ghost function FirstOf(adj: Adjacency, caps: Caps, k: nat): Cycles
    requires k < |Components(adj)|
  {
    ComponentsAreClasses(adj, k);
    var members := Components(adj)[k];
    AtMost(AllCycles(adj, members), if |members| == 1 then None else caps.cycleLimit)
  }

  ghost function FirstCycles(adj: Adjacency, caps: Caps): seq<Cycles> {
    seq(|Components(adj)|, k requires 0 <= k < |Components(adj)| => FirstOf(adj, caps, k))
  }

  lemma OnlyOne(all: Cycles, c: seq<int>, holds: bool)
    requires Distinct(all) && forall d :: d in all <==> d == c && holds
    ensures all == if holds then [c] else []
  {
    forall i | 0 <= i < |all| ensures holds && i == 0 && all[i] == c {
      assert all[i] in all && all[0] in all;
    }
    assert all != [] ==> all[|all| - 1] == c;
    assert holds ==> c in all;
  }

  /** Without a budget a component contributes the first cycles of its sorted list. */
  lemma ContributionExact(adj: Adjacency, caps: Caps, k: nat)
    requires SortedGraph(adj) && k < |Components(adj)| && caps.stepBudget.None?
    ensures ResultAt(adj, caps, k).cycles == FirstOf(adj, caps, k)
  {
    ComponentsAreClasses(adj, k);
    var members := Components(adj)[k];
    AllCyclesExact(adj, members);
    if |members| == 1 {
      var node := SortedOf(members)[0];
      SingletonCycles(adj, members);
      OnlyOne(AllCycles(adj, members), [node], Edge(adj, node, node));
    } else {
      CappedWithoutBudget(ComponentTrace(adj, members), caps.cycleLimit);
    }
  }

  lemma ContributionsExact(adj: Adjacency, caps: Caps)
    requires SortedGraph(adj) && caps.stepBudget.None?
    ensures Contributions(adj, caps) == FirstCycles(adj, caps)
  {
    forall k | 0 <= k < |Components(adj)| ensures Contributions(adj, caps)[k] == FirstCycles(adj, caps)[k] {
      ContributionExact(adj, caps, k);
    }
  }

  /** Without a step budget the report is determined cycle by cycle: every component's sorted list of
      cycles, cut to the cap on cycles, the lists joined in component order, cut to the limit and sorted. */
  lemma ReportExactly(edges: Adjacency, caps: Caps)
    requires caps.stepBudget.None?
    ensures var parts := FirstCycles(Normalized(edges), caps);
            var all := Concat(parts, |parts|);
            && Report(edges, caps).cycles == Sort(LexLeq, AtMost(all, caps.limit))
            && |Report(edges, caps).cycles|
               == if caps.limit.Some? && caps.limit.value < |all| then caps.limit.value else |all|
  {
    ReportIsFirst(edges, caps);
    ReportFacts(edges, caps);
    ContributionsExact(Normalized(edges), caps);
  }
}
