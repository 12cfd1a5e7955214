/** `find_blocker_cycles`: components in canonical order, the per-component search, and the
    two layers of caps that report through `truncated`. */
module BlockerCycles {
  import opened Sorting
  import opened Graphs
  import opened StronglyConnected
  import opened BlockerGraph
  import opened CycleSearch
  import opened CycleProperties

  const MAX_REPORTED_CYCLES: nat := 100
  const MAX_CYCLES_PER_COMPONENT: nat := 25
  const MAX_COMPONENT_DFS_STEPS: int := 50000

  datatype Caps = Caps(limit: Option<nat>, cycleLimit: Option<nat>, stepBudget: Option<int>)

  /** The caps every intake pass scans under. */
  const STANDING_CAPS := Caps(Some(MAX_REPORTED_CYCLES), Some(MAX_CYCLES_PER_COMPONENT), Some(MAX_COMPONENT_DFS_STEPS))

  // ---- specification: a fold over the canonical components

  ghost function ComponentResult(adj: Adjacency, members: set<int>, caps: Caps): Enumeration
    requires members <= adj.Keys && members != {}
  {
    if |members| == 1 then
      var node := SortedOf(members)[0];
      Enumeration(if node in adj[node] then [[node]] else [], false, 0)
    else
      Capped(ComponentTrace(adj, members), caps.cycleLimit, caps.stepBudget)
  }

  ghost predicate Cyclic(adj: Adjacency, members: set<int>) {
    |members| > 1 || exists v :: v in members && Edge(adj, v, v)
  }

  /** Some component after index i can still yield a cycle. */
  ghost predicate CyclicAfter(adj: Adjacency, i: nat) {
    exists k :: i < k < |Components(adj)| && Cyclic(adj, Components(adj)[k])
  }

  function Joined(a: Enumeration, b: Enumeration): Enumeration {
    Enumeration(a.cycles + b.cycles, a.truncated || b.truncated, a.steps + b.steps)
  }

  predicate LimitReached(caps: Caps, s: Enumeration) {
    caps.limit.Some? && |s.cycles| >= caps.limit.value
  }

  /** The break at the limit: something was, or may have been, left out. */
  ghost function Stopped(adj: Adjacency, caps: Caps, i: nat, s: Enumeration): Enumeration
    requires LimitReached(caps, s)
  {
    s.(truncated := |s.cycles| > caps.limit.value || s.truncated || CyclicAfter(adj, i))
  }

  ghost function Scan(adj: Adjacency, caps: Caps, i: nat, sofar: Enumeration): Enumeration
    requires i <= |Components(adj)|
    decreases |Components(adj)| - i
  {
    if i == |Components(adj)| then sofar
    else
      ComponentsAreClasses(adj, i);
      var one := ComponentResult(adj, Components(adj)[i], caps);
      var next := Joined(sofar, one);
      if LimitReached(caps, next) then Stopped(adj, caps, i, next)
      else Scan(adj, caps, i + 1, next)
  }

  ghost function Scanned(adj: Adjacency, caps: Caps): Enumeration {
    Scan(adj, caps, 0, Enumeration([], false, 0))
  }

  /** The whole result as a function of the set of edges and the caps. */
  ghost function Enumerate(adj: Adjacency, caps: Caps): Enumeration {
    var r := Scanned(adj, caps);
    Enumeration(Sort(LexLeq, AtMost(r.cycles, caps.limit)), r.truncated, r.steps)
  }

  // ---- the implementation

  method IsCyclicComponent(adj: Adjacency, component: seq<int>) returns (cyclic: bool)
    requires |component| > 0 && Distinct(component) && Elements(component) <= adj.Keys
    ensures cyclic <==> Cyclic(adj, Elements(component))
  {
    CardinalityOfDistinct(component);
    assert component[0] in Elements(component);
    cyclic := |component| > 1 || component[0] in adj[component[0]];
    if |component| == 1 {
      assert Elements(component) == {component[0]};
      assert cyclic <==> Edge(adj, component[0], component[0]);
    }
  }

  lemma {:induction false} CardinalityOfDistinct(xs: seq<int>)
    requires Distinct(xs)
    ensures |Elements(xs)| == |xs|
  {
    if xs == [] {
    } else {
      CardinalityOfDistinct(xs[1..]);
      assert Elements(xs) == Elements(xs[1..]) + {xs[0]};
    }
  }

  method SearchComponent(adj: Adjacency, component: seq<int>, caps: Caps) returns (r: Enumeration)
    requires |component| > 0 && Distinct(component) && Elements(component) <= adj.Keys
    ensures Elements(component) != {}
    ensures r == ComponentResult(adj, Elements(component), caps)
  {
    CardinalityOfDistinct(component);
    assert component[0] in Elements(component);
    if |component| == 1 {
      var node := component[0];
      assert SortedOf(Elements(component)) == [node] by {
        IncreasingUnique(SortedOf(Elements(component)), [node]);
      }
      r := Enumeration(if node in adj[node] then [[node]] else [], false, 0);
    } else {
      r := ComponentCycles(adj, component, caps.cycleLimit, caps.stepBudget);
    }
  }

  ghost predicate CanonicalList(adj: Adjacency, components: seq<seq<int>>) {
    && |components| == |Components(adj)|
    && forall i :: 0 <= i < |components| ==>
      IsClassList(adj, components[i]) && Elements(components[i]) == Components(adj)[i]
  }

  /** `any(_is_cyclic_component(adjacency, later) for later in components[index + 1 :])` */
  method AnyLaterCyclic(adj: Adjacency, components: seq<seq<int>>, index: nat) returns (found: bool)
    requires CanonicalList(adj, components) && index < |components|
    ensures found <==> CyclicAfter(adj, index)
  {
    for k := index + 1 to |components|
      invariant forall i :: index < i < k ==> !Cyclic(adj, Components(adj)[i])
    {
      assert IsClassList(adj, components[k]);
      var cyclic := IsCyclicComponent(adj, components[k]);
      if cyclic { return true; }
    }
    return false;
  }

  /** One round of the component loop; `stop` is its `break`. */
  method ScanOne(adj: Adjacency, components: seq<seq<int>>, index: nat, caps: Caps, sofar: Enumeration)
    returns (r: Enumeration, stop: bool)
    requires CanonicalList(adj, components) && index < |components|
    ensures Scan(adj, caps, index, sofar) == if stop then r else Scan(adj, caps, index + 1, r)
  {
    assert IsClassList(adj, components[index]);
    var one := SearchComponent(adj, components[index], caps);
    r := Joined(sofar, one);
    ScanStep(adj, caps, index, sofar, one, r);
    stop := LimitReached(caps, r);
    if stop {
      if |r.cycles| > caps.limit.value {
        r := r.(truncated := true);
      } else if !r.truncated {
        var later := AnyLaterCyclic(adj, components, index);
        r := r.(truncated := later);
      }
    }
  }

  method ScanComponents(adj: Adjacency, components: seq<seq<int>>, caps: Caps) returns (r: Enumeration)
    requires CanonicalList(adj, components)
    ensures r == Scanned(adj, caps)
  {
    r := Enumeration([], false, 0);
    for index := 0 to |components|
      invariant Scan(adj, caps, index, r) == Scanned(adj, caps)
    {
      var stop;
      r, stop := ScanOne(adj, components, index, caps, r);
      if stop { return; }
    }
  }

  lemma ScanStep(adj: Adjacency, caps: Caps, i: nat, sofar: Enumeration, one: Enumeration, next: Enumeration)
    requires i < |Components(adj)| && Components(adj)[i] <= adj.Keys && Components(adj)[i] != {}
    requires one == ComponentResult(adj, Components(adj)[i], caps) && next == Joined(sofar, one)
    ensures LimitReached(caps, next) ==> Scan(adj, caps, i, sofar) == Stopped(adj, caps, i, next)
    ensures !LimitReached(caps, next) ==> Scan(adj, caps, i, sofar) == Scan(adj, caps, i + 1, next)
  {
  }

  /** `order` is the iteration order of the `edges` dictionary; the result does not depend on it,
      nor on the order or repetition of targets. */
  method FindBlockerCycles(edges: Adjacency, order: seq<int>, caps: Caps) returns (r: Enumeration)
    requires Elements(order) == edges.Keys
    ensures r == Enumerate(Normalized(edges), caps)
  {
    NormalizedKeepsEdges(edges);
    var adj, keys := BuildAdjacency(edges, order);
    var unordered := StronglyConnectedComponents(adj, keys);
    SortedComponentsAreCanonical(adj, unordered);
    var components := Sort(ByLeast, unordered);
    var scanned := ScanComponents(adj, components, caps);
    r := Enumeration(Sort(LexLeq, AtMost(scanned.cycles, caps.limit)), scanned.truncated, scanned.steps);
  }

  // ---- what one component contributes

  ghost predicate Covers(adj: Adjacency, members: set<int>, cycles: seq<seq<int>>) {
    forall c :: CycleWithin(adj, members, c) ==> c in cycles
  }

  /** The reported cycles of one component are genuine and distinct; complete unless truncated;
      and, without a step budget, incomplete whenever truncated. */
  lemma ComponentResultExact(adj: Adjacency, members: set<int>, caps: Caps)
    requires SortedGraph(adj) && members <= adj.Keys && members != {}
    ensures var r := ComponentResult(adj, members, caps);
      && Distinct(r.cycles)
      && (forall c :: c in r.cycles ==> CycleWithin(adj, members, c))
      && (!r.truncated ==> Covers(adj, members, r.cycles))
      && (r.truncated && caps.stepBudget.None? ==> !Covers(adj, members, r.cycles))
      && (caps.stepBudget.Some? ==> r.steps <= 1 || r.steps <= caps.stepBudget.value)
  {
    var r := ComponentResult(adj, members, caps);
    if |members| == 1 {
      SingletonCycles(adj, members);
    } else {
      var trace := ComponentTrace(adj, members);
      var all := AllCycles(adj, members);
      AllCyclesExact(adj, members);
      CappedIsInitialSegment(trace, caps.cycleLimit, caps.stepBudget);
      UntruncatedIsComplete(trace, caps.cycleLimit, caps.stepBudget);
      TruncatedExactly(trace, caps.cycleLimit, caps.stepBudget);
      assert forall i :: 0 <= i < |r.cycles| ==> r.cycles[i] == all[i] && all[i] in all;
      if r.truncated && caps.stepBudget.None? {
        var missing := all[caps.cycleLimit.value];
        assert missing in all;
        assert missing !in r.cycles;
      }
    }
  }

  lemma SingletonCycles(adj: Adjacency, members: set<int>)
    requires members <= adj.Keys && |members| == 1
    ensures var node := SortedOf(members)[0];
      node in members && forall c :: CycleWithin(adj, members, c) <==> c == [node] && Edge(adj, node, node)
  {
    var s := SortedOf(members);
    assert Distinct(s);
    CardinalityOfDistinct(s);
    assert Elements(s) == members;
    var node := s[0];
    assert members == {node};
    forall c | CycleWithin(adj, members, c) ensures c == [node] {
      assert forall i :: 0 <= i < |c| ==> c[i] == node;
    }
  }
}
