/** The graph `find_blocker_cycles` works on: the normalized adjacency, and the components in
    canonical order, least member first. Both depend only on the set of edges. */
module BlockerGraph {
  import opened Sorting
  import opened Graphs
  import opened StronglyConnected

  /** Adjacency lists are strictly increasing. */
  ghost predicate SortedGraph(adj: Adjacency) {
    forall v :: v in adj ==> Increasing(adj[v])
  }

  // ---- the adjacency the scan works on

  ghost function Targets(edges: Adjacency): set<int> {
    set u, v | u in edges && v in edges[u] :: v
  }

  /** Sorted, de-duplicated, and with an entry for every target. */
  ghost function Normalized(edges: Adjacency): Adjacency {
    map v | v in edges.Keys + Targets(edges) :: AdjacencyOf(edges, v)
  }

  ghost function AdjacencyOf(edges: Adjacency, v: int): seq<int> {
    if v in edges then SortedSet(edges[v]) else []
  }

  lemma NormalizedKeepsEdges(edges: Adjacency)
    ensures Closed(Normalized(edges)) && SortedGraph(Normalized(edges))
    ensures forall u, v :: Edge(Normalized(edges), u, v) <==> Edge(edges, u, v)
    ensures forall c :: Cycle(Normalized(edges), c) <==> Cycle(edges, c)
  {
    var adj := Normalized(edges);
    forall u, v ensures Edge(adj, u, v) <==> Edge(edges, u, v) { }
    forall u, v | Edge(adj, u, v) ensures v in adj { assert v in Targets(edges); }
    forall c ensures Cycle(adj, c) <==> Cycle(edges, c) {
      if Cycle(adj, c) {
        forall i | 0 <= i < |c| - 1 ensures Edge(edges, c[i], c[i + 1]) { assert Edge(adj, c[i], c[i + 1]); }
      }
      if Cycle(edges, c) {
        forall i | 0 <= i < |c| - 1 ensures Edge(adj, c[i], c[i + 1]) { assert Edge(edges, c[i], c[i + 1]); }
      }
    }
  }

  /** Only the set of edges matters: neither the order nor the repetition of targets survives. */
  lemma NormalizedIgnoresListing(a: Adjacency, b: Adjacency)
    requires a.Keys == b.Keys
    requires forall u, v :: Edge(a, u, v) <==> Edge(b, u, v)
    ensures Normalized(a) == Normalized(b)
  {
    forall u | u in a ensures SortedSet(a[u]) == SortedSet(b[u]) {
      forall v ensures v in a[u] <==> v in b[u] { assert Edge(a, u, v) <==> Edge(b, u, v); }
      IncreasingUnique(SortedSet(a[u]), SortedSet(b[u]));
    }
    forall v ensures v in Targets(a) <==> v in Targets(b) {
      if v in Targets(a) { var u :| u in a && v in a[u]; assert Edge(b, u, v); }
      if v in Targets(b) { var u :| u in b && v in b[u]; assert Edge(a, u, v); }
    }
  }

  method CollectTargets(edges: Adjacency, order: seq<int>) returns (adj: Adjacency, targets: set<int>)
    requires Elements(order) == edges.Keys
    ensures adj.Keys == edges.Keys && forall v :: v in adj ==> adj[v] == AdjacencyOf(edges, v)
    ensures targets == Targets(edges)
  {
    adj, targets := map[], {};
    for r := 0 to |order|
      invariant adj.Keys == Elements(order[..r]) && adj.Keys <= edges.Keys
      invariant forall v :: v in adj ==> adj[v] == SortedSet(edges[v])
      invariant forall v :: v in targets <==> exists u :: u in adj && v in edges[u]
    {
      var node := order[r];
      assert node in Elements(order);
      assert Elements(order[..r + 1]) == Elements(order[..r]) + {node} by {
        assert order[..r + 1] == order[..r] + [node];
      }
      var deduped := SortedSet(edges[node]);
      adj := adj[node := deduped];
      targets := targets + set v | v in deduped;
    }
    assert order[..|order|] == order;
    forall v ensures v in targets <==> v in Targets(edges) {
      if v in Targets(edges) { var u :| u in edges && v in edges[u]; assert u in adj; }
    }
  }

  lemma ElementsAppend(xs: seq<int>, x: int)
    ensures Elements(xs + [x]) == Elements(xs) + {x}
  {
  }

  /** `for target in all_targets: adjacency.setdefault(target, [])`, a set in no fixed order. */
  method SetDefaults(before: Adjacency, order: seq<int>, targets: set<int>) returns (adj: Adjacency, keys: seq<int>)
    requires Elements(order) == before.Keys
    ensures adj.Keys == before.Keys + targets && Elements(keys) == adj.Keys
    ensures forall v :: v in adj ==> adj[v] == if v in before then before[v] else []
  {
    adj, keys := before, order;
    var todo := targets;
    while exists target :: target in todo
      invariant todo <= targets
      invariant adj.Keys == before.Keys + (targets - todo)
      invariant Elements(keys) == adj.Keys
      invariant forall v :: v in adj ==> adj[v] == if v in before then before[v] else []
      decreases todo
    {
      var target :| target in todo;
      todo := todo - {target};
      if target !in adj {
        ElementsAppend(keys, target);
        adj, keys := adj[target := []], keys + [target];
      }
      assert adj.Keys == before.Keys + (targets - todo);
    }
    assert targets - todo == targets;
  }

  lemma IsNormalized(edges: Adjacency, adj: Adjacency)
    requires adj.Keys == edges.Keys + Targets(edges) && forall v :: v in adj ==> adj[v] == AdjacencyOf(edges, v)
    ensures adj == Normalized(edges)
  {
  }

  method BuildAdjacency(edges: Adjacency, order: seq<int>) returns (adj: Adjacency, keys: seq<int>)
    requires Elements(order) == edges.Keys
    ensures adj == Normalized(edges) && Elements(keys) == adj.Keys
  {
    var sorted, targets := CollectTargets(edges, order);
    adj, keys := SetDefaults(sorted, order, targets);
    forall v | v in adj ensures adj[v] == AdjacencyOf(edges, v) {
      assert v in sorted <==> v in edges;
    }
    IsNormalized(edges, adj);
  }

  // ---- canonical component order: least member first

  ghost predicate IsLeader(adj: Adjacency, v: int) {
    v in adj && forall w :: w in Class(adj, v) ==> v <= w
  }

  ghost function Leaders(adj: Adjacency): seq<int> {
    SortedOf(set v | v in adj && IsLeader(adj, v))
  }

  ghost function Components(adj: Adjacency): seq<set<int>> {
    seq(|Leaders(adj)|, i requires 0 <= i < |Leaders(adj)| => Class(adj, Leaders(adj)[i]))
  }

  lemma ComponentsAreClasses(adj: Adjacency, i: nat)
    requires i < |Components(adj)|
    ensures Leaders(adj)[i] in adj && IsLeader(adj, Leaders(adj)[i])
    ensures Components(adj)[i] == Class(adj, Leaders(adj)[i]) <= adj.Keys
    ensures Leaders(adj)[i] in Components(adj)[i]
  {
    var v := Leaders(adj)[i];
    assert v in Leaders(adj);
    ReachSelf(adj, v);
  }

  lemma ComponentsDisjoint(adj: Adjacency, i: nat, j: nat)
    requires i < |Components(adj)| && j < |Components(adj)| && i != j
    ensures Components(adj)[i] !! Components(adj)[j]
  {
    ComponentsAreClasses(adj, i);
    ComponentsAreClasses(adj, j);
    var u, v := Leaders(adj)[i], Leaders(adj)[j];
    forall x | x in Components(adj)[i] ensures x !in Components(adj)[j] {
      ClassesAgree(adj, u, x);
      if x in Class(adj, v) {
        ClassesAgree(adj, v, x);
      }
    }
  }

  /** Every vertex lies in one of the components. */
  lemma ComponentOf(adj: Adjacency, v: int) returns (k: nat)
    requires v in adj
    ensures k < |Components(adj)| && Components(adj)[k] == Class(adj, v)
  {
    ReachSelf(adj, v);
    assert v in Class(adj, v);
    var leader := LeastOfSet(Class(adj, v), v);
    ClassesAgree(adj, v, leader);
    assert IsLeader(adj, leader);
    assert leader in Leaders(adj);
    k :| 0 <= k < |Leaders(adj)| && Leaders(adj)[k] == leader;
  }

  lemma CycleInOneComponent(adj: Adjacency, c: seq<int>) returns (k: nat)
    requires Closed(adj) && Cycle(adj, c)
    ensures k < |Components(adj)| && CycleWithin(adj, Components(adj)[k], c)
  {
    CycleInOneClass(adj, c);
    k := ComponentOf(adj, c[0]);
  }

  function Least(xs: seq<int>): (m: int)
    ensures |xs| > 0 ==> m in xs && forall x :: x in xs ==> m <= x
  {
    if xs == [] then 0
    else if |xs| == 1 then xs[0]
    else
      var rest := Least(xs[1..]);
      assert forall x :: x in xs <==> x == xs[0] || x in xs[1..];
      if xs[0] <= rest then xs[0] else rest
  }

  predicate ByLeast(a: seq<int>, b: seq<int>) {
    Least(a) <= Least(b)
  }

  lemma LeastLeads(adj: Adjacency, comp: seq<int>)
    requires IsClassList(adj, comp)
    ensures IsLeader(adj, Least(comp)) && Class(adj, Least(comp)) == Elements(comp)
  {
    var m := Least(comp);
    assert m in Elements(comp);
    ClassesAgree(adj, comp[0], m);
    forall w | w in Class(adj, m) ensures m <= w { assert w in comp; }
  }

  lemma SameLeastSameComponent(adj: Adjacency, comps: seq<seq<int>>, a: seq<int>, b: seq<int>)
    requires IsSccList(adj, comps) && a in comps && b in comps && a != b
    ensures Least(a) != Least(b)
  {
    var i :| 0 <= i < |comps| && comps[i] == a;
    var j :| 0 <= j < |comps| && comps[j] == b;
    assert IsClassList(adj, comps[i]) && IsClassList(adj, comps[j]);
    assert Least(a) in Elements(comps[i]) && Least(b) in Elements(comps[j]);
    if i < j { assert Elements(comps[i]) !! Elements(comps[j]); }
    else { assert Elements(comps[j]) !! Elements(comps[i]); }
  }

  ghost function Mins(comps: seq<seq<int>>): (m: seq<int>)
    ensures |m| == |comps| && forall i :: 0 <= i < |comps| ==> m[i] == Least(comps[i])
  {
    seq(|comps|, i requires 0 <= i < |comps| => Least(comps[i]))
  }

  lemma MinsIncrease(adj: Adjacency, comps: seq<seq<int>>, s: seq<seq<int>>)
    requires IsSccList(adj, comps) && multiset(s) == multiset(comps) && SortedBy(ByLeast, s)
    ensures Increasing(Mins(s))
  {
    SamePermutationElements(s, comps);
    forall i, j | 0 <= i < j < |comps| ensures comps[i] != comps[j] {
      assert IsClassList(adj, comps[i]);
      assert comps[i][0] in Elements(comps[i]);
    }
    DistinctPermutation(comps, s);
    forall i, j | 0 <= i < j < |s| ensures Least(s[i]) < Least(s[j]) {
      assert s[i] in comps && s[j] in comps;
      SameLeastSameComponent(adj, comps, s[i], s[j]);
      assert ByLeast(s[i], s[j]);
    }
  }

  lemma LeaderIsMin(adj: Adjacency, comps: seq<seq<int>>, v: int)
    requires IsSccList(adj, comps) && v in adj && IsLeader(adj, v)
    ensures v in Mins(comps)
  {
    assert Listed(comps, v);
    var k :| 0 <= k < |comps| && v in comps[k];
    assert IsClassList(adj, comps[k]);
    LeastLeads(adj, comps[k]);
    var m := Least(comps[k]);
    assert m in Elements(comps[k]) && v in Elements(comps[k]);
    assert v in Class(adj, m);
    ClassesAgree(adj, m, v);
    assert Mins(comps)[k] == v;
  }

  lemma MinIsLeader(adj: Adjacency, comps: seq<seq<int>>, i: nat)
    requires IsSccList(adj, comps) && i < |comps|
    ensures IsLeader(adj, Least(comps[i])) && Class(adj, Least(comps[i])) == Elements(comps[i])
  {
    assert IsClassList(adj, comps[i]);
    LeastLeads(adj, comps[i]);
  }

  lemma AllLed(adj: Adjacency, comps: seq<seq<int>>, s: seq<seq<int>>, i: nat)
    requires IsSccList(adj, comps) && (forall c :: c in s <==> c in comps) && i < |s|
    ensures s[i] in comps && IsClassList(adj, s[i]) && Led(adj, s[i])
  {
    assert s[i] in comps;
    var k :| 0 <= k < |comps| && comps[k] == s[i];
    MinIsLeader(adj, comps, k);
  }

  /** Sorting the components by least member gives the canonical sequence, whatever order the
      two-pass search delivered them in. */
  lemma {:induction false} SortedComponentsAreCanonical(adj: Adjacency, comps: seq<seq<int>>)
    requires IsSccList(adj, comps)
    ensures var s := Sort(ByLeast, comps);
      && |s| == |Components(adj)|
      && forall i :: 0 <= i < |s| ==> s[i] in comps && IsClassList(adj, s[i]) && Elements(s[i]) == Components(adj)[i]
  {
    var s := Sort(ByLeast, comps);
    SortIsPermutation(ByLeast, comps);
    SamePermutationElements(s, comps);
    SortSorted(ByLeast, comps);
    MinsIncrease(adj, comps, s);
    forall i | 0 <= i < |s| ensures s[i] in comps && IsClassList(adj, s[i]) && Led(adj, s[i]) {
      AllLed(adj, comps, s, i);
    }
    MinsAreLeaders(adj, comps, s);
    forall i | 0 <= i < |s| ensures Elements(s[i]) == Components(adj)[i] {
      assert Led(adj, s[i]);
      assert Mins(s)[i] == Leaders(adj)[i];
    }
  }

  ghost predicate Led(adj: Adjacency, comp: seq<int>) {
    IsLeader(adj, Least(comp)) && Class(adj, Least(comp)) == Elements(comp)
  }

  lemma MinsAreLeaders(adj: Adjacency, comps: seq<seq<int>>, s: seq<seq<int>>)
    requires IsSccList(adj, comps) && Increasing(Mins(s)) && forall c :: c in comps <==> c in s
    requires forall i :: 0 <= i < |s| ==> Led(adj, s[i])
    ensures Mins(s) == Leaders(adj)
  {
    forall v ensures v in Mins(s) <==> v in Leaders(adj) {
      if v in Mins(s) {
        var i :| 0 <= i < |s| && Mins(s)[i] == v;
        assert Led(adj, s[i]);
      }
      if v in Leaders(adj) {
        LeaderIsMin(adj, comps, v);
        var k :| 0 <= k < |comps| && Mins(comps)[k] == v;
        assert comps[k] in s;
        var i :| 0 <= i < |s| && s[i] == comps[k];
        assert Mins(s)[i] == v;
      }
    }
    IncreasingUnique(Mins(s), Leaders(adj));
  }
}
