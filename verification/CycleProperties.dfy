/** What the anchored search finds: exactly the elementary cycles inside the component, each
    once, in lexicographic order; and what the caps leave of that list. */
module CycleProperties {
  import opened Sorting
  import opened Graphs
  import opened BlockerGraph
  import opened CycleSearch

  /** A path grown from its least member along edges of the graph. */
  ghost predicate Anchored(adj: Adjacency, members: set<int>, path: seq<int>) {
    && members <= adj.Keys
    && OnPath(members, path)
    && LeastFirst(path)
    && forall i :: 0 <= i < |path| - 1 ==> Edge(adj, path[i], path[i + 1])
  }

  /** The vertex after the prefix of length n in the cycle c. */
  function Successor(c: seq<int>, n: nat): int
    requires 0 < n <= |c|
  {
    if n == |c| then c[0] else c[n]
  }

  /** c is a cycle that continues `path` through one of the successors from index i on. */
  ghost predicate Continues(adj: Adjacency, members: set<int>, path: seq<int>, i: nat, c: seq<int>)
    requires members <= adj.Keys && OnPath(members, path)
  {
    && CycleWithin(adj, members, c)
    && |path| <= |c|
    && c[..|path|] == path
    && exists j :: i <= j < |adj[Last(path)]| && adj[Last(path)][j] == Successor(c, |path|)
  }

  lemma AnchoredExtends(adj: Adjacency, members: set<int>, path: seq<int>, nxt: int)
    requires Anchored(adj, members, path) && Edge(adj, Last(path), nxt) && Enters(members, path, nxt)
    ensures Anchored(adj, members, path + [nxt])
  {
    EnterKeepsPath(members, path, nxt);
    var longer := path + [nxt];
    forall i | 0 <= i < |longer| - 1 ensures Edge(adj, longer[i], longer[i + 1]) {
      if i < |path| - 1 { assert Edge(adj, path[i], path[i + 1]); }
    }
  }

  lemma PathClosesToCycle(adj: Adjacency, members: set<int>, path: seq<int>, i: nat)
    requires Anchored(adj, members, path) && i < |adj[Last(path)]| && adj[Last(path)][i] == path[0]
    ensures forall c :: Continues(adj, members, path, i, c) <==>
              c == path || Continues(adj, members, path, i + 1, c)
  {
    assert Edge(adj, path[|path| - 1], path[0]);
    assert path[..|path|] == path;
    assert Continues(adj, members, path, i, path);
    forall c ensures Continues(adj, members, path, i, c) ==> c == path || Continues(adj, members, path, i + 1, c) {
      if Continues(adj, members, path, i, c) && !Continues(adj, members, path, i + 1, c) {
        assert Successor(c, |path|) == path[0];
        assert path[0] == c[..|path|][0] == c[0];
        assert c == c[..|path|];
      }
    }
  }

  lemma DescentSplits(adj: Adjacency, members: set<int>, path: seq<int>, i: nat)
    requires Anchored(adj, members, path) && i < |adj[Last(path)]|
    requires adj[Last(path)][i] != path[0] && Enters(members, path, adj[Last(path)][i])
    requires OnPath(members, path + [adj[Last(path)][i]])
    ensures forall c :: Continues(adj, members, path, i, c) <==>
              Continues(adj, members, path + [adj[Last(path)][i]], 0, c) || Continues(adj, members, path, i + 1, c)
  {
    var nxt := adj[Last(path)][i];
    var longer := path + [nxt];
    var n := |path|;
    forall c ensures Continues(adj, members, path, i, c) <==>
              Continues(adj, members, longer, 0, c) || Continues(adj, members, path, i + 1, c) {
      if Continues(adj, members, longer, 0, c) {
        assert c[..n] == c[..n + 1][..n] == path;
        assert c[n] == c[..n + 1][n] == nxt;
        assert adj[Last(path)][i] == Successor(c, n);
        assert Continues(adj, members, path, i, c);
      }
      if Continues(adj, members, path, i, c) && !Continues(adj, members, path, i + 1, c) {
        assert Successor(c, n) == nxt;
        assert path[0] == c[..n][0] == c[0];
        assert n < |c| && c[n] == nxt;
        assert c[..n + 1] == longer;
        assert Edge(adj, nxt, Successor(c, n + 1)) by {
          if n + 1 < |c| { assert Edge(adj, c[n], c[n + 1]); }
        }
        var j :| 0 <= j < |adj[nxt]| && adj[nxt][j] == Successor(c, n + 1);
        assert Last(longer) == nxt && |longer| == n + 1;
        assert Continues(adj, members, longer, 0, c);
      }
    }
  }

  lemma SkipLosesNothing(adj: Adjacency, members: set<int>, path: seq<int>, i: nat)
    requires Anchored(adj, members, path) && i < |adj[Last(path)]|
    requires adj[Last(path)][i] != path[0] && !Enters(members, path, adj[Last(path)][i])
    ensures forall c :: Continues(adj, members, path, i, c) <==> Continues(adj, members, path, i + 1, c)
  {
    var nxt := adj[Last(path)][i];
    var n := |path|;
    forall c | Continues(adj, members, path, i, c) ensures Continues(adj, members, path, i + 1, c) {
      var j :| i <= j < |adj[Last(path)]| && adj[Last(path)][j] == Successor(c, n);
      assert path[0] == c[..n][0] == c[0];
      if n < |c| {
        forall m | 0 <= m < n ensures path[m] != c[n] { assert path[m] == c[..n][m] == c[m]; }
        assert Enters(members, path, c[n]);
      }
      assert j != i;
    }
  }

  /** The trace from position i emits exactly the cycles that continue the path from there. */
  lemma {:induction false} TraceEmitsContinuations(adj: Adjacency, members: set<int>, path: seq<int>, i: nat)
    requires Anchored(adj, members, path) && i <= |adj[Last(path)]|
    ensures forall c :: c in Emitted(Trace(adj, members, path, i)) <==> Continues(adj, members, path, i, c)
    decreases |members| - |path|, |adj[Last(path)]| - i
  {
    if i == |adj[Last(path)]| {
    } else {
      var nxt := adj[Last(path)][i];
      var after := Trace(adj, members, path, i + 1);
      TraceEmitsContinuations(adj, members, path, i + 1);
      if nxt == path[0] {
        EmittedAppend([Some(path)], after);
        PathClosesToCycle(adj, members, path, i);
      } else if Enters(members, path, nxt) {
        EnterKeepsPath(members, path, nxt);
        AnchoredExtends(adj, members, path, nxt);
        TraceEmitsContinuations(adj, members, path + [nxt], 0);
        DescentEmits(adj, members, path, i);
        DescentSplits(adj, members, path, i);
      } else {
        EmittedAppend([None], after);
        SkipLosesNothing(adj, members, path, i);
      }
    }
  }

  lemma DescentEmits(adj: Adjacency, members: set<int>, path: seq<int>, i: nat)
    requires members <= adj.Keys && OnPath(members, path) && i < |adj[Last(path)]|
    requires var nxt := adj[Last(path)][i];
      nxt != path[0] && Enters(members, path, nxt) && OnPath(members, path + [nxt])
    ensures Emitted(Trace(adj, members, path, i))
         == Emitted(Trace(adj, members, path + [adj[Last(path)][i]], 0)) + Emitted(Trace(adj, members, path, i + 1))
  {
    EnterKeepsPath(members, path, adj[Last(path)][i]);
    var deeper := Trace(adj, members, path + [adj[Last(path)][i]], 0);
    var after := Trace(adj, members, path, i + 1);
    assert Trace(adj, members, path, i) == [None] + deeper + after;
    EmittedAppend([None] + deeper, after);
    assert ([None] + deeper)[1..] == deeper;
    assert Emitted([None] + deeper) == [] + Emitted(deeper);
  }

  // ---- order

  lemma ConcatIncreasing(a: seq<seq<int>>, b: seq<seq<int>>)
    requires LexIncreasing(a) && LexIncreasing(b)
    requires forall x, y :: x in a && y in b ==> LexLess(x, y)
    ensures LexIncreasing(a + b)
  {
    var c := a + b;
    forall i, j | 0 <= i < j < |c| ensures LexLess(c[i], c[j]) {
      if i < |a| <= j { assert c[i] in a && c[j] in b; }
    }
  }

  /** Cycles through a later successor come later in lexicographic order. */
  lemma LaterSuccessorIsGreater(adj: Adjacency, members: set<int>, path: seq<int>, i: nat, c: seq<int>, d: seq<int>)
    requires Anchored(adj, members, path) && Increasing(adj[Last(path)]) && i < |adj[Last(path)]|
    requires |path| <= |c| && c[..|path|] == path && Successor(c, |path|) == adj[Last(path)][i] && LeastFirst(c)
    requires Continues(adj, members, path, i + 1, d)
    ensures LexLess(c, d)
  {
    var n := |path|;
    var j :| i + 1 <= j < |adj[Last(path)]| && adj[Last(path)][j] == Successor(d, n);
    assert Successor(c, n) < Successor(d, n);
    assert c[0] == c[..n][0] == d[..n][0] == d[0];
    assert n < |d|;
    if n == |c| { assert c == c[..n]; }
    LexAtDifference(c, d, n);
  }

  lemma {:induction false} TraceEmitsInOrder(adj: Adjacency, members: set<int>, path: seq<int>, i: nat)
    requires SortedGraph(adj) && Anchored(adj, members, path) && i <= |adj[Last(path)]|
    ensures LexIncreasing(Emitted(Trace(adj, members, path, i)))
    decreases |members| - |path|, |adj[Last(path)]| - i
  {
    if i == |adj[Last(path)]| {
    } else {
      var nxt := adj[Last(path)][i];
      var after := Trace(adj, members, path, i + 1);
      TraceEmitsInOrder(adj, members, path, i + 1);
      TraceEmitsContinuations(adj, members, path, i + 1);
      if nxt == path[0] {
        EmittedAppend([Some(path)], after);
        assert path[..|path|] == path;
        forall d | d in Emitted(after) ensures LexLess(path, d) {
          LaterSuccessorIsGreater(adj, members, path, i, path, d);
        }
        assert Emitted([Some(path)]) == [path];
        ConcatIncreasing([path], Emitted(after));
      } else if Enters(members, path, nxt) {
        EnterKeepsPath(members, path, nxt);
        AnchoredExtends(adj, members, path, nxt);
        TraceEmitsInOrder(adj, members, path + [nxt], 0);
        DescentEmits(adj, members, path, i);
        DescentPrecedes(adj, members, path, i);
        ConcatIncreasing(Emitted(Trace(adj, members, path + [nxt], 0)), Emitted(after));
      } else {
        EmittedAppend([None], after);
      }
    }
  }

  lemma DescentPrecedes(adj: Adjacency, members: set<int>, path: seq<int>, i: nat)
    requires SortedGraph(adj) && Anchored(adj, members, path) && i < |adj[Last(path)]|
    requires var nxt := adj[Last(path)][i];
      nxt != path[0] && Enters(members, path, nxt) && OnPath(members, path + [nxt])
    ensures forall c, d ::
              (c in Emitted(Trace(adj, members, path + [adj[Last(path)][i]], 0))
              && d in Emitted(Trace(adj, members, path, i + 1))) ==> LexLess(c, d)
  {
    var nxt := adj[Last(path)][i];
    var longer := path + [nxt];
    AnchoredExtends(adj, members, path, nxt);
    TraceEmitsContinuations(adj, members, longer, 0);
    TraceEmitsContinuations(adj, members, path, i + 1);
    forall c, d | c in Emitted(Trace(adj, members, longer, 0)) && d in Emitted(Trace(adj, members, path, i + 1))
      ensures LexLess(c, d)
    {
      assert Continues(adj, members, longer, 0, c);
      assert c[..|path|] == c[..|path| + 1][..|path|] == path;
      assert c[|path|] == c[..|path| + 1][|path|] == nxt;
      LaterSuccessorIsGreater(adj, members, path, i, c, d);
    }
  }

  // ---- all anchors of a component

  lemma {:induction false} AnchorsEmit(adj: Adjacency, members: set<int>, starts: seq<int>)
    requires SortedGraph(adj) && members <= adj.Keys && Increasing(starts)
    requires forall i :: 0 <= i < |starts| ==> starts[i] in members
    ensures forall c :: c in Emitted(TraceFrom(adj, members, starts)) <==>
              CycleWithin(adj, members, c) && c[0] in starts
    ensures LexIncreasing(Emitted(TraceFrom(adj, members, starts)))
  {
    if starts == [] {
    } else {
      var s, rest := starts[0], starts[1..];
      assert starts == [s] + rest;
      AnchorsEmit(adj, members, rest);
      TraceEmitsContinuations(adj, members, [s], 0);
      TraceEmitsInOrder(adj, members, [s], 0);
      var first, later := Emitted(Trace(adj, members, [s], 0)), Emitted(TraceFrom(adj, members, rest));
      EmittedAppend(Trace(adj, members, [s], 0), TraceFrom(adj, members, rest));
      forall c ensures c in first <==> CycleWithin(adj, members, c) && c[0] == s {
        StartsAtAnchor(adj, members, s, c);
      }
      forall c, d | c in first && d in later ensures LexLess(c, d) {
        assert d[0] in rest;
      }
      ConcatIncreasing(first, later);
    }
  }

  lemma StartsAtAnchor(adj: Adjacency, members: set<int>, s: int, c: seq<int>)
    requires members <= adj.Keys && s in members
    ensures Continues(adj, members, [s], 0, c) <==> CycleWithin(adj, members, c) && c[0] == s
  {
    if CycleWithin(adj, members, c) && c[0] == s {
      assert c[..1] == [s];
      assert Edge(adj, s, Successor(c, 1)) by {
        if |c| > 1 { assert Edge(adj, c[0], c[0 + 1]); }
      }
      var j :| 0 <= j < |adj[s]| && adj[s][j] == Successor(c, 1);
      assert Last([s]) == s && adj[Last([s])][j] == Successor(c, |[s]|);
    }
    if Continues(adj, members, [s], 0, c) {
      assert c[..1][0] == s;
    }
  }

  /** Sound, complete, each cycle once, in strictly increasing lexicographic order. */
  lemma AllCyclesExact(adj: Adjacency, members: set<int>)
    requires SortedGraph(adj) && members <= adj.Keys
    ensures forall c :: c in AllCycles(adj, members) <==> CycleWithin(adj, members, c)
    ensures LexIncreasing(AllCycles(adj, members))
    ensures Distinct(AllCycles(adj, members))
  {
    AnchorsEmit(adj, members, SortedOf(members));
    LexIncreasingDistinct(AllCycles(adj, members));
  }

  // ---- what the caps leave

  /** Under either cap the reported cycles are an initial segment of the full list, the cap on
      cycles holds, and the work stays within max(1, budget). */
  lemma {:induction false} CappedIsInitialSegment(trace: seq<Event>, cycleLimit: Option<nat>, stepBudget: Option<int>)
    ensures var r := Capped(trace, cycleLimit, stepBudget);
      && r.cycles <= Emitted(trace)
      && (cycleLimit.Some? ==> |r.cycles| <= cycleLimit.value)
      && r.steps <= |trace|
      && (stepBudget.Some? ==> r.steps <= 1 || r.steps <= stepBudget.value)
  {
    var stop := StopAt(trace, 0, cycleLimit, stepBudget);
    assert trace == trace[..stop] + trace[stop..];
    EmittedAppend(trace[..stop], trace[stop..]);
    if stop > 0 { assert !Refused(trace, stop - 1, cycleLimit, stepBudget); }
  }

  /** Not truncated means nothing was lost. */
  lemma UntruncatedIsComplete(trace: seq<Event>, cycleLimit: Option<nat>, stepBudget: Option<int>)
    ensures var r := Capped(trace, cycleLimit, stepBudget);
      !r.truncated ==> r.cycles == Emitted(trace) && r.steps == |trace|
  {
    assert trace[..|trace|] == trace;
  }

  /** Exactly when a component is reported truncated: the budget is no larger than the whole
      search, or there are more cycles than the cap. */
  lemma TruncatedExactly(trace: seq<Event>, cycleLimit: Option<nat>, stepBudget: Option<int>)
    ensures Capped(trace, cycleLimit, stepBudget).truncated <==>
      || (stepBudget.Some? && |trace| > 0 && stepBudget.value <= |trace|)
      || (cycleLimit.Some? && |Emitted(trace)| > cycleLimit.value)
  {
    var stop := StopAt(trace, 0, cycleLimit, stepBudget);
    assert trace == trace[..stop] + trace[stop..];
    EmittedAppend(trace[..stop], trace[stop..]);
    assert trace[..|trace|] == trace;
    if stop == |trace| && |trace| > 0 {
      assert !Refused(trace, |trace| - 1, cycleLimit, stepBudget);
    }
  }
}
