/** `_strongly_connected_components`: Kosaraju's algorithm with explicit stacks.

    The heart of the proof is `FinishBlocks`, a property of the finish order alone:
    at every position k there is a block ending at k all of whose members are reached
    from finish[k], and no edge leads from before the block into it. That is what makes
    a backward search from finish[k] stop exactly at its component. */
module StronglyConnected {
  import opened Sorting
  import opened Graphs

  // ---- what the result means

  /** The mutual-reachability classes, each listed once. */
  ghost predicate IsSccList(adj: Adjacency, comps: seq<seq<int>>) {
    && (forall i :: 0 <= i < |comps| ==> IsClassList(adj, comps[i]))
    && (forall i, j :: 0 <= i < j < |comps| ==> Elements(comps[i]) !! Elements(comps[j]))
    && (forall v :: v in adj ==> Listed(comps, v))
  }

  ghost predicate IsClassList(adj: Adjacency, comp: seq<int>) {
    && |comp| > 0
    && Distinct(comp)
    && comp[0] in adj
    && Elements(comp) == Class(adj, comp[0])
  }

  ghost predicate Listed(comps: seq<seq<int>>, v: int) {
    exists i :: 0 <= i < |comps| && v in comps[i]
  }

  /** Two vertices share a component exactly when each reaches the other. */
  lemma SameComponentIffMutual(adj: Adjacency, comps: seq<seq<int>>, u: int, v: int)
    requires IsSccList(adj, comps) && u in adj && v in adj
    ensures (exists i :: 0 <= i < |comps| && u in comps[i] && v in comps[i]) <==> Mutual(adj, u, v)
  {
    assert Listed(comps, u);
    var k :| 0 <= k < |comps| && u in comps[k];
    var head := comps[k][0];
    assert IsClassList(adj, comps[k]);
    assert u in Elements(comps[k]);
    ClassesAgree(adj, head, u);
    assert v in comps[k] <==> v in Elements(comps[k]);
    forall i | 0 <= i < |comps| && i != k ensures u !in comps[i] {
      assert Elements(comps[i]) !! Elements(comps[k]);
      assert u in comps[i] <==> u in Elements(comps[i]);
    }
  }

  // ---- pass 1: finish order

  /** One stack entry: a vertex and its successor iterator (how far it has advanced). */
  datatype Frame = Frame(node: int, next: nat)

  ghost predicate Block(adj: Adjacency, finish: seq<int>, b: nat, k: nat) {
    && b <= k < |finish|
    && (forall i :: b <= i <= k ==> Reaches(adj, finish[k], finish[i]))
    && (forall i, j :: 0 <= i < b <= j <= k ==> !Edge(adj, finish[i], finish[j]))
  }

  ghost predicate FinishBlocks(adj: Adjacency, finish: seq<int>, blocks: seq<nat>) {
    && |blocks| == |finish|
    && Distinct(finish)
    && forall k :: 0 <= k < |finish| ==> Block(adj, finish, blocks[k], k)
  }

  ghost predicate OnStack(stack: seq<Frame>, v: int) {
    exists j :: 0 <= j < |stack| && stack[j].node == v
  }

  /** Visited is the finished vertices plus the stack, nothing twice. */
  ghost predicate VisitedSplit(visited: set<int>, finish: seq<int>, stack: seq<Frame>) {
    && (forall v :: v in visited <==> v in finish || OnStack(stack, v))
    && (forall i, j :: 0 <= i < j < |stack| ==> stack[i].node != stack[j].node)
    && (forall j :: 0 <= j < |stack| ==> stack[j].node !in finish)
  }

  ghost predicate FramesAdvance(adj: Adjacency, visited: set<int>, stack: seq<Frame>) {
    forall j :: 0 <= j < |stack| ==> FrameAdvances(adj, visited, stack[j])
  }

  ghost predicate FrameAdvances(adj: Adjacency, visited: set<int>, f: Frame) {
    && f.node in adj
    && f.next <= |adj[f.node]|
    && forall i :: 0 <= i < f.next ==> adj[f.node][i] in visited
  }

  /** bases[j] is the length of the finish order when stack[j] was pushed: what finished
      since then is reached from stack[j], and nothing earlier points at it. */
  ghost predicate Bases(adj: Adjacency, finish: seq<int>, stack: seq<Frame>, bases: seq<nat>) {
    && |bases| == |stack|
    && (forall j :: 0 <= j < |stack| ==> bases[j] <= |finish|)
    && (forall j, m :: 0 <= j <= m < |stack| ==> Reaches(adj, stack[j].node, stack[m].node))
    && (forall j, i :: 0 <= j < |stack| && bases[j] <= i < |finish| ==>
          Reaches(adj, stack[j].node, finish[i]))
    && (forall j, i, k :: 0 <= j < |stack| && 0 <= i < bases[j] <= k < |finish| ==>
          !Edge(adj, finish[i], finish[k]))
    && (forall j, i, m :: 0 <= j <= m < |stack| && 0 <= i < bases[j] ==>
          !Edge(adj, finish[i], stack[m].node))
  }

  ghost predicate FinishedClosed(adj: Adjacency, visited: set<int>, finish: seq<int>) {
    forall i, v :: 0 <= i < |finish| && Edge(adj, finish[i], v) ==> v in visited
  }

  ghost predicate PassOne(adj: Adjacency, visited: set<int>, finish: seq<int>, blocks: seq<nat>,
                          stack: seq<Frame>, bases: seq<nat>)
  {
    && visited <= adj.Keys
    && VisitedSplit(visited, finish, stack)
    && FramesAdvance(adj, visited, stack)
    && FinishedClosed(adj, visited, finish)
    && Bases(adj, finish, stack, bases)
    && FinishBlocks(adj, finish, blocks)
  }

  lemma PushSplits(visited: set<int>, finish: seq<int>, stack: seq<Frame>, v: int)
    requires VisitedSplit(visited, finish, stack) && v !in visited
    ensures VisitedSplit(visited + {v}, finish, stack + [Frame(v, 0)])
  {
    var visited', stack' := visited + {v}, stack + [Frame(v, 0)];
    forall w ensures w in visited' <==> w in finish || OnStack(stack', w) {
      if OnStack(stack, w) {
        var j :| 0 <= j < |stack| && stack[j].node == w;
        assert stack'[j].node == w;
      }
      if w == v { assert stack'[|stack|].node == v; }
    }
    forall j | 0 <= j < |stack| ensures stack[j].node != v {
      assert OnStack(stack, stack[j].node);
    }
  }

  /** Pushing an unvisited vertex: a root on the empty stack, or a successor of the top. */
  lemma PushAdvances(adj: Adjacency, visited: set<int>, stack: seq<Frame>, v: int)
    requires FramesAdvance(adj, visited, stack) && v in adj
    ensures FramesAdvance(adj, visited + {v}, stack + [Frame(v, 0)])
  {
    var stack' := stack + [Frame(v, 0)];
    forall j | 0 <= j < |stack'| ensures FrameAdvances(adj, visited + {v}, stack'[j]) {
      if j < |stack| { assert FrameAdvances(adj, visited, stack[j]); }
    }
  }

  lemma StackReaches(adj: Adjacency, finish: seq<int>, stack: seq<Frame>, bases: seq<nat>, v: int)
    requires Bases(adj, finish, stack, bases)
    requires stack == [] || Edge(adj, stack[|stack| - 1].node, v)
    ensures forall j :: 0 <= j < |stack| ==> Reaches(adj, stack[j].node, v)
  {
    forall j | 0 <= j < |stack| ensures Reaches(adj, stack[j].node, v) {
      var top := stack[|stack| - 1].node;
      ReachEdge(adj, top, v);
      ReachTransitive(adj, stack[j].node, top, v);
    }
  }

  lemma PushReaching(adj: Adjacency, finish: seq<int>, stack: seq<Frame>, bases: seq<nat>, f: Frame)
    requires Bases(adj, finish, stack, bases) && f.node in adj
    requires stack == [] || Edge(adj, stack[|stack| - 1].node, f.node)
    ensures var stack' := stack + [f];
            forall j, m :: 0 <= j <= m < |stack'| ==> Reaches(adj, stack'[j].node, stack'[m].node)
  {
    ReachSelf(adj, f.node);
    StackReaches(adj, finish, stack, bases, f.node);
  }

  lemma PushBases(adj: Adjacency, finish: seq<int>, stack: seq<Frame>, bases: seq<nat>, f: Frame)
    requires Bases(adj, finish, stack, bases) && f.node in adj
    requires stack == [] || Edge(adj, stack[|stack| - 1].node, f.node)
    requires forall i :: 0 <= i < |finish| ==> !Edge(adj, finish[i], f.node)
    ensures Bases(adj, finish, stack + [f], bases + [|finish|])
  {
    PushReaching(adj, finish, stack, bases, f);
  }

  lemma PushKeepsPassOne(adj: Adjacency, visited: set<int>, finish: seq<int>, blocks: seq<nat>,
                         stack: seq<Frame>, bases: seq<nat>, v: int)
    requires PassOne(adj, visited, finish, blocks, stack, bases)
    requires v in adj && v !in visited
    requires stack == [] || Edge(adj, stack[|stack| - 1].node, v)
    ensures PassOne(adj, visited + {v}, finish, blocks, stack + [Frame(v, 0)], bases + [|finish|])
  {
    PushSplits(visited, finish, stack, v);
    PushAdvances(adj, visited, stack, v);
    PushBases(adj, finish, stack, bases, Frame(v, 0));
  }

  /** Moving a frame's iterator past visited successors. */
  lemma IteratorKeepsPassOne(adj: Adjacency, visited: set<int>, finish: seq<int>, blocks: seq<nat>,
                             stack: seq<Frame>, bases: seq<nat>, j: nat, next: nat)
    requires PassOne(adj, visited, finish, blocks, stack, bases)
    requires j < |stack| && stack[j].node in adj && next <= |adj[stack[j].node]|
    requires forall i :: 0 <= i < next ==> adj[stack[j].node][i] in visited
    ensures PassOne(adj, visited, finish, blocks, stack[j := Frame(stack[j].node, next)], bases)
  {
    var stack' := stack[j := Frame(stack[j].node, next)];
    assert forall m :: 0 <= m < |stack| ==> stack'[m].node == stack[m].node;
    assert VisitedSplit(visited, finish, stack') by {
      forall w ensures OnStack(stack', w) <==> OnStack(stack, w) {
        if OnStack(stack, w) {
          var m :| 0 <= m < |stack| && stack[m].node == w;
          assert stack'[m].node == w;
        }
        if OnStack(stack', w) {
          var m :| 0 <= m < |stack'| && stack'[m].node == w;
          assert stack[m].node == w;
        }
      }
    }
    forall m | 0 <= m < |stack'| ensures FrameAdvances(adj, visited, stack'[m]) {
      assert FrameAdvances(adj, visited, stack[m]);
    }
  }

  lemma RootKeepsPassOne(adj: Adjacency, visited: set<int>, finish: seq<int>, blocks: seq<nat>, root: int)
    requires PassOne(adj, visited, finish, blocks, [], []) && root in adj && root !in visited
    ensures PassOne(adj, visited + {root}, finish, blocks, [Frame(root, 0)], [|finish|])
  {
    PushKeepsPassOne(adj, visited, finish, blocks, [], [], root);
    assert [] + [Frame(root, 0)] == [Frame(root, 0)] && [] + [|finish|] == [|finish|];
  }

  /** The top frame's iterator yields an unvisited successor, which is pushed. */
  lemma AdvanceKeepsPassOne(adj: Adjacency, visited: set<int>, finish: seq<int>, blocks: seq<nat>,
                            stack: seq<Frame>, bases: seq<nat>, next: nat)
    requires Closed(adj) && PassOne(adj, visited, finish, blocks, stack, bases)
    requires stack != []
    requires var node := stack[|stack| - 1].node;
      && node in adj && 0 < next <= |adj[node]| && adj[node][next - 1] !in visited
      && forall i :: 0 <= i < next - 1 ==> adj[node][i] in visited
    ensures var top := |stack| - 1;
      var node := stack[top].node;
      var nxt := adj[node][next - 1];
      PassOne(adj, visited + {nxt}, finish, blocks,
              stack[top := Frame(node, next)] + [Frame(nxt, 0)], bases + [|finish|])
  {
    var top := |stack| - 1;
    var node := stack[top].node;
    var nxt := adj[node][next - 1];
    assert Edge(adj, node, nxt);
    PushKeepsPassOne(adj, visited, finish, blocks, stack, bases, nxt);
    var pushed := stack + [Frame(nxt, 0)];
    IteratorKeepsPassOne(adj, visited + {nxt}, finish, blocks, pushed, bases + [|finish|], top, next);
    assert pushed[top := Frame(node, next)] == stack[top := Frame(node, next)] + [Frame(nxt, 0)];
  }

  lemma FinishKeepsBases(adj: Adjacency, finish: seq<int>, stack: seq<Frame>, bases: seq<nat>)
    requires Bases(adj, finish, stack, bases) && stack != []
    ensures Bases(adj, finish + [stack[|stack| - 1].node], stack[..|stack| - 1], bases[..|stack| - 1])
  {
  }

  lemma FinishKeepsBlocks(adj: Adjacency, finish: seq<int>, blocks: seq<nat>,
                          stack: seq<Frame>, bases: seq<nat>)
    requires Bases(adj, finish, stack, bases) && stack != []
    requires FinishBlocks(adj, finish, blocks) && stack[|stack| - 1].node !in finish
    ensures FinishBlocks(adj, finish + [stack[|stack| - 1].node], blocks + [bases[|stack| - 1]])
  {
    var top := |stack| - 1;
    var v := stack[top].node;
    var finish', blocks' := finish + [v], blocks + [bases[top]];
    forall k | 0 <= k < |finish'| ensures Block(adj, finish', blocks'[k], k) {
      if k < |finish| {
        assert Block(adj, finish, blocks[k], k);
      } else {
        assert Reaches(adj, v, v);
      }
    }
  }

  /** Popping a vertex whose iterator is exhausted appends it to the finish order. */
  lemma PopKeepsPassOne(adj: Adjacency, visited: set<int>, finish: seq<int>, blocks: seq<nat>,
                        stack: seq<Frame>, bases: seq<nat>)
    requires PassOne(adj, visited, finish, blocks, stack, bases)
    requires stack != []
    requires stack[|stack| - 1].node in adj
    requires var top := stack[|stack| - 1]; forall i :: 0 <= i < |adj[top.node]| ==> adj[top.node][i] in visited
    ensures PassOne(adj, visited, finish + [stack[|stack| - 1].node], blocks + [bases[|stack| - 1]],
                    stack[..|stack| - 1], bases[..|stack| - 1])
  {
    var top := |stack| - 1;
    var v := stack[top].node;
    var finish', stack' := finish + [v], stack[..top];
    FinishKeepsBases(adj, finish, stack, bases);
    FinishKeepsBlocks(adj, finish, blocks, stack, bases);
    assert VisitedSplit(visited, finish', stack') by {
      forall w ensures w in visited <==> w in finish' || OnStack(stack', w) {
        if OnStack(stack, w) && w != v {
          var j :| 0 <= j < |stack| && stack[j].node == w;
          assert stack'[j].node == w;
        }
        if OnStack(stack', w) {
          var j :| 0 <= j < |stack'| && stack'[j].node == w;
          assert stack[j].node == w;
        }
        assert OnStack(stack, v);
      }
    }
  }

  /** `for nxt in successors: if nxt not in visited: ... break`, resuming at `start`. */
  method NextUnvisited(successors: seq<int>, start: nat, visited: set<int>) returns (next: nat, advanced: bool)
    requires start <= |successors|
    ensures advanced ==> start <= next - 1 < |successors| && successors[next - 1] !in visited
    ensures !advanced ==> next == |successors|
    ensures forall i :: start <= i < (if advanced then next - 1 else next) ==> successors[i] in visited
  {
    next := start;
    while next < |successors|
      invariant start <= next <= |successors|
      invariant forall i :: start <= i < next ==> successors[i] in visited
    {
      next := next + 1;
      if successors[next - 1] !in visited {
        return next, true;
      }
    }
    advanced := false;
  }

  /** The inner `while stack` loop: everything newly reachable from `root` gets finished. */
  method FinishFrom(adj: Adjacency, root: int, before: set<int>, done: seq<int>, ghost doneBlocks: seq<nat>)
    returns (visited: set<int>, finish: seq<int>, ghost blocks: seq<nat>)
    requires Closed(adj) && root in adj && root !in before
    requires PassOne(adj, before, done, doneBlocks, [], [])
    ensures PassOne(adj, visited, finish, blocks, [], [])
    ensures before + {root} <= visited
  {
    visited, finish, blocks := before + {root}, done, doneBlocks;
    var stack := [Frame(root, 0)];
    ghost var bases: seq<nat> := [|finish|];
    RootKeepsPassOne(adj, before, finish, blocks, root);
    while stack != []
      invariant PassOne(adj, visited, finish, blocks, stack, bases)
      invariant before + {root} <= visited
      decreases adj.Keys - visited, |stack|
    {
      var top := |stack| - 1;
      var node := stack[top].node;
      assert FrameAdvances(adj, visited, stack[top]);
      var next, advanced := NextUnvisited(adj[node], stack[top].next, visited);
      if advanced {
        var nxt := adj[node][next - 1];
        AdvanceKeepsPassOne(adj, visited, finish, blocks, stack, bases, next);
        visited, bases := visited + {nxt}, bases + [|finish|];
        stack := stack[top := Frame(node, next)] + [Frame(nxt, 0)];
      } else {
        PopKeepsPassOne(adj, visited, finish, blocks, stack, bases);
        finish, blocks := finish + [node], blocks + [bases[top]];
        stack, bases := stack[..top], bases[..top];
      }
    }
    assert bases == [];
  }

  method FinishOrder(adj: Adjacency, order: seq<int>) returns (finish: seq<int>, ghost blocks: seq<nat>)
    requires Closed(adj) && Elements(order) == adj.Keys
    ensures FinishBlocks(adj, finish, blocks)
    ensures Elements(finish) == adj.Keys
  {
    var visited: set<int> := {};
    finish, blocks := [], [];
    for r := 0 to |order|
      invariant PassOne(adj, visited, finish, blocks, [], [])
      invariant forall i :: 0 <= i < r ==> order[i] in visited
    {
      if order[r] !in visited {
        assert order[r] in Elements(order);
        visited, finish, blocks := FinishFrom(adj, order[r], visited, finish, blocks);
      }
    }
    forall v ensures v in Elements(finish) <==> v in adj.Keys {
      if v in adj.Keys { assert v in Elements(order); }
      assert !OnStack([], v);
    }
  }

  // ---- pass 2: backward searches in reverse finish order

  ghost predicate IsReverse(adj: Adjacency, rev: Adjacency) {
    rev.Keys == adj.Keys && forall u, v :: v in rev ==> (u in rev[v] <==> Edge(adj, u, v))
  }

  method Reversed(adj: Adjacency, order: seq<int>) returns (rev: Adjacency)
    requires Closed(adj) && Elements(order) == adj.Keys
    ensures IsReverse(adj, rev)
  {
    rev := map v | v in adj :: [];
    for r := 0 to |order|
      invariant rev.Keys == adj.Keys
      invariant forall u, v :: v in rev ==> (u in rev[v] <==> Edge(adj, u, v) && u in order[..r])
    {
      var node := order[r];
      assert node in Elements(order);
      assert order[..r + 1] == order[..r] + [node];
      for t := 0 to |adj[node]|
        invariant rev.Keys == adj.Keys
        invariant forall u, v :: v in rev ==>
          (u in rev[v] <==> (Edge(adj, u, v) && u in order[..r]) || (u == node && v in adj[node][..t]))
      {
        var target := adj[node][t];
        assert Edge(adj, node, target);
        assert adj[node][..t + 1] == adj[node][..t] + [target];
        rev := rev[target := rev[target] + [node]];
      }
      assert adj[node][..|adj[node]|] == adj[node];
    }
    assert order[..|order|] == order;
    forall u, v | v in rev && Edge(adj, u, v) ensures u in order { assert u in Elements(order); }
  }

  /** The components found so far: each a whole class, none twice, `seen` their union. */
  ghost predicate Assembled(adj: Adjacency, comps: seq<seq<int>>, seen: set<int>) {
    && (forall i :: 0 <= i < |comps| ==> IsClassList(adj, comps[i]))
    && (forall i, j :: 0 <= i < j < |comps| ==> Elements(comps[i]) !! Elements(comps[j]))
    && (forall v :: v in seen <==> Listed(comps, v))
  }

  ghost predicate ClassClosed(adj: Adjacency, seen: set<int>) {
    forall x, y :: x in seen && Mutual(adj, x, y) && y in adj ==> y in seen
  }

  lemma AssembledIsClassClosed(adj: Adjacency, comps: seq<seq<int>>, seen: set<int>)
    requires Assembled(adj, comps, seen)
    ensures ClassClosed(adj, seen)
  {
    forall x, y | x in seen && Mutual(adj, x, y) && y in adj ensures y in seen {
      assert Listed(comps, x);
      var i :| 0 <= i < |comps| && x in comps[i];
      assert IsClassList(adj, comps[i]);
      assert x in Elements(comps[i]);
      ClassesAgree(adj, comps[i][0], x);
      assert y in Elements(comps[i]);
      assert Listed(comps, y);
    }
  }

  ghost predicate InBlock(finish: seq<int>, b: nat, k: nat, x: int) {
    exists i :: b <= i <= k && i < |finish| && finish[i] == x
  }

  /** A component under construction from root finish[k], all of it inside the root's block. */
  ghost predicate Growing(adj: Adjacency, finish: seq<int>, b: nat, k: nat,
                          before: set<int>, seen: set<int>, comp: seq<int>)
  {
    && k < |finish|
    && |comp| > 0 && comp[0] == finish[k]
    && Distinct(comp)
    && Elements(comp) !! before
    && seen == before + Elements(comp)
    && (forall x :: x in comp ==> InBlock(finish, b, k, x) && Reaches(adj, x, finish[k]))
  }

  ghost predicate PredecessorsSeen(adj: Adjacency, seen: set<int>, x: int) {
    forall p :: Edge(adj, p, x) ==> p in seen
  }

  /** The block keeps the search inside: an unseen predecessor of a member is in the block. */
  lemma GrowKeeps(adj: Adjacency, finish: seq<int>, b: nat, k: nat,
                  before: set<int>, seen: set<int>, comp: seq<int>, x: int, p: int)
    requires Growing(adj, finish, b, k, before, seen, comp) && Block(adj, finish, b, k)
    requires Elements(finish) == adj.Keys
    requires forall i :: k < i < |finish| ==> finish[i] in before
    requires x in comp && Edge(adj, p, x) && p !in seen
    ensures Growing(adj, finish, b, k, before, seen + {p}, comp + [p])
  {
    assert p in Elements(finish);
    var j :| b <= j <= k && j < |finish| && finish[j] == x;
    forall i | 0 <= i < b ensures finish[i] != p {
      assert !Edge(adj, finish[i], finish[j]);
    }
    var i :| 0 <= i < |finish| && finish[i] == p;
    assert b <= i <= k;
    assert InBlock(finish, b, k, p);
    ReachEdge(adj, p, x);
    ReachTransitive(adj, p, x, finish[k]);
    assert p in comp ==> p in Elements(comp);
    assert Elements(comp + [p]) == Elements(comp) + {p};
  }

  lemma {:induction false} BackwardClosure(adj: Adjacency, w: seq<int>, before: set<int>, seen: set<int>,
                                           comp: seq<int>, m: nat)
    requires Closed(adj) && IsWalk(adj, w) && m < |w| && w[|w| - 1] in comp
    requires seen == before + Elements(comp)
    requires forall x :: x in comp ==> PredecessorsSeen(adj, seen, x)
    requires forall i :: 0 <= i < |w| ==> w[i] !in before
    ensures w[m] in comp
    decreases |w| - m
  {
    if m == |w| - 1 {
    } else {
      BackwardClosure(adj, w, before, seen, comp, m + 1);
      assert Edge(adj, w[m], w[m + 1]);
      assert w[m] in seen;
    }
  }

  lemma GrownIsClass(adj: Adjacency, finish: seq<int>, b: nat, k: nat,
                     before: set<int>, seen: set<int>, comp: seq<int>)
    requires Closed(adj) && Growing(adj, finish, b, k, before, seen, comp) && Block(adj, finish, b, k)
    requires ClassClosed(adj, before) && finish[k] in adj
    requires forall x :: x in comp ==> PredecessorsSeen(adj, seen, x)
    ensures IsClassList(adj, comp)
  {
    var root := finish[k];
    assert comp[0] in comp;
    assert root in Elements(comp);
    forall y ensures y in Elements(comp) <==> y in Class(adj, root) {
      if y in comp {
        assert InBlock(finish, b, k, y);
        assert Reaches(adj, root, y) && Reaches(adj, y, root);
        ReachEnds(adj, root, y);
      }
      if y in Class(adj, root) {
        assert Mutual(adj, root, y);
        var w :| WalkFromTo(adj, w, y, root);
        forall i | 0 <= i < |w| ensures w[i] !in before {
          WalkSegment(adj, w, 0, i);
          WalkSegment(adj, w, i, |w| - 1);
          ReachTransitive(adj, root, y, w[i]);
          assert Mutual(adj, w[i], root);
        }
        BackwardClosure(adj, w, before, seen, comp, 0);
      }
    }
  }

  lemma AppendKeepsAssembled(adj: Adjacency, comps: seq<seq<int>>, before: set<int>, comp: seq<int>)
    requires Assembled(adj, comps, before)
    requires IsClassList(adj, comp) && Elements(comp) !! before
    ensures Assembled(adj, comps + [comp], before + Elements(comp))
  {
    var comps' := comps + [comp];
    forall v ensures v in before + Elements(comp) <==> Listed(comps', v) {
      if Listed(comps, v) {
        var i :| 0 <= i < |comps| && v in comps[i];
        assert v in comps'[i];
      }
      if v in comp { assert v in comps'[|comps|]; }
      if Listed(comps', v) {
        var i :| 0 <= i < |comps'| && v in comps'[i];
        if i < |comps| { assert v in comps[i]; }
      }
    }
    forall i | 0 <= i < |comps| ensures Elements(comps[i]) !! Elements(comp) {
      forall v | v in Elements(comps[i]) ensures v in before { assert Listed(comps, v); }
    }
  }

  /** `for predecessor in reversed_adjacency[node]`: unseen ones join the component and the stack. */
  method Absorb(ghost adj: Adjacency, predecessors: seq<int>, ghost finish: seq<int>, ghost b: nat, ghost k: nat,
                ghost before: set<int>, seen0: set<int>, comp0: seq<int>, stack0: seq<int>, ghost node: int)
    returns (seen: set<int>, comp: seq<int>, stack: seq<int>)
    requires Growing(adj, finish, b, k, before, seen0, comp0) && Block(adj, finish, b, k)
    requires Elements(finish) == adj.Keys
    requires forall i :: k < i < |finish| ==> finish[i] in before
    requires node in comp0 && forall p :: p in predecessors <==> Edge(adj, p, node)
    requires forall x :: x in stack0 ==> x in comp0
    requires forall x :: x in comp0 ==> x == node || x in stack0 || PredecessorsSeen(adj, seen0, x)
    ensures Growing(adj, finish, b, k, before, seen, comp)
    ensures forall x :: x in stack ==> x in comp
    ensures forall x :: x in comp ==> x in stack || PredecessorsSeen(adj, seen, x)
    ensures seen0 <= seen && (seen == seen0 ==> |stack| == |stack0|)
  {
    seen, comp, stack := seen0, comp0, stack0;
    for i := 0 to |predecessors|
      invariant Growing(adj, finish, b, k, before, seen, comp)
      invariant node in comp && seen0 <= seen && (seen == seen0 ==> |stack| == |stack0|)
      invariant forall x :: x in stack ==> x in comp
      invariant forall x :: x in comp ==> x == node || x in stack || PredecessorsSeen(adj, seen, x)
      invariant forall j :: 0 <= j < i ==> predecessors[j] in seen
    {
      var p := predecessors[i];
      if p !in seen {
        GrowKeeps(adj, finish, b, k, before, seen, comp, node, p);
        seen, comp, stack := seen + {p}, comp + [p], stack + [p];
      }
    }
  }

  method BackwardComponent(ghost adj: Adjacency, rev: Adjacency, ghost finish: seq<int>, ghost b: nat, ghost k: nat,
                           root: int, before: set<int>)
    returns (seen: set<int>, comp: seq<int>)
    requires Closed(adj) && IsReverse(adj, rev) && Elements(finish) == adj.Keys
    requires Block(adj, finish, b, k) && root == finish[k] && root !in before && root in adj
    requires forall i :: k < i < |finish| ==> finish[i] in before
    requires ClassClosed(adj, before)
    ensures IsClassList(adj, comp) && Elements(comp) !! before
    ensures seen == before + Elements(comp) && root in seen
  {
    seen, comp := before + {root}, [root];
    var stack := [root];
    ReachSelf(adj, root);
    assert InBlock(finish, b, k, root);
    assert Elements(comp) == {root};
    while stack != []
      invariant Growing(adj, finish, b, k, before, seen, comp)
      invariant forall x :: x in stack ==> x in comp
      invariant forall x :: x in comp ==> x in stack || PredecessorsSeen(adj, seen, x)
      decreases adj.Keys - seen, |stack|
    {
      var node := stack[|stack| - 1];
      assert node in comp && InBlock(finish, b, k, node);
      assert node in Elements(finish);
      ghost var was := seen;
      seen, comp, stack := Absorb(adj, rev[node], finish, b, k, before, seen, comp, stack[..|stack| - 1], node);
      GrowingInside(adj, finish, b, k, before, seen, comp);
    }
    GrownIsClass(adj, finish, b, k, before, seen, comp);
    assert comp[0] in Elements(comp);
  }

  lemma GrowingInside(adj: Adjacency, finish: seq<int>, b: nat, k: nat,
                      before: set<int>, seen: set<int>, comp: seq<int>)
    requires Growing(adj, finish, b, k, before, seen, comp) && Elements(finish) == adj.Keys
    ensures seen - before <= adj.Keys
  {
    forall x | x in comp ensures x in adj.Keys {
      assert InBlock(finish, b, k, x);
      assert x in Elements(finish);
    }
  }

  method AddComponent(ghost adj: Adjacency, rev: Adjacency, finish: seq<int>, ghost b: nat, k: nat,
                      comps: seq<seq<int>>, before: set<int>)
    returns (seen: set<int>, more: seq<seq<int>>)
    requires Closed(adj) && IsReverse(adj, rev) && Elements(finish) == adj.Keys
    requires Block(adj, finish, b, k) && finish[k] !in before && finish[k] in adj
    requires forall i :: k < i < |finish| ==> finish[i] in before
    requires Assembled(adj, comps, before)
    ensures Assembled(adj, more, seen) && before + {finish[k]} <= seen
  {
    AssembledIsClassClosed(adj, comps, before);
    var comp;
    seen, comp := BackwardComponent(adj, rev, finish, b, k, finish[k], before);
    AppendKeepsAssembled(adj, comps, before, comp);
    more := comps + [comp];
  }

  lemma AllListed(adj: Adjacency, comps: seq<seq<int>>, seen: set<int>, finish: seq<int>)
    requires Assembled(adj, comps, seen) && Elements(finish) == adj.Keys
    requires forall i :: 0 <= i < |finish| ==> finish[i] in seen
    ensures IsSccList(adj, comps)
  {
    forall v | v in adj ensures Listed(comps, v) { assert v in Elements(finish); }
  }

  /** Kosaraju's two passes. `order` is the iteration order of the dictionary. */
  method StronglyConnectedComponents(adj: Adjacency, order: seq<int>) returns (comps: seq<seq<int>>)
    requires Closed(adj) && Elements(order) == adj.Keys
    ensures IsSccList(adj, comps)
  {
    var finish, blocks := FinishOrder(adj, order);
    var rev := Reversed(adj, order);
    comps := [];
    var seen: set<int> := {};
    var k := |finish|;
    while k > 0
      invariant 0 <= k <= |finish|
      invariant Assembled(adj, comps, seen)
      invariant forall i :: k <= i < |finish| ==> finish[i] in seen
    {
      k := k - 1;
      var root := finish[k];
      assert root in Elements(finish);
      if root !in seen {
        seen, comps := AddComponent(adj, rev, finish, blocks[k], k, comps, seen);
      }
    }
    AllListed(adj, comps, seen, finish);
  }
}
