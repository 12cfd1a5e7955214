/** Directed graphs as adjacency lists: walks, mutual reachability, elementary cycles. */
module Graphs {
  import opened Sorting

  type Adjacency = map<int, seq<int>>

  predicate Edge(adj: Adjacency, u: int, v: int) {
    u in adj && v in adj[u]
  }

  /** Every target is itself a key. */
  ghost predicate Closed(adj: Adjacency) {
    forall u, v :: Edge(adj, u, v) ==> v in adj
  }

  // ---- reachability

  ghost predicate IsWalk(adj: Adjacency, p: seq<int>) {
    && |p| > 0
    && p[0] in adj
    && forall i :: 0 <= i < |p| - 1 ==> Edge(adj, p[i], p[i + 1])
  }

  ghost predicate WalkFromTo(adj: Adjacency, p: seq<int>, u: int, v: int) {
    IsWalk(adj, p) && p[0] == u && p[|p| - 1] == v
  }

  ghost predicate Reaches(adj: Adjacency, u: int, v: int) {
    exists p :: WalkFromTo(adj, p, u, v)
  }

  ghost predicate Mutual(adj: Adjacency, u: int, v: int) {
    Reaches(adj, u, v) && Reaches(adj, v, u)
  }

  /** The vertices that reach `v` and are reached from it. */
  ghost function Class(adj: Adjacency, v: int): set<int> {
    set w | w in adj && Mutual(adj, v, w)
  }

  lemma ReachSelf(adj: Adjacency, u: int)
    requires u in adj
    ensures Reaches(adj, u, u)
  {
    assert WalkFromTo(adj, [u], u, u);
  }

  lemma ReachEdge(adj: Adjacency, u: int, v: int)
    requires Edge(adj, u, v)
    ensures Reaches(adj, u, v)
  {
    assert WalkFromTo(adj, [u, v], u, v);
  }

  lemma ReachTransitive(adj: Adjacency, u: int, v: int, w: int)
    requires Reaches(adj, u, v) && Reaches(adj, v, w)
    ensures Reaches(adj, u, w)
  {
    var p :| WalkFromTo(adj, p, u, v);
    var q :| WalkFromTo(adj, q, v, w);
    var r := p + q[1..];
    forall i | 0 <= i < |r| - 1 ensures Edge(adj, r[i], r[i + 1]) {
      if i >= |p| - 1 {
        assert r[i] == q[i - (|p| - 1)] && r[i + 1] == q[i + 1 - (|p| - 1)];
      }
    }
    assert WalkFromTo(adj, r, u, w);
  }

  lemma ReachEnds(adj: Adjacency, u: int, v: int)
    requires Closed(adj) && Reaches(adj, u, v)
    ensures u in adj && v in adj
  {
    var p :| WalkFromTo(adj, p, u, v);
    if |p| > 1 {
      assert Edge(adj, p[|p| - 2], p[|p| - 2 + 1]);
    }
  }

  lemma WalkSegment(adj: Adjacency, p: seq<int>, i: nat, j: nat)
    requires Closed(adj) && IsWalk(adj, p) && i <= j < |p|
    ensures Reaches(adj, p[i], p[j])
  {
    var q := p[i..j + 1];
    if i > 0 { assert Edge(adj, p[i - 1], p[i - 1 + 1]); }
    forall k | 0 <= k < |q| - 1 ensures Edge(adj, q[k], q[k + 1]) {
      assert Edge(adj, p[i + k], p[i + k + 1]);
    }
    assert WalkFromTo(adj, q, p[i], p[j]);
  }

  lemma ClassesAgree(adj: Adjacency, u: int, v: int)
    requires Mutual(adj, u, v)
    ensures Class(adj, u) == Class(adj, v)
  {
    forall w ensures w in Class(adj, u) <==> w in Class(adj, v) {
      if w in Class(adj, u) {
        ReachTransitive(adj, v, u, w);
        ReachTransitive(adj, w, u, v);
      }
      if w in Class(adj, v) {
        ReachTransitive(adj, u, v, w);
        ReachTransitive(adj, w, v, u);
      }
    }
  }

  // ---- elementary cycles

  /** A list of distinct vertices, each with an edge to the next, the last back to the first.
      A self-loop is the one-member cycle. */
  ghost predicate ElementaryCycle(adj: Adjacency, c: seq<int>) {
    && |c| > 0
    && Distinct(c)
    && (forall i :: 0 <= i < |c| - 1 ==> Edge(adj, c[i], c[i + 1]))
    && Edge(adj, c[|c| - 1], c[0])
  }

  /** Rotated so that the least member comes first. */
  predicate LeastFirst(c: seq<int>) {
    forall i :: 0 < i < |c| ==> c[0] < c[i]
  }

  ghost predicate Cycle(adj: Adjacency, c: seq<int>) {
    ElementaryCycle(adj, c) && LeastFirst(c)
  }

  ghost predicate CycleWithin(adj: Adjacency, members: set<int>, c: seq<int>) {
    Cycle(adj, c) && forall i :: 0 <= i < |c| ==> c[i] in members
  }

  lemma {:induction false} CycleIsMutual(adj: Adjacency, c: seq<int>, i: nat, j: nat)
    requires Closed(adj) && ElementaryCycle(adj, c) && i < |c| && j < |c|
    ensures Mutual(adj, c[i], c[j])
  {
    assert IsWalk(adj, c);
    if i <= j {
      WalkSegment(adj, c, i, j);
      WalkSegment(adj, c, j, |c| - 1);
      ReachEdge(adj, c[|c| - 1], c[0]);
      WalkSegment(adj, c, 0, i);
      ReachTransitive(adj, c[j], c[|c| - 1], c[0]);
      ReachTransitive(adj, c[j], c[0], c[i]);
    } else {
      CycleIsMutual(adj, c, j, i);
    }
  }

  /** An elementary cycle lies wholly inside one strongly connected component. */
  lemma CycleInOneClass(adj: Adjacency, c: seq<int>)
    requires Closed(adj) && Cycle(adj, c)
    ensures CycleWithin(adj, Class(adj, c[0]), c)
  {
    forall i | 0 <= i < |c| ensures c[i] in Class(adj, c[0]) {
      CycleIsMutual(adj, c, 0, i);
      ReachEnds(adj, c[0], c[i]);
    }
  }

  ghost function Rotated(c: seq<int>, k: nat): seq<int>
    requires k < |c|
  {
    c[k..] + c[..k]
  }

  lemma RotationIsCycle(adj: Adjacency, c: seq<int>, k: nat)
    requires ElementaryCycle(adj, c) && k < |c|
    ensures ElementaryCycle(adj, Rotated(c, k))
  {
    var r := Rotated(c, k);
    var n := |c|;
    forall i | 0 <= i < n - 1 ensures Edge(adj, r[i], r[i + 1]) {
      if i + k < n - 1 {
        assert Edge(adj, c[i + k], c[i + k + 1]);
      } else if i + k == n - 1 {
        assert r[i] == c[n - 1] && r[i + 1] == c[0];
      } else {
        assert Edge(adj, c[i + k - n], c[i + k - n + 1]);
      }
    }
    if k > 0 { assert Edge(adj, c[k - 1], c[k - 1 + 1]); }
  }

  lemma LeastIndex(c: seq<int>) returns (k: nat)
    requires |c| > 0
    ensures k < |c| && forall i :: 0 <= i < |c| ==> c[k] <= c[i]
  {
    k := 0;
    for j := 0 to |c|
      invariant k < |c| && forall i :: 0 <= i < j ==> c[k] <= c[i]
    {
      if c[j] < c[k] { k := j; }
    }
  }

  lemma RotatedElements(c: seq<int>, k: nat)
    requires k < |c|
    ensures Elements(Rotated(c, k)) == Elements(c)
  {
    assert c == c[..k] + c[k..];
    forall x ensures x in Rotated(c, k) <==> x in c { assert x in c <==> x in c[..k] || x in c[k..]; }
  }

  /** Every elementary cycle has a rotation with its least member first. */
  lemma RotateLeastFirst(adj: Adjacency, c: seq<int>) returns (r: seq<int>)
    requires ElementaryCycle(adj, c)
    ensures Cycle(adj, r) && |r| == |c| && Elements(r) == Elements(c)
  {
    var k := LeastIndex(c);
    r := Rotated(c, k);
    RotationIsCycle(adj, c, k);
    forall i | 0 < i < |r| ensures r[0] < r[i] {
      assert r[0] == c[k];
      assert r[i] == if i + k < |c| then c[i + k] else c[i + k - |c|];
      assert r[i] != r[0];
    }
    RotatedElements(c, k);
  }

  // ---- a finite set nobody can leave contains a cycle

  ghost predicate HasSuccessorIn(adj: Adjacency, s: set<int>, v: int) {
    exists w :: w in s && Edge(adj, v, w)
  }

  lemma SimplePathFits(p: seq<int>, s: set<int>)
    requires Distinct(p) && forall i :: 0 <= i < |p| ==> p[i] in s
    ensures |p| <= |s|
    decreases |p|
  {
    if p == [] {
    } else {
      var q := p[..|p| - 1];
      var last := p[|p| - 1];
      forall i | 0 <= i < |q| ensures q[i] in s - {last} { assert q[i] == p[i]; }
      SimplePathFits(q, s - {last});
    }
  }

  ghost predicate SimplePathIn(adj: Adjacency, s: set<int>, path: seq<int>) {
    && |path| > 0
    && Distinct(path)
    && (forall i :: 0 <= i < |path| ==> path[i] in s)
    && (forall i :: 0 <= i < |path| - 1 ==> Edge(adj, path[i], path[i + 1]))
  }

  lemma SingletonPath(adj: Adjacency, s: set<int>, v: int)
    requires v in s
    ensures SimplePathIn(adj, s, [v])
  {
  }

  lemma LoopClosed(adj: Adjacency, s: set<int>, path: seq<int>, k: nat) returns (c: seq<int>)
    requires SimplePathIn(adj, s, path) && k < |path| && Edge(adj, path[|path| - 1], path[k])
    ensures CycleWithin(adj, s, c)
  {
    var loop := path[k..];
    forall i | 0 <= i < |loop| - 1 ensures Edge(adj, loop[i], loop[i + 1]) {
      assert Edge(adj, path[k + i], path[k + i + 1]);
    }
    c := RotateLeastFirst(adj, loop);
    forall i | 0 <= i < |c| ensures c[i] in s {
      assert c[i] in Elements(c);
      assert c[i] in loop;
    }
  }

  lemma PathExtended(adj: Adjacency, s: set<int>, path: seq<int>, w: int)
    requires SimplePathIn(adj, s, path) && w in s && w !in path && Edge(adj, path[|path| - 1], w)
    ensures SimplePathIn(adj, s, path + [w])
  {
    var longer := path + [w];
    forall i | 0 <= i < |longer| - 1 ensures Edge(adj, longer[i], longer[i + 1]) {
      if i < |path| - 1 { assert Edge(adj, path[i], path[i + 1]); }
    }
  }

  /** If every member of a non-empty finite set has a successor inside the set, the set
      contains an elementary cycle. */
  lemma {:induction false} TrappedSetHasCycle(adj: Adjacency, s: set<int>, path: seq<int>)
    returns (c: seq<int>)
    requires forall v :: v in s ==> HasSuccessorIn(adj, s, v)
    requires SimplePathIn(adj, s, path)
    ensures CycleWithin(adj, s, c)
    decreases |s| - |path|
  {
    SimplePathFits(path, s);
    var last := path[|path| - 1];
    assert HasSuccessorIn(adj, s, last);
    var w :| w in s && Edge(adj, last, w);
    if w in path {
      var k :| 0 <= k < |path| && path[k] == w;
      c := LoopClosed(adj, s, path, k);
    } else {
      PathExtended(adj, s, path, w);
      SimplePathFits(path + [w], s);
      c := TrappedSetHasCycle(adj, s, path + [w]);
    }
  }

  /** A strongly connected component with two members contains an elementary cycle. */
  lemma NontrivialClassHasCycle(adj: Adjacency, u: int, v: int) returns (c: seq<int>)
    requires Closed(adj) && u != v && Mutual(adj, u, v)
    ensures CycleWithin(adj, Class(adj, u), c)
  {
    var s := Class(adj, u);
    ReachEnds(adj, u, v);
    ReachSelf(adj, u);
    forall x | x in s ensures HasSuccessorIn(adj, s, x) {
      var y := if x == u then v else u;
      assert Mutual(adj, u, x);
      var p :| WalkFromTo(adj, p, x, y);
      assert Edge(adj, p[0], p[0 + 1]);
      ReachEdge(adj, x, p[1]);
      WalkSegment(adj, p, 1, |p| - 1);
      ReachTransitive(adj, u, x, p[1]);
      ReachTransitive(adj, p[1], y, u);
      assert p[1] in s;
    }
    SingletonPath(adj, s, u);
    c := TrappedSetHasCycle(adj, s, [u]);
  }
}
