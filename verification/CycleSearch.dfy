/** `_component_cycles`: the anchored depth-first search inside one component, with its
    cycle cap and step budget.

    The uncapped search is described by its trace: one event per edge expansion, in order.
    The method is proved to process exactly the part of that trace the caps allow; the
    lemmas say what the cycles in the trace are. */
module CycleSearch {
  import opened Sorting
  import opened Graphs

  // ---- the uncapped search

  /** What one edge expansion yields: a cycle, or nothing. */
  type Event = Option<seq<int>>

  function Last(path: seq<int>): int
    requires path != []
  {
    path[|path| - 1]
  }

  ghost predicate OnPath(members: set<int>, path: seq<int>) {
    path != [] && Distinct(path) && forall i :: 0 <= i < |path| ==> path[i] in members
  }

  /** A successor the search descends into. */
  predicate Enters(members: set<int>, path: seq<int>, nxt: int)
    requires path != []
  {
    nxt > path[0] && nxt in members && nxt !in path
  }

  lemma EnterKeepsPath(members: set<int>, path: seq<int>, nxt: int)
    requires OnPath(members, path) && Enters(members, path, nxt)
    ensures OnPath(members, path + [nxt]) && |path| < |members|
  {
    SimplePathFits(path + [nxt], members);
  }

  /** Events from the i-th successor of the path's end onward, deeper levels included. */
  ghost function Trace(adj: Adjacency, members: set<int>, path: seq<int>, i: nat): seq<Event>
    requires members <= adj.Keys && OnPath(members, path) && i <= |adj[Last(path)]|
    decreases |members| - |path|, |adj[Last(path)]| - i
  {
    if i == |adj[Last(path)]| then []
    else
      var nxt := adj[Last(path)][i];
      if nxt == path[0] then [Some(path)] + Trace(adj, members, path, i + 1)
      else if Enters(members, path, nxt) then
        EnterKeepsPath(members, path, nxt);
        [None] + Trace(adj, members, path + [nxt], 0) + Trace(adj, members, path, i + 1)
      else [None] + Trace(adj, members, path, i + 1)
  }

  /** One search per anchor, in the given order. */
  ghost function TraceFrom(adj: Adjacency, members: set<int>, starts: seq<int>): seq<Event>
    requires members <= adj.Keys && forall i :: 0 <= i < |starts| ==> starts[i] in members
  {
    if starts == [] then []
    else
      Trace(adj, members, [starts[0]], 0) + TraceFrom(adj, members, starts[1..])
  }

  ghost function ComponentTrace(adj: Adjacency, members: set<int>): seq<Event>
    requires members <= adj.Keys
  {
    TraceFrom(adj, members, SortedOf(members))
  }

  ghost function Yield(e: Event): seq<seq<int>> {
    if e.Some? then [e.value] else []
  }

  ghost function Emitted(events: seq<Event>): seq<seq<int>> {
    if events == [] then [] else Yield(events[0]) + Emitted(events[1..])
  }

  /** Every cycle the search would report with no caps. */
  ghost function AllCycles(adj: Adjacency, members: set<int>): seq<seq<int>>
    requires members <= adj.Keys
  {
    Emitted(ComponentTrace(adj, members))
  }

  lemma EmittedFirst(e: Event, rest: seq<Event>)
    ensures Emitted([e] + rest) == Yield(e) + Emitted(rest)
  {
    var all := [e] + rest;
    assert all[0] == e && all[1..] == rest;
  }

  lemma {:induction false} EmittedAppend(a: seq<Event>, b: seq<Event>)
    ensures Emitted(a + b) == Emitted(a) + Emitted(b)
  {
    if a == [] {
      assert a + b == b;
    } else {
      var e, rest := a[0], a[1..];
      assert a + b == [e] + (rest + b);
      EmittedFirst(e, rest + b);
      EmittedAppend(rest, b);
      Reassociate(Yield(e), Emitted(rest), Emitted(b));
    }
  }

  // ---- the caps

  datatype Enumeration = Enumeration(cycles: seq<seq<int>>, truncated: bool, steps: nat)

  /** Expansion number s (from 0) is counted but not processed. */
  ghost predicate Refused(trace: seq<Event>, s: nat, cycleLimit: Option<nat>, stepBudget: Option<int>)
    requires s < |trace|
  {
    || (stepBudget.Some? && s + 1 >= stepBudget.value)
    || (cycleLimit.Some? && |Emitted(trace[..s])| > cycleLimit.value)
  }

  ghost function StopAt(trace: seq<Event>, s: nat, cycleLimit: Option<nat>, stepBudget: Option<int>): (stop: nat)
    requires s <= |trace|
    ensures s <= stop <= |trace|
    ensures forall j :: s <= j < stop ==> !Refused(trace, j, cycleLimit, stepBudget)
    ensures stop < |trace| ==> Refused(trace, stop, cycleLimit, stepBudget)
    decreases |trace| - s
  {
    if s == |trace| || Refused(trace, s, cycleLimit, stepBudget) then s
    else StopAt(trace, s + 1, cycleLimit, stepBudget)
  }

  function AtMost<T>(xs: seq<T>, limit: Option<nat>): seq<T> {
    if limit.Some? && limit.value < |xs| then xs[..limit.value] else xs
  }

  ghost function Capped(trace: seq<Event>, cycleLimit: Option<nat>, stepBudget: Option<int>): Enumeration {
    var stop := StopAt(trace, 0, cycleLimit, stepBudget);
    var found := Emitted(trace[..stop]);
    Enumeration(AtMost(found, cycleLimit),
                stop < |trace| || (cycleLimit.Some? && |found| > cycleLimit.value),
                if stop < |trace| then stop + 1 else stop)
  }

  // ---- the search itself

  ghost predicate ValidStack(adj: Adjacency, members: set<int>, path: seq<int>, its: seq<nat>) {
    && members <= adj.Keys
    && |its| == |path|
    && Distinct(path)
    && (forall i :: 0 <= i < |path| ==> path[i] in members && its[i] <= |adj[path[i]]|)
  }

  /** What is left of the current anchor's search: every open iterator, innermost first. */
  ghost function Rest(adj: Adjacency, members: set<int>, path: seq<int>, its: seq<nat>): seq<Event>
    requires ValidStack(adj, members, path, its)
  {
    if path == [] then []
    else
      var n := |path| - 1;
      Trace(adj, members, path, its[n]) + Rest(adj, members, path[..n], its[..n])
  }

  ghost function NextEvent(path: seq<int>, nxt: int): Event
    requires path != []
  {
    if nxt == path[0] then Some(path) else None
  }

  /** Moving the innermost iterator on. */
  lemma RestAdvanced(adj: Adjacency, members: set<int>, path: seq<int>, its: seq<nat>, its': seq<nat>)
    requires ValidStack(adj, members, path, its) && path != []
    requires its[|path| - 1] < |adj[Last(path)]|
    requires its' == its[|path| - 1 := its[|path| - 1] + 1]
    ensures var n := |path| - 1;
      && ValidStack(adj, members, path, its') && ValidStack(adj, members, path[..n], its[..n])
      && Rest(adj, members, path, its')
      == Trace(adj, members, path, its[n] + 1) + Rest(adj, members, path[..n], its[..n])
  {
    assert its'[..|path| - 1] == its[..|path| - 1];
  }

  /** Opening an iterator at the end of the path. */
  lemma RestPushed(adj: Adjacency, members: set<int>, path: seq<int>, its: seq<nat>, nxt: int)
    requires ValidStack(adj, members, path, its) && path != [] && Enters(members, path, nxt)
    ensures ValidStack(adj, members, path + [nxt], its + [0]) && OnPath(members, path + [nxt])
    ensures Rest(adj, members, path + [nxt], its + [0])
         == Trace(adj, members, path + [nxt], 0) + Rest(adj, members, path, its)
  {
    EnterKeepsPath(members, path, nxt);
    var deeper, itsDeeper := path + [nxt], its + [0];
    assert deeper[..|path|] == path && itsDeeper[..|path|] == its;
  }

  lemma TraceDescends(adj: Adjacency, members: set<int>, path: seq<int>, i: nat)
    requires members <= adj.Keys && OnPath(members, path) && i < |adj[Last(path)]|
    requires adj[Last(path)][i] != path[0] && Enters(members, path, adj[Last(path)][i])
    ensures var deeper := path + [adj[Last(path)][i]];
      && OnPath(members, deeper)
      && Trace(adj, members, path, i) == [None] + Trace(adj, members, deeper, 0) + Trace(adj, members, path, i + 1)
  {
    EnterKeepsPath(members, path, adj[Last(path)][i]);
  }

  lemma TraceStays(adj: Adjacency, members: set<int>, path: seq<int>, i: nat)
    requires members <= adj.Keys && OnPath(members, path) && i < |adj[Last(path)]|
    requires adj[Last(path)][i] == path[0] || !Enters(members, path, adj[Last(path)][i])
    ensures Trace(adj, members, path, i) == [NextEvent(path, adj[Last(path)][i])] + Trace(adj, members, path, i + 1)
  {
  }

  lemma RestSplits(adj: Adjacency, members: set<int>, path: seq<int>, its: seq<nat>)
    requires ValidStack(adj, members, path, its) && path != []
    ensures var n := |path| - 1;
      && ValidStack(adj, members, path[..n], its[..n])
      && Rest(adj, members, path, its) == Trace(adj, members, path, its[n]) + Rest(adj, members, path[..n], its[..n])
  {
  }

  lemma Regroup(all: seq<Event>, now: seq<Event>, below: seq<Event>, deeper: seq<Event>, next: seq<Event>,
                advanced: seq<Event>, pushed: seq<Event>)
    requires all == now + below && now == [None] + deeper + next
    requires advanced == next + below && pushed == deeper + advanced
    ensures all == [None] + pushed
  {
  }

  lemma RegroupFlat(all: seq<Event>, now: seq<Event>, below: seq<Event>, e: Event, next: seq<Event>,
                    advanced: seq<Event>)
    requires all == now + below && now == [e] + next && advanced == next + below
    ensures all == [e] + advanced
  {
  }

  lemma RestDescends(adj: Adjacency, members: set<int>, path: seq<int>, its: seq<nat>, nxt: int, its': seq<nat>)
    requires ValidStack(adj, members, path, its) && path != []
    requires its[|path| - 1] < |adj[Last(path)]|
    requires nxt == adj[Last(path)][its[|path| - 1]] && nxt != path[0] && Enters(members, path, nxt)
    requires its' == its[|path| - 1 := its[|path| - 1] + 1]
    ensures ValidStack(adj, members, path + [nxt], its' + [0])
    ensures Rest(adj, members, path, its) == [None] + Rest(adj, members, path + [nxt], its' + [0])
  {
    var n := |path| - 1;
    RestSplits(adj, members, path, its);
    TraceDescends(adj, members, path, its[n]);
    RestAdvanced(adj, members, path, its, its');
    RestPushed(adj, members, path, its', nxt);
    Regroup(Rest(adj, members, path, its), Trace(adj, members, path, its[n]), Rest(adj, members, path[..n], its[..n]),
            Trace(adj, members, path + [nxt], 0), Trace(adj, members, path, its[n] + 1),
            Rest(adj, members, path, its'), Rest(adj, members, path + [nxt], its' + [0]));
  }

  lemma RestStays(adj: Adjacency, members: set<int>, path: seq<int>, its: seq<nat>, nxt: int, its': seq<nat>)
    requires ValidStack(adj, members, path, its) && path != []
    requires its[|path| - 1] < |adj[Last(path)]|
    requires nxt == adj[Last(path)][its[|path| - 1]] && (nxt == path[0] || !Enters(members, path, nxt))
    requires its' == its[|path| - 1 := its[|path| - 1] + 1]
    ensures ValidStack(adj, members, path, its')
    ensures Rest(adj, members, path, its) == [NextEvent(path, nxt)] + Rest(adj, members, path, its')
  {
    var n := |path| - 1;
    RestSplits(adj, members, path, its);
    TraceStays(adj, members, path, its[n]);
    RestAdvanced(adj, members, path, its, its');
    RegroupFlat(Rest(adj, members, path, its), Trace(adj, members, path, its[n]),
                Rest(adj, members, path[..n], its[..n]),
                NextEvent(path, nxt), Trace(adj, members, path, its[n] + 1), Rest(adj, members, path, its'));
  }

  lemma RestPops(adj: Adjacency, members: set<int>, path: seq<int>, its: seq<nat>)
    requires ValidStack(adj, members, path, its) && path != []
    requires its[|path| - 1] == |adj[Last(path)]|
    ensures var n := |path| - 1;
      && ValidStack(adj, members, path[..n], its[..n])
      && Rest(adj, members, path, its) == Rest(adj, members, path[..n], its[..n])
  {
  }

  lemma StopIsUnique(trace: seq<Event>, stop: nat, cycleLimit: Option<nat>, stepBudget: Option<int>)
    requires stop <= |trace|
    requires forall s :: 0 <= s < stop ==> !Refused(trace, s, cycleLimit, stepBudget)
    requires stop < |trace| ==> Refused(trace, stop, cycleLimit, stepBudget)
    ensures StopAt(trace, 0, cycleLimit, stepBudget) == stop
  {
  }

  lemma EmittedStep(trace: seq<Event>, s: nat)
    requires s < |trace|
    ensures Emitted(trace[..s + 1]) == Emitted(trace[..s]) + Yield(trace[s])
  {
    assert trace[..s + 1] == trace[..s] + [trace[s]];
    EmittedAppend(trace[..s], [trace[s]]);
    EmittedFirst(trace[s], []);
    assert [trace[s]] + [] == [trace[s]];
  }

  /** All expansions so far were allowed, and `found` is what they emitted. */
  ghost predicate Progress(trace: seq<Event>, steps: nat, found: seq<seq<int>>,
                           cycleLimit: Option<nat>, stepBudget: Option<int>)
  {
    && steps <= |trace|
    && found == Emitted(trace[..steps])
    && forall s :: 0 <= s < steps ==> !Refused(trace, s, cycleLimit, stepBudget)
  }

  /** The open iterators account for exactly the events still to come before `later`. */
  ghost predicate Synced(adj: Adjacency, members: set<int>, path: seq<int>, its: seq<nat>,
                         trace: seq<Event>, steps: nat, later: seq<Event>)
  {
    && ValidStack(adj, members, path, its)
    && steps <= |trace|
    && trace[steps..] == Rest(adj, members, path, its) + later
  }

  lemma SyncedHead(trace: seq<Event>, steps: nat, e: Event, rest: seq<Event>, later: seq<Event>)
    requires steps <= |trace| && trace[steps..] == ([e] + rest) + later
    ensures steps < |trace| && trace[steps] == e && trace[steps + 1..] == rest + later
  {
    assert trace[steps..] == [e] + (rest + later);
    assert trace[steps] == trace[steps..][0];
    assert trace[steps + 1..] == trace[steps..][1..];
  }

  lemma SyncedStart(adj: Adjacency, members: set<int>, start: int,
                    trace: seq<Event>, steps: nat, later: seq<Event>)
    requires members <= adj.Keys && start in members && steps <= |trace|
    requires trace[steps..] == Trace(adj, members, [start], 0) + later
    ensures Synced(adj, members, [start], [0], trace, steps, later)
  {
    var path, its: seq<nat> := [start], [0];
    assert path[..0] == [] && its[..0] == [];
    assert Rest(adj, members, path, its) == Trace(adj, members, path, 0) + [];
  }

  /** One expansion: the next event of the trace is the one this edge yields. */
  lemma SyncedExpand(adj: Adjacency, members: set<int>, path: seq<int>, its: seq<nat>,
                     trace: seq<Event>, steps: nat, later: seq<Event>)
    requires Synced(adj, members, path, its, trace, steps, later)
    requires path != [] && its[|path| - 1] < |adj[Last(path)]|
    ensures var n := |path| - 1;
      var nxt := adj[Last(path)][its[n]];
      var its' := its[n := its[n] + 1];
      && steps < |trace|
      && trace[steps] == NextEvent(path, nxt)
      && (nxt != path[0] && Enters(members, path, nxt) ==>
            Synced(adj, members, path + [nxt], its' + [0], trace, steps + 1, later))
      && (nxt == path[0] || !Enters(members, path, nxt) ==>
            Synced(adj, members, path, its', trace, steps + 1, later))
  {
    var n := |path| - 1;
    var nxt := adj[Last(path)][its[n]];
    var its' := its[n := its[n] + 1];
    if nxt != path[0] && Enters(members, path, nxt) {
      RestDescends(adj, members, path, its, nxt, its');
      SyncedHead(trace, steps, None, Rest(adj, members, path + [nxt], its' + [0]), later);
    } else {
      RestStays(adj, members, path, its, nxt, its');
      SyncedHead(trace, steps, NextEvent(path, nxt), Rest(adj, members, path, its'), later);
    }
  }

  /** An exhausted iterator yields nothing more. */
  lemma SyncedPop(adj: Adjacency, members: set<int>, path: seq<int>, its: seq<nat>,
                  trace: seq<Event>, steps: nat, later: seq<Event>)
    requires Synced(adj, members, path, its, trace, steps, later)
    requires path != [] && its[|path| - 1] == |adj[Last(path)]|
    ensures var n := |path| - 1;
      && Synced(adj, members, path[..n], its[..n], trace, steps, later)
      && Elements(path[..n]) == Elements(path) - {Last(path)}
      && (path[..n] != [] ==> path[..n][0] == path[0])
  {
    RestPops(adj, members, path, its);
    var n := |path| - 1;
    assert path == path[..n] + [path[n]];
  }

  lemma ProgressStep(trace: seq<Event>, steps: nat, found: seq<seq<int>>,
                     cycleLimit: Option<nat>, stepBudget: Option<int>)
    requires Progress(trace, steps, found, cycleLimit, stepBudget)
    requires steps < |trace| && !Refused(trace, steps, cycleLimit, stepBudget)
    ensures Progress(trace, steps + 1, if trace[steps].Some? then found + [trace[steps].value] else found,
                     cycleLimit, stepBudget)
  {
    EmittedStep(trace, steps);
  }

  /** Where the search stands between two anchors. */
  ghost predicate Between(trace: seq<Event>, steps: nat, found: seq<seq<int>>, exhausted: bool, later: seq<Event>,
                          cycleLimit: Option<nat>, stepBudget: Option<int>)
  {
    if exhausted then
      && 0 < steps <= |trace|
      && Progress(trace, steps - 1, found, cycleLimit, stepBudget)
      && Refused(trace, steps - 1, cycleLimit, stepBudget)
    else
      && Progress(trace, steps, found, cycleLimit, stepBudget)
      && trace[steps..] == later
  }

  /** The loop invariant of the search from `start`. */
  ghost predicate Searching(adj: Adjacency, members: set<int>, start: int, path: seq<int>, inPath: set<int>,
                            its: seq<nat>,
                            trace: seq<Event>, steps: nat, later: seq<Event>, found: seq<seq<int>>,
                            cycleLimit: Option<nat>, stepBudget: Option<int>)
  {
    && Synced(adj, members, path, its, trace, steps, later)
    && inPath == Elements(path)
    && (path != [] ==> path[0] == start)
    && Progress(trace, steps, found, cycleLimit, stepBudget)
  }

  lemma {:induction false} ExpandKeepsSearching(adj: Adjacency, members: set<int>, start: int, path: seq<int>,
                                                inPath: set<int>, its: seq<nat>,
                             trace: seq<Event>, steps: nat, later: seq<Event>, found: seq<seq<int>>,
                             cycleLimit: Option<nat>, stepBudget: Option<int>, nxt: int, its': seq<nat>)
    requires Searching(adj, members, start, path, inPath, its, trace, steps, later, found, cycleLimit, stepBudget)
    requires path != [] && its[|path| - 1] < |adj[Last(path)]|
    requires nxt == adj[Last(path)][its[|path| - 1]]
    requires its' == its[|path| - 1 := its[|path| - 1] + 1]
    ensures steps < |trace|
    ensures !Refused(trace, steps, cycleLimit, stepBudget) && nxt == start ==>
      Searching(adj, members, start, path, inPath, its', trace, steps + 1, later, found + [path],
                cycleLimit, stepBudget)
    ensures !Refused(trace, steps, cycleLimit, stepBudget) && nxt > start && nxt in members && nxt !in inPath ==>
      Searching(adj, members, start, path + [nxt], inPath + {nxt}, its' + [0], trace, steps + 1, later, found,
                cycleLimit, stepBudget)
    ensures !Refused(trace, steps, cycleLimit, stepBudget) && nxt != start
            && !(nxt > start && nxt in members && nxt !in inPath) ==>
      Searching(adj, members, start, path, inPath, its', trace, steps + 1, later, found, cycleLimit, stepBudget)
  {
    SyncedExpand(adj, members, path, its, trace, steps, later);
    assert nxt in Elements(path) <==> nxt in path;
    if !Refused(trace, steps, cycleLimit, stepBudget) {
      ProgressStep(trace, steps, found, cycleLimit, stepBudget);
      assert Elements(path + [nxt]) == Elements(path) + {nxt};
    }
  }

  /** The search from one anchor, resuming at event `steps0` of the whole trace. The source's
      `for nxt in stack[-1]` with its break-on-descend is one expansion per iteration here. */
  method SearchFrom(adj: Adjacency, members: set<int>, start: int, cycleLimit: Option<nat>, stepBudget: Option<int>,
                    found0: seq<seq<int>>, steps0: nat, ghost trace: seq<Event>, ghost later: seq<Event>)
    returns (found: seq<seq<int>>, steps: nat, exhausted: bool)
    requires members <= adj.Keys && start in members
    requires Progress(trace, steps0, found0, cycleLimit, stepBudget)
    requires trace[steps0..] == Trace(adj, members, [start], 0) + later
    ensures Between(trace, steps, found, exhausted, later, cycleLimit, stepBudget)
  {
    found, steps, exhausted := found0, steps0, false;
    var path, inPath := [start], {start};
    var its: seq<nat> := [0];
    SyncedStart(adj, members, start, trace, steps, later);
    assert Elements(path) == {start};
    while path != []
      invariant Searching(adj, members, start, path, inPath, its, trace, steps, later, found, cycleLimit, stepBudget)
      decreases |trace| - steps, |path|
    {
      var n := |path| - 1;
      var node := path[n];
      if its[n] < |adj[node]| {
        var nxt := adj[node][its[n]];
        ghost var refused := Refused(trace, steps, cycleLimit, stepBudget);
        ExpandKeepsSearching(adj, members, start, path, inPath, its, trace, steps, later, found,
                             cycleLimit, stepBudget, nxt, its[n := its[n] + 1]);
        its, steps := its[n := its[n] + 1], steps + 1;
        if (stepBudget.Some? && steps >= stepBudget.value) || (cycleLimit.Some? && |found| > cycleLimit.value) {
          assert refused;
          return found, steps, true;
        }
        assert !refused;
        if nxt == start {
          found := found + [path];
        } else if nxt > start && nxt in members && nxt !in inPath {
          path, inPath, its := path + [nxt], inPath + {nxt}, its + [0];
        }
      } else {
        SyncedPop(adj, members, path, its, trace, steps, later);
        path, inPath, its := path[..n], inPath - {node}, its[..n];
      }
    }
  }

  lemma DoneIsCapped(trace: seq<Event>, steps: nat, found: seq<seq<int>>, exhausted: bool,
                     cycleLimit: Option<nat>, stepBudget: Option<int>)
    requires Between(trace, steps, found, exhausted, [], cycleLimit, stepBudget)
    ensures Capped(trace, cycleLimit, stepBudget)
         == Enumeration(AtMost(found, cycleLimit), exhausted || (cycleLimit.Some? && |found| > cycleLimit.value), steps)
  {
    if !exhausted { assert |trace[steps..]| == 0; }
    StopIsUnique(trace, if exhausted then steps - 1 else steps, cycleLimit, stepBudget);
  }

  /** The loop invariant over the anchors: the search is about to start from `starts[k]`. */
  ghost predicate AtAnchor(adj: Adjacency, members: set<int>, starts: seq<int>, k: nat, trace: seq<Event>,
                           steps: nat, found: seq<seq<int>>, exhausted: bool,
                           cycleLimit: Option<nat>, stepBudget: Option<int>)
    requires members <= adj.Keys && forall i :: 0 <= i < |starts| ==> starts[i] in members
  {
    && k <= |starts|
    && Between(trace, steps, found, exhausted, TraceFrom(adj, members, starts[k..]), cycleLimit, stepBudget)
  }

  lemma FirstAnchor(adj: Adjacency, members: set<int>, starts: seq<int>, trace: seq<Event>,
                    cycleLimit: Option<nat>, stepBudget: Option<int>)
    requires members <= adj.Keys && forall i :: 0 <= i < |starts| ==> starts[i] in members
    requires trace == TraceFrom(adj, members, starts)
    ensures AtAnchor(adj, members, starts, 0, trace, 0, [], false, cycleLimit, stepBudget)
  {
    assert starts[0..] == starts && trace[0..] == trace;
  }

  lemma AnchorAhead(adj: Adjacency, members: set<int>, starts: seq<int>, k: nat, trace: seq<Event>,
                    steps: nat, found: seq<seq<int>>, cycleLimit: Option<nat>, stepBudget: Option<int>)
    requires members <= adj.Keys && forall i :: 0 <= i < |starts| ==> starts[i] in members
    requires AtAnchor(adj, members, starts, k, trace, steps, found, false, cycleLimit, stepBudget) && k < |starts|
    ensures Progress(trace, steps, found, cycleLimit, stepBudget)
    ensures trace[steps..] == Trace(adj, members, [starts[k]], 0) + TraceFrom(adj, members, starts[k + 1..])
  {
    assert starts[k..][1..] == starts[k + 1..];
  }

  /** The outer loop: one search per anchor, until a cap is hit. */
  method SearchAnchors(adj: Adjacency, members: set<int>, starts: seq<int>,
                       cycleLimit: Option<nat>, stepBudget: Option<int>, ghost trace: seq<Event>)
    returns (found: seq<seq<int>>, steps: nat, exhausted: bool)
    requires members <= adj.Keys && forall i :: 0 <= i < |starts| ==> starts[i] in members
    requires trace == TraceFrom(adj, members, starts)
    ensures Between(trace, steps, found, exhausted, [], cycleLimit, stepBudget)
  {
    found, steps, exhausted := [], 0, false;
    var k := 0;
    FirstAnchor(adj, members, starts, trace, cycleLimit, stepBudget);
    while k < |starts| && !exhausted
      invariant k <= |starts|
      invariant AtAnchor(adj, members, starts, k, trace, steps, found, exhausted, cycleLimit, stepBudget)
      decreases |starts| - k, !exhausted
    {
      AnchorAhead(adj, members, starts, k, trace, steps, found, cycleLimit, stepBudget);
      ghost var later := TraceFrom(adj, members, starts[k + 1..]);
      found, steps, exhausted := SearchFrom(adj, members, starts[k], cycleLimit, stepBudget, found, steps,
                                            trace, later);
      k := k + 1;
    }
  }

  method ComponentCycles(adj: Adjacency, component: seq<int>, cycleLimit: Option<nat>, stepBudget: Option<int>)
    returns (r: Enumeration)
    requires Elements(component) <= adj.Keys
    ensures r == Capped(ComponentTrace(adj, Elements(component)), cycleLimit, stepBudget)
  {
    var members := set v | v in component;
    var starts := SortedSet(component);
    assert members == Elements(component);
    IncreasingUnique(starts, SortedOf(members));
    ghost var trace := ComponentTrace(adj, members);
    var found, steps, exhausted := SearchAnchors(adj, members, starts, cycleLimit, stepBudget, trace);
    DoneIsCapped(trace, steps, found, exhausted, cycleLimit, stepBudget);
    var truncated := exhausted || (cycleLimit.Some? && |found| > cycleLimit.value);
    r := Enumeration(AtMost(found, cycleLimit), truncated, steps);
  }
}
