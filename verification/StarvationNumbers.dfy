/** Capacity starvation in numbers: budgets, demands and microseconds, without the detector's own functions. */
module StarvationNumbers {
  import opened Sorting
  import opened Clock
  import opened CapacityStarvation

  /** `sums` adds up the running counts of the targets, one by one. */
  ghost predicate AddsUp(targets: seq<Target>, sums: seq<int>) {
    && |sums| == |targets| + 1 && sums[0] == 0
    && forall k :: 0 <= k < |targets| ==> sums[k + 1] == sums[k] + targets[k].running
  }

  /** `spare` slots of the budget are left beside every running count. */
  ghost predicate Leaves(plan: Plan, spare: int) {
    exists sums :: AddsUp(plan.targets, sums) && spare == plan.budget - sums[|plan.targets|]
  }

  /** Some target of the repository wants more than it has, while slots are left. */
  ghost predicate Short(plan: Plan, repo: string) {
    && (exists spare :: spare > 0 && Leaves(plan, spare))
    && exists k :: 0 <= k < |plan.targets| && plan.targets[k].repo == repo
                   && plan.targets[k].demand > plan.targets[k].capacity
  }

  lemma {:induction false} RunningFrom(targets: seq<Target>, from: int) returns (sums: seq<int>)
    ensures |sums| == |targets| + 1 && sums[0] == from && sums[|targets|] == from + Running(targets)
    ensures forall k :: 0 <= k < |targets| ==> sums[k + 1] == sums[k] + targets[k].running
  {
    if targets == [] {
      sums := [from];
    } else {
      var rest := RunningFrom(targets[1..], from + targets[0].running);
      sums := [from] + rest;
      forall k | 0 <= k < |targets| ensures sums[k + 1] == sums[k] + targets[k].running {
        if k > 0 { assert sums[k + 1] == rest[k] && sums[k] == rest[k - 1] && targets[k] == targets[1..][k - 1]; }
      }
    }
  }

  lemma {:induction false} SumsAreUnique(targets: seq<Target>, a: seq<int>, b: seq<int>)
    requires AddsUp(targets, a) && AddsUp(targets, b)
    ensures a == b
  {
    for n := 0 to |targets|
      invariant forall k :: 0 <= k <= n ==> a[k] == b[k]
    {
      assert a[n + 1] == a[n] + targets[n].running && b[n + 1] == b[n] + targets[n].running;
    }
  }

  lemma SpareInNumbers(plan: Plan, spare: int)
    ensures Leaves(plan, spare) <==> spare == Spare(plan)
  {
    var sums := RunningFrom(plan.targets, 0);
    assert AddsUp(plan.targets, sums);
    if Leaves(plan, spare) {
      var others :| AddsUp(plan.targets, others) && spare == plan.budget - others[|plan.targets|];
      SumsAreUnique(plan.targets, sums, others);
    }
  }

  /** A repository is starved exactly when it is short of runners. */
  lemma StarvedInNumbers(plan: Plan, repo: string)
    ensures IsStarved(plan, repo) <==> Short(plan, repo)
  {
    StarvedMeans(plan, repo);
    SpareInNumbers(plan, Spare(plan));
    if spare :| spare > 0 && Leaves(plan, spare) { SpareInNumbers(plan, spare); }
    if t :| t in plan.targets && t.repo == repo && IsOver(t) {
      var k :| 0 <= k < |plan.targets| && plan.targets[k] == t;
    }
    if k :| 0 <= k < |plan.targets| && plan.targets[k].repo == repo
            && plan.targets[k].demand > plan.targets[k].capacity {
      assert plan.targets[k] in plan.targets && IsOver(plan.targets[k]);
    }
  }

  // ---- in which order

  predicate TargetsByRepo(targets: seq<Target>) {
    forall j, k :: 0 <= j < k < |targets| ==>
      targets[j].repo == targets[k].repo || StringLess(targets[j].repo, targets[k].repo)
  }

  predicate EventsByRepo(events: seq<Event>) {
    forall j, k :: 0 <= j < k < |events| ==>
      events[j].repo == events[k].repo || StringLess(events[j].repo, events[k].repo)
  }

  lemma RepoOrder()
    ensures TotalPreorder(RepoLeq)
  {
    forall a: Target, b: Target, c: Target
      ensures RepoLeq(a, b) || RepoLeq(b, a)
      ensures RepoLeq(a, b) && RepoLeq(b, c) ==> RepoLeq(a, c)
    {
      StringTotal(a.repo, b.repo);
      if StringLess(a.repo, b.repo) && StringLess(b.repo, c.repo) { StringTransitive(a.repo, b.repo, c.repo); }
    }
  }

  /** The starved targets come by repository, and those of one repository in the order of the plan. */
  lemma StarvedInOrder(plan: Plan, repo: string)
    requires Spare(plan) > 0
    ensures TargetsByRepo(Starved(plan))
    ensures Filter(Starved(plan), (t: Target) => t.repo == repo)
         == Filter(plan.targets, (t: Target) => t.repo == repo && t.demand > t.capacity)
  {
    RepoOrder();
    SortSorted(RepoLeq, OverDemand(plan.targets));
    SortIsStable(RepoLeq, OverDemand(plan.targets), (t: Target) => t.repo == repo);
    FilterTwice(plan.targets, IsOver, (t: Target) => t.repo == repo,
                (t: Target) => t.repo == repo && t.demand > t.capacity);
  }

  // ---- the events of a pass

  /** The event tells of this target, of a starvation since the given instant. */
  predicate Tells(e: Event, t: Target, spare: int, since: Instant, now: Instant) {
    && e.repo == t.repo && e.demand == t.demand && e.capacity == t.capacity && e.running == t.running
    && e.spare == spare && e.since == since && e.seconds == now.second - since.second
  }

  lemma TellsIs(e: Event, t: Target, spare: int, second: int, now: Instant)
    ensures Tells(e, t, spare, Instant(second, 0), now) <==> e == EventFor(t, spare, Instant(second, 0), now)
  {
  }

  lemma {:induction false} EventsMembers(prior: map<string, Entry>, starved: seq<Target>, spare: int, now: Instant,
                                         threshold: int, e: Event)
    ensures e in EventsOf(prior, starved, spare, now, threshold)
       <==> exists t :: && t in starved && Fires(Lookup(prior, t.repo), now, threshold)
                        && e == EventFor(t, spare, prior[t.repo].since.value, now)
  {
    if starved == [] {
    } else {
      var before, t := starved[..|starved| - 1], starved[|starved| - 1];
      EventsMembers(prior, before, spare, now, threshold, e);
      assert starved == before + [t];
      assert forall u :: u in starved <==> u in before || u == t;
      var raised := Raise(Lookup(prior, t.repo), t, spare, now, threshold);
      assert e in EventsOf(prior, before, spare, now, threshold) + raised
        <==> e in EventsOf(prior, before, spare, now, threshold) || e in raised;
    }
  }

  /** The target is listed, over its capacity, while slots are left. */
  predicate ListedOver(plan: Plan, t: Target) {
    exists k :: 0 <= k < |plan.targets| && plan.targets[k] == t && t.demand > t.capacity
  }

  lemma StarvedTarget(plan: Plan, t: Target)
    ensures t in Starved(plan) <==> Spare(plan) > 0 && ListedOver(plan, t)
  {
    SortIsPermutation(RepoLeq, OverDemand(plan.targets));
    SamePermutationElements(Sort(RepoLeq, OverDemand(plan.targets)), OverDemand(plan.targets));
    if t in plan.targets { var k :| 0 <= k < |plan.targets| && plan.targets[k] == t; }
  }

  /** At least the given minutes lie between the second of the first pass and the second pass. */
  predicate Late(first: Pass, later: Pass, minutes: int) {
    (later.now.second - first.now.second) * 1_000_000 + later.now.micro >= minutes * 60_000_000
  }

  /** Passes s to i are the repository's unbroken starvation so far. */
  ghost predicate StarvedSince(passes: seq<Pass>, s: nat, i: nat, repo: string) {
    && s <= i < |passes| && (forall k :: s <= k <= i ==> Short(passes[k].plan, repo))
    && (s > 0 ==> !Short(passes[s - 1].plan, repo))
  }

  lemma StreakInNumbers(passes: seq<Pass>, s: nat, i: nat, repo: string)
    requires StarvedSince(passes, s, i, repo)
    ensures var h := History(passes, repo);
            h[i] && StreakStart(h, i) == s
  {
    var h := History(passes, repo);
    forall k | 0 <= k < |passes| ensures h[k] <==> Short(passes[k].plan, repo) {
      StarvedInNumbers(passes[k].plan, repo);
    }
  }

  lemma LateIsOverdue(passes: seq<Pass>, s: nat, k: nat, minutes: int)
    requires s < |passes| && k < |passes|
    ensures Overdue(passes, s, k, minutes * MINUTE) <==> Late(passes[s], passes[k], minutes)
  {
  }

  /** The first pass after the start of the starvation that is late. */
  predicate FirstLate(passes: seq<Pass>, s: nat, i: nat, minutes: int) {
    && s < i < |passes| && Late(passes[s], passes[i], minutes)
    && forall k :: s < k < i ==> !Late(passes[s], passes[k], minutes)
  }

  lemma FiresInNumbers(passes: seq<Pass>, s: nat, i: nat, minutes: int, repo: string)
    requires StarvedSince(passes, s, i, repo)
    ensures var prior := Lookup(SidecarAfter(passes, i, minutes * MINUTE), repo);
            && (Fires(prior, passes[i].now, minutes * MINUTE) <==> FirstLate(passes, s, i, minutes))
            && (FirstLate(passes, s, i, minutes) ==>
                  prior.Some? && prior.value.since == Some(Instant(passes[s].now.second, 0)))
  {
    var threshold, h := minutes * MINUTE, History(passes, repo);
    StreakInNumbers(passes, s, i, repo);
    SidecarIsStreak(passes, i, threshold, repo);
    forall k | 0 <= k < |passes|
      ensures Overdue(passes, s, k, threshold) <==> Late(passes[s], passes[k], minutes)
    {
      LateIsOverdue(passes, s, k, minutes);
    }
    if s < i {
      StreakInNumbers(passes, s, i - 1, repo);
      assert StreakEntry(passes, h, i, threshold)
          == Some(Entry(Some(CutToSecond(passes[s].now)), OverdueBefore(passes, s, i, threshold)));
    }
  }

  /** The event is one that the plan raises for a starvation since the given instant. */
  ghost predicate RaisedFor(plan: Plan, since: Instant, now: Instant, e: Event) {
    exists t, spare :: ListedOver(plan, t) && Leaves(plan, spare) && Tells(e, t, spare, since, now)
  }

  lemma RaisedInNumbers(plan: Plan, second: int, now: Instant, e: Event)
    ensures RaisedFor(plan, Instant(second, 0), now, e)
       <==> exists t :: ListedOver(plan, t) && e == EventFor(t, Spare(plan), Instant(second, 0), now)
  {
    SpareInNumbers(plan, Spare(plan));
    if t, spare :| ListedOver(plan, t) && Leaves(plan, spare) && Tells(e, t, spare, Instant(second, 0), now) {
      SpareInNumbers(plan, spare);
      TellsIs(e, t, spare, second, now);
    }
    if t :| ListedOver(plan, t) && e == EventFor(t, Spare(plan), Instant(second, 0), now) {
      TellsIs(e, t, Spare(plan), second, now);
    }
  }

  lemma EventsOfPlan(prior: map<string, Entry>, plan: Plan, now: Instant, threshold: int, since: Instant, e: Event)
    requires Spare(plan) > 0
    requires Fires(Lookup(prior, e.repo), now, threshold) ==> prior[e.repo].since == Some(since)
    ensures e in EventsOf(prior, Starved(plan), Spare(plan), now, threshold)
       <==> && Fires(Lookup(prior, e.repo), now, threshold)
            && exists t :: ListedOver(plan, t) && e == EventFor(t, Spare(plan), since, now)
  {
    EventsMembers(prior, Starved(plan), Spare(plan), now, threshold, e);
    forall t ensures t in Starved(plan) <==> ListedOver(plan, t) { StarvedTarget(plan, t); }
  }

  /** For a repository starved since pass s the events are those of its targets over capacity, with the numbers of
      the plan, and they come at the first late pass and at no other. */
  lemma EventsInNumbers(passes: seq<Pass>, s: nat, i: nat, minutes: int, e: Event)
    requires StarvedSince(passes, s, i, e.repo)
    ensures e in EventsAt(passes, i, minutes * MINUTE)
       <==> && FirstLate(passes, s, i, minutes)
            && RaisedFor(passes[i].plan, Instant(passes[s].now.second, 0), passes[i].now, e)
  {
    var plan, threshold := passes[i].plan, minutes * MINUTE;
    FiresInNumbers(passes, s, i, minutes, e.repo);
    StarvedInNumbers(plan, e.repo);
    StarvedMeans(plan, e.repo);
    EventsOfPlan(SidecarAfter(passes, i, threshold), plan, passes[i].now, threshold,
                 Instant(passes[s].now.second, 0), e);
    RaisedInNumbers(plan, passes[s].now.second, passes[i].now, e);
  }

  /** A repository that is not starved raises nothing. */
  lemma NoEventUnlessShort(passes: seq<Pass>, i: nat, minutes: int, repo: string)
    requires i < |passes| && !Short(passes[i].plan, repo)
    ensures forall e :: e in EventsAt(passes, i, minutes * MINUTE) ==> e.repo != repo
  {
    StarvedInNumbers(passes[i].plan, repo);
    EscalationExact(passes, i, minutes * MINUTE, repo);
  }

  lemma {:induction false} EventsInOrder(prior: map<string, Entry>, starved: seq<Target>, spare: int, now: Instant,
                                         threshold: int)
    requires TargetsByRepo(starved)
    ensures EventsByRepo(EventsOf(prior, starved, spare, now, threshold))
  {
    if starved == [] {
    } else {
      var before, t := starved[..|starved| - 1], starved[|starved| - 1];
      EventsInOrder(prior, before, spare, now, threshold);
      var events := EventsOf(prior, before, spare, now, threshold);
      forall j | 0 <= j < |events| ensures events[j].repo == t.repo || StringLess(events[j].repo, t.repo) {
        EventsMembers(prior, before, spare, now, threshold, events[j]);
        var u :| && u in before && Fires(Lookup(prior, u.repo), now, threshold)
                 && events[j] == EventFor(u, spare, prior[u.repo].since.value, now);
        var k :| 0 <= k < |before| && before[k] == u;
        assert starved[k] == u;
      }
    }
  }

  /** A pass raises its events by repository. */
  lemma PassInOrder(passes: seq<Pass>, i: nat, minutes: int)
    requires i < |passes|
    ensures EventsByRepo(EventsAt(passes, i, minutes * MINUTE))
  {
    var plan, threshold := passes[i].plan, minutes * MINUTE;
    if Spare(plan) > 0 { StarvedInOrder(plan, ""); }
    EventsInOrder(SidecarAfter(passes, i, threshold), Starved(plan), Spare(plan), passes[i].now, threshold);
  }
}
