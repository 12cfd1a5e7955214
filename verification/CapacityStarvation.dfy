/** Sustained capacity starvation (`detect_capacity_starvation_escalation`): the sidecar records when a
    repository's starvation began, and each unbroken run of starved passes escalates at most once.
    The recorded start is cut to whole seconds. */
module CapacityStarvation {
  import opened Sorting
  import opened Clock

  datatype Target = Target(repo: string, demand: int, capacity: int, running: int)

  datatype Plan = Plan(budget: int, targets: seq<Target>)

  /** `since` is None when the stored text is not a timestamp. */
  datatype Entry = Entry(since: Option<Instant>, escalated: bool)

  datatype Event = Event(repo: string, demand: int, capacity: int, running: int, spare: int,
                         since: Instant, seconds: int)

  // ---- who is starved

  function Running(targets: seq<Target>): int {
    if targets == [] then 0 else targets[0].running + Running(targets[1..])
  }

  function Spare(plan: Plan): int {
    plan.budget - Running(plan.targets)
  }

  predicate IsOver(t: Target) {
    t.demand > t.capacity
  }

  function OverDemand(targets: seq<Target>): seq<Target> {
    Filter(targets, IsOver)
  }

  predicate RepoLeq(a: Target, b: Target) {
    a.repo == b.repo || StringLess(a.repo, b.repo)
  }

  /** Targets over their capacity, by repository, while the host still has budget to spare. */
  function Starved(plan: Plan): seq<Target> {
    if Spare(plan) <= 0 then [] else Sort(RepoLeq, OverDemand(plan.targets))
  }

  function Repos(starved: seq<Target>): set<string> {
    set t | t in starved :: t.repo
  }

  predicate IsStarved(plan: Plan, repo: string) {
    repo in Repos(Starved(plan))
  }

  lemma StarvedMeans(plan: Plan, repo: string)
    ensures IsStarved(plan, repo)
       <==> Spare(plan) > 0 && exists t :: t in plan.targets && t.repo == repo && IsOver(t)
  {
    SortIsPermutation(RepoLeq, OverDemand(plan.targets));
    SamePermutationElements(Sort(RepoLeq, OverDemand(plan.targets)), OverDemand(plan.targets));
  }

  // ---- one repository, one pass

  function Rearmed(now: Instant): Entry {
    Entry(Some(CutToSecond(now)), false)
  }

  /** The window has been open long enough, and nobody has been told. */
  predicate Fires(prior: Option<Entry>, now: Instant, threshold: int) {
    prior.Some? && !prior.value.escalated && prior.value.since.Some?
      && Elapsed(now, prior.value.since.value) >= threshold
  }

  function NextEntry(prior: Option<Entry>, now: Instant, threshold: int): Entry {
    if prior.None? then Rearmed(now)
    else if prior.value.escalated then prior.value
    else if prior.value.since.None? then Rearmed(now)
    else Entry(prior.value.since, Fires(prior, now, threshold))
  }

  function Lookup(sidecar: map<string, Entry>, repo: string): Option<Entry> {
    if repo in sidecar then Some(sidecar[repo]) else None
  }

  function EventFor(t: Target, spare: int, since: Instant, now: Instant): Event {
    Event(t.repo, t.demand, t.capacity, t.running, spare, since, WholeSeconds(now, since))
  }

  function Raise(prior: Option<Entry>, t: Target, spare: int, now: Instant, threshold: int): seq<Event> {
    if Fires(prior, now, threshold) then [EventFor(t, spare, prior.value.since.value, now)] else []
  }

  // ---- all repositories

  function NextSidecar(prior: map<string, Entry>, starved: seq<Target>, now: Instant, threshold: int)
    : map<string, Entry>
  {
    map r | r in Repos(starved) :: NextEntry(Lookup(prior, r), now, threshold)
  }

  function EventsOf(prior: map<string, Entry>, starved: seq<Target>, spare: int, now: Instant, threshold: int)
    : seq<Event>
  {
    if starved == [] then []
    else
      var t := starved[|starved| - 1];
      EventsOf(prior, starved[..|starved| - 1], spare, now, threshold)
      + Raise(Lookup(prior, t.repo), t, spare, now, threshold)
  }

  lemma ReposStep(starved: seq<Target>, k: nat)
    requires k < |starved|
    ensures Repos(starved[..k + 1]) == Repos(starved[..k]) + {starved[k].repo}
  {
    TakeStep(starved, k);
    assert forall t :: t in starved[..k + 1] <==> t in starved[..k] || t == starved[k];
  }

  lemma SidecarStep(prior: map<string, Entry>, starved: seq<Target>, k: nat, spare: int, now: Instant, threshold: int)
    requires k < |starved|
    ensures var repo := starved[k].repo;
            NextSidecar(prior, starved[..k + 1], now, threshold)
            == NextSidecar(prior, starved[..k], now, threshold)[repo := NextEntry(Lookup(prior, repo), now, threshold)]
    ensures var t := starved[k];
            EventsOf(prior, starved[..k + 1], spare, now, threshold)
            == EventsOf(prior, starved[..k], spare, now, threshold)
             + Raise(Lookup(prior, t.repo), t, spare, now, threshold)
  {
    ReposStep(starved, k);
    assert starved[..k + 1][..k] == starved[..k];
  }

  /** The body of the loop over starved targets. */
  method Judge(prior: Option<Entry>, t: Target, spare: int, now: Instant, threshold: int)
    returns (entry: Entry, raised: seq<Event>)
    ensures entry == NextEntry(prior, now, threshold)
    ensures raised == Raise(prior, t, spare, now, threshold)
  {
    raised := [];
    if prior.None? {
      entry := Rearmed(now);
    } else {
      entry := prior.value;
      if !entry.escalated {
        if entry.since.None? {
          entry := Rearmed(now);
        } else if Elapsed(now, entry.since.value) >= threshold {
          raised := [EventFor(t, spare, entry.since.value, now)];
          entry := entry.(escalated := true);
        }
      }
    }
  }

  class Detector {
    var sidecar: map<string, Entry>

    constructor ()
      ensures sidecar == map[]
    {
      sidecar := map[];
    }

    method Detect(plan: Plan, now: Instant, minutes: int, enabled: bool, dryRun: bool) returns (events: seq<Event>)
      requires minutes >= 1
      modifies this
      ensures dryRun || !enabled ==> events == [] && sidecar == old(sidecar)
      ensures !dryRun && enabled ==>
        && sidecar == NextSidecar(old(sidecar), Starved(plan), now, minutes * MINUTE)
        && events == EventsOf(old(sidecar), Starved(plan), Spare(plan), now, minutes * MINUTE)
    {
      events := [];
      if dryRun || !enabled { return; }
      var starved, threshold := Starved(plan), minutes * MINUTE;
      var next: map<string, Entry> := map[];
      var k := 0;
      while k < |starved|
        invariant k <= |starved| && sidecar == old(sidecar)
        invariant next == NextSidecar(sidecar, starved[..k], now, threshold)
        invariant events == EventsOf(sidecar, starved[..k], Spare(plan), now, threshold)
      {
        var t := starved[k];
        SidecarStep(sidecar, starved, k, Spare(plan), now, threshold);
        var entry, raised := Judge(Lookup(sidecar, t.repo), t, Spare(plan), now, threshold);
        next := next[t.repo := entry];
        events := events + raised;
        k := k + 1;
      }
      assert starved[..|starved|] == starved;
      sidecar := next;
    }
  }

  // ---- runs of enabled passes from an empty sidecar

  datatype Pass = Pass(plan: Plan, now: Instant)

  function SidecarAfter(passes: seq<Pass>, n: nat, threshold: int): map<string, Entry>
    requires n <= |passes|
  {
    if n == 0 then map[]
    else NextSidecar(SidecarAfter(passes, n - 1, threshold), Starved(passes[n - 1].plan), passes[n - 1].now, threshold)
  }

  function EventsAt(passes: seq<Pass>, i: nat, threshold: int): seq<Event>
    requires i < |passes|
  {
    var plan := passes[i].plan;
    EventsOf(SidecarAfter(passes, i, threshold), Starved(plan), Spare(plan), passes[i].now, threshold)
  }

  /** At which passes the repository is starved. */
  function History(passes: seq<Pass>, repo: string): seq<bool> {
    seq(|passes|, i requires 0 <= i < |passes| => IsStarved(passes[i].plan, repo))
  }

  predicate EscalatesAt(passes: seq<Pass>, i: nat, repo: string, threshold: int)
    requires i < |passes|
  {
    exists e :: e in EventsAt(passes, i, threshold) && e.repo == repo
  }

  /** First pass of the unbroken run of starved passes that pass i belongs to. */
  function StreakStart(h: seq<bool>, i: nat): (s: nat)
    requires i < |h| && h[i]
    ensures s <= i && (s > 0 ==> !h[s - 1]) && forall k :: s <= k <= i ==> h[k]
  {
    if i > 0 && h[i - 1] then StreakStart(h, i - 1) else i
  }

  /** The threshold has passed at pass i, counted from the recorded start at pass s. */
  predicate Overdue(passes: seq<Pass>, s: nat, i: nat, threshold: int)
    requires s < |passes| && i < |passes|
  {
    Elapsed(passes[i].now, CutToSecond(passes[s].now)) >= threshold
  }

  predicate OverdueBefore(passes: seq<Pass>, s: nat, i: nat, threshold: int)
    requires s < |passes| && i <= |passes|
  {
    exists k :: s < k < i && Overdue(passes, s, k, threshold)
  }

  lemma {:induction false} EventsFire(prior: map<string, Entry>, starved: seq<Target>, spare: int, now: Instant,
                                      threshold: int, repo: string)
    ensures (exists e :: e in EventsOf(prior, starved, spare, now, threshold) && e.repo == repo)
       <==> repo in Repos(starved) && Fires(Lookup(prior, repo), now, threshold)
  {
    if starved == [] {
    } else {
      var k := |starved| - 1;
      EventsFire(prior, starved[..k], spare, now, threshold, repo);
      ReposStep(starved, k);
      assert starved[..k + 1] == starved;
      var before := EventsOf(prior, starved[..k], spare, now, threshold);
      var t := starved[k];
      if Fires(Lookup(prior, t.repo), now, threshold) {
        var e := EventFor(t, spare, prior[t.repo].since.value, now);
        assert forall x :: x in before + [e] <==> x in before || x == e;
      } else {
        assert before + [] == before;
      }
    }
  }

  /** The sidecar entry is the streak: its start cut to the second, and whether it was ever overdue. */
  ghost function StreakEntry(passes: seq<Pass>, h: seq<bool>, n: nat, threshold: int): Option<Entry>
    requires n <= |passes| && |h| == |passes|
  {
    if n == 0 || !h[n - 1] then None
    else
      var s := StreakStart(h, n - 1);
      Some(Entry(Some(CutToSecond(passes[s].now)), OverdueBefore(passes, s, n, threshold)))
  }

  lemma OverdueStep(passes: seq<Pass>, s: nat, i: nat, threshold: int)
    requires s < i < |passes|
    ensures OverdueBefore(passes, s, i + 1, threshold)
       <==> OverdueBefore(passes, s, i, threshold) || Overdue(passes, s, i, threshold)
  {
  }

  lemma SidecarNext(passes: seq<Pass>, i: nat, threshold: int, repo: string)
    requires i < |passes|
    ensures Lookup(SidecarAfter(passes, i + 1, threshold), repo)
         == if History(passes, repo)[i]
            then Some(NextEntry(Lookup(SidecarAfter(passes, i, threshold), repo), passes[i].now, threshold))
            else None
  {
  }

  lemma EntryContinues(since: Instant, over: bool, now: Instant, threshold: int)
    ensures NextEntry(Some(Entry(Some(since), over)), now, threshold)
         == Entry(Some(since), over || Elapsed(now, since) >= threshold)
  {
  }

  lemma {:induction false} StreakGoesOn(passes: seq<Pass>, h: seq<bool>, i: nat, threshold: int)
    requires 0 < i < |passes| && |h| == |passes| && h[i - 1] && h[i]
    ensures StreakEntry(passes, h, i + 1, threshold)
         == Some(NextEntry(StreakEntry(passes, h, i, threshold), passes[i].now, threshold))
  {
    var s := StreakStart(h, i - 1);
    OverdueStep(passes, s, i, threshold);
    EntryContinues(CutToSecond(passes[s].now), OverdueBefore(passes, s, i, threshold), passes[i].now, threshold);
  }

  lemma {:induction false} StreakBegins(passes: seq<Pass>, h: seq<bool>, i: nat, threshold: int)
    requires i < |passes| && |h| == |passes| && h[i] && (i > 0 ==> !h[i - 1])
    ensures StreakEntry(passes, h, i + 1, threshold) == Some(Rearmed(passes[i].now))
  {
  }

  lemma {:induction false} StreakNext(passes: seq<Pass>, h: seq<bool>, i: nat, threshold: int)
    requires i < |passes| && |h| == |passes|
    ensures StreakEntry(passes, h, i + 1, threshold)
         == if h[i] then Some(NextEntry(StreakEntry(passes, h, i, threshold), passes[i].now, threshold)) else None
  {
    if h[i] {
      if i > 0 && h[i - 1] {
        StreakGoesOn(passes, h, i, threshold);
      } else {
        StreakBegins(passes, h, i, threshold);
      }
    }
  }

  lemma {:induction false} SidecarIsStreak(passes: seq<Pass>, n: nat, threshold: int, repo: string)
    requires n <= |passes|
    ensures Lookup(SidecarAfter(passes, n, threshold), repo) == StreakEntry(passes, History(passes, repo), n, threshold)
  {
    if n == 0 {
    } else {
      var i, h := n - 1, History(passes, repo);
      SidecarIsStreak(passes, i, threshold, repo);
      SidecarNext(passes, i, threshold, repo);
      StreakNext(passes, h, i, threshold);
      SameNext(StreakEntry(passes, h, i, threshold), h[i], passes[i].now, threshold,
               Lookup(SidecarAfter(passes, n, threshold), repo), StreakEntry(passes, h, n, threshold));
    }
  }

  lemma SameNext(prior: Option<Entry>, starved: bool, now: Instant, threshold: int, a: Option<Entry>, b: Option<Entry>)
    requires a == if starved then Some(NextEntry(prior, now, threshold)) else None
    requires b == if starved then Some(NextEntry(prior, now, threshold)) else None
    ensures a == b
  {
  }

  /** Overdue for the first time in its streak, after the streak's first pass. */
  ghost predicate FirstOverdueAt(passes: seq<Pass>, h: seq<bool>, i: nat, threshold: int)
    requires i < |passes| && |h| == |passes|
  {
    h[i] && var s := StreakStart(h, i);
            s < i && Overdue(passes, s, i, threshold) && !OverdueBefore(passes, s, i, threshold)
  }

  /** Exactly when a repository escalates. */
  lemma EscalationExact(passes: seq<Pass>, i: nat, threshold: int, repo: string)
    requires i < |passes|
    ensures EscalatesAt(passes, i, repo, threshold) <==> FirstOverdueAt(passes, History(passes, repo), i, threshold)
  {
    var prior := SidecarAfter(passes, i, threshold);
    EventsFire(prior, Starved(passes[i].plan), Spare(passes[i].plan), passes[i].now, threshold, repo);
    SidecarIsStreak(passes, i, threshold, repo);
  }

  lemma {:induction false} SameStreak(h: seq<bool>, i: nat, j: nat)
    requires i <= j < |h| && forall k :: i <= k <= j ==> h[k]
    ensures StreakStart(h, i) == StreakStart(h, j)
  {
    if i == j {
    } else {
      SameStreak(h, i, j - 1);
    }
  }

  /** No two passes of one streak escalate. */
  lemma AtMostOncePerStreak(passes: seq<Pass>, i: nat, j: nat, threshold: int, repo: string)
    requires i < j < |passes| && forall k :: i <= k <= j ==> History(passes, repo)[k]
    ensures !(EscalatesAt(passes, i, repo, threshold) && EscalatesAt(passes, j, repo, threshold))
  {
    EscalationExact(passes, i, threshold, repo);
    EscalationExact(passes, j, threshold, repo);
    SameStreak(History(passes, repo), i, j);
  }

  /** Never on the first pass, and early by less than a second at most. */
  lemma NeverEarly(passes: seq<Pass>, i: nat, threshold: int, repo: string)
    requires i < |passes| && EscalatesAt(passes, i, repo, threshold)
    ensures var h := History(passes, repo);
            && h[i] && StreakStart(h, i) < i
            && Elapsed(passes[i].now, passes[StreakStart(h, i)].now) > threshold - SECOND
  {
    EscalationExact(passes, i, threshold, repo);
  }

  lemma EscalationInStreak(passes: seq<Pass>, i: nat, j: nat, threshold: int, repo: string)
    requires j < |passes| && History(passes, repo)[j] && StreakStart(History(passes, repo), j) <= i <= j
    ensures var s := StreakStart(History(passes, repo), j);
            EscalatesAt(passes, i, repo, threshold)
            <==> s < i && Overdue(passes, s, i, threshold) && !OverdueBefore(passes, s, i, threshold)
  {
    EscalationExact(passes, i, threshold, repo);
    SameStreak(History(passes, repo), i, j);
  }

  /** Some pass of the streak up to j escalates exactly when one after its first is overdue, which any
      pass at or past the threshold after the true start is. */
  lemma SustainedEscalates(passes: seq<Pass>, j: nat, threshold: int, repo: string)
    requires j < |passes| && History(passes, repo)[j]
    ensures var s := StreakStart(History(passes, repo), j);
            (exists i :: s <= i <= j && EscalatesAt(passes, i, repo, threshold))
            <==> OverdueBefore(passes, s, j + 1, threshold)
    ensures var s := StreakStart(History(passes, repo), j);
            (exists i :: s < i <= j && Elapsed(passes[i].now, passes[s].now) >= threshold)
            ==> OverdueBefore(passes, s, j + 1, threshold)
  {
    var h := History(passes, repo);
    var s := StreakStart(h, j);
    forall i | s <= i <= j ensures EscalatesAt(passes, i, repo, threshold)
      <==> s < i && Overdue(passes, s, i, threshold) && !OverdueBefore(passes, s, i, threshold)
    {
      EscalationInStreak(passes, i, j, threshold, repo);
    }
    if OverdueBefore(passes, s, j + 1, threshold) { FirstOverdue(passes, s, j + 1, threshold); }
    if i :| s < i <= j && Elapsed(passes[i].now, passes[s].now) >= threshold {
      assert Overdue(passes, s, i, threshold);
    }
  }

  lemma {:induction false} FirstOverdue(passes: seq<Pass>, s: nat, n: nat, threshold: int)
    requires s < |passes| && n <= |passes| && OverdueBefore(passes, s, n, threshold)
    ensures exists i :: s < i < n && Overdue(passes, s, i, threshold) && !OverdueBefore(passes, s, i, threshold)
  {
    var k :| s < k < n && Overdue(passes, s, k, threshold);
    if !OverdueBefore(passes, s, k, threshold) {
    } else {
      FirstOverdue(passes, s, k, threshold);
    }
  }

  // ---- how many events one pass raises for a repository

  function Listed(targets: seq<Target>, repo: string): nat {
    if targets == [] then 0
    else Listed(targets[..|targets| - 1], repo) + if targets[|targets| - 1].repo == repo then 1 else 0
  }

  function Raised(events: seq<Event>, repo: string): nat {
    if events == [] then 0
    else Raised(events[..|events| - 1], repo) + if events[|events| - 1].repo == repo then 1 else 0
  }

  /** Targets of the repository over their capacity. */
  function Over(targets: seq<Target>, repo: string): nat {
    if targets == [] then 0
    else
      var last := targets[|targets| - 1];
      Over(targets[..|targets| - 1], repo) + if last.repo == repo && IsOver(last) then 1 else 0
  }

  lemma {:induction false} ListedSnoc(targets: seq<Target>, t: Target, repo: string)
    ensures Listed(targets + [t], repo) == Listed(targets, repo) + if t.repo == repo then 1 else 0
  {
    assert (targets + [t])[..|targets|] == targets;
  }

  lemma {:induction false} OverSnoc(targets: seq<Target>, t: Target, repo: string)
    ensures Over(targets + [t], repo) == Over(targets, repo) + if t.repo == repo && IsOver(t) then 1 else 0
  {
    assert (targets + [t])[..|targets|] == targets;
  }

  lemma {:induction false} RaisedSnoc(events: seq<Event>, e: Event, repo: string)
    ensures Raised(events + [e], repo) == Raised(events, repo) + if e.repo == repo then 1 else 0
  {
    assert (events + [e])[..|events|] == events;
  }

  lemma {:induction false} EventsSnoc(prior: map<string, Entry>, starved: seq<Target>, t: Target, spare: int,
                                      now: Instant, threshold: int, repo: string)
    ensures Raised(EventsOf(prior, starved + [t], spare, now, threshold), repo)
         == Raised(EventsOf(prior, starved, spare, now, threshold), repo)
            + if t.repo == repo && Fires(Lookup(prior, repo), now, threshold) then 1 else 0
  {
    var before := EventsOf(prior, starved, spare, now, threshold);
    assert (starved + [t])[..|starved|] == starved;
    assert EventsOf(prior, starved + [t], spare, now, threshold)
        == before + Raise(Lookup(prior, t.repo), t, spare, now, threshold);
    if Fires(Lookup(prior, t.repo), now, threshold) {
      RaisedSnoc(before, EventFor(t, spare, prior[t.repo].since.value, now), repo);
    } else {
      assert before + [] == before;
    }
  }

  lemma {:induction false} EventsPerListing(prior: map<string, Entry>, starved: seq<Target>, spare: int, now: Instant,
                                            threshold: int, repo: string)
    ensures Raised(EventsOf(prior, starved, spare, now, threshold), repo)
         == if Fires(Lookup(prior, repo), now, threshold) then Listed(starved, repo) else 0
  {
    if starved == [] {
    } else {
      var rest, t := starved[..|starved| - 1], starved[|starved| - 1];
      EventsPerListing(prior, rest, spare, now, threshold, repo);
      assert starved == rest + [t];
      EventsSnoc(prior, rest, t, spare, now, threshold, repo);
      ListedSnoc(rest, t, repo);
    }
  }

  lemma {:induction false} OverIsListed(targets: seq<Target>, repo: string)
    ensures Listed(OverDemand(targets), repo) == Over(targets, repo)
  {
    if targets == [] {
    } else {
      var before, last := targets[..|targets| - 1], targets[|targets| - 1];
      OverIsListed(before, repo);
      assert targets == before + [last];
      FilterSnoc(before, last, IsOver);
      OverSnoc(before, last, repo);
      if IsOver(last) {
        ListedSnoc(OverDemand(before), last, repo);
      } else {
        assert OverDemand(before) + [] == OverDemand(before);
      }
    }
  }

  lemma {:induction false} ListedJoin(a: seq<Target>, b: seq<Target>, repo: string)
    ensures Listed(a + b, repo) == Listed(a, repo) + Listed(b, repo)
    decreases |b|
  {
    if b == [] {
      assert a + b == a;
    } else {
      assert (a + b)[..|a + b| - 1] == a + b[..|b| - 1];
      ListedJoin(a, b[..|b| - 1], repo);
    }
  }

  lemma ListedAround(x: seq<Target>, t: Target, y: seq<Target>, repo: string)
    ensures Listed((x + [t]) + y, repo) == Listed(x + y, repo) + if t.repo == repo then 1 else 0
  {
    ListedJoin(x + [t], y, repo);
    ListedJoin(x, y, repo);
    ListedSnoc(x, t, repo);
  }

  lemma ListedRemove(a: seq<Target>, i: nat, repo: string)
    requires i < |a|
    ensures Listed(a, repo) == Listed(a[..i] + a[i + 1..], repo) + if a[i].repo == repo then 1 else 0
  {
    SplitAround(a, i);
    ListedAround(a[..i], a[i], a[i + 1..], repo);
  }

  lemma {:induction false} ListedPermuted(a: seq<Target>, b: seq<Target>, repo: string)
    requires multiset(a) == multiset(b)
    ensures Listed(a, repo) == Listed(b, repo)
  {
    assert |multiset(a)| == |a| && |multiset(b)| == |b|;
    if a == [] {
    } else {
      var i := PermutationRest(a, b);
      ListedRemove(b, i, repo);
      ListedPermuted(a[..|a| - 1], b[..i] + b[i + 1..], repo);
    }
  }

  lemma {:induction false} ListedMeans(starved: seq<Target>, repo: string)
    ensures Listed(starved, repo) > 0 <==> repo in Repos(starved)
  {
    if starved == [] {
    } else {
      ListedMeans(starved[..|starved| - 1], repo);
      ReposStep(starved, |starved| - 1);
      TakeAll(starved);
    }
  }

  /** A repository that escalates raises one event per target of the plan that is over its capacity, so
      exactly one just when exactly one target is. */
  lemma OneEventPerListing(passes: seq<Pass>, i: nat, threshold: int, repo: string)
    requires i < |passes|
    ensures var raised, over := Raised(EventsAt(passes, i, threshold), repo), Over(passes[i].plan.targets, repo);
            && raised == (if EscalatesAt(passes, i, repo, threshold) then over else 0)
            && (raised == 1 <==> EscalatesAt(passes, i, repo, threshold) && over == 1)
  {
    var prior, plan := SidecarAfter(passes, i, threshold), passes[i].plan;
    var starved := Starved(plan);
    EventsPerListing(prior, starved, Spare(plan), passes[i].now, threshold, repo);
    EventsFire(prior, starved, Spare(plan), passes[i].now, threshold, repo);
    ListedMeans(starved, repo);
    if Spare(plan) > 0 {
      SortIsPermutation(RepoLeq, OverDemand(plan.targets));
      ListedPermuted(starved, OverDemand(plan.targets), repo);
      OverIsListed(plan.targets, repo);
    }
  }

  // ---- a plan that names one repository twice

  const TWICE := Plan(1, [Target("r", 1, 0, 0), Target("r", 2, 0, 0)])

  lemma TwiceIsStarved()
    ensures IsStarved(TWICE, "r") && Over(TWICE.targets, "r") == 2
  {
    StarvedMeans(TWICE, "r");
    var t, u := Target("r", 1, 0, 0), Target("r", 2, 0, 0);
    assert TWICE.targets[0] == t && TWICE.targets[1..] == [u] && [u][1..] == [];
    assert t in TWICE.targets;
    assert TWICE.targets[..1] == [t] && [t][..0] == [];
  }

  /** Starved for the length of the window, it escalates with two events in one pass. */
  lemma TwiceRaisesTwo(second: int, minutes: int)
    requires minutes >= 1
    ensures var passes := [Pass(TWICE, Instant(second, 0)), Pass(TWICE, Instant(second + 60 * minutes, 0))];
            Raised(EventsAt(passes, 1, minutes * MINUTE), "r") == 2
  {
    var passes := [Pass(TWICE, Instant(second, 0)), Pass(TWICE, Instant(second + 60 * minutes, 0))];
    var threshold := minutes * MINUTE;
    TwiceIsStarved();
    var h := History(passes, "r");
    assert h[0] && h[1] && StreakStart(h, 1) == 0;
    assert Overdue(passes, 0, 1, threshold) && !OverdueBefore(passes, 0, 1, threshold);
    EscalationExact(passes, 1, threshold, "r");
    OneEventPerListing(passes, 1, threshold, "r");
  }
}
