/** The heal lane over runs of ticks: its bounds, and exactly how far they reach. */
module HealRuns {
  import opened Sorting
  import opened Clock
  import opened TimedOutChecks
  import opened AggregateHeal

  // ---- runs of ticks

  datatype LaneState = LaneState(reruns: map<int, Entry>, nextDue: Option<int>)

  /** What `Lane.Tick` does, as a step on values. */
  ghost function Next(l: LaneState, t: TickInput): (LaneState, seq<Call>) {
    if !Runs(l.nextDue, t) then (l, [])
    else
      var r := JudgeAll(l.reruns, Requests(Queue(t, |t.prs|), |t.prs|, t.answers));
      (LaneState(r.0, Some(NextDue(t.now, t.config.minutes))), r.1)
  }

  ghost function RunTicks(ticks: seq<TickInput>): (LaneState, seq<Call>) {
    if ticks == [] then (LaneState(map[], None), [])
    else
      var before := RunTicks(ticks[..|ticks| - 1]);
      var step := Next(before.0, ticks[|ticks| - 1]);
      (step.0, before.1 + step.1)
  }

  /** A run of ticks makes some sequence of requests. */
  ghost function AllRequests(ticks: seq<TickInput>): seq<Call> {
    if ticks == [] then []
    else
      var t := ticks[|ticks| - 1];
      AllRequests(ticks[..|ticks| - 1])
      + (if Runs(RunTicks(ticks[..|ticks| - 1]).0.nextDue, t) then Requests(Queue(t, |t.prs|), |t.prs|, t.answers)
         else [])
  }

  lemma {:induction false} TicksAreRequests(ticks: seq<TickInput>)
    ensures (RunTicks(ticks).0.reruns, RunTicks(ticks).1) == JudgeAll(map[], AllRequests(ticks))
  {
    if ticks == [] {
    } else {
      var before, t := ticks[..|ticks| - 1], ticks[|ticks| - 1];
      TicksAreRequests(before);
      if Runs(RunTicks(before).0.nextDue, t) {
        JudgeInTwo(map[], AllRequests(before), Requests(Queue(t, |t.prs|), |t.prs|, t.answers));
      } else {
        assert AllRequests(before) + [] == AllRequests(before);
        assert RunTicks(before).1 + [] == RunTicks(before).1;
      }
    }
  }

  /** The bound, over any sequence of ticks. */
  lemma HealIsBounded(ticks: seq<TickInput>, run: int)
    requires |Above(ChargedRuns(RunTicks(ticks).1), run)| < 200
    ensures Bounded(RunTicks(ticks).1, run)
  {
    TicksAreRequests(ticks);
    RerunsAreBounded(AllRequests(ticks), run);
  }

  // ---- within one tick

  lemma {:induction false} AskRuns(runs: seq<int>, answers: int -> Answer)
    ensures forall i :: 0 <= i < |runs| ==> Ask(runs, answers)[i] == Call(runs[i], answers(runs[i]))
  {
    if runs == [] {
    } else {
      AskRuns(runs[..|runs| - 1], answers);
    }
  }

  ghost predicate OncePerRun(requests: seq<Call>) {
    forall i, j :: 0 <= i < j < |requests| ==> requests[i].run != requests[j].run
  }

  /** What one pull request adds to the tick's requests and to the set of handled runs. */
  lemma OnceJoin(before: seq<Call>, more: seq<Call>, handled: set<int>, runs: seq<int>, all: seq<Call>, after: set<int>)
    requires OncePerRun(before) && OncePerRun(more) && |more| == |runs|
    requires forall c :: c in before ==> c.run in handled
    requires forall i :: 0 <= i < |more| ==> more[i].run == runs[i] && runs[i] !in handled
    requires all == before + more && after == handled + Elements(runs)
    ensures OncePerRun(all) && forall c :: c in all ==> c.run in after
  {
    assert forall i :: 0 <= i < |before| ==> before[i] in before;
    forall c | c in before + more ensures c.run in handled + Elements(runs) {
      if c !in before {
        var i :| 0 <= i < |more| && more[i] == c;
        assert runs[i] in runs;
      }
    }
  }

  lemma FreshAskedOnce(runs: seq<int>, handled: set<int>, answers: int -> Answer)
    ensures var fresh', more := Fresh(runs, handled), Ask(Fresh(runs, handled), answers);
      OncePerRun(more) && forall i :: 0 <= i < |more| ==> more[i].run == fresh'[i] && fresh'[i] !in handled
  {
    var fresh' := Fresh(runs, handled);
    FilterIncreases(SortedSet(runs), run => run !in handled);
    AskRuns(fresh', answers);
    forall i | 0 <= i < |fresh'| ensures fresh'[i] !in handled { assert fresh'[i] in fresh'; }
  }

  /** A tick asks about each run at most once, however many pull requests show it. */
  lemma {:induction false} TickAsksOnce(prs: seq<seq<int>>, n: nat, answers: int -> Answer)
    requires n <= |prs|
    ensures OncePerRun(Requests(prs, n, answers))
    ensures forall c :: c in Requests(prs, n, answers) ==> c.run in HandledIn(prs, n)
  {
    if n == 0 {
    } else {
      TickAsksOnce(prs, n - 1, answers);
      var handled := HandledIn(prs, n - 1);
      var runs := Fresh(prs[n - 1], handled);
      FreshAskedOnce(prs[n - 1], handled, answers);
      OnceJoin(Requests(prs, n - 1, answers), Ask(runs, answers), handled, runs,
               Requests(prs, n, answers), HandledIn(prs, n));
    }
  }

  // ---- exactly how far the promise reaches

  lemma {:induction false} CallsAreRequests(reruns: map<int, Entry>, requests: seq<Call>)
    ensures forall c :: c in JudgeAll(reruns, requests).1 ==> c in requests
  {
    if requests == [] {
    } else {
      var before, last := requests[..|requests| - 1], requests[|requests| - 1];
      CallsAreRequests(reruns, before);
      assert requests == before + [last];
    }
  }

  /** The tick's pull requests show timed-out runs among the given ids only. */
  ghost predicate Shows(t: TickInput, ids: set<int>) {
    forall k, run :: 0 <= k < |t.prs| && run in Queue(t, |t.prs|)[k] ==> run in ids
  }

  lemma {:induction false} RequestsStep(prs: seq<seq<int>>, k: nat, answers: int -> Answer)
    requires k < |prs|
    ensures Requests(prs, k + 1, answers)
         == Requests(prs, k, answers) + Ask(Fresh(prs[k], HandledIn(prs, k)), answers)
    ensures HandledIn(prs, k + 1) == HandledIn(prs, k) + Elements(Fresh(prs[k], HandledIn(prs, k)))
  {
  }

  ghost predicate Within(calls: seq<Call>, ids: set<int>) {
    forall c :: c in calls ==> c.run in ids
  }

  lemma WithinJoin(a: seq<Call>, b: seq<Call>, all: seq<Call>, ids: set<int>)
    requires Within(a, ids) && Within(b, ids) && all == a + b
    ensures Within(all, ids)
  {
  }

  lemma {:induction false} AskedWithin(runs: seq<int>, handled: set<int>, answers: int -> Answer, ids: set<int>)
    requires forall run :: run in runs ==> run in ids
    ensures Within(Ask(Fresh(runs, handled), answers), ids)
  {
    var fresh' := Fresh(runs, handled);
    AskRuns(fresh', answers);
    forall c | c in Ask(fresh', answers) ensures c.run in ids {
      var i :| 0 <= i < |fresh'| && Ask(fresh', answers)[i] == c;
      assert fresh'[i] in fresh';
    }
  }

  lemma {:induction false} RequestsShow(prs: seq<seq<int>>, n: nat, answers: int -> Answer, ids: set<int>)
    requires n <= |prs| && forall k, run :: 0 <= k < n && run in prs[k] ==> run in ids
    ensures Within(Requests(prs, n, answers), ids)
  {
    for k := 0 to n
      invariant Within(Requests(prs, k, answers), ids)
    {
      RequestsStep(prs, k, answers);
      var more := Ask(Fresh(prs[k], HandledIn(prs, k)), answers);
      AskedWithin(prs[k], HandledIn(prs, k), answers, ids);
      WithinJoin(Requests(prs, k, answers), more, Requests(prs, k + 1, answers), ids);
    }
  }

  lemma {:induction false} AllRequestsShow(ticks: seq<TickInput>, ids: set<int>)
    requires forall t :: t in ticks ==> Shows(t, ids)
    ensures Within(AllRequests(ticks), ids)
  {
    if ticks == [] {
    } else {
      var before, t := ticks[..|ticks| - 1], ticks[|ticks| - 1];
      assert ticks == before + [t] && t in ticks;
      AllRequestsShow(before, ids);
      RequestsShow(Queue(t, |t.prs|), |t.prs|, t.answers, ids);
    }
  }

  /** Each id asked once, and accepted. */
  function Accepting(xs: seq<int>): seq<Call> {
    if xs == [] then [] else Accepting(xs[..|xs| - 1]) + [Call(xs[|xs| - 1], Accepted)]
  }

  lemma {:induction false} AcceptingRuns(xs: seq<int>)
    ensures ChargedRuns(Accepting(xs)) == Elements(xs)
    ensures forall run :: run in xs ==> Wins(Accepting(xs), run) >= 1
  {
    if xs == [] {
      assert ChargedRuns([]) == {};
    } else {
      var before, last := xs[..|xs| - 1], xs[|xs| - 1];
      AcceptingRuns(before);
      ChargedRunsSnoc(Accepting(before), Call(last, Accepted));
      assert xs == before + [last];
      forall run | run in xs ensures Wins(Accepting(xs), run) >= 1 {
        CallCounts(Accepting(before), Call(last, Accepted), run);
      }
    }
  }

  /** Distinct ids asked for the first time are all called. */
  lemma {:induction false} AcceptingIsCalled(xs: seq<int>)
    requires Increasing(xs)
    ensures JudgeAll(map[], Accepting(xs)).1 == Accepting(xs)
  {
    if xs == [] {
    } else {
      var before, last := xs[..|xs| - 1], xs[|xs| - 1];
      AcceptingIsCalled(before);
      assert Accepting(xs)[..|xs| - 1] == Accepting(before) by { AcceptingLength(before); }
      AcceptingRuns(before);
      assert last !in before by { assert forall i :: 0 <= i < |before| ==> before[i] == xs[i]; }
      UnchargedIsBounded(Accepting(before), last);
      AllowedExactly(Accepting(before), last);
      assert Accepting(xs)[|xs| - 1] == Call(last, Accepted) by { AcceptingLength(before); }
      AcceptingLength(xs);
    }
  }

  lemma {:induction false} AcceptingLength(xs: seq<int>)
    ensures |Accepting(xs)| == |xs|
  {
    if xs == [] {
    } else {
      AcceptingLength(xs[..|xs| - 1]);
    }
  }

  /** An accepted id is called, and accepted, again once 200 larger ids have been accepted. */
  lemma {:induction false} AcceptedTwice(xs: seq<int>)
    requires Increasing(xs) && |xs| > 200
    ensures Wins(JudgeAll(map[], Accepting(xs) + [Call(xs[0], Accepted)]).1, xs[0]) >= 2
  {
    var requests, again := Accepting(xs), Call(xs[0], Accepted);
    AcceptingIsCalled(xs);
    AcceptingRuns(xs);
    RankInSorted(xs, 0);
    AllowedExactly(requests, xs[0]);
    assert (requests + [again])[..|requests|] == requests;
    assert JudgeAll(map[], requests + [again]).1 == requests + [again];
    CallCounts(requests, again, xs[0]);
  }

  // ---- the same as ticks: one pull request per id, then the first one again

  const REQUIRED := ["Tests"]

  /** The head of a pull request whose required job, in the given workflow run, hit its time limit. */
  function Wedged(run: int): Option<seq<CheckRun>> {
    Some([CheckRun("Tests", Some(1), "completed", "cancelled", Some(run), [TIMEOUT_MESSAGE])])
  }

  lemma WedgedRun(run: int)
    ensures RunsOf(Wedged(run).value, REQUIRED, 1) == [run]
  {
    var runs := Wedged(run).value;
    assert runs[..0] == [];
    assert LatestOf(runs, "Tests") == Some(runs[0]);
    assert TIMEOUT_MESSAGE in runs[0].messages && Contains(TIMEOUT_MESSAGE, TIMEOUT_MESSAGE);
    assert RunsOf(runs, REQUIRED, 0) + RunOf(runs, REQUIRED[0]) == [run];
  }

  function WedgedTick(second: int, xs: seq<int>): TickInput {
    TickInput(Instant(second, 0), Config(1, REQUIRED, false, "mergequeue", "", true),
              seq(|xs|, i requires 0 <= i < |xs| => Wedged(xs[i])), (run: int) => Accepted)
  }

  lemma WedgedQueue(second: int, xs: seq<int>)
    ensures var t := WedgedTick(second, xs);
            |t.prs| == |xs| && forall k :: 0 <= k < |xs| ==> Queue(t, |t.prs|)[k] == [xs[k]]
  {
    var t := WedgedTick(second, xs);
    forall k | 0 <= k < |xs| ensures Shown(t, k) == [xs[k]] { WedgedRun(xs[k]); }
  }

  lemma FreshOne(run: int, handled: set<int>)
    requires run !in handled
    ensures Fresh([run], handled) == [run]
  {
    assert [run][1..] == [];
    var sorted := SortedSet([run]);
    assert sorted == Insert(run, SortedSet([run][1..])) == [run];
    var fresh' := Fresh([run], handled);
    assert run in [run] && run in fresh';
    FilterIncreases(sorted, x => x !in handled);
    IncreasingUnique(Filter(sorted, x => x !in handled), [run]);
  }

  lemma {:induction false} AcceptingStep(xs: seq<int>, k: nat)
    requires k < |xs|
    ensures Accepting(xs[..k + 1]) == Accepting(xs[..k]) + [Call(xs[k], Accepted)]
    ensures Elements(xs[..k + 1]) == Elements(xs[..k]) + {xs[k]}
  {
    TakeStep(xs, k);
    assert xs[..k + 1][..k] == xs[..k];
  }

  lemma OneAsked(run: int, handled: set<int>, answers: int -> Answer)
    requires run !in handled && answers(run) == Accepted
    ensures Ask(Fresh([run], handled), answers) == [Call(run, Accepted)]
    ensures Elements(Fresh([run], handled)) == {run}
  {
    FreshOne(run, handled);
    assert [run][..0] == [];
  }

  lemma {:induction false} WedgedStep(prs: seq<seq<int>>, xs: seq<int>, k: nat, answers: int -> Answer,
                                      made: seq<Call>, handled: set<int>)
    requires k < |xs| == |prs| && Increasing(xs) && prs[k] == [xs[k]] && answers(xs[k]) == Accepted
    requires made == Requests(prs, k, answers) && made == Accepting(xs[..k])
    requires handled == HandledIn(prs, k) && handled == Elements(xs[..k])
    ensures Requests(prs, k + 1, answers) == Accepting(xs[..k + 1]) && HandledIn(prs, k + 1) == Elements(xs[..k + 1])
  {
    assert xs[k] !in handled;
    RequestsStep(prs, k, answers);
    OneAsked(xs[k], handled, answers);
    AcceptingStep(xs, k);
  }

  lemma {:induction false} WedgedRequests(prs: seq<seq<int>>, xs: seq<int>, n: nat, answers: int -> Answer)
    requires n <= |xs| == |prs| && Increasing(xs) && (forall k :: 0 <= k < |xs| ==> prs[k] == [xs[k]])
    requires forall run :: answers(run) == Accepted
    ensures Requests(prs, n, answers) == Accepting(xs[..n]) && HandledIn(prs, n) == Elements(xs[..n])
  {
    for k := 0 to n
      invariant Requests(prs, k, answers) == Accepting(xs[..k]) && HandledIn(prs, k) == Elements(xs[..k])
    {
      WedgedStep(prs, xs, k, answers, Requests(prs, k, answers), HandledIn(prs, k));
    }
  }

  lemma WedgedTickRequests(second: int, xs: seq<int>)
    requires Increasing(xs)
    ensures var t := WedgedTick(second, xs); Requests(Queue(t, |t.prs|), |t.prs|, t.answers) == Accepting(xs)
  {
    var t := WedgedTick(second, xs);
    WedgedQueue(second, xs);
    WedgedRequests(Queue(t, |t.prs|), xs, |xs|, t.answers);
    TakeAll(xs);
  }

  lemma WedgedShows(second: int, xs: seq<int>, ids: set<int>)
    requires forall run :: run in xs ==> run in ids
    ensures Shows(WedgedTick(second, xs), ids)
  {
    WedgedQueue(second, xs);
    assert forall k :: 0 <= k < |xs| ==> xs[k] in xs;
  }

  /** Two ticks that both run make the requests of the first, then those of the second. */
  lemma {:induction false} BothTicksRequest(first: TickInput, second: TickInput, a: seq<Call>, b: seq<Call>)
    requires Runs(None, first) && Runs(Some(NextDue(first.now, first.config.minutes)), second)
    requires a == Requests(Queue(first, |first.prs|), |first.prs|, first.answers)
    requires b == Requests(Queue(second, |second.prs|), |second.prs|, second.answers)
    ensures AllRequests([first, second]) == a + b
  {
    FirstTick(first);
    assert [first, second][..1] == [first];
  }

  lemma {:induction false} FirstTick(first: TickInput)
    requires Runs(None, first)
    ensures AllRequests([first]) == Requests(Queue(first, |first.prs|), |first.prs|, first.answers)
    ensures RunTicks([first]).0.nextDue == Some(NextDue(first.now, first.config.minutes))
  {
    assert [first][..0] == [];
    assert RunTicks([]).0.nextDue == None;
  }

  lemma {:induction false} TwoTicks(xs: seq<int>)
    requires Increasing(xs) && xs != []
    ensures AllRequests([WedgedTick(0, xs), WedgedTick(60, [xs[0]])]) == Accepting(xs) + [Call(xs[0], Accepted)]
  {
    WedgedTickRequests(0, xs);
    WedgedTickRequests(60, [xs[0]]);
    BothTicksRequest(WedgedTick(0, xs), WedgedTick(60, [xs[0]]), Accepting(xs), Accepting([xs[0]]));
    assert [xs[0]][..0] == [];
  }

  /** A run id that gets a second accepted rerun: 200 larger ids are healed in between. */
  lemma SecondRerun(xs: seq<int>)
    requires Increasing(xs) && |xs| > 200
    ensures Wins(RunTicks([WedgedTick(0, xs), WedgedTick(60, [xs[0]])]).1, xs[0]) >= 2
  {
    var ticks := [WedgedTick(0, xs), WedgedTick(60, [xs[0]])];
    TwoTicks(xs);
    TicksAreRequests(ticks);
    AcceptedTwice(xs);
  }

  /** The promise -- one accepted rerun, a bounded number of calls, silence after acceptance -- holds of
      a run id over every sequence of ticks that shows the given ids, whatever GitHub answers, exactly
      when fewer than 200 of those ids are larger. */
  lemma OneRerunExactly(ids: set<int>, run: int)
    requires run in ids
    ensures (forall ticks: seq<TickInput> ::
               (forall t :: t in ticks ==> Shows(t, ids)) ==> Bounded(RunTicks(ticks).1, run))
       <==> |Above(ids, run)| < 200
  {
    if |Above(ids, run)| < 200 {
      forall ticks: seq<TickInput> | forall t :: t in ticks ==> Shows(t, ids) ensures Bounded(RunTicks(ticks).1, run) {
        FewLargerIds(ticks, ids, run);
      }
    } else {
      ManyLargerIds(ids, run);
    }
  }

  lemma FewLargerIds(ticks: seq<TickInput>, ids: set<int>, run: int)
    requires |Above(ids, run)| < 200 && forall t :: t in ticks ==> Shows(t, ids)
    ensures Bounded(RunTicks(ticks).1, run)
  {
    AllRequestsShow(ticks, ids);
    TicksAreRequests(ticks);
    CallsAreRequests(map[], AllRequests(ticks));
    AboveShrinks(ChargedRuns(RunTicks(ticks).1), ids, run);
    HealIsBounded(ticks, run);
  }

  /** The id and those of the set above it, in order. */
  lemma FromRunUp(ids: set<int>, run: int) returns (xs: seq<int>)
    requires run in ids
    ensures Increasing(xs) && |xs| == |Above(ids, run)| + 1 && xs[0] == run && forall x :: x in xs ==> x in ids
  {
    var above := SortedOf(Above(ids, run));
    xs := [run] + above;
    assert forall j :: 0 <= j < |above| ==> above[j] in above;
    SortedOfSize(Above(ids, run));
  }

  lemma {:induction false} ManyLargerIds(ids: set<int>, run: int)
    requires run in ids && |Above(ids, run)| >= 200
    ensures exists ticks: seq<TickInput> ::
      (forall t :: t in ticks ==> Shows(t, ids)) && !Bounded(RunTicks(ticks).1, run)
  {
    var xs := FromRunUp(ids, run);
    var ticks := [WedgedTick(0, xs), WedgedTick(60, [xs[0]])];
    WedgedShows(0, xs, ids);
    WedgedShows(60, [xs[0]], ids);
    SecondRerun(xs);
    assert forall t :: t in ticks ==> Shows(t, ids);
    assert !Bounded(RunTicks(ticks).1, run);
  }

  lemma SortedOfSize(s: set<int>)
    ensures |SortedOf(s)| == |s|
  {
    var xs := SortedOf(s);
    assert Elements(xs) == s;
    IncreasingSize(xs);
  }

  lemma {:induction false} IncreasingSize(xs: seq<int>)
    requires Increasing(xs)
    ensures |Elements(xs)| == |xs|
  {
    if xs == [] {
    } else {
      var before, last := xs[..|xs| - 1], xs[|xs| - 1];
      IncreasingSize(before);
      assert xs == before + [last] && last !in before;
      assert Elements(xs) == Elements(before) + {last};
    }
  }
}
