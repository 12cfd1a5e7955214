/** When the heal lane wakes, and which workflow runs it then asks about, by the fields of its input. */
module HealClock {
  import opened Sorting
  import opened Clock
  import opened TimedOutChecks
  import opened AggregateHeal
  import opened HealRuns

  /** The lane is switched on and has a merge queue to look at. */
  predicate SwitchedOn(c: Config) {
    && c.minutes >= 1 && |c.required| > 0 && !c.dryRun
    && (|c.queueLabel| > 0 || |c.queueBot| > 0) && c.publishes
  }

  /** Tick k is the last before i that woke. */
  predicate LastWake(wakes: seq<bool>, k: int, i: int) {
    0 <= k < i <= |wakes| && wakes[k] && forall m :: k < m < i ==> !wakes[m]
  }

  /** Tick i wakes when the lane is on and the interval set at the last waking tick is over. */
  ghost predicate Wakes(ticks: seq<TickInput>, wakes: seq<bool>, i: nat)
    requires i < |ticks| == |wakes|
  {
    && SwitchedOn(ticks[i].config)
    && forall k :: LastWake(wakes, k, i) ==>
         ticks[i].now.second >= ticks[k].now.second + 60 * ticks[k].config.minutes
  }

  ghost predicate WakesThroughout(ticks: seq<TickInput>, wakes: seq<bool>) {
    |wakes| == |ticks| && forall i: nat :: i < |ticks| ==> (wakes[i] <==> Wakes(ticks, wakes, i))
  }

  /** The next due second was set at the last waking tick. */
  ghost predicate DueFits(ticks: seq<TickInput>, wakes: seq<bool>, n: nat)
    requires n <= |ticks| == |wakes|
  {
    var due := RunTicks(ticks[..n]).0.nextDue;
    && (due.None? ==> forall k :: 0 <= k < n ==> !wakes[k])
    && (due.Some? ==> exists k :: LastWake(wakes, k, n)
                                  && due.value == ticks[k].now.second + 60 * ticks[k].config.minutes)
  }

  lemma LastWakeUnique(wakes: seq<bool>, j: int, k: int, n: int)
    requires LastWake(wakes, j, n) && LastWake(wakes, k, n)
    ensures j == k
  {
  }

  lemma RunsIsWakes(ticks: seq<TickInput>, wakes: seq<bool>, n: nat)
    requires n < |ticks| == |wakes| && DueFits(ticks, wakes, n)
    ensures Runs(RunTicks(ticks[..n]).0.nextDue, ticks[n]) <==> Wakes(ticks, wakes, n)
  {
    var due := RunTicks(ticks[..n]).0.nextDue;
    if due.Some? {
      var k :| LastWake(wakes, k, n) && due.value == ticks[k].now.second + 60 * ticks[k].config.minutes;
      forall j | LastWake(wakes, j, n) ensures j == k { LastWakeUnique(wakes, j, k, n); }
    }
  }

  lemma DueNext(ticks: seq<TickInput>, wakes: seq<bool>, n: nat)
    requires n < |ticks| == |wakes| && DueFits(ticks, wakes, n)
    requires wakes[n] <==> Runs(RunTicks(ticks[..n]).0.nextDue, ticks[n])
    ensures DueFits(ticks, wakes, n + 1)
  {
    assert ticks[..n + 1][..n] == ticks[..n];
    var due := RunTicks(ticks[..n]).0.nextDue;
    if wakes[n] {
      assert LastWake(wakes, n, n + 1);
    } else if due.Some? {
      var k :| LastWake(wakes, k, n) && due.value == ticks[k].now.second + 60 * ticks[k].config.minutes;
      assert LastWake(wakes, k, n + 1);
    }
  }

  /** Over any sequence of ticks the lane runs exactly at the ticks that wake. */
  lemma {:induction false} RunsByClock(ticks: seq<TickInput>, wakes: seq<bool>, i: nat)
    requires WakesThroughout(ticks, wakes) && i < |ticks|
    ensures Runs(RunTicks(ticks[..i]).0.nextDue, ticks[i]) <==> wakes[i]
  {
    assert DueFits(ticks, wakes, 0);
    for n := 0 to i
      invariant DueFits(ticks, wakes, n)
    {
      RunsIsWakes(ticks, wakes, n);
      DueNext(ticks, wakes, n);
    }
    RunsIsWakes(ticks, wakes, i);
  }

  // ---- what a waking tick asks about

  /** A pull request of the queue shows, as the newest run of a required check, one killed at its time limit. */
  ghost predicate Wedged(t: TickInput, run: int) {
    exists k :: 0 <= k < |t.prs| && t.prs[k].Some? && HoldsWedged(t.prs[k].value, t.config.required, run)
  }

  lemma {:induction false} HandledMembers(prs: seq<seq<int>>, n: nat, run: int)
    requires n <= |prs|
    ensures run in HandledIn(prs, n) <==> exists k :: 0 <= k < n && run in prs[k]
  {
    if n == 0 {
    } else {
      HandledMembers(prs, n - 1, run);
    }
  }

  ghost predicate Asks(requests: seq<Call>, run: int, answers: int -> Answer) {
    Call(run, answers(run)) in requests
  }

  lemma AskMembers(runs: seq<int>, answers: int -> Answer, run: int)
    ensures run in runs <==> Asks(Ask(runs, answers), run, answers)
  {
    var calls := Ask(runs, answers);
    AskRuns(runs, answers);
    if run in runs {
      var i :| 0 <= i < |runs| && runs[i] == run;
      assert calls[i] in calls;
    }
    if Asks(calls, run, answers) {
      var i :| 0 <= i < |calls| && calls[i] == Call(run, answers(run));
      assert runs[i] in runs;
    }
  }

  lemma AsksJoin(a: seq<Call>, b: seq<Call>, all: seq<Call>, run: int, answers: int -> Answer)
    requires all == a + b
    ensures Asks(all, run, answers) <==> Asks(a, run, answers) || Asks(b, run, answers)
  {
  }

  lemma OnePullRequest(before: seq<Call>, handled: set<int>, runs: seq<int>, all: seq<Call>, after: set<int>,
                       answers: int -> Answer, run: int)
    requires run in handled <==> Asks(before, run, answers)
    requires all == before + Ask(runs, answers) && after == handled + Elements(runs)
    ensures run in after <==> Asks(all, run, answers)
  {
    AskMembers(runs, answers, run);
    AsksJoin(before, Ask(runs, answers), all, run, answers);
  }

  lemma {:induction false} RequestsMembers(prs: seq<seq<int>>, n: nat, answers: int -> Answer, run: int)
    requires n <= |prs|
    ensures run in HandledIn(prs, n) <==> Asks(Requests(prs, n, answers), run, answers)
  {
    for k := 0 to n
      invariant run in HandledIn(prs, k) <==> Asks(Requests(prs, k, answers), run, answers)
    {
      RequestsStep(prs, k, answers);
      OnePullRequest(Requests(prs, k, answers), HandledIn(prs, k), Fresh(prs[k], HandledIn(prs, k)),
                     Requests(prs, k + 1, answers), HandledIn(prs, k + 1), answers, run);
    }
  }

  /** A waking tick asks GitHub about a workflow run exactly when a pull request of the queue shows it wedged. */
  lemma AskedExactlyWedged(t: TickInput, run: int)
    ensures Asks(Requests(Queue(t, |t.prs|), |t.prs|, t.answers), run, t.answers) <==> Wedged(t, run)
  {
    var queue := Queue(t, |t.prs|);
    HandledMembers(queue, |t.prs|, run);
    RequestsMembers(queue, |t.prs|, t.answers, run);
    forall k | 0 <= k < |t.prs|
      ensures run in queue[k] <==> t.prs[k].Some? && HoldsWedged(t.prs[k].value, t.config.required, run)
    {
      if t.prs[k].Some? { HealsByFields(t.prs[k].value, t.config.required, run); }
    }
  }
}
