/** The aggregate-job heal lane: one accepted rerun per workflow run, a bounded number of refused
    calls, and a memory pruned to the newest run ids. */
module AggregateHeal {
  import opened Sorting
  import opened Clock
  import opened TimedOutChecks

  const MAX_RERUN_CALLS := 3
  const KEEP_RUNS := 200

  datatype Entry = Entry(calls: nat, triggered: bool)

  /** What GitHub answers to a rerun request. */
  datatype Answer = Accepted | Refused | StillRunning

  datatype Call = Call(run: int, answer: Answer)

  function Lookup(reruns: map<int, Entry>, run: int): Option<Entry> {
    if run in reruns then Some(reruns[run]) else None
  }

  predicate RerunAllowed(entry: Option<Entry>) {
    entry.None? || (!entry.value.triggered && entry.value.calls < MAX_RERUN_CALLS)
  }

  // ---- pruning to the newest ids

  function Above(ids: set<int>, k: int): set<int> {
    set j | j in ids && j > k
  }

  /** The newest ids: those with fewer than KEEP_RUNS larger ones. */
  function Newest(ids: set<int>): set<int> {
    set k | k in ids && |Above(ids, k)| < KEEP_RUNS
  }

  function WithAttempt(reruns: map<int, Entry>, run: int, triggered: bool): map<int, Entry> {
    var previous := if run in reruns then reruns[run] else Entry(0, false);
    var after := reruns[run := Entry(previous.calls + 1, triggered || previous.triggered)];
    map k | k in Newest(after.Keys) :: after[k]
  }

  // ---- one request

  function Judge(reruns: map<int, Entry>, run: int, answer: Answer): (map<int, Entry>, seq<Call>) {
    if !RerunAllowed(Lookup(reruns, run)) then (reruns, [])
    else if answer == StillRunning then (reruns, [Call(run, answer)])
    else (WithAttempt(reruns, run, answer == Accepted), [Call(run, answer)])
  }

  /** Requests in the order the lane makes them. */
  function JudgeAll(reruns: map<int, Entry>, requests: seq<Call>): (map<int, Entry>, seq<Call>) {
    if requests == [] then (reruns, [])
    else
      var before := JudgeAll(reruns, requests[..|requests| - 1]);
      var last := requests[|requests| - 1];
      var step := Judge(before.0, last.run, last.answer);
      (step.0, before.1 + step.1)
  }

  // ---- one tick

  /** `sorted(runs - handled)` */
  function Fresh(runs: seq<int>, handled: set<int>): (r: seq<int>)
    ensures forall x :: x in r <==> x in runs && x !in handled
  {
    Filter(SortedSet(runs), run => run !in handled)
  }

  function HandledIn(prs: seq<seq<int>>, n: nat): set<int>
    requires n <= |prs|
  {
    if n == 0 then {} else HandledIn(prs, n - 1) + Elements(Fresh(prs[n - 1], HandledIn(prs, n - 1)))
  }

  function Ask(runs: seq<int>, answers: int -> Answer): (r: seq<Call>)
    ensures |r| == |runs|
  {
    if runs == [] then [] else Ask(runs[..|runs| - 1], answers) + [Call(runs[|runs| - 1], answers(runs[|runs| - 1]))]
  }

  /** The requests of the first n pull requests of a tick. */
  function Requests(prs: seq<seq<int>>, n: nat, answers: int -> Answer): seq<Call>
    requires n <= |prs|
  {
    if n == 0 then [] else Requests(prs, n - 1, answers) + Ask(Fresh(prs[n - 1], HandledIn(prs, n - 1)), answers)
  }

  /** Nothing scheduled, or the scheduled second has come. */
  predicate Due(nextDue: Option<int>, now: Instant) {
    nextDue.None? || now.second >= nextDue.value
  }

  /** The configuration: `queueLabel` and `queueBot` name the merge queue's label and login, "" when unset;
      `publishes` says whether the client publishes pull requests. */
  datatype Config = Config(minutes: int, required: seq<string>, dryRun: bool, queueLabel: string, queueBot: string,
                           publishes: bool)

  /** What a tick is given: the clock, the configuration, the check runs on the head of each pull
      request of the queue (None when unreadable), and GitHub's answers. */
  datatype TickInput = TickInput(now: Instant, config: Config, prs: seq<Option<seq<CheckRun>>>, answers: int -> Answer)

  /** The lane is on, and its next tick has come. */
  predicate Runs(nextDue: Option<int>, t: TickInput) {
    && t.config.minutes > 0 && t.config.required != [] && !t.config.dryRun
    && (t.config.queueLabel != "" || t.config.queueBot != "") && t.config.publishes
    && Due(nextDue, t.now)
  }

  /** The workflow runs to heal of one pull request. */
  function Shown(t: TickInput, k: nat): seq<int>
    requires k < |t.prs|
  {
    if t.prs[k].Some? then RunsOf(t.prs[k].value, t.config.required, |t.config.required|) else []
  }

  /** The same for the first n pull requests. */
  function Queue(t: TickInput, n: nat): seq<seq<int>>
    requires n <= |t.prs|
  {
    seq(n, k requires 0 <= k < n => Shown(t, k))
  }

  /** The stamp of the next tick, in whole seconds. */
  function NextDue(now: Instant, minutes: int): int {
    CutToSecond(Instant(now.second + 60 * minutes, now.micro)).second
  }

  function Accepts(calls: seq<Call>): nat {
    if calls == [] then 0 else Accepts(calls[..|calls| - 1]) + if calls[|calls| - 1].answer == Accepted then 1 else 0
  }

  lemma {:induction false} JudgeInTwo(reruns: map<int, Entry>, a: seq<Call>, b: seq<Call>)
    ensures JudgeAll(reruns, a + b).0 == JudgeAll(JudgeAll(reruns, a).0, b).0
    ensures JudgeAll(reruns, a + b).1 == JudgeAll(reruns, a).1 + JudgeAll(JudgeAll(reruns, a).0, b).1
    decreases |b|
  {
    if b == [] {
      assert a + b == a;
    } else {
      assert (a + b)[..|a + b| - 1] == a + b[..|b| - 1];
      JudgeInTwo(reruns, a, b[..|b| - 1]);
    }
  }

  lemma {:induction false} JudgeSnoc(reruns: map<int, Entry>, requests: seq<Call>, c: Call)
    ensures var before := JudgeAll(reruns, requests);
            var step := Judge(before.0, c.run, c.answer);
            JudgeAll(reruns, requests + [c]) == (step.0, before.1 + step.1)
  {
    assert (requests + [c])[..|requests|] == requests;
  }

  lemma {:induction false} AskStep(runs: seq<int>, k: nat, answers: int -> Answer)
    requires k < |runs|
    ensures Ask(runs[..k + 1], answers) == Ask(runs[..k], answers) + [Call(runs[k], answers(runs[k]))]
  {
    assert runs[..k + 1][..k] == runs[..k];
  }

  lemma {:induction false} AcceptsSnoc(calls: seq<Call>, c: Call)
    ensures Accepts(calls + [c]) == Accepts(calls) + if c.answer == Accepted then 1 else 0
  {
    assert (calls + [c])[..|calls|] == calls;
  }

  lemma TickStep(start: map<int, Entry>, prs: seq<seq<int>>, k: nat, answers: int -> Answer,
                 before: map<int, Entry>, calls: seq<Call>, after: map<int, Entry>, more: seq<Call>)
    requires k < |prs| && (before, calls) == JudgeAll(start, Requests(prs, k, answers))
    requires (after, more) == JudgeAll(before, Ask(Fresh(prs[k], HandledIn(prs, k)), answers))
    ensures (after, calls + more) == JudgeAll(start, Requests(prs, k + 1, answers))
    ensures Accepts(calls + more) == Accepts(calls) + Accepts(more)
  {
    JudgeInTwo(start, Requests(prs, k, answers), Ask(Fresh(prs[k], HandledIn(prs, k)), answers));
    AcceptsJoin(calls, more);
  }

  class Lane {
    var reruns: map<int, Entry>
    var nextDue: Option<int>

    constructor ()
      ensures reruns == map[] && nextDue == None
    {
      reruns, nextDue := map[], None;
    }

    /** `heal_wedged_aggregates` */
    method Tick(t: TickInput) returns (calls: seq<Call>, triggered: nat)
      modifies this
      ensures !Runs(old(nextDue), t) ==> calls == [] && reruns == old(reruns) && nextDue == old(nextDue)
      ensures Runs(old(nextDue), t) ==>
        && (reruns, calls) == JudgeAll(old(reruns), Requests(Queue(t, |t.prs|), |t.prs|, t.answers))
        && nextDue == Some(NextDue(t.now, t.config.minutes))
      ensures triggered == Accepts(calls)
    {
      calls, triggered := [], 0;
      if t.config.minutes <= 0 || t.config.required == [] || t.config.dryRun { return; }
      if !(t.config.queueLabel != "" || t.config.queueBot != "") || !t.config.publishes { return; }
      if nextDue.Some? && t.now.second < nextDue.value { return; }
      nextDue := Some(NextDue(t.now, t.config.minutes));
      var queue: seq<seq<int>> := [];
      for k := 0 to |t.prs|
        invariant queue == Queue(t, k)
        invariant nextDue == Some(NextDue(t.now, t.config.minutes)) && reruns == old(reruns)
      {
        var runs: seq<int> := [];
        if t.prs[k].Some? { runs := TimedOutRuns(t.prs[k].value, t.config.required); }
        assert runs == Shown(t, k);
        queue := queue + [runs];
      }
      calls, triggered := HealAll(queue, t.answers);
    }

    method HealAll(prs: seq<seq<int>>, answers: int -> Answer) returns (calls: seq<Call>, triggered: nat)
      modifies `reruns
      ensures (reruns, calls) == JudgeAll(old(reruns), Requests(prs, |prs|, answers))
      ensures triggered == Accepts(calls)
    {
      calls, triggered := [], 0;
      var handled: set<int> := {};
      for k := 0 to |prs|
        invariant handled == HandledIn(prs, k) && triggered == Accepts(calls)
        invariant (reruns, calls) == JudgeAll(old(reruns), Requests(prs, k, answers))
      {
        var runs := Fresh(prs[k], handled);
        handled := handled + Elements(runs);
        ghost var before := reruns;
        var more, accepted := Heal(runs, answers);
        TickStep(old(reruns), prs, k, answers, before, calls, reruns, more);
        calls, triggered := calls + more, triggered + accepted;
      }
    }

    /** The runs of one pull request. */
    method Heal(runs: seq<int>, answers: int -> Answer) returns (calls: seq<Call>, accepted: nat)
      modifies `reruns
      ensures (reruns, calls) == JudgeAll(old(reruns), Ask(runs, answers))
      ensures accepted == Accepts(calls)
    {
      calls, accepted := [], 0;
      assert runs[..0] == [];
      for k := 0 to |runs|
        invariant (reruns, calls) == JudgeAll(old(reruns), Ask(runs[..k], answers))
        invariant accepted == Accepts(calls)
      {
        var run := runs[k];
        AskStep(runs, k, answers);
        JudgeSnoc(old(reruns), Ask(runs[..k], answers), Call(run, answers(run)));
        if RerunAllowed(Lookup(reruns, run)) {
          var call := Call(run, answers(run));
          AcceptsSnoc(calls, call);
          calls := calls + [call];
          if call.answer != StillRunning {
            reruns := WithAttempt(reruns, run, call.answer == Accepted);
            accepted := accepted + if call.answer == Accepted then 1 else 0;
          }
        } else {
          assert calls + [] == calls;
        }
      }
      TakeAll(runs);
    }
  }

  lemma {:induction false} AcceptsJoin(a: seq<Call>, b: seq<Call>)
    ensures Accepts(a + b) == Accepts(a) + Accepts(b)
    decreases |b|
  {
    if b == [] {
      assert a + b == a;
    } else {
      assert (a + b)[..|a + b| - 1] == a + b[..|b| - 1];
      AcceptsJoin(a, b[..|b| - 1]);
    }
  }

  // ---- what the calls of a run of ticks say about one workflow run

  predicate Charges(c: Call, run: int) {
    c.run == run && c.answer != StillRunning
  }

  function Charged(calls: seq<Call>, run: int): nat {
    if calls == [] then 0 else Charged(calls[..|calls| - 1], run) + if Charges(calls[|calls| - 1], run) then 1 else 0
  }

  function Wins(calls: seq<Call>, run: int): nat {
    if calls == [] then 0
    else Wins(calls[..|calls| - 1], run) + if calls[|calls| - 1] == Call(run, Accepted) then 1 else 0
  }

  /** Every run id a call was ever charged to. */
  function ChargedRuns(calls: seq<Call>): set<int> {
    set c | c in calls && c.answer != StillRunning :: c.run
  }

  // ---- counting larger ids

  lemma AboveShrinks(a: set<int>, b: set<int>, k: int)
    requires a <= b
    ensures |Above(a, k)| <= |Above(b, k)|
  {
    SubsetSize(Above(a, k), Above(b, k));
  }

  /** `top` holds every id of `ids` that is larger than one of its members. */
  ghost predicate UpwardClosed(top: set<int>, ids: set<int>) {
    top <= ids && forall x, y :: x in top && y in ids && y > x ==> y in top
  }

  lemma {:induction false} TopOf(ids: set<int>, top: set<int>, n: nat) returns (best: set<int>)
    requires UpwardClosed(top, ids) && |top| >= n
    ensures UpwardClosed(best, ids) && best <= top && |best| == n
    decreases |top|
  {
    best := top;
    if exists x :: x in top {
      if |top| > n {
        var x :| x in top;
        var m := LeastOfSet(top, x);
        assert UpwardClosed(top - {m}, ids);
        best := TopOf(ids, top - {m}, n);
      }
    } else {
      assert top == {};
    }
  }

  /** Any KEEP_RUNS ids that are the largest of their set are kept. */
  lemma TopIsKept(ids: set<int>, best: set<int>)
    requires UpwardClosed(best, ids) && |best| <= KEEP_RUNS
    ensures best <= Newest(ids)
  {
    forall k | k in best ensures k in Newest(ids) {
      var above := Above(ids, k);
      assert above <= best - {k};
      SubsetSize(above, best - {k});
    }
  }

  /** An id with KEEP_RUNS larger ids still has that many among the kept ones. */
  lemma KeptAbove(ids: set<int>, k: int)
    requires |Above(ids, k)| >= KEEP_RUNS
    ensures |Above(Newest(ids), k)| >= KEEP_RUNS
  {
    assert UpwardClosed(Above(ids, k), ids);
    var best := TopOf(ids, Above(ids, k), KEEP_RUNS);
    TopIsKept(ids, best);
    assert best <= Above(Newest(ids), k);
    SubsetSize(best, Above(Newest(ids), k));
  }

  /** Pruning after every step keeps the same ids as pruning once at the end. */
  lemma PruneTwice(ids: set<int>, x: int)
    ensures Newest(Newest(ids) + {x}) == Newest(ids + {x})
  {
    forall k ensures k in Newest(Newest(ids) + {x}) <==> k in Newest(ids + {x}) {
      var kept, all := Newest(ids) + {x}, ids + {x};
      AboveShrinks(kept, all, k);
      AboveShrinks(ids, all, k);
      if k in kept && |Above(ids, k)| >= KEEP_RUNS {
        KeptAbove(ids, k);
        AboveShrinks(Newest(ids), kept, k);
      } else if k in kept {
        forall j | j in Above(ids, k) ensures j in Newest(ids) {
          assert Above(ids, j) <= Above(ids, k);
          SubsetSize(Above(ids, j), Above(ids, k));
        }
        assert Above(kept, k) == Above(all, k);
      }
    }
  }

  lemma {:induction false} RankInSorted(xs: seq<int>, i: nat)
    requires Increasing(xs) && i < |xs|
    ensures |Above(Elements(xs), xs[i])| == |xs| - 1 - i
    decreases |xs| - i
  {
    if i == |xs| - 1 {
      forall x | x in xs ensures x <= xs[i] { var j :| 0 <= j < |xs| && xs[j] == x; }
      assert Above(Elements(xs), xs[i]) == {};
    } else {
      RankInSorted(xs, i + 1);
      var above := Above(Elements(xs), xs[i + 1]);
      forall x | x in xs && x > xs[i] ensures x in above + {xs[i + 1]} { var j :| 0 <= j < |xs| && xs[j] == x; }
      assert Above(Elements(xs), xs[i]) == above + {xs[i + 1]};
    }
  }

  lemma NewestByIndex(xs: seq<int>, i: nat)
    requires Increasing(xs) && i < |xs|
    ensures xs[i] in Newest(Elements(xs)) <==> i + KEEP_RUNS >= |xs|
  {
    RankInSorted(xs, i);
    assert xs[i] in Elements(xs);
  }

  /** `sorted(reruns)[-200:]`: the ids with fewer than 200 larger ones are the tail of the sorted list. */
  lemma NewestIsSortedTail(xs: seq<int>)
    requires Increasing(xs)
    ensures Newest(Elements(xs)) == Elements(if |xs| > 200 then xs[|xs| - 200..] else xs)
  {
    var cut := if |xs| > KEEP_RUNS then |xs| - KEEP_RUNS else 0;
    var tail := xs[cut..];
    assert |xs| <= KEEP_RUNS ==> tail == xs;
    forall k | k in Newest(Elements(xs)) ensures k in tail {
      var i :| 0 <= i < |xs| && xs[i] == k;
      NewestByIndex(xs, i);
      assert tail[i - cut] == k;
    }
    forall j | 0 <= j < |tail| ensures tail[j] in Newest(Elements(xs)) {
      assert tail[j] == xs[j + cut];
      NewestByIndex(xs, j + cut);
    }
  }

  // ---- the invariant of the memory

  ghost predicate SilentAfterAcceptance(calls: seq<Call>, run: int) {
    forall i, j :: 0 <= i < j < |calls| && calls[i] == Call(run, Accepted) ==> calls[j].run != run
  }

  ghost predicate Bounded(calls: seq<Call>, run: int) {
    Charged(calls, run) <= 3 && Wins(calls, run) <= 1 && SilentAfterAcceptance(calls, run)
  }

  ghost predicate Remembers(calls: seq<Call>, run: int, e: Entry) {
    e.calls == Charged(calls, run) && e.triggered == (Wins(calls, run) > 0) && Bounded(calls, run)
  }

  /** The memory holds the newest ids ever charged, each with its true history. */
  ghost predicate Faithful(reruns: map<int, Entry>, calls: seq<Call>) {
    && reruns.Keys == Newest(ChargedRuns(calls))
    && forall r :: r in reruns ==> Remembers(calls, r, reruns[r])
  }

  lemma ChargedRunsSnoc(calls: seq<Call>, c: Call)
    ensures ChargedRuns(calls + [c]) == ChargedRuns(calls) + if c.answer != StillRunning then {c.run} else {}
  {
    assert forall x :: x in calls + [c] <==> x in calls || x == c;
    forall r ensures r in ChargedRuns(calls + [c])
      <==> r in ChargedRuns(calls) || (c.answer != StillRunning && r == c.run)
    {
      if c.answer != StillRunning && r == c.run { assert c in calls + [c]; }
    }
  }

  lemma {:induction false} NeverCharged(calls: seq<Call>, run: int)
    requires run !in ChargedRuns(calls)
    ensures Charged(calls, run) == 0 && Wins(calls, run) == 0
  {
    if calls == [] {
    } else {
      var last := calls[|calls| - 1];
      assert calls == calls[..|calls| - 1] + [last];
      ChargedRunsSnoc(calls[..|calls| - 1], last);
      NeverCharged(calls[..|calls| - 1], run);
    }
  }

  lemma {:induction false} NoWins(calls: seq<Call>, run: int)
    requires Wins(calls, run) == 0
    ensures forall i :: 0 <= i < |calls| ==> calls[i] != Call(run, Accepted)
  {
    if calls == [] {
    } else {
      var before := calls[..|calls| - 1];
      NoWins(before, run);
      assert forall i :: 0 <= i < |before| ==> before[i] == calls[i];
    }
  }

  lemma CallCounts(calls: seq<Call>, c: Call, run: int)
    ensures Charged(calls + [c], run) == Charged(calls, run) + if Charges(c, run) then 1 else 0
    ensures Wins(calls + [c], run) == Wins(calls, run) + if c == Call(run, Accepted) then 1 else 0
  {
    assert (calls + [c])[..|calls|] == calls;
  }

  /** A call to another run, or to one never accepted and short of its budget, keeps the bounds. */
  lemma CallKeepsBounds(calls: seq<Call>, c: Call, run: int)
    requires Bounded(calls, run)
    requires c.run == run ==> Wins(calls, run) == 0 && Charged(calls, run) < MAX_RERUN_CALLS
    ensures Bounded(calls + [c], run)
  {
    CallCounts(calls, c, run);
    if c.run == run { NoWins(calls, run); }
  }

  lemma UnchargedIsBounded(calls: seq<Call>, run: int)
    requires run !in ChargedRuns(calls)
    ensures Bounded(calls, run) && Wins(calls, run) == 0 && Charged(calls, run) == 0
  {
    NeverCharged(calls, run);
    NoWins(calls, run);
  }

  lemma WithAttemptKeys(reruns: map<int, Entry>, run: int, triggered: bool)
    ensures WithAttempt(reruns, run, triggered).Keys == Newest(reruns.Keys + {run})
  {
    var previous := if run in reruns then reruns[run] else Entry(0, false);
    var after := reruns[run := Entry(previous.calls + 1, triggered || previous.triggered)];
    assert after.Keys == reruns.Keys + {run};
  }

  lemma AfterCharge(reruns: map<int, Entry>, calls: seq<Call>, run: int, answer: Answer, r: int)
    requires Faithful(reruns, calls) && RerunAllowed(Lookup(reruns, run)) && answer != StillRunning
    requires r in WithAttempt(reruns, run, answer == Accepted)
    ensures Remembers(calls + [Call(run, answer)], r, WithAttempt(reruns, run, answer == Accepted)[r])
  {
    var ids := ChargedRuns(calls);
    ChargedRunsSnoc(calls, Call(run, answer));
    CallCounts(calls, Call(run, answer), r);
    if r !in reruns {
      assert r == run;
      WithAttemptKeys(reruns, run, answer == Accepted);
      PruneTwice(ids, run);
      AboveShrinks(ids, ids + {run}, r);
      assert r !in ids;
      UnchargedIsBounded(calls, r);
    }
    CallKeepsBounds(calls, Call(run, answer), r);
  }

  lemma ChargeKeepsFaithful(reruns: map<int, Entry>, calls: seq<Call>, run: int, answer: Answer)
    requires Faithful(reruns, calls) && RerunAllowed(Lookup(reruns, run)) && answer != StillRunning
    ensures Faithful(WithAttempt(reruns, run, answer == Accepted), calls + [Call(run, answer)])
  {
    var after := WithAttempt(reruns, run, answer == Accepted);
    ChargedRunsSnoc(calls, Call(run, answer));
    PruneTwice(ChargedRuns(calls), run);
    WithAttemptKeys(reruns, run, answer == Accepted);
    forall r | r in after ensures Remembers(calls + [Call(run, answer)], r, after[r]) {
      AfterCharge(reruns, calls, run, answer, r);
    }
  }

  lemma DeferralKeepsFaithful(reruns: map<int, Entry>, calls: seq<Call>, run: int)
    requires Faithful(reruns, calls) && RerunAllowed(Lookup(reruns, run))
    ensures Faithful(reruns, calls + [Call(run, StillRunning)])
  {
    var c := Call(run, StillRunning);
    ChargedRunsSnoc(calls, c);
    assert ChargedRuns(calls + [c]) == ChargedRuns(calls);
    forall r | r in reruns ensures Remembers(calls + [c], r, reruns[r]) {
      assert Remembers(calls, r, reruns[r]);
      CallCounts(calls, c, r);
      CallKeepsBounds(calls, c, r);
    }
  }

  lemma {:induction false} MemoryIsFaithful(requests: seq<Call>)
    ensures Faithful(JudgeAll(map[], requests).0, JudgeAll(map[], requests).1)
  {
    if requests == [] {
      assert ChargedRuns([]) == {};
    } else {
      var before, last := requests[..|requests| - 1], requests[|requests| - 1];
      MemoryIsFaithful(before);
      var (reruns, calls) := JudgeAll(map[], before);
      if RerunAllowed(Lookup(reruns, last.run)) {
        if last.answer == StillRunning {
          DeferralKeepsFaithful(reruns, calls, last.run);
        } else {
          ChargeKeepsFaithful(reruns, calls, last.run, last.answer);
        }
      } else {
        assert calls + [] == calls;
      }
    }
  }

  /** Whatever GitHub answers over any requests: a run id with fewer than 200 larger ids ever charged
      gets at most one accepted rerun, at most three charged calls, and no call after the accepted one. */
  lemma RerunsAreBounded(requests: seq<Call>, run: int)
    requires |Above(ChargedRuns(JudgeAll(map[], requests).1), run)| < 200
    ensures Bounded(JudgeAll(map[], requests).1, run)
  {
    MemoryIsFaithful(requests);
    var (reruns, calls) := JudgeAll(map[], requests);
    if run in ChargedRuns(calls) {
      assert run in reruns;
    } else {
      UnchargedIsBounded(calls, run);
    }
  }

  /** The guard, exactly: a call is allowed when the run id has 200 larger ids charged, or has
      neither been accepted nor spent its budget. */
  lemma AllowedExactly(requests: seq<Call>, run: int)
    ensures var calls := JudgeAll(map[], requests).1;
            RerunAllowed(Lookup(JudgeAll(map[], requests).0, run))
            <==> || |Above(ChargedRuns(calls), run)| >= 200
                 || (Wins(calls, run) == 0 && Charged(calls, run) < 3)
  {
    MemoryIsFaithful(requests);
    var calls := JudgeAll(map[], requests).1;
    if run !in ChargedRuns(calls) { NeverCharged(calls, run); }
  }
}
