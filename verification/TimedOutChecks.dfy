/** Which workflow runs of a pull request hold a required check that timed out
    (`_latest_check_runs_by_name`, `cancelled_required_checks`, `is_timeout_cancel`). */
module TimedOutChecks {
  import opened Sorting

  /** A check run; `name` is "" and `id` None when absent, `workflow` is the run id in its details link,
      `messages` are its annotations' messages, lower-cased. */
  datatype CheckRun = CheckRun(name: string, id: Option<int>, status: string, conclusion: string,
                               workflow: Option<int>, messages: seq<string>)

  const TIMEOUT_MESSAGE := "exceeded the maximum " + "execution time"

  function IdOf(c: CheckRun): int {
    if c.id.Some? then c.id.value else 0
  }

  /** The run of the name with the highest id, the first listed among equals. */
  function LatestOf(runs: seq<CheckRun>, name: string): Option<CheckRun> {
    if runs == [] then None
    else
      var before, last := LatestOf(runs[..|runs| - 1], name), runs[|runs| - 1];
      if last.name == name && name != "" && (before.None? || IdOf(last) > IdOf(before.value)) then Some(last)
        else before
  }

  method LatestByName(runs: seq<CheckRun>) returns (latest: map<string, CheckRun>)
    ensures forall name :: LatestOf(runs, name) == if name in latest then Some(latest[name]) else None
  {
    latest := map[];
    for i := 0 to |runs|
      invariant forall name :: LatestOf(runs[..i], name) == if name in latest then Some(latest[name]) else None
    {
      var run := runs[i];
      assert runs[..i + 1][..i] == runs[..i];
      assert LatestOf(runs[..i], run.name) == if run.name in latest then Some(latest[run.name]) else None;
      if run.name != "" && (run.name !in latest || IdOf(run) > IdOf(latest[run.name])) {
        latest := latest[run.name := run];
      }
    }
    TakeAll(runs);
  }

  predicate Contains(s: string, part: string) {
    part <= s || (s != [] && Contains(s[1..], part))
  }

  predicate IsTimeoutCancel(messages: seq<string>) {
    exists m :: m in messages && Contains(m, TIMEOUT_MESSAGE)
  }

  /** A completed, cancelled Actions job that its annotations say was killed at its time limit. */
  predicate TimedOut(c: CheckRun) {
    && c.status == "completed" && c.conclusion == "cancelled"
    && c.id.Some? && c.workflow.Some? && IsTimeoutCancel(c.messages)
  }

  function RunOf(runs: seq<CheckRun>, name: string): seq<int> {
    var latest := LatestOf(runs, name);
    if latest.Some? && TimedOut(latest.value) then [latest.value.workflow.value] else []
  }

  /** The workflow runs of the first n required names. */
  function RunsOf(runs: seq<CheckRun>, required: seq<string>, n: nat): seq<int>
    requires n <= |required|
  {
    if n == 0 then [] else RunsOf(runs, required, n - 1) + RunOf(runs, required[n - 1])
  }

  method TimedOutRuns(runs: seq<CheckRun>, required: seq<string>) returns (found: seq<int>)
    ensures found == RunsOf(runs, required, |required|)
  {
    var latest := LatestByName(runs);
    found := [];
    for i := 0 to |required|
      invariant found == RunsOf(runs, required, i)
    {
      var name := required[i];
      assert LatestOf(runs, name) == if name in latest then Some(latest[name]) else None;
      if name in latest && TimedOut(latest[name]) {
        found := found + [latest[name].workflow.value];
      } else {
        assert found + [] == found;
      }
    }
  }

  // ---- what is judged: the newest run of a name, never a superseded one

  lemma {:induction false} LatestIsNewest(runs: seq<CheckRun>, name: string)
    ensures var latest := LatestOf(runs, name);
            && (latest.Some? ==> latest.value in runs && latest.value.name == name && name != "")
            && (forall c :: c in runs && c.name == name && name != "" ==> latest.Some? && IdOf(c) <= IdOf(latest.value))
  {
    if runs == [] {
    } else {
      LatestIsNewest(runs[..|runs| - 1], name);
      assert forall c :: c in runs <==> c in runs[..|runs| - 1] || c == runs[|runs| - 1] by {
        assert runs == runs[..|runs| - 1] + [runs[|runs| - 1]];
      }
    }
  }

  lemma {:induction false} RunsMembers(runs: seq<CheckRun>, required: seq<string>, n: nat, run: int)
    requires n <= |required|
    ensures run in RunsOf(runs, required, n) <==> exists i :: 0 <= i < n && run in RunOf(runs, required[i])
  {
    if n == 0 {
    } else {
      RunsMembers(runs, required, n - 1, run);
      var more := RunOf(runs, required[n - 1]);
      assert run in RunsOf(runs, required, n - 1) + more <==> run in RunsOf(runs, required, n - 1) || run in more;
    }
  }

  /** A workflow run is up for healing exactly when it holds the newest run of a required check, and
      that one timed out. */
  lemma HealsNewestOnly(runs: seq<CheckRun>, required: seq<string>, run: int)
    ensures run in RunsOf(runs, required, |required|)
       <==> exists name :: name in required && LatestOf(runs, name).Some? && TimedOut(LatestOf(runs, name).value)
                        && LatestOf(runs, name).value.workflow == Some(run)
    ensures run in RunsOf(runs, required, |required|) ==>
      exists c :: && c in runs && c.name in required && TimedOut(c) && c.workflow == Some(run)
                  && forall d :: d in runs && d.name == c.name ==> IdOf(d) <= IdOf(c)
  {
    RunsMembers(runs, required, |required|, run);
    if run in RunsOf(runs, required, |required|) {
      var i :| 0 <= i < |required| && run in RunOf(runs, required[i]);
      LatestIsNewest(runs, required[i]);
      assert required[i] in required && LatestOf(runs, required[i]).value in runs;
    }
    forall name | name in required && LatestOf(runs, name).Some? && TimedOut(LatestOf(runs, name).value)
               && LatestOf(runs, name).value.workflow == Some(run)
      ensures run in RunsOf(runs, required, |required|)
    {
      var i :| 0 <= i < |required| && required[i] == name;
      assert run in RunOf(runs, required[i]);
    }
  }

  // ---- the same, field by field

  predicate OccursAt(message: string, part: string, k: nat) {
    k + |part| <= |message| && message[k..k + |part|] == part
  }

  /** The text occurs somewhere in the message. */
  ghost predicate Occurs(message: string, part: string) {
    exists k: nat :: OccursAt(message, part, k)
  }

  lemma OccursLater(s: string, part: string, k: nat)
    requires s != []
    ensures OccursAt(s, part, k + 1) <==> OccursAt(s[1..], part, k)
  {
    if k + 1 + |part| <= |s| { assert s[1..][k..k + |part|] == s[k + 1..k + 1 + |part|]; }
  }

  lemma {:induction false} ContainsIs(s: string, part: string)
    ensures Contains(s, part) <==> Occurs(s, part)
  {
    assert OccursAt(s, part, 0) <==> part <= s;
    if part <= s {
    } else if s != [] {
      ContainsIs(s[1..], part);
      if k: nat :| OccursAt(s[1..], part, k) { OccursLater(s, part, k); }
      if k: nat :| OccursAt(s, part, k) { OccursLater(s, part, k - 1); }
    }
  }

  /** Run i of the listing is the newest of its name: none has a higher id, and none before it as high an id;
      a run without an id counts as 0. */
  predicate NewestOfName(runs: seq<CheckRun>, i: int) {
    && 0 <= i < |runs| && runs[i].id.Some?
    && forall j :: 0 <= j < |runs| && runs[j].name == runs[i].name ==>
         var id := if runs[j].id.Some? then runs[j].id.value else 0;
         id <= runs[i].id.value && (j < i ==> id < runs[i].id.value)
  }

  ghost predicate KilledAtLimit(c: CheckRun) {
    && c.status == "completed" && c.conclusion == "cancelled" && c.id.Some?
    && exists k :: 0 <= k < |c.messages| && Occurs(c.messages[k], "exceeded the maximum " + "execution time")
  }

  lemma TimedOutIs(c: CheckRun)
    ensures TimedOut(c) <==> KilledAtLimit(c) && c.workflow.Some?
  {
    forall k | 0 <= k < |c.messages|
      ensures Contains(c.messages[k], TIMEOUT_MESSAGE) <==> Occurs(c.messages[k], TIMEOUT_MESSAGE)
    {
      ContainsIs(c.messages[k], TIMEOUT_MESSAGE);
    }
  }

  lemma {:induction false} LatestAt(runs: seq<CheckRun>, name: string) returns (i: nat)
    requires LatestOf(runs, name).Some?
    ensures i < |runs| && runs[i] == LatestOf(runs, name).value
    ensures forall j :: 0 <= j < i && runs[j].name == name ==> IdOf(runs[j]) < IdOf(runs[i])
  {
    var before := runs[..|runs| - 1];
    LatestIsNewest(before, name);
    if LatestOf(before, name) == LatestOf(runs, name) {
      i := LatestAt(before, name);
      assert forall j :: 0 <= j <= i ==> before[j] == runs[j];
    } else {
      i := |runs| - 1;
      assert forall j :: 0 <= j < i ==> runs[j] in before by {
        assert forall j :: 0 <= j < i ==> before[j] == runs[j];
      }
    }
  }

  lemma NewestIs(runs: seq<CheckRun>, i: int)
    requires 0 <= i < |runs| && runs[i].name != "" && runs[i].id.Some?
    ensures NewestOfName(runs, i) ==> LatestOf(runs, runs[i].name) == Some(runs[i])
  {
    var name := runs[i].name;
    LatestIsNewest(runs, name);
    assert runs[i] in runs;
    var k := LatestAt(runs, name);
    if NewestOfName(runs, i) { assert k == i by { assert runs[k].name == name; } }
  }

  /** The workflow run holds the newest run of a required check, and that run was killed at its time limit. */
  ghost predicate HoldsWedged(runs: seq<CheckRun>, required: seq<string>, run: int) {
    exists i :: && NewestOfName(runs, i) && runs[i].name in required && runs[i].name != ""
                && KilledAtLimit(runs[i]) && runs[i].workflow == Some(run)
  }

  /** A workflow run is up for healing exactly when it holds one. */
  lemma HealsByFields(runs: seq<CheckRun>, required: seq<string>, run: int)
    ensures run in RunsOf(runs, required, |required|) <==> HoldsWedged(runs, required, run)
  {
    HealsNewestOnly(runs, required, run);
    forall name | LatestOf(runs, name).Some? && TimedOut(LatestOf(runs, name).value)
      ensures exists i :: NewestOfName(runs, i) && runs[i] == LatestOf(runs, name).value && KilledAtLimit(runs[i])
                          && runs[i].name == name != ""
    {
      var i := LatestAt(runs, name);
      LatestIsNewest(runs, name);
      TimedOutIs(runs[i]);
      forall j | 0 <= j < |runs| && runs[j].name == name ensures IdOf(runs[j]) <= IdOf(runs[i]) {
        assert runs[j] in runs;
      }
      assert NewestOfName(runs, i);
    }
    forall i | && NewestOfName(runs, i) && runs[i].name in required && runs[i].name != ""
               && KilledAtLimit(runs[i]) && runs[i].workflow == Some(run)
      ensures run in RunsOf(runs, required, |required|)
    {
      NewestIs(runs, i);
      TimedOutIs(runs[i]);
    }
  }
}
