/** Required checks of a pull request (`_classify_check_run`, `summarize_checks`, `CheckSummary.ready`). */
module CheckSummary {
  import opened Sorting

  /** One check run; `state` upper-cased, `bucket` lower-cased, `run` the workflow run id from the
      run's own field or its Actions link. */
  datatype Check = Check(name: string, state: string, bucket: string, run: Option<int>)

  datatype Class = Pass | Pending | Empty | Skipped | Cancelled | Infra | InfraBlocked | Fail

  function Classify(c: Check): Class {
    if c.state == "SUCCESS" || c.bucket == "pass" then Pass
    else if c.state == "PENDING" || c.state == "QUEUED" || c.state == "IN_PROGRESS" || c.state == "REQUESTED"
         || c.bucket == "pending" then Pending
    else if c.state == "" && c.bucket == "" then Empty
    else if c.state == "SKIPPED" || c.state == "NEUTRAL" then Skipped
    else if c.state == "CANCELLED" then Cancelled
    else if c.state == "INFRA_BLOCKED" then InfraBlocked
    else if c.state == "INFRA_FAILURE" || c.state == "TIMED_OUT" then Infra
    else Fail
  }

  datatype Summary = Summary(required: seq<string>, passed: seq<string>, pending: seq<string>, failed: seq<string>,
                             missing: seq<string>, infraFailed: seq<string>, infraBlocked: seq<string>,
                             unavailable: seq<string>)
  {
    predicate Ready() {
      && pending == [] && failed == [] && missing == []
      && infraFailed == [] && infraBlocked == [] && unavailable == []
    }
  }

  // ---- the meaning: the worst run of each name

  /** How bad a run is: fail, then infra-blocked, then infra, then pending, then passed or skipped. */
  function Severity(k: Class): nat {
    match k
    case Pass => 0
    case Skipped => 0
    case Pending => 1
    case Empty => 1
    case Cancelled => 2
    case Infra => 2
    case InfraBlocked => 3
    case Fail => 4
  }

  /** The worst run of the name, one level up; 0 when the name has no run. */
  function Worst(checks: seq<Check>, name: string): nat {
    if checks == [] then 0
    else
      var rest, c := Worst(checks[..|checks| - 1], name), checks[|checks| - 1];
      if c.name == name && Severity(Classify(c)) + 1 > rest then Severity(Classify(c)) + 1 else rest
  }

  /** Names whose worst run is at the given level, in order. */
  function AtLevel(names: seq<string>, checks: seq<Check>, level: nat): seq<string> {
    if names == [] then []
    else
      AtLevel(names[..|names| - 1], checks, level)
      + if Worst(checks, names[|names| - 1]) == level then [names[|names| - 1]] else []
  }

  function SummaryOf(checks: Option<seq<Check>>, required: seq<string>): Summary {
    if checks.None? then Summary(required, [], [], [], [], [], [], required)
    else
      var cs := checks.value;
      Summary(required, AtLevel(required, cs, 1), AtLevel(required, cs, 2), AtLevel(required, cs, 5),
              AtLevel(required, cs, 0), AtLevel(required, cs, 3), AtLevel(required, cs, 4), [])
  }

  // ---- the program

  /** Runs of one name, in listing order. */
  function RunsOf(checks: seq<Check>, name: string): seq<Check> {
    if checks == [] then []
    else
      RunsOf(checks[..|checks| - 1], name) + if checks[|checks| - 1].name == name then [checks[|checks| - 1]] else []
  }

  ghost predicate Grouped(byName: map<string, seq<Check>>, checks: seq<Check>) {
    forall n :: RunsOf(checks, n) == if n in byName then byName[n] else []
  }

  method GroupByName(checks: seq<Check>) returns (byName: map<string, seq<Check>>)
    ensures Grouped(byName, checks)
  {
    byName := map[];
    var i := 0;
    while i < |checks|
      invariant i <= |checks| && Grouped(byName, checks[..i])
    {
      var c := checks[i];
      assert checks[..i + 1][..i] == checks[..i];
      if c.name !in byName { byName := byName[c.name := []]; }
      byName := byName[c.name := byName[c.name] + [c]];
      i := i + 1;
    }
    TakeAll(checks);
  }

  lemma {:induction false} WorstOfRuns(checks: seq<Check>, name: string)
    ensures Worst(RunsOf(checks, name), name) == Worst(checks, name)
    ensures (RunsOf(checks, name) == [] <==> Worst(checks, name) == 0)
    ensures forall i :: 0 <= i < |RunsOf(checks, name)| ==> RunsOf(checks, name)[i].name == name
  {
    if checks == [] {
    } else {
      var before, c := checks[..|checks| - 1], checks[|checks| - 1];
      WorstOfRuns(before, name);
      if c.name == name {
        assert (RunsOf(before, name) + [c])[..|RunsOf(before, name)|] == RunsOf(before, name);
      } else {
        assert RunsOf(before, name) + [] == RunsOf(before, name);
      }
    }
  }

  /** The flags of the scan over one name's runs, and the level they stand for. */
  method Aggregate(runs: seq<Check>, ghost name: string) returns (level: nat)
    requires runs != [] && forall i :: 0 <= i < |runs| ==> runs[i].name == name
    ensures level == Worst(runs, name)
  {
    var failed, pending, infraFailed, infraBlocked := false, false, false, false;
    var i := 0;
    while i < |runs|
      invariant i <= |runs|
      invariant Worst(runs[..i], name) == if i == 0 then 0 else LevelOf(failed, infraBlocked, infraFailed, pending)
      invariant i == 0 ==> !failed && !infraBlocked && !infraFailed && !pending
    {
      assert runs[..i + 1][..i] == runs[..i];
      match Classify(runs[i]) {
        case Pass =>
        case Skipped =>
        case Pending => pending := true;
        case Empty => pending := true;
        case InfraBlocked => infraBlocked := true;
        case Cancelled => infraFailed := true;
        case Infra => infraFailed := true;
        case Fail => failed := true;
      }
      i := i + 1;
    }
    TakeAll(runs);
    level := LevelOf(failed, infraBlocked, infraFailed, pending);
  }

  function LevelOf(failed: bool, infraBlocked: bool, infraFailed: bool, pending: bool): nat {
    if failed then 5 else if infraBlocked then 4 else if infraFailed then 3 else if pending then 2 else 1
  }

  function File(s: Summary, name: string, level: nat): Summary {
    if level == 0 then s.(missing := s.missing + [name])
    else if level == 5 then s.(failed := s.failed + [name])
    else if level == 4 then s.(infraBlocked := s.infraBlocked + [name])
    else if level == 3 then s.(infraFailed := s.infraFailed + [name])
    else if level == 2 then s.(pending := s.pending + [name])
    else s.(passed := s.passed + [name])
  }

  lemma {:induction false} WorstAtMost(checks: seq<Check>, name: string)
    ensures Worst(checks, name) <= 5
  {
    if checks == [] {
    } else {
      WorstAtMost(checks[..|checks| - 1], name);
    }
  }

  lemma LevelStep(names: seq<string>, i: nat, checks: seq<Check>, level: nat)
    requires i < |names|
    ensures AtLevel(names[..i + 1], checks, level)
         == AtLevel(names[..i], checks, level) + if Worst(checks, names[i]) == level then [names[i]] else []
  {
    assert names[..i + 1][..i] == names[..i];
  }

  /** The buckets after the first i required names. */
  function Buckets(checks: seq<Check>, required: seq<string>, i: nat): Summary
    requires i <= |required|
  {
    SummaryOf(Some(checks), required[..i]).(required := required)
  }

  lemma FileStep(checks: seq<Check>, required: seq<string>, i: nat, level: nat)
    requires i < |required| && level == Worst(checks, required[i])
    ensures File(Buckets(checks, required, i), required[i], level) == Buckets(checks, required, i + 1)
  {
    WorstAtMost(checks, required[i]);
    LevelStep(required, i, checks, 0);
    LevelStep(required, i, checks, 1);
    LevelStep(required, i, checks, 2);
    LevelStep(required, i, checks, 3);
    LevelStep(required, i, checks, 4);
    LevelStep(required, i, checks, 5);
  }

  method SummarizeChecks(checks: Option<seq<Check>>, required: seq<string>) returns (s: Summary)
    ensures s == SummaryOf(checks, required)
  {
    if checks.None? { return Summary(required, [], [], [], [], [], [], required); }
    var byName := GroupByName(checks.value);
    s := Summary(required, [], [], [], [], [], [], []);
    var i := 0;
    while i < |required|
      invariant i <= |required| && s == Buckets(checks.value, required, i)
    {
      var name := required[i];
      WorstOfRuns(checks.value, name);
      var level := 0;
      if name in byName && byName[name] != [] { level := Aggregate(byName[name], name); }
      FileStep(checks.value, required, i, level);
      s := File(s, name, level);
      i := i + 1;
    }
    TakeAll(required);
  }

  // ---- properties

  function BucketsOf(s: Summary): seq<seq<string>> {
    [s.missing, s.passed, s.pending, s.infraFailed, s.infraBlocked, s.failed]
  }

  lemma {:induction false} AtLevelMembers(names: seq<string>, checks: seq<Check>, level: nat, name: string)
    ensures name in AtLevel(names, checks, level) <==> name in names && Worst(checks, name) == level
  {
    if names == [] {
    } else {
      var before, last := names[..|names| - 1], names[|names| - 1];
      AtLevelMembers(before, checks, level, name);
      assert names == before + [last];
      var more := if Worst(checks, last) == level then [last] else [];
      assert name in AtLevel(before, checks, level) + more <==> name in AtLevel(before, checks, level) || name in more;
    }
  }

  function Lengths(names: seq<string>, checks: seq<Check>): nat {
    |AtLevel(names, checks, 0)| + |AtLevel(names, checks, 1)| + |AtLevel(names, checks, 2)|
    + |AtLevel(names, checks, 3)| + |AtLevel(names, checks, 4)| + |AtLevel(names, checks, 5)|
  }

  lemma {:induction false} LengthsAdd(names: seq<string>, checks: seq<Check>)
    ensures Lengths(names, checks) == |names|
  {
    if names == [] {
    } else {
      LengthsAdd(names[..|names| - 1], checks);
      WorstAtMost(checks, names[|names| - 1]);
    }
  }

  /** Every required name is in exactly one bucket, the one of its worst run. */
  lemma OneBucketEach(checks: seq<Check>, required: seq<string>, name: string, level: nat)
    requires name in required && level <= 5
    ensures name in BucketsOf(SummaryOf(Some(checks), required))[level] <==> Worst(checks, name) == level
    ensures Lengths(required, checks) == |required|
  {
    AtLevelMembers(required, checks, level, name);
    LengthsAdd(required, checks);
  }

  /** Ready exactly when everything required has passed. */
  lemma ReadyMeansAllPassed(checks: Option<seq<Check>>, required: seq<string>)
    ensures SummaryOf(checks, required).Ready() <==> SummaryOf(checks, required).passed == required
  {
    if checks.Some? {
      LengthsAdd(required, checks.value);
      AllAtLevel(required, checks.value);
    }
  }

  lemma {:induction false} AllAtLevel(names: seq<string>, checks: seq<Check>)
    ensures |AtLevel(names, checks, 1)| <= |names|
    ensures |AtLevel(names, checks, 1)| == |names| ==> AtLevel(names, checks, 1) == names
  {
    if names == [] {
    } else {
      AllAtLevel(names[..|names| - 1], checks);
      assert names == names[..|names| - 1] + [names[|names| - 1]];
    }
  }

  lemma {:induction false} WorstIsMax(checks: seq<Check>, name: string)
    ensures forall c :: c in checks && c.name == name ==> Severity(Classify(c)) + 1 <= Worst(checks, name)
    ensures Worst(checks, name) > 0
        ==> exists c :: c in checks && c.name == name && Severity(Classify(c)) + 1 == Worst(checks, name)
  {
    if checks == [] {
    } else {
      var before, last := checks[..|checks| - 1], checks[|checks| - 1];
      WorstIsMax(before, name);
      assert forall c :: c in checks <==> c in before || c == last by { assert checks == before + [last]; }
    }
  }

  /** Only the set of runs matters: any order, any repeats. */
  lemma WorstIgnoresOrder(a: seq<Check>, b: seq<Check>, name: string)
    requires forall c :: c in a <==> c in b
    ensures Worst(a, name) == Worst(b, name)
  {
    WorstIsMax(a, name);
    WorstIsMax(b, name);
  }

  lemma {:induction false} LevelIgnoresOrder(names: seq<string>, a: seq<Check>, b: seq<Check>, level: nat)
    requires forall c :: c in a <==> c in b
    ensures AtLevel(names, a, level) == AtLevel(names, b, level)
  {
    if names == [] {
    } else {
      WorstIgnoresOrder(a, b, names[|names| - 1]);
      LevelIgnoresOrder(names[..|names| - 1], a, b, level);
    }
  }

  lemma SummaryIgnoresOrder(a: seq<Check>, b: seq<Check>, required: seq<string>)
    requires forall c :: c in a <==> c in b
    ensures SummaryOf(Some(a), required) == SummaryOf(Some(b), required)
  {
    LevelIgnoresOrder(required, a, b, 0);
    LevelIgnoresOrder(required, a, b, 1);
    LevelIgnoresOrder(required, a, b, 2);
    LevelIgnoresOrder(required, a, b, 3);
    LevelIgnoresOrder(required, a, b, 4);
    LevelIgnoresOrder(required, a, b, 5);
  }

  /** More runs never improve a name: each verdict is the join of its runs' severities. */
  lemma MoreRunsNeverHelp(fewer: seq<Check>, more: seq<Check>, name: string)
    requires forall c :: c in fewer ==> c in more
    ensures Worst(fewer, name) <= Worst(more, name)
  {
    WorstIsMax(fewer, name);
    WorstIsMax(more, name);
  }
}
