/** The check summary read off the texts of the runs: what each required name is filed under, and when
    the pull request is ready. */
module CheckTexts {
  import opened Sorting
  import opened CheckSummary

  // ---- one run, by its state and bucket

  predicate PassedText(c: Check) {
    c.state == "SUCCESS" || c.bucket == "pass"
  }

  /** Neither passed nor, by its bucket, still running. */
  predicate Settled(c: Check) {
    c.state != "SUCCESS" && c.bucket != "pass" && c.bucket != "pending"
  }

  predicate RunningText(c: Check) {
    && c.state != "SUCCESS" && c.bucket != "pass"
    && (|| c.bucket == "pending"
        || c.state == "PENDING" || c.state == "QUEUED" || c.state == "IN_PROGRESS" || c.state == "REQUESTED"
        || (c.state == "" && c.bucket == ""))
  }

  predicate SkippedText(c: Check) {
    Settled(c) && (c.state == "SKIPPED" || c.state == "NEUTRAL")
  }

  predicate InfraText(c: Check) {
    Settled(c) && (c.state == "CANCELLED" || c.state == "INFRA_FAILURE" || c.state == "TIMED_OUT")
  }

  predicate BlockedText(c: Check) {
    Settled(c) && c.state == "INFRA_BLOCKED"
  }

  /** Any other outcome, FAILURE and unknown ones alike. */
  predicate FailedText(c: Check) {
    !PassedText(c) && !RunningText(c) && !SkippedText(c) && !InfraText(c) && !BlockedText(c)
  }

  function LevelText(c: Check): nat {
    if PassedText(c) || SkippedText(c) then 1 else if RunningText(c) then 2 else if InfraText(c) then 3
    else if BlockedText(c) then 4 else 5
  }

  lemma LevelOfText(c: Check)
    ensures Severity(Classify(c)) + 1 == LevelText(c)
  {
  }

  // ---- one name, by its runs

  /** The name has a run of the kind. */
  ghost predicate Has(cs: seq<Check>, name: string, kind: Check -> bool) {
    exists c :: c in cs && c.name == name && kind(c)
  }

  ghost predicate Listed(cs: seq<Check>, name: string) {
    exists c :: c in cs && c.name == name
  }

  /** The name has a run, and every run of it passed or was skipped. */
  ghost predicate AllPassed(cs: seq<Check>, name: string) {
    Listed(cs, name) && forall c :: c in cs && c.name == name ==> PassedText(c) || SkippedText(c)
  }

  /** The levels of the kinds are as they should be. */
  lemma KindsByLevel(cs: seq<Check>, name: string)
    ensures Has(cs, name, FailedText) <==> Has(cs, name, c => LevelText(c) == 5)
    ensures Has(cs, name, BlockedText) <==> Has(cs, name, c => LevelText(c) == 4)
    ensures Has(cs, name, InfraText) <==> Has(cs, name, c => LevelText(c) == 3)
    ensures Has(cs, name, RunningText) <==> Has(cs, name, c => LevelText(c) == 2)
  {
  }

  /** The worst run decides. */
  lemma WorstLevel(cs: seq<Check>, name: string, worst: nat, level: nat)
    requires worst == Worst(cs, name)
    ensures worst <= 5 && (worst == 0 <==> !Listed(cs, name))
    ensures level >= 1 ==>
      (worst == level <==> && Has(cs, name, c => LevelText(c) == level)
                           && forall c :: c in cs && c.name == name ==> LevelText(c) <= level)
  {
    WorstIsMax(cs, name);
    WorstAtMost(cs, name);
    forall c | c in cs && c.name == name ensures LevelText(c) <= worst { LevelOfText(c); }
    if Listed(cs, name) {
      var c :| c in cs && c.name == name && Severity(Classify(c)) + 1 == worst;
      LevelOfText(c);
    }
  }

  lemma WorstByText(cs: seq<Check>, name: string)
    ensures var worst := Worst(cs, name);
            && (worst == 0 <==> !Listed(cs, name))
            && (worst == 5 <==> Has(cs, name, FailedText))
            && (worst == 4 <==> Has(cs, name, BlockedText) && !Has(cs, name, FailedText))
            && (worst == 3 <==> Has(cs, name, InfraText) && !Has(cs, name, BlockedText) && !Has(cs, name, FailedText))
            && (worst == 2 <==> && Has(cs, name, RunningText) && !Has(cs, name, InfraText)
                                && !Has(cs, name, BlockedText) && !Has(cs, name, FailedText))
            && (worst == 1 <==> AllPassed(cs, name))
  {
    var worst := Worst(cs, name);
    KindsByLevel(cs, name);
    WorstLevel(cs, name, worst, 1);
    WorstLevel(cs, name, worst, 2);
    WorstLevel(cs, name, worst, 3);
    WorstLevel(cs, name, worst, 4);
    WorstLevel(cs, name, worst, 5);
  }

  /** Where a required name is filed, worst run first: failed, infra-blocked, infra-failed, pending, passed;
      missing when it has no run. */
  lemma BucketsByText(cs: seq<Check>, required: seq<string>, name: string)
    requires name in required
    ensures var s := SummaryOf(Some(cs), required);
            && (name in s.missing <==> !Listed(cs, name))
            && (name in s.failed <==> Has(cs, name, FailedText))
            && (name in s.infraBlocked <==> Has(cs, name, BlockedText) && !Has(cs, name, FailedText))
            && (name in s.infraFailed
                <==> Has(cs, name, InfraText) && !Has(cs, name, BlockedText) && !Has(cs, name, FailedText))
            && (name in s.pending <==> && Has(cs, name, RunningText) && !Has(cs, name, InfraText)
                                       && !Has(cs, name, BlockedText) && !Has(cs, name, FailedText))
            && (name in s.passed <==> AllPassed(cs, name))
  {
    WorstByText(cs, name);
    for level := 0 to 6
      invariant forall k :: 0 <= k < level ==> (name in AtLevel(required, cs, k) <==> Worst(cs, name) == k)
    {
      AtLevelMembers(required, cs, level, name);
    }
  }

  /** Ready exactly when every required name has a run, and all its runs passed or were skipped; without a
      check list, when nothing is required. */
  lemma ReadyByText(checks: Option<seq<Check>>, required: seq<string>)
    ensures SummaryOf(checks, required).Ready()
       <==> if checks.None? then required == [] else forall name :: name in required ==> AllPassed(checks.value, name)
  {
    ReadyMeansAllPassed(checks, required);
    if checks.Some? {
      var cs := checks.value;
      forall name | name in required ensures Worst(cs, name) == 1 <==> AllPassed(cs, name) {
        WorstByText(cs, name);
      }
      AtLevelAll(required, cs);
    }
  }

  lemma {:induction false} AtLevelAll(names: seq<string>, cs: seq<Check>)
    ensures AtLevel(names, cs, 1) == names <==> (forall name :: name in names ==> Worst(cs, name) == 1)
  {
    if forall name :: name in names ==> Worst(cs, name) == 1 {
      EveryAtLevel(names, cs);
    } else {
      var name :| name in names && Worst(cs, name) != 1;
      AtLevelMembers(names, cs, 1, name);
      assert name !in AtLevel(names, cs, 1);
    }
  }

  lemma {:induction false} EveryAtLevel(names: seq<string>, cs: seq<Check>)
    requires forall name :: name in names ==> Worst(cs, name) == 1
    ensures AtLevel(names, cs, 1) == names
  {
    if names == [] {
    } else {
      var before, last := names[..|names| - 1], names[|names| - 1];
      assert last in names;
      EveryAtLevel(before, cs);
      assert names == before + [last];
    }
  }
}
