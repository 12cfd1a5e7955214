/** Over runs of passes, whatever their heads and required checks: every failing check is retried or
    reported, no check name is granted more than its cap until its attempts are forgotten, and code
    failures are the cap-one case. */
module CheckRerunBounds {
  import opened Sorting
  import opened CheckSummary
  import opened CheckReruns

  // ---- one judgement

  /** Run ids a name is granted, given the attempts it meets. */
  function GrantSet(a: Attempts, name: string, ids: set<int>, record: bool, cap: int): set<int> {
    if record then Eligible(a, name, ids, cap) else {}
  }

  lemma JudgeStep(v: Verdicts, name: string, ids: set<int>, record: bool, cap: int, n: string, run: int)
    ensures var g := GrantSet(v.attempts, name, ids, record, cap);
            var after := Judge(v, name, ids, record, cap);
            && Tried(after.attempts, n, run) == Tried(v.attempts, n, run) + (if n == name && run in g then 1 else 0)
            && after.reruns == v.reruns + g
            && after.definitive == v.definitive + (if g == {} then [name] else [])
  {
    assert ids == {} ==> Eligible(v.attempts, name, ids, cap) == {};
  }

  /** How often the listing grants (name, run). */
  ghost function Grants(v: Verdicts, p: Round, k: Kind, names: seq<string>, cap: int, name: string, run: int): nat {
    if names == [] then 0
    else
      var last, before := names[|names| - 1], names[..|names| - 1];
      var a := JudgeAll(v, p, k, before, cap).attempts;
      Grants(v, p, k, before, cap, name, run)
      + if last == name && run in GrantSet(a, name, IdsOf(p, k, name), p.record, cap) then 1 else 0
  }

  lemma {:induction false} GrantsAreTries(v: Verdicts, p: Round, k: Kind, names: seq<string>, cap: int, name: string,
                                          run: int)
    ensures Tried(JudgeAll(v, p, k, names, cap).attempts, name, run)
         == Tried(v.attempts, name, run) + Grants(v, p, k, names, cap, name, run)
    ensures Tried(v.attempts, name, run) + Grants(v, p, k, names, cap, name, run) <= cap
         || Grants(v, p, k, names, cap, name, run) == 0
  {
    if names == [] {
    } else {
      var last, before := names[|names| - 1], names[..|names| - 1];
      GrantsAreTries(v, p, k, before, cap, name, run);
      JudgeStep(JudgeAll(v, p, k, before, cap), last, IdsOf(p, k, last), p.record, cap, name, run);
    }
  }

  // ---- runs of passes

  /** The attempts stored after the passes, from those stored before. */
  ghost function StoreFrom(start: Store, rounds: seq<Round>, k: Kind, cap: int): Store {
    if rounds == [] then start
    else StoreNext(StoreFrom(start, rounds[..|rounds| - 1], k, cap), rounds[|rounds| - 1], k, cap)
  }

  ghost function StoreAfter(rounds: seq<Round>, k: Kind, cap: int): Store {
    StoreFrom(map[], rounds, k, cap)
  }

  /** What a pass after the given ones has kept for its head. */
  ghost function Met(before: seq<Round>, p: Round, k: Kind, cap: int): Attempts {
    OnHead(StoreAfter(before, k, cap), p.head)
  }

  ghost predicate Passes(p: Round, name: string) {
    name in SummaryOf(p.checks, p.required).passed
  }

  /** The pass is for the same known head as the one before it. */
  predicate SameHead(before: seq<Round>, p: Round) {
    before != [] && before[|before| - 1].head == p.head && p.head != ""
  }

  /** A name's attempts are gone: it passes, nothing is required, or the head is new or unknown. */
  ghost predicate Forgets(before: seq<Round>, p: Round, name: string) {
    Passes(p, name) || p.required == [] || !SameHead(before, p)
  }

  ghost function GrantsInPass(a: Attempts, p: Round, k: Kind, cap: int, name: string, run: int): nat {
    Grants(Opening(a, SummaryOf(p.checks, p.required).passed), p, k, NamesOf(p, k), cap, name, run)
  }

  /** Grants to (name, run) since the name's attempts were last forgotten. */
  ghost function GrantsSince(rounds: seq<Round>, k: Kind, cap: int, name: string, run: int): nat {
    if rounds == [] then 0
    else
      var before, p := rounds[..|rounds| - 1], rounds[|rounds| - 1];
      (if Forgets(before, p, name) then 0 else GrantsSince(before, k, cap, name, run))
      + GrantsInPass(Met(before, p, k, cap), p, k, cap, name, run)
  }

  lemma ClearTries(a: Attempts, passed: seq<string>, name: string, run: int)
    ensures Tried(Clear(a, passed), name, run) == if name in passed then 0 else Tried(a, name, run)
  {
  }

  /** With nothing required there is nothing to judge. */
  lemma NothingToJudge(p: Round, k: Kind)
    requires p.required == []
    ensures NamesOf(p, k) == []
  {
  }

  /** One pass, given the attempts it meets. */
  lemma PassTries(a: Attempts, p: Round, k: Kind, cap: int, name: string, run: int)
    ensures var grants := GrantsInPass(a, p, k, cap, name, run);
            var met := if Passes(p, name) then 0 else Tried(a, name, run);
            && Tried(PassResult(a, p, k, cap).attempts, name, run) == met + grants
            && (met + grants <= cap || grants == 0)
  {
    var passed := SummaryOf(p.checks, p.required).passed;
    ClearTries(a, passed, name, run);
    GrantsAreTries(Opening(a, passed), p, k, NamesOf(p, k), cap, name, run);
  }

  /** The stored attempts count exactly the grants since they were last forgotten, and never pass the
      cap; for any head but the last one nothing is stored. */
  lemma {:induction false} GrantsAreBounded(rounds: seq<Round>, k: Kind, cap: int, name: string, run: int)
    ensures forall head ::
      Tried(OnHead(StoreAfter(rounds, k, cap), head), name, run)
      == if rounds != [] && rounds[|rounds| - 1].head == head && head != "" then GrantsSince(rounds, k, cap, name, run)
         else 0
    ensures GrantsSince(rounds, k, cap, name, run) <= (if cap > 0 then cap else 0)
  {
    if rounds == [] {
    } else {
      var before, p := rounds[..|rounds| - 1], rounds[|rounds| - 1];
      GrantsAreBounded(before, k, cap, name, run);
      if p.required == [] {
        NothingToJudge(p, k);
      } else {
        PassTries(Met(before, p, k, cap), p, k, cap, name, run);
      }
    }
  }

  lemma {:induction false} UnlistedUngranted(v: Verdicts, p: Round, k: Kind, names: seq<string>, cap: int, name: string,
                                             run: int)
    requires name !in names
    ensures Grants(v, p, k, names, cap, name, run) == 0
  {
    if names == [] {
    } else {
      UnlistedUngranted(v, p, k, names[..|names| - 1], cap, name, run);
    }
  }

  /** Exactly when a pass keeps the attempts stored for a name on its head, whatever they are: when
      something is required and the name does not pass. (For an unknown head none are ever stored.) */
  lemma KeptExactly(p: Round, k: Kind, cap: int, name: string)
    ensures (forall stored, run :: Tried(OnHead(stored, p.head), name, run)
                                <= Tried(OnHead(StoreNext(stored, p, k, cap), p.head), name, run))
       <==> p.head == "" || (p.required != [] && !Passes(p, name))
  {
    if p.head == "" || (p.required != [] && !Passes(p, name)) {
      forall stored, run ensures Tried(OnHead(stored, p.head), name, run)
                              <= Tried(OnHead(StoreNext(stored, p, k, cap), p.head), name, run)
      {
        PassTries(OnHead(stored, p.head), p, k, cap, name, run);
      }
    } else {
      var a: Attempts := map[name := map[7 := 1]];
      var stored: Store := map[p.head := a];
      if p.required != [] {
        if name in NamesOf(p, k) { FailingIsNotPassing(p, k, name); }
        UnlistedUngranted(Opening(a, SummaryOf(p.checks, p.required).passed), p, k, NamesOf(p, k), cap, name, 7);
        PassTries(a, p, k, cap, name, 7);
      }
      assert Tried(OnHead(stored, p.head), name, 7) == 1;
      assert Tried(OnHead(StoreNext(stored, p, k, cap), p.head), name, 7) == 0;
    }
  }

  // ---- one listing, names repeated or not

  /** Attempts left to a run id. */
  function Left(a: Attempts, name: string, run: int, cap: int): nat {
    if Tried(a, name, run) < cap then cap - Tried(a, name, run) else 0
  }

  function Lesser(x: nat, y: nat): nat {
    if x < y then x else y
  }

  lemma TimesSnoc(names: seq<string>, name: string)
    requires names != []
    ensures multiset(names)[name]
         == multiset(names[..|names| - 1])[name] + if names[|names| - 1] == name then 1 else 0
  {
    assert names == names[..|names| - 1] + [names[|names| - 1]];
  }

  /** Judged t times, a failing name spends one attempt of each of its run ids each time, while any is left. */
  lemma {:induction false} ListingCounts(v: Verdicts, p: Round, k: Kind, names: seq<string>, cap: int, name: string,
                                         run: int)
    requires p.record && run in IdsOf(p, k, name)
    ensures Tried(JudgeAll(v, p, k, names, cap).attempts, name, run)
         == Tried(v.attempts, name, run) + Lesser(multiset(names)[name], Left(v.attempts, name, run, cap))
  {
    if names == [] {
    } else {
      var before, last := names[..|names| - 1], names[|names| - 1];
      var mid := JudgeAll(v, p, k, before, cap);
      ListingCounts(v, p, k, before, cap, name, run);
      TimesSnoc(names, name);
      JudgeStep(mid, last, IdsOf(p, k, last), p.record, cap, name, run);
    }
  }

  ghost function GrantOf(v: Verdicts, p: Round, k: Kind, cap: int, name: string): set<int> {
    GrantSet(v.attempts, name, IdsOf(p, k, name), p.record, cap)
  }

  /** What the next judgement grants: the ids with more attempts left than judgements already made. */
  lemma NextGrant(v: Verdicts, p: Round, k: Kind, names: seq<string>, cap: int, name: string)
    ensures GrantOf(JudgeAll(v, p, k, names, cap), p, k, cap, name)
      == GrantOf(v, p, k, cap - multiset(names)[name], name)
  {
    if p.record {
      forall id | id in IdsOf(p, k, name)
        ensures Tried(JudgeAll(v, p, k, names, cap).attempts, name, id) < cap
           <==> Tried(v.attempts, name, id) < cap - multiset(names)[name]
      {
        ListingCounts(v, p, k, names, cap, name, id);
      }
    }
  }

  /** The names judged so far: definitive exactly when the last of a name's judgements granted nothing,
      and rerun exactly what its first judgement granted. */
  ghost predicate Settled(v: Verdicts, out: Verdicts, p: Round, k: Kind, names: seq<string>, cap: int) {
    && (forall n :: n in out.definitive <==> n in names && GrantOf(v, p, k, cap - multiset(names)[n] + 1, n) == {})
    && (forall id :: id in out.reruns <==> exists n :: n in names && id in GrantOf(v, p, k, cap, n))
  }

  lemma GrantShrinks(v: Verdicts, p: Round, k: Kind, low: int, high: int, name: string)
    requires low <= high
    ensures GrantOf(v, p, k, low, name) <= GrantOf(v, p, k, high, name)
  {
  }

  lemma DefinitiveStep(v: Verdicts, out: Verdicts, p: Round, k: Kind, before: seq<string>, last: string, cap: int,
                       n: string)
    requires Settled(v, out, p, k, before, cap)
    ensures var g, names := GrantOf(v, p, k, cap - multiset(before)[last], last), before + [last];
            n in out.definitive + (if g == {} then [last] else [])
            <==> n in names && GrantOf(v, p, k, cap - multiset(names)[n] + 1, n) == {}
  {
    var names := before + [last];
    assert names[..|before|] == before;
    TimesSnoc(names, n);
    assert n in names <==> n in before || n == last;
    if n == last && n in before {
      GrantShrinks(v, p, k, cap - multiset(before)[n], cap - multiset(before)[n] + 1, n);
    }
  }

  lemma RerunsStep(v: Verdicts, out: Verdicts, p: Round, k: Kind, before: seq<string>, last: string, cap: int, id: int)
    requires Settled(v, out, p, k, before, cap)
    ensures id in out.reruns + GrantOf(v, p, k, cap - multiset(before)[last], last)
       <==> exists n :: n in before + [last] && id in GrantOf(v, p, k, cap, n)
  {
    var g := GrantOf(v, p, k, cap - multiset(before)[last], last);
    assert forall n :: n in before + [last] <==> n in before || n == last;
    GrantShrinks(v, p, k, cap - multiset(before)[last], cap, last);
    if id in g { assert last in before + [last] && id in GrantOf(v, p, k, cap, last); }
    if id in out.reruns {
      var n :| n in before && id in GrantOf(v, p, k, cap, n);
      assert n in before + [last];
    }
    if last !in before { assert multiset(before)[last] == 0; }
  }

  lemma {:induction false} EachIsSettled(v: Verdicts, p: Round, k: Kind, names: seq<string>, cap: int)
    requires v.reruns == {} && v.definitive == []
    ensures Settled(v, JudgeAll(v, p, k, names, cap), p, k, names, cap)
  {
    if names == [] {
    } else {
      var before, last := names[..|names| - 1], names[|names| - 1];
      var mid, out := JudgeAll(v, p, k, before, cap), JudgeAll(v, p, k, names, cap);
      EachIsSettled(v, p, k, before, cap);
      NextGrant(v, p, k, before, cap, last);
      JudgeStep(mid, last, IdsOf(p, k, last), p.record, cap, last, 0);
      assert before + [last] == names;
      forall n ensures n in out.definitive <==> n in names && GrantOf(v, p, k, cap - multiset(names)[n] + 1, n) == {} {
        DefinitiveStep(v, mid, p, k, before, last, cap, n);
      }
      forall id ensures id in out.reruns <==> exists n :: n in names && id in GrantOf(v, p, k, cap, n) {
        RerunsStep(v, mid, p, k, before, last, cap, id);
      }
    }
  }

  // ---- nothing failing is lost

  /** What a name is granted the first time a pass judges it. */
  ghost function Share(a: Attempts, p: Round, k: Kind, cap: int, name: string): set<int> {
    GrantSet(Clear(a, SummaryOf(p.checks, p.required).passed), name, IdsOf(p, k, name), p.record, cap)
  }

  /** How often the pass judges the name. */
  ghost function Times(p: Round, k: Kind, name: string): nat {
    multiset(NamesOf(p, k))[name]
  }

  /** For every pass: a failing name is definitive exactly when none of its run ids has as many
      attempts left as the pass judges it; the reruns are exactly the run ids with an attempt left. */
  lemma PassSettles(a: Attempts, p: Round, k: Kind, cap: int)
    ensures var out := PassResult(a, p, k, cap);
            && (forall n :: n in out.definitive
                  <==> n in NamesOf(p, k) && Share(a, p, k, cap - Times(p, k, n) + 1, n) == {})
            && (forall id :: id in out.reruns <==> exists n :: n in NamesOf(p, k) && id in Share(a, p, k, cap, n))
  {
    var v := Opening(a, SummaryOf(p.checks, p.required).passed);
    EachIsSettled(v, p, k, NamesOf(p, k), cap);
    assert forall n, c :: GrantOf(v, p, k, c, n) == Share(a, p, k, c, n);
  }

  /** No failing check is lost: each is definitive or contributes a rerun. */
  lemma NothingFailingIsLost(a: Attempts, p: Round, k: Kind, cap: int, n: string)
    requires n in NamesOf(p, k)
    ensures var out := PassResult(a, p, k, cap);
            n in out.definitive || (Share(a, p, k, cap, n) != {} && Share(a, p, k, cap, n) <= out.reruns)
  {
    PassSettles(a, p, k, cap);
    var v := Opening(a, SummaryOf(p.checks, p.required).passed);
    GrantShrinks(v, p, k, cap - Times(p, k, n) + 1, cap, n);
    assert forall c :: GrantOf(v, p, k, c, n) == Share(a, p, k, c, n);
  }

  /** Reported as definitive and retried by the same pass. */
  ghost predicate Both(a: Attempts, p: Round, k: Kind, cap: int, n: string) {
    n in PassResult(a, p, k, cap).definitive && Share(a, p, k, cap, n) != {}
  }

  ghost predicate Exclusive(a: Attempts, p: Round, k: Kind, cap: int) {
    forall n :: n in NamesOf(p, k) ==> !Both(a, p, k, cap, n)
  }

  lemma ShareEmpty(a: Attempts, p: Round, k: Kind, cap: int, n: string, low: nat)
    requires low >= 1
    ensures var cleared := Clear(a, SummaryOf(p.checks, p.required).passed);
            Share(a, p, k, cap - low + 1, n) == {}
            <==> !p.record || forall id :: id in IdsOf(p, k, n) ==> Left(cleared, n, id, cap) < low
  {
    var cleared, share := Clear(a, SummaryOf(p.checks, p.required).passed), Share(a, p, k, cap - low + 1, n);
    assert forall id :: id in share <==> p.record && id in IdsOf(p, k, n) && Left(cleared, n, id, cap) >= low;
    if forall id :: id !in share { assert share == {}; }
  }

  /** Exactly when a failing name is both: attempts are recorded, some run id has an attempt left, and
      none has as many left as the pass judges the name. */
  lemma BothExactly(a: Attempts, p: Round, k: Kind, cap: int, n: string)
    requires n in NamesOf(p, k)
    ensures var cleared := Clear(a, SummaryOf(p.checks, p.required).passed);
            Both(a, p, k, cap, n)
            <==> && p.record
                 && (exists id :: id in IdsOf(p, k, n) && Left(cleared, n, id, cap) >= 1)
                 && (forall id :: id in IdsOf(p, k, n) ==> Left(cleared, n, id, cap) < Times(p, k, n))
  {
    assert n in multiset(NamesOf(p, k));
    PassSettles(a, p, k, cap);
    ShareEmpty(a, p, k, cap, n, 1);
    ShareEmpty(a, p, k, cap, n, Times(p, k, n));
  }

  lemma {:induction false} LevelTimes(names: seq<string>, checks: seq<Check>, level: nat, n: string)
    ensures multiset(AtLevel(names, checks, level))[n] == if Worst(checks, n) == level then multiset(names)[n] else 0
  {
    if names == [] {
    } else {
      LevelTimes(names[..|names| - 1], checks, level, n);
      TimesSnoc(names, n);
    }
  }

  /** A failing name is judged as often as it is required. */
  lemma TimesRequired(p: Round, k: Kind, n: string)
    requires n in NamesOf(p, k)
    ensures Times(p, k, n) == multiset(p.required)[n]
  {
    if p.checks.Some? {
      AtLevelMembers(p.required, p.checks.value, 3, n);
      AtLevelMembers(p.required, p.checks.value, 5, n);
      LevelTimes(p.required, p.checks.value, 3, n);
      LevelTimes(p.required, p.checks.value, 5, n);
    }
  }

  // ---- exclusive exactly when nothing is required twice

  /** A run of the kind, and a required name listed twice with one attempt left to it. */
  ghost function FailingRun(k: Kind, n: string): Check {
    Check(n, if k == InfraKind then "CANCELLED" else "FAILURE", "", Some(7))
  }

  lemma FailingRunFails(k: Kind, n: string, required: seq<string>)
    requires n in required
    ensures var p := Round("h", Some([FailingRun(k, n)]), required, true);
            && n in NamesOf(p, k) && n !in SummaryOf(p.checks, p.required).passed && IdsOf(p, k, n) == {7}
  {
    var c := FailingRun(k, n);
    var cs := [c];
    assert cs[..0] == [];
    assert Classify(c) == if k == InfraKind then Cancelled else Fail;
    assert Worst(cs, n) == if k == InfraKind then 3 else 5;
    AtLevelMembers(required, cs, 1, n);
    AtLevelMembers(required, cs, 3, n);
    AtLevelMembers(required, cs, 5, n);
    assert c in cs && (if k == InfraKind then IsInfra(c) else IsFailing(c));
  }

  /** A required name listed twice, one cancelled (or failed) run 7, one attempt left: the pass reruns 7
      and reports the name as definitive. */
  lemma ListedTwiceIsBoth(k: Kind, n: string, required: seq<string>, cap: int)
    requires cap >= 1 && multiset(required)[n] >= 2
    ensures var a, p := map[n := map[7 := cap - 1]], Round("h", Some([FailingRun(k, n)]), required, true);
            && n in NamesOf(p, k) && Both(a, p, k, cap, n)
            && 7 in PassResult(a, p, k, cap).reruns
  {
    var a: Attempts := map[n := map[7 := cap - 1]];
    var p := Round("h", Some([FailingRun(k, n)]), required, true);
    assert n in multiset(required) && n in required;
    FailingRunFails(k, n, required);
    TimesRequired(p, k, n);
    var cleared := Clear(a, SummaryOf(p.checks, p.required).passed);
    assert Left(cleared, n, 7, cap) == 1;
    assert 7 in IdsOf(p, k, n);
    BothExactly(a, p, k, cap, n);
    PassSettles(a, p, k, cap);
    assert 7 in Share(a, p, k, cap, n);
  }

  lemma DistinctTimes(required: seq<string>)
    ensures Distinct(required) <==> forall n :: n in required ==> multiset(required)[n] <= 1
  {
    if Distinct(required) {
      forall n | n in required ensures multiset(required)[n] <= 1 { DistinctCount(required, n); }
    } else {
      var i, j :| 0 <= i < j < |required| && required[i] == required[j];
      RepeatCount(required, i, j);
      assert required[i] in required;
    }
  }

  /** "Retried or definitive, never both" holds of every state and every check list exactly when no
      check is required twice (or the cap allows no rerun at all). */
  lemma ExclusiveExactly(k: Kind, required: seq<string>, cap: int)
    ensures (forall a, head, checks, record :: Exclusive(a, Round(head, checks, required, record), k, cap))
       <==> cap <= 0 || Distinct(required)
  {
    DistinctTimes(required);
    if cap <= 0 || Distinct(required) {
      forall a, head, checks, record ensures Exclusive(a, Round(head, checks, required, record), k, cap) {
        OnceIsExclusive(a, Round(head, checks, required, record), k, cap);
      }
    } else {
      var n :| n in required && multiset(required)[n] > 1;
      ListedTwiceIsBoth(k, n, required, cap);
      assert !Exclusive(map[n := map[7 := cap - 1]], Round("h", Some([FailingRun(k, n)]), required, true), k, cap);
    }
  }

  lemma OnceIsExclusive(a: Attempts, p: Round, k: Kind, cap: int)
    requires cap <= 0 || Distinct(p.required)
    ensures Exclusive(a, p, k, cap)
  {
    DistinctTimes(p.required);
    forall n | n in NamesOf(p, k) ensures !Both(a, p, k, cap, n) {
      BothExactly(a, p, k, cap, n);
      TimesRequired(p, k, n);
    }
  }

  // ---- failing for good

  /** The name fails with the same run ids in every pass on the head, and attempts are recorded. */
  ghost predicate KeepsFailing(rounds: seq<Round>, k: Kind, head: string, name: string, ids: set<int>) {
    forall i :: 0 <= i < |rounds| ==>
      && rounds[i].head == head && rounds[i].record
      && name in NamesOf(rounds[i], k) && IdsOf(rounds[i], k, name) == ids
  }

  lemma FailingIsNotPassing(p: Round, k: Kind, name: string)
    requires name in NamesOf(p, k)
    ensures !Passes(p, name)
  {
    if p.checks.Some? {
      AtLevelMembers(p.required, p.checks.value, 1, name);
      AtLevelMembers(p.required, p.checks.value, 3, name);
      AtLevelMembers(p.required, p.checks.value, 5, name);
    }
  }

  lemma OnePassCounts(a: Attempts, p: Round, k: Kind, cap: int, name: string, run: int)
    requires name in NamesOf(p, k) && p.record && run in IdsOf(p, k, name)
    ensures Tried(PassResult(a, p, k, cap).attempts, name, run)
         == Tried(a, name, run) + Lesser(Times(p, k, name), Left(a, name, run, cap))
    ensures Times(p, k, name) >= 1
  {
    var passed := SummaryOf(p.checks, p.required).passed;
    FailingIsNotPassing(p, k, name);
    ClearTries(a, passed, name, run);
    ListingCounts(Opening(a, passed), p, k, NamesOf(p, k), cap, name, run);
    assert name in multiset(NamesOf(p, k));
  }

  lemma {:induction false} TriesAddUp(start: Store, rounds: seq<Round>, k: Kind, cap: int, head: string, name: string,
                                      ids: set<int>, run: int)
    requires KeepsFailing(rounds, k, head, name, ids) && head != "" && run in ids
    ensures Tried(OnHead(StoreFrom(start, rounds, k, cap), head), name, run) >= if |rounds| < cap then |rounds| else cap
  {
    if rounds == [] {
    } else {
      var before, p := rounds[..|rounds| - 1], rounds[|rounds| - 1];
      TriesAddUp(start, before, k, cap, head, name, ids, run);
      JudgedIsRequired(p, k, name);
      OnePassCounts(OnHead(StoreFrom(start, before, k, cap), head), p, k, cap, name, run);
    }
  }

  lemma JudgedIsRequired(p: Round, k: Kind, name: string)
    requires name in NamesOf(p, k)
    ensures p.required != []
  {
    if p.required == [] { NothingToJudge(p, k); }
  }

  /** After cap passes on a head with the same failing runs, from any stored attempts, the next such pass
      reports the name. */
  lemma DefinitiveAfterCap(start: Store, rounds: seq<Round>, p: Round, k: Kind, cap: int, head: string, name: string,
                           ids: set<int>)
    requires |rounds| >= cap && KeepsFailing(rounds + [p], k, head, name, ids) && head != ""
    ensures name in Outcome(StoreFrom(start, rounds, k, cap), p, k, cap).definitive
  {
    assert (rounds + [p])[|rounds|] == p;
    assert forall i :: 0 <= i < |rounds| ==> (rounds + [p])[i] == rounds[i];
    var b := OnHead(StoreFrom(start, rounds, k, cap), head);
    FailingIsNotPassing(p, k, name);
    JudgedIsRequired(p, k, name);
    forall run | run in ids ensures Tried(Clear(b, SummaryOf(p.checks, p.required).passed), name, run) >= cap {
      TriesAddUp(start, rounds, k, cap, head, name, ids, run);
      ClearTries(b, SummaryOf(p.checks, p.required).passed, name, run);
    }
    assert Share(b, p, k, cap, name) == {};
    NothingFailingIsLost(b, p, k, cap, name);
  }

  // ---- reruns of one run id

  /** Passes that ask for the run id to be rerun. */
  ghost function RerunCount(rounds: seq<Round>, k: Kind, cap: int, run: int): nat {
    if rounds == [] then 0
    else
      var before, p := rounds[..|rounds| - 1], rounds[|rounds| - 1];
      RerunCount(before, k, cap, run) + if run in Outcome(StoreAfter(before, k, cap), p, k, cap).reruns then 1 else 0
  }

  ghost function SumSince(rounds: seq<Round>, k: Kind, cap: int, names: seq<string>, run: int): nat {
    if names == [] then 0
    else GrantsSince(rounds, k, cap, names[0], run) + SumSince(rounds, k, cap, names[1..], run)
  }

  ghost function SumGrants(a: Attempts, p: Round, k: Kind, cap: int, names: seq<string>, run: int): nat {
    if names == [] then 0
    else GrantsInPass(a, p, k, cap, names[0], run) + SumGrants(a, p, k, cap, names[1..], run)
  }

  lemma {:induction false} SumSinceBounded(rounds: seq<Round>, k: Kind, cap: int, names: seq<string>, run: int)
    ensures SumSince(rounds, k, cap, names, run) <= (if cap > 0 then cap else 0) * |names|
  {
    if names == [] {
    } else {
      var most := if cap > 0 then cap else 0;
      GrantsAreBounded(rounds, k, cap, names[0], run);
      SumSinceBounded(rounds, k, cap, names[1..], run);
      assert most * |names| == most + most * (|names| - 1);
    }
  }

  /** A pass that forgets nothing adds its grants; any pass counts at least its own. */
  lemma {:induction false} SumSinceStep(before: seq<Round>, p: Round, k: Kind, cap: int, names: seq<string>, run: int)
    ensures SumSince(before + [p], k, cap, names, run) >= SumGrants(Met(before, p, k, cap), p, k, cap, names, run)
    ensures (forall n :: n in names ==> !Forgets(before, p, n)) ==>
      SumSince(before + [p], k, cap, names, run)
      == SumSince(before, k, cap, names, run) + SumGrants(Met(before, p, k, cap), p, k, cap, names, run)
  {
    assert (before + [p])[..|before|] == before;
    if names == [] {
    } else {
      SumSinceStep(before, p, k, cap, names[1..], run);
    }
  }

  lemma {:induction false} SomeGrant(a: Attempts, p: Round, k: Kind, cap: int, names: seq<string>, run: int, n: string)
    requires n in names && GrantsInPass(a, p, k, cap, n, run) >= 1
    ensures SumGrants(a, p, k, cap, names, run) >= 1
  {
    if names[0] == n {
    } else {
      SomeGrant(a, p, k, cap, names[1..], run, n);
    }
  }

  lemma {:induction false} RerunHasGrant(v: Verdicts, p: Round, k: Kind, names: seq<string>, cap: int, run: int)
    returns (n: string)
    requires run !in v.reruns && run in JudgeAll(v, p, k, names, cap).reruns
    ensures n in names && run in IdsOf(p, k, n) && Grants(v, p, k, names, cap, n, run) >= 1
  {
    var last, before := names[|names| - 1], names[..|names| - 1];
    var mid := JudgeAll(v, p, k, before, cap);
    JudgeStep(mid, last, IdsOf(p, k, last), p.record, cap, last, run);
    if run in mid.reruns {
      n := RerunHasGrant(v, p, k, before, cap, run);
    } else {
      n := last;
    }
  }

  /** A pass on the head with something required: every failing name that carries the run id is in the
      list, and none of the list passes. */
  ghost predicate Shares(p: Round, k: Kind, head: string, names: seq<string>, run: int) {
    && p.head == head && p.required != []
    && (forall n :: n in NamesOf(p, k) && run in IdsOf(p, k, n) ==> n in names)
    && (forall n :: n in names ==> !Passes(p, n))
  }

  lemma RerunStep(before: seq<Round>, p: Round, k: Kind, cap: int, head: string, names: seq<string>, run: int)
    requires Shares(p, k, head, names, run)
    ensures var one := if run in Outcome(StoreAfter(before, k, cap), p, k, cap).reruns then 1 else 0;
            && RerunCount(before + [p], k, cap, run) == RerunCount(before, k, cap, run) + one
            && SumSince(before + [p], k, cap, names, run) >= one
            && (SameHead(before, p) ==>
                  SumSince(before + [p], k, cap, names, run) >= SumSince(before, k, cap, names, run) + one)
  {
    CountNext(before, p, k, cap, run);
    SumSinceStep(before, p, k, cap, names, run);
    if run in Outcome(StoreAfter(before, k, cap), p, k, cap).reruns {
      RerunNeedsGrant(Met(before, p, k, cap), p, k, cap, head, names, run);
    }
  }

  lemma StretchGrows(rounds: seq<Round>, p: Round, k: Kind, cap: int, head: string, names: seq<string>, run: int,
                     start: nat)
    requires Shares(p, k, head, names, run)
    requires RerunCount(rounds, k, cap, run)
          <= start + if SameHead(rounds, p) then SumSince(rounds, k, cap, names, run) else 0
    ensures RerunCount(rounds + [p], k, cap, run) <= start + SumSince(rounds + [p], k, cap, names, run)
  {
    RerunStep(rounds, p, k, cap, head, names, run);
  }

  /** Every rerun of the stretch is a grant not yet forgotten at its end. */
  lemma {:induction false} RerunsAreGrants(prefix: seq<Round>, window: seq<Round>, k: Kind, cap: int, head: string,
                                           names: seq<string>, run: int)
    requires head != "" && forall p :: p in window ==> Shares(p, k, head, names, run)
    ensures RerunCount(prefix + window, k, cap, run)
         <= RerunCount(prefix, k, cap, run) + SumSince(prefix + window, k, cap, names, run)
  {
    var start, rounds := RerunCount(prefix, k, cap, run), prefix;
    for i := 0 to |window|
      invariant rounds == prefix + window[..i]
      invariant i > 0 ==> rounds != [] && rounds[|rounds| - 1].head == head
      invariant i == 0 ==> RerunCount(rounds, k, cap, run) == start
      invariant RerunCount(rounds, k, cap, run) <= start + SumSince(rounds, k, cap, names, run)
    {
      var p := window[i];
      assert p in window;
      StretchGrows(rounds, p, k, cap, head, names, run, start);
      TakeStep(window, i);
      Reassociate(prefix, window[..i], [p]);
      rounds := rounds + [p];
    }
    TakeAll(window);
  }

  /** After any history, over any stretch of passes on one head in which something is required and no name
      sharing it passes, a run id is rerun at most cap times per such name. */
  lemma RerunsPerRunId(prefix: seq<Round>, window: seq<Round>, k: Kind, cap: int, head: string, names: seq<string>,
                       run: int)
    requires head != "" && forall p :: p in window ==> Shares(p, k, head, names, run)
    ensures RerunCount(prefix + window, k, cap, run)
         <= RerunCount(prefix, k, cap, run) + (if cap > 0 then cap else 0) * |names|
  {
    RerunsAreGrants(prefix, window, k, cap, head, names, run);
    SumSinceBounded(prefix + window, k, cap, names, run);
  }

  lemma {:induction false} CountNext(before: seq<Round>, p: Round, k: Kind, cap: int, run: int)
    ensures RerunCount(before + [p], k, cap, run)
         == RerunCount(before, k, cap, run)
            + if run in Outcome(StoreAfter(before, k, cap), p, k, cap).reruns then 1 else 0
    ensures StoreAfter(before + [p], k, cap) == StoreNext(StoreAfter(before, k, cap), p, k, cap)
  {
    assert (before + [p])[..|before|] == before;
  }

  lemma {:induction false} PassesApart(p: Round, q: Round, k: Kind, cap: int, run: int)
    requires run in Outcome(map[], p, k, cap).reruns && q.required == []
    ensures RerunCount([p, q, p], k, cap, run) == 2
  {
    assert [] + [p] == [p];
    CountNext([], p, k, cap, run);
    assert RerunCount([p], k, cap, run) == 1;
    assert [p] + [q] == [p, q];
    CountNext([p], q, k, cap, run);
    assert RerunCount([p, q], k, cap, run) == 1;
    assert [p, q] + [p] == [p, q, p];
    CountNext([p, q], p, k, cap, run);
  }

  /** Something must be required throughout: on one head, with a cap of one, a pass that requires nothing
      between two failing ones lets run 7 be rerun twice, and the check never passes. */
  lemma UnrequiredPassForgets(k: Kind, n: string)
    ensures var checks := Some([FailingRun(k, n)]);
            var p, q := Round("h", checks, [n], true), Round("h", checks, [], true);
            && RerunCount([p, q, p], k, 1, 7) == 2
            && !Passes(p, n) && !Passes(q, n) && forall m :: m in NamesOf(p, k) ==> m == n
  {
    var checks := Some([FailingRun(k, n)]);
    var p, q := Round("h", checks, [n], true), Round("h", checks, [], true);
    FirstPassReruns(map[], k, n);
    PassesApart(p, q, k, 1, 7);
    forall m | m in NamesOf(p, k) ensures m == n {
      JudgedAreRequired(p, k, m);
    }
  }

  lemma FirstPassReruns(stored: Store, k: Kind, n: string)
    requires stored == map[]
    ensures var p := Round("h", Some([FailingRun(k, n)]), [n], true);
            7 in Outcome(stored, p, k, 1).reruns && !Passes(p, n)
  {
    var p := Round("h", Some([FailingRun(k, n)]), [n], true);
    FailingRunFails(k, n, [n]);
    PassSettles(map[], p, k, 1);
    assert 7 in Share(map[], p, k, 1, n);
  }

  lemma JudgedAreRequired(p: Round, k: Kind, name: string)
    requires name in NamesOf(p, k)
    ensures name in p.required
  {
    if p.checks.Some? {
      AtLevelMembers(p.required, p.checks.value, 3, name);
      AtLevelMembers(p.required, p.checks.value, 5, name);
    }
  }

  lemma RerunNeedsGrant(a: Attempts, p: Round, k: Kind, cap: int, head: string, names: seq<string>, run: int)
    requires run in PassResult(a, p, k, cap).reruns && Shares(p, k, head, names, run)
    ensures SumGrants(a, p, k, cap, names, run) >= 1
  {
    var n := RerunHasGrant(Opening(a, SummaryOf(p.checks, p.required).passed), p, k, NamesOf(p, k), cap, run);
    SomeGrant(a, p, k, cap, names, run, n);
  }

  /** A pass that records nothing spends nothing and reports every failing name. */
  lemma {:induction false} UnrecordedSpendsNothing(v: Verdicts, p: Round, k: Kind, names: seq<string>, cap: int)
    requires !p.record
    ensures var out := JudgeAll(v, p, k, names, cap);
            out.attempts == v.attempts && out.reruns == v.reruns && out.definitive == v.definitive + names
  {
    if names == [] {
    } else {
      UnrecordedSpendsNothing(v, p, k, names[..|names| - 1], cap);
      assert names == names[..|names| - 1] + [names[|names| - 1]];
    }
  }

  // ---- code failures are the cap-one case

  /** The sets hold the run ids tried at least once. */
  ghost predicate Matches(s: Attempted, a: Attempts) {
    forall n, run :: if run in Seen(s, n) then Tried(a, n, run) >= 1 else Tried(a, n, run) == 0
  }

  ghost predicate SameVerdicts(s: SetVerdicts, v: Verdicts) {
    Matches(s.attempts, v.attempts) && s.reruns == v.reruns && s.definitive == v.definitive
  }

  lemma JudgeSetsStep(s: SetVerdicts, name: string, ids: set<int>, record: bool, n: string)
    ensures var g := if record then ids - Seen(s.attempts, name) else {};
            Seen(JudgeSets(s, name, ids, record).attempts, n) == Seen(s.attempts, n) + if n == name then g else {}
  {
    var g := if record then ids - Seen(s.attempts, name) else {};
    assert Elements(SortedOf(Seen(s.attempts, name) + g)) == Seen(s.attempts, name) + g;
    assert Seen(s.attempts, n) + {} == Seen(s.attempts, n);
  }

  lemma JudgeSetsMatches(s: SetVerdicts, v: Verdicts, name: string, ids: set<int>, record: bool)
    requires SameVerdicts(s, v)
    ensures SameVerdicts(JudgeSets(s, name, ids, record), Judge(v, name, ids, record, 1))
  {
    var g := GrantSet(v.attempts, name, ids, record, 1);
    assert (if record then ids - Seen(s.attempts, name) else {}) == g;
    var after, counts := JudgeSets(s, name, ids, record).attempts, Judge(v, name, ids, record, 1).attempts;
    forall n, run ensures if run in Seen(after, n) then Tried(counts, n, run) >= 1 else Tried(counts, n, run) == 0 {
      JudgeStep(v, name, ids, record, 1, n, run);
      JudgeSetsStep(s, name, ids, record, n);
      assert if run in Seen(s.attempts, n) then Tried(v.attempts, n, run) >= 1 else Tried(v.attempts, n, run) == 0;
    }
    JudgeStep(v, name, ids, record, 1, name, 0);
  }

  lemma {:induction false} JudgeAllSetsMatches(s: SetVerdicts, v: Verdicts, p: Round, names: seq<string>)
    requires SameVerdicts(s, v)
    ensures SameVerdicts(JudgeAllSets(s, p, names), JudgeAll(v, p, CodeKind, names, 1))
  {
    if names == [] {
    } else {
      var before, last := names[..|names| - 1], names[|names| - 1];
      JudgeAllSetsMatches(s, v, p, before);
      JudgeSetsMatches(JudgeAllSets(s, p, before), JudgeAll(v, p, CodeKind, before, 1), last,
                       IdsOf(p, CodeKind, last), p.record);
    }
  }

  /** One pass of the set-based debounce is one of the counting passes with a cap of one. */
  lemma DebounceIsCapOne(s: Attempted, a: Attempts, p: Round)
    requires Matches(s, a)
    ensures SameVerdicts(DebounceResult(s, p), PassResult(a, p, CodeKind, 1))
  {
    var passed := SummaryOf(p.checks, p.required).passed;
    var sets, counts := SetVerdicts(ClearSets(s, passed), {}, []), Opening(a, passed);
    forall n, run ensures
      if run in Seen(sets.attempts, n) then Tried(counts.attempts, n, run) >= 1 else Tried(counts.attempts, n, run) == 0
    {
      ClearTries(a, passed, n, run);
      assert if run in Seen(s, n) then Tried(a, n, run) >= 1 else Tried(a, n, run) == 0;
    }
    JudgeAllSetsMatches(sets, counts, p, NamesOf(p, CodeKind));
  }

  // ---- runs of debounce passes

  ghost function DebounceAfter(rounds: seq<Round>): SetStore {
    if rounds == [] then map[] else DebounceNext(DebounceAfter(rounds[..|rounds| - 1]), rounds[|rounds| - 1])
  }

  /** Debounce passes that ask for the run id to be rerun. */
  ghost function DebounceReruns(rounds: seq<Round>, run: int): nat {
    if rounds == [] then 0
    else
      var before, p := rounds[..|rounds| - 1], rounds[|rounds| - 1];
      DebounceReruns(before, run) + if run in DebounceOutcome(DebounceAfter(before), p).reruns then 1 else 0
  }

  ghost predicate StoresMatch(s: SetStore, a: Store) {
    forall head :: Matches(OnHead(s, head), OnHead(a, head))
  }

  lemma StoresMatchNext(s: SetStore, a: Store, p: Round)
    requires StoresMatch(s, a)
    ensures SameVerdicts(DebounceOutcome(s, p), Outcome(a, p, CodeKind, 1))
    ensures StoresMatch(DebounceNext(s, p), StoreNext(a, p, CodeKind, 1))
  {
    if p.required == [] {
    } else {
      DebounceIsCapOne(OnHead(s, p.head), OnHead(a, p.head), p);
    }
  }

  /** The set-based debounce over any passes is the counting machine with a cap of one: the stores match
      after every prefix, the next pass decides the same, and a run id is rerun equally often. So the
      bounds above hold of it, with a cap of one. */
  lemma {:induction false} DebounceRunsAreCapOne(rounds: seq<Round>, run: int)
    ensures StoresMatch(DebounceAfter(rounds), StoreAfter(rounds, CodeKind, 1))
    ensures forall p :: SameVerdicts(DebounceOutcome(DebounceAfter(rounds), p),
                                     Outcome(StoreAfter(rounds, CodeKind, 1), p, CodeKind, 1))
    ensures DebounceReruns(rounds, run) == RerunCount(rounds, CodeKind, 1, run)
  {
    if rounds == [] {
    } else {
      var before, last := rounds[..|rounds| - 1], rounds[|rounds| - 1];
      DebounceRunsAreCapOne(before, run);
      StoresMatchNext(DebounceAfter(before), StoreAfter(before, CodeKind, 1), last);
    }
    forall p ensures SameVerdicts(DebounceOutcome(DebounceAfter(rounds), p),
                                  Outcome(StoreAfter(rounds, CodeKind, 1), p, CodeKind, 1))
    {
      StoresMatchNext(DebounceAfter(rounds), StoreAfter(rounds, CodeKind, 1), p);
    }
  }
}
