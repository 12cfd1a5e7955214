/** The rerun passes read off the texts of the runs: which run ids are rerun, and which names are
    reported as definitive. */
module RerunTexts {
  import opened Sorting
  import opened CheckSummary
  import opened CheckTexts
  import opened CheckReruns
  import opened CheckRerunBounds

  /** The texts a pass of the kind acts on. */
  predicate ActsOn(k: Kind, c: Check) {
    if k == InfraKind then InfraText(c) else FailedText(c)
  }

  lemma KindByText(k: Kind, c: Check)
    ensures (if k == InfraKind then IsInfra(c) else IsFailing(c)) <==> ActsOn(k, c)
  {
  }

  /** The name has a run the pass acts on, and none that is worse. */
  ghost predicate Fails(p: Round, k: Kind, name: string) {
    && name in p.required
    && Has(Listing(p), name, c => ActsOn(k, c))
    && (k == InfraKind ==> !Has(Listing(p), name, BlockedText) && !Has(Listing(p), name, FailedText))
  }

  lemma JudgedByText(p: Round, k: Kind, name: string)
    ensures name in NamesOf(p, k) <==> Fails(p, k, name)
  {
    if p.checks.Some? && name in p.required {
      var cs := p.checks.value;
      BucketsByText(cs, p.required, name);
      assert Has(cs, name, c => ActsOn(k, c)) <==> Has(cs, name, if k == InfraKind then InfraText else FailedText);
    } else if name in NamesOf(p, k) {
      JudgedAreRequired(p, k, name);
    }
  }

  /** A run of the name, with the run id, that the pass acts on. */
  ghost predicate Carries(p: Round, k: Kind, name: string, id: int) {
    exists c :: c in Listing(p) && c.name == name && ActsOn(k, c) && c.run == Some(id)
  }

  lemma IdsByText(p: Round, k: Kind, name: string, id: int)
    ensures id in IdsOf(p, k, name) <==> Carries(p, k, name, id)
  {
    forall c ensures (if k == InfraKind then IsInfra(c) else IsFailing(c)) <==> ActsOn(k, c) { KindByText(k, c); }
  }

  lemma ShareByText(a: Attempts, p: Round, k: Kind, cap: int, name: string, id: int)
    requires name in NamesOf(p, k)
    ensures id in Share(a, p, k, cap, name)
       <==> p.record && Carries(p, k, name, id) && Tried(a, name, id) < cap
  {
    FailingIsNotPassing(p, k, name);
    ClearTries(a, SummaryOf(p.checks, p.required).passed, name, id);
    IdsByText(p, k, name, id);
  }

  /** For any stored attempts and any call: a run id is rerun exactly when attempts are recorded, a failing
      required name has a run with that id whose texts the pass acts on, and the id has an attempt left. */
  lemma RerunsByText(stored: Store, p: Round, k: Kind, cap: int, id: int)
    ensures id in Outcome(stored, p, k, cap).reruns
       <==> && p.record
            && exists name :: Fails(p, k, name) && Carries(p, k, name, id)
                              && Tried(OnHead(stored, p.head), name, id) < cap
  {
    var a := OnHead(stored, p.head);
    PassSettles(a, p, k, cap);
    if p.required == [] { NothingToJudge(p, k); }
    forall name ensures name in NamesOf(p, k) && id in Share(a, p, k, cap, name)
      <==> p.record && Fails(p, k, name) && Carries(p, k, name, id) && Tried(a, name, id) < cap
    {
      JudgedByText(p, k, name);
      if name in NamesOf(p, k) { ShareByText(a, p, k, cap, name, id); }
    }
  }

  /** A name required once is definitive exactly when it fails, and either nothing is recorded or none of
      its run ids has an attempt left. */
  lemma DefinitiveByText(stored: Store, p: Round, k: Kind, cap: int, name: string)
    requires multiset(p.required)[name] == 1
    ensures name in Outcome(stored, p, k, cap).definitive
       <==> && Fails(p, k, name)
            && (!p.record || forall id :: Carries(p, k, name, id) ==> Tried(OnHead(stored, p.head), name, id) >= cap)
  {
    var a := OnHead(stored, p.head);
    assert name in p.required;
    JudgedByText(p, k, name);
    PassSettles(a, p, k, cap);
    if name in NamesOf(p, k) {
      TimesRequired(p, k, name);
      forall id ensures id in Share(a, p, k, cap, name)
        <==> p.record && Carries(p, k, name, id) && Tried(a, name, id) < cap
      {
        ShareByText(a, p, k, cap, name, id);
      }
      NoneLeft(Share(a, p, k, cap, name));
    }
  }

  lemma NoneLeft(ids: set<int>)
    ensures ids == {} <==> forall id :: id !in ids
  {
    if forall id :: id !in ids { assert ids == {}; }
  }

  // ---- the set-based pass

  /** One attempt for each run id tried. */
  function Counts(s: Attempted): Attempts {
    map name | name in s :: map id | id in s[name] :: 1
  }

  lemma CountsMatch(s: Attempted)
    ensures Matches(s, Counts(s))
    ensures forall name, id :: Tried(Counts(s), name, id) < 1 <==> id !in Seen(s, name)
  {
  }

  /** A run id of a code failure is rerun exactly when attempts are recorded, a failing required name has a
      run with that id that failed, and the id was not tried for that name on this head. */
  lemma DebouncesByText(stored: SetStore, p: Round, id: int)
    ensures id in DebounceOutcome(stored, p).reruns
       <==> && p.record
            && exists name :: Fails(p, CodeKind, name) && Carries(p, CodeKind, name, id)
                              && id !in Seen(OnHead(stored, p.head), name)
  {
    var s := OnHead(stored, p.head);
    var counts: Store := map[p.head := Counts(s)];
    CountsMatch(s);
    CountsOnHead(stored, p.head);
    DebounceMatches(stored, counts, p);
    RerunsByText(counts, p, CodeKind, 1, id);
  }

  lemma CountsOnHead(stored: SetStore, head: string)
    ensures OnHead(map[head := Counts(OnHead(stored, head))], head) == Counts(OnHead(stored, head))
  {
  }

  lemma DebounceMatches(s: SetStore, a: Store, p: Round)
    requires Matches(OnHead(s, p.head), OnHead(a, p.head))
    ensures SameVerdicts(DebounceOutcome(s, p), Outcome(a, p, CodeKind, 1))
  {
    if p.required != [] { DebounceIsCapOne(OnHead(s, p.head), OnHead(a, p.head), p); }
  }

  /** And a name required once is definitive exactly when it fails, and either nothing is recorded or all
      its run ids were tried. */
  lemma DebounceDefinitiveByText(stored: SetStore, p: Round, name: string)
    requires multiset(p.required)[name] == 1
    ensures name in DebounceOutcome(stored, p).definitive
       <==> && Fails(p, CodeKind, name)
            && (!p.record
                || forall id :: Carries(p, CodeKind, name, id) ==> id in Seen(OnHead(stored, p.head), name))
  {
    var s := OnHead(stored, p.head);
    var counts: Store := map[p.head := Counts(s)];
    CountsMatch(s);
    CountsOnHead(stored, p.head);
    DebounceMatches(stored, counts, p);
    DefinitiveByText(counts, p, CodeKind, 1, name);
  }
}
