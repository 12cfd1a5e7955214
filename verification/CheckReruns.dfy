/** Bounded reruns of failed required checks (`classify_infra_failures`, `classify_check_failures`). */
module CheckReruns {
  import opened Sorting
  import opened CheckSummary

  /** Rerun attempts on the current head, per check name and workflow run id. */
  type Attempts = map<string, map<int, nat>>

  function Tries(a: Attempts, name: string): map<int, nat> {
    if name in a then a[name] else map[]
  }

  function Tried(a: Attempts, name: string, run: int): nat {
    if run in Tries(a, name) then Tries(a, name)[run] else 0
  }

  /** Attempts of names that now pass are forgotten. */
  function Clear(a: Attempts, passed: seq<string>): Attempts {
    map n | n in a && n !in passed :: a[n]
  }

  predicate IsInfra(c: Check) {
    Classify(c) == Cancelled || Classify(c) == Infra
  }

  predicate IsFailing(c: Check) {
    Classify(c) == Fail
  }

  /** Run ids of the name's checks of one kind. */
  ghost function RunIds(checks: seq<Check>, name: string, kind: Check -> bool): set<int> {
    set c | c in checks && c.name == name && kind(c) && c.run.Some? :: c.run.value
  }

  function Eligible(a: Attempts, name: string, ids: set<int>, cap: int): set<int> {
    set id | id in ids && Tried(a, name, id) < cap
  }

  function Bumped(a: Attempts, name: string, ids: set<int>, run: int): nat {
    Tried(a, name, run) + if run in ids then 1 else 0
  }

  function Granted(a: Attempts, name: string, ids: set<int>): Attempts {
    a[name := map id | id in Tries(a, name).Keys + ids :: Bumped(a, name, ids, id)]
  }

  // ---- one pass

  /** One call for a pull request: `head` is "" when unknown, `checks` None when the listing failed. */
  datatype Round = Round(head: string, checks: Option<seq<Check>>, required: seq<string>, record: bool)

  /** What one pass decides so far. */
  datatype Verdicts = Verdicts(attempts: Attempts, reruns: set<int>, definitive: seq<string>)

  ghost function Listing(p: Round): seq<Check> {
    if p.checks.Some? then p.checks.value else []
  }

  /** Which failures a pass looks at: infrastructure or code. */
  datatype Kind = InfraKind | CodeKind

  ghost function IdsOf(p: Round, k: Kind, name: string): set<int> {
    RunIds(Listing(p), name, if k == InfraKind then IsInfra else IsFailing)
  }

  ghost function NamesOf(p: Round, k: Kind): seq<string> {
    var summary := SummaryOf(p.checks, p.required);
    if k == InfraKind then summary.infraFailed else summary.failed
  }

  function Judge(v: Verdicts, name: string, ids: set<int>, record: bool, cap: int): Verdicts {
    var eligible := Eligible(v.attempts, name, ids, cap);
    if ids == {} || !record || eligible == {} then v.(definitive := v.definitive + [name])
    else Verdicts(Granted(v.attempts, name, eligible), v.reruns + eligible, v.definitive)
  }

  ghost function JudgeAll(v: Verdicts, p: Round, k: Kind, names: seq<string>, cap: int): Verdicts {
    if names == [] then v
    else
      var last := names[|names| - 1];
      Judge(JudgeAll(v, p, k, names[..|names| - 1], cap), last, IdsOf(p, k, last), p.record, cap)
  }

  function Opening(a: Attempts, passed: seq<string>): Verdicts {
    Verdicts(Clear(a, passed), {}, [])
  }

  lemma {:induction false} JudgeNext(v: Verdicts, p: Round, k: Kind, names: seq<string>, i: nat, cap: int)
    requires i < |names|
    ensures JudgeAll(v, p, k, names[..i + 1], cap)
         == Judge(JudgeAll(v, p, k, names[..i], cap), names[i], IdsOf(p, k, names[i]), p.record, cap)
  {
    assert names[..i + 1][..i] == names[..i];
  }

  /** A pass with something required, given the attempts kept for its head. */
  ghost function PassResult(a: Attempts, p: Round, k: Kind, cap: int): Verdicts {
    JudgeAll(Opening(a, SummaryOf(p.checks, p.required).passed), p, k, NamesOf(p, k), cap)
  }

  // ---- what is stored between passes

  /** Attempts kept for a head; none without a head. */
  function OnHead<T>(stored: map<string, map<string, T>>, head: string): map<string, T> {
    if head != "" && head in stored then stored[head] else map[]
  }

  /** Only the current head is kept. */
  function ToStore<T>(head: string, current: map<string, T>): map<string, map<string, T>> {
    if head != "" then map[head := current] else map[]
  }

  type Store = map<string, Attempts>

  /** A whole pass: with nothing required it decides nothing and hands back no attempts. */
  ghost function Outcome(stored: Store, p: Round, k: Kind, cap: int): Verdicts {
    if p.required == [] then Verdicts(map[], {}, []) else PassResult(OnHead(stored, p.head), p, k, cap)
  }

  ghost function StoreNext(stored: Store, p: Round, k: Kind, cap: int): Store {
    if p.required == [] then map[] else ToStore(p.head, Outcome(stored, p, k, cap).attempts)
  }

  // ---- the program

  method CollectRunIds(checks: Option<seq<Check>>, name: string, kind: Check -> bool) returns (ids: set<int>)
    ensures ids == RunIds(if checks.Some? then checks.value else [], name, kind)
  {
    ids := {};
    if checks.None? { return; }
    var cs, i := checks.value, 0;
    while i < |cs|
      invariant i <= |cs| && ids == RunIds(cs[..i], name, kind)
    {
      TakeStep(cs, i);
      assert forall c :: c in cs[..i + 1] <==> c in cs[..i] || c == cs[i];
      if cs[i].name == name && kind(cs[i]) && cs[i].run.Some? { ids := ids + {cs[i].run.value}; }
      i := i + 1;
    }
    TakeAll(cs);
  }

  /** `sorted(ids)` of a set. */
  method SortedIds(ids: set<int>) returns (r: seq<int>)
    ensures r == SortedOf(ids)
  {
    r := [];
    var rest := ids;
    while exists id :: id in rest
      invariant Increasing(r) && rest <= ids
      invariant forall id :: id in r <==> id in ids && id !in rest
      decreases |rest|
    {
      var id :| id in rest;
      r, rest := Insert(id, r), rest - {id};
    }
    IncreasingUnique(r, SortedOf(ids));
  }

  method ClassifyInfraFailures(checks: Option<seq<Check>>, required: seq<string>, stored: Store,
                               head: string, record: bool, cap: int)
    returns (reruns: seq<int>, attempts: Store, definitive: seq<string>)
    ensures var p := Round(head, checks, required, record);
            var v := Outcome(stored, p, InfraKind, cap);
            && reruns == SortedOf(v.reruns) && definitive == v.definitive
            && attempts == StoreNext(stored, p, InfraKind, cap)
  {
    if required == [] { return [], map[], []; }
    var summary := SummarizeChecks(checks, required);
    ghost var p := Round(head, checks, required, record);
    var current := Clear(OnHead(stored, head), summary.passed);
    ghost var start := Opening(OnHead(stored, head), summary.passed);
    var granted: set<int>;
    granted, definitive := {}, [];
    var names, i := summary.infraFailed, 0;
    while i < |names|
      invariant i <= |names| && Verdicts(current, granted, definitive) == JudgeAll(start, p, InfraKind, names[..i], cap)
    {
      var name := names[i];
      JudgeNext(start, p, InfraKind, names, i, cap);
      var ids := CollectRunIds(checks, name, IsInfra);
      if ids == {} {
        definitive := definitive + [name];
      } else if !record {
        definitive := definitive + [name];
      } else {
        var eligible := Eligible(current, name, ids, cap);
        if eligible == {} {
          definitive := definitive + [name];
        } else {
          granted := granted + eligible;
          current := Granted(current, name, eligible);
        }
      }
      i := i + 1;
    }
    TakeAll(names);
    reruns := SortedIds(granted);
    attempts := ToStore(head, current);
  }

  // ---- code failures: the same pass, remembering the run ids tried as a sorted list

  type Attempted = map<string, seq<int>>

  function Seen(a: Attempted, name: string): set<int> {
    if name in a then Elements(a[name]) else {}
  }

  datatype SetVerdicts = SetVerdicts(attempts: Attempted, reruns: set<int>, definitive: seq<string>)

  function ClearSets(a: Attempted, passed: seq<string>): Attempted {
    map n | n in a && n !in passed :: a[n]
  }

  ghost function JudgeSets(v: SetVerdicts, name: string, ids: set<int>, record: bool): SetVerdicts {
    var untried := ids - Seen(v.attempts, name);
    if untried == {} || !record then v.(definitive := v.definitive + [name])
    else SetVerdicts(v.attempts[name := SortedOf(Seen(v.attempts, name) + untried)], v.reruns + untried, v.definitive)
  }

  ghost function JudgeAllSets(v: SetVerdicts, p: Round, names: seq<string>): SetVerdicts {
    if names == [] then v
    else
      var last := names[|names| - 1];
      JudgeSets(JudgeAllSets(v, p, names[..|names| - 1]), last, IdsOf(p, CodeKind, last), p.record)
  }

  lemma {:induction false} JudgeSetsNext(v: SetVerdicts, p: Round, names: seq<string>, i: nat)
    requires i < |names|
    ensures JudgeAllSets(v, p, names[..i + 1])
         == JudgeSets(JudgeAllSets(v, p, names[..i]), names[i], IdsOf(p, CodeKind, names[i]), p.record)
  {
    assert names[..i + 1][..i] == names[..i];
  }

  ghost function DebounceResult(a: Attempted, p: Round): SetVerdicts {
    var start := SetVerdicts(ClearSets(a, SummaryOf(p.checks, p.required).passed), {}, []);
    JudgeAllSets(start, p, NamesOf(p, CodeKind))
  }

  type SetStore = map<string, Attempted>

  ghost function DebounceOutcome(stored: SetStore, p: Round): SetVerdicts {
    if p.required == [] then SetVerdicts(map[], {}, []) else DebounceResult(OnHead(stored, p.head), p)
  }

  ghost function DebounceNext(stored: SetStore, p: Round): SetStore {
    if p.required == [] then map[] else ToStore(p.head, DebounceOutcome(stored, p).attempts)
  }

  method ClassifyCheckFailures(checks: Option<seq<Check>>, required: seq<string>, stored: SetStore,
                               head: string, record: bool)
    returns (reruns: seq<int>, attempts: SetStore, definitive: seq<string>)
    ensures var p := Round(head, checks, required, record);
            var v := DebounceOutcome(stored, p);
            && reruns == SortedOf(v.reruns) && definitive == v.definitive
            && attempts == DebounceNext(stored, p)
  {
    if required == [] { return [], map[], []; }
    var summary := SummarizeChecks(checks, required);
    ghost var p := Round(head, checks, required, record);
    var current := ClearSets(OnHead(stored, head), summary.passed);
    ghost var start := SetVerdicts(current, {}, []);
    var granted: set<int>;
    granted, definitive := {}, [];
    var names, i := summary.failed, 0;
    while i < |names|
      invariant i <= |names| && SetVerdicts(current, granted, definitive) == JudgeAllSets(start, p, names[..i])
    {
      var name := names[i];
      JudgeSetsNext(start, p, names, i);
      var ids := CollectRunIds(checks, name, IsFailing);
      if ids == {} {
        definitive := definitive + [name];
      } else {
        var untried := ids - Seen(current, name);
        if untried == {} {
          definitive := definitive + [name];
        } else if record {
          granted := granted + untried;
          var tried := SortedIds(Seen(current, name) + untried);
          current := current[name := tried];
        } else {
          definitive := definitive + [name];
        }
      }
      i := i + 1;
    }
    TakeAll(names);
    reruns := SortedIds(granted);
    attempts := ToStore(head, current);
  }
}
