/** The worker spend ledger (`settle_session`): idempotent settlement, with per-day and lifetime totals
    kept beside the sessions they add up. Dollars are integers in units of 1e-8, as the source
    rounds; the UTC day of a start time is a parameter (empty when the time is unreadable). */
module SpendLedger {
  import opened Sorting

  datatype Session = Session(issue: int, sessionId: string, startedAt: string, input: int, output: int,
                             cached: int, usd: int, outcome: string)

  datatype Key = Key(issue: int, startedAt: string, sessionId: string)

  datatype Bucket = Bucket(input: int, output: int, cached: int, usd: int)

  datatype Ledger = Ledger(days: map<string, Bucket>, lifetime: int, sessions: seq<Session>)

  const EMPTY := Ledger(map[], 0, [])

  type DayOf = string -> string

  function KeyOf(e: Session): Key {
    Key(e.issue, e.startedAt, e.sessionId)
  }

  predicate Settled(sessions: seq<Session>, k: Key) {
    exists i :: 0 <= i < |sessions| && KeyOf(sessions[i]) == k
  }

  function Append(l: Ledger, e: Session, dayOf: DayOf): Ledger {
    var day := dayOf(e.startedAt);
    var current := if day in l.days then l.days[day] else Bucket(0, 0, 0, 0);
    var bucket := Bucket(current.input + e.input, current.output + e.output,
                         current.cached + e.cached, current.usd + e.usd);
    Ledger(if day != "" then l.days[day := bucket] else l.days, l.lifetime + e.usd, l.sessions + [e])
  }

  function Settle(l: Ledger, e: Session, dayOf: DayOf): Ledger {
    if Settled(l.sessions, KeyOf(e)) then l else Append(l, e, dayOf)
  }

  /** The scan over the recorded sessions, then the new totals. */
  method SettleSession(l: Ledger, e: Session, dayOf: DayOf) returns (r: Ledger)
    ensures r == Settle(l, e, dayOf)
  {
    for i := 0 to |l.sessions|
      invariant forall j :: 0 <= j < i ==> KeyOf(l.sessions[j]) != KeyOf(e)
    {
      if KeyOf(l.sessions[i]) == KeyOf(e) { return l; }
    }
    r := Append(l, e, dayOf);
  }

  function SettleAll(l: Ledger, es: seq<Session>, dayOf: DayOf): Ledger {
    if es == [] then l else Settle(SettleAll(l, es[..|es| - 1], dayOf), es[|es| - 1], dayOf)
  }

  // ---- what the totals should be: sums over the sessions

  datatype Column = Input | Output | Cached | Usd

  function Amount(e: Session, c: Column): int {
    match c
    case Input => e.input
    case Output => e.output
    case Cached => e.cached
    case Usd => e.usd
  }

  function Sum(sessions: seq<Session>, c: Column, keep: Session -> bool): int {
    if sessions == [] then 0
    else
      var last := sessions[|sessions| - 1];
      Sum(sessions[..|sessions| - 1], c, keep) + (if keep(last) then Amount(last, c) else 0)
  }

  function OnDay(day: string, dayOf: DayOf): Session -> bool {
    (e: Session) => dayOf(e.startedAt) == day
  }

  function Everything(): Session -> bool {
    (e: Session) => true
  }

  function DayTotal(sessions: seq<Session>, day: string, dayOf: DayOf): Bucket {
    Bucket(Sum(sessions, Input, OnDay(day, dayOf)), Sum(sessions, Output, OnDay(day, dayOf)),
           Sum(sessions, Cached, OnDay(day, dayOf)), Sum(sessions, Usd, OnDay(day, dayOf)))
  }

  predicate StartsOn(sessions: seq<Session>, day: string, dayOf: DayOf) {
    exists i :: 0 <= i < |sessions| && dayOf(sessions[i].startedAt) == day
  }

  ghost predicate KeysDistinct(sessions: seq<Session>) {
    forall i, j :: 0 <= i < j < |sessions| ==> KeyOf(sessions[i]) != KeyOf(sessions[j])
  }

  ghost predicate DayAccurate(l: Ledger, day: string, dayOf: DayOf) {
    && (day in l.days <==> day != "" && StartsOn(l.sessions, day, dayOf))
    && (day in l.days ==> l.days[day] == DayTotal(l.sessions, day, dayOf))
  }

  /** Each session once; the lifetime is their sum; each day is the column-wise sum of its sessions. */
  ghost predicate Accurate(l: Ledger, dayOf: DayOf) {
    && KeysDistinct(l.sessions)
    && l.lifetime == Sum(l.sessions, Usd, Everything())
    && forall day :: DayAccurate(l, day, dayOf)
  }

  lemma {:induction false} NoneOnDay(sessions: seq<Session>, day: string, dayOf: DayOf)
    requires !StartsOn(sessions, day, dayOf)
    ensures DayTotal(sessions, day, dayOf) == Bucket(0, 0, 0, 0)
  {
    if sessions == [] {
    } else {
      var before := sessions[..|sessions| - 1];
      assert dayOf(sessions[|sessions| - 1].startedAt) != day;
      assert forall i :: 0 <= i < |before| ==> before[i] == sessions[i];
      NoneOnDay(before, day, dayOf);
    }
  }

  lemma StartsOnSnoc(sessions: seq<Session>, e: Session, day: string, dayOf: DayOf)
    ensures StartsOn(sessions + [e], day, dayOf) <==> StartsOn(sessions, day, dayOf) || dayOf(e.startedAt) == day
  {
    var after := sessions + [e];
    assert after[|sessions|] == e;
    assert forall i :: 0 <= i < |sessions| ==> after[i] == sessions[i];
  }

  lemma AppendDay(l: Ledger, e: Session, day: string, dayOf: DayOf)
    requires DayAccurate(l, day, dayOf)
    ensures DayAccurate(Append(l, e, dayOf), day, dayOf)
  {
    var after := l.sessions + [e];
    assert after[..|l.sessions|] == l.sessions;
    StartsOnSnoc(l.sessions, e, day, dayOf);
    if !StartsOn(l.sessions, day, dayOf) { NoneOnDay(l.sessions, day, dayOf); }
  }

  lemma SettleKeepsAccurate(l: Ledger, e: Session, dayOf: DayOf)
    requires Accurate(l, dayOf)
    ensures Accurate(Settle(l, e, dayOf), dayOf)
  {
    if !Settled(l.sessions, KeyOf(e)) {
      assert (l.sessions + [e])[..|l.sessions|] == l.sessions;
      forall day ensures DayAccurate(Append(l, e, dayOf), day, dayOf) { AppendDay(l, e, day, dayOf); }
    }
  }

  /** After any settlements from the empty ledger the totals agree with the sessions. */
  lemma {:induction false} LedgerIsAccurate(es: seq<Session>, dayOf: DayOf)
    ensures Accurate(SettleAll(EMPTY, es, dayOf), dayOf)
  {
    if es == [] {
    } else {
      LedgerIsAccurate(es[..|es| - 1], dayOf);
      SettleKeepsAccurate(SettleAll(EMPTY, es[..|es| - 1], dayOf), es[|es| - 1], dayOf);
    }
  }

  // ---- replays

  lemma {:induction false} SettleInTwo(l: Ledger, a: seq<Session>, b: seq<Session>, dayOf: DayOf)
    ensures SettleAll(l, a + b, dayOf) == SettleAll(SettleAll(l, a, dayOf), b, dayOf)
    decreases |b|
  {
    if b == [] {
      assert a + b == a;
    } else {
      var last := |a + b| - 1;
      assert (a + b)[..last] == a + b[..|b| - 1] && (a + b)[last] == b[|b| - 1];
      SettleInTwo(l, a, b[..|b| - 1], dayOf);
    }
  }

  lemma {:induction false} EveryKeySettled(l: Ledger, es: seq<Session>, k: Key, dayOf: DayOf)
    requires Settled(es, k) || Settled(l.sessions, k)
    ensures Settled(SettleAll(l, es, dayOf).sessions, k)
  {
    if es == [] {
    } else {
      var before, last := es[..|es| - 1], es[|es| - 1];
      var mid := SettleAll(l, before, dayOf);
      if Settled(before, k) || Settled(l.sessions, k) {
        EveryKeySettled(l, before, k, dayOf);
        SettledStays(mid, last, k, dayOf);
      } else {
        LastSettled(es, k);
        assert Settled(Settle(mid, last, dayOf).sessions, k) by {
          assert (mid.sessions + [last])[|mid.sessions|] == last;
        }
      }
    }
  }

  lemma LastSettled(es: seq<Session>, k: Key)
    requires es != [] && Settled(es, k) && !Settled(es[..|es| - 1], k)
    ensures KeyOf(es[|es| - 1]) == k
  {
    var before := es[..|es| - 1];
    forall j | 0 <= j < |before| ensures KeyOf(es[j]) != k { assert before[j] == es[j]; }
  }

  lemma SettledStays(l: Ledger, e: Session, k: Key, dayOf: DayOf)
    requires Settled(l.sessions, k)
    ensures Settled(Settle(l, e, dayOf).sessions, k)
  {
    var i :| 0 <= i < |l.sessions| && KeyOf(l.sessions[i]) == k;
    assert (l.sessions + [e])[i] == l.sessions[i];
  }

  /** Settling a session again, anywhere later in a run, changes nothing. */
  lemma ReplayChangesNothing(l: Ledger, a: seq<Session>, e: Session, b: seq<Session>, dayOf: DayOf)
    requires Settled(a, KeyOf(e))
    ensures SettleAll(l, (a + [e]) + b, dayOf) == SettleAll(l, a + b, dayOf)
  {
    EveryKeySettled(l, a, KeyOf(e), dayOf);
    SettleInTwo(l, a + [e], b, dayOf);
    SettleInTwo(l, a, b, dayOf);
    assert (a + [e])[..|a|] == a;
  }

  // ---- order

  /** Equal keys mean equal entries. */
  ghost predicate Consistent(es: seq<Session>) {
    forall i, j :: 0 <= i < |es| && 0 <= j < |es| && KeyOf(es[i]) == KeyOf(es[j]) ==> es[i] == es[j]
  }

  lemma {:induction false} SessionsCome(es: seq<Session>, dayOf: DayOf, x: Session)
    requires x in SettleAll(EMPTY, es, dayOf).sessions
    ensures x in es
  {
    if es == [] {
    } else {
      var before := es[..|es| - 1];
      if x in SettleAll(EMPTY, before, dayOf).sessions { SessionsCome(before, dayOf, x); }
    }
  }

  /** The sessions of a consistent run are exactly its entries. */
  lemma SessionsAreEntries(es: seq<Session>, dayOf: DayOf, x: Session)
    requires Consistent(es)
    ensures x in SettleAll(EMPTY, es, dayOf).sessions <==> x in es
  {
    var sessions := SettleAll(EMPTY, es, dayOf).sessions;
    if x in sessions { SessionsCome(es, dayOf, x); }
    if x in es {
      EveryKeySettled(EMPTY, es, KeyOf(x), dayOf);
      var i :| 0 <= i < |sessions| && KeyOf(sessions[i]) == KeyOf(x);
      SessionsCome(es, dayOf, sessions[i]);
      var p, q :| 0 <= p < |es| && es[p] == x && 0 <= q < |es| && es[q] == sessions[i];
    }
  }

  lemma {:induction false} SumJoin(a: seq<Session>, b: seq<Session>, c: Column, keep: Session -> bool)
    ensures Sum(a + b, c, keep) == Sum(a, c, keep) + Sum(b, c, keep)
    decreases |b|
  {
    if b == [] {
      assert a + b == a;
    } else {
      assert (a + b)[..|a + b| - 1] == a + b[..|b| - 1];
      SumJoin(a, b[..|b| - 1], c, keep);
    }
  }

  lemma SumRemove(b: seq<Session>, i: nat, c: Column, keep: Session -> bool)
    requires i < |b|
    ensures Sum(b, c, keep) == Sum(b[..i] + b[i + 1..], c, keep) + if keep(b[i]) then Amount(b[i], c) else 0
  {
    SumJoin(b[..i], b[i + 1..], c, keep);
    SumJoin(b[..i + 1], b[i + 1..], c, keep);
    assert b[..i + 1] + b[i + 1..] == b && b[..i + 1][..i] == b[..i];
  }

  /** A sum over sessions without repeats depends only on which sessions there are. */
  lemma {:induction false} SumOfSet(a: seq<Session>, b: seq<Session>, c: Column, keep: Session -> bool)
    requires Distinct(a) && Distinct(b) && forall x :: x in a <==> x in b
    ensures Sum(a, c, keep) == Sum(b, c, keep)
  {
    assert forall i :: 0 <= i < |b| ==> b[i] in b;
    if a == [] {
    } else {
      var before, last := a[..|a| - 1], a[|a| - 1];
      assert last in a && last in b;
      var i :| 0 <= i < |b| && b[i] == last;
      var rest := b[..i] + b[i + 1..];
      SumRemove(b, i, c, keep);
      RestHas(a, b, i);
      SumOfSet(before, rest, c, keep);
    }
  }

  /** Two runs over the same entries, in any order and with any repeats, end with the same totals. */
  lemma OrderIrrelevant(a: seq<Session>, b: seq<Session>, dayOf: DayOf)
    requires Consistent(a) && Consistent(b) && forall x :: x in a <==> x in b
    ensures SettleAll(EMPTY, a, dayOf).lifetime == SettleAll(EMPTY, b, dayOf).lifetime
    ensures SettleAll(EMPTY, a, dayOf).days == SettleAll(EMPTY, b, dayOf).days
  {
    var l, k := SettleAll(EMPTY, a, dayOf), SettleAll(EMPTY, b, dayOf);
    LedgerIsAccurate(a, dayOf);
    LedgerIsAccurate(b, dayOf);
    forall x ensures x in l.sessions <==> x in k.sessions {
      SessionsAreEntries(a, dayOf, x);
      SessionsAreEntries(b, dayOf, x);
    }
    SameSessionsSameTotals(l, k, dayOf);
  }

  lemma SameSessionsSameTotals(l: Ledger, k: Ledger, dayOf: DayOf)
    requires Accurate(l, dayOf) && Accurate(k, dayOf) && forall x :: x in l.sessions <==> x in k.sessions
    ensures l.lifetime == k.lifetime && l.days == k.days
  {
    SumOfSet(l.sessions, k.sessions, Usd, Everything());
    forall day ensures (day in l.days <==> day in k.days) && (day in l.days ==> l.days[day] == k.days[day]) {
      SameDay(l, k, day, dayOf);
    }
  }

  lemma SameDay(l: Ledger, k: Ledger, day: string, dayOf: DayOf)
    requires Accurate(l, dayOf) && Accurate(k, dayOf) && forall x :: x in l.sessions <==> x in k.sessions
    ensures (day in l.days <==> day in k.days) && (day in l.days ==> l.days[day] == k.days[day])
  {
    assert DayAccurate(l, day, dayOf) && DayAccurate(k, day, dayOf);
    SumOfSet(l.sessions, k.sessions, Input, OnDay(day, dayOf));
    SumOfSet(l.sessions, k.sessions, Output, OnDay(day, dayOf));
    SumOfSet(l.sessions, k.sessions, Cached, OnDay(day, dayOf));
    SumOfSet(l.sessions, k.sessions, Usd, OnDay(day, dayOf));
    StartsOnSame(l.sessions, k.sessions, day, dayOf);
    StartsOnSame(k.sessions, l.sessions, day, dayOf);
  }

  lemma StartsOnSame(a: seq<Session>, b: seq<Session>, day: string, dayOf: DayOf)
    requires forall x :: x in a ==> x in b
    ensures StartsOn(a, day, dayOf) ==> StartsOn(b, day, dayOf)
  {
    if StartsOn(a, day, dayOf) {
      var i :| 0 <= i < |a| && dayOf(a[i].startedAt) == day;
      assert a[i] in b;
      var j :| 0 <= j < |b| && b[j] == a[i];
    }
  }

  // ---- which sessions are kept, by their fields

  /** No entry before i has the same issue, start time and session id. */
  predicate FirstOfItsKind(es: seq<Session>, i: nat)
    requires i < |es|
  {
    forall j :: 0 <= j < i ==>
      es[j].issue != es[i].issue || es[j].startedAt != es[i].startedAt || es[j].sessionId != es[i].sessionId
  }

  /** `at` lists, in order, the first n entries that are the first of their kind, and `kept` their sessions. */
  ghost predicate KeepsFirsts(es: seq<Session>, n: nat, at: seq<nat>, kept: seq<Session>)
    requires n <= |es|
  {
    && |at| == |kept| && (forall j, k :: 0 <= j < k < |at| ==> at[j] < at[k])
    && (forall i: nat :: i in at <==> i < n && FirstOfItsKind(es, i))
    && (forall k :: 0 <= k < |at| ==> at[k] < n && kept[k] == es[at[k]])
  }

  lemma {:induction false} AllBeforeSettled(es: seq<Session>, n: nat, sessions: seq<Session>, dayOf: DayOf)
    requires n < |es| && sessions == SettleAll(EMPTY, es[..n], dayOf).sessions
    ensures Settled(sessions, KeyOf(es[n])) <==> !FirstOfItsKind(es, n)
  {
    var k := KeyOf(es[n]);
    if Settled(sessions, k) {
      var i :| 0 <= i < |sessions| && KeyOf(sessions[i]) == k;
      SessionsCome(es[..n], dayOf, sessions[i]);
      var j :| 0 <= j < n && es[..n][j] == sessions[i];
      assert es[j] == sessions[i];
    }
    if !FirstOfItsKind(es, n) {
      var j :| 0 <= j < n && es[j].issue == es[n].issue && es[j].startedAt == es[n].startedAt
               && es[j].sessionId == es[n].sessionId;
      assert KeyOf(es[..n][j]) == k;
      EveryKeySettled(EMPTY, es[..n], k, dayOf);
    }
  }

  /** The ledger keeps exactly the first entry of every issue, start time and session id, in order. */
  lemma {:induction false} SessionsByFields(es: seq<Session>, dayOf: DayOf) returns (at: seq<nat>)
    ensures KeepsFirsts(es, |es|, at, SettleAll(EMPTY, es, dayOf).sessions)
  {
    at := [];
    for n := 0 to |es|
      invariant KeepsFirsts(es, n, at, SettleAll(EMPTY, es[..n], dayOf).sessions)
    {
      var before := SettleAll(EMPTY, es[..n], dayOf);
      assert es[..n + 1][..n] == es[..n];
      AllBeforeSettled(es, n, before.sessions, dayOf);
      assert forall i: nat :: i in at + [n] <==> i in at || i == n;
      if FirstOfItsKind(es, n) { at := at + [n]; }
    }
    assert es[..|es|] == es;
  }

  // ---- the totals, field by field

  /** `sums` adds up the sessions of the day, one by one. */
  ghost predicate AddsUp(sessions: seq<Session>, day: string, dayOf: DayOf, sums: seq<Bucket>) {
    && |sums| == |sessions| + 1 && sums[0] == Bucket(0, 0, 0, 0)
    && forall k :: 0 <= k < |sessions| ==> Adds(sums[k], sessions[k], dayOf(sessions[k].startedAt) == day, sums[k + 1])
  }

  predicate Adds(sum: Bucket, e: Session, counts: bool, next: Bucket) {
    if counts then
      && next.input == sum.input + e.input && next.output == sum.output + e.output
      && next.cached == sum.cached + e.cached && next.usd == sum.usd + e.usd
    else next == sum
  }

  ghost predicate AddsDollars(sessions: seq<Session>, sums: seq<int>) {
    && |sums| == |sessions| + 1 && sums[0] == 0
    && forall k :: 0 <= k < |sessions| ==> sums[k + 1] == sums[k] + sessions[k].usd
  }

  lemma DayTotalNext(sessions: seq<Session>, k: nat, day: string, dayOf: DayOf)
    requires k < |sessions|
    ensures Adds(DayTotal(sessions[..k], day, dayOf), sessions[k], dayOf(sessions[k].startedAt) == day,
                 DayTotal(sessions[..k + 1], day, dayOf))
  {
    assert sessions[..k + 1][..k] == sessions[..k];
  }

  lemma {:induction false} SumsAreDayTotal(sessions: seq<Session>, day: string, dayOf: DayOf, sums: seq<Bucket>)
    requires AddsUp(sessions, day, dayOf, sums)
    ensures sums[|sessions|] == DayTotal(sessions, day, dayOf)
  {
    for k := 0 to |sessions|
      invariant sums[k] == DayTotal(sessions[..k], day, dayOf)
    {
      DayTotalNext(sessions, k, day, dayOf);
      assert Adds(sums[k], sessions[k], dayOf(sessions[k].startedAt) == day, sums[k + 1]);
    }
    assert sessions[..|sessions|] == sessions;
  }

  lemma {:induction false} SumsAreLifetime(sessions: seq<Session>, sums: seq<int>)
    requires AddsDollars(sessions, sums)
    ensures sums[|sessions|] == Sum(sessions, Usd, Everything())
  {
    for k := 0 to |sessions|
      invariant sums[k] == Sum(sessions[..k], Usd, Everything())
    {
      assert sessions[..k + 1][..k] == sessions[..k];
      assert sums[k + 1] == sums[k] + sessions[k].usd;
    }
    assert sessions[..|sessions|] == sessions;
  }

  /** After any settlements the lifetime is what the kept sessions cost, and each day with a session holds what
      its sessions used and cost. */
  lemma TotalsByFields(es: seq<Session>, dayOf: DayOf, day: string, sums: seq<Bucket>, dollars: seq<int>)
    requires var kept := SettleAll(EMPTY, es, dayOf).sessions;
             AddsUp(kept, day, dayOf, sums) && AddsDollars(kept, dollars)
    ensures var l := SettleAll(EMPTY, es, dayOf);
            && l.lifetime == dollars[|l.sessions|]
            && (day in l.days
                <==> day != "" && exists k :: 0 <= k < |l.sessions| && dayOf(l.sessions[k].startedAt) == day)
            && (day in l.days ==> l.days[day] == sums[|l.sessions|])
  {
    var l := SettleAll(EMPTY, es, dayOf);
    LedgerIsAccurate(es, dayOf);
    assert DayAccurate(l, day, dayOf);
    SumsAreDayTotal(l.sessions, day, dayOf, sums);
    SumsAreLifetime(l.sessions, dollars);
  }
}
