/** `classify_backlog_reachability` and `open_blocker_edges`: every open issue in one bin, the
    roots the dependency-blocked tail waits on, and why a blocked tail with no root must be a
    blocker cycle that the cycle scan can see. */
module BacklogReachability {
  import opened Sorting
  import opened Graphs
  import opened CycleSearch
  import opened BlockerCycles
  import opened CycleReport

  /** An open issue; `blockers` is `parse_blockers` of its body, `updated` its time stamp. */
  datatype Issue = Issue(number: Option<int>, labels: set<string>, blockers: seq<int>, updated: Option<string>)

  /** GitHub's answers: native dependencies per issue, and which numbers are open. */
  datatype Snapshot = Snapshot(dependencies: map<int, seq<int>>, open: set<int>)

  datatype Labels = Labels(ready: string, terminal: set<string>, active: set<string>, parked: set<string>,
                           ownedHere: set<string> -> bool)

  /** What the classifier is given besides the issues. */
  datatype Context = Context(labels: Labels, claimed: set<int>, covered: map<int, seq<int>>, gh: Snapshot)

  datatype Bin =
    | Unidentified | ParkedUnready | MissingReady | TerminalLabel | ActiveLabel | OtherHost
    | OperatorClaimed | MentionCovered | BlockedByDependency | Dispatchable

  // ---- open blockers of one issue

  function DependenciesOf(gh: Snapshot, number: int): seq<int> {
    if number in gh.dependencies then gh.dependencies[number] else []
  }

  ghost predicate Declares(gh: Snapshot, issue: Issue, blocker: int) {
    issue.number.Some? && (blocker in issue.blockers || blocker in DependenciesOf(gh, issue.number.value))
  }

  /** The dependency gate: a declared blocker that is open and not the issue itself. */
  ghost predicate WaitsOn(gh: Snapshot, issue: Issue, blocker: int) {
    Declares(gh, issue, blocker) && blocker in gh.open && blocker != issue.number.value
  }

  method GetOpenBlockers(gh: Snapshot, issue: Issue) returns (declared: seq<int>, open: seq<int>)
    requires issue.number.Some?
    ensures Increasing(open) && forall b :: b in open <==> WaitsOn(gh, issue, b)
    ensures Increasing(declared)
    ensures forall b :: b in declared <==> Declares(gh, issue, b) && !(b == issue.number.value && b in gh.open)
  {
    var number := issue.number.value;
    declared := SortedSet(issue.blockers + DependenciesOf(gh, number));
    open := Filter(declared, b => b in gh.open);
    FilterIncreases(declared, b => b in gh.open);
    if number in open {
      FilterIncreases(open, b => b != number);
      FilterIncreases(declared, b => b != number);
      open := Filter(open, b => b != number);
      declared := Filter(declared, b => b != number);
    }
  }

  // ---- the bins

  ghost function BinOf(ctx: Context, issue: Issue): Bin {
    if issue.number.None? then Unidentified
    else if ctx.labels.ready !in issue.labels then
      if issue.labels * ctx.labels.parked != {} then ParkedUnready else MissingReady
    else if issue.labels * ctx.labels.terminal != {} then TerminalLabel
    else if issue.labels * ctx.labels.active != {} then ActiveLabel
    else if !ctx.labels.ownedHere(issue.labels) then OtherHost
    else if issue.number.value in ctx.claimed then OperatorClaimed
    else if issue.number.value in ctx.covered then MentionCovered
    else if exists b :: WaitsOn(ctx.gh, issue, b) then BlockedByDependency
    else Dispatchable
  }

  // ---- the gates, by the fields of the issue

  ghost predicate CarriesOneOf(issue: Issue, labels: set<string>) {
    exists l :: l in issue.labels && l in labels
  }

  /** Some open issue other than itself is declared a blocker, in its body or natively. */
  ghost predicate HasOpenBlocker(gh: Snapshot, issue: Issue) {
    && issue.number.Some?
    && exists b :: b in gh.open && b != issue.number.value
                   && (b in issue.blockers
                       || (issue.number.value in gh.dependencies && b in gh.dependencies[issue.number.value]))
  }

  /** The issue passes the first n of the eight gates to dispatch. */
  ghost predicate Passes(ctx: Context, issue: Issue, n: nat) {
    && (n > 0 ==> issue.number.Some?)
    && (n > 1 ==> ctx.labels.ready in issue.labels)
    && (n > 2 ==> !CarriesOneOf(issue, ctx.labels.terminal))
    && (n > 3 ==> !CarriesOneOf(issue, ctx.labels.active))
    && (n > 4 ==> ctx.labels.ownedHere(issue.labels))
    && (n > 5 ==> issue.number.value !in ctx.claimed)
    && (n > 6 ==> issue.number.value !in ctx.covered)
    && (n > 7 ==> !HasOpenBlocker(ctx.gh, issue))
  }

  /** Gate k, counted from 0, is the first it does not pass. */
  ghost predicate StopsAt(ctx: Context, issue: Issue, k: nat) {
    Passes(ctx, issue, k) && !Passes(ctx, issue, k + 1)
  }

  lemma CarriesIs(issue: Issue, labels: set<string>)
    ensures CarriesOneOf(issue, labels) <==> issue.labels * labels != {}
  {
    if issue.labels * labels != {} {
      if l :| l in issue.labels * labels { assert l in issue.labels && l in labels; }
    }
    if l :| l in issue.labels && l in labels { assert l in issue.labels * labels; }
  }

  lemma BlockerIs(gh: Snapshot, issue: Issue)
    requires issue.number.Some?
    ensures HasOpenBlocker(gh, issue) <==> exists b :: WaitsOn(gh, issue, b)
  {
    if b :| WaitsOn(gh, issue, b) { assert b in gh.open; }
    if b :| b in gh.open && b != issue.number.value
            && (b in issue.blockers
                || (issue.number.value in gh.dependencies && b in gh.dependencies[issue.number.value]))
    {
      assert WaitsOn(gh, issue, b);
    }
  }

  /** An issue is dispatchable exactly when it passes every gate, and otherwise lies in the bin of the gate it
      stops at; at the ready label, being parked or not makes the difference. */
  lemma BinByGates(ctx: Context, issue: Issue)
    ensures BinOf(ctx, issue) == Unidentified <==> StopsAt(ctx, issue, 0)
    ensures BinOf(ctx, issue) == ParkedUnready <==> StopsAt(ctx, issue, 1) && CarriesOneOf(issue, ctx.labels.parked)
    ensures BinOf(ctx, issue) == MissingReady <==> StopsAt(ctx, issue, 1) && !CarriesOneOf(issue, ctx.labels.parked)
    ensures BinOf(ctx, issue) == TerminalLabel <==> StopsAt(ctx, issue, 2)
    ensures BinOf(ctx, issue) == ActiveLabel <==> StopsAt(ctx, issue, 3)
    ensures BinOf(ctx, issue) == OtherHost <==> StopsAt(ctx, issue, 4)
    ensures BinOf(ctx, issue) == OperatorClaimed <==> StopsAt(ctx, issue, 5)
    ensures BinOf(ctx, issue) == MentionCovered <==> StopsAt(ctx, issue, 6)
    ensures BinOf(ctx, issue) == BlockedByDependency <==> StopsAt(ctx, issue, 7)
    ensures BinOf(ctx, issue) == Dispatchable <==> Passes(ctx, issue, 8)
  {
    if issue.number.Some? { BlockerIs(ctx.gh, issue); }
    CarriesIs(issue, ctx.labels.terminal);
    CarriesIs(issue, ctx.labels.active);
    CarriesIs(issue, ctx.labels.parked);
  }

  /** Issue i is number n and fails the dependency gate. */
  ghost predicate BlockedAs(ctx: Context, issues: seq<Issue>, i: int, n: int) {
    0 <= i < |issues| && BinOf(ctx, issues[i]) == BlockedByDependency && issues[i].number.value == n
  }

  ghost predicate IsBlocked(ctx: Context, issues: seq<Issue>, n: int) {
    exists i :: BlockedAs(ctx, issues, i, n)
  }

  /** Blocked issue n waits on b. */
  ghost predicate WaitEdge(ctx: Context, issues: seq<Issue>, n: int, b: int) {
    exists i :: BlockedAs(ctx, issues, i, n) && WaitsOn(ctx.gh, issues[i], b)
  }

  /** A root blocker: some blocked issue waits on it, and it is not itself blocked. */
  ghost predicate IsRoot(ctx: Context, issues: seq<Issue>, b: int) {
    !IsBlocked(ctx, issues, b) && exists n :: WaitEdge(ctx, issues, n, b)
  }

  datatype Root = Root(number: int, updated: Option<string>)

  /** `examples` names a few issues of each unreachable bin, `coveredPrs` the pull requests behind a
      mention. */
  datatype Reachability = Reachability(observed: bool, consistent: Option<bool>, openTotal: nat, bins: map<Bin, nat>,
                                       rootBlockers: seq<Root>, examples: map<Bin, seq<int>>,
                                       coveredPrs: map<int, seq<int>>)

  const MAX_EXAMPLES := 5

  ghost predicate AllBins(bins: map<Bin, nat>) {
    forall bin: Bin :: bin in bins
  }

  function EmptyBins(): map<Bin, nat> {
    map[Unidentified := 0, ParkedUnready := 0, MissingReady := 0, TerminalLabel := 0, ActiveLabel := 0,
        OtherHost := 0, OperatorClaimed := 0, MentionCovered := 0, BlockedByDependency := 0, Dispatchable := 0]
  }

  ghost function Total(bins: map<Bin, nat>): nat
    requires AllBins(bins)
  {
    bins[Unidentified] + bins[ParkedUnready] + bins[MissingReady] + bins[TerminalLabel] + bins[ActiveLabel]
    + bins[OtherHost] + bins[OperatorClaimed] + bins[MentionCovered] + bins[BlockedByDependency] + bins[Dispatchable]
  }

  ghost function CountBin(ctx: Context, issues: seq<Issue>, bin: Bin): nat
  {
    |InBin(ctx, issues, bin)|
  }

  method Classify(ctx: Context, issue: Issue)
    returns (bin: Bin, open: seq<int>)
    ensures bin == BinOf(ctx, issue)
    ensures Increasing(open)
    ensures forall b :: b in open <==> bin == BlockedByDependency && WaitsOn(ctx.gh, issue, b)
  {
    open := [];
    if issue.number.None? { return Unidentified, []; }
    var number := issue.number.value;
    if ctx.labels.ready !in issue.labels {
      bin := if issue.labels * ctx.labels.parked != {} then ParkedUnready else MissingReady;
    } else if issue.labels * ctx.labels.terminal != {} {
      bin := TerminalLabel;
    } else if issue.labels * ctx.labels.active != {} {
      bin := ActiveLabel;
    } else if !ctx.labels.ownedHere(issue.labels) {
      bin := OtherHost;
    } else if number in ctx.claimed {
      bin := OperatorClaimed;
    } else if number in ctx.covered {
      bin := MentionCovered;
    } else {
      var declared;
      declared, open := GetOpenBlockers(ctx.gh, issue);
      if open != [] {
        assert open[0] in open;
        bin := BlockedByDependency;
      } else {
        bin := Dispatchable;
      }
    }
  }

  ghost predicate Binned(ctx: Context, issues: seq<Issue>, bins: map<Bin, nat>)
  {
    AllBins(bins) && forall bin: Bin :: bins[bin] == CountBin(ctx, issues, bin)
  }

  ghost function InBin(ctx: Context, issues: seq<Issue>, bin: Bin): set<int> {
    set i | 0 <= i < |issues| && BinOf(ctx, issues[i]) == bin
  }

  lemma InBinStep(ctx: Context, issues: seq<Issue>, issue: Issue, bin: Bin)
    ensures InBin(ctx, issues + [issue], bin)
         == InBin(ctx, issues, bin) + if BinOf(ctx, issue) == bin then {|issues|} else {}
  {
    var longer := issues + [issue];
    assert longer[|issues|] == issue && forall i :: 0 <= i < |issues| ==> longer[i] == issues[i];
  }

  lemma CountStep(ctx: Context, issues: seq<Issue>, issue: Issue, bin: Bin)
    ensures CountBin(ctx, issues + [issue], bin)
         == CountBin(ctx, issues, bin) + if BinOf(ctx, issue) == bin then 1 else 0
  {
    InBinStep(ctx, issues, issue, bin);
    assert |issues| !in InBin(ctx, issues, bin);
  }

  lemma TotalStep(bins: map<Bin, nat>, bin: Bin)
    requires AllBins(bins)
    ensures AllBins(bins[bin := bins[bin] + 1])
    ensures Total(bins[bin := bins[bin] + 1]) == Total(bins) + 1
  {
  }

  lemma NoneBinned(ctx: Context)
    ensures Binned(ctx, [], EmptyBins()) && Total(EmptyBins()) == 0
  {
    forall bin: Bin ensures bin in EmptyBins() && EmptyBins()[bin] == 0 {
      match bin
      case Unidentified => case ParkedUnready => case MissingReady => case TerminalLabel => case ActiveLabel =>
      case OtherHost => case OperatorClaimed => case MentionCovered => case BlockedByDependency => case Dispatchable =>
    }
  }

  lemma BinnedStep(ctx: Context, issues: seq<Issue>, issue: Issue, bins: map<Bin, nat>, bin: Bin)
    requires Binned(ctx, issues, bins)
    requires bin == BinOf(ctx, issue)
    ensures Binned(ctx, issues + [issue], bins[bin := bins[bin] + 1])
  {
    forall b: Bin
      ensures bins[bin := bins[bin] + 1][b] == CountBin(ctx, issues + [issue], b)
    {
      CountStep(ctx, issues, issue, b);
    }
  }

  /** How many of the first n issues carry the ready label and a number. */
  function ReadySeen(ready: string, issues: seq<Issue>, n: nat): nat
    requires n <= |issues|
  {
    if n == 0 then 0
    else ReadySeen(ready, issues, n - 1) + if IsReady(ready, issues[n - 1]) then 1 else 0
  }

  predicate IsReady(ready: string, issue: Issue) {
    issue.number.Some? && ready in issue.labels
  }

  ghost function ReadyAt(ready: string, issues: seq<Issue>, n: nat): set<int>
    requires n <= |issues|
  {
    set i | 0 <= i < n && issues[i].number.Some? && ready in issues[i].labels
  }

  /** How many listings carry a number and the ready label. */
  lemma {:induction false} ReadySeenCounts(ready: string, issues: seq<Issue>, n: nat)
    requires n <= |issues|
    ensures ReadySeen(ready, issues, n) == |ReadyAt(ready, issues, n)|
  {
    if n == 0 {
      assert ReadyAt(ready, issues, 0) == {};
    } else {
      ReadySeenCounts(ready, issues, n - 1);
      var before, last := ReadyAt(ready, issues, n - 1), issues[n - 1];
      assert n - 1 !in before;
      assert ReadyAt(ready, issues, n)
          == if last.number.Some? && ready in last.labels then before + {n - 1} else before;
    }
  }

  // ---- the lists beside the counts

  /** Numbers of the issues in the bin, in listing order. */
  ghost function NumbersIn(ctx: Context, issues: seq<Issue>, bin: Bin): seq<int> {
    if issues == [] then []
    else
      var last := issues[|issues| - 1];
      NumbersIn(ctx, issues[..|issues| - 1], bin)
      + if last.number.Some? && BinOf(ctx, last) == bin then [last.number.value] else []
  }

  predicate Leq(a: int, b: int) {
    a <= b
  }

  function FirstFew(xs: seq<int>): seq<int> {
    if |xs| <= 5 then xs else xs[..5]
  }

  ghost predicate Named(ctx: Context, issues: seq<Issue>, bin: Bin) {
    bin != Dispatchable && NumbersIn(ctx, issues, bin) != []
  }

  /** The bin's bucket holds the first few of its numbers. */
  predicate Holds(examples: map<Bin, seq<int>>, bin: Bin, numbers: seq<int>) {
    if bin != Dispatchable && numbers != [] then bin in examples && examples[bin] == FirstFew(numbers)
    else bin !in examples
  }

  ghost predicate Exemplified(ctx: Context, issues: seq<Issue>, examples: map<Bin, seq<int>>) {
    forall bin :: Holds(examples, bin, NumbersIn(ctx, issues, bin))
  }

  /** For each mention-covered issue, the pull requests that mention it, sorted. */
  ghost predicate Covering(ctx: Context, issues: seq<Issue>, prs: map<int, seq<int>>) {
    forall n ::
      if n in NumbersIn(ctx, issues, MentionCovered) then
        n in prs && n in ctx.covered && prs[n] == Sort(Leq, ctx.covered[n])
      else n !in prs
  }

  lemma {:induction false} NumbersNext(ctx: Context, issues: seq<Issue>, n: nat, bin: Bin)
    requires n < |issues|
    ensures NumbersIn(ctx, issues[..n + 1], bin)
         == NumbersIn(ctx, issues[..n], bin)
            + if issues[n].number.Some? && BinOf(ctx, issues[n]) == bin then [issues[n].number.value] else []
  {
    assert issues[..n + 1][..n] == issues[..n];
  }

  function WithExample(examples: map<Bin, seq<int>>, bin: Bin, number: int): map<Bin, seq<int>> {
    var bucket := if bin in examples then examples[bin] else [];
    examples[bin := if |bucket| < MAX_EXAMPLES then bucket + [number] else bucket]
  }

  lemma ExemplifiedNext(ctx: Context, issues: seq<Issue>, n: nat, examples: map<Bin, seq<int>>, bin: Bin)
    requires n < |issues| && Exemplified(ctx, issues[..n], examples) && bin == BinOf(ctx, issues[n])
    ensures Exemplified(ctx, issues[..n + 1],
                        if issues[n].number.Some? && bin != Dispatchable
                        then WithExample(examples, bin, issues[n].number.value) else examples)
  {
    var after := if issues[n].number.Some? && bin != Dispatchable
                 then WithExample(examples, bin, issues[n].number.value) else examples;
    var longer := issues[..n + 1];
    forall b: Bin ensures Holds(after, b, NumbersIn(ctx, longer, b)) {
      NumbersNext(ctx, issues, n, b);
      HoldsNext(examples, b, bin, issues[n].number, NumbersIn(ctx, issues[..n], b), NumbersIn(ctx, issues[..n + 1], b));
    }
  }

  lemma HoldsNext(examples: map<Bin, seq<int>>, b: Bin, bin: Bin, number: Option<int>, was: seq<int>, now: seq<int>)
    requires Holds(examples, b, was)
    requires now == was + if number.Some? && bin == b then [number.value] else []
    ensures Holds(if number.Some? && bin != Dispatchable then WithExample(examples, bin, number.value) else examples,
                  b, now)
  {
    if number.Some? && bin == b {
      FirstFewSnoc(was, number.value);
    } else {
      assert now == was;
    }
  }

  lemma FirstFewSnoc(xs: seq<int>, x: int)
    ensures FirstFew(xs + [x]) == if |FirstFew(xs)| < MAX_EXAMPLES then FirstFew(xs) + [x] else FirstFew(xs)
  {
  }

  lemma CoveringNext(ctx: Context, issues: seq<Issue>, n: nat, prs: map<int, seq<int>>, bin: Bin)
    requires n < |issues| && Covering(ctx, issues[..n], prs) && bin == BinOf(ctx, issues[n])
    ensures bin == MentionCovered ==> issues[n].number.Some? && issues[n].number.value in ctx.covered
    ensures Covering(ctx, issues[..n + 1],
                     if bin == MentionCovered
                     then prs[issues[n].number.value := Sort(Leq, ctx.covered[issues[n].number.value])] else prs)
  {
    NumbersNext(ctx, issues, n, MentionCovered);
  }

  /** The time stamp on the last listing of the issue, None when it is not listed. */
  function LastUpdated(issues: seq<Issue>, n: int): Option<string> {
    if issues == [] then None
    else if issues[|issues| - 1].number == Some(n) then issues[|issues| - 1].updated
    else LastUpdated(issues[..|issues| - 1], n)
  }

  /** The time stamp kept for a number is that of its last listing. */
  lemma {:induction false} LastUpdatedAt(issues: seq<Issue>, n: int)
    ensures forall i :: 0 <= i < |issues| && issues[i].number == Some(n)
                        && (forall j :: i < j < |issues| ==> issues[j].number != Some(n)) ==>
      LastUpdated(issues, n) == issues[i].updated
    ensures (forall i :: 0 <= i < |issues| ==> issues[i].number != Some(n)) ==> LastUpdated(issues, n) == None
  {
    if issues == [] {
    } else {
      var before := issues[..|issues| - 1];
      LastUpdatedAt(before, n);
      assert forall i :: 0 <= i < |before| ==> before[i] == issues[i];
    }
  }

  /** `at` lists, in order, the positions before n whose issue has a number and lies in the bin. */
  ghost predicate ListsBin(ctx: Context, issues: seq<Issue>, bin: Bin, n: nat, at: seq<nat>) {
    && n <= |issues| && (forall j, k :: 0 <= j < k < |at| ==> at[j] < at[k])
    && (forall i: nat :: i in at <==> i < n && issues[i].number.Some? && BinOf(ctx, issues[i]) == bin)
  }

  ghost predicate NumbersAt(issues: seq<Issue>, at: seq<nat>, numbers: seq<int>) {
    |numbers| == |at| && forall k :: 0 <= k < |at| ==> at[k] < |issues| && issues[at[k]].number == Some(numbers[k])
  }

  lemma OneMoreListed(ctx: Context, issues: seq<Issue>, bin: Bin, n: nat, at: seq<nat>, numbers: seq<int>)
    requires n < |issues| && ListsBin(ctx, issues, bin, n, at) && NumbersAt(issues, at, numbers)
    requires issues[n].number.Some? && BinOf(ctx, issues[n]) == bin
    ensures ListsBin(ctx, issues, bin, n + 1, at + [n])
    ensures NumbersAt(issues, at + [n], numbers + [issues[n].number.value])
  {
    assert forall i: nat :: i in at + [n] <==> i in at || i == n;
    assert forall k :: 0 <= k < |at| ==> at[k] in at;
  }

  lemma NotListed(ctx: Context, issues: seq<Issue>, bin: Bin, n: nat, at: seq<nat>)
    requires n < |issues| && ListsBin(ctx, issues, bin, n, at)
    requires issues[n].number.None? || BinOf(ctx, issues[n]) != bin
    ensures ListsBin(ctx, issues, bin, n + 1, at)
  {
  }

  /** The numbers of a bin are those of its issues, in listing order. */
  lemma {:induction false} NumbersByPosition(ctx: Context, issues: seq<Issue>, bin: Bin) returns (at: seq<nat>)
    ensures ListsBin(ctx, issues, bin, |issues|, at) && NumbersAt(issues, at, NumbersIn(ctx, issues, bin))
  {
    at := [];
    for n := 0 to |issues|
      invariant ListsBin(ctx, issues, bin, n, at) && NumbersAt(issues, at, NumbersIn(ctx, issues[..n], bin))
    {
      var numbers := NumbersIn(ctx, issues[..n], bin);
      NumbersNext(ctx, issues, n, bin);
      if issues[n].number.Some? && BinOf(ctx, issues[n]) == bin {
        OneMoreListed(ctx, issues, bin, n, at, numbers);
        at := at + [n];
      } else {
        NotListed(ctx, issues, bin, n, at);
        assert numbers + [] == numbers;
      }
    }
    TakeAll(issues);
  }

  /** `open_by_number`, cut down to what is read of it. */
  method UpdatesByNumber(issues: seq<Issue>) returns (updates: map<int, Option<string>>)
    ensures forall n :: LastUpdated(issues, n) == if n in updates then updates[n] else None
  {
    updates := map[];
    for i := 0 to |issues|
      invariant forall n :: LastUpdated(issues[..i], n) == if n in updates then updates[n] else None
    {
      assert issues[..i + 1][..i] == issues[..i];
      if issues[i].number.Some? {
        updates := updates[issues[i].number.value := issues[i].updated];
      }
    }
    TakeAll(issues);
  }

  /** What the loop has collected about the dependency-blocked issues. */
  ghost predicate Collected(ctx: Context, issues: seq<Issue>, blocked: set<int>, awaited: seq<int>) {
    && (forall n :: n in blocked <==> IsBlocked(ctx, issues, n))
    && (forall b :: b in awaited <==> exists n :: WaitEdge(ctx, issues, n, b))
  }

  lemma BlockedAsStep(ctx: Context, issues: seq<Issue>, issue: Issue, i: int, n: int)
    ensures BlockedAs(ctx, issues + [issue], i, n) <==>
      BlockedAs(ctx, issues, i, n)
      || (i == |issues| && BinOf(ctx, issue) == BlockedByDependency && issue.number.value == n)
  {
  }

  lemma CollectedStep(ctx: Context, issues: seq<Issue>, issue: Issue, blocked: set<int>, awaited: seq<int>,
                      blocked': set<int>, open: seq<int>)
    requires Collected(ctx, issues, blocked, awaited)
    requires forall b :: b in open <==> BinOf(ctx, issue) == BlockedByDependency && WaitsOn(ctx.gh, issue, b)
    requires blocked' == if BinOf(ctx, issue) == BlockedByDependency then blocked + {issue.number.value} else blocked
    ensures Collected(ctx, issues + [issue], blocked', awaited + open)
  {
    var longer := issues + [issue];
    forall i, n ensures BlockedAs(ctx, longer, i, n) <==>
      BlockedAs(ctx, issues, i, n)
      || (i == |issues| && BinOf(ctx, issue) == BlockedByDependency && issue.number.value == n)
    {
      BlockedAsStep(ctx, issues, issue, i, n);
    }
    forall n ensures n in blocked' <==> IsBlocked(ctx, longer, n) {
      if n in blocked {
        var i :| BlockedAs(ctx, issues, i, n);
        assert BlockedAs(ctx, longer, i, n);
      } else if n in blocked' {
        assert BlockedAs(ctx, longer, |issues|, n);
      }
    }
    forall b ensures b in awaited + open <==> exists n :: WaitEdge(ctx, longer, n, b) {
      if b in awaited {
        var n :| WaitEdge(ctx, issues, n, b);
        var i :| BlockedAs(ctx, issues, i, n) && WaitsOn(ctx.gh, issues[i], b);
        assert BlockedAs(ctx, longer, i, n) && longer[i] == issues[i];
        assert WaitEdge(ctx, longer, n, b);
      } else if b in open {
        assert BlockedAs(ctx, longer, |issues|, issue.number.value) && longer[|issues|] == issue;
        assert WaitEdge(ctx, longer, issue.number.value, b);
      }
      if n :| WaitEdge(ctx, longer, n, b) {
        var i :| BlockedAs(ctx, longer, i, n) && WaitsOn(ctx.gh, longer[i], b);
        if i < |issues| { assert WaitEdge(ctx, issues, n, b); }
      }
    }
  }

  /** The loop state after the first n issues. */
  ghost predicate Tallied(ctx: Context, issues: seq<Issue>, n: nat,
                          bins: map<Bin, nat>, blocked: set<int>, awaited: seq<int>, readySeen: nat)
  {
    && n <= |issues|
    && Binned(ctx, issues[..n], bins)
    && Collected(ctx, issues[..n], blocked, awaited)
    && readySeen == ReadySeen(ctx.labels.ready, issues, n)
  }

  lemma BinnedNext(ctx: Context, issues: seq<Issue>, n: nat, bins: map<Bin, nat>, bin: Bin)
    requires n < |issues| && Binned(ctx, issues[..n], bins) && bin == BinOf(ctx, issues[n])
    ensures Binned(ctx, issues[..n + 1], bins[bin := bins[bin] + 1])
  {
    BinnedStep(ctx, issues[..n], issues[n], bins, bin);
    TakeStep(issues, n);
  }

  /** The bins hold every issue once. */
  lemma BinsPartition(ctx: Context, issues: seq<Issue>, bins: map<Bin, nat>)
    requires Binned(ctx, issues, bins)
    ensures Total(bins) == |issues|
  {
    var counts := EmptyBins();
    NoneBinned(ctx);
    for i := 0 to |issues|
      invariant Binned(ctx, issues[..i], counts) && Total(counts) == i
    {
      var bin := BinOf(ctx, issues[i]);
      BinnedNext(ctx, issues, i, counts, bin);
      TotalStep(counts, bin);
      counts := counts[bin := counts[bin] + 1];
    }
    TakeAll(issues);
    SameTotal(counts, bins);
  }

  lemma SameTotal(a: map<Bin, nat>, b: map<Bin, nat>)
    requires AllBins(a) && AllBins(b) && forall bin: Bin :: a[bin] == b[bin]
    ensures Total(a) == Total(b)
  {
  }

  lemma CollectedNext(ctx: Context, issues: seq<Issue>, n: nat, blocked: set<int>, awaited: seq<int>,
                      blocked': set<int>, open: seq<int>)
    requires n < |issues| && Collected(ctx, issues[..n], blocked, awaited)
    requires forall b :: b in open <==> BinOf(ctx, issues[n]) == BlockedByDependency && WaitsOn(ctx.gh, issues[n], b)
    requires blocked'
          == if BinOf(ctx, issues[n]) == BlockedByDependency then blocked + {issues[n].number.value} else blocked
    ensures Collected(ctx, issues[..n + 1], blocked', awaited + open)
  {
    CollectedStep(ctx, issues[..n], issues[n], blocked, awaited, blocked', open);
    TakeStep(issues, n);
  }

  lemma TalliedStep(ctx: Context, issues: seq<Issue>, n: nat, bins: map<Bin, nat>, blocked: set<int>, awaited: seq<int>,
                    readySeen: nat, bin: Bin, open: seq<int>, blocked': set<int>)
    requires Tallied(ctx, issues, n, bins, blocked, awaited, readySeen) && n < |issues|
    requires bin == BinOf(ctx, issues[n])
    requires forall b :: b in open <==> bin == BlockedByDependency && WaitsOn(ctx.gh, issues[n], b)
    requires blocked' == if bin == BlockedByDependency then blocked + {issues[n].number.value} else blocked
    ensures bin in bins
    ensures Tallied(ctx, issues, n + 1, bins[bin := bins[bin] + 1], blocked', awaited + open,
                    if IsReady(ctx.labels.ready, issues[n]) then readySeen + 1 else readySeen)
  {
    BinnedNext(ctx, issues, n, bins, bin);
    CollectedNext(ctx, issues, n, blocked, awaited, blocked', open);
  }

  /** The loop over the issues: bins, the blocked set, everything it waits on, ready count, and the lists
      beside the counts. */
  method Tally(ctx: Context, issues: seq<Issue>)
    returns (bins: map<Bin, nat>, blocked: set<int>, awaited: seq<int>, readySeen: nat,
             examples: map<Bin, seq<int>>, prs: map<int, seq<int>>)
    ensures Tallied(ctx, issues, |issues|, bins, blocked, awaited, readySeen)
    ensures Exemplified(ctx, issues, examples) && Covering(ctx, issues, prs)
  {
    bins, blocked, awaited, readySeen := EmptyBins(), {}, [], 0;
    examples, prs := map[], map[];
    NoneBinned(ctx);
    for i := 0 to |issues|
      invariant Tallied(ctx, issues, i, bins, blocked, awaited, readySeen)
      invariant Exemplified(ctx, issues[..i], examples) && Covering(ctx, issues[..i], prs)
    {
      var issue := issues[i];
      var bin, open := Classify(ctx, issue);
      ExemplifiedNext(ctx, issues, i, examples, bin);
      CoveringNext(ctx, issues, i, prs, bin);
      if bin == MentionCovered {
        prs := prs[issue.number.value := Sort(Leq, ctx.covered[issue.number.value])];
      }
      if issue.number.Some? && bin != Dispatchable {
        examples := WithExample(examples, bin, issue.number.value);
      }
      ghost var was := blocked;
      if bin == BlockedByDependency {
        blocked := blocked + {issue.number.value};
      }
      TalliedStep(ctx, issues, i, bins, was, awaited, readySeen, bin, open, blocked);
      bins, awaited := bins[bin := bins[bin] + 1], awaited + open;
      if IsReady(ctx.labels.ready, issue) {
        readySeen := readySeen + 1;
      }
    }
    TakeAll(issues);
  }

  function RootList(numbers: seq<int>, updates: map<int, Option<string>>): (roots: seq<Root>)
    ensures RootNumbers(roots) == numbers
    ensures forall root :: root in roots ==>
      root.updated == if root.number in updates then updates[root.number] else None
  {
    seq(|numbers|, i requires 0 <= i < |numbers| =>
      Root(numbers[i], if numbers[i] in updates then updates[numbers[i]] else None))
  }

  ghost function RootNumbers(roots: seq<Root>): seq<int> {
    seq(|roots|, i requires 0 <= i < |roots| => roots[i].number)
  }

  function SortedExamples(examples: map<Bin, seq<int>>): map<Bin, seq<int>> {
    map bin | bin in examples :: Sort(Leq, examples[bin])
  }

  ghost predicate NamedSorted(ctx: Context, issues: seq<Issue>, examples: map<Bin, seq<int>>, bin: Bin) {
    if Named(ctx, issues, bin) then
      bin in examples && examples[bin] == Sort(Leq, FirstFew(NumbersIn(ctx, issues, bin)))
    else bin !in examples
  }

  lemma SortedExamplesNamed(ctx: Context, issues: seq<Issue>, examples: map<Bin, seq<int>>)
    requires Exemplified(ctx, issues, examples)
    ensures forall bin :: NamedSorted(ctx, issues, SortedExamples(examples), bin)
  {
    forall bin ensures NamedSorted(ctx, issues, SortedExamples(examples), bin) {
      assert Holds(examples, bin, NumbersIn(ctx, issues, bin));
    }
  }

  /** An empty fetch is reported as unobserved, never as an empty backlog; otherwise every issue
      is in exactly one bin, the roots are exactly the root blockers with the time stamps of their last
      listings, and each unreachable bin names its first few issues. */
  method ClassifyBacklog(ctx: Context, issues: seq<Issue>, readyOpenCount: Option<nat>) returns (r: Reachability)
    ensures Binned(ctx, issues, r.bins) && Total(r.bins) == |issues| == r.openTotal
    ensures r.observed <==> issues != []
    ensures Increasing(RootNumbers(r.rootBlockers))
    ensures forall b :: b in RootNumbers(r.rootBlockers) <==> IsRoot(ctx, issues, b)
    ensures forall root :: root in r.rootBlockers ==> root.updated == LastUpdated(issues, root.number)
    ensures forall bin :: NamedSorted(ctx, issues, r.examples, bin)
    ensures Covering(ctx, issues, r.coveredPrs)
    ensures r.consistent == if issues == [] || readyOpenCount.None? then None
                            else Some(ReadySeen(ctx.labels.ready, issues, |issues|) >= readyOpenCount.value)
  {
    var bins, blocked, awaited, readySeen, examples, prs := Tally(ctx, issues);
    TakeAll(issues);
    BinsPartition(ctx, issues, bins);
    RootsOf(ctx, issues, blocked, awaited);
    var numbers := Filter(SortedSet(awaited), b => b !in blocked);
    FilterIncreases(SortedSet(awaited), b => b !in blocked);
    var updates := UpdatesByNumber(issues);
    var roots := RootList(numbers, updates);
    var sorted := SortedExamples(examples);
    SortedExamplesNamed(ctx, issues, examples);
    if issues == [] {
      return Reachability(false, None, 0, bins, roots, sorted, prs);
    }
    var consistent := if readyOpenCount.None? then None else Some(readySeen >= readyOpenCount.value);
    r := Reachability(true, consistent, |issues|, bins, roots, sorted, prs);
  }

  lemma RootsOf(ctx: Context, issues: seq<Issue>, blocked: set<int>, awaited: seq<int>)
    requires Collected(ctx, issues, blocked, awaited)
    ensures forall b :: IsRoot(ctx, issues, b) <==> b in awaited && b !in blocked
  {
  }

  // ---- following open blockers

  ghost function Numbers(issues: seq<Issue>): set<int> {
    set i | 0 <= i < |issues| && issues[i].number.Some? :: issues[i].number.value
  }

  /** The graph of blocked issues and the open issues they wait on. */
  ghost function WaitGraph(ctx: Context, issues: seq<Issue>): Adjacency {
    map n | n in Numbers(issues) + ctx.gh.open :: SortedOf(set b | b in ctx.gh.open && WaitEdge(ctx, issues, n, b))
  }

  lemma WaitGraphEdges(ctx: Context, issues: seq<Issue>)
    ensures Closed(WaitGraph(ctx, issues))
    ensures forall n, b :: Edge(WaitGraph(ctx, issues), n, b) <==> WaitEdge(ctx, issues, n, b)
  {
    var w := WaitGraph(ctx, issues);
    forall n, b ensures Edge(w, n, b) <==> WaitEdge(ctx, issues, n, b) {
      if WaitEdge(ctx, issues, n, b) {
        var i :| BlockedAs(ctx, issues, i, n) && WaitsOn(ctx.gh, issues[i], b);
        assert n in Numbers(issues);
      }
    }
  }

  lemma BlockedWaits(ctx: Context, issues: seq<Issue>, n: int) returns (b: int)
    requires IsBlocked(ctx, issues, n)
    ensures WaitEdge(ctx, issues, n, b)
  {
    var i :| BlockedAs(ctx, issues, i, n);
    b :| WaitsOn(ctx.gh, issues[i], b);
  }

  lemma NeverWaitsOnItself(ctx: Context, issues: seq<Issue>, n: int)
    ensures !WaitEdge(ctx, issues, n, n)
  {
  }

  ghost predicate BlockedCycle(ctx: Context, issues: seq<Issue>, c: seq<int>) {
    && |c| >= 2
    && Cycle(WaitGraph(ctx, issues), c)
    && forall i :: 0 <= i < |c| ==> IsBlocked(ctx, issues, c[i])
  }

  lemma UnblockedReachableIsRoot(ctx: Context, issues: seq<Issue>, n: int, v: int)
    requires IsBlocked(ctx, issues, n) && !IsBlocked(ctx, issues, v)
    requires Reaches(WaitGraph(ctx, issues), n, v)
    ensures IsRoot(ctx, issues, v)
  {
    var w := WaitGraph(ctx, issues);
    WaitGraphEdges(ctx, issues);
    var p :| WalkFromTo(w, p, n, v);
    assert Edge(w, p[|p| - 2], p[|p| - 2 + 1]);
  }

  lemma ReachHasSuccessors(ctx: Context, issues: seq<Issue>, reach: set<int>)
    requires forall v :: v in reach ==> IsBlocked(ctx, issues, v)
    requires forall v, b :: v in reach && Edge(WaitGraph(ctx, issues), v, b) ==> b in reach
    ensures forall v :: v in reach ==> HasSuccessorIn(WaitGraph(ctx, issues), reach, v)
  {
    forall v | v in reach ensures HasSuccessorIn(WaitGraph(ctx, issues), reach, v) {
      BlockedHasSuccessor(ctx, issues, v);
      var b :| Edge(WaitGraph(ctx, issues), v, b);
    }
  }

  lemma AllBlockedHasCycle(ctx: Context, issues: seq<Issue>, n: int, reach: set<int>) returns (c: seq<int>)
    requires n in reach && forall v :: v in reach ==> IsBlocked(ctx, issues, v)
    requires forall v, b :: v in reach && Edge(WaitGraph(ctx, issues), v, b) ==> b in reach
    ensures BlockedCycle(ctx, issues, c) && c[0] in reach
  {
    ReachHasSuccessors(ctx, issues, reach);
    SingletonPath(WaitGraph(ctx, issues), reach, n);
    c := TrappedSetHasCycle(WaitGraph(ctx, issues), reach, [n]);
    BlockedCycleIsLong(ctx, issues, c);
  }

  lemma BlockedCycleIsLong(ctx: Context, issues: seq<Issue>, c: seq<int>)
    requires Cycle(WaitGraph(ctx, issues), c)
    ensures |c| >= 2
  {
    NoSelfEdge(ctx, issues, c[0]);
  }

  lemma BlockedHasSuccessor(ctx: Context, issues: seq<Issue>, v: int)
    requires IsBlocked(ctx, issues, v)
    ensures exists b :: Edge(WaitGraph(ctx, issues), v, b)
  {
    WaitGraphEdges(ctx, issues);
    var b := BlockedWaits(ctx, issues, v);
    assert Edge(WaitGraph(ctx, issues), v, b);
  }

  lemma NoSelfEdge(ctx: Context, issues: seq<Issue>, v: int)
    ensures !Edge(WaitGraph(ctx, issues), v, v)
  {
    WaitGraphEdges(ctx, issues);
    NeverWaitsOnItself(ctx, issues, v);
  }

  /** Following open blockers from a blocked issue leads to a root blocker, or into a cycle of
      blocked issues. */
  lemma BlockedReachesRootOrCycle(ctx: Context, issues: seq<Issue>, n: int)
    requires IsBlocked(ctx, issues, n)
    ensures
      || (exists b :: IsRoot(ctx, issues, b) && Reaches(WaitGraph(ctx, issues), n, b))
      || (exists c :: BlockedCycle(ctx, issues, c) && Reaches(WaitGraph(ctx, issues), n, c[0]))
  {
    var w := WaitGraph(ctx, issues);
    WaitGraphEdges(ctx, issues);
    var b0 := BlockedWaits(ctx, issues, n);
    assert Edge(w, n, b0);
    var reach := set v | v in w && Reaches(w, n, v);
    ReachSelf(w, n);
    if v :| v in reach && !IsBlocked(ctx, issues, v) {
      UnblockedReachableIsRoot(ctx, issues, n, v);
    } else {
      forall v, b | v in reach && Edge(w, v, b) ensures b in reach {
        ReachEdge(w, v, b);
        ReachTransitive(w, n, v, b);
      }
      var c := AllBlockedHasCycle(ctx, issues, n, reach);
      assert BlockedCycle(ctx, issues, c) && Reaches(w, n, c[0]);
    }
  }

  // ---- the blocker graph the cycle scan sees

  ghost predicate FirstListed(issues: seq<Issue>, i: int) {
    0 <= i < |issues| && issues[i].number.Some? && forall j :: 0 <= j < i ==> issues[j].number != issues[i].number
  }

  /** Edge of the open-blocker graph: declared by the first listing of n, still open; unlike the
      dependency gate this keeps self-references. */
  ghost predicate OpenEdge(gh: Snapshot, issues: seq<Issue>, n: int, b: int) {
    exists i :: FirstListed(issues, i) && issues[i].number.value == n && Declares(gh, issues[i], b) && b in gh.open
  }

  /** The edges of one issue: `declared_blockers_by_issue` cut down to what is open. */
  function OpenTargets(gh: Snapshot, issue: Issue): (r: seq<int>)
    requires issue.number.Some?
    ensures Increasing(r) && forall b :: b in r <==> Declares(gh, issue, b) && b in gh.open
  {
    var declared := SortedSet(issue.blockers + DependenciesOf(gh, issue.number.value));
    FilterIncreases(declared, b => b in gh.open);
    Filter(declared, b => b in gh.open)
  }

  ghost predicate ListedBefore(issues: seq<Issue>, i: nat, n: int) {
    exists j :: 0 <= j < i && j < |issues| && issues[j].number == Some(n)
  }

  method OpenBlockerEdges(gh: Snapshot, issues: seq<Issue>) returns (edges: Adjacency, order: seq<int>)
    ensures Elements(order) == edges.Keys
    ensures forall n, b :: Edge(edges, n, b) <==> OpenEdge(gh, issues, n, b)
    ensures forall n :: n in edges ==> Increasing(edges[n])
  {
    edges, order := map[], [];
    for i := 0 to |issues|
      invariant Elements(order) == edges.Keys
      invariant forall n :: n in edges <==> ListedBefore(issues, i, n)
      invariant forall n :: n in edges ==> Increasing(edges[n])
      invariant forall j :: 0 <= j < i && FirstListed(issues, j) ==>
        issues[j].number.value in edges && edges[issues[j].number.value] == OpenTargets(gh, issues[j])
    {
      var issue := issues[i];
      if issue.number.Some? && issue.number.value !in edges {
        var n := issue.number.value;
        forall j | 0 <= j < i && FirstListed(issues, j) ensures issues[j].number.value != n {
          assert ListedBefore(issues, i, issues[j].number.value);
        }
        edges, order := edges[n := OpenTargets(gh, issue)], order + [n];
      }
      forall n ensures n in edges <==> ListedBefore(issues, i + 1, n) {
        if issue.number == Some(n) { assert ListedBefore(issues, i + 1, n); }
        if ListedBefore(issues, i, n) {
          var j :| 0 <= j < i && issues[j].number == Some(n);
          assert ListedBefore(issues, i + 1, n);
        }
      }
      forall j | 0 <= j < i + 1 && FirstListed(issues, j)
        ensures issues[j].number.value in edges && edges[issues[j].number.value] == OpenTargets(gh, issues[j])
      {
        if j == i {
          forall k | 0 <= k < i ensures issues[k].number != issue.number { }
        }
      }
    }
    forall n, b ensures Edge(edges, n, b) <==> OpenEdge(gh, issues, n, b) {
      if n in edges {
        var j :| 0 <= j < |issues| && issues[j].number == Some(n);
        var first := FirstWith(issues, n, j);
      }
    }
  }

  lemma FirstWith(issues: seq<Issue>, n: int, j: nat) returns (i: nat)
    requires j < |issues| && issues[j].number == Some(n)
    ensures i <= j && FirstListed(issues, i) && issues[i].number == Some(n)
  {
    i := 0;
    while issues[i].number != Some(n)
      invariant i <= j
      invariant forall k :: 0 <= k < i ==> issues[k].number != Some(n)
      decreases j - i
    {
      i := i + 1;
    }
  }

  /** Listing j of an issue declares blocker b, the first listing i does not, and b is listed (at k)
      with a label that j also carries. */
  ghost predicate Hidden(issues: seq<Issue>, i: int, j: int, k: int, b: int) {
    && FirstListed(issues, i) && 0 <= j < |issues| && 0 <= k < |issues|
    && issues[j].number == issues[i].number && issues[k].number == Some(b)
    && b in issues[j].blockers && b != issues[i].number.value && b !in issues[i].blockers
    && exists tag :: tag in issues[k].labels && tag in issues[j].labels
  }

  ghost predicate HidesABlocker(issues: seq<Issue>) {
    exists i, j, k, b :: Hidden(issues, i, j, k, b)
  }

  lemma FirstListingDecides(gh: Snapshot, issues: seq<Issue>, i: nat, b: int)
    requires FirstListed(issues, i)
    ensures OpenEdge(gh, issues, issues[i].number.value, b) <==> Declares(gh, issues[i], b) && b in gh.open
  {
    forall j | FirstListed(issues, j) && issues[j].number == issues[i].number ensures j == i { }
  }

  lemma BlockedIsReady(ctx: Context, issues: seq<Issue>, i: int, n: int)
    requires BlockedAs(ctx, issues, i, n)
    ensures issues[i].number == Some(n) && ctx.labels.ready in issues[i].labels
  {
  }

  /** Between blocked issues, everything the dependency gate waits on is an edge of the open-blocker
      graph, unless a repeated listing hides it. */
  lemma WaitEdgeIsOpenEdge(ctx: Context, issues: seq<Issue>, n: int, b: int)
    requires !HidesABlocker(issues) && WaitEdge(ctx, issues, n, b) && IsBlocked(ctx, issues, b)
    ensures OpenEdge(ctx.gh, issues, n, b)
  {
    var j :| BlockedAs(ctx, issues, j, n) && WaitsOn(ctx.gh, issues[j], b);
    var k :| BlockedAs(ctx, issues, k, b);
    BlockedIsReady(ctx, issues, j, n);
    BlockedIsReady(ctx, issues, k, b);
    var i := FirstWith(issues, n, j);
    FirstListingDecides(ctx.gh, issues, i, b);
    assert !Hidden(issues, i, j, k, b);
  }

  lemma BlockedCycleIsOpen(ctx: Context, issues: seq<Issue>, c: seq<int>)
    requires !HidesABlocker(issues) && BlockedCycle(ctx, issues, c)
    ensures OpenCycle(ctx.gh, issues, c)
  {
    var w := WaitGraph(ctx, issues);
    WaitGraphEdges(ctx, issues);
    forall i | 0 <= i < |c| - 1 ensures OpenEdge(ctx.gh, issues, c[i], c[i + 1]) {
      assert Edge(w, c[i], c[i + 1]);
      WaitEdgeIsOpenEdge(ctx, issues, c[i], c[i + 1]);
    }
    assert Edge(w, c[|c| - 1], c[0]);
    WaitEdgeIsOpenEdge(ctx, issues, c[|c| - 1], c[0]);
  }

  /** The label is the ready one, n and b are open, and b depends on n natively. */
  ghost function Exposing(tag: string, n: int, b: int): Context {
    Context(Labels(tag, {}, {}, {}, (labels: set<string>) => true), {}, map[], Snapshot(map[b := [n]], {n, b}))
  }

  lemma ReadyWaits(tag: string, issues: seq<Issue>, n: int, b: int, i: nat, m: int)
    requires i < |issues| && issues[i].number.Some? && tag in issues[i].labels
    requires WaitsOn(Exposing(tag, n, b).gh, issues[i], m)
    ensures WaitEdge(Exposing(tag, n, b), issues, issues[i].number.value, m)
  {
    var ctx := Exposing(tag, n, b);
    assert issues[i].labels * {} == {};
    assert BlockedAs(ctx, issues, i, issues[i].number.value);
  }

  lemma HiddenLoops(issues: seq<Issue>, i: int, j: int, k: int, b: int, tag: string)
    requires Hidden(issues, i, j, k, b) && tag in issues[k].labels && tag in issues[j].labels
    ensures var n := issues[i].number.value; var ctx := Exposing(tag, n, b);
            && WaitEdge(ctx, issues, n, b) && WaitEdge(ctx, issues, b, n) && !OpenEdge(ctx.gh, issues, n, b)
  {
    var n := issues[i].number.value;
    var ctx := Exposing(tag, n, b);
    assert WaitsOn(ctx.gh, issues[j], b) && WaitsOn(ctx.gh, issues[k], n);
    ReadyWaits(tag, issues, n, b, j, b);
    ReadyWaits(tag, issues, n, b, k, n);
    FirstListingDecides(ctx.gh, issues, i, b);
  }

  lemma PairIsACycle(ctx: Context, issues: seq<Issue>, a: int, b: int)
    requires a < b && WaitEdge(ctx, issues, a, b) && WaitEdge(ctx, issues, b, a)
    ensures BlockedCycle(ctx, issues, [a, b])
  {
    WaitGraphEdges(ctx, issues);
    PairCycle(WaitGraph(ctx, issues), a, b);
    assert IsBlocked(ctx, issues, a) && IsBlocked(ctx, issues, b);
  }

  lemma PairCycle(adj: Adjacency, a: int, b: int)
    requires a < b && Edge(adj, a, b) && Edge(adj, b, a)
    ensures Cycle(adj, [a, b])
  {
    var c := [a, b];
    assert c[0] == a && c[1] == b;
  }

  lemma PairIsOpen(gh: Snapshot, issues: seq<Issue>, a: int, b: int)
    requires OpenCycle(gh, issues, [a, b])
    ensures OpenEdge(gh, issues, a, b) && OpenEdge(gh, issues, b, a)
  {
    var c := [a, b];
    assert c[0] == a && c[1] == b;
  }

  lemma HiddenCycle(issues: seq<Issue>, i: int, j: int, k: int, b: int) returns (ctx: Context, c: seq<int>)
    requires Hidden(issues, i, j, k, b)
    ensures BlockedCycle(ctx, issues, c) && !OpenCycle(ctx.gh, issues, c)
  {
    var tag :| tag in issues[k].labels && tag in issues[j].labels;
    var n := issues[i].number.value;
    ctx := Exposing(tag, n, b);
    HiddenLoops(issues, i, j, k, b, tag);
    var low, high := if n < b then n else b, if n < b then b else n;
    c := [low, high];
    PairIsACycle(ctx, issues, low, high);
    if OpenCycle(ctx.gh, issues, c) { PairIsOpen(ctx.gh, issues, low, high); }
  }

  /** Every cycle of blocked issues is a cycle of the open-blocker graph, under every configuration and
      every answer of GitHub, exactly when no listing hides a blocker behind an earlier listing of its
      issue. */
  lemma CyclesSeenExactly(issues: seq<Issue>)
    ensures (forall ctx, c :: BlockedCycle(ctx, issues, c) ==> OpenCycle(ctx.gh, issues, c)) <==> !HidesABlocker(issues)
  {
    if HidesABlocker(issues) {
      var i, j, k, b :| Hidden(issues, i, j, k, b);
      var ctx, c := HiddenCycle(issues, i, j, k, b);
    } else {
      forall ctx, c | BlockedCycle(ctx, issues, c) ensures OpenCycle(ctx.gh, issues, c) {
        BlockedCycleIsOpen(ctx, issues, c);
      }
    }
  }

  /** Blocked issues but no root blocker: then the blocked issues contain a cycle of length at least
      two. When no listing hides a blocker it is a cycle of the open-blocker graph, and the cycle scan
      over that graph either reports it or says that it stopped early. */
  lemma RootlessTailIsACycle(ctx: Context, issues: seq<Issue>, n: int, edges: Adjacency, caps: Caps)
    returns (c: seq<int>)
    requires IsBlocked(ctx, issues, n)
    requires forall b :: !IsRoot(ctx, issues, b)
    requires forall u, b :: Edge(edges, u, b) <==> OpenEdge(ctx.gh, issues, u, b)
    ensures BlockedCycle(ctx, issues, c)
    ensures !HidesABlocker(issues) ==>
      Cycle(edges, c) && (Report(edges, caps).truncated || c in Report(edges, caps).cycles)
  {
    BlockedReachesRootOrCycle(ctx, issues, n);
    c :| BlockedCycle(ctx, issues, c);
    if !HidesABlocker(issues) {
      BlockedCycleIsOpen(ctx, issues, c);
      OpenCycleIsCycle(ctx.gh, issues, edges, c);
      if !Report(edges, caps).truncated { UntruncatedReportIsComplete(edges, caps); }
    }
  }

  /** Issue 1 listed first without blockers and then blocked by 2, and issue 2 blocked by 1. */
  function TwiceListed(): seq<Issue> {
    [Issue(Some(1), {"ready"}, [], None), Issue(Some(1), {"ready"}, [2], None), Issue(Some(2), {"ready"}, [1], None)]
  }

  /** A fetch in which the second listing of issue 1 hides a blocker, and so a loop. */
  lemma DisagreeingRepeatsHideTheCycle()
    ensures HidesABlocker(TwiceListed())
    ensures exists ctx, c :: BlockedCycle(ctx, TwiceListed(), c) && !OpenCycle(ctx.gh, TwiceListed(), c)
  {
    assert "ready" in TwiceListed()[2].labels && "ready" in TwiceListed()[1].labels;
    assert Hidden(TwiceListed(), 0, 1, 2, 2);
    CyclesSeenExactly(TwiceListed());
  }

  // ---- the scan as the intake pass makes it

  /** `detect_open_blocker_cycles`: the graph of the open issues, scanned under the standing caps. */
  method DetectOpenBlockerCycles(gh: Snapshot, issues: seq<Issue>) returns (r: Enumeration)
    ensures |r.cycles| <= 100
    ensures exists edges ::
      && (forall n, b :: Edge(edges, n, b) <==> OpenEdge(gh, issues, n, b))
      && r == Report(edges, Caps(Some(100), Some(25), Some(50000)))
    ensures forall c :: c in r.cycles ==> OpenCycle(gh, issues, c)
    ensures !r.truncated ==> forall c :: OpenCycle(gh, issues, c) ==> c in r.cycles
  {
    var edges, order := OpenBlockerEdges(gh, issues);
    r := FindBlockerCycles(edges, order, STANDING_CAPS);
    ReportIsSound(edges, STANDING_CAPS);
    forall c ensures Cycle(edges, c) <==> OpenCycle(gh, issues, c) { OpenCycleIsCycle(gh, issues, edges, c); }
    if !r.truncated { UntruncatedReportIsComplete(edges, STANDING_CAPS); }
  }

  /** A loop of open blockers: distinct issues, least first, each blocked by the next. */
  ghost predicate OpenCycle(gh: Snapshot, issues: seq<Issue>, c: seq<int>) {
    && c != [] && Distinct(c) && LeastFirst(c)
    && (forall i :: 0 <= i < |c| - 1 ==> OpenEdge(gh, issues, c[i], c[i + 1]))
    && OpenEdge(gh, issues, c[|c| - 1], c[0])
  }

  lemma OpenCycleIsCycle(gh: Snapshot, issues: seq<Issue>, edges: Adjacency, c: seq<int>)
    requires forall n, b :: Edge(edges, n, b) <==> OpenEdge(gh, issues, n, b)
    ensures Cycle(edges, c) <==> OpenCycle(gh, issues, c)
  {
  }
}
