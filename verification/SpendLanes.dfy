/** Spend by capability (`record_github_spend`) when several clients share one cursor: a response
    first moves the shared cursor, later its points reach its own client's spend, and a client may
    take its spend at any time. Under every interleaving nothing is lost or counted twice. */
module SpendLanes {
  import opened Sorting
  import opened UsedCursor

  datatype Entry = Entry(capability: string, resource: string, tally: Tally)

  datatype Tally = Tally(requests: int, points: int, unmetered: int)

  const ZERO := Tally(0, 0, 0)

  datatype Measure = Requests | Points | Unmetered

  function Amount(t: Tally, m: Measure): int {
    match m
    case Requests => t.requests
    case Points => t.points
    case Unmetered => t.unmetered
  }

  function Plus(a: Tally, b: Tally): Tally {
    Tally(a.requests + b.requests, a.points + b.points, a.unmetered + b.unmetered)
  }

  predicate SameKey(e: Entry, capability: string, resource: string) {
    e.capability == capability && e.resource == resource
  }

  function Current(entries: seq<Entry>, capability: string, resource: string): Tally {
    if entries == [] then ZERO
    else if SameKey(entries[0], capability, resource) then entries[0].tally
    else Current(entries[1..], capability, resource)
  }

  function Without(entries: seq<Entry>, capability: string, resource: string): seq<Entry> {
    if entries == [] then []
    else if SameKey(entries[0], capability, resource) then Without(entries[1..], capability, resource)
    else [entries[0]] + Without(entries[1..], capability, resource)
  }

  /** One request, its points, and whether its counter was readable. */
  function Charge(points: int, metered: bool): Tally {
    Tally(1, points, if metered then 0 else 1)
  }

  function Record(entries: seq<Entry>, capability: string, resource: string, points: int, metered: bool): seq<Entry> {
    Without(entries, capability, resource)
    + [Entry(capability, resource, Plus(Current(entries, capability, resource), Charge(points, metered)))]
  }

  // ---- recording conserves

  predicate Absent(entries: seq<Entry>, capability: string, resource: string) {
    entries == [] || (!SameKey(entries[0], capability, resource) && Absent(entries[1..], capability, resource))
  }

  predicate OnePerKey(entries: seq<Entry>) {
    || entries == []
    || (Absent(entries[1..], entries[0].capability, entries[0].resource) && OnePerKey(entries[1..]))
  }

  /** `points_by_resource` (and requests likewise), for one resource. */
  function Total(entries: seq<Entry>, r: string, m: Measure): int {
    if entries == [] then 0 else Share(entries[0], r, m) + Total(entries[1..], r, m)
  }

  function Share(e: Entry, r: string, m: Measure): int {
    if e.resource == r then Amount(e.tally, m) else 0
  }

  lemma {:induction false} TotalAppend(a: seq<Entry>, e: Entry, r: string, m: Measure)
    ensures Total(a + [e], r, m) == Total(a, r, m) + Share(e, r, m)
  {
    if a == [] {
      assert [e][1..] == [];
    } else {
      assert (a + [e])[1..] == a[1..] + [e];
      TotalAppend(a[1..], e, r, m);
    }
  }

  lemma {:induction false} AbsentIsZero(entries: seq<Entry>, c: string, resource: string)
    requires Absent(entries, c, resource)
    ensures Current(entries, c, resource) == ZERO && Without(entries, c, resource) == entries
  {
    if entries == [] {
    } else {
      AbsentIsZero(entries[1..], c, resource);
    }
  }

  lemma {:induction false} TotalWithout(entries: seq<Entry>, c: string, resource: string, r: string, m: Measure)
    requires OnePerKey(entries)
    ensures Total(entries, r, m)
         == Total(Without(entries, c, resource), r, m) + Share(Entry(c, resource, Current(entries, c, resource)), r, m)
  {
    if entries == [] {
    } else {
      var rest := entries[1..];
      if SameKey(entries[0], c, resource) {
        AbsentIsZero(rest, c, resource);
      } else {
        TotalWithout(rest, c, resource, r, m);
        assert ([entries[0]] + Without(rest, c, resource))[1..] == Without(rest, c, resource);
      }
    }
  }

  lemma {:induction false} WithoutIsAbsent(entries: seq<Entry>, c: string, resource: string, c2: string, r2: string)
    ensures Absent(Without(entries, c, resource), c, resource)
    ensures Absent(entries, c2, r2) ==> Absent(Without(entries, c, resource), c2, r2)
  {
    if entries == [] {
    } else {
      WithoutIsAbsent(entries[1..], c, resource, c2, r2);
      assert ([entries[0]] + Without(entries[1..], c, resource))[1..] == Without(entries[1..], c, resource);
    }
  }

  lemma {:induction false} WithoutKeepsApart(entries: seq<Entry>, c: string, resource: string)
    requires OnePerKey(entries)
    ensures OnePerKey(Without(entries, c, resource))
  {
    if entries == [] {
    } else {
      WithoutKeepsApart(entries[1..], c, resource);
      WithoutIsAbsent(entries[1..], c, resource, entries[0].capability, entries[0].resource);
      assert ([entries[0]] + Without(entries[1..], c, resource))[1..] == Without(entries[1..], c, resource);
    }
  }

  lemma {:induction false} AbsentAppend(entries: seq<Entry>, e: Entry, c: string, resource: string)
    requires Absent(entries, c, resource) && !SameKey(e, c, resource)
    ensures Absent(entries + [e], c, resource)
  {
    if entries == [] {
      assert [e][1..] == [];
    } else {
      assert (entries + [e])[1..] == entries[1..] + [e];
      AbsentAppend(entries[1..], e, c, resource);
    }
  }

  lemma {:induction false} ApartAppend(entries: seq<Entry>, e: Entry)
    requires OnePerKey(entries) && Absent(entries, e.capability, e.resource)
    ensures OnePerKey(entries + [e])
  {
    if entries == [] {
      assert [e][1..] == [];
    } else {
      assert (entries + [e])[1..] == entries[1..] + [e];
      ApartAppend(entries[1..], e);
      AbsentAppend(entries[1..], e, entries[0].capability, entries[0].resource);
    }
  }

  /** One entry per (capability, resource), and every total grows by exactly the recorded request. */
  lemma RecordConserves(entries: seq<Entry>, j: Job, r: string, m: Measure)
    requires OnePerKey(entries)
    ensures OnePerKey(Record(entries, j.capability, j.resource, j.points, j.metered))
    ensures Total(Record(entries, j.capability, j.resource, j.points, j.metered), r, m)
         == Total(entries, r, m) + JobShare(j, r, m)
  {
    var c, resource := j.capability, j.resource;
    TotalWithout(entries, c, resource, r, m);
    WithoutKeepsApart(entries, c, resource);
    WithoutIsAbsent(entries, c, resource, c, resource);
    var kept := Without(entries, c, resource);
    var e := Entry(c, resource, Plus(Current(entries, c, resource), Charge(j.points, j.metered)));
    ApartAppend(kept, e);
    TotalAppend(kept, e, r, m);
  }

  // ---- the fleet: any number of clients, one cursor

  /** A response whose points are known but not yet in its client's spend. */
  datatype Job = Job(lane: nat, capability: string, resource: string, points: int, metered: bool)

  datatype Fleet = Fleet(marks: seq<Mark>, lanes: seq<seq<Entry>>, jobs: seq<Job>, taken: seq<seq<Entry>>)

  datatype Event = Answer(lane: nat, capability: string, sample: Sample) | Settle(job: nat) | Take(lane: nat)

  predicate Possible(f: Fleet, e: Event) {
    match e
    case Answer(lane, _, _) => lane < |f.lanes|
    case Settle(job) => job < |f.jobs| && f.jobs[job].lane < |f.lanes|
    case Take(lane) => lane < |f.lanes|
  }

  predicate Metered(s: Sample) {
    s.used.Some? && s.reset.Some?
  }

  function Step(f: Fleet, e: Event): Fleet
    requires Possible(f, e)
  {
    match e
    case Answer(lane, capability, s) =>
      var (marks, points) := Advance(f.marks, s);
      f.(marks := marks, jobs := f.jobs + [Job(lane, capability, s.resource, points, Metered(s))])
    case Settle(job) =>
      var j := f.jobs[job];
      f.(lanes := f.lanes[j.lane := Record(f.lanes[j.lane], j.capability, j.resource, j.points, j.metered)],
         jobs := f.jobs[..job] + f.jobs[job + 1..])
    case Take(lane) =>
      f.(lanes := f.lanes[lane := []], taken := f.taken + [f.lanes[lane]])
  }

  /** All events can happen one after the other. */
  predicate Feasible(f: Fleet, es: seq<Event>)
    decreases |es|
  {
    es == [] || (Possible(f, es[0]) && Feasible(Step(f, es[0]), es[1..]))
  }

  function Run(f: Fleet, es: seq<Event>): Fleet
    requires Feasible(f, es)
    decreases |es|
  {
    if es == [] then f else Run(Step(f, es[0]), es[1..])
  }

  function Start(clients: nat): Fleet {
    Fleet([], seq(clients, _ => []), [], [])
  }

  // ---- one entry per client capability and resource

  /** What a client holds after recording these responses, from nothing. */
  function RecordAll(jobs: seq<Job>): seq<Entry> {
    if jobs == [] then []
    else
      var j := jobs[|jobs| - 1];
      Record(RecordAll(jobs[..|jobs| - 1]), j.capability, j.resource, j.points, j.metered)
  }

  /** The responses of one capability about one resource: their number, points, and how many were unreadable. */
  function TallyOf(jobs: seq<Job>, capability: string, resource: string): Tally {
    if jobs == [] then Tally(0, 0, 0)
    else
      var t, j := TallyOf(jobs[..|jobs| - 1], capability, resource), jobs[|jobs| - 1];
      if j.capability == capability && j.resource == resource
      then Tally(t.requests + 1, t.points + j.points, if j.metered then t.unmetered else t.unmetered + 1)
      else t
  }

  predicate Concerns(jobs: seq<Job>, capability: string, resource: string) {
    exists i :: 0 <= i < |jobs| && jobs[i].capability == capability && jobs[i].resource == resource
  }

  lemma {:induction false} WithoutMembers(entries: seq<Entry>, c: string, resource: string, e: Entry)
    ensures e in Without(entries, c, resource) <==> e in entries && !(e.capability == c && e.resource == resource)
  {
    if entries == [] {
    } else {
      WithoutMembers(entries[1..], c, resource, e);
    }
  }

  lemma {:induction false} CurrentAppend(entries: seq<Entry>, e: Entry, c: string, resource: string)
    requires Absent(entries, e.capability, e.resource)
    ensures Current(entries + [e], c, resource)
         == if e.capability == c && e.resource == resource then e.tally else Current(entries, c, resource)
  {
    if entries == [] {
      assert [e][1..] == [];
    } else {
      assert (entries + [e])[1..] == entries[1..] + [e];
      CurrentAppend(entries[1..], e, c, resource);
    }
  }

  lemma {:induction false} CurrentWithout(entries: seq<Entry>, c: string, resource: string, c2: string, r2: string)
    requires !(c == c2 && resource == r2)
    ensures Current(Without(entries, c, resource), c2, r2) == Current(entries, c2, r2)
  {
    if entries == [] {
    } else {
      CurrentWithout(entries[1..], c, resource, c2, r2);
      assert ([entries[0]] + Without(entries[1..], c, resource))[1..] == Without(entries[1..], c, resource);
    }
  }

  /** Recording touches no other capability and no other resource. */
  lemma CurrentAfterRecord(entries: seq<Entry>, j: Job, c: string, resource: string)
    ensures Current(Record(entries, j.capability, j.resource, j.points, j.metered), c, resource)
         == var t := Current(entries, c, resource);
            if j.capability == c && j.resource == resource
            then Tally(t.requests + 1, t.points + j.points, if j.metered then t.unmetered else t.unmetered + 1)
            else t
  {
    var kept := Without(entries, j.capability, j.resource);
    var e := Entry(j.capability, j.resource,
                   Plus(Current(entries, j.capability, j.resource), Charge(j.points, j.metered)));
    WithoutIsAbsent(entries, j.capability, j.resource, c, resource);
    CurrentAppend(kept, e, c, resource);
    if !(j.capability == c && j.resource == resource) {
      CurrentWithout(entries, j.capability, j.resource, c, resource);
    }
  }

  lemma {:induction false} CurrentIsTally(jobs: seq<Job>, c: string, resource: string)
    ensures Current(RecordAll(jobs), c, resource) == TallyOf(jobs, c, resource)
  {
    if jobs == [] {
    } else {
      CurrentIsTally(jobs[..|jobs| - 1], c, resource);
      CurrentAfterRecord(RecordAll(jobs[..|jobs| - 1]), jobs[|jobs| - 1], c, resource);
    }
  }

  lemma ConcernsSnoc(jobs: seq<Job>, j: Job, c: string, resource: string)
    ensures Concerns(jobs + [j], c, resource)
       <==> Concerns(jobs, c, resource) || (j.capability == c && j.resource == resource)
  {
    var after := jobs + [j];
    assert after[|jobs|] == j && forall i :: 0 <= i < |jobs| ==> after[i] == jobs[i];
  }

  /** A client's entries are exactly the tallies of its responses, one for every capability and resource seen. */
  lemma {:induction false} EntriesAreTallies(jobs: seq<Job>, e: Entry)
    ensures e in RecordAll(jobs)
       <==> Concerns(jobs, e.capability, e.resource) && e.tally == TallyOf(jobs, e.capability, e.resource)
  {
    if jobs == [] {
    } else {
      var before, j := jobs[..|jobs| - 1], jobs[|jobs| - 1];
      assert jobs == before + [j];
      EntriesAreTallies(before, e);
      ConcernsSnoc(before, j, e.capability, e.resource);
      WithoutMembers(RecordAll(before), j.capability, j.resource, e);
      CurrentIsTally(before, j.capability, j.resource);
    }
  }

  // ---- conservation

  function JobShare(j: Job, r: string, m: Measure): int {
    if j.resource == r then Amount(Charge(j.points, j.metered), m) else 0
  }

  function SumLanes(lanes: seq<seq<Entry>>, r: string, m: Measure): int {
    if lanes == [] then 0 else Total(lanes[0], r, m) + SumLanes(lanes[1..], r, m)
  }

  function SumJobs(jobs: seq<Job>, r: string, m: Measure): int {
    if jobs == [] then 0 else JobShare(jobs[0], r, m) + SumJobs(jobs[1..], r, m)
  }

  /** Recorded, still on its way, or taken. */
  function Held(f: Fleet, r: string, m: Measure): int {
    SumLanes(f.lanes, r, m) + SumJobs(f.jobs, r, m) + SumLanes(f.taken, r, m)
  }

  /** What one response is worth to resource r, given the cursor it meets. */
  function Worth(marks: seq<Mark>, s: Sample, r: string, m: Measure): int {
    if s.resource == r then Amount(Charge(Advance(marks, s).1, Metered(s)), m) else 0
  }

  /** What the samples are worth from the given marks on. */
  function WorthOf(marks: seq<Mark>, samples: seq<Sample>, r: string, m: Measure): int
    decreases |samples|
  {
    if samples == [] then 0
    else Worth(marks, samples[0], r, m) + WorthOf(Advance(marks, samples[0]).0, samples[1..], r, m)
  }

  function Samples(es: seq<Event>): seq<Sample> {
    if es == [] then []
    else if es[0].Answer? then [es[0].sample] + Samples(es[1..])
    else Samples(es[1..])
  }

  lemma {:induction false} SumLanesUpdate(lanes: seq<seq<Entry>>, i: nat, v: seq<Entry>, r: string, m: Measure)
    requires i < |lanes|
    ensures SumLanes(lanes[i := v], r, m) == SumLanes(lanes, r, m) - Total(lanes[i], r, m) + Total(v, r, m)
  {
    if i == 0 {
      assert lanes[i := v][1..] == lanes[1..];
    } else {
      assert lanes[i := v][1..] == lanes[1..][i - 1 := v];
      SumLanesUpdate(lanes[1..], i - 1, v, r, m);
    }
  }

  lemma {:induction false} SumLanesAppend(lanes: seq<seq<Entry>>, v: seq<Entry>, r: string, m: Measure)
    ensures SumLanes(lanes + [v], r, m) == SumLanes(lanes, r, m) + Total(v, r, m)
  {
    if lanes == [] {
      assert [v][1..] == [];
    } else {
      assert (lanes + [v])[1..] == lanes[1..] + [v];
      SumLanesAppend(lanes[1..], v, r, m);
    }
  }

  lemma {:induction false} SumJobsJoin(a: seq<Job>, b: seq<Job>, r: string, m: Measure)
    ensures SumJobs(a + b, r, m) == SumJobs(a, r, m) + SumJobs(b, r, m)
  {
    if a == [] {
      assert a + b == b;
    } else {
      assert (a + b)[1..] == a[1..] + b;
      SumJobsJoin(a[1..], b, r, m);
    }
  }

  lemma SumJobsAppend(jobs: seq<Job>, j: Job, r: string, m: Measure)
    ensures SumJobs(jobs + [j], r, m) == SumJobs(jobs, r, m) + JobShare(j, r, m)
  {
    SumJobsJoin(jobs, [j], r, m);
    assert [j][1..] == [];
  }

  lemma SumJobsRemove(jobs: seq<Job>, i: nat, r: string, m: Measure)
    requires i < |jobs|
    ensures SumJobs(jobs[..i] + jobs[i + 1..], r, m) == SumJobs(jobs, r, m) - JobShare(jobs[i], r, m)
  {
    SumJobsJoin(jobs[..i], jobs[i + 1..], r, m);
    SumJobsJoin(jobs[..i], jobs[i..], r, m);
    assert jobs[..i] + jobs[i..] == jobs;
    assert jobs[i..][0] == jobs[i] && jobs[i..][1..] == jobs[i + 1..];
  }

  ghost predicate LanesApart(f: Fleet) {
    forall i :: 0 <= i < |f.lanes| ==> OnePerKey(f.lanes[i])
  }

  lemma AnswerConserves(f: Fleet, lane: nat, capability: string, s: Sample, r: string, m: Measure)
    requires lane < |f.lanes|
    ensures Held(Step(f, Answer(lane, capability, s)), r, m) == Held(f, r, m) + Worth(f.marks, s, r, m)
  {
    SumJobsAppend(f.jobs, Job(lane, capability, s.resource, Advance(f.marks, s).1, Metered(s)), r, m);
  }

  lemma SettleConserves(f: Fleet, job: nat, r: string, m: Measure)
    requires Possible(f, Settle(job)) && LanesApart(f)
    ensures LanesApart(Step(f, Settle(job))) && Held(Step(f, Settle(job)), r, m) == Held(f, r, m)
  {
    var j := f.jobs[job];
    var lane := Record(f.lanes[j.lane], j.capability, j.resource, j.points, j.metered);
    RecordConserves(f.lanes[j.lane], j, r, m);
    SumLanesUpdate(f.lanes, j.lane, lane, r, m);
    SumJobsRemove(f.jobs, job, r, m);
  }

  lemma TakeConserves(f: Fleet, lane: nat, r: string, m: Measure)
    requires Possible(f, Take(lane)) && LanesApart(f)
    ensures LanesApart(Step(f, Take(lane))) && Held(Step(f, Take(lane)), r, m) == Held(f, r, m)
  {
    SumLanesUpdate(f.lanes, lane, [], r, m);
    SumLanesAppend(f.taken, f.lanes[lane], r, m);
  }

  lemma StepConserves(f: Fleet, e: Event, r: string, m: Measure)
    requires Possible(f, e) && LanesApart(f)
    ensures LanesApart(Step(f, e))
    ensures Held(Step(f, e), r, m) == Held(f, r, m) + if e.Answer? then Worth(f.marks, e.sample, r, m) else 0
  {
    match e
    case Answer(lane, capability, s) => AnswerConserves(f, lane, capability, s, r, m);
    case Settle(job) => SettleConserves(f, job, r, m);
    case Take(lane) => TakeConserves(f, lane, r, m);
  }

  lemma {:induction false} RunConserves(f: Fleet, es: seq<Event>, r: string, m: Measure)
    requires Feasible(f, es) && LanesApart(f)
    ensures Held(Run(f, es), r, m) == Held(f, r, m) + WorthOf(f.marks, Samples(es), r, m)
    ensures LanesApart(Run(f, es))
    decreases |es|
  {
    if es == [] {
    } else {
      var e := es[0];
      StepConserves(f, e, r, m);
      RunConserves(Step(f, e), es[1..], r, m);
      if e.Answer? {
        assert Samples(es)[0] == e.sample && Samples(es)[1..] == Samples(es[1..]);
      }
    }
  }

  // ---- and the windows of a resource

  /** Windows of resource r the samples sighted, in order of first sighting. */
  function WindowsOf(samples: seq<Sample>, r: string): (ws: seq<Window>)
    ensures forall w :: w in ws <==> Seen(samples, w) && w.resource == r
  {
    if samples == [] then []
    else
      var before, s := samples[..|samples| - 1], samples[|samples| - 1];
      var ws := WindowsOf(before, r);
      if Metered(s) && s.resource == r && Window(r, s.reset.value) !in ws then ws + [Window(r, s.reset.value)] else ws
  }

  function SumTelescoped(samples: seq<Sample>, ws: seq<Window>): int {
    if ws == [] then 0 else Telescoped(samples, ws[0]) + SumTelescoped(samples, ws[1..])
  }

  function SumCounted(samples: seq<Sample>, ws: seq<Window>): int {
    if ws == [] then 0 else Counted(samples, ws[0]) + SumCounted(samples, ws[1..])
  }

  lemma {:induction false} SumsAgree(samples: seq<Sample>, ws: seq<Window>)
    ensures SumCounted(samples, ws) == SumTelescoped(samples, ws)
  {
    if ws == [] {
    } else {
      PointsTelescope(samples, ws[0]);
      SumsAgree(samples, ws[1..]);
    }
  }

  lemma {:induction false} SumCountedAppend(samples: seq<Sample>, ws: seq<Window>, w: Window)
    ensures SumCounted(samples, ws + [w]) == SumCounted(samples, ws) + Counted(samples, w)
  {
    if ws == [] {
      assert [w][1..] == [];
    } else {
      assert (ws + [w])[1..] == ws[1..] + [w];
      SumCountedAppend(samples, ws[1..], w);
    }
  }

  lemma {:induction false} UnseenCountsNothing(samples: seq<Sample>, w: Window)
    requires !Seen(samples, w)
    ensures Counted(samples, w) == 0
  {
    if samples == [] {
    } else {
      UnseenCountsNothing(samples[..|samples| - 1], w);
    }
  }

  /** One more sample adds its points to its own window and to no other. */
  lemma {:induction false} SumCountedStep(before: seq<Sample>, s: Sample, ws: seq<Window>)
    requires Distinct(ws)
    ensures SumCounted(before + [s], ws) == SumCounted(before, ws)
      + (if Metered(s) && Window(s.resource, s.reset.value) in ws then Advance(Marks(before), s).1 else 0)
  {
    assert (before + [s])[..|before|] == before;
    if ws == [] {
    } else {
      SumCountedStep(before, s, ws[1..]);
      assert forall w :: w in ws <==> w == ws[0] || w in ws[1..];
      assert ws[0] !in ws[1..];
    }
  }

  lemma {:induction false} WindowsDistinct(samples: seq<Sample>, r: string)
    ensures Distinct(WindowsOf(samples, r))
  {
    if samples == [] {
    } else {
      WindowsDistinct(samples[..|samples| - 1], r);
    }
  }

  lemma {:induction false} WorthSnoc(marks: seq<Mark>, samples: seq<Sample>, s: Sample, r: string)
    ensures WorthOf(marks, samples + [s], r, Points)
         == WorthOf(marks, samples, r, Points) + Worth(MarksFrom(marks, samples), s, r, Points)
    decreases |samples|
  {
    if samples == [] {
      assert [s][1..] == [] && [] + [s] == [s];
    } else {
      assert (samples + [s])[1..] == samples[1..] + [s];
      WorthSnoc(Advance(marks, samples[0]).0, samples[1..], s, r);
    }
  }

  function MarksFrom(marks: seq<Mark>, samples: seq<Sample>): seq<Mark>
    decreases |samples|
  {
    if samples == [] then marks else MarksFrom(Advance(marks, samples[0]).0, samples[1..])
  }

  lemma {:induction false} MarksFromSnoc(marks: seq<Mark>, samples: seq<Sample>, s: Sample)
    ensures MarksFrom(marks, samples + [s]) == Advance(MarksFrom(marks, samples), s).0
    decreases |samples|
  {
    if samples == [] {
      assert [s][1..] == [] && [] + [s] == [s];
    } else {
      assert (samples + [s])[1..] == samples[1..] + [s];
      MarksFromSnoc(Advance(marks, samples[0]).0, samples[1..], s);
    }
  }

  lemma {:induction false} MarksFromStart(samples: seq<Sample>)
    ensures MarksFrom([], samples) == Marks(samples)
  {
    if samples == [] {
    } else {
      var before, s := samples[..|samples| - 1], samples[|samples| - 1];
      MarksFromStart(before);
      MarksFromSnoc([], before, s);
      assert before + [s] == samples;
    }
  }

  lemma {:induction false} WorthIsSumOfWindows(samples: seq<Sample>, r: string)
    ensures WorthOf([], samples, r, Points) == SumCounted(samples, WindowsOf(samples, r))
  {
    if samples == [] {
    } else {
      var before, s := samples[..|samples| - 1], samples[|samples| - 1];
      var ws := WindowsOf(before, r);
      assert before + [s] == samples;
      WorthIsSumOfWindows(before, r);
      WorthSnoc([], before, s, r);
      MarksFromStart(before);
      WindowsDistinct(before, r);
      SumCountedStep(before, s, ws);
      if Metered(s) && s.resource == r && Window(r, s.reset.value) !in ws {
        var w := Window(r, s.reset.value);
        SumCountedAppend(samples, ws, w);
        UnseenCountsNothing(before, w);
      }
    }
  }

  lemma {:induction false} NothingHeldAtStart(clients: nat, r: string, m: Measure)
    ensures SumLanes(seq(clients, _ => []), r, m) == 0
  {
    var lanes: seq<seq<Entry>> := seq(clients, _ => []);
    if clients == 0 {
    } else {
      assert lanes[1..] == seq(clients - 1, _ => []);
      NothingHeldAtStart(clients - 1, r, m);
    }
  }

  function Answers(samples: seq<Sample>, r: string): nat {
    if samples == [] then 0 else (if samples[0].resource == r then 1 else 0) + Answers(samples[1..], r)
  }

  lemma {:induction false} OneRequestEach(marks: seq<Mark>, samples: seq<Sample>, r: string)
    ensures WorthOf(marks, samples, r, Requests) == Answers(samples, r)
    decreases |samples|
  {
    if samples == [] {
    } else {
      OneRequestEach(Advance(marks, samples[0]).0, samples[1..], r);
    }
  }

  /** Every interleaving of any clients' responses: the points recorded, pending or taken for a
      resource are what its windows' counters grew by, and every response is one request. */
  lemma LanesSumToObservedGrowth(clients: nat, es: seq<Event>, r: string)
    requires Feasible(Start(clients), es)
    ensures Held(Run(Start(clients), es), r, Points) == SumTelescoped(Samples(es), WindowsOf(Samples(es), r))
    ensures Held(Run(Start(clients), es), r, Requests) == Answers(Samples(es), r)
  {
    var start := Start(clients);
    NothingHeldAtStart(clients, r, Points);
    NothingHeldAtStart(clients, r, Requests);
    RunConserves(start, es, r, Points);
    RunConserves(start, es, r, Requests);
    WorthIsSumOfWindows(Samples(es), r);
    SumsAgree(Samples(es), WindowsOf(Samples(es), r));
    OneRequestEach([], Samples(es), r);
  }

  // ---- the same by capability

  function LaneRequests(lanes: seq<seq<Entry>>, c: string, r: string): int {
    if lanes == [] then 0 else Current(lanes[0], c, r).requests + LaneRequests(lanes[1..], c, r)
  }

  function JobRequests(jobs: seq<Job>, c: string, r: string): int {
    if jobs == [] then 0
    else (if jobs[0].capability == c && jobs[0].resource == r then 1 else 0) + JobRequests(jobs[1..], c, r)
  }

  /** Requests of one capability about one resource: recorded, on their way, or taken. */
  function HeldRequests(f: Fleet, c: string, r: string): int {
    LaneRequests(f.lanes, c, r) + JobRequests(f.jobs, c, r) + LaneRequests(f.taken, c, r)
  }

  /** How many responses of the capability told of the resource. */
  function AnswersOf(es: seq<Event>, c: string, r: string): nat {
    if es == [] then 0
    else
      (if es[0].Answer? && es[0].capability == c && es[0].sample.resource == r then 1 else 0)
      + AnswersOf(es[1..], c, r)
  }

  lemma {:induction false} LaneRequestsUpdate(lanes: seq<seq<Entry>>, i: nat, v: seq<Entry>, c: string, r: string)
    requires i < |lanes|
    ensures LaneRequests(lanes[i := v], c, r)
         == LaneRequests(lanes, c, r) - Current(lanes[i], c, r).requests + Current(v, c, r).requests
  {
    if i == 0 {
      assert lanes[i := v][1..] == lanes[1..];
    } else {
      assert lanes[i := v][1..] == lanes[1..][i - 1 := v];
      LaneRequestsUpdate(lanes[1..], i - 1, v, c, r);
    }
  }

  lemma {:induction false} LaneRequestsAppend(lanes: seq<seq<Entry>>, v: seq<Entry>, c: string, r: string)
    ensures LaneRequests(lanes + [v], c, r) == LaneRequests(lanes, c, r) + Current(v, c, r).requests
  {
    if lanes == [] {
      assert [v][1..] == [];
    } else {
      assert (lanes + [v])[1..] == lanes[1..] + [v];
      LaneRequestsAppend(lanes[1..], v, c, r);
    }
  }

  lemma {:induction false} JobRequestsJoin(a: seq<Job>, b: seq<Job>, c: string, r: string)
    ensures JobRequests(a + b, c, r) == JobRequests(a, c, r) + JobRequests(b, c, r)
  {
    if a == [] {
      assert a + b == b;
    } else {
      assert (a + b)[1..] == a[1..] + b;
      JobRequestsJoin(a[1..], b, c, r);
    }
  }

  lemma JobRequestsRemove(jobs: seq<Job>, i: nat, c: string, r: string)
    requires i < |jobs|
    ensures JobRequests(jobs[..i] + jobs[i + 1..], c, r)
         == JobRequests(jobs, c, r) - if jobs[i].capability == c && jobs[i].resource == r then 1 else 0
  {
    JobRequestsJoin(jobs[..i], jobs[i + 1..], c, r);
    JobRequestsJoin(jobs[..i], jobs[i..], c, r);
    assert jobs[..i] + jobs[i..] == jobs;
    assert jobs[i..][0] == jobs[i] && jobs[i..][1..] == jobs[i + 1..];
  }

  lemma StepKeepsRequests(f: Fleet, e: Event, c: string, r: string)
    requires Possible(f, e)
    ensures HeldRequests(Step(f, e), c, r)
         == HeldRequests(f, c, r) + if e.Answer? && e.capability == c && e.sample.resource == r then 1 else 0
  {
    match e
    case Answer(lane, capability, s) =>
      var j := Job(lane, capability, s.resource, Advance(f.marks, s).1, Metered(s));
      JobRequestsJoin(f.jobs, [j], c, r);
      assert [j][1..] == [];
    case Settle(job) =>
      var j := f.jobs[job];
      CurrentAfterRecord(f.lanes[j.lane], j, c, r);
      LaneRequestsUpdate(f.lanes, j.lane,
                         Record(f.lanes[j.lane], j.capability, j.resource, j.points, j.metered), c, r);
      JobRequestsRemove(f.jobs, job, c, r);
    case Take(lane) =>
      LaneRequestsUpdate(f.lanes, lane, [], c, r);
      LaneRequestsAppend(f.taken, f.lanes[lane], c, r);
  }

  lemma {:induction false} RunKeepsRequests(f: Fleet, es: seq<Event>, c: string, r: string)
    requires Feasible(f, es)
    ensures HeldRequests(Run(f, es), c, r) == HeldRequests(f, c, r) + AnswersOf(es, c, r)
    decreases |es|
  {
    if es == [] {
    } else {
      StepKeepsRequests(f, es[0], c, r);
      RunKeepsRequests(Step(f, es[0]), es[1..], c, r);
    }
  }

  lemma {:induction false} NoRequestsAtStart(clients: nat, c: string, r: string)
    ensures LaneRequests(seq(clients, _ => []), c, r) == 0
  {
    var lanes: seq<seq<Entry>> := seq(clients, _ => []);
    if clients == 0 {
    } else {
      assert lanes[1..] == seq(clients - 1, _ => []);
      NoRequestsAtStart(clients - 1, c, r);
    }
  }

  /** Under every interleaving each response is one request of its own capability and resource. */
  lemma RequestsByCapability(clients: nat, es: seq<Event>, c: string, r: string)
    requires Feasible(Start(clients), es)
    ensures HeldRequests(Run(Start(clients), es), c, r) == AnswersOf(es, c, r)
  {
    NoRequestsAtStart(clients, c, r);
    RunKeepsRequests(Start(clients), es, c, r);
  }
}
