/** Token usage of a session (`usage_from_events`): the last cumulative result if there is one, and
    otherwise one row per message, the one with the most output tokens. */
module UsageEvents {
  import opened Sorting

  datatype Usage = Usage(input: nat, output: nat, cached: nat)

  /** A parsed event; `usage` is None when it carries none, `id` is "" when the message has none. */
  datatype Event = Result(usage: Option<Usage>) | Assistant(id: string, usage: Option<Usage>) | Other

  datatype Column = Input | Output | Cached

  function Amount(u: Usage, c: Column): nat {
    match c
    case Input => u.input
    case Output => u.output
    case Cached => u.cached
  }

  // ---- the rows

  /** An assistant line that names its message. */
  predicate Names(e: Event, id: string) {
    e.Assistant? && e.usage.Some? && e.id == id && id != ""
  }

  predicate Nameless(e: Event) {
    e.Assistant? && e.usage.Some? && e.id == ""
  }

  function LastResult(es: seq<Event>): Option<Usage> {
    if es == [] then None
    else
      var last := es[|es| - 1];
      if last.Result? && last.usage.Some? then last.usage else LastResult(es[..|es| - 1])
  }

  /** The row kept for a message: the first with the most output. */
  function Best(es: seq<Event>, id: string): Option<Usage> {
    if es == [] then None
    else
      var before, last := Best(es[..|es| - 1], id), es[|es| - 1];
      if Names(last, id) && (before.None? || last.usage.value.output > before.value.output) then last.usage else before
  }

  /** The message ids, in order of first sighting. */
  function Ids(es: seq<Event>): (ids: seq<string>)
    ensures forall id :: id in ids <==> Best(es, id).Some?
  {
    if es == [] then []
    else
      var before, last := Ids(es[..|es| - 1]), es[|es| - 1];
      if last.Assistant? && Names(last, last.id) && last.id !in before then before + [last.id] else before
  }

  function SumNameless(es: seq<Event>, c: Column): nat {
    if es == [] then 0
    else SumNameless(es[..|es| - 1], c) + if Nameless(es[|es| - 1]) then Amount(es[|es| - 1].usage.value, c) else 0
  }

  function RowAmount(row: Option<Usage>, c: Column): nat {
    if row.Some? then Amount(row.value, c) else 0
  }

  function SumBest(es: seq<Event>, ids: seq<string>, c: Column): nat {
    if ids == [] then 0
    else SumBest(es, ids[..|ids| - 1], c) + RowAmount(Best(es, ids[|ids| - 1]), c)
  }

  function Reconstructed(es: seq<Event>, c: Column): nat {
    SumBest(es, Ids(es), c) + SumNameless(es, c)
  }

  function Total(es: seq<Event>): Usage {
    if LastResult(es).Some? then LastResult(es).value
    else Usage(Reconstructed(es, Input), Reconstructed(es, Output), Reconstructed(es, Cached))
  }

  // ---- the program

  ghost predicate Read(es: seq<Event>, result: Option<Usage>, ids: seq<string>, rows: map<string, Usage>) {
    && result == LastResult(es) && ids == Ids(es)
    && (forall id :: id in rows <==> id in ids)
    && (forall id :: id in rows ==> Best(es, id) == Some(rows[id]))
  }

  lemma ReadStep(es: seq<Event>, e: Event, result: Option<Usage>, ids: seq<string>, rows: map<string, Usage>)
    requires Read(es, result, ids, rows)
    ensures e.Result? ==> Read(es + [e], if e.usage.Some? then e.usage else result, ids, rows)
    ensures e.Assistant? && !Names(e, e.id) ==> Read(es + [e], result, ids, rows)
    ensures e.Other? ==> Read(es + [e], result, ids, rows)
    ensures e.Assistant? && Names(e, e.id) ==>
      if e.id !in rows then Read(es + [e], result, ids + [e.id], rows[e.id := e.usage.value])
      else if e.usage.value.output > rows[e.id].output then Read(es + [e], result, ids, rows[e.id := e.usage.value])
      else Read(es + [e], result, ids, rows)
  {
    assert (es + [e])[..|es|] == es;
    assert forall id :: !Names(e, id) ==> Best(es + [e], id) == Best(es, id);
  }

  method UsageFromEvents(es: seq<Event>) returns (u: Usage)
    ensures u == Total(es)
  {
    var result: Option<Usage> := None;
    var ids: seq<string>, rows: map<string, Usage>, nameless := [], map[], Usage(0, 0, 0);
    for i := 0 to |es|
      invariant Read(es[..i], result, ids, rows)
      invariant nameless == Usage(SumNameless(es[..i], Input), SumNameless(es[..i], Output),
                                  SumNameless(es[..i], Cached))
    {
      var e := es[i];
      TakeStep(es, i);
      assert es[..i + 1][..i] == es[..i];
      ReadStep(es[..i], e, result, ids, rows);
      if e.Result? {
        if e.usage.Some? { result := e.usage; }
      } else if e.Assistant? && e.usage.Some? {
        if e.id == "" {
          nameless := Plus(nameless, e.usage.value);
        } else if e.id !in rows {
          ids, rows := ids + [e.id], rows[e.id := e.usage.value];
        } else if e.usage.value.output > rows[e.id].output {
          rows := rows[e.id := e.usage.value];
        }
      }
    }
    TakeAll(es);
    if result.Some? { return result.value; }
    u := SumRows(es, ids, rows, nameless);
  }

  function Plus(a: Usage, b: Usage): Usage {
    Usage(a.input + b.input, a.output + b.output, a.cached + b.cached)
  }

  method SumRows(ghost es: seq<Event>, ids: seq<string>, rows: map<string, Usage>, nameless: Usage) returns (u: Usage)
    requires forall id :: id in ids ==> id in rows && Best(es, id) == Some(rows[id])
    ensures u == Usage(SumBest(es, ids, Input) + nameless.input, SumBest(es, ids, Output) + nameless.output,
                       SumBest(es, ids, Cached) + nameless.cached)
  {
    u := nameless;
    for k := 0 to |ids|
      invariant u == Usage(SumBest(es, ids[..k], Input) + nameless.input,
                           SumBest(es, ids[..k], Output) + nameless.output,
                           SumBest(es, ids[..k], Cached) + nameless.cached)
    {
      assert ids[..k + 1][..k] == ids[..k];
      u := Plus(u, rows[ids[k]]);
    }
    TakeAll(ids);
  }

  // ---- one row per message, whatever the order

  /** The kept row is one of the message's lines, and none has more output. */
  lemma {:induction false} BestIsLargest(es: seq<Event>, id: string)
    ensures forall e :: e in es && Names(e, id) ==>
      Best(es, id).Some? && e.usage.value.output <= Best(es, id).value.output
    ensures Best(es, id).Some? ==> exists e :: e in es && Names(e, id) && e.usage == Best(es, id)
  {
    if es == [] {
    } else {
      var before, last := es[..|es| - 1], es[|es| - 1];
      BestIsLargest(before, id);
      assert es == before + [last];
      assert forall e :: e in es <==> e in before || e == last;
    }
  }

  /** Lines of one message agree on what was read, and differ at most in output. */
  ghost predicate LinesAgree(es: seq<Event>) {
    forall e, f :: e in es && f in es && e.Assistant? && f.Assistant? && Names(e, e.id) && Names(f, e.id) ==>
      e.usage.value.input == f.usage.value.input && e.usage.value.cached == f.usage.value.cached
  }

  lemma SameRow(a: seq<Event>, b: seq<Event>, id: string)
    requires (forall e :: e in a <==> e in b) && LinesAgree(a)
    ensures Best(a, id) == Best(b, id)
  {
    BestIsLargest(a, id);
    BestIsLargest(b, id);
    if Best(a, id).Some? && Best(b, id).Some? {
      var e :| e in a && Names(e, id) && e.usage == Best(a, id);
      var f :| f in b && Names(f, id) && f.usage == Best(b, id);
      assert e.usage.value == f.usage.value;
    }
  }

  lemma {:induction false} IdsDistinct(es: seq<Event>)
    ensures Distinct(Ids(es))
  {
    if es == [] {
    } else {
      IdsDistinct(es[..|es| - 1]);
    }
  }

  lemma {:induction false} SumBestJoin(es: seq<Event>, x: seq<string>, y: seq<string>, c: Column)
    ensures SumBest(es, x + y, c) == SumBest(es, x, c) + SumBest(es, y, c)
    decreases |y|
  {
    if y == [] {
      assert x + y == x;
    } else {
      assert (x + y)[..|x + y| - 1] == x + y[..|y| - 1];
      SumBestJoin(es, x, y[..|y| - 1], c);
    }
  }

  lemma SumBestRemove(es: seq<Event>, x: seq<string>, i: nat, c: Column)
    requires i < |x|
    ensures SumBest(es, x, c) == SumBest(es, x[..i] + x[i + 1..], c) + RowAmount(Best(es, x[i]), c)
  {
    SumBestJoin(es, x[..i], x[i + 1..], c);
    SumBestJoin(es, x[..i + 1], x[i + 1..], c);
    assert x[..i + 1] + x[i + 1..] == x && x[..i + 1][..i] == x[..i];
  }

  lemma {:induction false} SumBestOfSet(a: seq<Event>, b: seq<Event>, x: seq<string>, y: seq<string>, c: Column)
    requires Distinct(x) && Distinct(y) && (forall s :: s in x <==> s in y)
    requires forall id :: id in x ==> Best(a, id) == Best(b, id)
    ensures SumBest(a, x, c) == SumBest(b, y, c)
  {
    assert forall i :: 0 <= i < |y| ==> y[i] in y;
    if x == [] {
    } else {
      var before, last := x[..|x| - 1], x[|x| - 1];
      assert last in x && last in y;
      var i :| 0 <= i < |y| && y[i] == last;
      SumBestRemove(b, y, i, c);
      RestHas(x, y, i);
      SumBestOfSet(a, b, before, y[..i] + y[i + 1..], c);
    }
  }

  function NamelessRow(e: Event, c: Column): nat {
    if Nameless(e) then Amount(e.usage.value, c) else 0
  }

  lemma {:induction false} SumNamelessJoin(x: seq<Event>, y: seq<Event>, c: Column)
    ensures SumNameless(x + y, c) == SumNameless(x, c) + SumNameless(y, c)
    decreases |y|
  {
    if y == [] {
      assert x + y == x;
    } else {
      assert (x + y)[..|x + y| - 1] == x + y[..|y| - 1];
      SumNamelessJoin(x, y[..|y| - 1], c);
    }
  }

  lemma SumNamelessRemove(x: seq<Event>, i: nat, c: Column)
    requires i < |x|
    ensures SumNameless(x, c) == SumNameless(x[..i] + x[i + 1..], c) + NamelessRow(x[i], c)
  {
    SumNamelessJoin(x[..i], x[i + 1..], c);
    SumNamelessJoin(x[..i + 1], x[i + 1..], c);
    assert x[..i + 1] + x[i + 1..] == x && x[..i + 1][..i] == x[..i];
  }

  lemma {:induction false} SumNamelessPermuted(a: seq<Event>, b: seq<Event>, c: Column)
    requires multiset(a) == multiset(b)
    ensures SumNameless(a, c) == SumNameless(b, c)
  {
    assert |multiset(a)| == |a| && |multiset(b)| == |b|;
    if a == [] {
    } else {
      var i := PermutationRest(a, b);
      SumNamelessRemove(b, i, c);
      SumNamelessPermuted(a[..|a| - 1], b[..i] + b[i + 1..], c);
    }
  }

  /** A session without a result: its lines in any order give the same usage, each message counted
      once with its largest output, when lines of one message agree on what was read. */
  lemma OrderIrrelevant(a: seq<Event>, b: seq<Event>)
    requires multiset(a) == multiset(b) && LinesAgree(a)
    requires LastResult(a).None? && LastResult(b).None?
    ensures Total(a) == Total(b)
  {
    SamePermutationElements(a, b);
    forall id ensures Best(a, id) == Best(b, id) { SameRow(a, b, id); }
    IdsDistinct(a);
    IdsDistinct(b);
    assert forall id :: id in Ids(a) <==> id in Ids(b);
    forall c: Column ensures Reconstructed(a, c) == Reconstructed(b, c) {
      SumBestOfSet(a, b, Ids(a), Ids(b), c);
      SumNamelessPermuted(a, b, c);
    }
  }

  // ---- the same, line by line

  /** Both lines belong to one named message. */
  predicate SameMessage(e: Event, f: Event) {
    e.Assistant? && f.Assistant? && e.usage.Some? && f.usage.Some? && e.id == f.id && e.id != ""
  }

  /** Line i counts: a line without a message, or the first of its message's lines with the most output. */
  predicate Counts(es: seq<Event>, i: int) {
    && 0 <= i < |es| && es[i].Assistant? && es[i].usage.Some?
    && forall j :: 0 <= j < |es| && j != i && SameMessage(es[i], es[j]) ==>
         if j < i then es[j].usage.value.output < es[i].usage.value.output
         else es[j].usage.value.output <= es[i].usage.value.output
  }

  /** The column added up over the marked lines. */
  function SumMarked(es: seq<Event>, marks: seq<bool>, c: Column): nat
    requires |marks| == |es|
  {
    if es == [] then 0
    else
      var n := |es| - 1;
      SumMarked(es[..n], marks[..n], c)
      + if marks[n] && !es[n].Other? && es[n].usage.Some? then Amount(es[n].usage.value, c) else 0
  }

  predicate Marks(es: seq<Event>, marks: seq<bool>) {
    |marks| == |es| && forall i :: 0 <= i < |es| ==> (marks[i] <==> Counts(es, i))
  }

  function MarksOf(es: seq<Event>): (marks: seq<bool>)
    ensures Marks(es, marks)
  {
    seq(|es|, i requires 0 <= i < |es| => Counts(es, i))
  }

  /** The line whose row is kept for the message. */
  lemma {:induction false} BestAt(es: seq<Event>, id: string) returns (i: int)
    requires id != ""
    ensures Best(es, id).Some? ==> Counts(es, i) && es[i].id == id && es[i].usage == Best(es, id)
    ensures Best(es, id).None? ==> forall j :: 0 <= j < |es| ==> !Names(es[j], id)
  {
    if es == [] {
      i := -1;
    } else {
      var before, last := es[..|es| - 1], es[|es| - 1];
      i := BestAt(before, id);
      BestIsLargest(before, id);
      assert forall j :: 0 <= j < |before| ==> before[j] == es[j];
      if Names(last, id) && (Best(before, id).None? || last.usage.value.output > Best(before, id).value.output) {
        i := |es| - 1;
        forall j | 0 <= j < |before| && SameMessage(es[i], es[j])
          ensures es[j].usage.value.output < es[i].usage.value.output
        {
          assert before[j] in before && Names(before[j], id);
        }
      }
    }
  }

  /** A line goes on counting until a later one of its message has more output. */
  lemma CountsBefore(before: seq<Event>, e: Event, i: int)
    requires 0 <= i < |before|
    ensures Counts(before + [e], i)
       <==> && Counts(before, i)
            && (SameMessage(before[i], e) ==> e.usage.value.output <= before[i].usage.value.output)
  {
    var es := before + [e];
    assert es[|before|] == e && forall j :: 0 <= j < |before| ==> es[j] == before[j];
    if Counts(es, i) {
      forall j | 0 <= j < |before| && j != i && SameMessage(before[i], before[j])
        ensures if j < i then before[j].usage.value.output < before[i].usage.value.output
                else before[j].usage.value.output <= before[i].usage.value.output
      {
        assert SameMessage(es[i], es[j]);
      }
    }
  }

  lemma CountsOnce(es: seq<Event>, i: int, j: int)
    requires Counts(es, i) && Counts(es, j) && SameMessage(es[i], es[j])
    ensures i == j
  {
  }

  lemma {:induction false} SumUnmarked(es: seq<Event>, marks: seq<bool>, i: nat, c: Column)
    requires |marks| == |es| && i < |es| && marks[i] && es[i].Assistant? && es[i].usage.Some?
    ensures SumMarked(es, marks, c) == SumMarked(es, marks[i := false], c) + Amount(es[i].usage.value, c)
  {
    var n := |es| - 1;
    if i == n {
      assert marks[i := false][..n] == marks[..n];
    } else {
      assert marks[i := false][..n] == marks[..n][i := false];
      SumUnmarked(es[..n], marks[..n], i, c);
    }
  }

  lemma {:induction false} SumBestFrame(before: seq<Event>, e: Event, ids: seq<string>, c: Column)
    requires forall id :: id in ids ==> Best(before + [e], id) == Best(before, id)
    ensures SumBest(before + [e], ids, c) == SumBest(before, ids, c)
  {
    if ids == [] {
    } else {
      var n := |ids| - 1;
      assert ids[n] in ids && forall id :: id in ids[..n] ==> id in ids;
      SumBestFrame(before, e, ids[..n], c);
    }
  }

  lemma SumMarkedAppend(before: seq<Event>, e: Event, marks: seq<bool>, x: bool, c: Column)
    requires |marks| == |before|
    ensures SumMarked(before + [e], marks + [x], c)
         == SumMarked(before, marks, c) + if x && !e.Other? && e.usage.Some? then Amount(e.usage.value, c) else 0
  {
    assert (before + [e])[..|before|] == before && (marks + [x])[..|before|] == marks;
  }

  /** A line that is no message's, or not a line at all. */
  lemma CountPlain(before: seq<Event>, e: Event, marks: seq<bool>, c: Column)
    requires Marks(before, marks) && Reconstructed(before, c) == SumMarked(before, marks, c)
    requires !(e.Assistant? && Names(e, e.id))
    ensures Marks(before + [e], marks + [Nameless(e)])
    ensures Reconstructed(before + [e], c) == SumMarked(before + [e], marks + [Nameless(e)], c)
  {
    var es := before + [e];
    assert es[..|before|] == before;
    forall i | 0 <= i < |before| ensures Counts(es, i) <==> Counts(before, i) { CountsBefore(before, e, i); }
    assert Counts(es, |before|) <==> Nameless(e);
    forall id ensures Best(es, id) == Best(before, id) { }
    SumBestFrame(before, e, Ids(before), c);
    SumMarkedAppend(before, e, marks, Nameless(e), c);
  }

  lemma MarksAfterNew(before: seq<Event>, e: Event, marks: seq<bool>)
    requires Marks(before, marks) && e.Assistant? && Names(e, e.id) && Best(before, e.id).None?
    ensures Marks(before + [e], marks + [true])
  {
    var es := before + [e];
    var none := BestAt(before, e.id);
    assert forall j :: 0 <= j < |before| ==> es[j] == before[j] && !Names(before[j], e.id);
    forall i | 0 <= i < |before| ensures Counts(es, i) <==> Counts(before, i) { CountsBefore(before, e, i); }
    assert Counts(es, |before|);
  }

  lemma RowsAfterNew(before: seq<Event>, e: Event, c: Column)
    requires e.Assistant? && Names(e, e.id) && Best(before, e.id).None?
    ensures SumBest(before + [e], Ids(before + [e]), c)
         == SumBest(before, Ids(before), c) + Amount(e.usage.value, c)
    ensures SumNameless(before + [e], c) == SumNameless(before, c)
  {
    var es, ids := before + [e], Ids(before);
    assert es[..|before|] == before;
    assert (ids + [e.id])[..|ids|] == ids;
    SumBestFrame(before, e, ids, c);
  }

  /** The first line of a message. */
  lemma CountNew(before: seq<Event>, e: Event, marks: seq<bool>, c: Column)
    requires Marks(before, marks) && Reconstructed(before, c) == SumMarked(before, marks, c)
    requires e.Assistant? && Names(e, e.id) && Best(before, e.id).None?
    ensures Marks(before + [e], marks + [true])
    ensures Reconstructed(before + [e], c) == SumMarked(before + [e], marks + [true], c)
  {
    MarksAfterNew(before, e, marks);
    RowsAfterNew(before, e, c);
    SumMarkedAppend(before, e, marks, true, c);
  }

  /** A further line with no more output. */
  lemma CountSmaller(before: seq<Event>, e: Event, marks: seq<bool>, c: Column)
    requires Marks(before, marks) && Reconstructed(before, c) == SumMarked(before, marks, c)
    requires e.Assistant? && Names(e, e.id) && Best(before, e.id).Some?
    requires e.usage.value.output <= Best(before, e.id).value.output
    ensures Marks(before + [e], marks + [false])
    ensures Reconstructed(before + [e], c) == SumMarked(before + [e], marks + [false], c)
  {
    var es := before + [e];
    assert es[..|before|] == before;
    var p := BestAt(before, e.id);
    assert SameMessage(es[|before|], es[p]);
    forall i | 0 <= i < |before| ensures Counts(es, i) <==> Counts(before, i) {
      CountsBefore(before, e, i);
      if Counts(before, i) && SameMessage(before[i], e) { CountsOnce(before, i, p); }
    }
    assert !Counts(es, |before|);
    SumBestFrame(before, e, Ids(before), c);
    SumMarkedAppend(before, e, marks, false, c);
  }

  lemma LargestCounts(before: seq<Event>, e: Event)
    requires e.Assistant? && Names(e, e.id) && Best(before, e.id).Some?
    requires e.usage.value.output > Best(before, e.id).value.output
    ensures Counts(before + [e], |before|)
  {
    var es := before + [e];
    BestIsLargest(before, e.id);
    forall j | 0 <= j < |before| && SameMessage(e, es[j]) ensures es[j].usage.value.output < e.usage.value.output {
      assert es[j] == before[j] && before[j] in before && Names(before[j], e.id);
    }
  }

  /** The line that counted before a larger one came. */
  lemma MarksAfterLarger(before: seq<Event>, e: Event, marks: seq<bool>, p: int)
    requires Marks(before, marks) && e.Assistant? && Names(e, e.id) && Best(before, e.id).Some?
    requires e.usage.value.output > Best(before, e.id).value.output
    requires Counts(before, p) && before[p].id == e.id && before[p].usage == Best(before, e.id)
    ensures Marks(before + [e], marks[p := false] + [true])
  {
    var es, after := before + [e], marks[p := false] + [true];
    forall i | 0 <= i < |before| ensures after[i] <==> Counts(es, i) {
      CountsBefore(before, e, i);
      if Counts(before, i) && SameMessage(before[i], e) { CountsOnce(before, i, p); }
    }
    LargestCounts(before, e);
  }

  lemma RowsAfterLarger(before: seq<Event>, e: Event, c: Column)
    requires e.Assistant? && Names(e, e.id) && Best(before, e.id).Some?
    requires e.usage.value.output > Best(before, e.id).value.output
    ensures SumBest(before + [e], Ids(before + [e]), c) + Amount(Best(before, e.id).value, c)
         == SumBest(before, Ids(before), c) + Amount(e.usage.value, c)
  {
    var es, ids := before + [e], Ids(before);
    assert es[..|before|] == before;
    assert e.id in ids;
    IdsDistinct(before);
    var k :| 0 <= k < |ids| && ids[k] == e.id;
    var rest := ids[..k] + ids[k + 1..];
    SumBestRemove(before, ids, k, c);
    SumBestRemove(es, ids, k, c);
    forall id | id in rest ensures Best(es, id) == Best(before, id) { assert id != e.id; }
    SumBestFrame(before, e, rest, c);
  }

  /** A further line with more output takes over. */
  lemma CountLarger(before: seq<Event>, e: Event, marks: seq<bool>, c: Column) returns (after: seq<bool>)
    requires Marks(before, marks) && Reconstructed(before, c) == SumMarked(before, marks, c)
    requires e.Assistant? && Names(e, e.id) && Best(before, e.id).Some?
    requires e.usage.value.output > Best(before, e.id).value.output
    ensures Marks(before + [e], after) && Reconstructed(before + [e], c) == SumMarked(before + [e], after, c)
  {
    var es := before + [e];
    assert es[..|before|] == before;
    var p := BestAt(before, e.id);
    after := marks[p := false] + [true];
    MarksAfterLarger(before, e, marks, p);
    RowsAfterLarger(before, e, c);
    SumUnmarked(before, marks, p, c);
    SumMarkedAppend(before, e, marks[p := false], true, c);
  }

  /** The reconstruction adds up exactly the lines that count. */
  lemma {:induction false} ReconstructedByLines(es: seq<Event>, marks: seq<bool>, c: Column)
    requires Marks(es, marks)
    ensures Reconstructed(es, c) == SumMarked(es, marks, c)
  {
    if es == [] {
    } else {
      var before, e := es[..|es| - 1], es[|es| - 1];
      var marked, after := MarksOf(before), marks;
      assert es == before + [e];
      ReconstructedByLines(before, marked, c);
      if !(e.Assistant? && Names(e, e.id)) {
        CountPlain(before, e, marked, c);
        after := marked + [Nameless(e)];
      } else if Best(before, e.id).None? {
        CountNew(before, e, marked, c);
        after := marked + [true];
      } else if e.usage.value.output <= Best(before, e.id).value.output {
        CountSmaller(before, e, marked, c);
        after := marked + [false];
      } else {
        after := CountLarger(before, e, marked, c);
      }
      assert after == marks;
    }
  }

  /** Result i carries a usage, and no later one does. */
  predicate FinalResult(es: seq<Event>, i: int) {
    && 0 <= i < |es| && es[i].Result? && es[i].usage.Some?
    && forall j :: i < j < |es| ==> !(es[j].Result? && es[j].usage.Some?)
  }

  lemma {:induction false} LastResultAt(es: seq<Event>) returns (i: int)
    ensures LastResult(es).Some? ==> FinalResult(es, i) && es[i].usage == LastResult(es)
    ensures LastResult(es).None? ==> forall j :: 0 <= j < |es| ==> !(es[j].Result? && es[j].usage.Some?)
  {
    if es == [] {
      i := -1;
    } else {
      var before, last := es[..|es| - 1], es[|es| - 1];
      assert forall j :: 0 <= j < |before| ==> before[j] == es[j];
      i := LastResultAt(before);
      if last.Result? && last.usage.Some? { i := |es| - 1; }
    }
  }

  /** The usage of the marked lines, added up field by field. */
  function MarkedUsage(es: seq<Event>, marks: seq<bool>): Usage
    requires |marks| == |es|
  {
    if es == [] then Usage(0, 0, 0)
    else
      var n := |es| - 1;
      var sum, e := MarkedUsage(es[..n], marks[..n]), es[n];
      if marks[n] && !e.Other? && e.usage.Some?
      then Usage(sum.input + e.usage.value.input, sum.output + e.usage.value.output, sum.cached + e.usage.value.cached)
      else sum
  }

  lemma {:induction false} MarkedByColumn(es: seq<Event>, marks: seq<bool>)
    requires |marks| == |es|
    ensures MarkedUsage(es, marks)
         == Usage(SumMarked(es, marks, Input), SumMarked(es, marks, Output), SumMarked(es, marks, Cached))
  {
    if es == [] {
    } else {
      var n := |es| - 1;
      MarkedByColumn(es[..n], marks[..n]);
    }
  }

  /** The usage of a session: that of its last result and, only when there is none, the sum of the lines that
      count, each message once with the first of its largest. */
  lemma UsageByLines(es: seq<Event>, marks: seq<bool>)
    requires Marks(es, marks)
    ensures forall i :: FinalResult(es, i) ==> Total(es) == es[i].usage.value
    ensures (forall i :: !FinalResult(es, i)) ==> Total(es) == MarkedUsage(es, marks)
  {
    var i := LastResultAt(es);
    forall j | FinalResult(es, j) ensures j == i && LastResult(es).Some? { }
    ReconstructedByLines(es, marks, Input);
    ReconstructedByLines(es, marks, Output);
    ReconstructedByLines(es, marks, Cached);
    MarkedByColumn(es, marks);
  }
}
