/** GitHub spend measured from the server's own `used` counters (`advance_used_cursor`): one mark per
    (resource, reset) window, pruned to within an hour of the newest reset of the resource. */
module UsedCursor {
  import opened Sorting

  /** How far behind the newest reset a window may be and still keep its mark, in seconds. */
  const WINDOW_SECONDS := 3600

  datatype Window = Window(resource: string, reset: int)

  datatype Mark = Mark(window: Window, used: int)

  datatype Sample = Sample(resource: string, used: Option<int>, reset: Option<int>)

  function Find(marks: seq<Mark>, w: Window): (r: Option<Mark>)
    ensures r.Some? ==> r.value in marks && r.value.window == w
    ensures r.None? ==> forall m :: m in marks ==> m.window != w
  {
    if marks == [] then None
    else
      assert forall m :: m in marks <==> m == marks[0] || m in marks[1..];
      if marks[0].window == w then Some(marks[0]) else Find(marks[1..], w)
  }

  /** `max(m.reset_epoch for m in marks if m.resource == resource)`, or None over nothing. */
  function NewestMark(marks: seq<Mark>, resource: string): (r: Option<int>)
    ensures r.Some? ==> exists m :: m in marks && m.window == Window(resource, r.value)
    ensures forall m :: m in marks && m.window.resource == resource ==> r.Some? && m.window.reset <= r.value
  {
    if marks == [] then None
    else
      assert forall m :: m in marks <==> m == marks[0] || m in marks[1..];
      var rest := NewestMark(marks[1..], resource);
      var m := marks[0];
      if m.window.resource != resource then rest
      else
        assert m.window == Window(resource, m.window.reset);
        if rest.None? || rest.value < m.window.reset then Some(m.window.reset) else rest
  }

  function Replace(marks: seq<Mark>, w: Window, used: int): (r: seq<Mark>)
    ensures r != [] && r[|r| - 1] == Mark(w, used)
    ensures forall m :: m in r <==> m == Mark(w, used) || (m in marks && m.window != w)
  {
    Filter(marks, (m: Mark) => m.window != w) + [Mark(w, used)]
  }

  /** Drop the resource's marks that are over an hour behind its newest. */
  function Prune(marks: seq<Mark>, resource: string): (r: seq<Mark>)
    requires NewestMark(marks, resource).Some?
  {
    var cutoff := NewestMark(marks, resource).value - WINDOW_SECONDS;
    Filter(marks, (m: Mark) => m.window.resource != resource || m.window.reset >= cutoff)
  }

  /** The marks after the sample, and the points spent since the last sighting of its window. */
  function Advance(marks: seq<Mark>, s: Sample): (seq<Mark>, int) {
    if s.used.None? || s.reset.None? then (marks, 0)
    else
      var w := Window(s.resource, s.reset.value);
      var current := Find(marks, w);
      if current.Some? && s.used.value <= current.value.used then (marks, 0)
      else
        (Prune(Replace(marks, w, s.used.value), s.resource),
         if current.None? then 0 else s.used.value - current.value.used)
  }

  // ---- what a run of samples says about one window, without any cursor

  predicate Sights(s: Sample, w: Window) {
    s.used.Some? && s.reset.Some? && Window(s.resource, s.reset.value) == w
  }

  predicate Seen(samples: seq<Sample>, w: Window) {
    samples != [] && (Sights(samples[|samples| - 1], w) || Seen(samples[..|samples| - 1], w))
  }

  /** The `used` of the first sample of the window. */
  function FirstUsed(samples: seq<Sample>, w: Window): int
    requires Seen(samples, w)
  {
    var before, last := samples[..|samples| - 1], samples[|samples| - 1];
    if Seen(before, w) then FirstUsed(before, w) else last.used.value
  }

  /** The largest `used` reported for the window. */
  function MaxUsed(samples: seq<Sample>, w: Window): int
    requires Seen(samples, w)
  {
    var before, last := samples[..|samples| - 1], samples[|samples| - 1];
    if !Seen(before, w) then last.used.value
    else if Sights(last, w) && last.used.value > MaxUsed(before, w) then last.used.value
    else MaxUsed(before, w)
  }

  /** The latest reset any metered sample of the resource carried. */
  function NewestSeen(samples: seq<Sample>, resource: string): Option<int> {
    if samples == [] then None
    else
      var before, last := NewestSeen(samples[..|samples| - 1], resource), samples[|samples| - 1];
      if last.used.None? || last.reset.None? || last.resource != resource then before
      else if before.None? || before.value < last.reset.value then Some(last.reset.value)
      else before
  }

  /** The window is within an hour of the newest reset of its resource. */
  predicate Live(samples: seq<Sample>, w: Window) {
    var newest := NewestSeen(samples, w.resource);
    newest.Some? ==> newest.value - 3600 <= w.reset
  }

  // ---- runs

  function Marks(samples: seq<Sample>): seq<Mark> {
    if samples == [] then [] else Advance(Marks(samples[..|samples| - 1]), samples[|samples| - 1]).0
  }

  /** Points the run has counted for the window. */
  function Counted(samples: seq<Sample>, w: Window): int {
    if samples == [] then 0
    else
      var before, last := samples[..|samples| - 1], samples[|samples| - 1];
      Counted(before, w) + (if Sights(last, w) then Advance(Marks(before), last).1 else 0)
  }

  ghost predicate OneMarkPerWindow(marks: seq<Mark>) {
    forall i, j :: 0 <= i < j < |marks| ==> marks[i].window != marks[j].window
  }

  lemma {:induction false} FilterKeepsWindowsApart(marks: seq<Mark>, keep: Mark -> bool)
    requires OneMarkPerWindow(marks)
    ensures OneMarkPerWindow(Filter(marks, keep))
  {
    if marks == [] {
    } else {
      FilterKeepsWindowsApart(marks[1..], keep);
      var rest := Filter(marks[1..], keep);
      forall j | 0 <= j < |rest| ensures rest[j].window != marks[0].window {
        assert rest[j] in rest;
      }
    }
  }

  lemma AddedWindowsApart(marks: seq<Mark>, m: Mark)
    requires OneMarkPerWindow(marks) && forall x :: x in marks ==> x.window != m.window
    ensures OneMarkPerWindow(marks + [m])
  {
  }

  lemma {:induction false} ReplaceKeepsApart(marks: seq<Mark>, w: Window, used: int)
    requires OneMarkPerWindow(marks)
    ensures OneMarkPerWindow(Replace(marks, w, used))
  {
    FilterKeepsWindowsApart(marks, (m: Mark) => m.window != w);
    AddedWindowsApart(Filter(marks, (m: Mark) => m.window != w), Mark(w, used));
  }

  lemma {:induction false} PruneKeepsApart(marks: seq<Mark>, resource: string)
    requires OneMarkPerWindow(marks) && NewestMark(marks, resource).Some?
    ensures OneMarkPerWindow(Prune(marks, resource))
  {
    var cutoff := NewestMark(marks, resource).value - WINDOW_SECONDS;
    FilterKeepsWindowsApart(marks, (m: Mark) => m.window.resource != resource || m.window.reset >= cutoff);
  }

  lemma {:induction false} AdvanceKeepsApart(marks: seq<Mark>, s: Sample)
    requires OneMarkPerWindow(marks)
    ensures OneMarkPerWindow(Advance(marks, s).0)
  {
    if s.used.Some? && s.reset.Some? {
      var w := Window(s.resource, s.reset.value);
      ReplaceKeepsApart(marks, w, s.used.value);
      PruneKeepsApart(Replace(marks, w, s.used.value), s.resource);
    }
  }

  lemma {:induction false} WindowsAreUnique(samples: seq<Sample>)
    ensures OneMarkPerWindow(Marks(samples))
  {
    if samples == [] {
    } else {
      WindowsAreUnique(samples[..|samples| - 1]);
      AdvanceKeepsApart(Marks(samples[..|samples| - 1]), samples[|samples| - 1]);
    }
  }

  ghost predicate MarkExact(samples: seq<Sample>, m: Mark) {
    Seen(samples, m.window) && Live(samples, m.window) && m.used == MaxUsed(samples, m.window)
  }

  ghost predicate Marked(marks: seq<Mark>, w: Window) {
    exists u :: Mark(w, u) in marks
  }

  /** A mark is kept exactly for the live windows seen so far, and holds the largest `used` seen. */
  ghost predicate Exact(samples: seq<Sample>, marks: seq<Mark>) {
    && (forall m :: m in marks ==> MarkExact(samples, m))
    && (forall w :: Seen(samples, w) && Live(samples, w) ==> Marked(marks, w))
    && (forall r :: NewestMark(marks, r) == NewestSeen(samples, r))
  }

  lemma SeenBoundsNewest(samples: seq<Sample>, w: Window)
    requires Seen(samples, w)
    ensures NewestSeen(samples, w.resource).Some? && w.reset <= NewestSeen(samples, w.resource).value
  {
    if Sights(samples[|samples| - 1], w) {
    } else {
      SeenBoundsNewest(samples[..|samples| - 1], w);
    }
  }

  lemma RepeatKeepsExact(samples: seq<Sample>, marks: seq<Mark>, s: Sample, w: Window, u: int)
    requires Exact(samples, marks) && Sights(s, w) && Mark(w, u) in marks && s.used.value <= u
    ensures Exact(samples + [s], marks)
  {
    var after := samples + [s];
    assert after[..|samples|] == samples;
    assert MarkExact(samples, Mark(w, u));
    SeenBoundsNewest(samples, w);
    assert forall r :: NewestSeen(after, r) == NewestSeen(samples, r);
    forall m | m in marks ensures MarkExact(after, m) { assert MarkExact(samples, m); }
  }

  lemma UnmeteredKeepsExact(samples: seq<Sample>, marks: seq<Mark>, s: Sample)
    requires Exact(samples, marks) && (s.used.None? || s.reset.None?)
    ensures Exact(samples + [s], marks)
  {
    var after := samples + [s];
    assert after[..|samples|] == samples;
    assert forall r :: NewestSeen(after, r) == NewestSeen(samples, r);
    forall m | m in marks ensures MarkExact(after, m) { assert MarkExact(samples, m); }
  }

  lemma NewestIs(marks: seq<Mark>, m: Mark)
    requires m in marks
    requires forall x :: x in marks && x.window.resource == m.window.resource ==> x.window.reset <= m.window.reset
    ensures NewestMark(marks, m.window.resource) == Some(m.window.reset)
  {
  }

  lemma AddingUpdatesNewest(marks: seq<Mark>, w: Window, u: int, r: string)
    ensures var before := NewestMark(marks, r);
            NewestMark(Replace(marks, w, u), r)
            == if r == w.resource && (before.None? || before.value < w.reset) then Some(w.reset) else before
  {
    var added, before := Replace(marks, w, u), NewestMark(marks, r);
    if r == w.resource && (before.None? || before.value < w.reset) {
      NewestIs(added, Mark(w, u));
    } else if before.Some? {
      var m :| m in marks && m.window == Window(r, before.value);
      NewestIs(added, if m.window == w then Mark(w, u) else m);
    }
  }

  lemma PruningKeepsNewest(marks: seq<Mark>, resource: string, r: string)
    requires NewestMark(marks, resource).Some?
    ensures NewestMark(Prune(marks, resource), r) == NewestMark(marks, r)
  {
    var before := NewestMark(marks, r);
    if before.Some? {
      var m :| m in marks && m.window == Window(r, before.value);
      assert m in Prune(marks, resource);
      NewestIs(Prune(marks, resource), m);
    }
  }

  lemma AcceptedNewest(samples: seq<Sample>, marks: seq<Mark>, s: Sample, w: Window)
    requires Exact(samples, marks) && Sights(s, w)
    ensures forall r :: NewestMark(Replace(marks, w, s.used.value), r) == NewestSeen(samples + [s], r)
  {
    assert (samples + [s])[..|samples|] == samples;
    forall r ensures NewestMark(Replace(marks, w, s.used.value), r) == NewestSeen(samples + [s], r) {
      AddingUpdatesNewest(marks, w, s.used.value, r);
    }
  }

  lemma AcceptedMark(samples: seq<Sample>, marks: seq<Mark>, s: Sample, w: Window)
    requires Exact(samples, marks) && Sights(s, w) && Live(samples + [s], w)
    requires forall u :: Mark(w, u) in marks ==> u < s.used.value
    ensures MarkExact(samples + [s], Mark(w, s.used.value))
  {
    assert (samples + [s])[..|samples|] == samples;
    if Seen(samples, w) {
      assert Live(samples, w);
      var u :| Mark(w, u) in marks;
      assert MarkExact(samples, Mark(w, u));
    }
  }

  lemma OtherMark(samples: seq<Sample>, m: Mark, s: Sample)
    requires MarkExact(samples, m) && !Sights(s, m.window) && Live(samples + [s], m.window)
    ensures MarkExact(samples + [s], m)
  {
    assert (samples + [s])[..|samples|] == samples;
  }

  lemma AcceptedKeepsExact(samples: seq<Sample>, marks: seq<Mark>, s: Sample, w: Window)
    requires Exact(samples, marks) && Sights(s, w)
    requires forall u :: Mark(w, u) in marks ==> u < s.used.value
    ensures Exact(samples + [s], Prune(Replace(marks, w, s.used.value), s.resource))
  {
    var after := samples + [s];
    assert after[..|samples|] == samples;
    var added := Replace(marks, w, s.used.value);
    assert added[|added| - 1] == Mark(w, s.used.value);
    AcceptedNewest(samples, marks, s, w);
    var kept := Prune(added, s.resource);
    forall r ensures NewestMark(kept, r) == NewestSeen(after, r) { PruningKeepsNewest(added, s.resource, r); }
    forall m | m in kept ensures MarkExact(after, m) {
      if m.window == w {
        AcceptedMark(samples, marks, s, w);
      } else {
        OtherMark(samples, m, s);
      }
    }
    forall x | Seen(after, x) && Live(after, x) ensures Marked(kept, x) {
      if x == w {
        assert Mark(w, s.used.value) in kept;
      } else {
        assert Live(samples, x) && Seen(samples, x);
        var u :| Mark(x, u) in marks;
        assert Mark(x, u) in kept;
      }
    }
  }

  /** After any samples the cursor is exact: pruning never loses a live window, and a window once
      out of date never gets a mark again, because the newest reset only grows. */
  lemma {:induction false} CursorIsExact(samples: seq<Sample>)
    ensures Exact(samples, Marks(samples))
  {
    if samples == [] {
    } else {
      var before, s := samples[..|samples| - 1], samples[|samples| - 1];
      CursorIsExact(before);
      assert before + [s] == samples;
      if s.used.None? || s.reset.None? {
        UnmeteredKeepsExact(before, Marks(before), s);
      } else {
        var w := Window(s.resource, s.reset.value);
        var current := Find(Marks(before), w);
        if current.Some? && s.used.value <= current.value.used {
          RepeatKeepsExact(before, Marks(before), s, w, current.value.used);
        } else {
          WindowsAreUnique(before);
          AcceptedKeepsExact(before, Marks(before), s, w);
        }
      }
    }
  }

  // ---- the telescoping sum

  /** Length of the longest prefix after which the window was still live. */
  function LiveUntil(samples: seq<Sample>, w: Window): (n: nat)
    ensures n <= |samples|
  {
    if samples == [] then 0
    else if Live(samples, w) then |samples|
    else LiveUntil(samples[..|samples| - 1], w)
  }

  /** Points for one window: its last retained `used` less the first one, nothing if it was never
      retained. */
  function Telescoped(samples: seq<Sample>, w: Window): int {
    var kept := samples[..LiveUntil(samples, w)];
    if Seen(kept, w) then MaxUsed(kept, w) - FirstUsed(kept, w) else 0
  }

  lemma LiveEarlier(before: seq<Sample>, s: Sample, w: Window)
    requires Live(before + [s], w)
    ensures Live(before, w)
  {
    assert (before + [s])[..|before|] == before;
  }

  lemma OutdatedCountsNothing(before: seq<Sample>, s: Sample, w: Window)
    requires Exact(before, Marks(before)) && !Live(before + [s], w) && Sights(s, w)
    ensures Advance(Marks(before), s).1 == 0
  {
    assert (before + [s])[..|before|] == before;
    forall m | m in Marks(before) ensures m.window != w { assert MarkExact(before, m); }
  }

  /** What the telescoped sum gains with one sample of a live window. */
  function Gain(before: seq<Sample>, s: Sample, w: Window): int
    requires Seen(before + [s], w)
  {
    if Seen(before, w) then MaxUsed(before + [s], w) - MaxUsed(before, w) else 0
  }

  lemma {:induction false} TelescopedLive(samples: seq<Sample>, w: Window)
    requires Live(samples, w)
    ensures Telescoped(samples, w) == if Seen(samples, w) then MaxUsed(samples, w) - FirstUsed(samples, w) else 0
  {
    assert samples[..|samples|] == samples;
  }

  lemma {:induction false} FirstStays(before: seq<Sample>, s: Sample, w: Window)
    requires Seen(before, w)
    ensures Seen(before + [s], w) && FirstUsed(before + [s], w) == FirstUsed(before, w)
  {
    assert (before + [s])[..|before|] == before;
  }

  lemma {:induction false} UnsightedStays(before: seq<Sample>, s: Sample, w: Window)
    requires !Sights(s, w)
    ensures Seen(before + [s], w) == Seen(before, w)
    ensures Seen(before, w) ==> MaxUsed(before + [s], w) == MaxUsed(before, w)
  {
    assert (before + [s])[..|before|] == before;
  }

  lemma {:induction false} FirstSighting(before: seq<Sample>, s: Sample, w: Window)
    requires Sights(s, w)
    ensures Seen(before + [s], w)
    ensures !Seen(before, w) ==> MaxUsed(before + [s], w) == FirstUsed(before + [s], w)
  {
    assert (before + [s])[..|before|] == before;
  }

  lemma {:induction false} TelescopedGrows(before: seq<Sample>, s: Sample, w: Window)
    requires Live(before, w) && Live(before + [s], w)
    ensures Sights(s, w) ==>
      Seen(before + [s], w) && Telescoped(before + [s], w) == Telescoped(before, w) + Gain(before, s, w)
    ensures !Sights(s, w) ==> Telescoped(before + [s], w) == Telescoped(before, w)
  {
    TelescopedLive(before, w);
    TelescopedLive(before + [s], w);
    if Seen(before, w) { FirstStays(before, s, w); }
    if Sights(s, w) {
      FirstSighting(before, s, w);
    } else {
      UnsightedStays(before, s, w);
    }
  }

  lemma {:induction false} TelescopedStops(before: seq<Sample>, s: Sample, w: Window)
    requires !Live(before + [s], w)
    ensures Telescoped(before + [s], w) == Telescoped(before, w)
  {
    var after, n := before + [s], LiveUntil(before, w);
    assert after[..|after| - 1] == before;
    assert after[..n] == before[..n];
  }

  /** One sample of a live window counts what its `used` adds to the largest seen so far. */
  lemma {:induction false} PointsOfSample(before: seq<Sample>, s: Sample, w: Window)
    requires Exact(before, Marks(before)) && Live(before, w) && Live(before + [s], w)
    requires Sights(s, w)
    ensures Seen(before + [s], w)
    ensures Advance(Marks(before), s).1 == Gain(before, s, w)
  {
    assert (before + [s])[..|before|] == before;
    var current := Find(Marks(before), w);
    assert current.Some? ==> MarkExact(before, current.value);
    assert Seen(before, w) ==> Marked(Marks(before), w);
  }

  lemma {:induction false} CountedStep(before: seq<Sample>, s: Sample, w: Window)
    ensures Counted(before + [s], w)
         == Counted(before, w) + (if Sights(s, w) then Advance(Marks(before), s).1 else 0)
  {
    assert (before + [s])[..|before|] == before;
  }

  lemma {:induction false} PointsTelescope(samples: seq<Sample>, w: Window)
    ensures Counted(samples, w) == Telescoped(samples, w)
  {
    if samples == [] {
    } else {
      var before, s := samples[..|samples| - 1], samples[|samples| - 1];
      PointsTelescope(before, w);
      assert samples == before + [s];
      CountedStep(before, s, w);
      CursorIsExact(before);
      if Live(before + [s], w) {
        LiveEarlier(before, s, w);
        TelescopedGrows(before, s, w);
        if Sights(s, w) { PointsOfSample(before, s, w); }
      } else {
        TelescopedStops(before, s, w);
        if Sights(s, w) { OutdatedCountsNothing(before, s, w); }
      }
    }
  }

  lemma {:induction false} MaxGrows(samples: seq<Sample>, n: nat, w: Window)
    requires n <= |samples| && Seen(samples[..n], w)
    ensures Seen(samples, w) && FirstUsed(samples, w) == FirstUsed(samples[..n], w)
    ensures MaxUsed(samples[..n], w) <= MaxUsed(samples, w)
    decreases |samples|
  {
    if n == |samples| {
      assert samples[..n] == samples;
    } else {
      assert samples[..|samples| - 1][..n] == samples[..n];
      MaxGrows(samples[..|samples| - 1], n, w);
    }
  }

  lemma {:induction false} FirstAtMostMax(samples: seq<Sample>, w: Window)
    requires Seen(samples, w)
    ensures FirstUsed(samples, w) <= MaxUsed(samples, w)
  {
    if !Seen(samples[..|samples| - 1], w) {
    } else {
      FirstAtMostMax(samples[..|samples| - 1], w);
    }
  }

  /** Whatever the interleaving, a window is charged at most what its counter grew by, which for a
      counter that starts at zero or more is at most the largest `used` the server reported. */
  lemma NeverOvercounts(samples: seq<Sample>, w: Window)
    ensures 0 <= Counted(samples, w)
    ensures Seen(samples, w) ==> Counted(samples, w) <= MaxUsed(samples, w) - FirstUsed(samples, w)
    ensures Seen(samples, w) && FirstUsed(samples, w) >= 0 ==> Counted(samples, w) <= MaxUsed(samples, w)
    ensures Seen(samples, w) && Live(samples, w)
        ==> Counted(samples, w) == MaxUsed(samples, w) - FirstUsed(samples, w)
  {
    PointsTelescope(samples, w);
    var n := LiveUntil(samples, w);
    if Seen(samples[..n], w) {
      MaxGrows(samples, n, w);
      FirstAtMostMax(samples[..n], w);
    } else if Seen(samples, w) {
      FirstAtMostMax(samples, w);
    }
    assert samples[..|samples|] == samples;
  }
}
