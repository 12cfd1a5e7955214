/** The GitHub rate budget (`observe_github_rate`, `window_supersedes`, `merge_github_rate`): one
    window per resource, newest by the server's own numbers whatever order responses arrive in. */
module RateWindows {
  import opened Sorting

  datatype Window = Window(resource: string, limit: int, remaining: int, reset: int, observed: int)

  /** The `x-ratelimit-*` headers of a response, each None when absent or not an integer. */
  datatype Headers = Headers(resource: Option<string>, limit: Option<int>, remaining: Option<int>, reset: Option<int>)

  datatype Observation = Observation(headers: Headers, now: int)

  predicate Supersedes(candidate: Window, current: Window) {
    || candidate.reset > current.reset
    || (candidate.reset == current.reset && candidate.remaining <= current.remaining)
  }

  /** The window the headers name; None when any number is missing. */
  function WindowOf(o: Observation): Option<Window> {
    var h := o.headers;
    if h.limit.None? || h.remaining.None? || h.reset.None? then None
    else
      var resource := if h.resource.Some? && h.resource.value != "" then h.resource.value else "core";
      Some(Window(resource, h.limit.value, h.remaining.value, h.reset.value, o.now))
  }

  function Find(windows: seq<Window>, resource: string): (r: Option<Window>)
    ensures r.Some? ==> r.value in windows && r.value.resource == resource
    ensures r.None? ==> forall w :: w in windows ==> w.resource != resource
  {
    if windows == [] then None
    else
      assert forall w :: w in windows <==> w == windows[0] || w in windows[1..];
      if windows[0].resource == resource then Some(windows[0]) else Find(windows[1..], resource)
  }

  function Without(windows: seq<Window>, resource: string): (r: seq<Window>)
    ensures forall w :: w in r <==> w in windows && w.resource != resource
  {
    if windows == [] then []
    else
      assert forall w :: w in windows <==> w == windows[0] || w in windows[1..];
      if windows[0].resource == resource then Without(windows[1..], resource)
      else [windows[0]] + Without(windows[1..], resource)
  }

  /** Newest wins for one window. */
  function Offer(windows: seq<Window>, w: Window): seq<Window> {
    var current := Find(windows, w.resource);
    if current.Some? && !Supersedes(w, current.value) then windows
    else Without(windows, w.resource) + [w]
  }

  function Observe(windows: seq<Window>, o: Observation): seq<Window> {
    var w := WindowOf(o);
    if w.None? then windows else Offer(windows, w.value)
  }

  function ObserveAll(windows: seq<Window>, os: seq<Observation>): seq<Window>
    decreases |os|
  {
    if os == [] then windows else ObserveAll(Observe(windows, os[0]), os[1..])
  }

  /** `merge_github_rate`: a dict keyed by resource; replacing a key keeps its place. */
  function Put(windows: seq<Window>, w: Window): seq<Window> {
    if windows == [] then [w]
    else if windows[0].resource == w.resource then [w] + windows[1..]
    else [windows[0]] + Put(windows[1..], w)
  }

  function MergeOne(windows: seq<Window>, w: Window): seq<Window> {
    var current := Find(windows, w.resource);
    if current.None? || Supersedes(w, current.value) then Put(windows, w) else windows
  }

  function Merge(windows: seq<Window>, others: seq<Window>): seq<Window>
    decreases |others|
  {
    if others == [] then windows else Merge(MergeOne(windows, others[0]), others[1..])
  }

  // ---- the newest of a set of windows, whatever their order

  ghost predicate OnePerResource(windows: seq<Window>) {
    forall i, j :: 0 <= i < j < |windows| ==> windows[i].resource != windows[j].resource
  }

  /** The window kept for s's resource is at least as new as s. */
  predicate Covers(windows: seq<Window>, s: Window) {
    var kept := Find(windows, s.resource);
    kept.Some? && Supersedes(kept.value, s)
  }

  /** `windows` holds, for each resource in `seen`, one of its newest windows, and nothing else. */
  ghost predicate Newest(windows: seq<Window>, seen: set<Window>) {
    && OnePerResource(windows)
    && (forall w :: w in windows ==> w in seen)
    && (forall s :: s in seen ==> Covers(windows, s))
  }

  ghost function WindowsSeen(os: seq<Observation>): set<Window> {
    set i | 0 <= i < |os| && WindowOf(os[i]).Some? :: WindowOf(os[i]).value
  }

  lemma {:induction false} WithoutKeepsApart(windows: seq<Window>, resource: string)
    requires OnePerResource(windows)
    ensures OnePerResource(Without(windows, resource))
  {
    if windows == [] {
    } else {
      WithoutKeepsApart(windows[1..], resource);
      var rest := Without(windows[1..], resource);
      forall j | 0 <= j < |rest| ensures rest[j].resource != windows[0].resource { assert rest[j] in rest; }
    }
  }

  lemma {:induction false} FindInJoin(windows: seq<Window>, w: Window, resource: string)
    ensures Find(windows + [w], resource)
         == if Find(windows, resource).Some? then Find(windows, resource)
            else if w.resource == resource then Some(w) else None
  {
    if windows == [] {
      assert [] + [w] == [w] && [w][1..] == [];
    } else {
      FindInJoin(windows[1..], w, resource);
      assert (windows + [w])[1..] == windows[1..] + [w];
    }
  }

  lemma {:induction false} FindWithout(windows: seq<Window>, gone: string, resource: string)
    ensures Find(Without(windows, gone), resource) == if resource == gone then None else Find(windows, resource)
  {
    if windows == [] {
    } else {
      FindWithout(windows[1..], gone, resource);
      var rest := Without(windows[1..], gone);
      assert ([windows[0]] + rest)[1..] == rest;
    }
  }

  lemma {:induction false} FindAfterOffer(windows: seq<Window>, w: Window, resource: string)
    ensures Find(Without(windows, w.resource) + [w], resource)
         == if resource == w.resource then Some(w) else Find(windows, resource)
  {
    FindInJoin(Without(windows, w.resource), w, resource);
    FindWithout(windows, w.resource, resource);
  }

  lemma {:induction false} OfferCovers(windows: seq<Window>, w: Window, s: Window)
    requires s == w || Covers(windows, s)
    requires var current := Find(windows, w.resource); current.None? || Supersedes(w, current.value)
    ensures Covers(Without(windows, w.resource) + [w], s)
  {
    FindAfterOffer(windows, w, s.resource);
  }

  lemma OfferKeepsNewest(windows: seq<Window>, seen: set<Window>, w: Window)
    requires Newest(windows, seen)
    ensures Newest(Offer(windows, w), seen + {w})
  {
    var current := Find(windows, w.resource);
    if current.None? || Supersedes(w, current.value) {
      WithoutKeepsApart(windows, w.resource);
      forall s | s in seen + {w} ensures Covers(Without(windows, w.resource) + [w], s) {
        OfferCovers(windows, w, s);
      }
    }
  }

  lemma {:induction false} ObserveAllKeepsNewest(windows: seq<Window>, seen: set<Window>, os: seq<Observation>)
    requires Newest(windows, seen)
    ensures Newest(ObserveAll(windows, os), seen + WindowsSeen(os))
    decreases |os|
  {
    if os == [] {
      assert seen + WindowsSeen(os) == seen;
    } else {
      var w := WindowOf(os[0]);
      var next := if w.Some? then seen + {w.value} else seen;
      SeenStep(os);
      assert next + WindowsSeen(os[1..]) == seen + WindowsSeen(os);
      if w.Some? { OfferKeepsNewest(windows, seen, w.value); }
      ObserveAllKeepsNewest(Observe(windows, os[0]), next, os[1..]);
    }
  }

  lemma SeenStep(os: seq<Observation>)
    requires os != []
    ensures WindowsSeen(os)
         == (if WindowOf(os[0]).Some? then {WindowOf(os[0]).value} else {}) + WindowsSeen(os[1..])
  {
    forall i | 0 <= i < |os| && WindowOf(os[i]).Some?
      ensures i == 0 || WindowOf(os[i]).value in WindowsSeen(os[1..])
    {
      if i > 0 { assert os[1..][i - 1] == os[i]; }
    }
    forall i | 0 <= i < |os| - 1 && WindowOf(os[1..][i]).Some?
      ensures WindowOf(os[1..][i]).value in WindowsSeen(os)
    {
      assert os[1..][i] == os[i + 1];
    }
  }

  /** From nothing, any responses: exactly one window per resource named, and a newest one. */
  lemma BudgetIsNewest(os: seq<Observation>)
    ensures Newest(ObserveAll([], os), WindowsSeen(os))
  {
    ObserveAllKeepsNewest([], {}, os);
    assert {} + WindowsSeen(os) == WindowsSeen(os);
  }

  /** Same standing: the numbers that decide which window is newer. */
  predicate SameStanding(a: Option<Window>, b: Option<Window>) {
    if a.None? || b.None? then a.None? && b.None?
    else a.value.reset == b.value.reset && a.value.remaining == b.value.remaining
  }

  lemma NewestDetermines(a: seq<Window>, b: seq<Window>, seen: set<Window>, resource: string)
    requires Newest(a, seen) && Newest(b, seen)
    ensures SameStanding(Find(a, resource), Find(b, resource))
  {
    var x, y := Find(a, resource), Find(b, resource);
    assert x.Some? ==> Covers(b, x.value);
    assert y.Some? ==> Covers(a, y.value);
  }

  /** Arrival order, repeats and unreadable responses cannot change any resource's reset and
      remaining: only the set of readable windows matters. */
  lemma ArrivalOrderIrrelevant(a: seq<Observation>, b: seq<Observation>, resource: string)
    requires WindowsSeen(a) == WindowsSeen(b)
    ensures SameStanding(Find(ObserveAll([], a), resource), Find(ObserveAll([], b), resource))
  {
    BudgetIsNewest(a);
    BudgetIsNewest(b);
    NewestDetermines(ObserveAll([], a), ObserveAll([], b), WindowsSeen(a), resource);
  }

  // ---- merging two budgets

  lemma {:induction false} FindAfterPut(windows: seq<Window>, w: Window, resource: string)
    ensures Find(Put(windows, w), resource) == if resource == w.resource then Some(w) else Find(windows, resource)
  {
    if windows == [] {
      assert [w][1..] == [];
    } else if windows[0].resource != w.resource {
      FindAfterPut(windows[1..], w, resource);
      assert Put(windows, w)[1..] == Put(windows[1..], w);
    } else {
      assert ([w] + windows[1..])[1..] == windows[1..];
    }
  }

  lemma {:induction false} PutKeepsApart(windows: seq<Window>, w: Window)
    requires OnePerResource(windows)
    ensures OnePerResource(Put(windows, w))
    ensures forall x :: x in Put(windows, w) ==> x == w || x in windows
  {
    if windows == [] || windows[0].resource == w.resource {
    } else {
      PutKeepsApart(windows[1..], w);
      var rest := Put(windows[1..], w);
      forall j | 0 <= j < |rest| ensures rest[j].resource != windows[0].resource {
        assert rest[j] in rest;
      }
    }
  }

  lemma MergeOneKeepsNewest(windows: seq<Window>, seen: set<Window>, w: Window)
    requires Newest(windows, seen)
    ensures Newest(MergeOne(windows, w), seen + {w})
  {
    var current := Find(windows, w.resource);
    if current.None? || Supersedes(w, current.value) {
      PutKeepsApart(windows, w);
      forall s | s in seen + {w} ensures Covers(Put(windows, w), s) {
        assert s != w ==> Covers(windows, s);
        FindAfterPut(windows, w, s.resource);
      }
    }
  }

  lemma {:induction false} MergeKeepsNewest(windows: seq<Window>, seen: set<Window>, others: seq<Window>)
    requires Newest(windows, seen)
    ensures Newest(Merge(windows, others), seen + Elements(others))
    decreases |others|
  {
    if others == [] {
      assert seen + Elements(others) == seen;
    } else {
      assert (seen + {others[0]}) + Elements(others[1..]) == seen + Elements(others) by {
        assert forall x :: x in others <==> x == others[0] || x in others[1..];
      }
      MergeOneKeepsNewest(windows, seen, others[0]);
      MergeKeepsNewest(MergeOne(windows, others[0]), seen + {others[0]}, others[1..]);
    }
  }

  lemma NewestOfNewest(windows: seq<Window>, a: set<Window>, other: seq<Window>, b: set<Window>)
    requires Newest(windows, a + Elements(other)) && Newest(other, b)
    ensures Newest(windows, a + b)
  {
    forall s | s in b ensures Covers(windows, s) {
      assert Covers(other, s);
      var x := Find(other, s.resource).value;
      assert x in Elements(other) && Covers(windows, x);
    }
    assert forall w :: w in Elements(other) ==> w in b;
  }

  /** Merging two clients' budgets knows what one client would know had it seen both clients'
      responses, in any interleaving. */
  lemma MergeIsJointObservation(a: seq<Observation>, b: seq<Observation>, both: seq<Observation>, resource: string)
    requires WindowsSeen(both) == WindowsSeen(a) + WindowsSeen(b)
    ensures SameStanding(Find(Merge(ObserveAll([], a), ObserveAll([], b)), resource),
                         Find(ObserveAll([], both), resource))
  {
    var x, y := ObserveAll([], a), ObserveAll([], b);
    BudgetIsNewest(a);
    BudgetIsNewest(b);
    BudgetIsNewest(both);
    MergeKeepsNewest(x, WindowsSeen(a), y);
    NewestOfNewest(Merge(x, y), WindowsSeen(a), y, WindowsSeen(b));
    NewestDetermines(Merge(x, y), ObserveAll([], both), WindowsSeen(both), resource);
  }

  // ---- the same in the numbers of the responses

  /** The response carries the three integers, and names w. */
  predicate Carries(o: Observation, w: Window) {
    && o.headers.limit == Some(w.limit) && o.headers.remaining == Some(w.remaining) && o.headers.reset == Some(w.reset)
    && o.now == w.observed
    && w.resource == (if o.headers.resource == None || o.headers.resource == Some("") then "core"
                      else o.headers.resource.value)
  }

  /** `kept` is the window of the same resource that resets last, and of those the one with least left. */
  predicate NoOlder(kept: Window, w: Window) {
    kept.resource == w.resource
    && (kept.reset > w.reset || (kept.reset == w.reset && kept.remaining <= w.remaining))
  }

  /** One window per resource; each was carried by a response; and no response carried a newer one. */
  ghost predicate KeepsNewest(windows: seq<Window>, os: seq<Observation>) {
    && (forall i, j :: 0 <= i < j < |windows| ==> windows[i].resource != windows[j].resource)
    && (forall k :: k in windows ==> exists o :: o in os && Carries(o, k))
    && (forall o, w :: o in os && Carries(o, w) ==> exists k :: k in windows && NoOlder(k, w))
  }

  lemma CarriedIsSeen(os: seq<Observation>, w: Window)
    ensures w in WindowsSeen(os) <==> exists o :: o in os && Carries(o, w)
  {
    if w in WindowsSeen(os) {
      var i :| 0 <= i < |os| && WindowOf(os[i]).Some? && WindowOf(os[i]).value == w;
      assert os[i] in os && Carries(os[i], w);
    }
    if o :| o in os && Carries(o, w) {
      var i :| 0 <= i < |os| && os[i] == o;
      assert WindowOf(os[i]) == Some(w);
    }
  }

  lemma NewestInNumbers(windows: seq<Window>, os: seq<Observation>)
    requires Newest(windows, WindowsSeen(os))
    ensures KeepsNewest(windows, os)
  {
    forall k | k in windows ensures exists o :: o in os && Carries(o, k) { CarriedIsSeen(os, k); }
    forall o, w | o in os && Carries(o, w) ensures exists k :: k in windows && NoOlder(k, w) {
      CarriedIsSeen(os, w);
      assert Covers(windows, w);
      var k := Find(windows, w.resource).value;
      assert k in windows && NoOlder(k, w);
    }
  }

  /** After any responses the budget holds, for each resource named, a window with the last reset seen and,
      among those, the least remaining; unreadable responses change nothing. */
  lemma BudgetInNumbers(os: seq<Observation>)
    ensures KeepsNewest(ObserveAll([], os), os)
  {
    BudgetIsNewest(os);
    NewestInNumbers(ObserveAll([], os), os);
  }

  /** And so does the merge of two clients' budgets, for both clients' responses. */
  lemma MergeInNumbers(a: seq<Observation>, b: seq<Observation>)
    ensures KeepsNewest(Merge(ObserveAll([], a), ObserveAll([], b)), a + b)
  {
    var x, y := ObserveAll([], a), ObserveAll([], b);
    BudgetIsNewest(a);
    BudgetIsNewest(b);
    MergeKeepsNewest(x, WindowsSeen(a), y);
    NewestOfNewest(Merge(x, y), WindowsSeen(a), y, WindowsSeen(b));
    SeenJoin(a, b);
    NewestInNumbers(Merge(x, y), a + b);
  }

  lemma SeenJoin(a: seq<Observation>, b: seq<Observation>)
    ensures WindowsSeen(a + b) == WindowsSeen(a) + WindowsSeen(b)
  {
    forall w ensures w in WindowsSeen(a + b) <==> w in WindowsSeen(a) + WindowsSeen(b) {
      CarriedIsSeen(a, w);
      CarriedIsSeen(b, w);
      CarriedIsSeen(a + b, w);
      assert forall o :: o in a + b <==> o in a || o in b;
    }
  }
}
