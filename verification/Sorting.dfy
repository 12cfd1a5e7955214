/** Python's `sorted(...)`, `list.sort()` and `sorted(set(...))`, as functions. */
module Sorting {

  datatype Option<+T> = None | Some(value: T)

  predicate Distinct<T(==)>(xs: seq<T>) {
    forall i, j :: 0 <= i < j < |xs| ==> xs[i] != xs[j]
  }

  function Elements<T(==)>(xs: seq<T>): set<T> {
    set x | x in xs
  }

  lemma TakeStep<T>(xs: seq<T>, i: nat)
    requires i < |xs|
    ensures xs[..i + 1] == xs[..i] + [xs[i]]
  {
  }

  lemma TakeAll<T>(xs: seq<T>)
    ensures xs[..|xs|] == xs
  {
  }

  lemma SplitAround<T>(xs: seq<T>, i: nat)
    requires i < |xs|
    ensures (xs[..i] + [xs[i]]) + xs[i + 1..] == xs
  {
  }

  lemma Reassociate<T>(a: seq<T>, b: seq<T>, c: seq<T>)
    ensures (a + b) + c == a + (b + c)
  {
  }

  lemma SubsetSize(a: set<int>, b: set<int>)
    requires a <= b
    ensures |a| <= |b|
  {
    assert b == a + (b - a);
  }

  lemma {:induction false} LeastOfSet(s: set<int>, x: int) returns (m: int)
    requires x in s
    ensures m in s && forall y :: y in s ==> m <= y
    decreases s
  {
    if forall y :: y in s ==> x <= y {
      m := x;
    } else {
      var y :| y in s && y < x;
      m := LeastOfSet(s - {x}, y);
      assert m <= y;
      forall z | z in s ensures m <= z { assert z == x || z in s - {x}; }
    }
  }

  /** `[x for x in xs if keep(x)]` */
  function Filter<T(!new)>(xs: seq<T>, keep: T -> bool): (r: seq<T>)
    ensures forall x :: x in r <==> x in xs && keep(x)
  {
    if xs == [] then []
    else
      assert forall x :: x in xs <==> x == xs[0] || x in xs[1..];
      if keep(xs[0]) then [xs[0]] + Filter(xs[1..], keep) else Filter(xs[1..], keep)
  }

  lemma {:induction false} FilterSnoc<T(!new)>(xs: seq<T>, x: T, keep: T -> bool)
    ensures Filter(xs + [x], keep) == Filter(xs, keep) + if keep(x) then [x] else []
  {
    if xs == [] {
      assert xs + [x] == [x] && [x][1..] == [];
    } else {
      assert (xs + [x])[1..] == xs[1..] + [x];
      FilterSnoc(xs[1..], x, keep);
    }
  }

  lemma {:induction false} FilterIncreases(xs: seq<int>, keep: int -> bool)
    requires Increasing(xs)
    ensures Increasing(Filter(xs, keep))
  {
    if xs == [] {
    } else {
      FilterIncreases(xs[1..], keep);
      var rest := Filter(xs[1..], keep);
      forall j | 0 <= j < |rest| ensures xs[0] < rest[j] { AfterFirst(xs, rest[j]); }
    }
  }

  lemma AfterFirst(xs: seq<int>, x: int)
    requires Increasing(xs) && xs != [] && x in xs[1..]
    ensures xs[0] < x
  {
    var i :| 0 <= i < |xs| - 1 && xs[1..][i] == x;
    assert xs[i + 1] == x;
  }

  // ---- sorted(set(xs)) over integers

  predicate Increasing(xs: seq<int>) {
    forall i, j :: 0 <= i < j < |xs| ==> xs[i] < xs[j]
  }

  function Insert(x: int, xs: seq<int>): (r: seq<int>)
    requires Increasing(xs)
    ensures Increasing(r)
    ensures forall y :: y in r <==> y == x || y in xs
  {
    if xs == [] then [x]
    else if x < xs[0] then [x] + xs
    else if x == xs[0] then xs
    else
      var rest := Insert(x, xs[1..]);
      assert forall y :: y in xs <==> y == xs[0] || y in xs[1..];
      assert forall i :: 0 <= i < |rest| ==> rest[i] in rest && xs[0] < rest[i];
      [xs[0]] + rest
  }

  function SortedSet(xs: seq<int>): (r: seq<int>)
    ensures Increasing(r)
    ensures forall y :: y in r <==> y in xs
  {
    if xs == [] then []
    else
      assert forall y :: y in xs <==> y == xs[0] || y in xs[1..];
      Insert(xs[0], SortedSet(xs[1..]))
  }

  /** A strictly increasing list is determined by its elements: the reason
      nothing downstream depends on the order the caller listed things in. */
  lemma {:induction false} IncreasingUnique(a: seq<int>, b: seq<int>)
    requires Increasing(a) && Increasing(b)
    requires forall y :: y in a <==> y in b
    ensures a == b
  {
    assert b == [] || b[0] in b;
    if a == [] {
    } else {
      assert a[0] in a && a[0] in b;
      assert b[0] in b && b[0] in a;
      assert a[0] == b[0];
      forall y ensures y in a[1..] <==> y in b[1..] {
        if y in a[1..] { assert y in a; assert y > a[0]; assert y in b; }
        if y in b[1..] { assert y in b; assert y > b[0]; assert y in a; }
      }
      IncreasingUnique(a[1..], b[1..]);
      assert a == [a[0]] + a[1..] && b == [b[0]] + b[1..];
    }
  }

  ghost function SortedOf(s: set<int>): (r: seq<int>)
    ensures Increasing(r)
    ensures forall y :: y in r <==> y in s
  {
    if exists x :: x in s then
      var x :| x in s;
      Insert(x, SortedOf(s - {x}))
    else []
  }

  // ---- stable sort by a total preorder

  ghost predicate TotalPreorder<T(!new)>(le: (T, T) -> bool) {
    && (forall x, y :: le(x, y) || le(y, x))
    && (forall x, y, z :: le(x, y) && le(y, z) ==> le(x, z))
  }

  ghost predicate SortedBy<T>(le: (T, T) -> bool, xs: seq<T>) {
    forall i, j :: 0 <= i < j < |xs| ==> le(xs[i], xs[j])
  }

  function InsertBy<T>(le: (T, T) -> bool, x: T, xs: seq<T>): seq<T> {
    if xs == [] then [x]
    else if le(x, xs[0]) then [x] + xs
    else [xs[0]] + InsertBy(le, x, xs[1..])
  }

  function Sort<T>(le: (T, T) -> bool, xs: seq<T>): seq<T> {
    if xs == [] then [] else InsertBy(le, xs[0], Sort(le, xs[1..]))
  }

  lemma {:induction false} InsertByIsPermutation<T>(le: (T, T) -> bool, x: T, xs: seq<T>)
    ensures multiset(InsertBy(le, x, xs)) == multiset(xs) + multiset{x}
  {
    if xs == [] {
    } else {
      assert xs == [xs[0]] + xs[1..];
      if !le(x, xs[0]) {
        InsertByIsPermutation(le, x, xs[1..]);
      }
    }
  }

  lemma {:induction false} SortIsPermutation<T>(le: (T, T) -> bool, xs: seq<T>)
    ensures multiset(Sort(le, xs)) == multiset(xs)
    ensures |Sort(le, xs)| == |xs|
  {
    if xs == [] {
    } else {
      assert xs == [xs[0]] + xs[1..];
      SortIsPermutation(le, xs[1..]);
      InsertByIsPermutation(le, xs[0], Sort(le, xs[1..]));
    }
    assert |multiset(Sort(le, xs))| == |Sort(le, xs)|;
    assert |multiset(xs)| == |xs|;
  }

  lemma SamePermutationElements<T>(a: seq<T>, b: seq<T>)
    requires multiset(a) == multiset(b)
    ensures forall x :: x in a <==> x in b
  {
    forall x ensures x in a <==> x in b {
      assert x in a <==> x in multiset(a);
      assert x in b <==> x in multiset(b);
    }
  }

  lemma {:induction false} InsertBySorted<T(!new)>(le: (T, T) -> bool, x: T, xs: seq<T>)
    requires TotalPreorder(le) && SortedBy(le, xs)
    ensures SortedBy(le, InsertBy(le, x, xs))
  {
    var r := InsertBy(le, x, xs);
    if xs == [] {
    } else {
      if le(x, xs[0]) {
        forall j | 0 <= j < |xs| ensures le(x, xs[j]) {
          assert j == 0 || le(xs[0], xs[j]);
        }
      } else {
        InsertBySorted(le, x, xs[1..]);
        var rest := InsertBy(le, x, xs[1..]);
        InsertByIsPermutation(le, x, xs[1..]);
        forall j | 0 <= j < |rest| ensures le(xs[0], rest[j]) {
          assert rest[j] in multiset(rest);
          assert rest[j] == x || rest[j] in xs[1..];
        }
      }
    }
  }

  lemma {:induction false} SortSorted<T(!new)>(le: (T, T) -> bool, xs: seq<T>)
    requires TotalPreorder(le)
    ensures SortedBy(le, Sort(le, xs))
  {
    if xs == [] {
    } else {
      SortSorted(le, xs[1..]);
      InsertBySorted(le, xs[0], Sort(le, xs[1..]));
    }
  }

  lemma {:induction false} InsertByIsStable<T(!new)>(le: (T, T) -> bool, x: T, xs: seq<T>, keep: T -> bool)
    requires forall a, b :: keep(a) && keep(b) ==> le(a, b)
    ensures Filter(InsertBy(le, x, xs), keep) == (if keep(x) then [x] else []) + Filter(xs, keep)
  {
    var r := InsertBy(le, x, xs);
    if xs == [] || le(x, xs[0]) {
      assert r == [x] + xs && r[1..] == xs;
    } else {
      InsertByIsStable(le, x, xs[1..], keep);
      assert r[1..] == InsertBy(le, x, xs[1..]);
    }
  }

  /** Members that compare equal keep their order. */
  lemma {:induction false} SortIsStable<T(!new)>(le: (T, T) -> bool, xs: seq<T>, keep: T -> bool)
    requires forall a, b :: keep(a) && keep(b) ==> le(a, b)
    ensures Filter(Sort(le, xs), keep) == Filter(xs, keep)
  {
    if xs == [] {
    } else {
      SortIsStable(le, xs[1..], keep);
      InsertByIsStable(le, xs[0], Sort(le, xs[1..]), keep);
    }
  }

  lemma {:induction false} FilterTwice<T(!new)>(xs: seq<T>, first: T -> bool, then': T -> bool, both: T -> bool)
    requires forall x :: both(x) <==> first(x) && then'(x)
    ensures Filter(Filter(xs, first), then') == Filter(xs, both)
  {
    if xs == [] {
    } else {
      FilterTwice(xs[1..], first, then', both);
    }
  }

  lemma {:induction false} DistinctCount<T>(a: seq<T>, x: T)
    requires Distinct(a)
    ensures multiset(a)[x] <= 1
  {
    if a == [] {
    } else {
      assert a == [a[0]] + a[1..];
      DistinctCount(a[1..], x);
      assert a[0] !in a[1..];
    }
  }

  lemma RepeatCount<T>(b: seq<T>, i: nat, j: nat)
    requires i < j < |b| && b[i] == b[j]
    ensures multiset(b)[b[i]] >= 2
  {
    assert b == b[..i] + [b[i]] + b[i + 1..j] + [b[j]] + b[j + 1..];
  }

  lemma DistinctPermutation<T>(a: seq<T>, b: seq<T>)
    requires multiset(a) == multiset(b) && Distinct(a)
    ensures Distinct(b)
  {
    forall i, j | 0 <= i < j < |b| ensures b[i] != b[j] {
      DistinctCount(a, b[i]);
      if b[i] == b[j] { RepeatCount(b, i, j); }
    }
  }

  /** Taking the last of x out of both of two lists without repeats leaves the same members. */
  lemma RestHas<T>(x: seq<T>, y: seq<T>, i: nat)
    requires Distinct(x) && Distinct(y) && (forall s :: s in x <==> s in y)
    requires x != [] && i < |y| && y[i] == x[|x| - 1]
    ensures var rest := y[..i] + y[i + 1..]; Distinct(rest) && forall s :: s in x[..|x| - 1] <==> s in rest
  {
    var before, rest := x[..|x| - 1], y[..i] + y[i + 1..];
    forall s ensures s in before <==> s in rest {
      assert s in x <==> s in before || s == x[|x| - 1];
      assert s in y <==> s in rest || s == y[i];
    }
  }

  lemma MultisetWithout<T>(xs: seq<T>, i: nat)
    requires i < |xs|
    ensures multiset(xs[..i] + xs[i + 1..]) == multiset(xs) - multiset{xs[i]}
  {
    SplitAround(xs, i);
    assert multiset((xs[..i] + [xs[i]]) + xs[i + 1..]) == multiset(xs[..i] + xs[i + 1..]) + multiset{xs[i]};
  }

  /** Where the last of a sits in a permutation of a, and what is left of both. */
  lemma PermutationRest<T>(a: seq<T>, b: seq<T>) returns (i: nat)
    requires multiset(a) == multiset(b) && a != []
    ensures i < |b| && b[i] == a[|a| - 1]
    ensures multiset(a[..|a| - 1]) == multiset(b[..i] + b[i + 1..])
  {
    SamePermutationElements(a, b);
    assert a[|a| - 1] in b;
    i :| 0 <= i < |b| && b[i] == a[|a| - 1];
    MultisetWithout(b, i);
    MultisetWithout(a, |a| - 1);
    assert a[..|a| - 1] + a[|a|..] == a[..|a| - 1];
  }

  // ---- lexicographic order on lists of integers (Python list comparison)

  predicate LexLess(a: seq<int>, b: seq<int>) {
    b != [] && (a == [] || a[0] < b[0] || (a[0] == b[0] && LexLess(a[1..], b[1..])))
  }

  predicate LexLeq(a: seq<int>, b: seq<int>) {
    a == b || LexLess(a, b)
  }

  lemma {:induction false} LexTotal(a: seq<int>, b: seq<int>)
    ensures a == b || LexLess(a, b) || LexLess(b, a)
  {
    if a == [] || b == [] || a[0] != b[0] {
    } else {
      LexTotal(a[1..], b[1..]);
      assert a == [a[0]] + a[1..] && b == [b[0]] + b[1..];
    }
  }

  lemma {:induction false} LexTransitive(a: seq<int>, b: seq<int>, c: seq<int>)
    requires LexLess(a, b) && LexLess(b, c)
    ensures LexLess(a, c)
  {
    if a == [] || a[0] != b[0] || b[0] != c[0] {
    } else {
      LexTransitive(a[1..], b[1..], c[1..]);
    }
  }

  lemma {:induction false} LexIrreflexive(a: seq<int>)
    ensures !LexLess(a, a)
  {
    if a == [] {
    } else {
      LexIrreflexive(a[1..]);
    }
  }

  lemma LexPreorder()
    ensures TotalPreorder(LexLeq)
  {
    forall x, y ensures LexLeq(x, y) || LexLeq(y, x) { LexTotal(x, y); }
    forall x, y, z | LexLeq(x, y) && LexLeq(y, z) ensures LexLeq(x, z) {
      if x != y && y != z { LexTransitive(x, y, z); }
    }
  }

  /** Lists that agree up to position k and then differ compare as their k-th members do. */
  lemma {:induction false} LexAtDifference(a: seq<int>, b: seq<int>, k: nat)
    requires k <= |a| && k < |b| && a[..k] == b[..k]
    requires k == |a| || a[k] < b[k]
    ensures LexLess(a, b)
  {
    if k == 0 {
    } else {
      assert a[0] == a[..k][0] == b[..k][0] == b[0];
      assert a[1..][..k - 1] == a[..k][1..] == b[..k][1..] == b[1..][..k - 1];
      LexAtDifference(a[1..], b[1..], k - 1);
    }
  }

  predicate LexIncreasing(xs: seq<seq<int>>) {
    forall i, j :: 0 <= i < j < |xs| ==> LexLess(xs[i], xs[j])
  }

  lemma LexIncreasingDistinct(xs: seq<seq<int>>)
    requires LexIncreasing(xs)
    ensures Distinct(xs)
  {
    forall i, j | 0 <= i < j < |xs| ensures xs[i] != xs[j] {
      LexIrreflexive(xs[i]);
    }
  }

  // ---- order on strings (Python string comparison)

  predicate StringLess(a: string, b: string) {
    b != [] && (a == [] || a[0] < b[0] || (a[0] == b[0] && StringLess(a[1..], b[1..])))
  }

  lemma {:induction false} StringTotal(a: string, b: string)
    ensures a == b || StringLess(a, b) || StringLess(b, a)
  {
    if a == [] || b == [] || a[0] != b[0] {
    } else {
      StringTotal(a[1..], b[1..]);
      assert a == [a[0]] + a[1..] && b == [b[0]] + b[1..];
    }
  }

  lemma {:induction false} StringTransitive(a: string, b: string, c: string)
    requires StringLess(a, b) && StringLess(b, c)
    ensures StringLess(a, c)
  {
    if a == [] || a[0] != b[0] || b[0] != c[0] {
    } else {
      StringTransitive(a[1..], b[1..], c[1..]);
    }
  }

  lemma {:induction false} StringIrreflexive(a: string)
    ensures !StringLess(a, a)
  {
    if a == [] {
    } else {
      StringIrreflexive(a[1..]);
    }
  }

  /** Where the strings first differ the smaller has the smaller character, or has ended. */
  ghost predicate DifferAt(a: string, b: string, k: nat) {
    && k <= |a| && k < |b| && (forall i :: 0 <= i < k ==> a[i] == b[i])
    && (k == |a| || a[k] < b[k])
  }

  lemma DifferAtStart(a: string, b: string, k: nat)
    requires DifferAt(a, b, k)
    ensures b != [] && (a == [] || a[0] <= b[0]) && (k == 0 ==> a == [] || a[0] < b[0])
    ensures k > 0 ==> a != [] && a[0] == b[0]
  {
  }

  lemma {:induction false} StringLessAt(a: string, b: string)
    ensures StringLess(a, b) <==> exists k: nat :: DifferAt(a, b, k)
  {
    if a == [] || b == [] || a[0] != b[0] {
      if StringLess(a, b) { assert DifferAt(a, b, 0); }
      if k: nat :| DifferAt(a, b, k) { DifferAtStart(a, b, k); }
    } else {
      StringLessAt(a[1..], b[1..]);
      if StringLess(a, b) {
        var k: nat :| DifferAt(a[1..], b[1..], k);
        assert DifferAt(a, b, k + 1) by {
          forall i | 0 <= i < k + 1 ensures a[i] == b[i] {
            if i > 0 { assert a[1..][i - 1] == b[1..][i - 1]; }
          }
        }
      }
      if k: nat :| DifferAt(a, b, k) { assert DifferAt(a[1..], b[1..], k - 1); }
    }
  }
}
