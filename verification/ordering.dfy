/** Building a sorted collection one element at a time, and why the order in
    which the elements arrive does not matter. */
module Ordering {

  // ---------- Folding commuting steps ----------

  function Fold<S, A>(step: (S, A) -> S, start: S, xs: seq<A>): S {
    if xs == [] then start else step(Fold(step, start, xs[..|xs| - 1]), xs[|xs| - 1])
  }

  ghost predicate Commute<S(!new), A>(step: (S, A) -> S, x: A, y: A) {
    forall s :: step(step(s, x), y) == step(step(s, y), x)
  }

  lemma {:induction false} FoldConcat<S, A>(step: (S, A) -> S, start: S, a: seq<A>, b: seq<A>)
    ensures Fold(step, start, a + b) == Fold(step, Fold(step, start, a), b)
  {
    if b == [] {
      assert a + b == a;
    } else {
      assert (a + b)[..|a + b| - 1] == a + b[..|b| - 1];
      FoldConcat(step, start, a, b[..|b| - 1]);
    }
  }

  /** A step that commutes with all later ones may be taken last. */
  lemma {:induction false} FoldDelay<S(!new), A>(step: (S, A) -> S, start: S, x: A, b: seq<A>)
    requires forall y :: y in b ==> Commute(step, x, y)
    ensures Fold(step, step(start, x), b) == step(Fold(step, start, b), x)
  {
    if b != [] {
      FoldDelay(step, start, x, b[..|b| - 1]);
      assert b[|b| - 1] in b && Commute(step, x, b[|b| - 1]);
    }
  }

  lemma MultisetWithout<A>(xs: seq<A>, j: nat)
    requires j < |xs|
    ensures multiset(xs[..j] + xs[j + 1..]) == multiset(xs) - multiset{xs[j]}
  {
    assert xs == xs[..j] + [xs[j]] + xs[j + 1..];
  }

  lemma MultisetLast<A>(xs: seq<A>)
    requires xs != []
    ensures multiset(xs[..|xs| - 1]) == multiset(xs) - multiset{xs[|xs| - 1]}
  {
    assert xs == xs[..|xs| - 1] + [xs[|xs| - 1]];
  }

  lemma MultisetSnoc<A>(xs: seq<A>)
    requires xs != []
    ensures multiset(xs) == multiset(xs[..|xs| - 1]) + multiset{xs[|xs| - 1]}
  {
    assert xs == xs[..|xs| - 1] + [xs[|xs| - 1]];
  }

  lemma FoldMove<S(!new), A>(step: (S, A) -> S, start: S, a: seq<A>, x: A, b: seq<A>)
    requires forall y :: y in b ==> Commute(step, x, y)
    ensures Fold(step, start, a + [x] + b) == step(Fold(step, start, a + b), x)
  {
    FoldConcat(step, start, a + [x], b);
    assert (a + [x])[..|a|] == a;
    FoldDelay(step, Fold(step, start, a), x, b);
    FoldConcat(step, start, a, b);
  }

  lemma {:induction false} FoldPermutation<S(!new), A(!new)>(step: (S, A) -> S, start: S, xs: seq<A>, ys: seq<A>)
    requires multiset(xs) == multiset(ys)
    requires forall x, y :: x in xs && y in xs ==> Commute(step, x, y)
    ensures Fold(step, start, xs) == Fold(step, start, ys)
    decreases |xs|
  {
    assert |multiset(xs)| == |xs| && |multiset(ys)| == |ys|;
    if xs != [] {
      var x := xs[|xs| - 1];
      var a, b := SplitAt(xs, ys, x);
      forall y | y in b ensures Commute(step, x, y) {
        assert y in multiset(ys);
      }
      FoldMove(step, start, a, x, b);
      MultisetLast(xs);
      FoldPermutation(step, start, xs[..|xs| - 1], a + b);
    }
  }

  lemma SplitAt<A>(xs: seq<A>, ys: seq<A>, x: A) returns (a: seq<A>, b: seq<A>)
    requires multiset(xs) == multiset(ys) && x in xs
    ensures ys == a + [x] + b && multiset(a + b) == multiset(xs) - multiset{x}
  {
    assert x in multiset(ys);
    var j :| 0 <= j < |ys| && ys[j] == x;
    a, b := ys[..j], ys[j + 1..];
    MultisetWithout(ys, j);
  }

  // ---------- The order of strings ----------

  /** Lexicographic by code point. */
  predicate Precedes(a: string, b: string) {
    if a == [] || b == [] then a == [] && b != []
    else a[0] < b[0] || (a[0] == b[0] && Precedes(a[1..], b[1..]))
  }

  lemma {:induction false} PrecedesTotal(a: string, b: string)
    ensures a == b || Precedes(a, b) || Precedes(b, a)
    ensures !(Precedes(a, b) && Precedes(b, a)) && !Precedes(a, a)
  {
    if a != [] && b != [] {
      PrecedesTotal(a[1..], b[1..]);
      PrecedesTotal(a[1..], a[1..]);
      if a[0] == b[0] && a[1..] == b[1..] {
        assert a == [a[0]] + a[1..] && b == [b[0]] + b[1..];
      }
    } else if a != [] {
      PrecedesTotal(a[1..], a[1..]);
    }
  }

  lemma {:induction false} PrecedesTransitive(a: string, b: string, c: string)
    requires Precedes(a, b) && Precedes(b, c)
    ensures Precedes(a, c)
  {
    if a != [] && a[0] == b[0] == c[0] {
      PrecedesTransitive(a[1..], b[1..], c[1..]);
    }
  }

  // ---------- Sorted lists ----------

  /** A total order, as far as the elements it is used on are concerned. */
  ghost predicate Orders<A>(less: (A, A) -> bool, xs: set<A>) {
    && (forall x, y :: x in xs && y in xs ==> x == y || less(x, y) || less(y, x))
    && (forall x, y :: x in xs && y in xs && less(x, y) ==> !less(y, x) && x != y)
    && (forall x, y, z :: x in xs && y in xs && z in xs && less(x, y) && less(y, z) ==> less(x, z))
  }

  ghost predicate Ascending<A>(less: (A, A) -> bool, s: seq<A>) {
    forall i, j :: 0 <= i < j < |s| ==> !less(s[j], s[i])
  }

  /** `x` joins after the elements it is not less than. */
  function Insert<A>(less: (A, A) -> bool, s: seq<A>, x: A): seq<A> {
    if s != [] && less(x, s[|s| - 1]) then Insert(less, s[..|s| - 1], x) + [s[|s| - 1]] else s + [x]
  }

  function Sort<A>(less: (A, A) -> bool, xs: seq<A>): seq<A> {
    if xs == [] then [] else Insert(less, Sort(less, xs[..|xs| - 1]), xs[|xs| - 1])
  }

  lemma {:induction false} InsertContents<A>(less: (A, A) -> bool, s: seq<A>, x: A)
    ensures multiset(Insert(less, s, x)) == multiset(s) + multiset{x}
  {
    if s != [] && less(x, s[|s| - 1]) {
      InsertContents(less, s[..|s| - 1], x);
      MultisetSnoc(s);
    }
  }

  lemma {:induction false} SortContents<A>(less: (A, A) -> bool, xs: seq<A>)
    ensures multiset(Sort(less, xs)) == multiset(xs)
  {
    if xs != [] {
      SortContents(less, xs[..|xs| - 1]);
      InsertContents(less, Sort(less, xs[..|xs| - 1]), xs[|xs| - 1]);
      MultisetSnoc(xs);
    }
  }

  lemma {:induction false} InsertSorts<A>(less: (A, A) -> bool, xs: set<A>, s: seq<A>, x: A)
    requires Orders(less, xs) && x in xs && (forall i :: 0 <= i < |s| ==> s[i] in xs)
    requires Ascending(less, s)
    ensures Ascending(less, Insert(less, s, x))
  {
    if s != [] {
      var init, last := s[..|s| - 1], s[|s| - 1];
      if less(x, last) {
        InsertSorts(less, xs, init, x);
        InsertContents(less, init, x);
        var t := Insert(less, init, x);
        forall i | 0 <= i < |t| ensures !less(last, t[i]) {
          assert t[i] in multiset(init) + multiset{x};
          assert t[i] == x || t[i] in init;
        }
      } else {
        forall i | 0 <= i < |s| ensures !less(x, s[i]) {
          assert i < |s| - 1 ==> !less(last, s[i]);
        }
      }
    }
  }

  /** Sorting sorts. */
  lemma {:induction false} SortSorts<A>(less: (A, A) -> bool, xs: seq<A>)
    requires Orders(less, set x | x in xs)
    ensures Ascending(less, Sort(less, xs))
  {
    SortSortsWithin(less, (set x | x in xs), xs);
  }

  lemma {:induction false} SortSortsWithin<A>(less: (A, A) -> bool, all: set<A>, xs: seq<A>)
    requires Orders(less, all) && (forall x :: x in xs ==> x in all)
    ensures Ascending(less, Sort(less, xs))
  {
    if xs != [] {
      var init := xs[..|xs| - 1];
      SortSortsWithin(less, all, init);
      SortContents(less, init);
      forall i | 0 <= i < |Sort(less, init)| ensures Sort(less, init)[i] in all {
        assert Sort(less, init)[i] in multiset(init);
      }
      InsertSorts(less, all, Sort(less, init), xs[|xs| - 1]);
    }
  }

  lemma LastIsGreatest<A>(less: (A, A) -> bool, s: seq<A>, x: A)
    requires Ascending(less, s) && x in multiset(s)
    ensures x in s && (x == s[|s| - 1] || !less(s[|s| - 1], x))
  {
    var i :| 0 <= i < |s| && s[i] == x;
  }

  lemma {:induction false} SortedIsUnique<A>(less: (A, A) -> bool, all: set<A>, r: seq<A>, s: seq<A>)
    requires Orders(less, all) && multiset(r) == multiset(s) && (forall x :: x in r ==> x in all)
    requires Ascending(less, r) && Ascending(less, s)
    ensures r == s
    decreases |r|
  {
    assert |multiset(r)| == |r| && |multiset(s)| == |s|;
    if r != [] {
      var x, y := r[|r| - 1], s[|s| - 1];
      assert x in multiset(r) && y in multiset(s);
      LastIsGreatest(less, r, y);
      LastIsGreatest(less, s, x);
      assert x in all && y in all;
      MultisetLast(r);
      MultisetLast(s);
      SortedIsUnique(less, all, r[..|r| - 1], s[..|s| - 1]);
    }
  }

  /** The result of sorting depends on the elements alone. */
  lemma SortPermutation<A>(less: (A, A) -> bool, xs: seq<A>, ys: seq<A>)
    requires Orders(less, set x | x in xs) && multiset(xs) == multiset(ys)
    ensures Sort(less, xs) == Sort(less, ys)
  {
    forall y | y in ys ensures y in xs {
      assert y in multiset(ys);
    }
    SortSorts(less, xs);
    SortSortsWithin(less, (set x | x in xs), ys);
    SortContents(less, xs);
    SortContents(less, ys);
    forall x | x in Sort(less, xs) ensures x in xs {
      assert x in multiset(Sort(less, xs));
    }
    SortedIsUnique(less, (set x | x in xs), Sort(less, xs), Sort(less, ys));
  }
}
