/** Deterministic cache keys: request parameters in canonical form, hashed
    together with the canonical prompt. */
module KeyBuilder {
  import opened KeySeq
  import opened Text
  import opened Ordering
  import opened Values

  datatype Components = Components(namespace: string, version: string, prompt: string, metadata: Value)

  /** Library calls: the hex digest, `str`, and the JSON form of components. */
  datatype Library = Library(sha: string -> string, str: Value -> string, dumps: Components -> string)

  datatype Builder = Builder(namespace: string, version: string, exclude: set<string>, lib: Library)

  const ALWAYS_EXCLUDED: set<string> := {"bypass_cache", "cache_ttl", "request_id", "trace_id"}

  /** A blank namespace or version stands for the default one. */
  function MakeBuilder(namespace: string, version: string, exclude: set<string>, lib: Library): (b: Builder)
    ensures b.namespace != "" && b.version != ""
    ensures namespace != "" && Stripped(namespace) ==> b.namespace == namespace
    ensures version != "" && Stripped(version) ==> b.version == version
    ensures forall name :: name in b.exclude <==>
      name in exclude || name in ["bypass_cache", "cache_ttl", "request_id", "trace_id"]
  {
    Builder(if Strip(namespace) == "" then "default" else Strip(namespace),
            if Strip(version) == "" then "v1" else Strip(version),
            ALWAYS_EXCLUDED + exclude, lib)
  }

  // ---------- Canonical values ----------

  function CanonicalScalar(lib: Library, x: Scalar): Scalar {
    match x
    case Str(s) => Str(Normalize(s))
    case Bytes(data) => Str(lib.sha(data))
    case _ => x
  }

  function CanonicalScalars(lib: Library, xs: seq<Scalar>): seq<Scalar> {
    if xs == [] then [] else CanonicalScalars(lib, xs[..|xs| - 1]) + [CanonicalScalar(lib, xs[|xs| - 1])]
  }

  predicate IsNumber(x: Scalar) {
    x.Bool? || x.Int? || x.Float?
  }

  function NumberOf(x: Scalar): real
    requires IsNumber(x)
  {
    match x
    case Bool(b) => if b then 1.0 else 0.0
    case Int(n) => n as real
    case Float(r) => r
  }

  predicate ScalarLess(a: Scalar, b: Scalar) {
    if a.Str? && b.Str? then Precedes(a.s, b.s)
    else if IsNumber(a) && IsNumber(b) then NumberOf(a) < NumberOf(b)
    else false
  }

  /** What `sorted` accepts: at most one element, all text, or all numbers. */
  predicate Comparable(xs: seq<Scalar>) {
    || |xs| <= 1
    || (forall x :: x in xs ==> x.Str?)
    || (forall x :: x in xs ==> IsNumber(x))
  }

  /** No set inside `v` makes `sorted` raise a type error. */
  predicate Sortable(lib: Library, v: Value) {
    match v
    case Leaf(_) => true
    case Other(_) => true
    case SetOf(xs) => Comparable(CanonicalScalars(lib, xs))
    case List(vs) => forall i :: 0 <= i < |vs| ==> Sortable(lib, vs[i])
    case Dict(items) => forall i :: 0 <= i < |items| ==> Sortable(lib, items[i].value)
  }

  function Leaves(xs: seq<Scalar>): seq<Value> {
    seq(|xs|, i requires 0 <= i < |xs| => Leaf(xs[i]))
  }

  function Canonical(lib: Library, v: Value): Value
    decreases v, 0
  {
    match v
    case Leaf(x) => Leaf(CanonicalScalar(lib, x))
    case Other(text) => Leaf(Str(Normalize(text)))
    case SetOf(xs) => List(Leaves(Sort(ScalarLess, CanonicalScalars(lib, xs))))
    case List(vs) => List(seq(|vs|, i requires 0 <= i < |vs| => Canonical(lib, vs[i])))
    case Dict(items) => Dict(CanonicalItems(lib, items))
  }

  /** The items by key; the last item with a key wins. */
  function CanonicalItems(lib: Library, items: seq<Item>): seq<Item>
    decreases items, 1
  {
    if items == [] then []
    else
      var last := items[|items| - 1];
      PutSorted(CanonicalItems(lib, items[..|items| - 1]), Item(last.key, Canonical(lib, last.value)))
  }

  /** `None` stands for the type error. */
  function Canonicalize(lib: Library, v: Value): Option<Value> {
    if Sortable(lib, v) then Some(Canonical(lib, v)) else None
  }

  // ---------- Canonicalization is idempotent ----------

  /** A digest is lowercase and has no whitespace, nor a colon. */
  ghost predicate HexDigests(lib: Library) {
    forall data :: Normalize(lib.sha(data)) == lib.sha(data) && ':' !in lib.sha(data)
  }

  ghost predicate IsCanonical(lib: Library, v: Value) {
    Sortable(lib, v) && Canonical(lib, v) == v
  }

  lemma ScalarIdempotent(lib: Library, x: Scalar)
    requires HexDigests(lib)
    ensures CanonicalScalar(lib, CanonicalScalar(lib, x)) == CanonicalScalar(lib, x)
  {
    if x.Str? {
      NormalizeIdempotent(x.s);
    }
  }

  lemma {:induction false} ScalarsAreCanonical(lib: Library, xs: seq<Scalar>)
    requires HexDigests(lib)
    ensures |CanonicalScalars(lib, xs)| == |xs|
    ensures forall x :: x in CanonicalScalars(lib, xs) ==> CanonicalScalar(lib, x) == x
  {
    if xs != [] {
      ScalarsAreCanonical(lib, xs[..|xs| - 1]);
      ScalarIdempotent(lib, xs[|xs| - 1]);
    }
  }

  lemma SetIsCanonical(lib: Library, xs: seq<Scalar>)
    requires HexDigests(lib)
    ensures IsCanonical(lib, Canonical(lib, SetOf(xs)))
  {
    var canonical := CanonicalScalars(lib, xs);
    var sorted := Sort(ScalarLess, canonical);
    ScalarsAreCanonical(lib, xs);
    SortContents(ScalarLess, canonical);
    forall i | 0 <= i < |sorted| ensures CanonicalScalar(lib, sorted[i]) == sorted[i] {
      assert sorted[i] in multiset(sorted);
    }
    LeavesAreCanonical(lib, sorted);
  }

  lemma LeavesAreCanonical(lib: Library, xs: seq<Scalar>)
    requires forall i :: 0 <= i < |xs| ==> CanonicalScalar(lib, xs[i]) == xs[i]
    ensures IsCanonical(lib, List(Leaves(xs)))
  {
    var vs := Leaves(xs);
    assert forall i :: 0 <= i < |vs| ==> Canonical(lib, vs[i]) == vs[i] && Sortable(lib, vs[i]);
    assert seq(|vs|, i requires 0 <= i < |vs| => Canonical(lib, vs[i])) == vs;
  }

  lemma PutAtEnd(d: seq<Item>, item: Item)
    requires SortedKeys(d + [item])
    ensures PutSorted(d, item) == d + [item] && SortedKeys(d)
  {
    assert forall i :: 0 <= i < |d| ==> (d + [item])[i] == d[i];
    if d != [] {
      PrecedesTotal(d[|d| - 1].key, item.key);
      assert Precedes((d + [item])[|d| - 1].key, (d + [item])[|d|].key);
    }
  }

  lemma {:induction false} FixedItems(lib: Library, items: seq<Item>)
    requires SortedKeys(items) && forall i :: 0 <= i < |items| ==> IsCanonical(lib, items[i].value)
    ensures CanonicalItems(lib, items) == items
  {
    if items != [] {
      var init, last := items[..|items| - 1], items[|items| - 1];
      assert items == init + [last];
      PutAtEnd(init, last);
      FixedItems(lib, init);
      assert last == Item(last.key, Canonical(lib, last.value));
    }
  }

  lemma {:induction false} ItemsAreCanonical(lib: Library, items: seq<Item>)
    requires HexDigests(lib)
    ensures SortedKeys(CanonicalItems(lib, items))
    ensures forall p :: p in CanonicalItems(lib, items) ==> IsCanonical(lib, p.value)
    decreases items, 1
  {
    if items != [] {
      var init, last := items[..|items| - 1], items[|items| - 1];
      ItemsAreCanonical(lib, init);
      CanonicalIdempotent(lib, last.value);
      PutFacts(CanonicalItems(lib, init), Item(last.key, Canonical(lib, last.value)));
    }
  }

  /** A canonical value is its own canonical form: a second pass changes
      nothing, and cannot fail. */
  lemma {:induction false} CanonicalIdempotent(lib: Library, v: Value)
    requires HexDigests(lib)
    ensures IsCanonical(lib, Canonical(lib, v))
    decreases v, 0
  {
    match v
    case Leaf(x) => ScalarIdempotent(lib, x);
    case Other(text) => NormalizeIdempotent(text);
    case SetOf(xs) => SetIsCanonical(lib, xs);
    case List(vs) =>
      forall i | 0 <= i < |vs| ensures IsCanonical(lib, Canonical(lib, vs[i])) {
        CanonicalIdempotent(lib, vs[i]);
      }
    case Dict(items) =>
      ItemsAreCanonical(lib, items);
      FixedItems(lib, CanonicalItems(lib, items));
  }

  // ---------- Canonicalization forgets iteration order ----------

  /** `w` is `v` but for the iteration order of mappings and sets, at any depth. */
  ghost predicate Similar(v: Value, w: Value)
    decreases v, 0
  {
    match v
    case Leaf(_) => w == v
    case Other(_) => w == v
    case SetOf(xs) => w.SetOf? && multiset(xs) == multiset(w.elements)
    case List(vs) => w.List? && |vs| == |w.values| && forall i :: 0 <= i < |vs| ==> Similar(vs[i], w.values[i])
    case Dict(items) => w.Dict? && exists mid :: SimilarItems(items, mid) && multiset(mid) == multiset(w.items)
  }

  ghost predicate SimilarItems(items: seq<Item>, mid: seq<Item>)
    decreases items, 1
  {
    |items| == |mid| &&
    forall i :: 0 <= i < |items| ==> items[i].key == mid[i].key && Similar(items[i].value, mid[i].value)
  }

  /** The `str` forms of keys are distinct, and so are the numbers in a set, as
      a Python set ensures. */
  ghost predicate WellFormed(v: Value) {
    match v
    case Leaf(_) => true
    case Other(_) => true
    case SetOf(xs) =>
      forall x, y :: x in xs && y in xs && IsNumber(x) && IsNumber(y) && NumberOf(x) == NumberOf(y) ==> x == y
    case List(vs) => forall i :: 0 <= i < |vs| ==> WellFormed(vs[i])
    case Dict(items) => DistinctKeys(items) && forall i :: 0 <= i < |items| ==> WellFormed(items[i].value)
  }

  lemma {:induction false} ScalarsConcat(lib: Library, a: seq<Scalar>, b: seq<Scalar>)
    ensures CanonicalScalars(lib, a + b) == CanonicalScalars(lib, a) + CanonicalScalars(lib, b)
  {
    if b == [] {
      assert a + b == a;
    } else {
      assert (a + b)[..|a + b| - 1] == a + b[..|b| - 1];
      ScalarsConcat(lib, a, b[..|b| - 1]);
    }
  }

  lemma {:induction false} ScalarsPermutation(lib: Library, xs: seq<Scalar>, ys: seq<Scalar>)
    requires multiset(xs) == multiset(ys)
    ensures multiset(CanonicalScalars(lib, xs)) == multiset(CanonicalScalars(lib, ys))
    decreases |xs|
  {
    assert |multiset(xs)| == |xs| && |multiset(ys)| == |ys|;
    if xs != [] {
      var x := xs[|xs| - 1];
      var a, b := SplitAt(xs, ys, x);
      MultisetLast(xs);
      ScalarsPermutation(lib, xs[..|xs| - 1], a + b);
      ScalarsConcat(lib, a + [x], b);
      ScalarsConcat(lib, a, b);
      assert (a + [x])[..|a|] == a;
    }
  }

  lemma {:induction false} ScalarsOrigin(lib: Library, xs: seq<Scalar>, c: Scalar) returns (x: Scalar)
    requires c in CanonicalScalars(lib, xs)
    ensures x in xs && c == CanonicalScalar(lib, x)
  {
    if c == CanonicalScalar(lib, xs[|xs| - 1]) {
      x := xs[|xs| - 1];
    } else {
      x := ScalarsOrigin(lib, xs[..|xs| - 1], c);
    }
  }

  lemma ScalarsOrdered(lib: Library, xs: seq<Scalar>)
    requires WellFormed(SetOf(xs)) && Comparable(CanonicalScalars(lib, xs))
    ensures Orders(ScalarLess, set x | x in CanonicalScalars(lib, xs))
  {
    var cs := CanonicalScalars(lib, xs);
    forall a, b | a in cs && b in cs
      ensures a == b || ScalarLess(a, b) || ScalarLess(b, a)
      ensures !(ScalarLess(a, b) && ScalarLess(b, a)) && (ScalarLess(a, b) ==> a != b)
    {
      if a.Str? && b.Str? {
        PrecedesTotal(a.s, b.s);
      } else if IsNumber(a) && IsNumber(b) {
        var x := ScalarsOrigin(lib, xs, a);
        var y := ScalarsOrigin(lib, xs, b);
      } else {
        assert |cs| <= 1;
      }
    }
    forall a, b, c | a in cs && b in cs && c in cs && ScalarLess(a, b) && ScalarLess(b, c)
      ensures ScalarLess(a, c)
    {
      if a.Str? {
        PrecedesTransitive(a.s, b.s, c.s);
      }
    }
  }

  lemma SetOrderIndependent(lib: Library, xs: seq<Scalar>, ys: seq<Scalar>)
    requires multiset(xs) == multiset(ys) && WellFormed(SetOf(xs)) && Sortable(lib, SetOf(xs))
    ensures Sortable(lib, SetOf(ys)) && Canonical(lib, SetOf(xs)) == Canonical(lib, SetOf(ys))
  {
    var cs, ds := CanonicalScalars(lib, xs), CanonicalScalars(lib, ys);
    ScalarsPermutation(lib, xs, ys);
    ScalarsOrdered(lib, xs);
    SortPermutation(ScalarLess, cs, ds);
    ComparablePermutation(cs, ds);
  }

  lemma ComparablePermutation(xs: seq<Scalar>, ys: seq<Scalar>)
    requires multiset(xs) == multiset(ys) && Comparable(xs)
    ensures Comparable(ys)
  {
    assert |xs| == |multiset(xs)| == |multiset(ys)| == |ys|;
    forall y | y in ys ensures y in xs {
      assert y in multiset(ys);
    }
  }

  function ItemStep(lib: Library): (seq<Item>, Item) -> seq<Item> {
    (d, item: Item) => PutSorted(d, Item(item.key, Canonical(lib, item.value)))
  }

  lemma {:induction false} ItemsAreFolded(lib: Library, items: seq<Item>)
    ensures CanonicalItems(lib, items) == Fold(ItemStep(lib), [], items)
  {
    if items != [] {
      ItemsAreFolded(lib, items[..|items| - 1]);
    }
  }

  lemma PutStepsCommute(x: Item, y: Item)
    requires x.key != y.key
    ensures forall d :: PutSorted(PutSorted(d, x), y) == PutSorted(PutSorted(d, y), x)
  {
    PrecedesTotal(x.key, y.key);
    forall d ensures PutSorted(PutSorted(d, x), y) == PutSorted(PutSorted(d, y), x) {
      if Precedes(x.key, y.key) {
        PutCommutes(d, x, y);
      } else {
        PutCommutes(d, y, x);
      }
    }
  }

  lemma DictOrderIndependent(lib: Library, items: seq<Item>, others: seq<Item>)
    requires multiset(items) == multiset(others) && DistinctKeys(items)
    ensures CanonicalItems(lib, items) == CanonicalItems(lib, others)
  {
    forall x, y | x in items && y in items ensures Commute(ItemStep(lib), x, y) {
      if x != y {
        PutStepsCommute(Item(x.key, Canonical(lib, x.value)), Item(y.key, Canonical(lib, y.value)));
      }
    }
    FoldPermutation(ItemStep(lib), [], items, others);
    ItemsAreFolded(lib, items);
    ItemsAreFolded(lib, others);
  }

  lemma {:induction false} SimilarItemsAgree(lib: Library, items: seq<Item>, mid: seq<Item>)
    requires SimilarItems(items, mid)
    requires forall i :: 0 <= i < |items| ==> WellFormed(items[i].value) && Sortable(lib, items[i].value)
    ensures CanonicalItems(lib, items) == CanonicalItems(lib, mid)
    ensures forall i :: 0 <= i < |mid| ==> Sortable(lib, mid[i].value)
    decreases items, 1
  {
    if items != [] {
      var n := |items| - 1;
      var init, rest := items[..n], mid[..n];
      SimilarItemsAgree(lib, init, rest);
      OrderIndependent(lib, items[n].value, mid[n].value);
      forall i | 0 <= i < |mid| ensures Sortable(lib, mid[i].value) {
        assert i < n ==> mid[i] == rest[i];
      }
    }
  }

  /** The canonical form does not depend on the iteration order of mappings and
      sets, at any depth. */
  lemma {:induction false} OrderIndependent(lib: Library, v: Value, w: Value)
    requires Similar(v, w) && WellFormed(v) && Sortable(lib, v)
    ensures Sortable(lib, w) && Canonical(lib, v) == Canonical(lib, w)
    decreases v, 0
  {
    match v
    case Leaf(_) =>
    case Other(_) =>
    case SetOf(xs) => SetOrderIndependent(lib, xs, w.elements);
    case List(vs) =>
      forall i | 0 <= i < |vs|
        ensures Sortable(lib, w.values[i]) && Canonical(lib, vs[i]) == Canonical(lib, w.values[i])
      {
        OrderIndependent(lib, vs[i], w.values[i]);
      }
    case Dict(items) =>
      var mid :| SimilarItems(items, mid) && multiset(mid) == multiset(w.items);
      SimilarItemsAgree(lib, items, mid);
      DictOrderIndependent(lib, mid, w.items);
      forall i | 0 <= i < |w.items| ensures Sortable(lib, w.items[i].value) {
        assert w.items[i] in multiset(mid);
        var j :| 0 <= j < |mid| && mid[j] == w.items[i];
      }
  }
}
