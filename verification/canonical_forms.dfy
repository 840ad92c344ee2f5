/** When two values have the same canonical form, told without computing it, and
    so when two requests have the same key. */
module CanonicalForms {
  import opened KeySeq
  import opened Text
  import opened Ordering
  import opened Values
  import opened KeyBuilder
  import opened CacheKeys
  import opened RestoredKeys

  // ---------- Alike values ----------

  /** The text that a value stands for: text itself, the digest of bytes, the
      `str` form of other objects. */
  function TextOf(lib: Library, v: Value): Option<string> {
    match v
    case Leaf(Str(s)) => Some(s)
    case Leaf(Bytes(data)) => Some(lib.sha(data))
    case Other(text) => Some(text)
    case _ => None
  }

  /** Text with the same lowercase words, or the same number, truth value or null. */
  predicate SameLeaf(lib: Library, v: Value, w: Value) {
    match TextOf(lib, v)
    case Some(s) => TextOf(lib, w).Some? && LowerWords(s) == LowerWords(TextOf(lib, w).value)
    case None => v.Leaf? && w == v
  }

  ghost predicate SameLeaves(lib: Library, xs: seq<Scalar>, vs: seq<Value>) {
    |xs| == |vs| && forall i :: 0 <= i < |xs| ==> SameLeaf(lib, Leaf(xs[i]), vs[i])
  }

  /** The order of a sorted set: text by its lowercase words, numbers by size. */
  predicate Before(lib: Library, x: Scalar, y: Scalar) {
    if TextOf(lib, Leaf(x)).Some? && TextOf(lib, Leaf(y)).Some? then
      Precedes(Join(LowerWords(TextOf(lib, Leaf(x)).value)), Join(LowerWords(TextOf(lib, Leaf(y)).value)))
    else IsNumber(x) && IsNumber(y) && NumberOf(x) < NumberOf(y)
  }

  ghost predicate InOrder(lib: Library, xs: seq<Scalar>) {
    forall i, j :: 0 <= i < j < |xs| ==> !Before(lib, xs[j], xs[i])
  }

  /** `vs` lists the elements of the set in order. */
  ghost predicate ListsSet(lib: Library, xs: seq<Scalar>, vs: seq<Value>) {
    exists ys :: multiset(ys) == multiset(xs) && InOrder(lib, ys) && SameLeaves(lib, ys, vs)
  }

  ghost predicate SameSet(lib: Library, xs: seq<Scalar>, zs: seq<Scalar>) {
    exists ys :: multiset(ys) == multiset(zs) && SameLeaves(lib, xs, Leaves(ys))
  }

  /** Leaves agree as above, lists element by element, mappings field by field, and
      sets up to order; a list and a set agree if the list has the elements of the
      set in order. */
  ghost predicate Alike(lib: Library, v: Value, w: Value)
    decreases v
  {
    match v
    case Leaf(_) => SameLeaf(lib, v, w)
    case Other(_) => SameLeaf(lib, v, w)
    case SetOf(xs) =>
      (w.SetOf? && SameSet(lib, xs, w.elements)) || (w.List? && ListsSet(lib, xs, w.values))
    case List(vs) =>
      || (w.List? && |vs| == |w.values| && forall i :: 0 <= i < |vs| ==> Alike(lib, vs[i], w.values[i]))
      || (w.SetOf? && ListsSet(lib, w.elements, vs))
    case Dict(items) =>
      && w.Dict?
      && (forall i :: 0 <= i < |items| && Find(items, items[i].key) == Some(items[i].value) ==>
            && Find(w.items, items[i].key).Some?
            && Alike(lib, items[i].value, Find(w.items, items[i].key).value))
      && forall j :: 0 <= j < |w.items| ==> Find(items, w.items[j].key).Some?
  }

  /** Sets hold no number twice, as Python's do not. */
  ghost predicate ProperSets(v: Value) {
    match v
    case Leaf(_) => true
    case Other(_) => true
    case SetOf(_) => WellFormed(v)
    case List(vs) => forall i :: 0 <= i < |vs| ==> ProperSets(vs[i])
    case Dict(items) => forall i :: 0 <= i < |items| ==> ProperSets(items[i].value)
  }

  ghost predicate Acceptable(lib: Library, v: Value) {
    ProperSets(v) && Sortable(lib, v)
  }

  // ---------- Leaves ----------

  lemma CanonicalText(lib: Library, v: Value)
    requires HexDigests(lib) && TextOf(lib, v).Some?
    ensures Canonical(lib, v) == Leaf(Str(Normalize(TextOf(lib, v).value)))
  {
    if v.Leaf? && v.scalar.Bytes? {
      assert Normalize(lib.sha(v.scalar.data)) == lib.sha(v.scalar.data);
    }
  }

  lemma LeavesAgree(lib: Library, v: Value, w: Value)
    requires HexDigests(lib) && (v.Leaf? || v.Other?)
    ensures Canonical(lib, v) == Canonical(lib, w) <==> SameLeaf(lib, v, w)
  {
    if TextOf(lib, v).Some? {
      CanonicalText(lib, v);
      if TextOf(lib, w).Some? {
        CanonicalText(lib, w);
        NormalizeSeparates(TextOf(lib, v).value, TextOf(lib, w).value);
      }
    } else if TextOf(lib, w).Some? {
      CanonicalText(lib, w);
    }
  }

  lemma ScalarsAgree(lib: Library, x: Scalar, y: Scalar)
    requires HexDigests(lib)
    ensures CanonicalScalar(lib, x) == CanonicalScalar(lib, y) <==> SameLeaf(lib, Leaf(x), Leaf(y))
  {
    LeavesAgree(lib, Leaf(x), Leaf(y));
  }

  lemma BeforeIsLess(lib: Library, x: Scalar, y: Scalar)
    requires HexDigests(lib)
    ensures Before(lib, x, y) <==> ScalarLess(CanonicalScalar(lib, x), CanonicalScalar(lib, y))
  {
    if TextOf(lib, Leaf(x)).Some? {
      CanonicalText(lib, Leaf(x));
      NormalizeIsJoin(TextOf(lib, Leaf(x)).value);
    }
    if TextOf(lib, Leaf(y)).Some? {
      CanonicalText(lib, Leaf(y));
      NormalizeIsJoin(TextOf(lib, Leaf(y)).value);
    }
  }

  lemma {:induction false} ScalarsAt(lib: Library, xs: seq<Scalar>)
    ensures |CanonicalScalars(lib, xs)| == |xs|
    ensures forall i :: 0 <= i < |xs| ==> CanonicalScalars(lib, xs)[i] == CanonicalScalar(lib, xs[i])
  {
    if xs != [] {
      ScalarsAt(lib, xs[..|xs| - 1]);
    }
  }

  // ---------- Sets ----------

  lemma SplitScalars(lib: Library, xs: seq<Scalar>, c: Scalar) returns (a: seq<Scalar>, x: Scalar, b: seq<Scalar>)
    requires c in multiset(CanonicalScalars(lib, xs))
    ensures xs == a + [x] + b && CanonicalScalar(lib, x) == c
  {
    ScalarsAt(lib, xs);
    var j :| 0 <= j < |xs| && CanonicalScalars(lib, xs)[j] == c;
    a, x, b := xs[..j], xs[j], xs[j + 1..];
  }

  lemma ScalarsWithout(lib: Library, a: seq<Scalar>, x: Scalar, b: seq<Scalar>)
    ensures multiset(CanonicalScalars(lib, a + [x] + b)) ==
      multiset(CanonicalScalars(lib, a + b)) + multiset{CanonicalScalar(lib, x)}
  {
    ScalarsConcat(lib, a + [x], b);
    ScalarsConcat(lib, a, b);
    assert (a + [x])[..|a|] == a;
  }

  lemma TakeOut<A>(a: seq<A>, x: A, b: seq<A>)
    ensures multiset(a + [x] + b) == multiset(a + b) + multiset{x}
  {
  }

  lemma RestAgrees<A>(cs: multiset<A>, rest: multiset<A>, ds: multiset<A>, c: A)
    requires c in cs && rest == cs - multiset{c} && cs == ds + multiset{c}
    ensures rest == ds
  {
  }

  /** Whatever order canonical scalars are put in, the elements can follow. */
  lemma {:induction false} Follow(lib: Library, cs: seq<Scalar>, xs: seq<Scalar>) returns (ys: seq<Scalar>)
    requires multiset(cs) == multiset(CanonicalScalars(lib, xs))
    ensures multiset(ys) == multiset(xs) && CanonicalScalars(lib, ys) == cs
    decreases |cs|
  {
    if cs == [] {
      ys := [];
      NoScalars(lib, xs);
    } else {
      var init, c := cs[..|cs| - 1], cs[|cs| - 1];
      assert cs == init + [c];
      MultisetLast(cs);
      var a, x, b := SplitScalars(lib, xs, c);
      ScalarsWithout(lib, a, x, b);
      TakeOut(a, x, b);
      RestAgrees(multiset(cs), multiset(init), multiset(CanonicalScalars(lib, a + b)), c);
      var rest := Follow(lib, init, a + b);
      ys := rest + [x];
      Append(lib, rest, x);
    }
  }

  lemma Append(lib: Library, rest: seq<Scalar>, x: Scalar)
    ensures CanonicalScalars(lib, rest + [x]) == CanonicalScalars(lib, rest) + [CanonicalScalar(lib, x)]
    ensures multiset(rest + [x]) == multiset(rest) + multiset{x}
  {
    assert (rest + [x])[..|rest|] == rest;
  }

  lemma NoScalars(lib: Library, xs: seq<Scalar>)
    requires multiset(CanonicalScalars(lib, xs)) == multiset{}
    ensures xs == []
  {
    ScalarsAt(lib, xs);
    assert |multiset(CanonicalScalars(lib, xs))| == |CanonicalScalars(lib, xs)|;
  }

  lemma SameScalars(lib: Library, xs: seq<Scalar>, ys: seq<Scalar>)
    requires HexDigests(lib)
    ensures CanonicalScalars(lib, xs) == CanonicalScalars(lib, ys) <==> SameLeaves(lib, xs, Leaves(ys))
  {
    ScalarsAt(lib, xs);
    ScalarsAt(lib, ys);
    forall i | 0 <= i < |xs| && |xs| == |ys|
      ensures CanonicalScalars(lib, xs)[i] == CanonicalScalars(lib, ys)[i]
        <==> SameLeaf(lib, Leaf(xs[i]), Leaves(ys)[i])
    {
      ScalarsAgree(lib, xs[i], ys[i]);
    }
  }

  lemma LeavesInjective(cs: seq<Scalar>, ds: seq<Scalar>)
    ensures Leaves(cs) == Leaves(ds) <==> cs == ds
  {
    if Leaves(cs) == Leaves(ds) {
      assert |cs| == |Leaves(cs)| == |ds|;
      forall i | 0 <= i < |cs| ensures cs[i] == ds[i] {
        assert Leaves(cs)[i] == Leaf(cs[i]) && Leaves(ds)[i] == Leaf(ds[i]);
      }
    }
  }

  lemma SetsAgree(lib: Library, xs: seq<Scalar>, zs: seq<Scalar>)
    requires HexDigests(lib) && Acceptable(lib, SetOf(xs)) && Acceptable(lib, SetOf(zs))
    ensures Canonical(lib, SetOf(xs)) == Canonical(lib, SetOf(zs)) <==> SameSet(lib, xs, zs)
  {
    var cs, ds := CanonicalScalars(lib, xs), CanonicalScalars(lib, zs);
    LeavesInjective(Sort(ScalarLess, cs), Sort(ScalarLess, ds));
    if Sort(ScalarLess, cs) == Sort(ScalarLess, ds) {
      SortContents(ScalarLess, cs);
      SortContents(ScalarLess, ds);
      var ys := Follow(lib, cs, zs);
      SameScalars(lib, xs, ys);
    }
    if SameSet(lib, xs, zs) {
      var ys :| multiset(ys) == multiset(zs) && SameLeaves(lib, xs, Leaves(ys));
      SameScalars(lib, xs, ys);
      ScalarsPermutation(lib, ys, zs);
      ScalarsOrdered(lib, xs);
      SortPermutation(ScalarLess, cs, ds);
    }
  }

  lemma OrderedCanonically(lib: Library, ys: seq<Scalar>)
    requires HexDigests(lib)
    ensures InOrder(lib, ys) <==> Ascending(ScalarLess, CanonicalScalars(lib, ys))
  {
    var cs := CanonicalScalars(lib, ys);
    ScalarsAt(lib, ys);
    forall i, j | 0 <= i < j < |ys| ensures Before(lib, ys[j], ys[i]) <==> ScalarLess(cs[j], cs[i]) {
      BeforeIsLess(lib, ys[j], ys[i]);
    }
  }

  /** `vs` is what the canonical scalars `cs` become when they are elements. */
  ghost predicate Spells(lib: Library, cs: seq<Scalar>, vs: seq<Value>) {
    |cs| == |vs| && forall i :: 0 <= i < |cs| ==> Canonical(lib, vs[i]) == Leaf(cs[i])
  }

  lemma SpellsLeaves(lib: Library, ys: seq<Scalar>, vs: seq<Value>)
    requires HexDigests(lib)
    ensures Spells(lib, CanonicalScalars(lib, ys), vs) <==> SameLeaves(lib, ys, vs)
  {
    ScalarsAt(lib, ys);
    forall i | 0 <= i < |ys| && |ys| == |vs|
      ensures Canonical(lib, vs[i]) == Leaf(CanonicalScalars(lib, ys)[i]) <==> SameLeaf(lib, Leaf(ys[i]), vs[i])
    {
      LeavesAgree(lib, Leaf(ys[i]), vs[i]);
    }
  }

  lemma ListSpells(lib: Library, cs: seq<Scalar>, vs: seq<Value>)
    ensures List(Leaves(cs)) == Canonical(lib, List(vs)) <==> Spells(lib, cs, vs)
  {
    var canonical := seq(|vs|, i requires 0 <= i < |vs| => Canonical(lib, vs[i]));
    assert Canonical(lib, List(vs)) == List(canonical);
    if Leaves(cs) == canonical {
      assert |cs| == |Leaves(cs)| == |vs|;
      forall i | 0 <= i < |cs| ensures Canonical(lib, vs[i]) == Leaf(cs[i]) {
        assert Leaves(cs)[i] == canonical[i];
      }
    }
    if Spells(lib, cs, vs) {
      assert Leaves(cs) == canonical;
    }
  }

  /** In order, the canonical elements of a set are its sorted ones. */
  lemma InOrderIsSorted(lib: Library, xs: seq<Scalar>, ys: seq<Scalar>)
    requires HexDigests(lib) && Acceptable(lib, SetOf(xs)) && multiset(ys) == multiset(xs)
    ensures InOrder(lib, ys) <==> CanonicalScalars(lib, ys) == Sort(ScalarLess, CanonicalScalars(lib, xs))
  {
    var cs, ds := CanonicalScalars(lib, xs), CanonicalScalars(lib, ys);
    var all := set x | x in cs;
    OrderedCanonically(lib, ys);
    ScalarsPermutation(lib, ys, xs);
    ScalarsOrdered(lib, xs);
    SortSorts(ScalarLess, cs);
    SortContents(ScalarLess, cs);
    if Ascending(ScalarLess, ds) {
      forall d | d in ds ensures d in all {
        assert d in multiset(ds);
      }
      SortedIsUnique(ScalarLess, all, ds, Sort(ScalarLess, cs));
    }
  }

  lemma SetAndListAgree(lib: Library, xs: seq<Scalar>, vs: seq<Value>)
    requires HexDigests(lib) && Acceptable(lib, SetOf(xs))
    ensures Canonical(lib, SetOf(xs)) == Canonical(lib, List(vs)) <==> ListsSet(lib, xs, vs)
  {
    var sorted := Sort(ScalarLess, CanonicalScalars(lib, xs));
    ListSpells(lib, sorted, vs);
    if Spells(lib, sorted, vs) {
      SortContents(ScalarLess, CanonicalScalars(lib, xs));
      var ys := Follow(lib, sorted, xs);
      InOrderIsSorted(lib, xs, ys);
      SpellsLeaves(lib, ys, vs);
    }
    if ListsSet(lib, xs, vs) {
      var ys :| multiset(ys) == multiset(xs) && InOrder(lib, ys) && SameLeaves(lib, ys, vs);
      InOrderIsSorted(lib, xs, ys);
      SpellsLeaves(lib, ys, vs);
    }
  }

  // ---------- Same canonical form, exactly if alike ----------

  /** Both absent, or both present and alike. */
  ghost predicate SameField(lib: Library, x: Option<Value>, y: Option<Value>) {
    (x == None <==> y == None) && (x.Some? ==> Alike(lib, x.value, y.value))
  }

  lemma DictsAgree(lib: Library, items: seq<Item>, others: seq<Item>)
    requires forall i :: 0 <= i < |items| && Find(others, items[i].key).Some? ==>
      (Canonical(lib, items[i].value) == Canonical(lib, Find(others, items[i].key).value)
       <==> Alike(lib, items[i].value, Find(others, items[i].key).value))
    ensures Canonical(lib, Dict(items)) == Canonical(lib, Dict(others)) <==> Alike(lib, Dict(items), Dict(others))
  {
    var d, e := CanonicalItems(lib, items), CanonicalItems(lib, others);
    if d == e {
      forall j | 0 <= j < |others| ensures Find(items, others[j].key).Some? {
        FindIn(others, others[j].key);
        FindCanonical(lib, items, others[j].key);
        FindCanonical(lib, others, others[j].key);
      }
      forall i | 0 <= i < |items| && Find(items, items[i].key) == Some(items[i].value)
        ensures Find(others, items[i].key).Some?
        ensures Alike(lib, items[i].value, Find(others, items[i].key).value)
      {
        FindCanonical(lib, items, items[i].key);
        FindCanonical(lib, others, items[i].key);
      }
    }
    if Alike(lib, Dict(items), Dict(others)) {
      forall name ensures Find(d, name) == Find(e, name) {
        AlikeField(lib, items, others, name);
        FindCanonical(lib, items, name);
        FindCanonical(lib, others, name);
      }
      FindCanonical(lib, items, "");
      FindCanonical(lib, others, "");
      SortedExtensional(d, e);
    }
  }

  lemma AlikeField(lib: Library, items: seq<Item>, others: seq<Item>, name: string)
    requires forall i :: 0 <= i < |items| && Find(others, items[i].key).Some? ==>
      (Canonical(lib, items[i].value) == Canonical(lib, Find(others, items[i].key).value)
       <==> Alike(lib, items[i].value, Find(others, items[i].key).value))
    requires Alike(lib, Dict(items), Dict(others))
    ensures Find(items, name) == None <==> Find(others, name) == None
    ensures Find(items, name).Some? && Find(others, name).Some? ==>
      Canonical(lib, Find(items, name).value) == Canonical(lib, Find(others, name).value)
  {
    FindIn(items, name);
    FindIn(others, name);
    if Find(items, name).Some? {
      var i :| 0 <= i < |items| && items[i].key == name && items[i].value == Find(items, name).value;
      assert Find(items, items[i].key) == Some(items[i].value);
    }
  }

  lemma FoundIsAcceptable(lib: Library, items: seq<Item>, name: string)
    requires Acceptable(lib, Dict(items)) && Find(items, name).Some?
    ensures Acceptable(lib, Find(items, name).value)
  {
    FindIn(items, name);
  }

  /** Two values have the same canonical form exactly if they are alike. */
  lemma {:induction false} AlikeExactly(lib: Library, v: Value, w: Value)
    requires HexDigests(lib) && Acceptable(lib, v) && Acceptable(lib, w)
    ensures Canonical(lib, v) == Canonical(lib, w) <==> Alike(lib, v, w)
    decreases v
  {
    match v
    case Leaf(_) => LeavesAgree(lib, v, w);
    case Other(_) => LeavesAgree(lib, v, w);
    case SetOf(xs) =>
      if w.SetOf? {
        SetsAgree(lib, xs, w.elements);
      } else if w.List? {
        SetAndListAgree(lib, xs, w.values);
      }
    case List(vs) =>
      if w.SetOf? {
        SetAndListAgree(lib, w.elements, vs);
      } else if w.List? {
        ListsAgree(lib, vs, w.values);
      }
    case Dict(items) =>
      if w.Dict? {
        forall i | 0 <= i < |items| && Find(w.items, items[i].key).Some?
          ensures Canonical(lib, items[i].value) == Canonical(lib, Find(w.items, items[i].key).value)
            <==> Alike(lib, items[i].value, Find(w.items, items[i].key).value)
        {
          FoundIsAcceptable(lib, w.items, items[i].key);
          AlikeExactly(lib, items[i].value, Find(w.items, items[i].key).value);
        }
        DictsAgree(lib, items, w.items);
      }
  }

  lemma {:induction false} ListsAgree(lib: Library, vs: seq<Value>, ws: seq<Value>)
    requires HexDigests(lib) && Acceptable(lib, List(vs)) && Acceptable(lib, List(ws))
    ensures Canonical(lib, List(vs)) == Canonical(lib, List(ws))
      <==> |vs| == |ws| && forall i :: 0 <= i < |vs| ==> Alike(lib, vs[i], ws[i])
    decreases vs
  {
    var cs := seq(|vs|, i requires 0 <= i < |vs| => Canonical(lib, vs[i]));
    var ds := seq(|ws|, i requires 0 <= i < |ws| => Canonical(lib, ws[i]));
    forall i | 0 <= i < |vs| && |vs| == |ws| ensures cs[i] == ds[i] <==> Alike(lib, vs[i], ws[i]) {
      AlikeExactly(lib, vs[i], ws[i]);
    }
    assert Canonical(lib, List(vs)) == List(cs) && Canonical(lib, List(ws)) == List(ds);
    if cs == ds {
      assert |cs| == |vs| && |ds| == |ws|;
      assert forall i :: 0 <= i < |vs| ==> cs[i] == ds[i];
    }
    if |vs| == |ws| && forall i :: 0 <= i < |vs| ==> Alike(lib, vs[i], ws[i]) {
      assert cs == ds;
    }
  }

  // ---------- The canonical form itself ----------

  /** Canonical values are made of null, truth values, numbers, text of lowercase
      words joined by single spaces, lists, and mappings with sorted keys. */
  ghost predicate Plain(v: Value) {
    match v
    case Leaf(Str(s)) => s == Join(LowerWords(s))
    case Leaf(x) => !x.Bytes?
    case List(vs) => forall i :: 0 <= i < |vs| ==> Plain(vs[i])
    case Dict(items) => SortedKeys(items) && forall i :: 0 <= i < |items| ==> Plain(items[i].value)
    case _ => false
  }

  lemma {:induction false} PlainIsCanonical(lib: Library, v: Value)
    requires Plain(v)
    ensures Acceptable(lib, v) && Canonical(lib, v) == v
  {
    match v
    case Leaf(x) =>
      if x.Str? {
        NormalizeIsJoin(x.s);
      }
    case List(vs) =>
      forall i | 0 <= i < |vs| ensures Acceptable(lib, vs[i]) && Canonical(lib, vs[i]) == vs[i] {
        PlainIsCanonical(lib, vs[i]);
      }
      assert seq(|vs|, i requires 0 <= i < |vs| => Canonical(lib, vs[i])) == vs;
    case Dict(items) =>
      forall i | 0 <= i < |items|
        ensures Acceptable(lib, items[i].value) && IsCanonical(lib, items[i].value)
      {
        PlainIsCanonical(lib, items[i].value);
      }
      FixedItems(lib, items);
  }

  lemma {:induction false} CanonicalIsPlain(lib: Library, v: Value)
    requires HexDigests(lib) && Canonical(lib, v) == v
    ensures Plain(v)
  {
    match v
    case Leaf(x) =>
      if x.Str? {
        NormalizeIsJoin(x.s);
      }
    case List(vs) =>
      var cs := seq(|vs|, i requires 0 <= i < |vs| => Canonical(lib, vs[i]));
      assert Canonical(lib, v) == List(cs);
      forall i | 0 <= i < |vs| ensures Plain(vs[i]) {
        assert cs[i] == vs[i];
        CanonicalIsPlain(lib, vs[i]);
      }
    case Dict(items) =>
      ItemsAreCanonical(lib, items);
      forall i | 0 <= i < |items| ensures Plain(items[i].value) {
        assert items[i] in CanonicalItems(lib, items);
        CanonicalIsPlain(lib, items[i].value);
      }
  }

  /** The canonical form of a value is the one plain value alike to it. */
  lemma CanonicalExactly(lib: Library, v: Value, w: Value)
    requires HexDigests(lib) && Acceptable(lib, v)
    ensures w == Canonical(lib, v) <==> Plain(w) && Alike(lib, v, w)
  {
    if w == Canonical(lib, v) {
      CanonicalIdempotent(lib, v);
      CanonicalIsPlain(lib, w);
    }
    if Plain(w) {
      PlainIsCanonical(lib, w);
      AlikeExactly(lib, v, w);
    }
  }

  // ---------- Requests ----------

  /** What the field of the system prompt stands for: the hash given, if it is
      alone or comes last, and otherwise the digest of the words of the prompt. */
  ghost function SystemValue(b: Builder, params: Params): Option<Value> {
    var system, hash := Find(params, "system"), Find(params, "system_hash");
    if HashGiven(b, hash) && (!SystemGiven(b, system) || HashLast(params)) then hash
    else if SystemGiven(b, system) then Some(Leaf(Str(b.lib.sha(Join(LowerWords(b.lib.str(system.value)))))))
    else None
  }

  /** The value that a request has for a field: none if the parameter is absent or
      excluded, and otherwise what the caller gave, but for the system prompt. */
  ghost function FieldValue(b: Builder, params: Params, name: string): Option<Value> {
    if name == "system_hash" then SystemValue(b, params)
    else if name in b.exclude then None
    else if name == "system" && Find(params, name) != Some(Leaf(Null)) then None
    else Find(params, name)
  }

  /** The two requests agree on every field. */
  ghost predicate SameRequest(b: Builder, params: Params, others: Params) {
    forall name :: SameField(b.lib, FieldValue(b, params, name), FieldValue(b, others, name))
  }

  /** Parameters that a caller can give and that raise no type error. */
  ghost predicate Given(b: Builder, params: Params) {
    DistinctKeys(params) && forall i :: 0 <= i < |params| ==> ProperSets(params[i].value) && !Raises(b, params[i])
  }

  lemma FieldMeans(b: Builder, params: Params, name: string)
    requires HexDigests(b.lib) && Given(b, params)
    ensures LastField(b, params, name) ==
      if FieldValue(b, params, name) == None then None else Some(Canonical(b.lib, FieldValue(b, params, name).value))
    ensures FieldValue(b, params, name).Some? ==> Acceptable(b.lib, FieldValue(b, params, name).value)
  {
    FindIn(params, name);
    if name == "system_hash" {
      var system := Find(params, "system");
      LastFieldIsSystem(b, params);
      if SystemGiven(b, system) {
        NormalizeIsJoin(b.lib.str(system.value));
        CanonicalText(b.lib, SystemHash(b, system.value));
        DigestIsCanonical(b.lib, Normalize(b.lib.str(system.value)));
      }
    } else {
      LastFieldIsOwn(b, params, name);
    }
  }

  lemma DigestIsCanonical(lib: Library, data: string)
    requires HexDigests(lib)
    ensures Normalize(lib.sha(data)) == lib.sha(data)
  {
  }

  lemma FieldsAgree(b: Builder, params: Params, others: Params, name: string)
    requires HexDigests(b.lib) && Given(b, params) && Given(b, others)
    ensures LastField(b, params, name) == LastField(b, others, name)
      <==> SameField(b.lib, FieldValue(b, params, name), FieldValue(b, others, name))
  {
    FieldMeans(b, params, name);
    FieldMeans(b, others, name);
    if FieldValue(b, params, name).Some? && FieldValue(b, others, name).Some? {
      AlikeExactly(b.lib, FieldValue(b, params, name).value, FieldValue(b, others, name).value);
    }
  }

  /** Two requests have the same metadata exactly if they agree on every field. */
  lemma MetadataMeans(b: Builder, params: Params, others: Params)
    requires HexDigests(b.lib) && Given(b, params) && Given(b, others)
    ensures Metadata(b, params) == Metadata(b, others) <==> SameRequest(b, params, others)
  {
    MetadataAgrees(b, params, others);
    forall name
      ensures LastField(b, params, name) == LastField(b, others, name)
        <==> SameField(b.lib, FieldValue(b, params, name), FieldValue(b, others, name))
    {
      FieldsAgree(b, params, others, name);
    }
  }

  /** Both requests have a key, and the JSON forms of their key materials tell them
      apart. */
  ghost predicate Keyed(b: Builder, prompt: string, params: Params, prompt': string, others: Params) {
    && HexDigests(b.lib) && Injective(b.lib) && Given(b, params) && Given(b, others)
    && TellsApart(b.lib, Components(b.namespace, b.version, Normalize(prompt), Metadata(b, params)),
                  Components(b.namespace, b.version, Normalize(prompt'), Metadata(b, others)))
  }

  /** Two requests share a key exactly if the words of their prompts are the same
      and they agree on every field. */
  lemma KeysAgreeExactly(b: Builder, prompt: string, params: Params, prompt': string, others: Params)
    requires Keyed(b, prompt, params, prompt', others)
    ensures BuildKey(b, prompt, params).Some? && BuildKey(b, prompt', others).Some?
    ensures BuildKey(b, prompt, params) == BuildKey(b, prompt', others)
      <==> LowerWords(prompt) == LowerWords(prompt') && SameRequest(b, params, others)
  {
    KeysSeparateRequests(b, prompt, params, b, prompt', others);
    MetadataMeans(b, params, others);
  }

  /** One field on which they disagree is enough to keep them apart. */
  lemma UnrelatedFieldsDiffer(b: Builder, prompt: string, params: Params, prompt': string, others: Params, name: string)
    requires Keyed(b, prompt, params, prompt', others)
    requires !SameField(b.lib, FieldValue(b, params, name), FieldValue(b, others, name))
    ensures BuildKey(b, prompt, params) != BuildKey(b, prompt', others)
  {
    KeysAgreeExactly(b, prompt, params, prompt', others);
  }

  /** A parameter that the builder takes as it is. */
  predicate Counted(b: Builder, name: string) {
    name !in b.exclude && name != "system" && name != "system_hash"
  }

  predicate IsPlainNumber(v: Value) {
    v.Leaf? && IsNumber(v.scalar)
  }

  /** So are two numbers or truth values, such as two temperatures. */
  lemma NumbersDiffer(b: Builder, prompt: string, params: Params, prompt': string, others: Params, name: string)
    requires Keyed(b, prompt, params, prompt', others) && Counted(b, name)
    requires Find(params, name).Some? && Find(others, name).Some?
    requires IsPlainNumber(Find(params, name).value) && IsPlainNumber(Find(others, name).value)
    ensures BuildKey(b, prompt, params) == BuildKey(b, prompt', others) ==> Find(params, name) == Find(others, name)
  {
    if Find(params, name) != Find(others, name) {
      UnrelatedFieldsDiffer(b, prompt, params, prompt', others, name);
    }
  }

  /** Two texts with different words. */
  lemma TextsDiffer(b: Builder, prompt: string, params: Params, prompt': string, others: Params, name: string,
                    s: string, t: string)
    requires Keyed(b, prompt, params, prompt', others) && Counted(b, name)
    requires Find(params, name) == Some(Leaf(Str(s))) && Find(others, name) == Some(Leaf(Str(t)))
    ensures BuildKey(b, prompt, params) == BuildKey(b, prompt', others) ==> LowerWords(s) == LowerWords(t)
  {
    if LowerWords(s) != LowerWords(t) {
      UnrelatedFieldsDiffer(b, prompt, params, prompt', others, name);
    }
  }

  /** Two lists that disagree at one place, or in length. */
  lemma ListsDiffer(b: Builder, prompt: string, params: Params, prompt': string, others: Params, name: string,
                    vs: seq<Value>, ws: seq<Value>)
    requires Keyed(b, prompt, params, prompt', others) && Counted(b, name)
    requires Find(params, name) == Some(List(vs)) && Find(others, name) == Some(List(ws))
    ensures BuildKey(b, prompt, params) == BuildKey(b, prompt', others) ==>
      |vs| == |ws| && forall i :: 0 <= i < |vs| ==> Alike(b.lib, vs[i], ws[i])
  {
    if !Alike(b.lib, List(vs), List(ws)) {
      UnrelatedFieldsDiffer(b, prompt, params, prompt', others, name);
    }
  }

  /** A parameter that only one of the requests gives. */
  lemma AbsenceDiffers(b: Builder, prompt: string, params: Params, prompt': string, others: Params, name: string)
    requires Keyed(b, prompt, params, prompt', others) && Counted(b, name)
    ensures BuildKey(b, prompt, params) == BuildKey(b, prompt', others) ==>
      (Find(params, name) == None <==> Find(others, name) == None)
  {
    if (Find(params, name) == None) != (Find(others, name) == None) {
      UnrelatedFieldsDiffer(b, prompt, params, prompt', others, name);
    }
  }

  /** Two system prompts with different words. */
  lemma SystemPromptsDiffer(b: Builder, prompt: string, params: Params, prompt': string, others: Params,
                            s: string, t: string)
    requires Keyed(b, prompt, params, prompt', others) && "system" !in b.exclude
    requires Find(params, "system") == Some(Leaf(Str(s))) && Find(others, "system") == Some(Leaf(Str(t)))
    requires Find(params, "system_hash") == None && Find(others, "system_hash") == None
    ensures BuildKey(b, prompt, params) == BuildKey(b, prompt', others) ==>
      LowerWords(b.lib.str(Leaf(Str(s)))) == LowerWords(b.lib.str(Leaf(Str(t))))
  {
    var ws, ws' := LowerWords(b.lib.str(Leaf(Str(s)))), LowerWords(b.lib.str(Leaf(Str(t))));
    if ws != ws' {
      DigestsDiffer(b.lib, b.lib.str(Leaf(Str(s))), b.lib.str(Leaf(Str(t))));
      UnrelatedFieldsDiffer(b, prompt, params, prompt', others, "system_hash");
    }
  }

  lemma DigestsDiffer(lib: Library, s: string, t: string)
    requires HexDigests(lib) && Injective(lib) && LowerWords(s) != LowerWords(t)
    ensures !SameLeaf(lib, Leaf(Str(lib.sha(Join(LowerWords(s))))), Leaf(Str(lib.sha(Join(LowerWords(t))))))
  {
    var d, e := lib.sha(Join(LowerWords(s))), lib.sha(Join(LowerWords(t)));
    NormalizeSeparates(s, t);
    NormalizeIsJoin(s);
    NormalizeIsJoin(t);
    assert d != e && Normalize(d) == d && Normalize(e) == e;
    NormalizeSeparates(d, e);
  }
}
