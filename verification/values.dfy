/** The values that requests, entries and lines of JSON are made of, and
    dictionaries as sequences of pairs in iteration order. */
module Values {
  import opened KeySeq
  import opened Ordering

  datatype Scalar =
    | Null
    | Bool(b: bool)
    | Int(n: int)
    | Float(r: real)
    | Str(s: string)
    | Bytes(data: string)

  /** `Dict` pairs the `str` forms of the keys with the values, in iteration
      order; `SetOf` lists the elements of a set of scalars, in iteration order;
      `Other` stands for any further object by its `str` form. */
  datatype Value =
    | Leaf(scalar: Scalar)
    | Dict(items: seq<Item>)
    | SetOf(elements: seq<Scalar>)
    | List(values: seq<Value>)
    | Other(text: string)

  datatype Item = Item(key: string, value: Value)

  ghost predicate DistinctKeys(items: seq<Item>) {
    forall i, j :: 0 <= i < j < |items| ==> items[i].key != items[j].key
  }

  // ---------- Dictionaries in insertion order ----------

  function Find(d: seq<Item>, key: string): Option<Value> {
    if d == [] then None
    else if d[|d| - 1].key == key then Some(d[|d| - 1].value)
    else Find(d[..|d| - 1], key)
  }

  /** Assignment into a dictionary: a present key keeps its place, a new one goes
      to the end. */
  function SetField(d: seq<Item>, field: Item): seq<Item> {
    if Find(d, field.key) == None then d + [field] else Replace(d, field)
  }

  function Replace(d: seq<Item>, field: Item): seq<Item> {
    if d == [] then []
    else
      var init, last := d[..|d| - 1], d[|d| - 1];
      if last.key == field.key then init + [field] else Replace(init, field) + [last]
  }

  lemma FindSnoc(d: seq<Item>, last: Item, key: string)
    ensures Find(d + [last], key) == if last.key == key then Some(last.value) else Find(d, key)
  {
    assert (d + [last])[..|d|] == d;
  }

  lemma {:induction false} FindReplace(d: seq<Item>, field: Item, key: string)
    requires Find(d, field.key).Some?
    ensures Find(Replace(d, field), key) == if key == field.key then Some(field.value) else Find(d, key)
  {
    var init, last := d[..|d| - 1], d[|d| - 1];
    if last.key == field.key {
      FindSnoc(init, field, key);
    } else {
      FindReplace(init, field, key);
      FindSnoc(Replace(init, field), last, key);
    }
  }

  lemma FindSetField(d: seq<Item>, field: Item, key: string)
    ensures Find(SetField(d, field), key) == if key == field.key then Some(field.value) else Find(d, key)
  {
    if Find(d, field.key) == None {
      FindSnoc(d, field, key);
    } else {
      FindReplace(d, field, key);
    }
  }

  /** What is found is in the dictionary; with distinct keys, the converse. */
  lemma {:induction false} FindIn(d: seq<Item>, key: string)
    ensures Find(d, key).Some? ==> exists i :: 0 <= i < |d| && d[i].key == key && d[i].value == Find(d, key).value
    ensures Find(d, key) == None ==> forall i :: 0 <= i < |d| ==> d[i].key != key
  {
    if d != [] {
      var init := d[..|d| - 1];
      FindIn(init, key);
      if d[|d| - 1].key != key {
        if Find(d, key).Some? {
          var i :| 0 <= i < |init| && init[i].key == key && init[i].value == Find(init, key).value;
          assert d[i] == init[i];
        } else {
          assert forall i :: 0 <= i < |init| ==> d[i] == init[i];
        }
      }
    }
  }

  lemma {:induction false} FindDistinct(d: seq<Item>, i: nat)
    requires DistinctKeys(d) && i < |d|
    ensures Find(d, d[i].key) == Some(d[i].value)
  {
    if i < |d| - 1 {
      FindDistinct(d[..|d| - 1], i);
    }
  }

  // ---------- Dictionaries with sorted keys ----------

  /** `item` replaces the pair with its key, or joins at its place. */
  function PutSorted(d: seq<Item>, item: Item): seq<Item> {
    if d == [] then [item]
    else
      var init, last := d[..|d| - 1], d[|d| - 1];
      if item.key == last.key then init + [item]
      else if Precedes(item.key, last.key) then PutSorted(init, item) + [last]
      else d + [item]
  }

  ghost predicate SortedKeys(d: seq<Item>) {
    forall i, j :: 0 <= i < j < |d| ==> Precedes(d[i].key, d[j].key)
  }

  lemma {:induction false} PutFacts(d: seq<Item>, item: Item)
    requires SortedKeys(d)
    ensures SortedKeys(PutSorted(d, item))
    ensures forall p :: p in PutSorted(d, item) ==> p == item || p in d
  {
    if d != [] {
      var init, last := d[..|d| - 1], d[|d| - 1];
      PrecedesTotal(item.key, last.key);
      if item.key == last.key {
      } else if Precedes(item.key, last.key) {
        PutFacts(init, item);
        forall i | 0 <= i < |PutSorted(init, item)| ensures Precedes(PutSorted(init, item)[i].key, last.key) {
          assert PutSorted(init, item)[i] in PutSorted(init, item);
        }
      } else {
        forall i | 0 <= i < |init| ensures Precedes(init[i].key, item.key) {
          PrecedesTransitive(init[i].key, last.key, item.key);
        }
      }
    }
  }

  lemma PutSnoc(d: seq<Item>, last: Item, item: Item)
    ensures PutSorted(d + [last], item) ==
      if item.key == last.key then d + [item]
      else if Precedes(item.key, last.key) then PutSorted(d, item) + [last]
      else d + [last] + [item]
  {
    assert (d + [last])[..|d|] == d;
  }

  /** The later of two keys goes to the end. */
  lemma PutCommutesAtEnd(d: seq<Item>, x: Item, y: Item)
    requires d != [] && Precedes(x.key, y.key) && !Precedes(y.key, x.key) && x.key != y.key
    requires Precedes(d[|d| - 1].key, y.key) && !Precedes(y.key, d[|d| - 1].key) && y.key != d[|d| - 1].key
    ensures PutSorted(PutSorted(d, x), y) == PutSorted(d, x) + [y]
          && PutSorted(PutSorted(d, y), x) == PutSorted(d, x) + [y]
  {
    var init, last := d[..|d| - 1], d[|d| - 1];
    assert PutSorted(d, y) == d + [y];
    PutSnoc(d, y, x);
    if x.key == last.key {
      PutSnoc(init, x, y);
    } else if Precedes(x.key, last.key) {
      PutSnoc(PutSorted(init, x), last, y);
    } else {
      PutSnoc(d, x, y);
    }
  }

  /** Pairs with different keys may be put in either order. */
  lemma {:induction false} PutCommutes(d: seq<Item>, x: Item, y: Item)
    requires Precedes(x.key, y.key)
    ensures PutSorted(PutSorted(d, x), y) == PutSorted(PutSorted(d, y), x)
  {
    PrecedesTotal(x.key, y.key);
    if d == [] {
      assert PutSorted(d, x) == [] + [x] && PutSorted(d, y) == [] + [y];
      PutSnoc([], x, y);
      PutSnoc([], y, x);
    } else {
      var init, last := d[..|d| - 1], d[|d| - 1];
      PrecedesTotal(y.key, last.key);
      PrecedesTotal(x.key, last.key);
      if Precedes(y.key, last.key) {
        PrecedesTransitive(x.key, y.key, last.key);
        PutCommutes(init, x, y);
        assert PutSorted(d, x) == PutSorted(init, x) + [last] && PutSorted(d, y) == PutSorted(init, y) + [last];
        PutSnoc(PutSorted(init, x), last, y);
        PutSnoc(PutSorted(init, y), last, x);
      } else if y.key == last.key {
        assert PutSorted(d, x) == PutSorted(init, x) + [last] && PutSorted(d, y) == init + [y];
        PutSnoc(PutSorted(init, x), last, y);
        PutSnoc(init, y, x);
      } else {
        PutCommutesAtEnd(d, x, y);
      }
    }
  }

  /** The second of two pairs with the same key wins. */
  lemma {:induction false} PutTwice(d: seq<Item>, x: Item, y: Item)
    requires x.key == y.key
    ensures PutSorted(PutSorted(d, x), y) == PutSorted(d, y)
  {
    PrecedesTotal(x.key, x.key);
    if d == [] {
      assert [x][..0] == [];
    } else {
      var init, last := d[..|d| - 1], d[|d| - 1];
      if x.key == last.key {
        assert (init + [x])[..|init|] == init;
      } else if Precedes(x.key, last.key) {
        PutTwice(init, x, y);
        assert (PutSorted(init, x) + [last])[..|PutSorted(init, x)|] == PutSorted(init, x);
      } else {
        assert (d + [x])[..|d|] == d;
      }
    }
  }

  // ---------- Sorted dictionaries are determined by what they contain ----------

  lemma {:induction false} FindPut(d: seq<Item>, item: Item, key: string)
    requires SortedKeys(d)
    ensures Find(PutSorted(d, item), key) == if key == item.key then Some(item.value) else Find(d, key)
  {
    if d == [] {
      FindSnoc([], item, key);
    } else {
      var init, last := d[..|d| - 1], d[|d| - 1];
      if item.key == last.key {
        FindSnoc(init, item, key);
      } else if Precedes(item.key, last.key) {
        FindPut(init, item, key);
        FindSnoc(PutSorted(init, item), last, key);
      } else {
        FindSnoc(d, item, key);
      }
    }
  }

  lemma SortedLast(d: seq<Item>, e: seq<Item>)
    requires SortedKeys(d) && SortedKeys(e) && d != [] && e != []
    requires forall key :: Find(d, key) == Find(e, key)
    ensures d[|d| - 1].key == e[|e| - 1].key
  {
    var x, y := d[|d| - 1].key, e[|e| - 1].key;
    assert Find(d, x).Some? && Find(e, y).Some?;
    FindIn(d, y);
    FindIn(e, x);
    PrecedesTotal(x, y);
  }

  lemma {:induction false} SortedExtensional(d: seq<Item>, e: seq<Item>)
    requires SortedKeys(d) && SortedKeys(e)
    requires forall key :: Find(d, key) == Find(e, key)
    ensures d == e
  {
    LastIsFound(d);
    LastIsFound(e);
    if d != [] && e != [] {
      SortedLast(d, e);
      var before, before', x := d[..|d| - 1], e[..|e| - 1], d[|d| - 1].key;
      assert Find(d, x) == Find(e, x);
      SortedAbsent(d);
      SortedAbsent(e);
      forall key ensures Find(before, key) == Find(before', key) {
        assert key != x ==> Find(d, key) == Find(e, key);
      }
      SortedExtensional(before, before');
      assert d == before + [d[|d| - 1]] && e == before' + [e[|e| - 1]];
    }
  }

  lemma LastIsFound(d: seq<Item>)
    ensures d != [] ==> Find(d, d[|d| - 1].key).Some?
  {
  }

  lemma SortedAbsent(d: seq<Item>)
    requires SortedKeys(d) && d != []
    ensures Find(d[..|d| - 1], d[|d| - 1].key) == None
  {
    var init, key := d[..|d| - 1], d[|d| - 1].key;
    FindIn(init, key);
    PrecedesTotal(key, key);
  }

  // ---------- What JSON keeps ----------

  /** Text, numbers, truth values, nothing, lists, and dictionaries with distinct
      text keys. */
  ghost predicate JsonNative(v: Value) {
    match v
    case Leaf(x) => !x.Bytes?
    case Dict(items) => DistinctKeys(items) && forall i :: 0 <= i < |items| ==> JsonNative(items[i].value)
    case List(vs) => forall i :: 0 <= i < |vs| ==> JsonNative(vs[i])
    case _ => false
  }

  /** JSON is written with the keys of every dictionary sorted. */
  function SortKeys(v: Value): Value
    decreases v, 0
  {
    match v
    case Dict(items) => Dict(SortItems(items))
    case List(vs) => List(seq(|vs|, i requires 0 <= i < |vs| => SortKeys(vs[i])))
    case _ => v
  }

  function SortItems(items: seq<Item>): seq<Item>
    decreases items, 1
  {
    if items == [] then []
    else
      var last := items[|items| - 1];
      PutSorted(SortItems(items[..|items| - 1]), Item(last.key, SortKeys(last.value)))
  }

  lemma {:induction false} SortItemsSorts(items: seq<Item>)
    ensures SortedKeys(SortItems(items))
  {
    if items != [] {
      SortItemsSorts(items[..|items| - 1]);
      PutFacts(SortItems(items[..|items| - 1]), Item(items[|items| - 1].key, SortKeys(items[|items| - 1].value)));
    }
  }

  /** Sorting the keys changes what is found under none of them. */
  lemma {:induction false} FindSorted(items: seq<Item>, key: string)
    ensures Find(SortItems(items), key) ==
      if Find(items, key) == None then None else Some(SortKeys(Find(items, key).value))
  {
    if items != [] {
      var init, last := items[..|items| - 1], items[|items| - 1];
      FindSorted(init, key);
      SortItemsSorts(init);
      FindPut(SortItems(init), Item(last.key, SortKeys(last.value)), key);
    }
  }

  lemma SortedDistinct(d: seq<Item>)
    requires SortedKeys(d)
    ensures DistinctKeys(d)
  {
    forall i, j | 0 <= i < j < |d| ensures d[i].key != d[j].key {
      PrecedesTotal(d[i].key, d[i].key);
      assert Precedes(d[i].key, d[j].key);
    }
  }
}
