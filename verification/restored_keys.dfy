/** What sorting the keys of a request does to its cache key: JSON is written
    that way, and the order of the parameters can matter. */
module RestoredKeys {
  import opened KeySeq
  import opened Text
  import opened Ordering
  import opened Values
  import opened KeyBuilder
  import opened CacheKeys

  // ---------- Metadata, field by field ----------

  /** The last value that `params` write to a field of the metadata. */
  function LastField(b: Builder, params: Params, name: string): Option<Value> {
    if params == [] then None
    else
      var field := Field(b, params[|params| - 1]);
      if field.Some? && field.value.key == name then Some(field.value.value)
      else LastField(b, params[..|params| - 1], name)
  }

  lemma {:induction false} FoldFields(b: Builder, params: Params, name: string)
    ensures SortedKeys(Fold(ParamStep(b), [], params))
    ensures Find(Fold(ParamStep(b), [], params), name) == LastField(b, params, name)
  {
    if params != [] {
      var init, p := params[..|params| - 1], params[|params| - 1];
      FoldFields(b, init, name);
      if Field(b, p).Some? {
        PutFacts(Fold(ParamStep(b), [], init), Field(b, p).value);
        FindPut(Fold(ParamStep(b), [], init), Field(b, p).value, name);
      }
    }
  }

  ghost predicate SameFields(b: Builder, params: Params, others: Params) {
    forall name :: LastField(b, params, name) == LastField(b, others, name)
  }

  lemma MetadataFields(b: Builder, params: Params, name: string) returns (d: seq<Item>)
    requires HexDigests(b.lib)
    ensures Metadata(b, params) == Dict(d) && SortedKeys(d) && Find(d, name) == LastField(b, params, name)
  {
    d := Fold(ParamStep(b), [], params);
    MetadataFolds(b, params);
    FoldFields(b, params, name);
  }

  /** Two requests have the same metadata exactly when they write the same to
      every field. */
  lemma MetadataAgrees(b: Builder, params: Params, others: Params)
    requires HexDigests(b.lib)
    ensures Metadata(b, params) == Metadata(b, others) <==> SameFields(b, params, others)
  {
    var d := MetadataFields(b, params, "");
    var e := MetadataFields(b, others, "");
    if Metadata(b, params) == Metadata(b, others) {
      forall name ensures LastField(b, params, name) == LastField(b, others, name) {
        var _ := MetadataFields(b, params, name);
        var _ := MetadataFields(b, others, name);
      }
    }
    if SameFields(b, params, others) {
      forall name ensures Find(d, name) == Find(e, name) {
        var _ := MetadataFields(b, params, name);
        var _ := MetadataFields(b, others, name);
        assert LastField(b, params, name) == LastField(b, others, name);
      }
      SortedExtensional(d, e);
    }
  }

  // ---------- Canonical values forget the order of keys ----------

  lemma {:induction false} FindCanonical(lib: Library, items: seq<Item>, name: string)
    ensures SortedKeys(CanonicalItems(lib, items))
    ensures Find(CanonicalItems(lib, items), name) ==
      if Find(items, name) == None then None else Some(Canonical(lib, Find(items, name).value))
  {
    if items != [] {
      var init, last := items[..|items| - 1], items[|items| - 1];
      var item := Item(last.key, Canonical(lib, last.value));
      FindCanonical(lib, init, name);
      PutFacts(CanonicalItems(lib, init), item);
      FindPut(CanonicalItems(lib, init), item, name);
    }
  }

  lemma {:induction false} CanonicalOfSorted(lib: Library, v: Value)
    ensures Canonical(lib, SortKeys(v)) == Canonical(lib, v)
  {
    match v
    case Dict(items) =>
      var d, e := CanonicalItems(lib, SortItems(items)), CanonicalItems(lib, items);
      forall name ensures Find(d, name) == Find(e, name) {
        FindCanonical(lib, SortItems(items), name);
        FindCanonical(lib, items, name);
        FindSorted(items, name);
        FindIn(items, name);
        if Find(items, name).Some? {
          var i :| 0 <= i < |items| && items[i].key == name && items[i].value == Find(items, name).value;
          CanonicalOfSorted(lib, items[i].value);
        }
      }
      FindCanonical(lib, SortItems(items), "");
      FindCanonical(lib, items, "");
      SortedExtensional(d, e);
    case List(vs) =>
      forall i | 0 <= i < |vs| ensures Canonical(lib, SortKeys(vs[i])) == Canonical(lib, vs[i]) {
        CanonicalOfSorted(lib, vs[i]);
      }
    case _ =>
  }

  lemma {:induction false} NativeIsSortable(lib: Library, v: Value)
    requires JsonNative(v)
    ensures Sortable(lib, v)
  {
    match v
    case Leaf(_) =>
    case Dict(items) =>
      forall i | 0 <= i < |items| ensures Sortable(lib, items[i].value) {
        NativeIsSortable(lib, items[i].value);
      }
    case List(vs) =>
      forall i | 0 <= i < |vs| ensures Sortable(lib, vs[i]) {
        NativeIsSortable(lib, vs[i]);
      }
  }

  lemma {:induction false} SortedIsNative(v: Value)
    requires JsonNative(v)
    ensures JsonNative(SortKeys(v))
  {
    match v
    case Leaf(_) =>
    case Dict(items) =>
      var sorted := SortItems(items);
      SortItemsSorts(items);
      SortedDistinct(sorted);
      forall i | 0 <= i < |sorted| ensures JsonNative(sorted[i].value) {
        FindDistinct(sorted, i);
        FindSorted(items, sorted[i].key);
        FindIn(items, sorted[i].key);
        var j :| 0 <= j < |items| && items[j].key == sorted[i].key
          && items[j].value == Find(items, sorted[i].key).value;
        SortedIsNative(items[j].value);
      }
    case List(vs) =>
      forall i | 0 <= i < |vs| ensures JsonNative(SortKeys(vs[i])) {
        SortedIsNative(vs[i]);
      }
  }

  // ---------- Sorting the parameters of a request ----------

  /** What the parameter named `name` writes to the field of that name. */
  function OwnField(b: Builder, name: string, v: Option<Value>): Option<Value> {
    if v == None || name in b.exclude || (name == "system" && v.value != Leaf(Null)) then None
    else Some(Canonical(b.lib, v.value))
  }

  lemma {:induction false} NoField(b: Builder, params: Params, name: string)
    requires name != "system_hash" && forall i :: 0 <= i < |params| ==> params[i].key != name
    ensures LastField(b, params, name) == None
  {
    if params != [] {
      NoField(b, params[..|params| - 1], name);
    }
  }

  lemma {:induction false} LastFieldIsOwn(b: Builder, params: Params, name: string)
    requires DistinctKeys(params) && name != "system_hash"
    ensures LastField(b, params, name) == OwnField(b, name, Find(params, name))
  {
    if params != [] {
      var init, p := params[..|params| - 1], params[|params| - 1];
      if p.key == name {
        NoField(b, init, name);
      } else {
        LastFieldIsOwn(b, init, name);
      }
    }
  }

  predicate SystemGiven(b: Builder, v: Option<Value>) {
    v.Some? && v.value != Leaf(Null) && "system" !in b.exclude
  }

  predicate HashGiven(b: Builder, v: Option<Value>) {
    v.Some? && "system_hash" !in b.exclude
  }

  predicate HashAfter(params: Params, i: int, j: int) {
    0 <= i < j < |params| && params[i].key == "system" && params[j].key == "system_hash"
  }

  /** The parameter `system_hash` comes after `system`. */
  ghost predicate HashLast(params: Params) {
    exists i, j :: HashAfter(params, i, j)
  }

  /** The field that both ways to give a system prompt write to. */
  function SystemField(b: Builder, system: Option<Value>, hash: Option<Value>, hashLast: bool): Option<Value> {
    if HashGiven(b, hash) && (!SystemGiven(b, system) || hashLast) then Some(Canonical(b.lib, hash.value))
    else if SystemGiven(b, system) then Some(SystemHash(b, system.value))
    else None
  }

  lemma {:induction false} LastFieldIsSystem(b: Builder, params: Params)
    requires DistinctKeys(params)
    ensures LastField(b, params, "system_hash") ==
      SystemField(b, Find(params, "system"), Find(params, "system_hash"), HashLast(params))
  {
    if params != [] {
      var init, p := params[..|params| - 1], params[|params| - 1];
      LastFieldIsSystem(b, init);
      FindIn(init, "system");
      FindIn(init, "system_hash");
      HashLastSnoc(init, p);
      assert params == init + [p];
    }
  }

  lemma HashLastSnoc(init: Params, p: Item)
    ensures HashLast(init + [p]) <==>
      HashLast(init) || (p.key == "system_hash" && exists i :: 0 <= i < |init| && init[i].key == "system")
  {
    var params := init + [p];
    if i, j :| HashAfter(init, i, j) {
      assert HashAfter(params, i, j);
    }
    if p.key == "system_hash" {
      if i :| 0 <= i < |init| && init[i].key == "system" {
        assert HashAfter(params, i, |init|);
      }
    }
    if i, j :| HashAfter(params, i, j) {
      assert init[i].key == "system";
      assert j < |init| ==> HashAfter(init, i, j);
    }
  }

  /** Sorting the parameters is harmless: a system prompt after a `system_hash`
      agrees with it, and one given alone reads the same with its keys sorted, as
      any text does. */
  ghost predicate Restorable(b: Builder, params: Params) {
    var system, hash := Find(params, "system"), Find(params, "system_hash");
    SystemGiven(b, system) ==>
      if HashGiven(b, hash) then HashLast(params) || SystemHash(b, system.value) == Canonical(b.lib, hash.value)
      else SystemHash(b, SortKeys(system.value)) == SystemHash(b, system.value)
  }

  lemma SortedHashLast(params: Params)
    requires Find(params, "system").Some? && Find(params, "system_hash").Some?
    ensures HashLast(SortItems(params))
  {
    var sorted := SortItems(params);
    SortItemsSorts(params);
    FindSorted(params, "system");
    FindSorted(params, "system_hash");
    FindIn(sorted, "system");
    FindIn(sorted, "system_hash");
    var i :| 0 <= i < |sorted| && sorted[i].key == "system";
    var j :| 0 <= j < |sorted| && sorted[j].key == "system_hash";
    SystemPrecedesHash();
    assert HashAfter(sorted, i, j);
  }

  lemma SystemPrecedesHash()
    ensures Precedes("system", "system_hash") && !Precedes("system_hash", "system")
  {
    PrecedesExtension("system", "_hash");
    assert "system" + "_hash" == "system_hash";
    PrecedesTotal("system", "system_hash");
  }

  lemma {:induction false} PrecedesExtension(s: string, t: string)
    requires t != []
    ensures Precedes(s, s + t)
  {
    if s != [] {
      PrecedesExtension(s[1..], t);
      assert (s + t)[1..] == s[1..] + t;
    }
  }

  lemma SortedSystemField(b: Builder, params: Params)
    requires DistinctKeys(params)
    ensures LastField(b, SortItems(params), "system_hash") == LastField(b, params, "system_hash")
      <==> Restorable(b, params)
  {
    var sorted := SortItems(params);
    var system, hash := Find(params, "system"), Find(params, "system_hash");
    SortItemsSorts(params);
    SortedDistinct(sorted);
    LastFieldIsSystem(b, params);
    LastFieldIsSystem(b, sorted);
    FindSorted(params, "system");
    FindSorted(params, "system_hash");
    SortedNull(system);
    if system.Some? && hash.Some? {
      SortedHashLast(params);
    }
    if hash.Some? {
      CanonicalOfSorted(b.lib, hash.value);
    }
  }

  lemma SortedNull(v: Option<Value>)
    ensures v.Some? ==> (SortKeys(v.value) == Leaf(Null) <==> v.value == Leaf(Null))
  {
  }

  lemma SortedOtherField(b: Builder, params: Params, name: string)
    requires DistinctKeys(params) && name != "system_hash"
    ensures LastField(b, SortItems(params), name) == LastField(b, params, name)
  {
    var sorted, v := SortItems(params), Find(params, name);
    SortItemsSorts(params);
    SortedDistinct(sorted);
    LastFieldIsOwn(b, params, name);
    LastFieldIsOwn(b, sorted, name);
    FindSorted(params, name);
    SortedNull(v);
    if v.Some? {
      CanonicalOfSorted(b.lib, v.value);
    }
  }

  /** A request with sorted parameters has the metadata of the request it came
      from exactly when sorting is harmless. */
  lemma SortedMetadata(b: Builder, params: Params)
    requires HexDigests(b.lib) && DistinctKeys(params)
    ensures Metadata(b, SortItems(params)) == Metadata(b, params) <==> Restorable(b, params)
  {
    MetadataAgrees(b, SortItems(params), params);
    SortedSystemField(b, params);
    forall name | name != "system_hash" ensures LastField(b, SortItems(params), name) == LastField(b, params, name) {
      SortedOtherField(b, params, name);
    }
  }

  /** And the key: the request that a dump writes is answered under the key of
      the request it came from exactly when sorting is harmless. */
  lemma SortedKey(b: Builder, prompt: string, params: Params)
    requires HexDigests(b.lib) && Injective(b.lib) && JsonNative(Dict(params))
    requires
      TellsApart(b.lib, Components(b.namespace, b.version, Normalize(prompt), Metadata(b, SortItems(params))),
                 Components(b.namespace, b.version, Normalize(prompt), Metadata(b, params)))
    ensures BuildKey(b, prompt, SortItems(params)).Some? && BuildKey(b, prompt, params).Some?
    ensures BuildKey(b, prompt, SortItems(params)) == BuildKey(b, prompt, params) <==> Restorable(b, params)
  {
    NativeNeverRaises(b, params);
    SortedIsNative(Dict(params));
    NativeNeverRaises(b, SortItems(params));
    SortedMetadata(b, params);
    KeysSeparateRequests(b, prompt, SortItems(params), b, prompt, params);
  }

  lemma NativeNeverRaises(b: Builder, params: Params)
    requires JsonNative(Dict(params))
    ensures forall i :: 0 <= i < |params| ==> !Raises(b, params[i])
  {
    forall i | 0 <= i < |params| ensures !Raises(b, params[i]) {
      NativeIsSortable(b.lib, params[i].value);
    }
  }

  /** Text needs no sorting, so only the order of the two ways to give a system
      prompt can do harm. */
  lemma TextIsRestorable(b: Builder, params: Params)
    requires Find(params, "system").Some? ==> Find(params, "system").value.Leaf?
    requires Find(params, "system_hash") == None || HashLast(params)
    ensures Restorable(b, params)
  {
  }

  /** And it does: with `system_hash` first, the stored key is that of the system
      prompt and the restored key that of the hash. */
  lemma HashFirstIsNotRestorable(b: Builder, system: string, hash: string)
    requires "system" !in b.exclude && "system_hash" !in b.exclude
    ensures
      var params := [Item("system_hash", Leaf(Str(hash))), Item("system", Leaf(Str(system)))];
      Restorable(b, params) <==> b.lib.sha(Normalize(b.lib.str(Leaf(Str(system))))) == Normalize(hash)
  {
    var params := [Item("system_hash", Leaf(Str(hash))), Item("system", Leaf(Str(system)))];
    FindDistinct(params, 0);
    FindDistinct(params, 1);
    assert forall i, j :: !HashAfter(params, i, j);
  }

  /** So the dump of an entry stored with `system_hash` before `system` leads to
      another key, unless the hash is that of the prompt. */
  lemma HashFirstChangesKey(b: Builder, prompt: string, system: string, hash: string)
    requires HexDigests(b.lib) && Injective(b.lib) && "system" !in b.exclude && "system_hash" !in b.exclude
    requires
      var params := [Item("system_hash", Leaf(Str(hash))), Item("system", Leaf(Str(system)))];
      TellsApart(b.lib, Components(b.namespace, b.version, Normalize(prompt), Metadata(b, SortItems(params))),
                 Components(b.namespace, b.version, Normalize(prompt), Metadata(b, params)))
    ensures
      var params := [Item("system_hash", Leaf(Str(hash))), Item("system", Leaf(Str(system)))];
      BuildKey(b, prompt, SortItems(params)) == BuildKey(b, prompt, params)
      <==> b.lib.sha(Normalize(b.lib.str(Leaf(Str(system))))) == Normalize(hash)
  {
    var params := [Item("system_hash", Leaf(Str(hash))), Item("system", Leaf(Str(system)))];
    HashFirstIsNotRestorable(b, system, hash);
    SortedKey(b, prompt, params);
  }
}
