/** From a prompt and its request parameters to a cache key, and which requests
    share one. */
module CacheKeys {
  import opened KeySeq
  import opened Text
  import opened Ordering
  import opened Values
  import opened KeyBuilder

  /** Request parameters by name, in the order the caller gives them. */
  type Params = seq<Item>

  predicate IsSystemPrompt(p: Item) {
    p.key == "system" && p.value != Leaf(Null)
  }

  function SystemHash(b: Builder, value: Value): Value {
    Leaf(Str(b.lib.sha(Normalize(b.lib.str(value)))))
  }

  /** What one parameter contributes to the key material. */
  function Field(b: Builder, p: Item): Option<Item> {
    if p.key in b.exclude then None
    else if IsSystemPrompt(p) then Some(Item("system_hash", SystemHash(b, p.value)))
    else Some(Item(p.key, Canonical(b.lib, p.value)))
  }

  predicate Raises(b: Builder, p: Item) {
    p.key !in b.exclude && !IsSystemPrompt(p) && !Sortable(b.lib, p.value)
  }

  function Record(b: Builder, metadata: seq<Item>, p: Item): seq<Item> {
    if Field(b, p) == None then metadata else SetField(metadata, Field(b, p).value)
  }

  function Recorded(b: Builder, params: Params): seq<Item> {
    if params == [] then [] else Record(b, Recorded(b, params[..|params| - 1]), params[|params| - 1])
  }

  /** `None` stands for the type error of an unsortable set. */
  function ComponentsOf(b: Builder, prompt: string, params: Params): Option<Components> {
    if exists i :: 0 <= i < |params| && Raises(b, params[i]) then None
    else Some(Components(b.namespace, b.version, Normalize(prompt), Metadata(b, params)))
  }

  function Metadata(b: Builder, params: Params): Value {
    Canonical(b.lib, Dict(Recorded(b, params)))
  }

  method BuildComponents(b: Builder, prompt: string, params: Params) returns (r: Option<Components>)
    ensures r == ComponentsOf(b, prompt, params)
  {
    var normalized := Normalize(prompt);
    var metadata := [];
    for i := 0 to |params|
      invariant forall j :: 0 <= j < i ==> !Raises(b, params[j])
      invariant metadata == Recorded(b, params[..i])
    {
      var key, value := params[i].key, params[i].value;
      assert params[..i + 1][..i] == params[..i];
      if key in b.exclude {
        continue;
      }
      if key == "system" && value != Leaf(Null) {
        metadata := SetField(metadata, Item("system_hash", SystemHash(b, value)));
        continue;
      }
      var canonical := Canonicalize(b.lib, value);
      if canonical == None {
        return None;
      }
      metadata := SetField(metadata, Item(key, canonical.value));
    }
    assert params[..|params|] == params;
    return Some(Components(b.namespace, b.version, normalized, Canonical(b.lib, Dict(metadata))));
  }

  function BuildKey(b: Builder, prompt: string, params: Params): Option<Key> {
    var components := ComponentsOf(b, prompt, params);
    if components == None then None
    else Some(b.namespace + ":" + b.version + ":" + b.lib.sha(b.lib.dumps(components.value)))
  }

  /** A key is never empty, and names the namespace and version it is for. */
  lemma KeysAreNamed(b: Builder, prompt: string, params: Params)
    requires BuildKey(b, prompt, params).Some?
    ensures
      var key := BuildKey(b, prompt, params).value;
      key != "" && b.namespace + ":" + b.version + ":" <= key
  {
  }

  // ---------- The metadata, one parameter at a time ----------

  function ParamStep(b: Builder): (seq<Item>, Item) -> seq<Item> {
    (d, p: Item) => if Field(b, p) == None then d else PutSorted(d, Field(b, p).value)
  }

  lemma {:induction false} ReplaceIsPut(lib: Library, metadata: seq<Item>, field: Item)
    requires Find(metadata, field.key).Some?
    ensures CanonicalItems(lib, Replace(metadata, field)) ==
      PutSorted(CanonicalItems(lib, metadata), Item(field.key, Canonical(lib, field.value)))
  {
    var init, last := metadata[..|metadata| - 1], metadata[|metadata| - 1];
    var d := CanonicalItems(lib, init);
    var f, l := Item(field.key, Canonical(lib, field.value)), Item(last.key, Canonical(lib, last.value));
    if last.key == field.key {
      assert (init + [field])[..|init|] == init;
      PutTwice(d, l, f);
    } else {
      var changed := Replace(init, field);
      assert (changed + [last])[..|changed|] == changed;
      ReplaceIsPut(lib, init, field);
      PutStepsCommute(f, l);
    }
  }

  lemma SetFieldIsPut(lib: Library, metadata: seq<Item>, field: Item)
    ensures CanonicalItems(lib, SetField(metadata, field)) ==
      PutSorted(CanonicalItems(lib, metadata), Item(field.key, Canonical(lib, field.value)))
  {
    if Find(metadata, field.key) == None {
      assert (metadata + [field])[..|metadata|] == metadata;
    } else {
      ReplaceIsPut(lib, metadata, field);
    }
  }

  lemma FieldIsCanonical(b: Builder, p: Item)
    requires HexDigests(b.lib) && Field(b, p).Some?
    ensures Canonical(b.lib, Field(b, p).value.value) == Field(b, p).value.value
  {
    CanonicalIdempotent(b.lib, p.value);
  }

  lemma {:induction false} MetadataFolds(b: Builder, params: Params)
    requires HexDigests(b.lib)
    ensures Metadata(b, params) == Dict(Fold(ParamStep(b), [], params))
  {
    if params != [] {
      var init, p := params[..|params| - 1], params[|params| - 1];
      MetadataFolds(b, init);
      if Field(b, p).Some? {
        SetFieldIsPut(b.lib, Recorded(b, init), Field(b, p).value);
        FieldIsCanonical(b, p);
      }
    }
  }

  // ---------- Which requests share a key ----------

  /** The two parameters write different values to the same field. */
  predicate Conflict(b: Builder, x: Item, y: Item) {
    && Field(b, x).Some? && Field(b, y).Some?
    && Field(b, x).value.key == Field(b, y).value.key && Field(b, x) != Field(b, y)
  }

  predicate Unconflicted(b: Builder, params: Params) {
    forall x, y :: x in params && y in params ==> !Conflict(b, x, y)
  }

  /** A system prompt and a `system_hash` that is not the hash of it. */
  predicate SystemConflict(b: Builder, x: Item, y: Item) {
    && IsSystemPrompt(x) && x.key !in b.exclude && y.key == "system_hash" && y.key !in b.exclude
    && SystemHash(b, x.value) != Canonical(b.lib, y.value)
  }

  /** Parameter names are distinct, so the only conflict there can be is between
      the two ways to give a system prompt. */
  lemma OnlySystemConflicts(b: Builder, params: Params)
    requires DistinctKeys(params)
    ensures Unconflicted(b, params) <==>
      !(exists x, y :: x in params && y in params && SystemConflict(b, x, y))
  {
    if x, y :| x in params && y in params && SystemConflict(b, x, y) {
      assert Conflict(b, x, y);
    }
    if x, y :| x in params && y in params && Conflict(b, x, y) {
      var i :| 0 <= i < |params| && params[i] == x;
      var j :| 0 <= j < |params| && params[j] == y;
      assert SystemConflict(b, x, y) || SystemConflict(b, y, x);
    }
  }

  lemma StepsCommute(b: Builder, x: Item, y: Item)
    requires !Conflict(b, x, y)
    ensures Commute(ParamStep(b), x, y)
  {
    if Field(b, x).Some? && Field(b, y).Some? {
      if Field(b, x).value.key != Field(b, y).value.key {
        PutStepsCommute(Field(b, x).value, Field(b, y).value);
      }
    }
  }

  lemma UnconflictedReorders(b: Builder, params: Params, others: Params)
    requires HexDigests(b.lib) && Unconflicted(b, params) && multiset(params) == multiset(others)
    ensures Metadata(b, params) == Metadata(b, others)
  {
    forall x, y | x in params && y in params ensures Commute(ParamStep(b), x, y) {
      StepsCommute(b, x, y);
    }
    FoldPermutation(ParamStep(b), [], params, others);
    MetadataFolds(b, params);
    MetadataFolds(b, others);
  }

  lemma {:induction false} PutInjective(d: seq<Item>, x: Item, y: Item)
    requires x.key == y.key && PutSorted(d, x) == PutSorted(d, y)
    ensures x == y
  {
    if d != [] {
      var init, last := d[..|d| - 1], d[|d| - 1];
      if x.key == last.key {
        assert (init + [x])[|init|] == x && (init + [y])[|init|] == y;
      } else if Precedes(x.key, last.key) {
        assert (PutSorted(init, x) + [last])[..|PutSorted(init, x)|] == PutSorted(init, x);
        assert (PutSorted(init, y) + [last])[..|PutSorted(init, y)|] == PutSorted(init, y);
        assert |PutSorted(init, x)| == |PutSorted(init, y)|;
        PutInjective(init, x, y);
      } else {
        assert (d + [x])[|d|] == x && (d + [y])[|d|] == y;
      }
    } else {
      assert [x][0] == x && [y][0] == y;
    }
  }

  /** Two parameters that write different values to the same field give
      different key material in the two orders. */
  lemma ConflictReorders(b: Builder, rest: Params, x: Item, y: Item)
    requires HexDigests(b.lib) && Conflict(b, x, y)
    ensures Metadata(b, rest + [x] + [y]) != Metadata(b, rest + [y] + [x])
  {
    var d := Fold(ParamStep(b), [], rest);
    var f, g := Field(b, x).value, Field(b, y).value;
    FoldTwo(b, rest, x, y);
    FoldTwo(b, rest, y, x);
    PutTwice(d, f, g);
    PutTwice(d, g, f);
    if PutSorted(d, g) == PutSorted(d, f) {
      PutInjective(d, f, g);
    }
  }

  lemma FoldTwo(b: Builder, rest: Params, x: Item, y: Item)
    requires HexDigests(b.lib)
    ensures Metadata(b, rest + [x] + [y]) ==
      Dict(ParamStep(b)(ParamStep(b)(Fold(ParamStep(b), [], rest), x), y))
  {
    MetadataFolds(b, rest + [x] + [y]);
    assert (rest + [x] + [y])[..|rest| + 1] == rest + [x];
    assert (rest + [x])[..|rest|] == rest;
  }

  /** The key material of a request is the same for every order of its
      parameters exactly when no two of them conflict. */
  lemma OrderIrrelevantExactly(b: Builder, params: Params)
    requires HexDigests(b.lib)
    ensures (forall others | multiset(others) == multiset(params) :: Metadata(b, others) == Metadata(b, params))
      <==> Unconflicted(b, params)
  {
    if Unconflicted(b, params) {
      forall others | multiset(others) == multiset(params) ensures Metadata(b, others) == Metadata(b, params) {
        UnconflictedReorders(b, params, others);
      }
    } else {
      var others := ConflictMatters(b, params);
    }
  }

  lemma ConflictMatters(b: Builder, params: Params) returns (others: Params)
    requires HexDigests(b.lib) && !Unconflicted(b, params)
    ensures multiset(others) == multiset(params) && Metadata(b, others) != Metadata(b, params)
  {
    var x, y :| x in params && y in params && Conflict(b, x, y);
    var rest := RemoveTwo(params, x, y);
    ConflictReorders(b, rest, x, y);
    others := if Metadata(b, rest + [x] + [y]) == Metadata(b, params) then rest + [y] + [x] else rest + [x] + [y];
  }

  lemma RemoveTwo(params: Params, x: Item, y: Item) returns (rest: Params)
    requires x in params && y in params && x != y
    ensures multiset(rest + [x] + [y]) == multiset(params) == multiset(rest + [y] + [x])
  {
    var all := multiset(params);
    assert x in all && y in all;
    var a, c := SplitAt(params, params, x);
    assert y in multiset(a + c);
    var e, f := SplitAt(a + c, a + c, y);
    rest := e + f;
    TakeTwo(all, x, y);
    TwoMore(rest, x, y);
    TwoMore(rest, y, x);
  }

  lemma TakeTwo(all: multiset<Item>, x: Item, y: Item)
    requires x in all && y in all && x != y
    ensures all - multiset{x} - multiset{y} + multiset{x} + multiset{y} == all
  {
  }

  lemma TwoMore(rest: Params, x: Item, y: Item)
    ensures multiset(rest + [x] + [y]) == multiset(rest) + multiset{x} + multiset{y}
  {
  }

  lemma PairConflict(b: Builder, x: Item, y: Item)
    requires IsSystemPrompt(x) && y.key == "system_hash" && "system" !in b.exclude && "system_hash" !in b.exclude
    ensures Conflict(b, x, y) <==> SystemHash(b, x.value) != Canonical(b.lib, y.value)
    ensures Unconflicted(b, [x, y]) <==> !Conflict(b, x, y)
  {
    assert [x, y][0] == x && [x, y][1] == y;
    if p, q :| p in [x, y] && q in [x, y] && Conflict(b, p, q) {
      assert p in {x, y} && q in {x, y};
    }
  }

  /** The documented promise fails on a request that gives both: the two orders
      have different key material, unless the hashes happen to agree. */
  lemma SystemOrderMatters(b: Builder, system: string, hash: string)
    requires HexDigests(b.lib) && "system" !in b.exclude && "system_hash" !in b.exclude
    ensures
      var x, y := Item("system", Leaf(Str(system))), Item("system_hash", Leaf(Str(hash)));
      Metadata(b, [x, y]) == Metadata(b, [y, x]) <==> SystemHash(b, x.value) == Leaf(Str(Normalize(hash)))
  {
    var x, y := Item("system", Leaf(Str(system))), Item("system_hash", Leaf(Str(hash)));
    PairConflict(b, x, y);
    if SystemHash(b, x.value) != Canonical(b.lib, y.value) {
      ConflictReorders(b, [], x, y);
      assert [] + [x] + [y] == [x, y] && [] + [y] + [x] == [y, x];
    } else {
      UnconflictedReorders(b, [x, y], [y, x]);
    }
  }

  ghost predicate SameFailures(b: Builder, params: Params, others: Params) {
    (exists i :: 0 <= i < |params| && Raises(b, params[i])) <==>
    (exists i :: 0 <= i < |others| && Raises(b, others[i]))
  }

  lemma ReorderingFailsAlike(b: Builder, params: Params, others: Params)
    requires multiset(params) == multiset(others)
    ensures SameFailures(b, params, others)
  {
    forall p ensures p in params <==> p in others {
      assert p in multiset(params) <==> p in multiset(others);
    }
    if i :| 0 <= i < |params| && Raises(b, params[i]) {
      assert params[i] in others;
    }
    if i :| 0 <= i < |others| && Raises(b, others[i]) {
      assert others[i] in params;
    }
  }

  /** Reordering the parameters, and reformatting the prompt, keep the key. */
  lemma KeyIgnoresOrder(b: Builder, prompt: string, prompt': string, params: Params, others: Params)
    requires HexDigests(b.lib) && Unconflicted(b, params) && multiset(params) == multiset(others)
    requires LowerWords(prompt) == LowerWords(prompt')
    ensures BuildKey(b, prompt, params) == BuildKey(b, prompt', others)
  {
    NormalizeSeparates(prompt, prompt');
    UnconflictedReorders(b, params, others);
    ReorderingFailsAlike(b, params, others);
  }

  /** A parameter that is excluded may come and go. */
  lemma KeyIgnoresExcluded(b: Builder, prompt: string, before: Params, p: Item, after: Params)
    requires HexDigests(b.lib) && p.key in b.exclude
    ensures BuildKey(b, prompt, before + [p] + after) == BuildKey(b, prompt, before + after)
  {
    var with, without := before + [p] + after, before + after;
    forall y | y in after ensures Commute(ParamStep(b), p, y) {
      StepsCommute(b, p, y);
    }
    FoldMove(ParamStep(b), [], before, p, after);
    MetadataFolds(b, with);
    MetadataFolds(b, without);
    assert forall q :: q in with <==> q == p || q in without;
    if i :| 0 <= i < |with| && Raises(b, with[i]) {
      assert with[i] in without;
    }
    if i :| 0 <= i < |without| && Raises(b, without[i]) {
      assert without[i] in with;
    }
  }

  /** So does adding one of the operational parameters, whatever else a builder
      was told to exclude. */
  lemma KeyIgnoresOperational(namespace: string, version: string, exclude: set<string>, lib: Library,
                              prompt: string, before: Params, p: Item, after: Params)
    requires HexDigests(lib) && p.key in ALWAYS_EXCLUDED + exclude
    ensures
      var b := MakeBuilder(namespace, version, exclude, lib);
      BuildKey(b, prompt, before + [p] + after) == BuildKey(b, prompt, before + after)
  {
    KeyIgnoresExcluded(MakeBuilder(namespace, version, exclude, lib), prompt, before, p, after);
  }

  /** Names agree, and values but for the iteration order inside them. */
  ghost predicate SimilarParams(b: Builder, params: Params, others: Params) {
    && |params| == |others|
    && forall i :: 0 <= i < |params| ==>
      && params[i].key == others[i].key
      && (IsSystemPrompt(params[i]) ==> params[i] == others[i])
      && WellFormed(params[i].value) && Sortable(b.lib, params[i].value)
      && Similar(params[i].value, others[i].value)
  }

  /** Nor does the key depend on the order inside the parameters. */
  lemma {:induction false} KeyIgnoresNestedOrder(b: Builder, prompt: string, params: Params, others: Params)
    requires SimilarParams(b, params, others)
    ensures BuildKey(b, prompt, params) == BuildKey(b, prompt, others)
  {
    SimilarFields(b, params, others);
    forall i | 0 <= i < |params| ensures !Raises(b, params[i]) && !Raises(b, others[i]) {
      OrderIndependent(b.lib, params[i].value, others[i].value);
    }
  }

  lemma {:induction false} SimilarFields(b: Builder, params: Params, others: Params)
    requires SimilarParams(b, params, others)
    ensures Recorded(b, params) == Recorded(b, others)
  {
    if params != [] {
      var n := |params| - 1;
      SimilarFields(b, params[..n], others[..n]);
      OrderIndependent(b.lib, params[n].value, others[n].value);
    }
  }

  // ---------- Which requests do not ----------

  /** The digest is treated as injective. */
  ghost predicate Injective(lib: Library) {
    forall x, y :: lib.sha(x) == lib.sha(y) ==> x == y
  }

  /** The JSON forms of these two tell them apart. */
  ghost predicate TellsApart(lib: Library, c: Components, d: Components) {
    lib.dumps(c) == lib.dumps(d) ==> c == d
  }

  lemma ColonInside(p: string, d: string, p': string, d': string)
    requires p + ":" + d == p' + ":" + d' && |p| < |p'|
    ensures ':' in d
  {
    var s := p + ":" + d;
    assert s[|p'|] == ':' && s[|p'|] == d[|p'| - |p| - 1];
  }

  lemma LastColon(p: string, d: string, p': string, d': string)
    requires ':' !in d && ':' !in d' && p + ":" + d == p' + ":" + d'
    ensures d == d'
  {
    if |p| < |p'| {
      ColonInside(p, d, p', d');
    } else if |p'| < |p| {
      ColonInside(p', d', p, d);
    } else {
      assert (p + ":" + d)[|p| + 1..] == d && (p' + ":" + d')[|p| + 1..] == d';
    }
  }

  /** Two requests, to the same builder or to two, share a key exactly when
      namespace, version, prompt words and canonical metadata all agree. */
  lemma KeysSeparateRequests(b: Builder, prompt: string, params: Params,
                             b': Builder, prompt': string, params': Params)
    requires b.lib == b'.lib && HexDigests(b.lib) && Injective(b.lib)
    requires BuildKey(b, prompt, params).Some? && BuildKey(b', prompt', params').Some?
    requires TellsApart(b.lib, ComponentsOf(b, prompt, params).value, ComponentsOf(b', prompt', params').value)
    ensures BuildKey(b, prompt, params) == BuildKey(b', prompt', params') <==>
      && b.namespace == b'.namespace && b.version == b'.version
      && LowerWords(prompt) == LowerWords(prompt') && Metadata(b, params) == Metadata(b', params')
  {
    NormalizeSeparates(prompt, prompt');
    var c, c' := ComponentsOf(b, prompt, params).value, ComponentsOf(b', prompt', params').value;
    if BuildKey(b, prompt, params) == BuildKey(b', prompt', params') {
      LastColon(b.namespace + ":" + b.version, b.lib.sha(b.lib.dumps(c)),
                b'.namespace + ":" + b'.version, b.lib.sha(b.lib.dumps(c')));
    }
  }
}
