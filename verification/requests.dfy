/** From requests to entries and back: which request an entry answers, and what
    a hit on a request returns. */
module Requests {
  import opened KeySeq
  import opened Text
  import opened Values
  import opened Entries
  import opened Backend
  import opened EvictionModel
  import opened CacheModel
  import opened Agreement
  import opened PromptCaches
  import KeyBuilder
  import CacheKeys
  import CanonicalForms

  /** The request that a store recorded in an entry. */
  function PromptOf(e: Entry): string {
    match Find(e.metadata, "prompt")
    case Some(Leaf(Str(s))) => s
    case _ => ""
  }

  function ParamsOf(e: Entry): Params {
    match Find(e.metadata, "llm_params")
    case Some(Dict(items)) => items
    case _ => []
  }

  /** An entry as a store makes it, under the key of its own request. */
  ghost predicate WellMade(b: KeyBuilder.Builder, e: Entry) {
    && CacheKeys.BuildKey(b, PromptOf(e), ParamsOf(e)) == Some(e.key)
    && DistinctKeys(ParamsOf(e)) && RequestParams(ParamsOf(e)) == ParamsOf(e)
  }

  // ---------- Stores make well-made entries ----------

  lemma {:induction false} RequestParamsFacts(params: Params)
    ensures forall p :: p in RequestParams(params) ==>
      p in params && !IsResponseMetadata(p.key) && p.key != "cache_ttl"
    ensures DistinctKeys(params) ==> DistinctKeys(RequestParams(params))
  {
    if params != [] {
      var init, last := params[..|params| - 1], params[|params| - 1];
      RequestParamsFacts(init);
      var before := RequestParams(init);
      if DistinctKeys(params) {
        forall i | 0 <= i < |before| ensures before[i].key != last.key {
          assert before[i] in before;
          var j :| 0 <= j < |init| && init[j] == before[i];
          assert params[j].key != params[|params| - 1].key;
        }
      }
    }
  }

  lemma {:induction false} RequestParamsAgain(params: Params)
    requires forall p :: p in params ==> !IsResponseMetadata(p.key) && p.key != "cache_ttl"
    ensures RequestParams(params) == params
  {
    if params != [] {
      var init := params[..|params| - 1];
      assert forall p :: p in init ==> p in params;
      RequestParamsAgain(init);
      assert params == init + [params[|params| - 1]];
    }
  }

  lemma {:induction false} RequestParamsConcat(before: Params, after: Params)
    ensures RequestParams(before + after) == RequestParams(before) + RequestParams(after)
  {
    if after == [] {
      assert before + after == before;
    } else {
      var init := after[..|after| - 1];
      RequestParamsConcat(before, init);
      assert (before + after)[..|before + after| - 1] == before + init;
    }
  }

  /** Of the parameters of a store, the request keeps all but the response fields
      and the time to live, in their order. */
  lemma RequestKeepsOthers(before: Params, p: Item, after: Params)
    ensures RequestParams(before + [p] + after) ==
      if IsResponseMetadata(p.key) || p.key == "cache_ttl" then RequestParams(before) + RequestParams(after)
      else RequestParams(before) + [p] + RequestParams(after)
  {
    RequestParamsConcat(before + [p], after);
    assert (before + [p])[..|before|] == before;
  }

  lemma {:induction false} ResponseFieldFound(metadata: seq<Item>, params: Params, name: string)
    requires IsResponseMetadata(name) && Find(metadata, name) == None
    ensures Find(WithResponseMetadata(metadata, params), name) == Find(params, name)
  {
    if params != [] {
      var init, last := params[..|params| - 1], params[|params| - 1];
      ResponseFieldFound(metadata, init, name);
      FindSetField(WithResponseMetadata(metadata, init), last, name);
    }
  }

  /** What the metadata of a new entry holds: the prompt, the parameters of the
      request, the response fields as given, an unset flag, and nothing else. */
  lemma MetadataHolds(prompt: string, params: Params, name: string)
    ensures Find(EntryMetadata(prompt, params), name) ==
      if name == "semantic_hit" then Some(Leaf(Bool(false)))
      else if IsResponseMetadata(name) then Find(params, name)
      else if name == "prompt" then Some(Leaf(Str(prompt)))
      else if name == "llm_params" then Some(Dict(RequestParams(params)))
      else None
  {
    var request := [Item("prompt", Leaf(Str(prompt))), Item("llm_params", Dict(RequestParams(params)))];
    FindSetField(WithResponseMetadata(request, params), Item("semantic_hit", Leaf(Bool(false))), name);
    FindIn(request, name);
    if IsResponseMetadata(name) {
      ResponseFieldFound(request, params, name);
    } else {
      ResponseMetadataKeeps(request, params, name);
      if name == "prompt" || name == "llm_params" {
        MetadataNamesRequest(prompt, params);
      }
    }
  }

  /** A new entry holds the response, was not hit yet, and was created and last
      accessed at the two clock readings. */
  lemma MadeHolds(b: KeyBuilder.Builder, defaultTtl: real, prompt: string, response: Value,
                  params: Params, now: real, stamp: real)
    requires MakeEntry(b, defaultTtl, prompt, response, params, now, stamp).Some?
    ensures
      var e := MakeEntry(b, defaultTtl, prompt, response, params, now, stamp).value;
      && e.value == response && e.createdAt == now && e.hitCount == 0 && e.lastAccessed == stamp
      && Find(e.metadata, "prompt") == Some(Leaf(Str(prompt)))
      && Find(e.metadata, "semantic_hit") == Some(Leaf(Bool(false)))
      && forall name :: IsResponseMetadata(name) ==> Find(e.metadata, name) == Find(params, name)
  {
    MetadataHolds(prompt, params, "prompt");
    MetadataHolds(prompt, params, "semantic_hit");
    forall name | IsResponseMetadata(name) ensures Find(EntryMetadata(prompt, params), name) == Find(params, name) {
      MetadataHolds(prompt, params, name);
    }
  }

  /** When a new entry expires: after the default time to live if none is given,
      never if it is given as none, and otherwise after the number given. */
  lemma MadeExpires(b: KeyBuilder.Builder, defaultTtl: real, prompt: string, response: Value,
                    params: Params, now: real, stamp: real, t: real)
    requires MakeEntry(b, defaultTtl, prompt, response, params, now, stamp).Some?
    ensures
      var e := MakeEntry(b, defaultTtl, prompt, response, params, now, stamp).value;
      match Find(params, "cache_ttl")
      case None => e.IsExpired(t) <==> t - now >= defaultTtl
      case Some(Leaf(Null)) => !e.IsExpired(t)
      case Some(Leaf(Float(seconds))) => e.IsExpired(t) <==> t - now >= seconds
      case Some(Leaf(Int(seconds))) => e.IsExpired(t) <==> t - now >= seconds as real
      case Some(Leaf(Bool(one))) => e.IsExpired(t) <==> t - now >= if one then 1.0 else 0.0
      case Some(_) => false
  {
    var e := MakeEntry(b, defaultTtl, prompt, response, params, now, stamp).value;
    assert Some(e.ttl) == StoreTtl(defaultTtl, params) && e.createdAt == now;
  }

  /** A mark counts one hit and notes the clock and the kind of hit. Nothing else
      changes. */
  lemma MarkHolds(e: Entry, stamp: real, semantic: bool, name: string)
    ensures
      var r := Bump(e, stamp, semantic);
      && r == e.(hitCount := e.hitCount + 1, lastAccessed := stamp, metadata := r.metadata)
      && Find(r.metadata, name) == if name == "semantic_hit" then Some(Leaf(Bool(semantic))) else Find(e.metadata, name)
  {
    FindSetField(e.metadata, Item("semantic_hit", Leaf(Bool(semantic))), name);
  }

  /** The copy that a semantic hit returns says so, and how similar it is. */
  lemma CopyHolds(e: Entry, similarity: real, name: string)
    ensures
      var r := Annotated(e, similarity);
      && r == e.(metadata := r.metadata)
      && Find(r.metadata, name) ==
           if name == "semantic_hit" then Some(Leaf(Bool(true)))
           else if name == "semantic_similarity" then Some(Leaf(Float(similarity)))
           else Find(e.metadata, name)
  {
    var score, flag := Item("semantic_similarity", Leaf(Float(similarity))), Item("semantic_hit", Leaf(Bool(true)));
    FindSetField(e.metadata, score, name);
    FindSetField(SetField(e.metadata, score), flag, name);
  }

  lemma {:induction false} ResponseMetadataKeeps(metadata: seq<Item>, params: Params, name: string)
    requires !IsResponseMetadata(name)
    ensures Find(WithResponseMetadata(metadata, params), name) == Find(metadata, name)
  {
    if params != [] {
      var init, last := params[..|params| - 1], params[|params| - 1];
      ResponseMetadataKeeps(metadata, init, name);
      FindSetField(WithResponseMetadata(metadata, init), last, name);
    }
  }

  lemma MetadataNamesRequest(prompt: string, params: Params)
    ensures Find(EntryMetadata(prompt, params), "prompt") == Some(Leaf(Str(prompt)))
    ensures Find(EntryMetadata(prompt, params), "llm_params") == Some(Dict(RequestParams(params)))
  {
    var request := [Item("prompt", Leaf(Str(prompt))), Item("llm_params", Dict(RequestParams(params)))];
    var flag := Item("semantic_hit", Leaf(Bool(false)));
    FindDistinct(request, 0);
    FindDistinct(request, 1);
    ResponseMetadataKeeps(request, params, "prompt");
    ResponseMetadataKeeps(request, params, "llm_params");
    FindSetField(WithResponseMetadata(request, params), flag, "prompt");
    FindSetField(WithResponseMetadata(request, params), flag, "llm_params");
  }

  /** An entry that a store builds is well made, and names its request. */
  lemma MadeIsWellMade(b: KeyBuilder.Builder, defaultTtl: real, prompt: string, response: Value,
                       params: Params, now: real, stamp: real)
    requires MakeEntry(b, defaultTtl, prompt, response, params, now, stamp).Some? && DistinctKeys(params)
    ensures
      var e := MakeEntry(b, defaultTtl, prompt, response, params, now, stamp).value;
      WellMade(b, e) && PromptOf(e) == prompt && ParamsOf(e) == RequestParams(params)
  {
    MetadataNamesRequest(prompt, params);
    RequestParamsFacts(params);
    RequestParamsAgain(RequestParams(params));
  }

  lemma MarkedIsWellMade(b: KeyBuilder.Builder, e: Entry, stamp: real, semantic: bool)
    requires WellMade(b, e)
    ensures
      var r := Bump(e, stamp, semantic);
      WellMade(b, r) && PromptOf(r) == PromptOf(e) && ParamsOf(r) == ParamsOf(e)
  {
    FindSetField(e.metadata, Item("semantic_hit", Leaf(Bool(semantic))), "prompt");
    FindSetField(e.metadata, Item("semantic_hit", Leaf(Bool(semantic))), "llm_params");
  }

  ghost predicate StoresWellMade(b: KeyBuilder.Builder, ops: seq<Op>) {
    forall i :: 0 <= i < |ops| && ops[i].Set? ==> WellMade(b, ops[i].entry)
  }

  /** Whatever a cache went through, it holds well-made entries under their own
      keys. */
  lemma {:induction false} StoredIsWellMade(cfg: Config, policy: Policy, b: KeyBuilder.Builder,
                                            ops: seq<Op>, k: Key)
    requires Coherent(policy) && ValidOps(ops) && StoresWellMade(b, ops)
    requires k in Run(cfg, Fresh(policy), ops).store.entries
    ensures
      var e := Run(cfg, Fresh(policy), ops).store.entries[k];
      e.key == k && WellMade(b, e)
  {
    var init, op := ops[..|ops| - 1], ops[|ops| - 1];
    var before := Run(cfg, Fresh(policy), init);
    StepOnEntry(cfg, before, op, k);
    if !(op.Set? && op.entry.key == k) {
      StoredIsWellMade(cfg, policy, b, init, k);
      if op.Mark? && op.key == k {
        MarkedIsWellMade(b, before.store.entries[k], op.stamp, op.semantic);
      }
    }
  }

  // ---------- What a hit on a request returns ----------

  /** The entry was stored for a request with these prompt words and this
      canonical metadata. */
  predicate Answers(b: KeyBuilder.Builder, e: Entry, prompt: string, params: Params) {
    LowerWords(PromptOf(e)) == LowerWords(prompt) && CacheKeys.Metadata(b, ParamsOf(e)) == CacheKeys.Metadata(b, params)
  }

  /** That is, with the same prompt words, and agreeing on every field. */
  lemma AnswersExactly(b: KeyBuilder.Builder, e: Entry, prompt: string, params: Params)
    requires KeyBuilder.HexDigests(b.lib)
    requires CanonicalForms.Given(b, ParamsOf(e)) && CanonicalForms.Given(b, params)
    ensures Answers(b, e, prompt, params) <==>
      LowerWords(PromptOf(e)) == LowerWords(prompt) && CanonicalForms.SameRequest(b, ParamsOf(e), params)
  {
    CanonicalForms.MetadataMeans(b, ParamsOf(e), params);
  }

  function KeyMaterial(b: KeyBuilder.Builder, prompt: string, params: Params): KeyBuilder.Components {
    KeyBuilder.Components(b.namespace, b.version, Normalize(prompt), CacheKeys.Metadata(b, params))
  }

  /** An entry answers a request exactly when it is stored under its key. */
  lemma AnswersByKey(b: KeyBuilder.Builder, e: Entry, prompt: string, params: Params)
    requires KeyBuilder.HexDigests(b.lib) && CacheKeys.Injective(b.lib) && WellMade(b, e)
    requires CacheKeys.BuildKey(b, prompt, params).Some?
    requires CacheKeys.TellsApart(b.lib, KeyMaterial(b, PromptOf(e), ParamsOf(e)), KeyMaterial(b, prompt, params))
    ensures Answers(b, e, prompt, params) <==> CacheKeys.BuildKey(b, prompt, params) == Some(e.key)
  {
    CacheKeys.KeysSeparateRequests(b, PromptOf(e), ParamsOf(e), b, prompt, params);
  }

  /** Over every interleaving, a hit on a request returns the contents of the
      last entry stored for that request, which nothing removed since and which
      is unexpired at the clock read. */
  lemma HitAnswersRequest(cfg: Config, policy: Policy, b: KeyBuilder.Builder, ops: seq<Op>,
                          prompt: string, params: Params, now: real) returns (i: nat)
    requires Coherent(policy) && ValidOps(ops) && StoresWellMade(b, ops)
    requires KeyBuilder.HexDigests(b.lib) && CacheKeys.Injective(b.lib)
    requires forall j :: 0 <= j < |ops| && ops[j].Set? ==>
      CacheKeys.TellsApart(b.lib, KeyMaterial(b, PromptOf(ops[j].entry), ParamsOf(ops[j].entry)),
                           KeyMaterial(b, prompt, params))
    requires CacheKeys.BuildKey(b, prompt, params).Some?
    requires ReadPhase(Run(cfg, Fresh(policy), ops), CacheKeys.BuildKey(b, prompt, params).value, now).1.Some?
    ensures i < |ops| && ops[i].Set? && Answers(b, ops[i].entry, prompt, params)
    ensures forall j :: i < j < |ops| && ops[j].Set? ==> !Answers(b, ops[j].entry, prompt, params)
    ensures forall j :: i < j < |ops| ==> !Overrides(ops[j], CacheKeys.BuildKey(b, prompt, params).value)
    ensures
      var hit := ReadPhase(Run(cfg, Fresh(policy), ops), CacheKeys.BuildKey(b, prompt, params).value, now).1.value;
      SameContents(hit, ops[i].entry) && !ops[i].entry.IsExpired(now)
  {
    var k := CacheKeys.BuildKey(b, prompt, params).value;
    i := HitReturnsLastSet(cfg, policy, ops, k, now);
    AnswersByKey(b, ops[i].entry, prompt, params);
    forall j | i < j < |ops| && ops[j].Set? ensures !Answers(b, ops[j].entry, prompt, params) {
      AnswersByKey(b, ops[j].entry, prompt, params);
      assert !Overrides(ops[j], k);
    }
  }
}
