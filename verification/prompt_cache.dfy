/** The orchestrator: it updates the backend, the eviction policy, the semantic
    layer and the eviction counter in place, one critical section at a time. */
module PromptCaches {
  import opened KeySeq
  import opened Values
  import opened Entries
  import opened Backend
  import opened EvictionModel
  import opened Eviction
  import opened Semantic
  import opened CacheModel
  import CacheKeys
  import KeyBuilder

  type Params = CacheKeys.Params

  /** Fields of a store that describe the response and not the request. */
  predicate IsResponseMetadata(field: string) {
    field in {"api_latency_ms", "estimated_cost_usd", "raw_response", "response_metadata", "tokens_used"}
  }

  /** What is left of the parameters of a store when those fields and the time
      to live are taken out. */
  function RequestParams(params: Params): Params {
    if params == [] then []
    else
      var before, last := RequestParams(params[..|params| - 1]), params[|params| - 1];
      if IsResponseMetadata(last.key) || last.key == "cache_ttl" then before else before + [last]
  }

  /** `metadata` updated with the response fields among `params`. */
  function WithResponseMetadata(metadata: seq<Item>, params: Params): seq<Item> {
    if params == [] then metadata
    else
      var before, last := WithResponseMetadata(metadata, params[..|params| - 1]), params[|params| - 1];
      if IsResponseMetadata(last.key) then SetField(before, last) else before
  }

  function EntryMetadata(prompt: string, params: Params): seq<Item> {
    var request := [Item("prompt", Leaf(Str(prompt))), Item("llm_params", Dict(RequestParams(params)))];
    SetField(WithResponseMetadata(request, params), Item("semantic_hit", Leaf(Bool(false))))
  }

  /** The time to live of a store: the default, or the one given, maybe none. */
  function StoreTtl(defaultTtl: real, params: Params): Option<Option<real>> {
    if Find(params, "cache_ttl") == None then Some(Some(defaultTtl)) else TtlOf(Find(params, "cache_ttl").value)
  }

  /** The entry a store builds; `now` and `stamp` are its two clock readings.
      `None` stands for the exception that a set of unsortable items or a time
      to live that is not a number raises, before anything is stored. */
  function MakeEntry(b: KeyBuilder.Builder, defaultTtl: real, prompt: string, response: Value,
                     params: Params, now: real, stamp: real): (r: Option<Entry>)
    ensures r.Some? ==> r.value.key != ""
  {
    var key, ttl := CacheKeys.BuildKey(b, prompt, RequestParams(params)), StoreTtl(defaultTtl, params);
    if key == None || ttl == None then None
    else
      CacheKeys.KeysAreNamed(b, prompt, RequestParams(params));
      Some(Entry(key.value, response, now, ttl.value, 0, EntryMetadata(prompt, params), stamp))
  }

  /** The copy of an entry that a semantic hit returns. */
  function Annotated(e: Entry, similarity: real): Entry {
    var scored := SetField(e.metadata, Item("semantic_similarity", Leaf(Float(similarity))));
    e.(metadata := SetField(scored, Item("semantic_hit", Leaf(Bool(true)))))
  }

  /** The answer to a request; building its key may raise. */
  datatype Reply = Raised | Miss | Hit(entry: Entry)

  /** Reading the listed keys one after the other. */
  function ReadAll(c: Cache, ks: seq<Key>, clock: nat -> real): Cache {
    if ks == [] then c
    else ReadPhase(ReadAll(c, Init(ks), clock), Last(ks), clock(|ks| - 1)).0
  }

  /** What the reads return. */
  function Listed(entries: map<Key, Entry>, ks: seq<Key>, clock: nat -> real): seq<Entry> {
    if ks == [] then []
    else
      var before, k := Listed(entries, Init(ks), clock), Last(ks);
      if k in entries && !entries[k].IsExpired(clock(|ks| - 1)) then before + [entries[k]] else before
  }

  /** Listing returns the stored entries that are unexpired when they are read, and
      no others. */
  lemma {:induction false} ListedExactly(entries: map<Key, Entry>, ks: seq<Key>, clock: nat -> real, e: Entry)
    ensures e in Listed(entries, ks, clock) <==>
      exists i: nat :: i < |ks| && ks[i] in entries && e == entries[ks[i]] && !e.IsExpired(clock(i))
  {
    if ks != [] {
      var n := |ks| - 1;
      ListedExactly(entries, Init(ks), clock, e);
      if i: nat :| i < |ks| && ks[i] in entries && e == entries[ks[i]] && !e.IsExpired(clock(i)) {
        assert i < n ==> Init(ks)[i] == ks[i];
      }
      if i: nat :| i < n && Init(ks)[i] in entries && e == entries[Init(ks)[i]] && !e.IsExpired(clock(i)) {
        assert Init(ks)[i] == ks[i];
      }
      if ks[n] in entries && !entries[ks[n]].IsExpired(clock(n)) {
        assert Last(ks) == ks[n];
      }
    }
  }

  /** Reads of other keys leave an entry alone. */
  lemma {:induction false} ReadAllKeeps(c: Cache, ks: seq<Key>, clock: nat -> real, k: Key)
    requires k in c.store.entries && k !in Keys(ks)
    ensures k in ReadAll(c, ks, clock).store.entries
    ensures ReadAll(c, ks, clock).store.entries[k] == c.store.entries[k]
  {
    if ks != [] {
      ReadAllKeeps(c, Init(ks), clock, k);
    }
  }

  lemma ReadAllStep(c: Cache, ks: seq<Key>, i: nat, clock: nat -> real)
    requires NoDup(ks) && Keys(ks) == c.store.entries.Keys && i < |ks|
    ensures ReadPhase(ReadAll(c, ks[..i], clock), ks[i], clock(i)).0 == ReadAll(c, ks[..i + 1], clock)
    ensures
      var found := ReadPhase(ReadAll(c, ks[..i], clock), ks[i], clock(i)).1;
      Listed(c.store.entries, ks[..i + 1], clock) ==
        if found.Some? then Listed(c.store.entries, ks[..i], clock) + [found.value]
        else Listed(c.store.entries, ks[..i], clock)
  {
    KeysPrefix(ks, i);
    assert Init(ks[..i + 1]) == ks[..i] && Last(ks[..i + 1]) == ks[i];
    ReadAllKeeps(c, ks[..i], clock, ks[i]);
  }

  lemma MatchingKeys(c: Cache, matches: Key -> bool, keys: seq<Key>, matching: seq<Key>)
    requires NoDup(keys) && Keys(keys) == c.store.entries.Keys
    requires matching == Keep(keys, set k | k in Keys(keys) && matches(k))
    ensures NoDup(matching) && Keys(matching) == Matching(c, matches)
    ensures |matching| == |Matching(c, matches)|
  {
    KeepNoDup(keys, set k | k in Keys(keys) && matches(k));
    NoDupCardinality(matching);
  }

  class PromptCache {
    const backend: InMemoryBackend
    const policy: EvictionPolicy
    const semantic: SemanticCacheLayer?
    const builder: KeyBuilder.Builder
    const defaultTtl: real
    const maxSizeBytes: int
    var evictions: nat

    function Settings(): Config {
      Config(backend.maxItems, backend.maxSizeBytes, maxSizeBytes, backend.sizeOf,
             if semantic == null then None else Some(semantic.embed))
    }

    ghost function Layer(): set<object> {
      if semantic == null then {} else {semantic}
    }

    ghost function Repr(): set<object>
      reads this, policy
    {
      {this, backend} + Layer() + policy.repr
    }

    /** The parts are intact and do not share memory. */
    ghost predicate Shape()
      reads this, backend, Layer(), policy, policy.repr
    {
      && {this as object, backend} !! Layer() && {this as object, backend} + Layer() !! policy.repr
      && backend.Valid() && policy.Valid() && (semantic != null ==> semantic.Valid())
    }

    ghost function State(): Cache
      requires Shape()
      reads this, backend, Layer(), policy, policy.repr
    {
      Cache(backend.State(), policy.State(), if semantic == null then map[] else semantic.vectors, evictions)
    }

    ghost predicate Valid()
      reads this, backend, Layer(), policy, policy.repr
    {
      Shape() && Inv(Settings(), State())
    }

    constructor (backend: InMemoryBackend, policy: EvictionPolicy, semantic: SemanticCacheLayer?,
                 builder: KeyBuilder.Builder, defaultTtl: real, maxSizeBytes: int)
      requires backend.State() == EMPTY
      requires policy.Valid() && Coherent(policy.State()) && Tracked(policy.State()) == {}
      requires semantic != null ==> semantic.Valid() && semantic.vectors == map[]
      requires backend !in policy.repr
      requires semantic != null ==> semantic !in policy.repr && backend as object != semantic
      ensures Valid() && State() == Fresh(policy.State())
      ensures this.backend == backend && this.policy == policy && this.semantic == semantic
      ensures this.builder == builder && this.defaultTtl == defaultTtl && this.maxSizeBytes == maxSizeBytes
    {
      this.backend, this.policy, this.semantic := backend, policy, semantic;
      this.builder, this.defaultTtl, this.maxSizeBytes := builder, defaultTtl, maxSizeBytes;
      evictions := 0;
    }

    // ---------- Calls on the parts ----------

    method BackendGet(key: Key, now: real) returns (found: Option<Entry>)
      requires Shape()
      modifies backend
      ensures Shape() && policy.repr == old(policy.repr)
      ensures (State(), found) == ReadPhase(old(State()), key, now)
    {
      found := backend.Get(key, now);
    }

    method BackendSet(key: Key, entry: Entry)
      requires Shape()
      modifies backend
      ensures Shape() && policy.repr == old(policy.repr)
      ensures State() == old(State()).(store := Put(old(State()).store, key, entry, backend.sizeOf))
    {
      ghost var goal := State().(store := Put(State().store, key, entry, backend.sizeOf));
      backend.Set(key, entry);
      assert State() == goal;
    }

    method BackendDelete(key: Key) returns (removed: bool)
      requires Shape()
      modifies backend
      ensures Shape() && policy.repr == old(policy.repr)
      ensures removed == (key in old(State()).store.entries)
      ensures State() == old(State()).(store := Delete(old(State()).store, key).0)
    {
      removed := backend.DeleteUnlocked(key);
    }

    method PolicyInsert(key: Key)
      requires Shape()
      modifies policy.repr
      ensures Shape() && fresh(policy.repr - old(policy.repr))
      ensures State() == old(State()).(policy := RecordInsert(old(State()).policy, key))
    {
      policy.RecordInsert(key);
    }

    method PolicyAccess(key: Key)
      requires Shape()
      modifies policy.repr
      ensures Shape() && fresh(policy.repr - old(policy.repr))
      ensures State() == old(State()).(policy := RecordAccess(old(State()).policy, key))
    {
      policy.RecordAccess(key);
    }

    method PolicyDelete(key: Key)
      requires Shape()
      modifies policy.repr
      ensures Shape() && fresh(policy.repr - old(policy.repr))
      ensures State() == old(State()).(policy := RecordDelete(old(State()).policy, key))
    {
      policy.RecordDelete(key);
    }

    method PolicyVictim() returns (victim: Option<Key>)
      requires Shape()
      modifies policy.repr
      ensures Shape() && policy.repr == old(policy.repr) && State() == old(State())
      ensures victim == SelectVictim(State().policy)
    {
      victim := policy.SelectVictim();
    }

    method SemanticRecord(key: Key, prompt: string)
      requires Shape()
      modifies Layer()
      ensures Shape() && policy.repr == old(policy.repr)
      ensures State() == old(State()).(vectors := Recorded(Settings(), old(State()).vectors, key, prompt))
    {
      if semantic != null {
        var _ := semantic.Record(key, prompt);
      }
    }

    method SemanticDelete(key: Key)
      requires Shape()
      modifies Layer()
      ensures Shape() && policy.repr == old(policy.repr)
      ensures State() == old(State()).(vectors := old(State()).vectors - {key})
    {
      if semantic != null {
        semantic.Delete(key);
      }
    }

    method SemanticClear()
      requires Shape()
      modifies Layer()
      ensures Shape() && policy.repr == old(policy.repr)
      ensures State() == old(State()).(vectors := map[])
    {
      if semantic != null {
        semantic.Clear();
      }
    }

    // ---------- Critical sections ----------

    method LookupPhase(key: Key, now: real) returns (found: Option<Entry>)
      requires Valid()
      modifies backend
      ensures Valid() && policy.repr == old(policy.repr)
      ensures (State(), found) == ReadPhase(old(State()), key, now)
    {
      LookupKeeps(backend.sizeOf, backend.State(), key, now);
      found := BackendGet(key, now);
    }

    method Mark(key: Key, now: real, stamp: real, semanticHit: bool)
      requires Valid()
      modifies Repr()
      ensures Valid() && fresh(policy.repr - old(policy.repr))
      ensures State() == MarkAccess(Settings(), old(State()), key, now, stamp, semanticHit)
    {
      ghost var marked := MarkAccess(Settings(), State(), key, now, stamp, semanticHit);
      MarkKeeps(Settings(), State(), key, now, stamp, semanticHit);
      var current := BackendGet(key, now);
      if current == None {
        assert State() == marked;
        return;
      }
      var bumped := Bump(current.value, stamp, semanticHit);
      BackendSet(key, bumped);
      PolicyAccess(key);
      assert State() == marked;
    }

    method WithinLimits() returns (within: bool)
      requires Shape()
      ensures within == Within(Settings(), State().store)
    {
      var count := backend.ItemCount();
      var size := backend.SizeBytes();
      var overItems := count > backend.maxItems;
      var overSize := size > maxSizeBytes || size > backend.maxSizeBytes;
      within := !overItems && !overSize;
    }

    method EnsureWithinLimits()
      requires Valid()
      modifies Repr()
      ensures Valid() && fresh(policy.repr - old(policy.repr))
      ensures State() == EnsureCapacity(Settings(), old(State()))
    {
      ghost var cfg, c := Settings(), State();
      ghost var goal := EnsureCapacity(cfg, c);
      while true
        invariant Valid() && fresh(policy.repr - old(policy.repr))
        invariant c == State() && EnsureCapacity(cfg, c) == goal
        decreases |Tracked(c.policy)|
      {
        EnsureCapacityEnds(cfg, c);
        var within := WithinLimits();
        if within {
          return;
        }
        var victim := PolicyVictim();
        if victim == None {
          return;
        }
        EnsureCapacityStep(cfg, c, victim.value);
        c := Evict(c, victim.value);
        EvictVictim(victim.value);
      }
    }

    method EvictVictim(victim: Key)
      requires Shape() && Inv(Settings(), Evict(State(), victim))
      modifies Repr()
      ensures Valid() && fresh(policy.repr - old(policy.repr))
      ensures State() == Evict(old(State()), victim)
    {
      ghost var evicted := Evict(State(), victim);
      var deleted := BackendDelete(victim);
      PolicyDelete(victim);
      if deleted {
        SemanticDelete(victim);
        evictions := evictions + 1;
      }
      assert State() == evicted;
    }

    method StoreEntry(entry: Entry, prompt: string)
      requires Valid() && entry.key != ""
      modifies Repr()
      ensures Valid() && fresh(policy.repr - old(policy.repr))
      ensures State() == SetEntry(Settings(), old(State()), entry, prompt)
    {
      ghost var stored := StoredKeeps(Settings(), State(), entry, prompt);
      PutStored(entry, prompt, stored);
      assert State() == stored;
      EnsureWithinLimits();
      assert State() == EnsureCapacity(Settings(), stored);
    }

    method PutStored(entry: Entry, prompt: string, ghost stored: Cache)
      requires Shape() && Inv(Settings(), stored)
      requires stored == Stored(Settings(), State(), entry, prompt)
      modifies Repr()
      ensures Valid() && fresh(policy.repr - old(policy.repr))
      ensures State() == stored
    {
      BackendSet(entry.key, entry);
      PolicyInsert(entry.key);
      SemanticRecord(entry.key, prompt);
      assert State() == stored;
    }

    // ---------- The public operations ----------

    /** Stores a response; nothing changes if building its entry raises. */
    method Set(prompt: string, response: Value, params: Params, now: real, stamp: real) returns (stored: bool)
      requires Valid()
      modifies Repr()
      ensures Valid() && fresh(policy.repr - old(policy.repr))
      ensures
        var entry := MakeEntry(builder, defaultTtl, prompt, response, params, now, stamp);
        && stored == entry.Some?
        && State() == if stored then SetEntry(Settings(), old(State()), entry.value, prompt) else old(State())
    {
      var entry := MakeEntry(builder, defaultTtl, prompt, response, params, now, stamp);
      stored := entry.Some?;
      if stored {
        StoreEntry(entry.value, prompt);
      }
    }

    /** Removes the entries whose key the glob pattern matches. */
    method Invalidate(matches: Key -> bool) returns (removed: nat)
      requires Valid()
      modifies Repr()
      ensures Valid() && fresh(policy.repr - old(policy.repr))
      ensures State() == DropKeys(old(State()), Matching(old(State()), matches))
      ensures removed == |Matching(old(State()), matches)|
    {
      var matching := ListMatching(matches);
      removed := DropListed(matching);
    }

    method ListMatching(matches: Key -> bool) returns (matching: seq<Key>)
      requires Shape()
      ensures NoDup(matching) && Keys(matching) == Matching(State(), matches)
      ensures |matching| == |Matching(State(), matches)|
    {
      var keys := backend.ListKeys();
      matching := Keep(keys, set k | k in Keys(keys) && matches(k));
      MatchingKeys(State(), matches, keys, matching);
    }

    method DropListed(listed: seq<Key>) returns (removed: nat)
      requires Valid() && NoDup(listed) && Keys(listed) <= State().store.entries.Keys
      modifies Repr()
      ensures Valid() && fresh(policy.repr - old(policy.repr))
      ensures State() == DropKeys(old(State()), Keys(listed)) && removed == |listed|
    {
      ghost var cfg, c, done := Settings(), State(), {};
      removed := 0;
      DropNothing(cfg, c);
      for i := 0 to |listed|
        invariant Valid() && fresh(policy.repr - old(policy.repr))
        invariant done == Keys(listed[..i]) && removed == i
        invariant State() == DropKeys(c, done)
      {
        KeysPrefix(listed, i);
        DropTwice(cfg, c, done, {listed[i]});
        DropKeeps(cfg, c, done + {listed[i]});
        var deleted := Drop(listed[i]);
        if deleted {
          removed := removed + 1;
        }
        done := done + {listed[i]};
      }
      assert listed[..|listed|] == listed;
    }

    /** One removed key: it leaves the backend, the policy and the embeddings. */
    method Drop(key: Key) returns (deleted: bool)
      requires Shape() && key in State().store.entries
      modifies Repr()
      ensures Shape() && fresh(policy.repr - old(policy.repr))
      ensures deleted && State() == DropKeys(old(State()), {key})
    {
      ghost var dropped := DropKeys(State(), {key});
      DeleteIsDiscard(backend.sizeOf, backend.State(), key);
      deleted := BackendDelete(key);
      if deleted {
        PolicyDelete(key);
        SemanticDelete(key);
      }
      assert State() == dropped;
    }

    method Clear()
      requires Valid()
      modifies Repr()
      ensures Valid() && fresh(policy.repr - old(policy.repr))
      ensures State() == CacheModel.Clear(old(State()))
    {
      ghost var policy0 := State().policy;
      ghost var stored := State().store.entries.Keys;
      DeleteKeeps(policy0, stored);
      var keys := ClearBackend();
      ForgetListed(keys);
      SemanticClear();
    }

    /** The keys that were stored, once the backend is empty. */
    method ClearBackend() returns (keys: seq<Key>)
      requires Shape()
      modifies backend
      ensures Shape() && policy.repr == old(policy.repr)
      ensures NoDup(keys) && Keys(keys) == old(State()).store.entries.Keys
      ensures State() == old(State()).(store := EMPTY)
    {
      keys := backend.ListKeys();
      backend.Clear();
    }

    method ForgetListed(listed: seq<Key>)
      requires Shape() && NoDup(listed)
      modifies policy.repr
      ensures Shape() && fresh(policy.repr - old(policy.repr))
      ensures State() == old(State()).(policy := DeleteAll(old(State()).policy, Keys(listed)))
    {
      ghost var c, done := State(), {};
      DeleteNothing(c.policy);
      for i := 0 to |listed|
        invariant Shape() && fresh(policy.repr - old(policy.repr))
        invariant done == Keys(listed[..i])
        invariant State() == c.(policy := DeleteAll(c.policy, done))
      {
        KeysPrefix(listed, i);
        DeleteTwice(c.policy, done, {listed[i]});
        PolicyDelete(listed[i]);
        done := done + {listed[i]};
      }
      assert listed[..|listed|] == listed;
    }

    /** The semantic layer's candidate; none without a layer, or if the embedding
        function raises. */
    method SemanticCandidate(prompt: string) returns (candidate: Option<Match>)
      requires Shape()
      modifies Layer()
      ensures Shape() && policy.repr == old(policy.repr) && State() == old(State())
      ensures IsCandidate(State().vectors, prompt, candidate)
    {
      candidate := None;
      if semantic != null {
        candidate := semantic.FindSimilar(prompt);
      }
    }

    ghost predicate IsCandidate(vectors: map<Key, Vector>, prompt: string, candidate: Option<Match>) {
      if semantic == null || Resolve(semantic.embed, prompt) == None then candidate == None
      else
        var probe := Resolve(semantic.embed, prompt).value;
        Scanned(vectors, probe, semantic.similarityThreshold, candidate)
    }

    function KeyFor(prompt: string, params: Params): Option<Key> {
      CacheKeys.BuildKey(builder, prompt, params)
    }

    /** The second half of a lookup, after the exact match has failed: the
        candidate `via` of the semantic layer is looked up and marked. */
    method GetSimilar(prompt: string, t3: real, t4: real, t5: real) returns (r: Reply, via: Option<Match>)
      requires Valid()
      modifies Repr()
      ensures Valid() && fresh(policy.repr - old(policy.repr))
      ensures IsCandidate(old(State()).vectors, prompt, via)
      ensures via == None ==> r == Miss && State() == old(State())
      ensures via.Some? ==>
        var (c, similar) := ReadPhase(old(State()), via.value.key, t3);
        if similar == None then r == Miss && State() == c
        else
          && r == Hit(Annotated(similar.value, via.value.similarity))
          && State() == MarkAccess(Settings(), c, via.value.key, t4, t5, true)
    {
      r := Miss;
      via := SemanticCandidate(prompt);
      if via.Some? {
        var similar := LookupPhase(via.value.key, t3);
        if similar.Some? {
          r := Hit(Annotated(similar.value, via.value.similarity));
          Mark(via.value.key, t4, t5, true);
        }
      }
    }

    /** An exact match first, a semantic match second. The clock is read anew in
        each phase: `t0`, `t1` and `t2` for the exact match, `t3`, `t4` and `t5`
        for the semantic one, whose candidate is `via`. */
    method Get(prompt: string, params: Params,
               t0: real, t1: real, t2: real, t3: real, t4: real, t5: real)
      returns (r: Reply, via: Option<Match>)
      requires Valid()
      modifies Repr()
      ensures Valid() && fresh(policy.repr - old(policy.repr))
      ensures KeyFor(prompt, params) == None ==> r == Raised && via == None && State() == old(State())
      ensures KeyFor(prompt, params).Some? ==>
        var key := KeyFor(prompt, params).value;
        var (c, hit) := ReadPhase(old(State()), key, t0);
        if hit.Some? then
          r == Hit(hit.value) && via == None && State() == MarkAccess(Settings(), c, key, t1, t2, false)
        else
          && IsCandidate(old(State()).vectors, prompt, via)
          && if via == None then r == Miss && State() == c
             else
               var (c', similar) := ReadPhase(c, via.value.key, t3);
               if similar == None then r == Miss && State() == c'
               else
                 && r == Hit(Annotated(similar.value, via.value.similarity))
                 && State() == MarkAccess(Settings(), c', via.value.key, t4, t5, true)
    {
      r, via := Raised, None;
      var key := KeyFor(prompt, params);
      if key == None {
        return;
      }
      var exact := LookupPhase(key.value, t0);
      if exact.Some? {
        Mark(key.value, t1, t2, false);
        r := Hit(exact.value);
        return;
      }
      r, via := GetSimilar(prompt, t3, t4, t5);
    }

    /** The live entries, each read at its own clock; `ks` is the order in which
        the backend listed its keys. */
    method ListEntries(clock: nat -> real) returns (entries: seq<Entry>, ks: seq<Key>)
      requires Valid()
      modifies backend
      ensures Valid() && policy.repr == old(policy.repr)
      ensures NoDup(ks) && Keys(ks) == old(State()).store.entries.Keys
      ensures State() == ReadAll(old(State()), ks, clock)
      ensures entries == Listed(old(State()).store.entries, ks, clock)
    {
      ghost var c := State();
      ks := backend.ListKeys();
      entries := [];
      for i := 0 to |ks|
        invariant Valid() && policy.repr == old(policy.repr)
        invariant State() == ReadAll(c, ks[..i], clock)
        invariant entries == Listed(c.store.entries, ks[..i], clock)
      {
        ReadAllStep(c, ks, i, clock);
        var found := LookupPhase(ks[i], clock(i));
        if found.Some? {
          entries := entries + [found.value];
        }
      }
      assert ks[..|ks|] == ks;
    }
  }
}
