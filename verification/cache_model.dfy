/** The cache as a state machine: every critical section of the orchestrator is
    one step on the backend, the eviction policy, the recorded embeddings and
    the eviction counter. */
module CacheModel {
  import opened KeySeq
  import opened Values
  import opened Entries
  import opened Backend
  import opened EvictionModel
  import opened Semantic

  /** `sizeOf` is the serialized size of an entry; `embed` is absent when no
      semantic layer is configured. */
  datatype Config = Config(
    maxItems: int,
    backendMaxBytes: int,
    maxBytes: int,
    sizeOf: Entry -> nat,
    embed: Option<Embedder>)

  datatype Cache = Cache(
    store: Store,
    policy: Policy,
    vectors: map<Key, Vector>,
    evictions: nat)

  ghost function Fresh(policy: Policy): Cache {
    Cache(EMPTY, policy, map[], 0)
  }

  ghost predicate Within(cfg: Config, b: Store) {
    |b.entries| <= cfg.maxItems && b.bytes <= cfg.maxBytes && b.bytes <= cfg.backendMaxBytes
  }

  /** The backend deletes expired entries without telling the policy, so the
      policy may still track ghosts: live keys are among the tracked ones. */
  ghost predicate Inv(cfg: Config, c: Cache) {
    && Accounted(cfg.sizeOf, c.store)
    && Coherent(c.policy)
    && c.store.entries.Keys <= Tracked(c.policy)
  }

  // ---------- The critical sections ----------

  /** The read phase of a lookup. */
  function ReadPhase(c: Cache, key: Key, now: real): (Cache, Option<Entry>) {
    var (store, found) := Lookup(c.store, key, now);
    (c.(store := store), found)
  }

  function Bump(e: Entry, stamp: real, semantic: bool): Entry {
    e.(hitCount := e.hitCount + 1,
       lastAccessed := stamp,
       metadata := SetField(e.metadata, Item("semantic_hit", Leaf(Bool(semantic)))))
  }

  /** The mark phase of a lookup: it looks the key up again. */
  function MarkAccess(cfg: Config, c: Cache, key: Key, now: real, stamp: real, semantic: bool): Cache {
    var (store, found) := Lookup(c.store, key, now);
    if found == None then c.(store := store)
    else
      var e := Bump(found.value, stamp, semantic);
      c.(store := Put(store, key, e, cfg.sizeOf), policy := RecordAccess(c.policy, key))
  }

  function Recorded(cfg: Config, vectors: map<Key, Vector>, key: Key, prompt: string): map<Key, Vector> {
    if cfg.embed.Some? && Resolve(cfg.embed.value, prompt).Some?
    then vectors[key := Resolve(cfg.embed.value, prompt).value]
    else vectors
  }

  /** A store before capacity is enforced. */
  function Stored(cfg: Config, c: Cache, e: Entry, prompt: string): Cache {
    c.(store := Put(c.store, e.key, e, cfg.sizeOf),
       policy := RecordInsert(c.policy, e.key),
       vectors := Recorded(cfg, c.vectors, e.key, prompt))
  }

  /** A victim that is no longer stored is merely forgotten by the policy. */
  function Evict(c: Cache, victim: Key): Cache {
    if victim in c.store.entries then
      Cache(Delete(c.store, victim).0, RecordDelete(c.policy, victim),
            c.vectors - {victim}, c.evictions + 1)
    else
      c.(policy := RecordDelete(c.policy, victim))
  }

  ghost function EnsureCapacity(cfg: Config, c: Cache): Cache
    requires Inv(cfg, c)
    decreases |Tracked(c.policy)|
  {
    var victim := SelectVictim(c.policy);
    if Within(cfg, c.store) || victim == None then c
    else
      EvictKeeps(cfg, c, victim.value);
      EnsureCapacity(cfg, Evict(c, victim.value))
  }

  ghost function SetEntry(cfg: Config, c: Cache, e: Entry, prompt: string): (r: Cache)
    requires Inv(cfg, c) && e.key != ""
    ensures Inv(cfg, r)
  {
    var stored := Stored(cfg, c, e, prompt);
    assert Inv(cfg, stored) by { var _ := StoredKeeps(cfg, c, e, prompt); }
    EnsureCapacityKeeps(cfg, stored);
    EnsureCapacity(cfg, stored)
  }

  function DropKeys(c: Cache, ks: set<Key>): Cache {
    c.(store := Discard(c.store, ks), policy := DeleteAll(c.policy, ks), vectors := c.vectors - ks)
  }

  function Matching(c: Cache, matches: Key -> bool): set<Key> {
    set k | k in c.store.entries && matches(k)
  }

  function Clear(c: Cache): Cache {
    c.(store := EMPTY, policy := DeleteAll(c.policy, c.store.entries.Keys), vectors := map[])
  }

  // ---------- Runs ----------

  /** One critical section. `Read` is also what listing the entries does; a
      lookup is a `Read` and, if it hits, a `Mark`, and anything may happen
      between the two. */
  datatype Op =
    | Read(key: Key, now: real)
    | Mark(key: Key, now: real, stamp: real, semantic: bool)
    | Set(entry: Entry, prompt: string)
    | Invalidate(matches: Key -> bool)
    | ClearAll

  /** Keys are built from a namespace, a version and a digest: never empty. */
  predicate ValidOp(op: Op) {
    op.Set? ==> op.entry.key != ""
  }

  ghost predicate ValidOps(ops: seq<Op>) {
    forall i :: 0 <= i < |ops| ==> ValidOp(ops[i])
  }

  ghost function Step(cfg: Config, c: Cache, op: Op): (r: Cache)
    requires Inv(cfg, c) && ValidOp(op)
    ensures Inv(cfg, r)
  {
    match op
    case Read(key, now) =>
      LookupKeeps(cfg.sizeOf, c.store, key, now);
      ReadPhase(c, key, now).0
    case Mark(key, now, stamp, semantic) =>
      MarkKeeps(cfg, c, key, now, stamp, semantic);
      MarkAccess(cfg, c, key, now, stamp, semantic)
    case Set(entry, prompt) =>
      SetEntry(cfg, c, entry, prompt)
    case Invalidate(matches) =>
      DropKeeps(cfg, c, Matching(c, matches));
      DropKeys(c, Matching(c, matches))
    case ClearAll =>
      DeleteKeeps(c.policy, c.store.entries.Keys);
      Clear(c)
  }

  ghost function Run(cfg: Config, c: Cache, ops: seq<Op>): (r: Cache)
    requires Inv(cfg, c) && ValidOps(ops)
    ensures Inv(cfg, r)
  {
    if ops == [] then c else Step(cfg, Run(cfg, c, ops[..|ops| - 1]), ops[|ops| - 1])
  }

  // ---------- What every critical section keeps ----------

  lemma DropKeeps(cfg: Config, c: Cache, ks: set<Key>)
    requires Inv(cfg, c)
    ensures Inv(cfg, DropKeys(c, ks))
    ensures Tracked(DropKeys(c, ks).policy) == Tracked(c.policy) - ks
  {
    DiscardKeeps(cfg.sizeOf, c.store, ks);
    DeleteKeeps(c.policy, ks);
  }

  lemma EvictIsDrop(cfg: Config, c: Cache, victim: Key)
    requires Inv(cfg, c)
    ensures Evict(c, victim).store == DropKeys(c, {victim}).store
    ensures Evict(c, victim).policy == DropKeys(c, {victim}).policy
  {
    DeleteIsDiscard(cfg.sizeOf, c.store, victim);
  }

  lemma EvictKeeps(cfg: Config, c: Cache, victim: Key)
    requires Inv(cfg, c) && SelectVictim(c.policy) == Some(victim)
    ensures Inv(cfg, Evict(c, victim))
    ensures victim in Tracked(c.policy) && Tracked(Evict(c, victim).policy) == Tracked(c.policy) - {victim}
    ensures |Tracked(Evict(c, victim).policy)| < |Tracked(c.policy)|
    ensures Evict(c, victim).store.entries == c.store.entries - {victim}
    ensures Evict(c, victim).store.bytes <= c.store.bytes
  {
    VictimExists(c.policy);
    EvictIsDrop(cfg, c, victim);
    DropKeeps(cfg, c, {victim});
    DiscardKeeps(cfg.sizeOf, c.store, {victim});
  }

  lemma MarkKeeps(cfg: Config, c: Cache, key: Key, now: real, stamp: real, semantic: bool)
    requires Inv(cfg, c)
    ensures Inv(cfg, MarkAccess(cfg, c, key, now, stamp, semantic))
    ensures MarkAccess(cfg, c, key, now, stamp, semantic).store.entries.Keys <= c.store.entries.Keys
  {
    LookupKeeps(cfg.sizeOf, c.store, key, now);
    var (store, found) := Lookup(c.store, key, now);
    if found.Some? {
      PutKeeps(cfg.sizeOf, store, key, Bump(found.value, stamp, semantic));
      assert key in Tracked(c.policy);
      AccessKeeps(c.policy, key);
    }
  }

  lemma StoredKeeps(cfg: Config, c: Cache, e: Entry, prompt: string) returns (stored: Cache)
    requires Inv(cfg, c) && e.key != ""
    ensures stored == Stored(cfg, c, e, prompt) && Inv(cfg, stored)
  {
    stored := Stored(cfg, c, e, prompt);
    PutKeeps(cfg.sizeOf, c.store, e.key, e);
    InsertKeeps(c.policy, e.key);
  }

  /** Enforcing capacity ends within the limits unless it has forgotten every
      key; it only removes entries, and counts each one it removes. */
  lemma {:induction false} EnsureCapacityKeeps(cfg: Config, c: Cache)
    requires Inv(cfg, c)
    ensures
      var r := EnsureCapacity(cfg, c);
      && Inv(cfg, r)
      && (Within(cfg, r.store) || (Tracked(r.policy) == {} && r.store.entries == map[] && r.store.bytes == 0))
      && r.store.entries.Keys <= c.store.entries.Keys
      && (forall k :: k in r.store.entries ==> r.store.entries[k] == c.store.entries[k])
      && |r.store.entries| + r.evictions == |c.store.entries| + c.evictions
      && r.store.bytes <= c.store.bytes
    decreases |Tracked(c.policy)|
  {
    var victim := SelectVictim(c.policy);
    if Within(cfg, c.store) {
    } else if victim == None {
      VictimExists(c.policy);
      assert c.store.entries.Keys == {};
      NoKeys(c.store.order);
    } else {
      EvictKeeps(cfg, c, victim.value);
      var next := Evict(c, victim.value);
      if victim.value in c.store.entries {
        assert next.store.entries.Keys == c.store.entries.Keys - {victim.value};
      } else {
        assert next.store.entries == c.store.entries;
      }
      EnsureCapacityKeeps(cfg, next);
    }
  }

  lemma EnsureCapacityEnds(cfg: Config, c: Cache)
    requires Inv(cfg, c)
    ensures Within(cfg, c.store) || SelectVictim(c.policy) == None ==> EnsureCapacity(cfg, c) == c
  {
  }

  lemma EnsureCapacityStep(cfg: Config, c: Cache, victim: Key)
    requires Inv(cfg, c) && !Within(cfg, c.store) && SelectVictim(c.policy) == Some(victim)
    ensures Inv(cfg, Evict(c, victim))
    ensures EnsureCapacity(cfg, c) == EnsureCapacity(cfg, Evict(c, victim))
    ensures |Tracked(Evict(c, victim).policy)| < |Tracked(c.policy)|
  {
    EvictKeeps(cfg, c, victim);
  }

  lemma DropTwice(cfg: Config, c: Cache, a: set<Key>, b: set<Key>)
    requires Inv(cfg, c)
    ensures DropKeys(DropKeys(c, a), b) == DropKeys(c, a + b)
  {
    DiscardTwice(cfg.sizeOf, c.store, a, b);
    DeleteTwice(c.policy, a, b);
    MapMinusTwice(c.vectors, a, b);
  }

  lemma DropNothing(cfg: Config, c: Cache)
    requires Inv(cfg, c)
    ensures DropKeys(c, {}) == c
  {
    DiscardNothing(cfg.sizeOf, c.store);
    DeleteNothing(c.policy);
    assert c.vectors - {} == c.vectors;
  }

  ghost predicate NonNegative(cfg: Config) {
    cfg.maxItems >= 0 && cfg.maxBytes >= 0 && cfg.backendMaxBytes >= 0
  }

  // ---------- Capacity over every run ----------

  /** Every `Set` ends within all limits exactly when no limit is negative. */
  lemma SetEndsWithin(cfg: Config, c: Cache, e: Entry, prompt: string)
    requires Inv(cfg, c) && e.key != ""
    ensures
      var r := Step(cfg, c, Set(e, prompt)).store;
      |r.entries| <= cfg.maxItems && r.bytes <= cfg.maxBytes && r.bytes <= cfg.backendMaxBytes
      <==> cfg.maxItems >= 0 && cfg.maxBytes >= 0 && cfg.backendMaxBytes >= 0
  {
    var stored := StoredKeeps(cfg, c, e, prompt);
    EnsureCapacityKeeps(cfg, stored);
    CountIsOrder(cfg.sizeOf, Step(cfg, c, Set(e, prompt)).store);
  }

  /** The bytes stored once `e` is, before capacity is enforced. */
  function BytesWith(cfg: Config, b: Store, e: Entry): int {
    b.bytes + cfg.sizeOf(e) - if e.key in b.entries then cfg.sizeOf(b.entries[e.key]) else 0
  }

  lemma StoredSizes(cfg: Config, c: Cache, e: Entry, prompt: string)
    requires Accounted(cfg.sizeOf, c.store)
    ensures
      var stored := Stored(cfg, c, e, prompt);
      && stored.store.entries == c.store.entries[e.key := e] && stored.evictions == c.evictions
      && stored.store.bytes == BytesWith(cfg, c.store, e)
  {
  }

  /** A store that fits takes nothing away. */
  lemma SetThatFits(cfg: Config, c: Cache, e: Entry, prompt: string)
    requires Inv(cfg, c) && e.key != "" && |c.store.entries.Keys + {e.key}| <= cfg.maxItems
    requires BytesWith(cfg, c.store, e) <= cfg.maxBytes && BytesWith(cfg, c.store, e) <= cfg.backendMaxBytes
    ensures SetEntry(cfg, c, e, prompt).store.entries == c.store.entries[e.key := e]
    ensures SetEntry(cfg, c, e, prompt).evictions == c.evictions
  {
    var stored := StoredKeeps(cfg, c, e, prompt);
    StoredSizes(cfg, c, e, prompt);
    KeysWith(c.store.entries, e);
    EnsureCapacityEnds(cfg, stored);
  }

  lemma KeysWith(entries: map<Key, Entry>, e: Entry)
    ensures |entries[e.key := e]| == |entries.Keys + {e.key}|
  {
    assert entries[e.key := e].Keys == entries.Keys + {e.key};
    assert |entries[e.key := e]| == |entries[e.key := e].Keys|;
  }

  lemma SetKeepsCount(cfg: Config, c: Cache, e: Entry, prompt: string)
    requires Inv(cfg, c) && e.key != "" && cfg.maxItems >= 0
    ensures |SetEntry(cfg, c, e, prompt).store.entries| <= cfg.maxItems
  {
    var stored := StoredKeeps(cfg, c, e, prompt);
    EnsureCapacityKeeps(cfg, stored);
  }

  lemma MarkedBytes(cfg: Config, c: Cache, key: Key, now: real, stamp: real, semantic: bool)
    requires Inv(cfg, c) && key in c.store.entries && !c.store.entries[key].IsExpired(now)
    ensures
      var e, r := c.store.entries[key], MarkAccess(cfg, c, key, now, stamp, semantic).store;
      && r.entries == c.store.entries[key := Bump(e, stamp, semantic)] && r.entries.Keys == c.store.entries.Keys
      && r.bytes == c.store.bytes + cfg.sizeOf(Bump(e, stamp, semantic)) - cfg.sizeOf(e)
  {
  }

  /** A mark serializes the entry again and enforces nothing: it stays within
      the limits exactly when the marked entry has not outgrown them. */
  lemma MarkEndsWithin(cfg: Config, c: Cache, key: Key, now: real, stamp: real, semantic: bool)
    requires Inv(cfg, c) && Within(cfg, c.store)
    ensures
      Within(cfg, MarkAccess(cfg, c, key, now, stamp, semantic).store)
      <==> (key in c.store.entries && !c.store.entries[key].IsExpired(now) ==>
              var e := c.store.entries[key];
              var grown := c.store.bytes + cfg.sizeOf(Bump(e, stamp, semantic)) - cfg.sizeOf(e);
              grown <= cfg.maxBytes && grown <= cfg.backendMaxBytes)
  {
    var r := MarkAccess(cfg, c, key, now, stamp, semantic).store;
    if key in c.store.entries && !c.store.entries[key].IsExpired(now) {
      MarkedBytes(cfg, c, key, now, stamp, semantic);
      assert |r.entries| == |r.entries.Keys| == |c.store.entries|;
    } else {
      LookupKeeps(cfg.sizeOf, c.store, key, now);
      CardinalitySubset(r.entries.Keys, c.store.entries.Keys);
    }
  }

  /** Whenever a hit makes an entry longer, it breaks a byte limit that the
      entry had just filled. */
  lemma MarkCanExceed(sizeOf: Entry -> nat, e: Entry, prompt: string, now: real, stamp: real, semantic: bool)
    requires e.key != "" && !e.IsExpired(now) && sizeOf(Bump(e, stamp, semantic)) > sizeOf(e)
    ensures
      var cfg := Config(1, sizeOf(e), sizeOf(e), sizeOf, None);
      var c := SetEntry(cfg, Fresh(Lru([])), e, prompt);
      Within(cfg, c.store) && !Within(cfg, MarkAccess(cfg, c, e.key, now, stamp, semantic).store)
  {
    var cfg := Config(1, sizeOf(e), sizeOf(e), sizeOf, None);
    StoredAlone(cfg, e, prompt);
    MarkEndsWithin(cfg, SetEntry(cfg, Fresh(Lru([])), e, prompt), e.key, now, stamp, semantic);
  }

  lemma StoredAlone(cfg: Config, e: Entry, prompt: string)
    requires e.key != "" && cfg.maxItems >= 1
    requires cfg.sizeOf(e) <= cfg.maxBytes && cfg.sizeOf(e) <= cfg.backendMaxBytes
    ensures
      var c := SetEntry(cfg, Fresh(Lru([])), e, prompt);
      && c.store.entries == map[e.key := e] && c.store.bytes == cfg.sizeOf(e)
      && c.policy == Lru([e.key]) && Within(cfg, c.store)
  {
    var stored := StoredKeeps(cfg, Fresh(Lru([])), e, prompt);
    assert stored.store.entries == map[e.key := e];
    assert stored.policy.chain == [e.key];
    assert stored.store.bytes == cfg.sizeOf(e);
    assert Within(cfg, stored.store);
  }

  // One entry that is stored and then hit, with decimal hit counts.

  function HitRun(e: Entry, n: nat): seq<Op> {
    if n == 0 then [Set(e, "")] else HitRun(e, n - 1) + [Mark(e.key, 0.0, 0.0, false)]
  }

  function HitTimes(e: Entry, n: nat): Entry {
    if n == 0 then e else Bump(HitTimes(e, n - 1), 0.0, false)
  }

  /** Only `e` is stored. */
  ghost predicate Alone(cfg: Config, b: Store, e: Entry) {
    b.entries == map[e.key := e] && b.bytes == cfg.sizeOf(e)
  }

  lemma MarkAlone(cfg: Config, c: Cache, e: Entry)
    requires Inv(cfg, c) && e.ttl == None && Alone(cfg, c.store, e)
    ensures Alone(cfg, MarkAccess(cfg, c, e.key, 0.0, 0.0, false).store, Bump(e, 0.0, false))
  {
    var hit := Bump(e, 0.0, false);
    assert e.key in c.store.entries && c.store.entries[e.key] == e;
    MarkedBytes(cfg, c, e.key, 0.0, 0.0, false);
    assert map[e.key := e][e.key := hit] == map[e.key := hit];
  }

  lemma RunSnoc(cfg: Config, c: Cache, ops: seq<Op>, op: Op)
    requires Inv(cfg, c) && ValidOps(ops) && ValidOp(op)
    ensures ValidOps(ops + [op]) && Run(cfg, c, ops + [op]) == Step(cfg, Run(cfg, c, ops), op)
  {
    assert (ops + [op])[..|ops|] == ops;
  }

  lemma {:induction false} HitTimesKeeps(e: Entry, n: nat)
    ensures HitTimes(e, n).key == e.key && HitTimes(e, n).ttl == e.ttl && HitTimes(e, n).hitCount == e.hitCount + n
  {
    if n > 0 {
      HitTimesKeeps(e, n - 1);
    }
  }

  lemma {:induction false} HitRunStores(cfg: Config, e: Entry, n: nat)
    requires e.key != "" && e.ttl == None && cfg.maxItems >= 1
    requires cfg.sizeOf(e) <= cfg.maxBytes && cfg.sizeOf(e) <= cfg.backendMaxBytes
    ensures ValidOps(HitRun(e, n)) && Alone(cfg, Run(cfg, Fresh(Lru([])), HitRun(e, n)).store, HitTimes(e, n))
  {
    var start := Fresh(Lru([]));
    if n == 0 {
      StoredAlone(cfg, e, "");
      RunSnoc(cfg, start, [], Set(e, ""));
    } else {
      HitRunStores(cfg, e, n - 1);
      HitTimesKeeps(e, n - 1);
      RunSnoc(cfg, start, HitRun(e, n - 1), Mark(e.key, 0.0, 0.0, false));
      StepAlone(cfg, Run(cfg, start, HitRun(e, n - 1)), HitTimes(e, n - 1));
    }
  }

  lemma StepAlone(cfg: Config, c: Cache, e: Entry)
    requires Inv(cfg, c) && e.ttl == None && Alone(cfg, c.store, e)
    ensures Alone(cfg, Step(cfg, c, Mark(e.key, 0.0, 0.0, false)).store, Bump(e, 0.0, false))
  {
    MarkAlone(cfg, c, e);
  }

  /** The decimal digits of a count. */
  function Digits(n: int): nat {
    if n < 10 then 1 else 1 + Digits(n / 10)
  }

  /** The size of an entry whose hit count is written in decimal. */
  function DecimalSize(rest: nat): Entry -> nat {
    (e: Entry) => rest + Digits(e.hitCount)
  }

  function UnitSize(): Entry -> nat {
    (e: Entry) => 1
  }

  /** With the hit count written in decimal, the tenth hit on an entry that
      fills the limit breaks it; the nine before do not. */
  lemma TenthHitExceeds(e: Entry, rest: nat)
    requires e.key != "" && e.ttl == None && e.hitCount == 0
    ensures
      var cfg := Config(1, rest + 1, rest + 1, DecimalSize(rest), None);
      && ValidOps(HitRun(e, 9)) && ValidOps(HitRun(e, 10))
      && Within(cfg, Run(cfg, Fresh(Lru([])), HitRun(e, 9)).store)
      && !Within(cfg, Run(cfg, Fresh(Lru([])), HitRun(e, 10)).store)
  {
    var cfg := Config(1, rest + 1, rest + 1, DecimalSize(rest), None);
    HitTimesKeeps(e, 9);
    HitTimesKeeps(e, 10);
    HitRunStores(cfg, e, 9);
    HitRunStores(cfg, e, 10);
    assert Digits(9) == 1 && Digits(10) == 2;
  }

  /** The policy keeps tracking exactly the stored keys through a read unless
      the key read has expired: the policy is not told. */
  lemma ReadLeavesNoGhost(cfg: Config, c: Cache, key: Key, now: real)
    requires Inv(cfg, c) && Tracked(c.policy) == c.store.entries.Keys
    ensures
      var r := ReadPhase(c, key, now).0;
      Tracked(r.policy) == r.store.entries.Keys
      <==> (key in c.store.entries ==> !c.store.entries[key].IsExpired(now))
  {
    DeleteIsDiscard(cfg.sizeOf, c.store, key);
    if key in c.store.entries && c.store.entries[key].IsExpired(now) {
      assert key !in ReadPhase(c, key, now).0.store.entries;
    }
  }

  /** Clearing the cache forgets every key exactly when no ghost was tracked. */
  lemma ClearForgetsAll(cfg: Config, c: Cache)
    requires Inv(cfg, c)
    ensures Tracked(Clear(c).policy) == {} <==> Tracked(c.policy) == c.store.entries.Keys
  {
    DeleteKeeps(c.policy, c.store.entries.Keys);
  }

  /** An entry that is stored, found expired and so silently deleted outlives
      a clear in the policy. */
  lemma GhostOutlivesClear()
    ensures
      var cfg := Config(1, 1, 1, UnitSize(), None);
      var c := SetEntry(cfg, Fresh(Lru([])), Entry("k", Leaf(Null), 0.0, Some(1.0), 0, [], 0.0), "");
      Clear(ReadPhase(c, "k", 2.0).0).policy == Lru(["k"])
  {
    var cfg := Config(1, 1, 1, UnitSize(), None);
    var e := Entry("k", Leaf(Null), 0.0, Some(1.0), 0, [], 0.0);
    var stored := StoredKeeps(cfg, Fresh(Lru([])), e, "");
    assert stored.store.entries == map["k" := e] && stored.store.bytes == 1;
    assert Within(cfg, stored.store) && stored.policy == Lru(["k"]);
    assert ReadPhase(stored, "k", 2.0).0.store.entries == map[];
  }

  /** No critical section other than `Set` adds an entry. */
  lemma OnlySetAdds(cfg: Config, c: Cache, op: Op)
    requires Inv(cfg, c) && ValidOp(op) && !op.Set?
    ensures Step(cfg, c, op).store.entries.Keys <= c.store.entries.Keys
  {
    match op
    case Read(key, now) => LookupKeeps(cfg.sizeOf, c.store, key, now);
    case Mark(key, now, stamp, semantic) => MarkKeeps(cfg, c, key, now, stamp, semantic);
    case Invalidate(_) =>
    case ClearAll =>
  }

  /** Over every run of an initially empty cache, whatever expires silently on
      the way: live keys are tracked, the byte total is exact, and the item
      limit, unless it is negative, holds at every release of the lock. */
  lemma {:induction false} CapacityOverRuns(cfg: Config, policy: Policy, ops: seq<Op>)
    requires Coherent(policy) && Tracked(policy) == {} && ValidOps(ops)
    ensures
      var r := Run(cfg, Fresh(policy), ops);
      && r.store.entries.Keys <= Tracked(r.policy)
      && r.store.bytes == Total(r.store.order, r.store.sizes)
      && (|r.store.entries| <= cfg.maxItems <==> cfg.maxItems >= 0)
  {
    if ops != [] {
      var before, op := Run(cfg, Fresh(policy), ops[..|ops| - 1]), ops[|ops| - 1];
      CapacityOverRuns(cfg, policy, ops[..|ops| - 1]);
      if cfg.maxItems >= 0 {
        if op.Set? {
          SetKeepsCount(cfg, before, op.entry, op.prompt);
        } else {
          OnlySetAdds(cfg, before, op);
          CardinalitySubset(Step(cfg, before, op).store.entries.Keys, before.store.entries.Keys);
        }
      }
    }
  }

  // ---------- Byte limits over every run ----------

  /** A mark leaves the entry it rewrites room within the byte limits. */
  predicate Fits(cfg: Config, c: Cache, op: Op) {
    op.Mark? && op.key in c.store.entries && !c.store.entries[op.key].IsExpired(op.now) ==>
      var e := c.store.entries[op.key];
      var grown := c.store.bytes + cfg.sizeOf(Bump(e, op.stamp, op.semantic)) - cfg.sizeOf(e);
      grown <= cfg.maxBytes && grown <= cfg.backendMaxBytes
  }

  ghost predicate FitsRun(cfg: Config, c: Cache, ops: seq<Op>)
    requires Inv(cfg, c) && ValidOps(ops)
  {
    ops != [] ==>
      FitsRun(cfg, c, ops[..|ops| - 1]) && Fits(cfg, Run(cfg, c, ops[..|ops| - 1]), ops[|ops| - 1])
  }

  /** All limits hold after every step. */
  ghost predicate AlwaysWithin(cfg: Config, c: Cache, ops: seq<Op>)
    requires Inv(cfg, c) && ValidOps(ops)
  {
    Within(cfg, Run(cfg, c, ops).store) && (ops != [] ==> AlwaysWithin(cfg, c, ops[..|ops| - 1]))
  }

  lemma FewerWithin(cfg: Config, b: Store, r: Store)
    requires Within(cfg, b) && r.entries.Keys <= b.entries.Keys && r.bytes <= b.bytes
    ensures Within(cfg, r)
  {
    CardinalitySubset(r.entries.Keys, b.entries.Keys);
    assert |r.entries| == |r.entries.Keys| && |b.entries| == |b.entries.Keys|;
  }

  lemma StepWithin(cfg: Config, c: Cache, op: Op)
    requires Inv(cfg, c) && ValidOp(op) && NonNegative(cfg) && Within(cfg, c.store)
    ensures Within(cfg, Step(cfg, c, op).store) <==> Fits(cfg, c, op)
  {
    match op
    case Read(key, now) =>
      LookupKeeps(cfg.sizeOf, c.store, key, now);
      FewerWithin(cfg, c.store, ReadPhase(c, key, now).0.store);
    case Mark(key, now, stamp, semantic) => MarkEndsWithin(cfg, c, key, now, stamp, semantic);
    case Set(entry, prompt) => SetEndsWithin(cfg, c, entry, prompt);
    case Invalidate(matches) =>
      DiscardKeeps(cfg.sizeOf, c.store, Matching(c, matches));
      FewerWithin(cfg, c.store, Discard(c.store, Matching(c, matches)));
    case ClearAll =>
  }

  /** The item limit and both byte limits hold at every release of the lock
      exactly when every mark on the way leaves its entry room. */
  lemma {:induction false} LimitsOverRuns(cfg: Config, policy: Policy, ops: seq<Op>)
    requires Coherent(policy) && ValidOps(ops) && NonNegative(cfg)
    ensures AlwaysWithin(cfg, Fresh(policy), ops) <==> FitsRun(cfg, Fresh(policy), ops)
  {
    if ops != [] {
      var init, op := ops[..|ops| - 1], ops[|ops| - 1];
      LimitsOverRuns(cfg, policy, init);
      if AlwaysWithin(cfg, Fresh(policy), init) {
        StepWithin(cfg, Run(cfg, Fresh(policy), init), op);
      }
    }
  }
}
