/** The inclusion property of least-recently-used eviction: a larger cache
    always holds what a smaller one holds, in the same order. */
module LruInclusion {
  import opened KeySeq
  import opened Entries
  import opened Backend
  import opened EvictionModel
  import opened CacheModel
  import opened Agreement
  import opened LruRuns

  // ---------- The cache as a bounded recency sequence ----------

  function Trim(chain: seq<Key>, limit: int): seq<Key> {
    if chain != [] && |chain| > limit then chain[1..] else chain
  }

  function Removed(chain: seq<Key>, op: Op): set<Key> {
    match op
    case Invalidate(matches) => set k | k in Keys(chain) && matches(k)
    case ClearAll => Keys(chain)
    case _ => {}
  }

  /** What one step does to the recency sequence when nothing ever expires and
      only the item limit is active. */
  function LruStep(chain: seq<Key>, op: Op, limit: int): seq<Key> {
    match op
    case Set(entry, _) => Trim(Touch(chain, entry.key), limit)
    case Mark(key, _, _, _) => if key in Keys(chain) then Touch(chain, key) else chain
    case _ => Minus(chain, Removed(chain, op))
  }

  /** No ghosts are tracked and nothing can expire. */
  ghost predicate Settled(cfg: Config, c: Cache) {
    && Inv(cfg, c) && c.policy.Lru?
    && Keys(c.policy.chain) == c.store.entries.Keys
    && |c.policy.chain| <= cfg.maxItems
    && forall k :: k in c.store.entries ==> c.store.entries[k].ttl == None
  }

  /** One key too many costs exactly the least recently used one. */
  lemma OneEviction(cfg: Config, c: Cache)
    requires Inv(cfg, c) && c.policy.Lru? && Keys(c.policy.chain) == c.store.entries.Keys
    requires BytesWithin(cfg, c.store) && |c.policy.chain| <= cfg.maxItems + 1 && cfg.maxItems >= 0
    ensures
      var r := EnsureCapacity(cfg, c);
      && r.policy == Lru(Trim(c.policy.chain, cfg.maxItems))
      && Keys(r.policy.chain) == r.store.entries.Keys && |r.policy.chain| <= cfg.maxItems
  {
    var chain := c.policy.chain;
    NoDupCardinality(chain);
    if !Within(cfg, c.store) {
      var evicted := Evict(c, chain[0]);
      EnsureCapacityStep(cfg, c, chain[0]);
      EvictKeeps(cfg, c, chain[0]);
      EvictIsDrop(cfg, c, chain[0]);
      PopFirst(chain);
      NoDupCardinality(chain[1..]);
      assert evicted.store.entries.Keys == Keys(chain[1..]);
      assert Within(cfg, evicted.store);
    }
  }

  lemma SettledSet(cfg: Config, c: Cache, e: Entry, prompt: string)
    requires Settled(cfg, c) && e.key != "" && e.ttl == None && Slack(cfg, c, Set(e, prompt))
    ensures Settled(cfg, SetEntry(cfg, c, e, prompt))
    ensures SetEntry(cfg, c, e, prompt).policy.chain == Trim(Touch(c.policy.chain, e.key), cfg.maxItems)
  {
    var stored := StoredKeeps(cfg, c, e, prompt);
    TouchFacts(c.policy.chain, e.key);
    OneEviction(cfg, stored);
    var r := SetEntry(cfg, c, e, prompt);
    forall k | k in r.store.entries ensures r.store.entries[k].ttl == None {
      SetOnEntry(cfg, c, e, prompt, k);
    }
  }

  lemma SettledDrop(cfg: Config, c: Cache, ks: set<Key>)
    requires Settled(cfg, c)
    ensures Settled(cfg, DropKeys(c, ks)) && DropKeys(c, ks).policy.chain == Minus(c.policy.chain, ks)
  {
    DropKeeps(cfg, c, ks);
    KeysMinus(c.policy.chain, ks);
    NoDupCardinality(c.policy.chain);
    NoDupCardinality(Minus(c.policy.chain, ks));
    CardinalitySubset(Keys(c.policy.chain) - ks, Keys(c.policy.chain));
  }

  lemma MarkUnexpiring(cfg: Config, c: Cache, key: Key, now: real, stamp: real, semantic: bool)
    requires Settled(cfg, c)
    ensures
      var r := MarkAccess(cfg, c, key, now, stamp, semantic);
      && r.store.entries == (if key in c.store.entries
                             then c.store.entries[key := Bump(c.store.entries[key], stamp, semantic)]
                             else c.store.entries)
      && r.policy == if key in c.store.entries then RecordAccess(c.policy, key) else c.policy
  {
  }

  lemma SettledMark(cfg: Config, c: Cache, key: Key, now: real, stamp: real, semantic: bool)
    requires Settled(cfg, c)
    ensures
      var r := MarkAccess(cfg, c, key, now, stamp, semantic);
      && Settled(cfg, r)
      && r.policy.chain == if key in Keys(c.policy.chain) then Touch(c.policy.chain, key) else c.policy.chain
  {
    MarkUnexpiring(cfg, c, key, now, stamp, semantic);
    MarkKeeps(cfg, c, key, now, stamp, semantic);
    var r := MarkAccess(cfg, c, key, now, stamp, semantic);
    TouchFacts(c.policy.chain, key);
    assert r.store.entries.Keys == c.store.entries.Keys;
  }

  lemma SettledStep(cfg: Config, c: Cache, op: Op)
    requires Settled(cfg, c) && ValidOp(op) && Slack(cfg, c, op)
    requires op.Set? ==> op.entry.ttl == None
    ensures Settled(cfg, Step(cfg, c, op))
    ensures Step(cfg, c, op).policy.chain == LruStep(c.policy.chain, op, cfg.maxItems)
  {
    match op
    case Read(key, now) =>
      MinusAbsent(c.policy.chain, {});
    case Mark(key, now, stamp, semantic) =>
      SettledMark(cfg, c, key, now, stamp, semantic);
    case Set(entry, prompt) =>
      SettledSet(cfg, c, entry, prompt);
    case Invalidate(matches) =>
      assert Matching(c, matches) == Removed(c.policy.chain, op);
      SettledDrop(cfg, c, Matching(c, matches));
    case ClearAll =>
      SettledDrop(cfg, c, c.store.entries.Keys);
  }

  // ---------- Inclusion, one step at a time ----------

  /** `small` is part of `large`, in the same order, and misses at most `gap`
      of its keys. */
  ghost predicate Included(small: seq<Key>, large: seq<Key>, gap: nat) {
    && NoDup(small) && NoDup(large)
    && Keys(small) <= Keys(large) && small == Keep(large, Keys(small))
    && |large| <= |small| + gap
  }

  lemma {:induction false} KeepFirst(s: seq<Key>, keep: set<Key>)
    requires s != [] && s[0] in keep
    ensures Keep(s, keep) != [] && Keep(s, keep)[0] == s[0]
  {
    if |s| > 1 {
      KeepFirst(Init(s), keep);
    } else {
      assert Init(s) == [];
    }
  }

  lemma {:induction false} MinusAgree(s: seq<Key>, a: set<Key>, b: set<Key>)
    requires Keys(s) * a == Keys(s) * b
    ensures Minus(s, a) == Minus(s, b)
  {
    if s != [] {
      assert Last(s) in Keys(s) * a <==> Last(s) in Keys(s) * b;
      assert Keys(Init(s)) * a == Keys(Init(s)) * b by {
        assert forall k :: k in Keys(Init(s)) ==> (k in Keys(s) * a <==> k in Keys(s) * b);
      }
      MinusAgree(Init(s), a, b);
    }
  }

  lemma IncludedTouch(small: seq<Key>, large: seq<Key>, gap: nat, k: Key)
    requires Included(small, large, gap)
    ensures Included(Touch(small, k), Touch(large, k), gap)
  {
    TouchFacts(small, k);
    TouchFacts(large, k);
    KeepTouch(large, Keys(small), k);
  }

  lemma IncludedTouchLarge(small: seq<Key>, large: seq<Key>, gap: nat, k: Key)
    requires Included(small, large, gap) && k in Keys(large) && k !in Keys(small)
    ensures Included(small, Touch(large, k), gap)
  {
    TouchFacts(large, k);
    KeepTouchOther(large, Keys(small), k);
  }

  /** The smaller sequence drops its first key. */
  lemma IncludedDropSmall(small: seq<Key>, large: seq<Key>, gap: nat)
    requires Included(small, large, gap) && small != [] && |large| < |small| + gap
    ensures Included(small[1..], large, gap)
  {
    PopFirst(small);
    KeepMinus(large, Keys(small), {small[0]});
  }

  /** Both sequences drop their first key. */
  lemma IncludedDropBoth(small: seq<Key>, large: seq<Key>, gap: nat)
    requires Included(small, large, gap) && small != [] && large != []
    ensures Included(small[1..], large[1..], gap)
  {
    var a, x := large[0], small[0];
    PopFirst(small);
    PopFirst(large);
    if a in Keys(small) {
      KeepFirst(large, Keys(small));
    }
    KeepMinus(large, Keys(small), {x});
    KeepMinus(large, Keys(small) - {x}, {a});
    assert Keys(small) - {x} - {a} == Keys(small) - {x};
  }

  lemma IncludedTrim(small: seq<Key>, large: seq<Key>, k: nat, m: nat)
    requires k <= m && Included(small, large, m - k) && |small| <= k + 1 && |large| <= m + 1
    ensures Included(Trim(small, k), Trim(large, m), m - k)
  {
    if |large| > m {
      IncludedDropBoth(small, large, m - k);
    } else if |small| > k {
      IncludedDropSmall(small, large, m - k);
    }
  }

  lemma IncludedMinus(small: seq<Key>, large: seq<Key>, gap: nat, drop: set<Key>)
    requires Included(small, large, gap)
    ensures Included(Minus(small, drop), Minus(large, drop), gap)
  {
    var s, l := Minus(small, drop), Minus(large, drop);
    MinusNoDup(small, drop);
    MinusNoDup(large, drop);
    KeepMinus(large, Keys(small), drop);
    KeepMinus(large, Keys(s), drop);
    assert Keys(s) - drop == Keys(small) - drop;
    NoDupCardinality(small);
    NoDupCardinality(large);
    NoDupCardinality(s);
    NoDupCardinality(l);
    CardinalitySubset(Keys(l) - Keys(s), Keys(large) - Keys(small));
    Difference(Keys(large), Keys(small));
    Difference(Keys(l), Keys(s));
  }

  lemma Difference(a: set<Key>, b: set<Key>)
    requires b <= a
    ensures |a - b| == |a| - |b|
  {
    assert a == b + (a - b);
  }

  lemma IncludedRemoved(small: seq<Key>, large: seq<Key>, op: Op, gap: nat)
    requires Included(small, large, gap)
    ensures Included(Minus(small, Removed(small, op)), Minus(large, Removed(large, op)), gap)
  {
    assert Keys(small) * Removed(small, op) == Keys(small) * Removed(large, op);
    MinusAgree(small, Removed(small, op), Removed(large, op));
    IncludedMinus(small, large, gap, Removed(large, op));
  }

  lemma IncludedStep(small: seq<Key>, large: seq<Key>, op: Op, k: nat, m: nat)
    requires k <= m && |small| <= k && |large| <= m && Included(small, large, m - k)
    ensures Included(LruStep(small, op, k), LruStep(large, op, m), m - k)
  {
    match op
    case Set(entry, _) =>
      IncludedTouch(small, large, m - k, entry.key);
      TouchFacts(small, entry.key);
      TouchFacts(large, entry.key);
      IncludedTrim(Touch(small, entry.key), Touch(large, entry.key), k, m);
    case Mark(key, _, _, _) =>
      if key in Keys(small) {
        IncludedTouch(small, large, m - k, key);
      } else if key in Keys(large) {
        IncludedTouchLarge(small, large, m - k, key);
      }
    case _ =>
      IncludedRemoved(small, large, op, m - k);
  }

  // ---------- Inclusion over runs ----------

  ghost predicate NeverExpires(ops: seq<Op>) {
    forall i :: 0 <= i < |ops| && ops[i].Set? ==> ops[i].entry.ttl == None
  }

  /** The runs start from an empty least-recently-used cache. */
  ghost function RunLru(cfg: Config, ops: seq<Op>): (c: Cache)
    requires ValidOps(ops)
    ensures Inv(cfg, c)
  {
    Run(cfg, Fresh(Lru([])), ops)
  }

  ghost predicate SlackLru(cfg: Config, ops: seq<Op>)
    requires ValidOps(ops)
  {
    SlackRun(cfg, Fresh(Lru([])), ops)
  }

  /** The same run on two cache sizes, without expiry and with bytes to spare. */
  ghost predicate Comparable(small: Config, large: Config, ops: seq<Op>) {
    && ValidOps(ops) && NeverExpires(ops) && 0 <= small.maxItems <= large.maxItems
    && SlackLru(small, ops) && SlackLru(large, ops)
  }

  lemma {:induction false} RunSettled(cfg: Config, ops: seq<Op>)
    requires ValidOps(ops) && NeverExpires(ops) && cfg.maxItems >= 0
    requires SlackLru(cfg, ops)
    ensures Settled(cfg, RunLru(cfg, ops))
  {
    if ops != [] {
      RunSettled(cfg, ops[..|ops| - 1]);
      SettledStep(cfg, RunLru(cfg, ops[..|ops| - 1]), ops[|ops| - 1]);
    }
  }

  lemma StepIncluded(small: Config, large: Config, s: Cache, l: Cache, op: Op)
    requires 0 <= small.maxItems <= large.maxItems && ValidOp(op)
    requires Settled(small, s) && Settled(large, l) && Slack(small, s, op) && Slack(large, l, op)
    requires op.Set? ==> op.entry.ttl == None
    requires Included(s.policy.chain, l.policy.chain, large.maxItems - small.maxItems)
    ensures Step(small, s, op).policy.Lru? && Step(large, l, op).policy.Lru?
    ensures Included(Step(small, s, op).policy.chain, Step(large, l, op).policy.chain,
                     large.maxItems - small.maxItems)
  {
    SettledStep(small, s, op);
    SettledStep(large, l, op);
    IncludedStep(s.policy.chain, l.policy.chain, op, small.maxItems, large.maxItems);
  }

  /** The last step of a run, seen by both caches. */
  lemma LastStep(small: Config, large: Config, ops: seq<Op>) returns (init: seq<Op>, s: Cache, l: Cache)
    requires Comparable(small, large, ops) && ops != []
    ensures init == ops[..|ops| - 1] && Comparable(small, large, init)
    ensures s == RunLru(small, init) && l == RunLru(large, init)
    ensures Settled(small, s) && Settled(large, l)
    ensures Slack(small, s, ops[|ops| - 1]) && Slack(large, l, ops[|ops| - 1])
    ensures RunLru(small, ops) == Step(small, s, ops[|ops| - 1])
    ensures RunLru(large, ops) == Step(large, l, ops[|ops| - 1])
  {
    init, s := SlackRunLast(small, Fresh(Lru([])), ops);
    init, l := SlackRunLast(large, Fresh(Lru([])), ops);
    RunSettled(small, init);
    RunSettled(large, init);
  }

  /** The larger cache always holds the keys of the smaller one, in the same
      relative order. */
  lemma {:induction false} RunIncluded(small: Config, large: Config, ops: seq<Op>)
    requires Comparable(small, large, ops)
    ensures
      var s, l := RunLru(small, ops), RunLru(large, ops);
      && s.policy.Lru? && l.policy.Lru? && s.store.entries.Keys <= l.store.entries.Keys
      && Included(s.policy.chain, l.policy.chain, large.maxItems - small.maxItems)
  {
    RunSettled(small, ops);
    RunSettled(large, ops);
    if ops != [] {
      var init, s, l := LastStep(small, large, ops);
      RunIncluded(small, large, init);
      StepIncluded(small, large, s, l, ops[|ops| - 1]);
    }
  }

  /** Every hit of the smaller cache is the same hit of the larger one. */
  lemma LargerCacheHits(small: Config, large: Config, ops: seq<Op>, k: Key, now: real)
    requires Comparable(small, large, ops)
    ensures
      var s, l := RunLru(small, ops), RunLru(large, ops);
      ReadPhase(s, k, now).1.Some? ==> ReadPhase(l, k, now).1 == ReadPhase(s, k, now).1
  {
    var s, l := RunLru(small, ops), RunLru(large, ops);
    RunIncluded(small, large, ops);
    RunSettled(small, ops);
    RunSettled(large, ops);
    if k in s.store.entries {
      assert k in l.store.entries;
      StoredIsHistory(small, Lru([]), ops, k);
      StoredIsHistory(large, Lru([]), ops, k);
    }
  }
}
