/** What least-recently-used eviction promises over whole runs of the cache. */
module LruRuns {
  import opened KeySeq
  import opened Entries
  import opened Backend
  import opened EvictionModel
  import opened CacheModel
  import opened Agreement

  ghost predicate BytesWithin(cfg: Config, b: Store) {
    b.bytes <= cfg.maxBytes && b.bytes <= cfg.backendMaxBytes
  }

  /** Only the item limit can be exceeded when `op` is performed. */
  ghost predicate Slack(cfg: Config, c: Cache, op: Op) {
    op.Set? ==> BytesWithin(cfg, Stored(cfg, c, op.entry, op.prompt).store)
  }

  ghost predicate SlackRun(cfg: Config, c: Cache, ops: seq<Op>)
    requires Inv(cfg, c) && ValidOps(ops)
  {
    ops != [] ==>
      && SlackRun(cfg, c, ops[..|ops| - 1])
      && Slack(cfg, Run(cfg, c, ops[..|ops| - 1]), ops[|ops| - 1])
  }

  lemma SlackRunLast(cfg: Config, c: Cache, ops: seq<Op>) returns (init: seq<Op>, before: Cache)
    requires Inv(cfg, c) && ValidOps(ops) && SlackRun(cfg, c, ops) && ops != []
    ensures init == ops[..|ops| - 1] && ValidOps(init) && SlackRun(cfg, c, init)
    ensures before == Run(cfg, c, init) && Inv(cfg, before) && Slack(cfg, before, ops[|ops| - 1])
    ensures Run(cfg, c, ops) == Step(cfg, before, ops[|ops| - 1])
  {
    init := ops[..|ops| - 1];
    before := Run(cfg, c, init);
  }

  // ---------- The key just stored ----------

  lemma {:induction false} TotalAtLeast(s: seq<Key>, sizes: map<Key, nat>, k: Key)
    requires k in Keys(s)
    ensures Total(s, sizes) >= Size(sizes, k)
  {
    if k != Last(s) {
      TotalAtLeast(Init(s), sizes, k);
    }
  }

  /** The most recently used key, alone, must be what is over the limits before
      enforcing capacity takes it. */
  lemma {:induction false} MostRecentSurvives(cfg: Config, c: Cache, k: Key)
    requires Inv(cfg, c) && c.policy.Lru? && k in c.store.entries && After(c.policy.chain, k) == {}
    ensures k in EnsureCapacity(cfg, c).store.entries <==>
      cfg.maxItems >= 1 && c.store.sizes[k] <= cfg.maxBytes && c.store.sizes[k] <= cfg.backendMaxBytes
    decreases |Tracked(c.policy)|
  {
    EnsureCapacityKeeps(cfg, c);
    var chain := c.policy.chain;
    NoKeys(chain);
    TotalAtLeast(c.store.order, c.store.sizes, k);
    if Within(cfg, c.store) {
      CardinalitySubset({k}, c.store.entries.Keys);
    } else {
      var victim := chain[0];
      EnsureCapacityStep(cfg, c, victim);
      EvictKeeps(cfg, c, victim);
      if victim == k {
        OnlyKeyStored(cfg, c, k);
        EnsureCapacityKeeps(cfg, Evict(c, victim));
      } else {
        AfterMinus(chain, k, {victim});
        EvictIsDrop(cfg, c, victim);
        MostRecentSurvives(cfg, Evict(c, victim), k);
      }
    }
  }

  lemma OnlyKeyStored(cfg: Config, c: Cache, k: Key)
    requires Inv(cfg, c) && c.policy.Lru? && k in c.store.entries
    requires c.policy.chain != [] && c.policy.chain[0] == k && After(c.policy.chain, k) == {}
    ensures |c.store.entries| == 1 && c.store.bytes == c.store.sizes[k]
  {
    AfterFirst(c.policy.chain);
    assert c.store.entries.Keys == {k};
    NoDupCardinality(c.store.order);
    var order := c.store.order;
    assert Init(order) == [] && Last(order) in Keys(order);
    assert Total(order, c.store.sizes) == Total(Init(order), c.store.sizes) + Size(c.store.sizes, k);
  }

  /** The entry just stored is still stored when capacity has been enforced,
      whatever else went, exactly when it fits the limits on its own. */
  lemma SetSurvives(cfg: Config, c: Cache, e: Entry, prompt: string)
    requires Inv(cfg, c) && c.policy.Lru? && e.key != ""
    ensures e.key in SetEntry(cfg, c, e, prompt).store.entries <==>
      cfg.maxItems >= 1 && cfg.sizeOf(e) <= cfg.maxBytes && cfg.sizeOf(e) <= cfg.backendMaxBytes
  {
    var stored := StoredKeeps(cfg, c, e, prompt);
    AfterTouch(c.policy.chain, e.key, e.key);
    MostRecentSurvives(cfg, stored, e.key);
  }

  // ---------- The working set ----------

  /** `op` is not an invalidation of `k`, and does not find it expired. */
  ghost predicate Spares(cfg: Config, c: Cache, op: Op, k: Key)
    requires k in c.store.entries
  {
    match op
    case Read(key, now) => key == k ==> !c.store.entries[k].IsExpired(now)
    case Mark(key, now, _, _) => key == k ==> !c.store.entries[k].IsExpired(now)
    case Set(_, _) => Slack(cfg, c, op)
    case Invalidate(matches) => !matches(k)
    case ClearAll => false
  }

  ghost predicate SparesRun(cfg: Config, c: Cache, ops: seq<Op>, k: Key)
    requires Inv(cfg, c) && ValidOps(ops)
  {
    ops != [] ==>
      var before := Run(cfg, c, ops[..|ops| - 1]);
      && SparesRun(cfg, c, ops[..|ops| - 1], k)
      && (k in before.store.entries ==> Spares(cfg, before, ops[|ops| - 1], k))
  }

  /** The key that `op` sets or hits; a mark that finds nothing hits nothing. */
  ghost function Uses(c: Cache, op: Op): set<Key> {
    match op
    case Set(entry, _) => {entry.key}
    case Mark(key, now, _, _) =>
      if key in c.store.entries && !c.store.entries[key].IsExpired(now) then {key} else {}
    case _ => {}
  }

  /** The keys other than `k` that are set or hit in the course of `ops`. */
  ghost function Others(cfg: Config, c: Cache, ops: seq<Op>, k: Key): set<Key>
    requires Inv(cfg, c) && ValidOps(ops)
  {
    if ops == [] then {}
    else
      var init := ops[..|ops| - 1];
      Others(cfg, c, init, k) + (Uses(Run(cfg, c, init), ops[|ops| - 1]) - {k})
  }

  lemma {:induction false} RecentSurvives(cfg: Config, c: Cache, k: Key)
    requires Inv(cfg, c) && c.policy.Lru? && k in c.store.entries
    requires BytesWithin(cfg, c.store) && |After(c.policy.chain, k)| < cfg.maxItems
    ensures
      var r := EnsureCapacity(cfg, c);
      k in r.store.entries && r.policy.Lru? && After(r.policy.chain, k) <= After(c.policy.chain, k)
    decreases |Tracked(c.policy)|
  {
    var chain := c.policy.chain;
    NoKeys(chain);
    if !Within(cfg, c.store) {
      var victim := chain[0];
      if victim == k {
        AfterFirst(chain);
        CardinalitySubset(c.store.entries.Keys, After(chain, k) + {k});
      }
      EnsureCapacityStep(cfg, c, victim);
      EvictKeeps(cfg, c, victim);
      EvictIsDrop(cfg, c, victim);
      AfterMinus(chain, k, {victim});
      CardinalitySubset(After(chain, k) - {victim}, After(chain, k));
      RecentSurvives(cfg, Evict(c, victim), k);
    }
  }

  lemma SetKeepsRecent(cfg: Config, c: Cache, e: Entry, prompt: string, k: Key, others: set<Key>)
    requires Inv(cfg, c) && e.key != "" && c.policy.Lru? && k in c.store.entries
    requires Slack(cfg, c, Set(e, prompt)) && e.key in others + {k}
    requires After(c.policy.chain, k) <= others - {k} && |others| < cfg.maxItems
    ensures
      var r := SetEntry(cfg, c, e, prompt);
      r.policy.Lru? && k in r.store.entries && After(r.policy.chain, k) <= others - {k}
  {
    var stored := StoredKeeps(cfg, c, e, prompt);
    AfterTouch(c.policy.chain, k, e.key);
    CardinalitySubset(After(stored.policy.chain, k), others);
    RecentSurvives(cfg, stored, k);
  }

  lemma MarkKeepsRecent(cfg: Config, c: Cache, op: Op, k: Key, others: set<Key>)
    requires Inv(cfg, c) && op.Mark? && c.policy.Lru? && k in c.store.entries
    requires Spares(cfg, c, op, k) && Uses(c, op) <= others + {k}
    requires After(c.policy.chain, k) <= others - {k}
    ensures
      var r := Step(cfg, c, op);
      r.policy.Lru? && k in r.store.entries && After(r.policy.chain, k) <= others - {k}
  {
    if op.key in c.store.entries && !c.store.entries[op.key].IsExpired(op.now) {
      assert op.key in Uses(c, op);
      AfterTouch(c.policy.chain, k, op.key);
      MarkedBytes(cfg, c, op.key, op.now, op.stamp, op.semantic);
      assert MarkAccess(cfg, c, op.key, op.now, op.stamp, op.semantic).policy == RecordAccess(c.policy, op.key);
    } else {
      assert MarkAccess(cfg, c, op.key, op.now, op.stamp, op.semantic).policy == c.policy;
    }
  }

  /** One step of the working-set argument. */
  lemma StepKeepsRecent(cfg: Config, c: Cache, op: Op, k: Key, others: set<Key>)
    requires Inv(cfg, c) && ValidOp(op) && c.policy.Lru? && k in c.store.entries && Spares(cfg, c, op, k)
    requires After(c.policy.chain, k) <= others - {k} && |others| < cfg.maxItems
    requires Uses(c, op) <= others + {k}
    ensures
      var r := Step(cfg, c, op);
      r.policy.Lru? && k in r.store.entries && After(r.policy.chain, k) <= others - {k}
  {
    var chain := c.policy.chain;
    match op
    case Read(_, _) =>
    case Mark(_, _, _, _) =>
      MarkKeepsRecent(cfg, c, op, k, others);
    case Set(entry, prompt) =>
      SetKeepsRecent(cfg, c, entry, prompt, k, others);
    case Invalidate(matches) =>
      AfterMinus(chain, k, Matching(c, matches));
  }

  /** A key just set or hit stays cached until at least `maxItems` other keys
      have been set or hit after it, even while ghosts are tracked. */
  lemma {:induction false} WorkingSet(cfg: Config, c: Cache, ops: seq<Op>, k: Key)
    requires Inv(cfg, c) && ValidOps(ops) && c.policy.Lru?
    requires k in c.store.entries && After(c.policy.chain, k) == {}
    requires SparesRun(cfg, c, ops, k) && |Others(cfg, c, ops, k)| < cfg.maxItems
    ensures
      var r := Run(cfg, c, ops);
      r.policy.Lru? && k in r.store.entries && After(r.policy.chain, k) <= Others(cfg, c, ops, k)
  {
    OthersExclude(cfg, c, ops, k);
    if ops != [] {
      var init := ops[..|ops| - 1];
      CardinalitySubset(Others(cfg, c, init, k), Others(cfg, c, ops, k));
      WorkingSet(cfg, c, init, k);
      OthersExclude(cfg, c, init, k);
      StepKeepsRecent(cfg, Run(cfg, c, init), ops[|ops| - 1], k, Others(cfg, c, ops, k));
    }
  }

  lemma {:induction false} OthersExclude(cfg: Config, c: Cache, ops: seq<Op>, k: Key)
    requires Inv(cfg, c) && ValidOps(ops)
    ensures k !in Others(cfg, c, ops, k)
  {
    if ops != [] {
      OthersExclude(cfg, c, ops[..|ops| - 1], k);
    }
  }

  /** A key is the most recently used one right after it was set or hit. */
  lemma JustUsed(cfg: Config, c: Cache, op: Op, k: Key)
    requires Inv(cfg, c) && ValidOp(op) && c.policy.Lru? && k in Step(cfg, c, op).store.entries
    requires (op.Set? && op.entry.key == k) || (op.Mark? && op.key == k)
    ensures Step(cfg, c, op).policy.Lru? && After(Step(cfg, c, op).policy.chain, k) == {}
  {
    AfterTouch(c.policy.chain, k, k);
    if op.Set? {
      var stored := StoredKeeps(cfg, c, op.entry, op.prompt);
      EnsureCapacityOnlyShortens(cfg, stored, k);
    } else {
      MarkKeeps(cfg, c, k, op.now, op.stamp, op.semantic);
    }
  }

  /** A key just set or hit, if it is stored, stays cached until at least
      `maxItems` other keys have been set or hit after it. */
  lemma WorkingSetAfterUse(cfg: Config, c: Cache, use: Op, ops: seq<Op>, k: Key)
    requires Inv(cfg, c) && ValidOp(use) && ValidOps(ops) && c.policy.Lru?
    requires (use.Set? && use.entry.key == k) || (use.Mark? && use.key == k)
    requires k in Step(cfg, c, use).store.entries && SparesRun(cfg, Step(cfg, c, use), ops, k)
    ensures k !in Run(cfg, Step(cfg, c, use), ops).store.entries ==>
      |Others(cfg, Step(cfg, c, use), ops, k)| >= cfg.maxItems
  {
    JustUsed(cfg, c, use, k);
    if |Others(cfg, Step(cfg, c, use), ops, k)| < cfg.maxItems {
      WorkingSet(cfg, Step(cfg, c, use), ops, k);
    }
  }

  lemma {:induction false} EnsureCapacityOnlyShortens(cfg: Config, c: Cache, k: Key)
    requires Inv(cfg, c) && c.policy.Lru? && After(c.policy.chain, k) == {}
    requires k in EnsureCapacity(cfg, c).store.entries
    ensures EnsureCapacity(cfg, c).policy.Lru? && After(EnsureCapacity(cfg, c).policy.chain, k) == {}
    decreases |Tracked(c.policy)|
  {
    NoKeys(c.policy.chain);
    if !Within(cfg, c.store) && c.policy.chain != [] {
      var victim := c.policy.chain[0];
      EnsureCapacityStep(cfg, c, victim);
      EvictKeeps(cfg, c, victim);
      EvictIsDrop(cfg, c, victim);
      EnsureCapacityKeeps(cfg, Evict(c, victim));
      AfterMinus(c.policy.chain, k, {victim});
      EnsureCapacityOnlyShortens(cfg, Evict(c, victim), k);
    }
  }
}
