/** How a configured policy is built, and what its capacities guarantee. */
module Factory {
  import opened KeySeq
  import opened Entries
  import opened Backend
  import opened EvictionModel
  import opened Eviction
  import opened CacheModel
  import opened LruRuns
  import opened SlruScan

  function Max(a: int, b: int): int {
    if a >= b then a else b
  }

  function ProtectedCapacity(maxItems: int, ratio: real): int {
    Max(1, Truncate(maxItems as real * ratio))
  }

  function ProbationaryCapacity(maxItems: int, ratio: real): int {
    Max(1, maxItems - ProtectedCapacity(maxItems, ratio))
  }

  /** The protected capacity is the largest whole number of items within the given
      share of the limit, but at least one. */
  lemma ProtectedIsTheShare(maxItems: int, ratio: real)
    requires maxItems > 0 && 0.0 < ratio < 1.0
    ensures
      var n, share := ProtectedCapacity(maxItems, ratio), maxItems as real * ratio;
      if share < 1.0 then n == 1 else n as real <= share < (n + 1) as real
  {
    var share := maxItems as real * ratio;
    assert share > 0.0;
  }

  /** In real arithmetic, the protected segment leaves room for probation
      exactly when the cache holds more than one item; then the two capacities
      share out the item limit. */
  lemma SegmentsShareTheLimit(maxItems: int, ratio: real)
    requires maxItems > 0 && 0.0 < ratio < 1.0
    ensures ProtectedCapacity(maxItems, ratio) < maxItems <==> maxItems >= 2
    ensures maxItems >= 2 ==>
      ProtectedCapacity(maxItems, ratio) + ProbationaryCapacity(maxItems, ratio) == maxItems
  {
    var n := maxItems as real;
    assert 0.0 < n * ratio < n by {
      assert n - n * ratio == n * (1.0 - ratio) > 0.0;
    }
  }

  datatype PolicyName = LruName | LfuName | OtherName

  ghost function BuiltPolicy(name: PolicyName, maxItems: int, ratio: real): (policy: Policy)
    requires maxItems > 0 && 0.0 < ratio < 1.0
    ensures Coherent(policy) && Tracked(policy) == {}
  {
    match name
    case LruName => Lru([])
    case LfuName => Lfu(map[], 0)
    case OtherName => Slru([], [], ProbationaryCapacity(maxItems, ratio), ProtectedCapacity(maxItems, ratio))
  }

  /** Any name other than the two it knows selects segmented LRU. */
  method BuildEvictionPolicy(name: PolicyName, maxItems: int, ratio: real) returns (policy: EvictionPolicy)
    requires maxItems > 0 && 0.0 < ratio < 1.0
    ensures policy.Valid() && fresh(policy.repr)
    ensures policy.State() == BuiltPolicy(name, maxItems, ratio)
    ensures Coherent(policy.State()) && Tracked(policy.State()) == {}
  {
    ghost var built := BuiltPolicy(name, maxItems, ratio);
    if name == LruName {
      var lru := new LRUPolicy();
      policy := new EvictionPolicy.OfLru(lru);
    } else if name == LfuName {
      var lfu := new LFUPolicy();
      policy := new EvictionPolicy.OfLfu(lfu);
    } else {
      policy := BuildSegmented(maxItems, ratio);
    }
    assert policy.State() == built;
  }

  method BuildSegmented(maxItems: int, ratio: real) returns (policy: EvictionPolicy)
    requires maxItems > 0 && 0.0 < ratio < 1.0
    ensures policy.Valid() && fresh(policy.repr)
    ensures policy.State() == BuiltPolicy(OtherName, maxItems, ratio)
  {
    var protected := ProtectedCapacity(maxItems, ratio);
    var probationary := ProbationaryCapacity(maxItems, ratio);
    var slru := new SLRUPolicy(probationary, protected);
    policy := new EvictionPolicy.OfSlru(slru);
  }

  // ---------- Scan resistance of configured caches ----------

  lemma MarkKeepsCapacity(cfg: Config, c: Cache, key: Key, now: real, stamp: real, semantic: bool)
    requires c.policy.Slru?
    ensures MarkAccess(cfg, c, key, now, stamp, semantic).policy.Slru?
    ensures MarkAccess(cfg, c, key, now, stamp, semantic).policy.protectedCapacity == c.policy.protectedCapacity
  {
  }

  lemma StepKeepsCapacity(cfg: Config, c: Cache, op: Op)
    requires Inv(cfg, c) && ValidOp(op) && c.policy.Slru?
    ensures Step(cfg, c, op).policy.Slru?
    ensures Step(cfg, c, op).policy.protectedCapacity == c.policy.protectedCapacity
  {
    match op
    case Read(_, _) =>
    case Mark(key, now, stamp, semantic) =>
      MarkKeepsCapacity(cfg, c, key, now, stamp, semantic);
    case Set(entry, prompt) => CapacitiesFixed(cfg, c, entry, prompt);
    case Invalidate(_) =>
    case ClearAll =>
  }

  lemma {:induction false} RunKeepsCapacity(cfg: Config, c: Cache, ops: seq<Op>)
    requires Inv(cfg, c) && ValidOps(ops) && c.policy.Slru?
    ensures Run(cfg, c, ops).policy.Slru?
    ensures Run(cfg, c, ops).policy.protectedCapacity == c.policy.protectedCapacity
  {
    if ops != [] {
      RunKeepsCapacity(cfg, c, ops[..|ops| - 1]);
      StepKeepsCapacity(cfg, Run(cfg, c, ops[..|ops| - 1]), ops[|ops| - 1]);
    }
  }

  /** However a segmented-LRU cache of at least two items was used, a scan
      bounded by the item limit alone then leaves its protected keys alone. */
  lemma ConfiguredCacheResistsScans(cfg: Config, ratio: real, ops: seq<Op>, scan: seq<Op>)
    requires cfg.maxItems >= 2 && 0.0 < ratio < 1.0 && ValidOps(ops) && ValidOps(scan)
    requires
      var c := Run(cfg, Fresh(BuiltPolicy(OtherName, cfg.maxItems, ratio)), ops);
      c.policy.Slru? ==> Scan(scan, Keys(c.policy.protected)) && SlackRun(cfg, c, scan)
    ensures
      var c := Run(cfg, Fresh(BuiltPolicy(OtherName, cfg.maxItems, ratio)), ops);
      c.policy.Slru? && ProtectedAsIn(cfg, c, Run(cfg, c, scan))
  {
    var policy := BuiltPolicy(OtherName, cfg.maxItems, ratio);
    var c := Run(cfg, Fresh(policy), ops);
    SegmentsShareTheLimit(cfg.maxItems, ratio);
    RunKeepsCapacity(cfg, Fresh(policy), ops);
    CapacityOverRuns(cfg, policy, ops);
    ScanSparesProtected(cfg, c, scan);
  }
}
