/** Segmented LRU at the level of the cache: a hit protects its key, and a
    protected key stays until as many others have been hit as the protected
    segment holds. */
module SlruHot {
  import opened KeySeq
  import opened Entries
  import opened Backend
  import opened EvictionModel
  import opened CacheModel
  import opened LruRuns
  import opened SlruScan
  import opened Factory

  /** `op` finds the key it marks, unexpired. */
  predicate Hits(c: Cache, op: Op) {
    op.Mark? && op.key in c.store.entries && !c.store.entries[op.key].IsExpired(op.now)
  }

  ghost predicate Shielded(c: Cache, k: Key) {
    c.policy.Slru? && k in Keys(c.policy.protected) && k in c.store.entries
  }

  // ---------- A hit protects ----------

  lemma MarkHits(cfg: Config, c: Cache, op: Op)
    requires Inv(cfg, c) && Hits(c, op)
    ensures
      var r := Step(cfg, c, op);
      r.policy == RecordAccess(c.policy, op.key) && r.store.entries.Keys == c.store.entries.Keys
  {
    MarkedBytes(cfg, c, op.key, op.now, op.stamp, op.semantic);
  }

  lemma MarkMisses(cfg: Config, c: Cache, op: Op)
    requires Inv(cfg, c) && op.Mark? && !Hits(c, op)
    ensures
      var r := Step(cfg, c, op);
      r.policy == c.policy && r.store.entries == c.store.entries - {op.key}
  {
    if op.key !in c.store.entries {
      assert c.store.entries - {op.key} == c.store.entries;
    }
  }

  /** Whatever the state, the key of a hit is protected afterwards, and the most
      recent of the protected ones. */
  lemma HitProtects(cfg: Config, c: Cache, op: Op)
    requires Inv(cfg, c) && c.policy.Slru? && Hits(c, op)
    ensures
      var r := Step(cfg, c, op);
      && Shielded(r, op.key) && After(r.policy.protected, op.key) == {}
      && r.policy.protectedCapacity == c.policy.protectedCapacity
      && |r.store.entries| == |c.store.entries|
  {
    MarkHits(cfg, c, op);
    HeatedIsLast(c.policy, op.key);
    SameCount(c.store.entries, Step(cfg, c, op).store.entries);
  }

  lemma HeatedIsLast(p: Policy, k: Key)
    requires p.Slru? && Structured(p) && k in Tracked(p)
    ensures
      var r := RecordAccess(p, k);
      && r.Slru? && r.protectedCapacity == p.protectedCapacity
      && k in Keys(r.protected) && After(r.protected, k) == {}
  {
    var r := AccessHeats(p, k);
  }

  lemma SameCount(before: map<Key, Entry>, after: map<Key, Entry>)
    requires before.Keys == after.Keys
    ensures |before| == |after|
  {
    assert |before| == |before.Keys| && |after| == |after.Keys|;
  }

  // ---------- How long protection lasts ----------

  /** The protected key that `op` makes the most recent one. */
  ghost function Warms(c: Cache, op: Op): set<Key> {
    if Hits(c, op) then {op.key}
    else if op.Set? && c.policy.Slru? && op.entry.key in Keys(c.policy.protected) then {op.entry.key}
    else {}
  }

  /** The keys other than `k` that are hit in the course of `ops`, or stored
      again while they are protected. */
  ghost function WarmOthers(cfg: Config, c: Cache, ops: seq<Op>, k: Key): set<Key>
    requires Inv(cfg, c) && ValidOps(ops)
  {
    if ops == [] then {}
    else
      var init := ops[..|ops| - 1];
      WarmOthers(cfg, c, init, k) + (Warms(Run(cfg, c, init), ops[|ops| - 1]) - {k})
  }

  /** What holds of the cache and of `k` all along. */
  ghost predicate Sheltering(cfg: Config, c: Cache, k: Key, others: set<Key>) {
    && Inv(cfg, c) && Shielded(c, k) && After(c.policy.protected, k) <= others
    && c.policy.protectedCapacity < cfg.maxItems && |c.store.entries| <= cfg.maxItems
    && k !in others && |others| < c.policy.protectedCapacity
  }

  lemma AfterSnoc(s: seq<Key>, k: Key, x: Key)
    ensures After(s + [x], k) == if x == k then {} else After(s, k) + {x}
  {
    Snoc(s, x);
  }

  /** An access to another key pushes `k` towards the end of the protected
      segment, and over it only if it was there already. */
  lemma AccessShelters(p: Policy, x: Key, k: Key, others: set<Key>)
    requires p.Slru? && Structured(p) && x in Tracked(p) && k in Keys(p.protected)
    requires After(p.protected, k) <= others && {x} - {k} <= others && k !in others && |others| < p.protectedCapacity
    ensures
      var r := RecordAccess(p, x);
      && r.Slru? && r.protectedCapacity == p.protectedCapacity
      && k in Keys(r.protected) && After(r.protected, k) <= others
  {
    var hot := p.protected;
    SegmentIsKept(p, x);
    if x in Keys(hot) {
      AfterTouch(hot, k, x);
      TouchFacts(hot, x);
    } else {
      AccessProtects(p, x);
      if |hot| < p.protectedCapacity {
        AfterSnoc(hot, k, x);
        Snoc(hot, x);
      } else {
        FirstIsNotSheltered(hot, k, x, others);
        PopFirst(hot);
        AfterMinus(hot, k, {hot[0]});
        AfterSnoc(hot[1..], k, x);
        Snoc(hot[1..], x);
      }
    }
  }

  /** In a full segment the key at the end has all the others after it. */
  lemma FirstIsNotSheltered(hot: seq<Key>, k: Key, x: Key, others: set<Key>)
    requires NoDup(hot) && k in Keys(hot) && x !in Keys(hot)
    requires After(hot, k) + {x} <= others && |others| < |hot|
    ensures hot != [] && hot[0] != k
  {
    NoKeys(hot);
    if hot[0] == k {
      AfterFirst(hot);
      NoDupCardinality(hot);
      assert |Keys(hot) - {k} + {x}| == |hot|;
      CardinalitySubset(Keys(hot) - {k} + {x}, others);
    }
  }

  lemma MarkShelters(cfg: Config, c: Cache, op: Op, k: Key, others: set<Key>)
    requires Sheltering(cfg, c, k, others) && op.Mark?
    requires Spares(cfg, c, op, k) && Warms(c, op) - {k} <= others
    ensures Sheltering(cfg, Step(cfg, c, op), k, others)
  {
    var r := Step(cfg, c, op);
    if Hits(c, op) {
      MarkHits(cfg, c, op);
      AccessShelters(c.policy, op.key, k, others);
      assert |r.store.entries.Keys| == |c.store.entries.Keys|;
    } else {
      MarkMisses(cfg, c, op);
      CardinalitySubset(r.store.entries.Keys, c.store.entries.Keys);
    }
  }

  lemma SetShelters(cfg: Config, c: Cache, e: Entry, prompt: string, k: Key, others: set<Key>)
    requires Sheltering(cfg, c, k, others) && e.key != "" && Slack(cfg, c, Set(e, prompt))
    requires Warms(c, Set(e, prompt)) - {k} <= others
    ensures Sheltering(cfg, SetEntry(cfg, c, e, prompt), k, others)
  {
    SetSparesProtected(cfg, c, e, prompt);
    CapacitiesFixed(cfg, c, e, prompt);
    SetKeepsCount(cfg, c, e, prompt);
    if e.key in Keys(c.policy.protected) {
      AfterTouch(c.policy.protected, k, e.key);
      TouchFacts(c.policy.protected, e.key);
    }
  }

  lemma InvalidateShelters(cfg: Config, c: Cache, matches: Key -> bool, k: Key, others: set<Key>)
    requires Sheltering(cfg, c, k, others) && !matches(k)
    ensures Sheltering(cfg, DropKeys(c, Matching(c, matches)), k, others)
  {
    var ks := Matching(c, matches);
    DropKeeps(cfg, c, ks);
    KeysMinus(c.policy.protected, ks);
    AfterMinus(c.policy.protected, k, ks);
    CardinalitySubset(DropKeys(c, ks).store.entries.Keys, c.store.entries.Keys);
  }

  lemma StepShelters(cfg: Config, c: Cache, op: Op, k: Key, others: set<Key>)
    requires Sheltering(cfg, c, k, others) && ValidOp(op)
    requires Spares(cfg, c, op, k) && Warms(c, op) - {k} <= others
    ensures Sheltering(cfg, Step(cfg, c, op), k, others)
  {
    match op
    case Read(key, now) =>
      CardinalitySubset(Step(cfg, c, op).store.entries.Keys, c.store.entries.Keys);
    case Mark(_, _, _, _) => MarkShelters(cfg, c, op, k, others);
    case Set(entry, prompt) => SetShelters(cfg, c, entry, prompt, k, others);
    case Invalidate(matches) => InvalidateShelters(cfg, c, matches, k, others);
  }

  lemma {:induction false} RunShelters(cfg: Config, c: Cache, ops: seq<Op>, k: Key, others: set<Key>)
    requires Sheltering(cfg, c, k, others) && ValidOps(ops)
    requires SparesRun(cfg, c, ops, k) && WarmOthers(cfg, c, ops, k) <= others
    ensures Sheltering(cfg, Run(cfg, c, ops), k, others)
  {
    if ops != [] {
      var init := ops[..|ops| - 1];
      RunShelters(cfg, c, init, k, others);
      StepShelters(cfg, Run(cfg, c, init), ops[|ops| - 1], k, others);
    }
  }

  lemma {:induction false} WarmOthersExclude(cfg: Config, c: Cache, ops: seq<Op>, k: Key)
    requires Inv(cfg, c) && ValidOps(ops)
    ensures k !in WarmOthers(cfg, c, ops, k)
  {
    if ops != [] {
      WarmOthersExclude(cfg, c, ops[..|ops| - 1], k);
    }
  }

  /** A key that is hit stays stored and protected, whatever is stored after it,
      until as many other keys have been hit as the protected segment holds. */
  lemma HitKeySurvives(cfg: Config, c: Cache, hit: Op, ops: seq<Op>)
    requires Inv(cfg, c) && c.policy.Slru? && Hits(c, hit) && ValidOps(ops)
    requires c.policy.protectedCapacity < cfg.maxItems && |c.store.entries| <= cfg.maxItems
    requires SparesRun(cfg, Step(cfg, c, hit), ops, hit.key)
    requires |WarmOthers(cfg, Step(cfg, c, hit), ops, hit.key)| < c.policy.protectedCapacity
    ensures Shielded(Run(cfg, Step(cfg, c, hit), ops), hit.key)
  {
    var after := Step(cfg, c, hit);
    HitProtects(cfg, c, hit);
    WarmOthersExclude(cfg, after, ops, hit.key);
    RunShelters(cfg, after, ops, hit.key, WarmOthers(cfg, after, ops, hit.key));
  }

  /** In particular it survives every scan of new keys, in a cache configured with
      segmented LRU and at least two items, however the cache was used before. */
  lemma HitKeySurvivesScans(cfg: Config, ratio: real, ops: seq<Op>, hit: Op, scan: seq<Op>)
    requires cfg.maxItems >= 2 && 0.0 < ratio < 1.0 && ValidOps(ops) && ValidOps(scan)
    requires Hits(Run(cfg, Fresh(BuiltPolicy(OtherName, cfg.maxItems, ratio)), ops), hit)
    requires
      var c := Step(cfg, Run(cfg, Fresh(BuiltPolicy(OtherName, cfg.maxItems, ratio)), ops), hit);
      c.policy.Slru? ==> Scan(scan, Keys(c.policy.protected)) && SlackRun(cfg, c, scan)
    ensures
      var c := Step(cfg, Run(cfg, Fresh(BuiltPolicy(OtherName, cfg.maxItems, ratio)), ops), hit);
      Shielded(Run(cfg, c, scan), hit.key)
  {
    var policy := BuiltPolicy(OtherName, cfg.maxItems, ratio);
    var c := Run(cfg, Fresh(policy), ops);
    SegmentsShareTheLimit(cfg.maxItems, ratio);
    RunKeepsCapacity(cfg, Fresh(policy), ops);
    CapacityOverRuns(cfg, policy, ops);
    HitProtects(cfg, c, hit);
    ScanSparesProtected(cfg, Step(cfg, c, hit), scan);
  }
}
