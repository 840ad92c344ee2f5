/** Segmented LRU at the level of the cache: a scan of new keys never displaces
    a protected key. */
module SlruScan {
  import opened KeySeq
  import opened Entries
  import opened Backend
  import opened EvictionModel
  import opened CacheModel
  import opened LruRuns

  /** What the argument carries through enforcing capacity: `newest` is the key
      just set. */
  ghost predicate Scanning(cfg: Config, c: Cache, newest: Key) {
    && Inv(cfg, c) && c.policy.Slru? && BytesWithin(cfg, c.store)
    && c.policy.protectedCapacity < cfg.maxItems && |c.store.entries| <= cfg.maxItems + 1
    && newest in c.store.entries && Sheltered(c.policy, newest)
  }

  /** `k` is protected, or the most recent probationary key. */
  ghost predicate Sheltered(p: Policy, k: Key)
    requires p.Slru?
  {
    k in Keys(p.protected) || (p.probationary != [] && Last(p.probationary) == k)
  }

  /** While over the item limit, at least two live keys are probationary. */
  lemma VictimIsCold(cfg: Config, c: Cache, newest: Key) returns (victim: Key)
    requires Scanning(cfg, c, newest) && !Within(cfg, c.store)
    ensures SelectVictim(c.policy) == Some(victim)
    ensures victim != newest && victim in Keys(c.policy.probationary) && victim !in Keys(c.policy.protected)
    ensures c.policy.probationary != [] && victim == c.policy.probationary[0]
  {
    var cold, hot := c.policy.probationary, c.policy.protected;
    NoDupCardinality(hot);
    NoDupCardinality(cold);
    CoverCardinality(c.store.entries.Keys, Keys(cold), Keys(hot));
    FirstIsNotLast(cold);
    First(cold);
    victim := cold[0];
  }

  lemma CoverCardinality(live: set<Key>, cold: set<Key>, hot: set<Key>)
    requires live <= cold + hot
    ensures |live| <= |cold| + |hot|
  {
    CardinalitySubset(live, cold + hot);
    assert |cold + hot| <= |cold| + |hot|;
  }

  lemma FirstIsNotLast(s: seq<Key>)
    requires NoDup(s) && |s| >= 2
    ensures s[0] != Last(s)
  {
    NoDupIndices(s);
  }

  lemma {:induction false} EnsureCapacitySparesProtected(cfg: Config, c: Cache, newest: Key)
    requires Scanning(cfg, c, newest)
    ensures
      var r := EnsureCapacity(cfg, c);
      && r.policy.Slru? && r.policy.protected == c.policy.protected && newest in r.store.entries
      && forall k :: k in Keys(c.policy.protected) && k in c.store.entries ==> k in r.store.entries
    decreases |Tracked(c.policy)|
  {
    if !Within(cfg, c.store) {
      var victim := VictimIsCold(cfg, c, newest);
      EnsureCapacityStep(cfg, c, victim);
      EvictKeeps(cfg, c, victim);
      ScanningEvict(cfg, c, newest, victim);
      EnsureCapacitySparesProtected(cfg, Evict(c, victim), newest);
    }
  }

  lemma ShelteredDelete(p: Policy, victim: Key, k: Key)
    requires p.Slru? && Sheltered(p, k) && victim != k && victim !in Keys(p.protected)
    ensures
      var r := RecordDelete(p, victim);
      r.protected == p.protected && r.protectedCapacity == p.protectedCapacity && Sheltered(r, k)
  {
    MinusAbsent(p.protected, {victim});
    MinusKeepsLast(p.probationary, victim);
  }

  lemma ScanningEvict(cfg: Config, c: Cache, newest: Key, victim: Key)
    requires Scanning(cfg, c, newest) && SelectVictim(c.policy) == Some(victim)
    requires victim != newest && victim !in Keys(c.policy.protected)
    ensures Scanning(cfg, Evict(c, victim), newest)
    ensures Evict(c, victim).policy.protected == c.policy.protected
  {
    EvictKeeps(cfg, c, victim);
    ShelteredDelete(c.policy, victim, newest);
    CardinalitySubset(Evict(c, victim).store.entries.Keys, c.store.entries.Keys);
  }

  lemma MinusKeepsLast(s: seq<Key>, k: Key)
    ensures s != [] && Last(s) != k ==> Without(s, k) != [] && Last(Without(s, k)) == Last(s)
  {
  }

  /** When the protected segment is smaller than the cache, an eviction caused
      by the item limit takes neither a protected key nor the key just set,
      even while expired ghosts are tracked. */
  lemma SetSparesProtected(cfg: Config, c: Cache, e: Entry, prompt: string)
    requires Inv(cfg, c) && c.policy.Slru? && e.key != ""
    requires c.policy.protectedCapacity < cfg.maxItems && |c.store.entries| <= cfg.maxItems
    requires Slack(cfg, c, Set(e, prompt))
    ensures
      var r := SetEntry(cfg, c, e, prompt);
      && r.policy.Slru? && e.key in r.store.entries
      && r.policy.protected == RecordInsert(c.policy, e.key).protected
      && forall k :: k in Keys(c.policy.protected) && k in c.store.entries ==> k in r.store.entries
  {
    var stored := StoredKeeps(cfg, c, e, prompt);
    Snoc(Without(c.policy.probationary, e.key), e.key);
    if e.key in Keys(c.policy.protected) {
      TouchFacts(c.policy.protected, e.key);
    }
    assert |stored.store.entries| <= cfg.maxItems + 1 by {
      CardinalitySubset(stored.store.entries.Keys, c.store.entries.Keys + {e.key});
    }
    EnsureCapacitySparesProtected(cfg, stored, e.key);
  }

  /** The protected segment and what is stored of it are as in `c`. */
  ghost predicate ProtectedAsIn(cfg: Config, c: Cache, r: Cache)
    requires c.policy.Slru?
  {
    && r.policy.Slru? && r.policy.protected == c.policy.protected
    && r.policy.protectedCapacity == c.policy.protectedCapacity
    && |r.store.entries| <= cfg.maxItems
    && forall k :: k in Keys(c.policy.protected) && k in c.store.entries ==> k in r.store.entries
  }

  lemma ScanStep(cfg: Config, c: Cache, op: Op)
    requires Inv(cfg, c) && ValidOp(op) && c.policy.Slru?
    requires c.policy.protectedCapacity < cfg.maxItems && |c.store.entries| <= cfg.maxItems
    requires op.Set? && op.entry.key !in Keys(c.policy.protected) && Slack(cfg, c, op)
    ensures ProtectedAsIn(cfg, c, Step(cfg, c, op))
  {
    SetSparesProtected(cfg, c, op.entry, op.prompt);
    CapacitiesFixed(cfg, c, op.entry, op.prompt);
    SetKeepsCount(cfg, c, op.entry, op.prompt);
  }

  /** Every operation stores a key that is not protected. */
  ghost predicate Scan(ops: seq<Op>, protected: set<Key>) {
    forall i :: 0 <= i < |ops| ==> ops[i].Set? && ops[i].entry.key !in protected
  }

  /** A scan of any length leaves the protected sequence as it was, and every
      protected key that was stored still stored. */
  lemma {:induction false} ScanSparesProtected(cfg: Config, c: Cache, ops: seq<Op>)
    requires Inv(cfg, c) && ValidOps(ops) && c.policy.Slru?
    requires c.policy.protectedCapacity < cfg.maxItems && |c.store.entries| <= cfg.maxItems
    requires Scan(ops, Keys(c.policy.protected)) && SlackRun(cfg, c, ops)
    ensures ProtectedAsIn(cfg, c, Run(cfg, c, ops))
  {
    if ops != [] {
      var init := ops[..|ops| - 1];
      ScanSparesProtected(cfg, c, init);
      ScanStep(cfg, Run(cfg, c, init), ops[|ops| - 1]);
    }
  }

  lemma CapacitiesFixed(cfg: Config, c: Cache, e: Entry, prompt: string)
    requires Inv(cfg, c) && c.policy.Slru? && e.key != ""
    ensures SetEntry(cfg, c, e, prompt).policy.Slru?
    ensures SetEntry(cfg, c, e, prompt).policy.protectedCapacity == c.policy.protectedCapacity
  {
    var stored := StoredKeeps(cfg, c, e, prompt);
    EnsureCapacityKeepsKind(cfg, stored);
  }

  lemma {:induction false} EnsureCapacityKeepsKind(cfg: Config, c: Cache)
    requires Inv(cfg, c) && c.policy.Slru?
    ensures EnsureCapacity(cfg, c).policy.Slru?
    ensures EnsureCapacity(cfg, c).policy.protectedCapacity == c.policy.protectedCapacity
    decreases |Tracked(c.policy)|
  {
    var victim := SelectVictim(c.policy);
    if !Within(cfg, c.store) && victim.Some? {
      EnsureCapacityStep(cfg, c, victim.value);
      EnsureCapacityKeepsKind(cfg, Evict(c, victim.value));
    }
  }
}
