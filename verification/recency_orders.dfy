/** The backend keeps a recency order of its own. In sequential runs it is the
    LRU policy's order restricted to the live keys. */
module RecencyOrders {
  import opened KeySeq
  import opened Entries
  import opened Backend
  import opened EvictionModel
  import opened CacheModel

  ghost predicate Aligned(c: Cache) {
    c.policy.Lru? && Keep(c.policy.chain, c.store.entries.Keys) == c.store.order
  }

  /** Lookups run to completion: every read is followed by the mark on its key.
      (On a miss that mark finds nothing to mark.) */
  ghost predicate Sequential(ops: seq<Op>) {
    ops != [] ==>
      match ops[|ops| - 1]
      case Read(_, _) => false
      case Mark(key, _, _, _) =>
        |ops| >= 2 && ops[|ops| - 2].Read? && ops[|ops| - 2].key == key && Sequential(ops[..|ops| - 2])
      case _ => Sequential(ops[..|ops| - 1])
  }

  lemma AlignedEvict(cfg: Config, c: Cache, victim: Key)
    requires Inv(cfg, c) && Aligned(c)
    ensures Aligned(Evict(c, victim))
  {
    KeepMinus(c.policy.chain, c.store.entries.Keys, {victim});
    KeepMinus(c.policy.chain, c.store.entries.Keys - {victim}, {victim});
    assert c.store.entries.Keys - {victim} - {victim} == c.store.entries.Keys - {victim};
    if victim !in c.store.entries {
      assert c.store.entries.Keys - {victim} == c.store.entries.Keys;
    } else {
      assert (c.store.entries - {victim}).Keys == c.store.entries.Keys - {victim};
    }
  }

  lemma {:induction false} AlignedEnsureCapacity(cfg: Config, c: Cache)
    requires Inv(cfg, c) && Aligned(c)
    ensures Aligned(EnsureCapacity(cfg, c))
    decreases |Tracked(c.policy)|
  {
    var victim := SelectVictim(c.policy);
    if !Within(cfg, c.store) && victim.Some? {
      EnsureCapacityStep(cfg, c, victim.value);
      AlignedEvict(cfg, c, victim.value);
      AlignedEnsureCapacity(cfg, Evict(c, victim.value));
    }
  }

  lemma AlignedSet(cfg: Config, c: Cache, e: Entry, prompt: string)
    requires Inv(cfg, c) && Aligned(c) && e.key != ""
    ensures Aligned(SetEntry(cfg, c, e, prompt))
  {
    var stored := StoredKeeps(cfg, c, e, prompt);
    KeepTouch(c.policy.chain, c.store.entries.Keys, e.key);
    assert stored.store.entries.Keys == c.store.entries.Keys + {e.key};
    AlignedEnsureCapacity(cfg, stored);
  }

  lemma AlignedDrop(cfg: Config, c: Cache, ks: set<Key>)
    requires Inv(cfg, c) && Aligned(c)
    ensures Aligned(DropKeys(c, ks))
  {
    KeepMinus(c.policy.chain, c.store.entries.Keys, ks);
    KeepMinus(c.policy.chain, c.store.entries.Keys - ks, ks);
    assert c.store.entries.Keys - ks - ks == c.store.entries.Keys - ks;
    assert (c.store.entries - ks).Keys == c.store.entries.Keys - ks;
  }

  lemma TouchAgain(s: seq<Key>, k: Key)
    ensures Touch(Touch(s, k), k) == Touch(s, k)
    ensures Without(Touch(s, k), k) == Without(s, k)
  {
    Snoc(Without(s, k), k);
    TouchWithout(s, k);
    MinusMinus(s, {k}, {k});
    assert {k} + {k} == {k};
  }

  /** A completed lookup of a key: missed, hit, or expired between its phases. */
  lemma AlignedLookup(cfg: Config, c: Cache, read: Op, mark: Op)
    requires Inv(cfg, c) && Aligned(c) && read.Read? && mark.Mark? && mark.key == read.key
    ensures Aligned(Step(cfg, Step(cfg, c, read), mark))
  {
    var k, live, chain := read.key, c.store.entries.Keys, c.policy.chain;
    var middle := ReadPhase(c, k, read.now).0;
    if k in c.store.entries {
      if c.store.entries[k].IsExpired(read.now) {
        AlignedDelete(c, k);
      } else {
        TouchAgain(c.store.order, k);
        assert k in Keys(chain);
        if c.store.entries[k].IsExpired(mark.now) {
          AlignedDelete(c, k);
          assert Lookup(middle.store, k, mark.now).0.order == Delete(c.store, k).0.order;
        } else {
          KeepTouch(chain, live, k);
          assert live + {k} == live;
        }
      }
    }
  }

  lemma AlignedDelete(c: Cache, k: Key)
    requires Aligned(c) && k in c.store.entries
    ensures Aligned(c.(store := Delete(c.store, k).0))
  {
    KeepMinus(c.policy.chain, c.store.entries.Keys, {k});
    assert (c.store.entries - {k}).Keys == c.store.entries.Keys - {k};
  }

  /** Across expiry, eviction, invalidation and overwrites. */
  lemma {:induction false} SequentialRunsAlign(cfg: Config, ops: seq<Op>)
    requires ValidOps(ops) && Sequential(ops)
    ensures Aligned(Run(cfg, Fresh(Lru([])), ops))
    decreases |ops|
  {
    if ops == [] {
    } else if ops[|ops| - 1].Mark? {
      var init := ops[..|ops| - 2];
      assert ops[..|ops| - 1][..|ops| - 2] == init;
      SequentialRunsAlign(cfg, init);
      AlignedLookup(cfg, Run(cfg, Fresh(Lru([])), init), ops[|ops| - 2], ops[|ops| - 1]);
    } else {
      var init, op := ops[..|ops| - 1], ops[|ops| - 1];
      var before := Run(cfg, Fresh(Lru([])), init);
      SequentialRunsAlign(cfg, init);
      match op
      case Set(entry, prompt) => AlignedSet(cfg, before, entry, prompt);
      case Invalidate(matches) => AlignedDrop(cfg, before, Matching(before, matches));
      case ClearAll => KeepNothing(DeleteAll(before.policy, before.store.entries.Keys).chain);
    }
  }

  lemma {:induction false} KeepNothing(s: seq<Key>)
    ensures Keep(s, {}) == []
  {
    if s != [] {
      KeepNothing(Init(s));
    }
  }

  /** A read without its mark, as listing the entries performs, keeps the two
      orders together exactly when it misses or hits the key that was most
      recent anyway. */
  lemma UnmarkedRead(cfg: Config, c: Cache, k: Key, now: real)
    requires Inv(cfg, c) && Aligned(c)
    ensures Aligned(ReadPhase(c, k, now).0) <==>
      ReadPhase(c, k, now).1 == None || Last(c.store.order) == k
  {
    if ReadPhase(c, k, now).1.Some? {
      var order := c.store.order;
      NoKeys(order);
      assert Keep(c.policy.chain, ReadPhase(c, k, now).0.store.entries.Keys) == order;
      if Last(order) == k {
        assert order == Init(order) + [k];
        MinusAbsent(Init(order), {k});
        Snoc(Init(order), k);
      } else {
        Snoc(Without(order, k), k);
      }
    } else if k in c.store.entries {
      AlignedDelete(c, k);
    }
  }
}
