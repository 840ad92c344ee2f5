/** Least frequently used, counted from the operations: what a frequency and a
    clock mean, which key is the victim, and which entries a full cache loses. */
module LfuCounts {
  import opened KeySeq
  import opened Entries
  import opened Backend
  import opened EvictionModel
  import opened CacheModel

  datatype PolicyOp = Insert(key: Key) | Access(key: Key) | Forget(key: Key)

  function Apply(p: Policy, op: PolicyOp): Policy {
    match op
    case Insert(k) => RecordInsert(p, k)
    case Access(k) => RecordAccess(p, k)
    case Forget(k) => RecordDelete(p, k)
  }

  function ApplyAll(p: Policy, ops: seq<PolicyOp>): Policy {
    if ops == [] then p else Apply(ApplyAll(p, ops[..|ops| - 1]), ops[|ops| - 1])
  }

  // ---------- Counting in the operations ----------

  /** The accesses to `k` since it was last inserted, where an access to a key
      that is not there inserts it; `None` if it is not there. */
  function Uses(ops: seq<PolicyOp>, k: Key): Option<nat> {
    if ops == [] then None
    else
      var before, op := Uses(ops[..|ops| - 1], k), ops[|ops| - 1];
      if op.key != k then before
      else
        match op
        case Insert(_) => Some(0)
        case Access(_) => Some(if before == None then 0 else before.value + 1)
        case Forget(_) => None
  }

  /** When `k` was last inserted or accessed. */
  function LastUse(ops: seq<PolicyOp>, k: Key): int {
    if ops == [] then -1
    else if ops[|ops| - 1].key == k && !ops[|ops| - 1].Forget? then |ops| - 1
    else LastUse(ops[..|ops| - 1], k)
  }

  function Accesses(ops: seq<PolicyOp>, k: Key): nat {
    if ops == [] then 0
    else Accesses(ops[..|ops| - 1], k) + if ops[|ops| - 1] == Access(k) then 1 else 0
  }

  lemma {:induction false} LastUseFacts(ops: seq<PolicyOp>, k: Key)
    ensures -1 <= LastUse(ops, k) < |ops|
    ensures LastUse(ops, k) >= 0 ==> ops[LastUse(ops, k)] in [Insert(k), Access(k)]
    ensures forall i :: LastUse(ops, k) < i < |ops| ==> ops[i] !in [Insert(k), Access(k)]
    ensures Uses(ops, k).Some? ==> LastUse(ops, k) >= 0
  {
    if ops != [] {
      var init := ops[..|ops| - 1];
      LastUseFacts(init, k);
      assert forall i :: 0 <= i < |init| ==> ops[i] == init[i];
    }
  }

  // ---------- What the table holds ----------

  /** The table agrees with the operations on every key. */
  ghost predicate Counts(ops: seq<PolicyOp>, state: map<Key, Use>, clock: nat) {
    && (forall k :: k in state <==> Uses(ops, k).Some?)
    && (forall k :: k in state ==> state[k].frequency == 1 + Uses(ops, k).value && state[k].clock <= clock)
    && (forall a, b :: a in state && b in state ==>
          (state[a].clock < state[b].clock <==> LastUse(ops, a) < LastUse(ops, b)))
  }

  lemma UsesSnoc(ops: seq<PolicyOp>, op: PolicyOp, k: Key)
    ensures op.key != k ==> Uses(ops + [op], k) == Uses(ops, k) && LastUse(ops + [op], k) == LastUse(ops, k)
    ensures op == Insert(k) ==> Uses(ops + [op], k) == Some(0) && LastUse(ops + [op], k) == |ops|
    ensures op == Access(k) ==>
      && LastUse(ops + [op], k) == |ops|
      && Uses(ops + [op], k) == Some(if Uses(ops, k) == None then 0 else Uses(ops, k).value + 1)
    ensures op == Forget(k) ==> Uses(ops + [op], k) == None
  {
    assert (ops + [op])[..|ops|] == ops;
  }

  lemma CountsStep(ops: seq<PolicyOp>, op: PolicyOp, state: map<Key, Use>, clock: nat)
    requires Counts(ops, state, clock)
    ensures Apply(Lfu(state, clock), op).Lfu?
    ensures Counts(ops + [op], Apply(Lfu(state, clock), op).state, Apply(Lfu(state, clock), op).clock)
  {
    forall k
      ensures op.key != k ==> Uses(ops + [op], k) == Uses(ops, k) && LastUse(ops + [op], k) == LastUse(ops, k)
      ensures LastUse(ops, k) < |ops|
    {
      UsesSnoc(ops, op, k);
      LastUseFacts(ops, k);
    }
    UsesSnoc(ops, op, op.key);
  }

  /** Over every run of inserts, accesses and deletes: a key is tracked exactly if
      it was used since it was last deleted, its frequency is one more than the
      accesses since it was last inserted, and clocks order keys by last use. */
  lemma {:induction false} FrequencyCountsUses(ops: seq<PolicyOp>)
    ensures ApplyAll(Lfu(map[], 0), ops).Lfu?
    ensures Counts(ops, ApplyAll(Lfu(map[], 0), ops).state, ApplyAll(Lfu(map[], 0), ops).clock)
  {
    if ops != [] {
      var init := ops[..|ops| - 1];
      var before := ApplyAll(Lfu(map[], 0), init);
      FrequencyCountsUses(init);
      CountsStep(init, ops[|ops| - 1], before.state, before.clock);
      assert init + [ops[|ops| - 1]] == ops;
    }
  }

  /** `post` starts with `k` just inserted, and then only accesses it. */
  lemma {:induction false} UsesAfterInsert(pre: seq<PolicyOp>, post: seq<PolicyOp>, k: Key)
    requires Insert(k) !in post && Forget(k) !in post && Uses(pre, k) == Some(0)
    ensures Uses(pre + post, k) == Some(Accesses(post, k))
  {
    if post == [] {
      assert pre + post == pre;
    } else {
      var init, op := post[..|post| - 1], post[|post| - 1];
      assert forall x :: x in init ==> x in post;
      UsesAfterInsert(pre, init, k);
      UsesSnoc(pre + init, op, k);
      assert pre + init + [op] == pre + post;
      assert op.key == k ==> op == Access(k);
    }
  }

  /** After an insert, or an access that acts as one, the frequency of a key is one
      more than the accesses that follow, as long as it is not inserted again or
      deleted. */
  lemma FrequencyAfterInsert(pre: seq<PolicyOp>, first: PolicyOp, post: seq<PolicyOp>)
    requires first.Insert? || (first.Access? && Uses(pre, first.key) == None)
    requires Insert(first.key) !in post && Forget(first.key) !in post
    ensures
      var p := ApplyAll(Lfu(map[], 0), pre + [first] + post);
      p.Lfu? && first.key in p.state && p.state[first.key].frequency == 1 + Accesses(post, first.key)
  {
    UsesSnoc(pre, first, first.key);
    UsesAfterInsert(pre + [first], post, first.key);
    FrequencyCountsUses(pre + [first] + post);
  }

  // ---------- The victim ----------

  ghost predicate ColderThan(ops: seq<PolicyOp>, a: Key, b: Key)
    requires Uses(ops, a).Some? && Uses(ops, b).Some?
  {
    || Uses(ops, a).value < Uses(ops, b).value
    || (Uses(ops, a).value == Uses(ops, b).value && LastUse(ops, a) < LastUse(ops, b))
  }

  /** `v` has the fewest uses and, among those with as few, the earliest last one. */
  ghost predicate Coldest(ops: seq<PolicyOp>, v: Key) {
    && Uses(ops, v).Some?
    && forall k :: k != v && Uses(ops, k).Some? ==> ColderThan(ops, v, k)
  }

  /** Over every run, the victim is the key used least, and least recently among
      those used as little; there is none exactly if no key is left. */
  lemma VictimIsColdest(ops: seq<PolicyOp>, v: Key)
    ensures SelectVictim(ApplyAll(Lfu(map[], 0), ops)) == Some(v) <==> Coldest(ops, v)
    ensures SelectVictim(ApplyAll(Lfu(map[], 0), ops)) == None <==> forall k :: Uses(ops, k) == None
  {
    var p := ApplyAll(Lfu(map[], 0), ops);
    FrequencyCountsUses(ops);
    RunIsCoherent(ops);
    VictimExists(p);
    if SelectVictim(p) == None {
      assert forall k :: k !in p.state.Keys;
    } else {
      assert Uses(ops, SelectVictim(p).value).Some?;
    }
    LeastIsColdest(ops, p.state, p.clock, v);
  }

  lemma LeastIsColdest(ops: seq<PolicyOp>, state: map<Key, Use>, clock: nat, v: Key)
    requires Counts(ops, state, clock)
    ensures LeastUsed(state) == Some(v) <==> Coldest(ops, v)
  {
    if Coldest(ops, v) {
      forall x | x in state && x != v ensures Sooner(state[v], state[x]) {
        assert ColderThan(ops, v, x);
        SameClock(ops, state, clock, v, x);
      }
      LeastUsedIs(state, v);
    }
    if LeastUsed(state) == Some(v) {
      forall x | x != v && Uses(ops, x).Some? ensures ColderThan(ops, v, x) {
        assert Sooner(state[v], state[x]);
        SameClock(ops, state, clock, v, x);
      }
    }
  }

  lemma SameClock(ops: seq<PolicyOp>, state: map<Key, Use>, clock: nat, a: Key, b: Key)
    requires Counts(ops, state, clock) && a in state && b in state
    ensures LastUse(ops, a) < LastUse(ops, b) <==> state[a].clock < state[b].clock
  {
  }

  lemma {:induction false} RunIsCoherent(ops: seq<PolicyOp>)
    ensures Coherent(ApplyAll(Lfu(map[], 0), ops)) && ApplyAll(Lfu(map[], 0), ops).Lfu?
  {
    if ops != [] {
      var p := ApplyAll(Lfu(map[], 0), ops[..|ops| - 1]);
      RunIsCoherent(ops[..|ops| - 1]);
      InsertKeeps(p, ops[|ops| - 1].key);
      AccessKeeps(p, ops[|ops| - 1].key);
      DeleteKeeps(p, {ops[|ops| - 1].key});
    }
  }

  // ---------- Hits of cached entries ----------

  /** The frequency of every stored key is one more than its hits. */
  ghost predicate CountsHits(c: Cache) {
    && c.policy.Lfu?
    && forall k :: k in c.store.entries ==>
      k in c.policy.state && c.policy.state[k].frequency == 1 + c.store.entries[k].hitCount
  }

  ghost predicate NewEntries(ops: seq<Op>) {
    forall i :: 0 <= i < |ops| && ops[i].Set? ==> ops[i].entry.hitCount == 0
  }

  lemma EvictCountsHits(cfg: Config, c: Cache, victim: Key)
    requires Inv(cfg, c) && CountsHits(c)
    ensures CountsHits(Evict(c, victim)) && Evict(c, victim).store.entries == c.store.entries - {victim}
  {
    if victim !in c.store.entries {
      assert c.store.entries - {victim} == c.store.entries;
    }
  }

  lemma {:induction false} EnsureCapacityCountsHits(cfg: Config, c: Cache)
    requires Inv(cfg, c) && CountsHits(c)
    ensures CountsHits(EnsureCapacity(cfg, c))
    decreases |Tracked(c.policy)|
  {
    var victim := SelectVictim(c.policy);
    if !Within(cfg, c.store) && victim.Some? {
      EnsureCapacityStep(cfg, c, victim.value);
      EvictCountsHits(cfg, c, victim.value);
      EnsureCapacityCountsHits(cfg, Evict(c, victim.value));
    }
  }

  lemma MarkCountsHits(cfg: Config, c: Cache, key: Key, now: real, stamp: real, semantic: bool)
    requires Inv(cfg, c) && CountsHits(c)
    ensures CountsHits(MarkAccess(cfg, c, key, now, stamp, semantic))
  {
    if key in c.store.entries && !c.store.entries[key].IsExpired(now) {
      MarkedBytes(cfg, c, key, now, stamp, semantic);
    }
  }

  lemma StepCountsHits(cfg: Config, c: Cache, op: Op)
    requires Inv(cfg, c) && ValidOp(op) && CountsHits(c) && (op.Set? ==> op.entry.hitCount == 0)
    ensures CountsHits(Step(cfg, c, op))
  {
    match op
    case Read(_, _) =>
    case Mark(key, now, stamp, semantic) => MarkCountsHits(cfg, c, key, now, stamp, semantic);
    case Set(entry, prompt) =>
      var stored := StoredKeeps(cfg, c, entry, prompt);
      EnsureCapacityCountsHits(cfg, stored);
    case Invalidate(_) =>
    case ClearAll =>
  }

  /** Over every run, the frequency of a stored key is one more than the hits that
      its entry reports. */
  lemma {:induction false} FrequencyCountsHits(cfg: Config, ops: seq<Op>)
    requires ValidOps(ops) && NewEntries(ops)
    ensures CountsHits(Run(cfg, Fresh(Lfu(map[], 0)), ops))
  {
    if ops != [] {
      FrequencyCountsHits(cfg, ops[..|ops| - 1]);
      StepCountsHits(cfg, Run(cfg, Fresh(Lfu(map[], 0)), ops[..|ops| - 1]), ops[|ops| - 1]);
    }
  }

  /** Enforcing capacity takes no entry with more hits than one it leaves. */
  lemma {:induction false} EnsureCapacityTakesColdest(cfg: Config, c: Cache, gone: Key, kept: Key)
    requires Inv(cfg, c) && CountsHits(c)
    requires gone in c.store.entries && gone !in EnsureCapacity(cfg, c).store.entries
    requires kept in EnsureCapacity(cfg, c).store.entries
    ensures kept in c.store.entries && c.store.entries[gone].hitCount <= c.store.entries[kept].hitCount
    decreases |Tracked(c.policy)|
  {
    var victim := SelectVictim(c.policy).value;
    EnsureCapacityKeeps(cfg, c);
    EnsureCapacityStep(cfg, c, victim);
    EnsureCapacityKeeps(cfg, Evict(c, victim));
    EvictCountsHits(cfg, c, victim);
    if gone == victim {
      assert Sooner(c.policy.state[gone], c.policy.state[kept]);
    } else {
      EnsureCapacityTakesColdest(cfg, Evict(c, victim), gone, kept);
    }
  }

  lemma StoreCountsHits(cfg: Config, c: Cache, e: Entry, prompt: string, stored: Cache)
    requires Inv(cfg, c) && CountsHits(c) && e.key != "" && e.hitCount == 0 && stored == Stored(cfg, c, e, prompt)
    ensures Inv(cfg, stored) && CountsHits(stored) && stored.store.entries == c.store.entries[e.key := e]
    ensures SetEntry(cfg, c, e, prompt) == EnsureCapacity(cfg, stored)
  {
    var _ := StoredKeeps(cfg, c, e, prompt);
  }

  /** With silent expiry, too: a store costs no entry that had more hits than one
      still stored afterwards. So an entry with a hit outlives the new one. */
  lemma SetTakesColdest(cfg: Config, c: Cache, e: Entry, prompt: string, gone: Key, kept: Key)
    requires Inv(cfg, c) && CountsHits(c) && e.key != "" && e.hitCount == 0
    requires gone in c.store.entries && gone != e.key
    requires gone !in SetEntry(cfg, c, e, prompt).store.entries && kept in SetEntry(cfg, c, e, prompt).store.entries
    ensures c.store.entries[gone].hitCount <= SetEntry(cfg, c, e, prompt).store.entries[kept].hitCount
  {
    var stored := Stored(cfg, c, e, prompt);
    StoreCountsHits(cfg, c, e, prompt, stored);
    TakesColdest(cfg, stored, EnsureCapacity(cfg, stored), gone, kept);
  }

  lemma TakesColdest(cfg: Config, c: Cache, r: Cache, gone: Key, kept: Key)
    requires Inv(cfg, c) && CountsHits(c) && r == EnsureCapacity(cfg, c)
    requires gone in c.store.entries && gone !in r.store.entries && kept in r.store.entries
    ensures c.store.entries[gone].hitCount <= r.store.entries[kept].hitCount
  {
    EnsureCapacityKeeps(cfg, c);
    EnsureCapacityTakesColdest(cfg, c, gone, kept);
  }
}
