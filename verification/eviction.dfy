/** The eviction strategies as they are represented in memory, each proved to
    behave as its abstract policy. */
module Eviction {
  import opened KeySeq
  import opened EvictionModel
  import opened LruChains
  import opened RecordHeap

  class LRUPolicy {
    const chain: LruChain

    ghost predicate Valid()
      reads this, chain, chain.repr
    {
      chain.Valid()
    }

    ghost function State(): Policy
      reads chain
    {
      Lru(chain.Order())
    }

    constructor ()
      ensures Valid() && fresh(chain) && fresh(chain.repr) && State() == Lru([])
    {
      chain := new LruChain();
    }

    method RecordInsert(key: Key)
      requires Valid()
      modifies chain.repr
      ensures Valid() && fresh(chain.repr - old(chain.repr))
      ensures State() == EvictionModel.RecordInsert(old(State()), key)
    {
      chain.AppendMru(key);
    }

    method RecordAccess(key: Key)
      requires Valid()
      modifies chain.repr
      ensures Valid() && fresh(chain.repr - old(chain.repr))
      ensures State() == EvictionModel.RecordAccess(old(State()), key)
    {
      chain.MoveToMru(key);
    }

    method RecordDelete(key: Key)
      requires Valid()
      modifies chain.repr
      ensures Valid() && fresh(chain.repr - old(chain.repr))
      ensures State() == EvictionModel.RecordDelete(old(State()), key)
    {
      chain.Remove(key);
    }

    method SelectVictim() returns (victim: Option<Key>)
      requires Valid()
      ensures victim == EvictionModel.SelectVictim(State())
    {
      victim := chain.LruKey();
    }

    method Length() returns (n: nat)
      requires Valid()
      ensures n == |Tracked(State())|
    {
      NoDupCardinality(chain.Order());
      n := chain.Length();
    }
  }

  /** Every live key has exactly one record matching its state; all clocks are
      distinct and none is ahead of `clock`. Other records are stale. */
  ghost predicate Exact(records: multiset<Record>, state: map<Key, Use>, clock: nat) {
    && (forall r :: r in records ==> r.use.clock <= clock && records[r] == 1)
    && (forall a, b :: a in records && b in records && a.use.clock == b.use.clock ==> a == b)
    && (forall k :: k in state ==> Record(state[k], k) in records)
  }

  lemma ExactIsCoherent(records: multiset<Record>, state: map<Key, Use>, clock: nat)
    requires Exact(records, state, clock)
    ensures Coherent(Lfu(state, clock))
  {
    forall a, b | a in state && b in state && a != b ensures state[a].clock != state[b].clock {
      assert Record(state[a], a) in records && Record(state[b], b) in records;
    }
    forall k | k in state ensures state[k].clock <= clock {
      assert Record(state[k], k) in records;
    }
  }

  lemma ExactPush(records: multiset<Record>, state: map<Key, Use>, clock: nat, key: Key, use: Use)
    requires Exact(records, state, clock) && use.clock == clock + 1
    ensures Exact(records + multiset{Record(use, key)}, state[key := use], clock + 1)
  {
    assert Record(use, key) !in records;
  }

  /** Distinct live keys have distinct records. */
  lemma {:induction false} LiveAtMostRecords(records: multiset<Record>, state: map<Key, Use>)
    requires forall k :: k in state ==> Record(state[k], k) in records
    ensures |state| <= |records|
    decreases |state|
  {
    if |state| > 0 {
      var k :| k in state;
      var rest := state - {k};
      assert rest.Keys == state.Keys - {k};
      LiveAtMostRecords(records - multiset{Record(state[k], k)}, rest);
    }
  }

  lemma LiveRootIsLeast(heap: seq<Record>, state: map<Key, Use>, clock: nat)
    requires IsHeap(heap) && heap != [] && Exact(multiset(heap), state, clock)
    requires heap[0].key in state && state[heap[0].key] == heap[0].use
    ensures LeastUsed(state) == Some(heap[0].key)
  {
    forall x | x in state && x != heap[0].key ensures Sooner(heap[0].use, state[x]) {
      var r := Record(state[x], x);
      assert r in multiset(heap) && r in heap;
      var i :| 0 <= i < |heap| && heap[i] == r;
      RootIsLeast(heap, i);
      assert heap[0] in multiset(heap);
    }
    assert IsLeast(state, heap[0].key);
    LeastUsedIs(state, heap[0].key);
  }

  class LFUPolicy {
    var heap: seq<Record>
    var state: map<Key, Use>
    var clock: nat
    /** How many records were ever pushed on and popped off the heap. */
    ghost var pushes: nat
    ghost var pops: nat

    ghost predicate Valid()
      reads this
    {
      IsHeap(heap) && Exact(multiset(heap), state, clock) && pops + |heap| == pushes
    }

    ghost function State(): Policy
      reads this
    {
      Lfu(state, clock)
    }

    /** Lazy deletion never discards the record of a live key. */
    lemma PopsAreBounded()
      requires Valid()
      ensures pops <= pushes - |state|
      ensures Coherent(State())
    {
      LiveAtMostRecords(multiset(heap), state);
      ExactIsCoherent(multiset(heap), state, clock);
    }

    constructor ()
      ensures Valid() && State() == Lfu(map[], 0) && pushes == pops == 0
    {
      heap, state, clock := [], map[], 0;
      pushes, pops := 0, 0;
    }

    method PushRecord(key: Key, use: Use)
      requires Valid() && use.clock == clock + 1
      modifies this
      ensures Valid() && State() == Lfu(old(state)[key := use], old(clock) + 1)
      ensures pushes == old(pushes) + 1 && pops == old(pops)
    {
      ExactPush(multiset(heap), state, clock, key, use);
      var grown := Push(heap, Record(use, key));
      assert |multiset(grown)| == |multiset(heap)| + 1;
      clock, state, heap := clock + 1, state[key := use], grown;
      pushes := pushes + 1;
    }

    method RecordInsert(key: Key)
      requires Valid()
      modifies this
      ensures Valid() && State() == EvictionModel.RecordInsert(old(State()), key)
      ensures pushes == old(pushes) + 1 && pops == old(pops)
    {
      PushRecord(key, Use(1, clock + 1));
    }

    method RecordAccess(key: Key)
      requires Valid()
      modifies this
      ensures Valid() && State() == EvictionModel.RecordAccess(old(State()), key)
      ensures key in state && clock == old(clock) + 1 && state == old(state)[key := state[key]]
      ensures state[key].frequency == if key in old(state) then old(state)[key].frequency + 1 else 1
      ensures pushes == old(pushes) + 1 && pops == old(pops)
    {
      if key !in state {
        RecordInsert(key);
        return;
      }
      PushRecord(key, Use(state[key].frequency + 1, clock + 1));
    }

    method RecordDelete(key: Key)
      requires Valid()
      modifies this`state
      ensures Valid() && State() == EvictionModel.RecordDelete(old(State()), key)
    {
      state := state - {key};
    }

    method DiscardTop()
      requires Valid() && heap != []
      requires heap[0].key in state ==> state[heap[0].key] != heap[0].use
      modifies this`heap, this`pops
      ensures Valid()
      ensures multiset(heap) == multiset(old(heap)) - multiset{old(heap)[0]}
      ensures |heap| == |old(heap)| - 1 && pops == old(pops) + 1
    {
      var top, rest := Pop(heap);
      assert |multiset(rest)| == |multiset(heap)| - 1;
      heap := rest;
      pops := pops + 1;
    }

    method SelectVictim() returns (victim: Option<Key>)
      requires Valid()
      modifies this`heap, this`pops
      ensures Valid() && multiset(heap) <= multiset(old(heap))
      ensures victim == EvictionModel.SelectVictim(State())
      ensures victim == None <==> state == map[]
    {
      while heap != []
        invariant Valid() && multiset(heap) <= multiset(old(heap))
        decreases |heap|
      {
        var top := heap[0];
        if top.key in state && state[top.key] == top.use {
          LiveRootIsLeast(heap, state, clock);
          return Some(top.key);
        }
        DiscardTop();
      }
      LiveAtMostRecords(multiset([]), state);
      return None;
    }

    method Length() returns (n: nat)
      ensures n == |Tracked(State())|
    {
      n := |state|;
    }
  }

  class SLRUPolicy {
    const probationary: LruChain
    const protected: LruChain
    const probationaryCapacity: nat
    const protectedCapacity: nat

    ghost function Repr(): set<object>
      reads this, probationary, protected
    {
      probationary.repr + protected.repr
    }

    ghost predicate Valid()
      reads this, probationary, protected, Repr()
    {
      && probationary.Valid() && protected.Valid()
      && probationary.repr !! protected.repr
    }

    ghost function State(): Policy
      reads this, probationary, protected
    {
      Slru(probationary.Order(), protected.Order(), probationaryCapacity, protectedCapacity)
    }

    constructor (probationaryCapacity: nat, protectedCapacity: nat)
      ensures Valid() && fresh(probationary) && fresh(protected) && fresh(Repr())
      ensures State() == Slru([], [], probationaryCapacity, protectedCapacity)
    {
      this.probationaryCapacity := probationaryCapacity;
      this.protectedCapacity := protectedCapacity;
      probationary := new LruChain();
      protected := new LruChain();
    }

    /** Refuses capacities that are not positive. */
    static method Create(probationaryCapacity: int, protectedCapacity: int)
      returns (r: Option<SLRUPolicy>)
      ensures r == None <==> probationaryCapacity <= 0 || protectedCapacity <= 0
      ensures r.Some? ==> fresh(r.value) && r.value.Valid() && fresh(r.value.Repr())
      ensures r.Some? ==> r.value.State() == Slru([], [], probationaryCapacity, protectedCapacity)
      ensures r.Some? ==> Coherent(r.value.State())
    {
      if probationaryCapacity <= 0 || protectedCapacity <= 0 {
        return None;
      }
      var policy := new SLRUPolicy(probationaryCapacity, protectedCapacity);
      return Some(policy);
    }

    method MoveProtected(key: Key)
      requires Valid() && key in Keys(protected.Order())
      modifies Repr()
      ensures Valid() && probationary.repr == old(probationary.repr)
      ensures protected.repr == old(protected.repr)
      ensures State() == Slru(old(probationary.Order()), Touch(old(protected.Order()), key),
                              probationaryCapacity, protectedCapacity)
    {
      protected.MoveToMru(key);
    }

    method MoveProbationary(key: Key)
      requires Valid() && key in Keys(probationary.Order())
      modifies Repr()
      ensures Valid() && probationary.repr == old(probationary.repr)
      ensures protected.repr == old(protected.repr)
      ensures State() == Slru(Touch(old(probationary.Order()), key), old(protected.Order()),
                              probationaryCapacity, protectedCapacity)
    {
      probationary.MoveToMru(key);
    }

    method AppendProbationary(key: Key)
      requires Valid()
      modifies Repr()
      ensures Valid() && fresh(probationary.repr - old(probationary.repr))
      ensures fresh(protected.repr - old(protected.repr))
      ensures State() == Slru(Touch(old(probationary.Order()), key), old(protected.Order()),
                              probationaryCapacity, protectedCapacity)
    {
      probationary.AppendMru(key);
    }

    method AppendProtected(key: Key)
      requires Valid()
      modifies Repr()
      ensures Valid() && fresh(probationary.repr - old(probationary.repr))
      ensures fresh(protected.repr - old(protected.repr))
      ensures State() == Slru(old(probationary.Order()), Touch(old(protected.Order()), key),
                              probationaryCapacity, protectedCapacity)
    {
      protected.AppendMru(key);
    }

    method RemoveProbationary(key: Key)
      requires Valid()
      modifies Repr()
      ensures Valid() && probationary.repr == old(probationary.repr)
      ensures protected.repr == old(protected.repr)
      ensures State() == Slru(Without(old(probationary.Order()), key), old(protected.Order()),
                              probationaryCapacity, protectedCapacity)
    {
      probationary.Remove(key);
    }

    method PopProtected() returns (key: Option<Key>)
      requires Valid()
      modifies Repr()
      ensures Valid() && probationary.repr == old(probationary.repr)
      ensures protected.repr == old(protected.repr)
      ensures key == LruKey(old(protected.Order()))
      ensures State() == Slru(old(probationary.Order()), if key == None then [] else old(protected.Order())[1..],
                              probationaryCapacity, protectedCapacity)
    {
      key := protected.PopLru();
    }

    method RecordInsert(key: Key)
      requires Valid()
      modifies Repr()
      ensures Valid() && fresh(probationary.repr - old(probationary.repr))
      ensures fresh(protected.repr - old(protected.repr))
      ensures State() == EvictionModel.RecordInsert(old(State()), key)
    {
      ghost var goal := EvictionModel.RecordInsert(State(), key);
      var hot := protected.Contains(key);
      if hot {
        MoveProtected(key);
        assert State() == goal;
        return;
      }
      var seen := probationary.Contains(key);
      if seen {
        MoveProbationary(key);
        assert State() == goal;
        return;
      }
      AppendProbationary(key);
      assert State() == goal;
    }

    method RecordAccess(key: Key)
      requires Valid()
      modifies Repr()
      ensures Valid() && fresh(probationary.repr - old(probationary.repr))
      ensures fresh(protected.repr - old(protected.repr))
      ensures State() == EvictionModel.RecordAccess(old(State()), key)
      ensures Heats(old(State()), State(), key)
    {
      ghost var before := State();
      ghost var goal := AccessHeats(before, key);
      var hot := protected.Contains(key);
      if hot {
        MoveProtected(key);
        assert State() == goal && Heats(before, goal, key);
        return;
      }
      var seen := probationary.Contains(key);
      if seen {
        Promote(key);
        assert State() == goal && Heats(before, goal, key);
        return;
      }
      AppendProbationary(key);
      assert State() == goal && Heats(before, goal, key);
    }

    /** A second access moves a probationary key to the protected segment. */
    method Promote(key: Key)
      requires Valid()
      modifies Repr()
      ensures Valid() && fresh(probationary.repr - old(probationary.repr))
      ensures fresh(protected.repr - old(protected.repr))
      ensures State() == EvictionModel.Promote(old(State()), key)
    {
      RemoveProbationary(key);
      AppendProtected(key);
      DemoteOverflow();
    }

    /** The protected segment hands its least recently used key back when it
        is over capacity. */
    method DemoteOverflow()
      requires Valid()
      modifies Repr()
      ensures Valid() && fresh(probationary.repr - old(probationary.repr))
      ensures fresh(protected.repr - old(protected.repr))
      ensures State() == EvictionModel.Demote(old(State()))
    {
      var size := protected.Length();
      if size > protectedCapacity {
        var demoted := PopProtected();
        if demoted.Some? {
          AppendProbationary(demoted.value);
        }
      }
    }

    method RecordDelete(key: Key)
      requires Valid()
      modifies Repr()
      ensures Valid() && fresh(probationary.repr - old(probationary.repr))
      ensures fresh(protected.repr - old(protected.repr))
      ensures State() == EvictionModel.RecordDelete(old(State()), key)
    {
      probationary.Remove(key);
      protected.Remove(key);
    }

    method SelectVictim() returns (victim: Option<Key>)
      requires Valid()
      ensures victim == EvictionModel.SelectVictim(State())
    {
      var size := probationary.Length();
      victim := probationary.LruKey();
      if size > probationaryCapacity {
        return;
      }
      if victim == None || victim.value == "" {
        victim := protected.LruKey();
      }
    }

    method Length() returns (n: nat)
      requires Valid() && Structured(State())
      ensures n == |Tracked(State())|
    {
      NoDupCardinality(probationary.Order());
      NoDupCardinality(protected.Order());
      var cold := probationary.Length();
      var hot := protected.Length();
      n := cold + hot;
    }
  }

  datatype Strategy = UseLru(lru: LRUPolicy) | UseLfu(lfu: LFUPolicy) | UseSlru(slru: SLRUPolicy)

  /** The policy contract the cache is written against. */
  class EvictionPolicy {
    const strategy: Strategy
    ghost var repr: set<object>

    ghost predicate Valid()
      reads this, repr
      ensures Valid() ==> this in repr
    {
      && this in repr
      && match strategy
         case UseLru(p) => {p, p.chain} <= repr && p.chain.repr <= repr - {this} && p.Valid()
         case UseLfu(p) => {p} <= repr && p.Valid()
         case UseSlru(p) => {p, p.probationary, p.protected} <= repr && p.Repr() <= repr - {this} && p.Valid()
    }

    ghost function State(): Policy
      requires Valid()
      reads this, repr
    {
      match strategy
      case UseLru(p) => p.State()
      case UseLfu(p) => p.State()
      case UseSlru(p) => p.State()
    }

    constructor OfLru(lru: LRUPolicy)
      requires lru.Valid()
      ensures Valid() && State() == lru.State() && repr == {this, lru, lru.chain} + lru.chain.repr
    {
      strategy := UseLru(lru);
      repr := {this, lru, lru.chain} + lru.chain.repr;
    }

    constructor OfLfu(lfu: LFUPolicy)
      requires lfu.Valid()
      ensures Valid() && State() == lfu.State() && repr == {this, lfu}
    {
      strategy := UseLfu(lfu);
      repr := {this, lfu};
    }

    constructor OfSlru(slru: SLRUPolicy)
      requires slru.Valid()
      ensures Valid() && State() == slru.State()
      ensures repr == {this, slru, slru.probationary, slru.protected} + slru.Repr()
    {
      strategy := UseSlru(slru);
      repr := {this, slru, slru.probationary, slru.protected} + slru.Repr();
    }

    method RecordInsert(key: Key)
      requires Valid()
      modifies repr
      ensures Valid() && fresh(repr - old(repr))
      ensures State() == EvictionModel.RecordInsert(old(State()), key)
    {
      match strategy {
        case UseLru(p) =>
          p.RecordInsert(key);
          repr := repr + p.chain.repr;
        case UseLfu(p) =>
          p.RecordInsert(key);
        case UseSlru(p) =>
          p.RecordInsert(key);
          repr := repr + p.Repr();
      }
    }

    method RecordAccess(key: Key)
      requires Valid()
      modifies repr
      ensures Valid() && fresh(repr - old(repr))
      ensures State() == EvictionModel.RecordAccess(old(State()), key)
    {
      match strategy {
        case UseLru(p) =>
          p.RecordAccess(key);
          repr := repr + p.chain.repr;
        case UseLfu(p) =>
          p.RecordAccess(key);
        case UseSlru(p) =>
          p.RecordAccess(key);
          repr := repr + p.Repr();
      }
    }

    method RecordDelete(key: Key)
      requires Valid()
      modifies repr
      ensures Valid() && fresh(repr - old(repr))
      ensures State() == EvictionModel.RecordDelete(old(State()), key)
    {
      match strategy {
        case UseLru(p) =>
          p.RecordDelete(key);
          repr := repr + p.chain.repr;
        case UseLfu(p) =>
          p.RecordDelete(key);
        case UseSlru(p) =>
          p.RecordDelete(key);
          repr := repr + p.Repr();
      }
    }

    method SelectVictim() returns (victim: Option<Key>)
      requires Valid()
      modifies repr
      ensures Valid() && repr == old(repr) && State() == old(State())
      ensures victim == EvictionModel.SelectVictim(State())
    {
      match strategy {
        case UseLru(p) => victim := p.SelectVictim();
        case UseLfu(p) => victim := p.SelectVictim();
        case UseSlru(p) => victim := p.SelectVictim();
      }
    }
  }
}
