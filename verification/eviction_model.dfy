/** The abstract meaning of the three eviction policies: a recency sequence
    (LRU), a table of uses (LFU) and two disjoint recency sequences (SLRU). */
module EvictionModel {
  import opened KeySeq

  /** How often a key was used and when its last use was recorded. */
  datatype Use = Use(frequency: nat, clock: nat)

  predicate Sooner(a: Use, b: Use) {
    a.frequency < b.frequency || (a.frequency == b.frequency && a.clock < b.clock)
  }

  datatype Policy =
    | Lru(chain: seq<Key>)
    | Lfu(state: map<Key, Use>, clock: nat)
    | Slru(probationary: seq<Key>, protected: seq<Key>,
           probationaryCapacity: nat, protectedCapacity: nat)

  ghost function Tracked(p: Policy): set<Key> {
    match p
    case Lru(chain) => Keys(chain)
    case Lfu(state, _) => state.Keys
    case Slru(probationary, protected, _, _) => Keys(probationary) + Keys(protected)
  }

  /** What every operation keeps, whatever the keys. */
  ghost predicate Structured(p: Policy) {
    match p
    case Lru(chain) => NoDup(chain)
    case Lfu(state, clock) => ClocksDistinct(state) && forall k :: k in state ==> state[k].clock <= clock
    case Slru(_, protected, _, protectedCapacity) => Segregated(p) && |protected| <= protectedCapacity
  }

  ghost predicate Segregated(p: Policy)
    requires p.Slru?
  {
    && NoDup(p.probationary) && NoDup(p.protected) && Keys(p.probationary) !! Keys(p.protected)
    && 1 <= p.probationaryCapacity && 1 <= p.protectedCapacity
  }

  ghost predicate Coherent(p: Policy) {
    Structured(p) && forall k :: k in Tracked(p) ==> CanTrack(p, k)
  }

  /** The `or` in SLRU victim selection treats the empty string as absent, so
      SLRU finds its victims only if it is not given the empty key; the other
      policies take any key. */
  predicate CanTrack(p: Policy, k: Key) {
    p.Slru? ==> k != ""
  }

  function RecordInsert(p: Policy, k: Key): Policy {
    match p
    case Lru(chain) => Lru(Touch(chain, k))
    case Lfu(state, clock) => Lfu(state[k := Use(1, clock + 1)], clock + 1)
    case Slru(probationary, protected, _, _) =>
      if k in Keys(protected) then p.(protected := Touch(protected, k))
      else p.(probationary := Touch(probationary, k))
  }

  function RecordAccess(p: Policy, k: Key): Policy {
    match p
    case Lru(chain) => if k in Keys(chain) then Lru(Touch(chain, k)) else p
    case Lfu(state, clock) =>
      if k in state then Lfu(state[k := Use(state[k].frequency + 1, clock + 1)], clock + 1)
      else RecordInsert(p, k)
    case Slru(probationary, protected, _, _) =>
      if k in Keys(protected) then p.(protected := Touch(protected, k))
      else if k in Keys(probationary) then Promote(p, k)
      else p.(probationary := Touch(probationary, k))
  }

  /** A probationary key moves to the protected segment. */
  function Promote(p: Policy, k: Key): Policy
    requires p.Slru?
  {
    Demote(p.(probationary := Without(p.probationary, k), protected := Touch(p.protected, k)))
  }

  /** The protected segment hands its least recently used key back when it is
      over capacity. */
  function Demote(p: Policy): Policy
    requires p.Slru?
  {
    if |p.protected| > p.protectedCapacity then
      p.(probationary := Touch(p.probationary, p.protected[0]), protected := p.protected[1..])
    else p
  }

  function RecordDelete(p: Policy, k: Key): Policy {
    DeleteAll(p, {k})
  }

  function DeleteAll(p: Policy, ks: set<Key>): Policy {
    match p
    case Lru(chain) => Lru(Minus(chain, ks))
    case Lfu(state, clock) => Lfu(state - ks, clock)
    case Slru(probationary, protected, _, _) =>
      p.(probationary := Minus(probationary, ks), protected := Minus(protected, ks))
  }

  function LruKey(chain: seq<Key>): Option<Key> {
    if chain == [] then None else Some(chain[0])
  }

  ghost function SelectVictim(p: Policy): Option<Key> {
    match p
    case Lru(chain) => LruKey(chain)
    case Lfu(state, _) => LeastUsed(state)
    case Slru(probationary, protected, probationaryCapacity, _) =>
      var first := LruKey(probationary);
      if |probationary| > probationaryCapacity then first
      else if first.Some? && first.value != "" then first
      else LruKey(protected)
  }

  // ---------- The least used key ----------

  ghost predicate ClocksDistinct(state: map<Key, Use>) {
    forall a, b :: a in state && b in state && a != b ==> state[a].clock != state[b].clock
  }

  ghost predicate IsLeast(state: map<Key, Use>, k: Key) {
    k in state && forall x :: x in state && x != k ==> Sooner(state[k], state[x])
  }

  ghost function LeastUsed(state: map<Key, Use>): (r: Option<Key>)
    ensures r.Some? ==> IsLeast(state, r.value)
  {
    if exists k :: IsLeast(state, k) then
      var k :| IsLeast(state, k);
      Some(k)
    else None
  }

  lemma {:induction false} LeastExists(state: map<Key, Use>)
    requires ClocksDistinct(state) && |state| > 0
    ensures exists k :: IsLeast(state, k)
    decreases |state|
  {
    var k :| k in state;
    var rest := state - {k};
    if rest.Keys == {} {
      assert forall x :: x in state && x != k ==> x in rest.Keys;
      assert IsLeast(state, k);
    } else {
      assert rest.Keys == state.Keys - {k};
      LeastExists(rest);
      var m :| IsLeast(rest, m);
      if Sooner(state[k], state[m]) {
        assert forall x :: x in state && x != k ==> x == m || x in rest;
        assert IsLeast(state, k);
      } else {
        assert forall x :: x in state && x != m ==> x == k || x in rest;
        assert IsLeast(state, m);
      }
    }
  }

  lemma LeastUsedIs(state: map<Key, Use>, k: Key)
    requires IsLeast(state, k)
    ensures LeastUsed(state) == Some(k)
  {
    var m := LeastUsed(state).value;
    assert m != k ==> Sooner(state[k], state[m]);
  }

  // ---------- What every policy keeps ----------

  lemma InsertKeeps(p: Policy, k: Key)
    requires Structured(p)
    ensures Structured(RecordInsert(p, k))
    ensures Tracked(RecordInsert(p, k)) == Tracked(p) + {k}
  {
    match p
    case Lru(chain) => TouchFacts(chain, k);
    case Lfu(_, _) =>
    case Slru(probationary, protected, _, _) =>
      if k in Keys(protected) {
        TouchFacts(protected, k);
      } else {
        TouchFacts(probationary, k);
      }
  }

  lemma AccessKeeps(p: Policy, k: Key)
    requires Structured(p)
    ensures Structured(RecordAccess(p, k))
    ensures Tracked(RecordAccess(p, k)) == if p.Lru? then Tracked(p) else Tracked(p) + {k}
  {
    if p.Lru? {
      TouchFacts(p.chain, k);
    } else if p.Slru? {
      if k in Keys(p.probationary) {
        PromoteKeeps(p, k);
      } else {
        assert RecordAccess(p, k) == RecordInsert(p, k);
        InsertKeeps(p, k);
      }
    }
  }

  lemma Exchange(cold: set<Key>, hot: set<Key>, demoted: Key)
    requires cold !! hot && demoted in hot
    ensures cold + {demoted} !! hot - {demoted}
    ensures (cold + {demoted}) + (hot - {demoted}) == cold + hot
  {
  }

  lemma PromoteKeeps(p: Policy, k: Key)
    requires p.Slru? && Structured(p) && k in Keys(p.probationary)
    ensures Structured(Promote(p, k)) && Tracked(Promote(p, k)) == Tracked(p)
    ensures k in Keys(Promote(p, k).protected) && Keys(Promote(p, k).protected) <= Keys(p.protected) + {k}
  {
    AccessProtects(p, k);
    Snoc(p.protected, k);
    if |p.protected| >= p.protectedCapacity {
      Snoc(p.protected[1..], k);
    }
    MinusNoDup(p.probationary, {k});
    TouchFacts(p.protected, k);
    DemoteKeeps(p.(probationary := Without(p.probationary, k), protected := Touch(p.protected, k)));
  }

  /** The access that finds a key in probation makes it the most recent protected
      key. The others keep their order; only a full segment gives one up, its
      least recently used, which becomes the most recent probationary key. */
  lemma AccessProtects(p: Policy, k: Key)
    requires p.Slru? && Structured(p) && k in Keys(p.probationary)
    ensures
      var r, cold := RecordAccess(p, k), Without(p.probationary, k);
      && r.Slru? && k !in Keys(r.probationary) && k !in Keys(p.protected)
      && r.probationaryCapacity == p.probationaryCapacity && r.protectedCapacity == p.protectedCapacity
      && if |p.protected| < p.protectedCapacity then
           r.protected == p.protected + [k] && r.probationary == cold
         else
           && p.protected != []
           && r.protected == p.protected[1..] + [k] && r.probationary == cold + [p.protected[0]]
  {
    var cold, hot := Without(p.probationary, k), p.protected + [k];
    var moved := p.(probationary := cold, protected := hot);
    MinusAbsent(p.protected, {k});
    KeysMinus(p.probationary, {k});
    assert RecordAccess(p, k) == Demote(moved);
    if |p.protected| >= p.protectedCapacity {
      First(p.protected);
      assert hot[0] == p.protected[0] && hot[1..] == p.protected[1..] + [k];
      DemoteExactly(moved);
    }
  }

  lemma DemoteExactly(p: Policy)
    requires p.Slru? && |p.protected| > p.protectedCapacity && p.protected[0] !in Keys(p.probationary)
    ensures Demote(p) == p.(probationary := p.probationary + [p.protected[0]], protected := p.protected[1..])
  {
    MinusAbsent(p.probationary, {p.protected[0]});
  }

  /** Otherwise a key is touched where it is: an access or insert of a protected
      key keeps it protected, an insert never protects a key, and an access to an
      unknown one begins its probation. */
  lemma SegmentIsKept(p: Policy, k: Key)
    requires p.Slru?
    ensures k in Keys(p.protected) ==>
      RecordAccess(p, k) == RecordInsert(p, k) == p.(protected := Without(p.protected, k) + [k])
    ensures k !in Keys(p.protected) ==> RecordInsert(p, k) == p.(probationary := Without(p.probationary, k) + [k])
    ensures k !in Tracked(p) ==> RecordAccess(p, k) == p.(probationary := p.probationary + [k])
  {
    if k !in Tracked(p) {
      MinusAbsent(p.probationary, {k});
    }
  }

  /** If `k` was tracked, it is the most recent protected key of `r`. */
  ghost predicate Heats(p: Policy, r: Policy, k: Key) {
    && r.Slru?
    && (Structured(p) && k in Tracked(p) ==>
          r.protected != [] && Last(r.protected) == k && k in Keys(r.protected) && k !in Keys(r.probationary))
  }

  /** Whichever segment a tracked key is in, an access makes it the most recent
      protected key. */
  lemma AccessHeats(p: Policy, k: Key) returns (r: Policy)
    requires p.Slru?
    ensures r == RecordAccess(p, k) && Heats(p, r, k)
  {
    r := RecordAccess(p, k);
    if Structured(p) && k in Tracked(p) {
      SegmentIsKept(p, k);
      if k in Keys(p.protected) {
        Snoc(Without(p.protected, k), k);
      } else {
        AccessProtects(p, k);
        Snoc(p.protected, k);
        if |p.protected| >= p.protectedCapacity {
          Snoc(p.protected[1..], k);
        }
      }
    }
  }

  lemma DemoteKeeps(p: Policy)
    requires p.Slru? && Segregated(p) && |p.protected| <= p.protectedCapacity + 1
    ensures Structured(Demote(p)) && Tracked(Demote(p)) == Tracked(p)
    ensures Keys(Demote(p).protected) <= Keys(p.protected)
  {
    if |p.protected| > p.protectedCapacity {
      PopFirst(p.protected);
      TouchFacts(p.probationary, p.protected[0]);
      Exchange(Keys(p.probationary), Keys(p.protected), p.protected[0]);
    }
  }

  lemma SegmentsDelete(p: Policy, ks: set<Key>)
    requires p.Slru? && Structured(p)
    ensures Structured(DeleteAll(p, ks)) && Tracked(DeleteAll(p, ks)) == Tracked(p) - ks
  {
    var probationary, protected := Minus(p.probationary, ks), Minus(p.protected, ks);
    MinusNoDup(p.probationary, ks);
    MinusNoDup(p.protected, ks);
    MinusShorter(p.protected, ks);
    assert Keys(probationary) + Keys(protected) == Keys(p.probationary) + Keys(p.protected) - ks;
  }

  lemma DeleteKeeps(p: Policy, ks: set<Key>)
    requires Structured(p)
    ensures Structured(DeleteAll(p, ks))
    ensures Tracked(DeleteAll(p, ks)) == Tracked(p) - ks
  {
    if p.Lru? {
      MinusNoDup(p.chain, ks);
    } else if p.Slru? {
      SegmentsDelete(p, ks);
    }
  }

  lemma DeleteTwice(p: Policy, a: set<Key>, b: set<Key>)
    ensures DeleteAll(DeleteAll(p, a), b) == DeleteAll(p, a + b)
  {
    match p
    case Lru(chain) => MinusMinus(chain, a, b);
    case Lfu(state, _) => assert state - a - b == state - (a + b);
    case Slru(probationary, protected, _, _) =>
      MinusMinus(probationary, a, b);
      MinusMinus(protected, a, b);
  }

  lemma DeleteNothing(p: Policy)
    ensures DeleteAll(p, {}) == p
  {
    match p
    case Lru(chain) => MinusAbsent(chain, {});
    case Lfu(state, _) => assert state - {} == state;
    case Slru(probationary, protected, _, _) =>
      MinusAbsent(probationary, {});
      MinusAbsent(protected, {});
  }

  /** A victim is always a tracked key, and there is one exactly when
      anything is tracked. */
  lemma VictimExists(p: Policy)
    requires Coherent(p)
    ensures SelectVictim(p) == None <==> Tracked(p) == {}
    ensures SelectVictim(p).Some? ==> SelectVictim(p).value in Tracked(p)
  {
    match p
    case Lru(chain) =>
      NoKeys(chain);
      if chain != [] {
        First(chain);
      }
    case Lfu(state, _) =>
      if |state| > 0 {
        LeastExists(state);
      } else {
        assert state.Keys == {};
      }
    case Slru(probationary, protected, _, _) =>
      NoKeys(probationary);
      NoKeys(protected);
      if probationary != [] {
        First(probationary);
      } else if protected != [] {
        First(protected);
      }
  }

  /** With any keys, segmented LRU finds no victim in two cases: it
      tracks nothing, or all it could offer is an empty key in probation. */
  lemma NoVictimExactly(p: Policy)
    requires p.Slru?
    ensures SelectVictim(p) == None
      <==> p.protected == []
           && (p.probationary == [] || (p.probationary[0] == "" && |p.probationary| <= p.probationaryCapacity))
  {
  }

  lemma EmptyKeyHasNoVictim()
    ensures
      var p := Slru([""], [], 1, 1);
      Tracked(p) == {""} && SelectVictim(p) == None
  {
    Snoc([], "");
  }
}
