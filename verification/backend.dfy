/** The in-memory backend: what it stores as a value, and the object whose
    dictionaries and running byte total are updated in place. */
module Backend {
  import opened KeySeq
  import opened Entries

  /** `order` runs from the least to the most recently used key. */
  datatype Store = Store(
    entries: map<Key, Entry>,
    sizes: map<Key, nat>,
    order: seq<Key>,
    bytes: int)

  const EMPTY := Store(map[], map[], [], 0)

  function Delete(b: Store, key: Key): (Store, bool) {
    if key !in b.entries then (b, false)
    else (Store(b.entries - {key}, b.sizes - {key}, Without(b.order, key),
                b.bytes - Size(b.sizes, key)), true)
  }

  /** A lookup silently deletes the entry it finds expired. */
  function Lookup(b: Store, key: Key, now: real): (Store, Option<Entry>) {
    if key !in b.entries then (b, None)
    else if b.entries[key].IsExpired(now) then (Delete(b, key).0, None)
    else (b.(order := Touch(b.order, key)), Some(b.entries[key]))
  }

  function Put(b: Store, key: Key, entry: Entry, sizeOf: Entry -> nat): Store {
    var size := sizeOf(entry);
    Store(b.entries[key := entry], b.sizes[key := size], Touch(b.order, key),
          b.bytes + size - Size(b.sizes, key))
  }

  /** The keys of `ks` all deleted. */
  function Discard(b: Store, ks: set<Key>): Store {
    Store(b.entries - ks, b.sizes - ks, Minus(b.order, ks),
          b.bytes - Total(Keep(b.order, ks), b.sizes))
  }

  /** Entries, sizes and order have the same keys, every recorded size is that
      of the entry stored now, and the running total is the sum of the sizes. */
  ghost predicate Accounted(sizeOf: Entry -> nat, b: Store) {
    && NoDup(b.order) && Keys(b.order) == b.entries.Keys == b.sizes.Keys
    && b.bytes == Total(b.order, b.sizes)
    && forall k :: k in b.entries ==> b.sizes[k] == sizeOf(b.entries[k])
  }

  // ---------- What every operation keeps ----------

  lemma DiscardKeeps(sizeOf: Entry -> nat, b: Store, ks: set<Key>)
    requires Accounted(sizeOf, b)
    ensures Accounted(sizeOf, Discard(b, ks))
    ensures Discard(b, ks).bytes <= b.bytes
  {
    MinusNoDup(b.order, ks);
    TotalSplit(b.order, ks, b.sizes);
    TotalAgree(Minus(b.order, ks), b.sizes, b.sizes - ks);
  }

  lemma DeleteIsDiscard(sizeOf: Entry -> nat, b: Store, key: Key)
    requires Accounted(sizeOf, b)
    ensures Delete(b, key).0 == Discard(b, {key})
  {
    KeepOne(b.order, key);
    if key !in b.entries {
      MinusAbsent(b.order, {key});
      assert b.entries - {key} == b.entries && b.sizes - {key} == b.sizes;
    } else {
      assert Init([key]) == [] && Last([key]) == key;
      assert Total([key], b.sizes) == Total(Init([key]), b.sizes) + Size(b.sizes, Last([key]));
    }
  }

  lemma MapMinusTwice<V>(m: map<Key, V>, a: set<Key>, c: set<Key>)
    ensures m - a - c == m - (a + c)
  {
  }

  lemma DiscardTwice(sizeOf: Entry -> nat, b: Store, a: set<Key>, c: set<Key>)
    requires Accounted(sizeOf, b)
    ensures Discard(Discard(b, a), c) == Discard(b, a + c)
  {
    MinusMinus(b.order, a, c);
    DiscardKeeps(sizeOf, b, a);
    DiscardKeeps(sizeOf, Discard(b, a), c);
    DiscardKeeps(sizeOf, b, a + c);
    MapMinusTwice(b.entries, a, c);
    MapMinusTwice(b.sizes, a, c);
  }

  lemma DiscardNothing(sizeOf: Entry -> nat, b: Store)
    requires Accounted(sizeOf, b)
    ensures Discard(b, {}) == b
  {
    MinusAbsent(b.order, {});
    TotalSplit(b.order, {}, b.sizes);
    assert b.entries - {} == b.entries;
    assert b.sizes - {} == b.sizes;
  }

  lemma LookupKeeps(sizeOf: Entry -> nat, b: Store, key: Key, now: real)
    requires Accounted(sizeOf, b)
    ensures Accounted(sizeOf, Lookup(b, key, now).0)
    ensures Lookup(b, key, now).0.entries.Keys <= b.entries.Keys
    ensures Lookup(b, key, now).0.bytes <= b.bytes
  {
    if key in b.entries {
      if b.entries[key].IsExpired(now) {
        DeleteIsDiscard(sizeOf, b, key);
        DiscardKeeps(sizeOf, b, {key});
      } else {
        TouchFacts(b.order, key);
        TotalWithout(b.order, key, b.sizes);
      }
    }
  }

  lemma PutKeeps(sizeOf: Entry -> nat, b: Store, key: Key, entry: Entry)
    requires Accounted(sizeOf, b)
    ensures Accounted(sizeOf, Put(b, key, entry, sizeOf))
  {
    var sizes := b.sizes[key := sizeOf(entry)];
    TouchFacts(b.order, key);
    assert Total(Touch(b.order, key), sizes) == b.bytes + sizeOf(entry) - Size(b.sizes, key) by {
      TotalWithout(b.order, key, b.sizes);
      TotalAgree(Without(b.order, key), b.sizes, sizes);
    }
  }

  lemma CountIsOrder(sizeOf: Entry -> nat, b: Store)
    requires Accounted(sizeOf, b)
    ensures |b.entries| == |b.order| && 0 <= b.bytes
  {
    NoDupCardinality(b.order);
  }

  // ---------- The object ----------

  class InMemoryBackend {
    const maxItems: int
    const maxSizeBytes: int
    const sizeOf: Entry -> nat
    var entries: map<Key, Entry>
    var sizes: map<Key, nat>
    var order: seq<Key>
    var currentSizeBytes: int

    function State(): Store
      reads this
    {
      Store(entries, sizes, order, currentSizeBytes)
    }

    ghost predicate Valid()
      reads this
    {
      Accounted(sizeOf, State())
    }

    constructor (maxItems: int, maxSizeBytes: int, sizeOf: Entry -> nat)
      ensures State() == EMPTY && Valid()
      ensures this.maxItems == maxItems && this.maxSizeBytes == maxSizeBytes && this.sizeOf == sizeOf
    {
      this.maxItems, this.maxSizeBytes, this.sizeOf := maxItems, maxSizeBytes, sizeOf;
      entries, sizes, order, currentSizeBytes := map[], map[], [], 0;
    }

    method Get(key: Key, now: real) returns (found: Option<Entry>)
      requires Valid()
      modifies this
      ensures Valid() && (State(), found) == Lookup(old(State()), key, now)
    {
      LookupKeeps(sizeOf, State(), key, now);
      if key !in entries {
        return None;
      }
      var entry := entries[key];
      if entry.IsExpired(now) {
        var _ := DeleteUnlocked(key);
        return None;
      }
      order := Touch(order, key);
      var copy := Copy(entry);
      return Some(copy);
    }

    method Set(key: Key, entry: Entry)
      requires Valid()
      modifies this
      ensures Valid() && State() == Put(old(State()), key, entry, sizeOf)
    {
      ghost var after := Put(State(), key, entry, sizeOf);
      PutKeeps(sizeOf, State(), key, entry);
      var size := sizeOf(entry);
      var previous := Size(sizes, key);
      var copy := Copy(entry);
      entries, sizes, order := entries[key := copy], sizes[key := size], Touch(order, key);
      currentSizeBytes := currentSizeBytes + size - previous;
      assert State() == after;
    }

    method DeleteUnlocked(key: Key) returns (removed: bool)
      requires Valid()
      modifies this
      ensures Valid() && (State(), removed) == Delete(old(State()), key)
    {
      DeleteIsDiscard(sizeOf, State(), key);
      DiscardKeeps(sizeOf, State(), {key});
      if key !in entries {
        return false;
      }
      entries := entries - {key};
      order := Without(order, key);
      currentSizeBytes := currentSizeBytes - Size(sizes, key);
      sizes := sizes - {key};
      return true;
    }

    method Clear()
      modifies this
      ensures Valid() && State() == EMPTY
    {
      entries, sizes, order, currentSizeBytes := map[], map[], [], 0;
    }

    /** Every stored key once, in an unspecified order. */
    method ListKeys() returns (ks: seq<Key>)
      ensures NoDup(ks) && Keys(ks) == entries.Keys
    {
      ks := Listing(entries.Keys);
    }

    method SizeBytes() returns (n: int)
      ensures n == currentSizeBytes
    {
      n := currentSizeBytes;
    }

    method ItemCount() returns (n: nat)
      ensures n == |entries|
    {
      n := |entries|;
    }
  }
}
