/** Cache keys and the operations on duplicate-free key sequences that the
    recency structures of the cache refine. */
module KeySeq {
  type Key = string

  datatype Option<+T> = None | Some(value: T)

  /** The sequences are taken apart at their most recent end. */
  function Init(s: seq<Key>): seq<Key>
    requires s != []
  {
    s[..|s| - 1]
  }

  function Last(s: seq<Key>): Key
    requires s != []
  {
    s[|s| - 1]
  }

  function Keys(s: seq<Key>): set<Key> {
    if s == [] then {} else Keys(Init(s)) + {Last(s)}
  }

  ghost predicate NoDup(s: seq<Key>) {
    s != [] ==> NoDup(Init(s)) && Last(s) !in Keys(Init(s))
  }

  /** `s` without the keys of `drop`, in the same order. */
  function Minus(s: seq<Key>, drop: set<Key>): seq<Key> {
    if s == [] then []
    else if Last(s) in drop then Minus(Init(s), drop)
    else Minus(Init(s), drop) + [Last(s)]
  }

  function Without(s: seq<Key>, k: Key): seq<Key> {
    Minus(s, {k})
  }

  /** `k` becomes the most recently used key. */
  function Touch(s: seq<Key>, k: Key): seq<Key> {
    Without(s, k) + [k]
  }

  /** `s` restricted to the keys of `keep`, in the same order. */
  function Keep(s: seq<Key>, keep: set<Key>): seq<Key> {
    if s == [] then []
    else if Last(s) in keep then Keep(Init(s), keep) + [Last(s)]
    else Keep(Init(s), keep)
  }

  /** The keys of `s` more recent than `k`. */
  function After(s: seq<Key>, k: Key): set<Key> {
    if s == [] || Last(s) == k then {} else After(Init(s), k) + {Last(s)}
  }

  /** The recorded size of `k`; a key without a record counts as zero. */
  function Size(sizes: map<Key, nat>, k: Key): nat {
    if k in sizes then sizes[k] else 0
  }

  function Total(s: seq<Key>, sizes: map<Key, nat>): nat {
    if s == [] then 0 else Total(Init(s), sizes) + Size(sizes, Last(s))
  }

  // ---------- Keys ----------

  lemma Snoc(s: seq<Key>, k: Key)
    ensures Init(s + [k]) == s && Last(s + [k]) == k
    ensures Keys(s + [k]) == Keys(s) + {k}
    ensures NoDup(s + [k]) <==> NoDup(s) && k !in Keys(s)
  {
    assert Init(s + [k]) == s;
  }

  lemma {:induction false} KeysIn(s: seq<Key>)
    ensures forall k :: k in s <==> k in Keys(s)
  {
    if s != [] {
      KeysIn(Init(s));
      assert s == Init(s) + [Last(s)];
    }
  }

  lemma {:induction false} KeysConcat(a: seq<Key>, b: seq<Key>)
    ensures Keys(a + b) == Keys(a) + Keys(b)
  {
    if b == [] {
      assert a + b == a;
    } else {
      KeysConcat(a, Init(b));
      assert a + b == (a + Init(b)) + [Last(b)];
      Snoc(a + Init(b), Last(b));
    }
  }

  lemma {:induction false} NoDupIndices(s: seq<Key>)
    ensures NoDup(s) <==> forall i, j :: 0 <= i < j < |s| ==> s[i] != s[j]
  {
    if s != [] {
      NoDupIndices(Init(s));
      KeysIn(Init(s));
      if NoDup(s) {
        assert forall i :: 0 <= i < |s| - 1 ==> s[i] == Init(s)[i] && Init(s)[i] in Init(s);
      } else if NoDup(Init(s)) {
        var i :| 0 <= i < |Init(s)| && Init(s)[i] == Last(s);
        assert s[i] == s[|s| - 1];
      } else {
        var i, j :| 0 <= i < j < |Init(s)| && Init(s)[i] == Init(s)[j];
        assert s[i] == s[j];
      }
    }
  }

  lemma {:induction false} NoDupCardinality(s: seq<Key>)
    requires NoDup(s)
    ensures |Keys(s)| == |s|
  {
    if s != [] {
      NoDupCardinality(Init(s));
    }
  }

  lemma NoKeys(s: seq<Key>)
    ensures Keys(s) == {} <==> s == []
  {
    if s != [] {
      assert Last(s) in Keys(s);
    }
  }

  lemma First(s: seq<Key>)
    requires s != []
    ensures s[0] in Keys(s)
  {
    KeysIn(s);
  }

  lemma KeysPrefix(s: seq<Key>, i: nat)
    requires NoDup(s) && i < |s|
    ensures Keys(s[..i + 1]) == Keys(s[..i]) + {s[i]}
    ensures s[i] in Keys(s) && s[i] !in Keys(s[..i])
  {
    KeysIn(s);
    KeysIn(s[..i]);
    NoDupIndices(s);
    assert s[..i + 1] == s[..i] + [s[i]];
    Snoc(s[..i], s[i]);
  }

  /** The keys of a dictionary once each, in an unspecified order. */
  method Listing(ks: set<Key>) returns (s: seq<Key>)
    ensures NoDup(s) && Keys(s) == ks
  {
    s := [];
    var rest := ks;
    while rest != {}
      invariant NoDup(s) && rest <= ks && Keys(s) == ks - rest
      decreases rest
    {
      var k :| k in rest;
      Snoc(s, k);
      s := s + [k];
      rest := rest - {k};
    }
  }

  lemma CardinalitySubset(a: set<Key>, b: set<Key>)
    requires a <= b
    ensures |a| <= |b|
  {
    assert b == a + (b - a);
  }

  // ---------- Minus and Touch ----------

  lemma {:induction false} KeysMinus(s: seq<Key>, drop: set<Key>)
    ensures Keys(Minus(s, drop)) == Keys(s) - drop
  {
    if s != [] {
      KeysMinus(Init(s), drop);
      Snoc(Minus(Init(s), drop), Last(s));
    }
  }

  lemma {:induction false} MinusNoDup(s: seq<Key>, drop: set<Key>)
    requires NoDup(s)
    ensures NoDup(Minus(s, drop)) && Keys(Minus(s, drop)) == Keys(s) - drop
  {
    KeysMinus(s, drop);
    if s != [] {
      MinusNoDup(Init(s), drop);
      Snoc(Minus(Init(s), drop), Last(s));
    }
  }

  lemma {:induction false} MinusShorter(s: seq<Key>, drop: set<Key>)
    ensures |Minus(s, drop)| <= |s|
  {
    if s != [] {
      MinusShorter(Init(s), drop);
    }
  }

  lemma {:induction false} MinusAbsent(s: seq<Key>, drop: set<Key>)
    requires Keys(s) !! drop
    ensures Minus(s, drop) == s
  {
    if s != [] {
      MinusAbsent(Init(s), drop);
      assert s == Init(s) + [Last(s)];
    }
  }

  lemma {:induction false} MinusConcat(a: seq<Key>, b: seq<Key>, drop: set<Key>)
    ensures Minus(a + b, drop) == Minus(a, drop) + Minus(b, drop)
  {
    if b == [] {
      assert a + b == a;
    } else {
      assert Init(a + b) == a + Init(b) && Last(a + b) == Last(b);
      MinusConcat(a, Init(b), drop);
    }
  }

  lemma {:induction false} MinusMinus(s: seq<Key>, a: set<Key>, b: set<Key>)
    ensures Minus(Minus(s, a), b) == Minus(s, a + b)
  {
    if s != [] {
      MinusMinus(Init(s), a, b);
      Snoc(Minus(Init(s), a), Last(s));
    }
  }

  lemma AbsentAround(s: seq<Key>, i: nat)
    requires NoDup(s) && i < |s|
    ensures s[i] !in Keys(s[..i]) && s[i] !in Keys(s[i + 1..])
  {
    NoDupIndices(s);
    KeysIn(s[..i]);
    KeysIn(s[i + 1..]);
  }

  lemma WithoutAt(s: seq<Key>, i: nat)
    requires NoDup(s) && i < |s|
    ensures Without(s, s[i]) == s[..i] + s[i + 1..]
  {
    var a, k, b := s[..i], s[i], s[i + 1..];
    AbsentAround(s, i);
    assert s == (a + [k]) + b;
    MinusConcat(a + [k], b, {k});
    Snoc(a, k);
    MinusAbsent(a, {k});
    MinusAbsent(b, {k});
  }

  lemma PopFirst(s: seq<Key>)
    requires NoDup(s) && s != []
    ensures s[1..] == Without(s, s[0]) && s[0] in Keys(s)
    ensures NoDup(s[1..]) && Keys(s[1..]) == Keys(s) - {s[0]}
  {
    First(s);
    WithoutAt(s, 0);
    MinusNoDup(s, {s[0]});
  }

  lemma TouchWithout(s: seq<Key>, k: Key)
    ensures Touch(Without(s, k), k) == Touch(s, k)
  {
    MinusMinus(s, {k}, {k});
    assert {k} + {k} == {k};
  }

  lemma TouchFacts(s: seq<Key>, k: Key)
    requires NoDup(s)
    ensures NoDup(Touch(s, k)) && Keys(Touch(s, k)) == Keys(s) + {k}
    ensures |Touch(s, k)| == |s| + if k in Keys(s) then 0 else 1
  {
    MinusNoDup(s, {k});
    Snoc(Without(s, k), k);
    NoDupCardinality(s);
    NoDupCardinality(Touch(s, k));
  }

  // ---------- Keep ----------

  lemma {:induction false} KeysKeep(s: seq<Key>, keep: set<Key>)
    ensures Keys(Keep(s, keep)) == Keys(s) * keep
  {
    if s != [] {
      KeysKeep(Init(s), keep);
      Snoc(Keep(Init(s), keep), Last(s));
    }
  }

  lemma {:induction false} KeepNoDup(s: seq<Key>, keep: set<Key>)
    requires NoDup(s)
    ensures NoDup(Keep(s, keep)) && Keys(Keep(s, keep)) == Keys(s) * keep
  {
    KeysKeep(s, keep);
    if s != [] {
      KeepNoDup(Init(s), keep);
      Snoc(Keep(Init(s), keep), Last(s));
    }
  }

  lemma {:induction false} KeepMinus(s: seq<Key>, keep: set<Key>, drop: set<Key>)
    ensures Keep(Minus(s, drop), keep) == Keep(s, keep - drop)
    ensures Minus(Keep(s, keep), drop) == Keep(s, keep - drop)
  {
    if s != [] {
      KeepMinus(Init(s), keep, drop);
      Snoc(Minus(Init(s), drop), Last(s));
      Snoc(Keep(Init(s), keep), Last(s));
    }
  }

  lemma {:induction false} KeepAgree(s: seq<Key>, a: set<Key>, b: set<Key>)
    requires Keys(s) * a == Keys(s) * b
    ensures Keep(s, a) == Keep(s, b)
  {
    if s != [] {
      var init := Keys(Init(s));
      assert init * a == init * (Keys(s) * a) == init * (Keys(s) * b) == init * b;
      assert Last(s) in Keys(s) * a <==> Last(s) in a;
      assert Last(s) in Keys(s) * b <==> Last(s) in b;
      KeepAgree(Init(s), a, b);
    }
  }

  lemma {:induction false} KeepAll(s: seq<Key>, keep: set<Key>)
    requires Keys(s) <= keep
    ensures Keep(s, keep) == s
  {
    if s != [] {
      KeepAll(Init(s), keep);
      assert s == Init(s) + [Last(s)];
    }
  }

  lemma {:induction false} KeepOne(s: seq<Key>, k: Key)
    requires NoDup(s)
    ensures Keep(s, {k}) == if k in Keys(s) then [k] else []
  {
    if s != [] {
      KeepOne(Init(s), k);
    }
  }

  /** Touching a kept key commutes with restriction. */
  lemma KeepTouch(s: seq<Key>, keep: set<Key>, k: Key)
    ensures Keep(Touch(s, k), keep + {k}) == Touch(Keep(s, keep), k)
  {
    Snoc(Without(s, k), k);
    KeepMinus(s, keep + {k}, {k});
    KeepMinus(s, keep, {k});
    assert keep + {k} - {k} == keep - {k};
  }

  /** Touching a key that is not kept is invisible to the restriction. */
  lemma KeepTouchOther(s: seq<Key>, keep: set<Key>, k: Key)
    requires k !in keep
    ensures Keep(Touch(s, k), keep) == Keep(s, keep)
  {
    Snoc(Without(s, k), k);
    KeepMinus(s, keep, {k});
    assert keep - {k} == keep;
  }

  // ---------- After ----------

  lemma {:induction false} AfterKeys(s: seq<Key>, k: Key)
    ensures After(s, k) <= Keys(s)
  {
    if s != [] {
      AfterKeys(Init(s), k);
    }
  }

  lemma {:induction false} AfterMinus(s: seq<Key>, k: Key, drop: set<Key>)
    requires k !in drop
    ensures After(Minus(s, drop), k) == After(s, k) - drop
  {
    if s != [] {
      AfterMinus(Init(s), k, drop);
      Snoc(Minus(Init(s), drop), Last(s));
    }
  }

  lemma AfterTouch(s: seq<Key>, k: Key, x: Key)
    ensures After(Touch(s, x), k) == if x == k then {} else After(s, k) + {x}
  {
    Snoc(Without(s, x), x);
    if x != k {
      AfterMinus(s, k, {x});
    }
  }

  lemma {:induction false} AfterFirst(s: seq<Key>)
    requires NoDup(s) && s != []
    ensures After(s, s[0]) == Keys(s) - {s[0]}
  {
    if |s| > 1 {
      AfterFirst(Init(s));
      First(Init(s));
    }
  }

  // ---------- Total ----------

  lemma {:induction false} TotalAgree(s: seq<Key>, a: map<Key, nat>, b: map<Key, nat>)
    requires forall k :: k in Keys(s) ==> Size(a, k) == Size(b, k)
    ensures Total(s, a) == Total(s, b)
  {
    if s != [] {
      TotalAgree(Init(s), a, b);
    }
  }

  lemma {:induction false} TotalSplit(s: seq<Key>, drop: set<Key>, sizes: map<Key, nat>)
    ensures Total(s, sizes) == Total(Minus(s, drop), sizes) + Total(Keep(s, drop), sizes)
  {
    if s != [] {
      TotalSplit(Init(s), drop, sizes);
      Snoc(Minus(Init(s), drop), Last(s));
      Snoc(Keep(Init(s), drop), Last(s));
    }
  }

  lemma TotalWithout(s: seq<Key>, k: Key, sizes: map<Key, nat>)
    requires NoDup(s)
    ensures Total(Without(s, k), sizes) == Total(s, sizes) - if k in Keys(s) then Size(sizes, k) else 0
  {
    TotalSplit(s, {k}, sizes);
    KeepOne(s, k);
    Snoc([], k);
  }
}
