/** The sentinel doubly linked list with a side map behind the LRU and SLRU
    policies. The linked structure refines a duplicate-free key sequence. */
module LruChains {
  import opened KeySeq

  class Node {
    const key: Key
    var prev: Node?
    var next: Node?

    constructor (key: Key)
      ensures this.key == key && prev == null && next == null
    {
      this.key := key;
      prev, next := null, null;
    }
  }

  ghost function KeysOf(ns: seq<Node>): seq<Key> {
    seq(|ns|, i requires 0 <= i < |ns| => ns[i].key)
  }

  ghost predicate Distinct(ring: seq<Node>) {
    forall i, j :: 0 <= i < j < |ring| ==> ring[i] != ring[j]
  }

  /** `nodes` is a bijection between the keys of `spine` and its nodes. */
  ghost predicate Maps(nodes: map<Key, Node>, spine: seq<Node>) {
    && NoDup(KeysOf(spine))
    && nodes.Keys == Keys(KeysOf(spine))
    && (forall i :: 0 <= i < |spine| ==> spine[i].key in nodes && nodes[spine[i].key] == spine[i])
  }

  /** Forward and backward links agree all the way along `ring`. */
  ghost predicate Links(ring: seq<Node>)
    reads set n | n in ring
  {
    && (forall i :: 0 <= i < |ring| - 1 ==> ring[i].next == ring[i + 1])
    && (forall i :: 0 < i < |ring| ==> ring[i].prev == ring[i - 1])
  }

  /** The position of a mapped key on the spine. */
  lemma Position(nodes: map<Key, Node>, spine: seq<Node>, key: Key) returns (i: nat)
    requires Maps(nodes, spine) && key in nodes
    ensures i < |spine| && spine[i] == nodes[key] && spine[i].key == key
  {
    KeysIn(KeysOf(spine));
    i :| 0 <= i < |spine| && KeysOf(spine)[i] == key;
  }

  lemma MapsAppend(nodes: map<Key, Node>, spine: seq<Node>, node: Node)
    requires Maps(nodes, spine) && node.key !in nodes
    ensures Maps(nodes[node.key := node], spine + [node])
    ensures KeysOf(spine + [node]) == Touch(KeysOf(spine), node.key)
  {
    var order, key := KeysOf(spine), node.key;
    MinusAbsent(order, {key});
    Snoc(order, key);
    assert KeysOf(spine + [node]) == order + [key];
  }

  lemma RingRemove(ring: seq<Node>, i: nat) returns (rest: seq<Node>)
    requires i < |ring|
    ensures rest == ring[..i] + ring[i + 1..]
    ensures forall j :: 0 <= j < |rest| ==> rest[j] == if j < i then ring[j] else ring[j + 1]
    ensures Distinct(ring) ==> Distinct(rest) && ring[i] !in rest
  {
    rest := ring[..i] + ring[i + 1..];
    assert forall j :: 0 <= j < |rest| ==> rest[j] == if j < i then ring[j] else ring[j + 1];
  }

  lemma KeysRemove(spine: seq<Node>, i: nat) returns (rest: seq<Node>)
    requires NoDup(KeysOf(spine)) && i < |spine|
    ensures rest == spine[..i] + spine[i + 1..]
    ensures forall j :: 0 <= j < |rest| ==> rest[j] == if j < i then spine[j] else spine[j + 1]
    ensures KeysOf(rest) == Without(KeysOf(spine), spine[i].key)
  {
    rest := RingRemove(spine, i);
    var order := KeysOf(spine);
    WithoutAt(order, i);
    assert KeysOf(spine[..i]) == order[..i] && KeysOf(spine[i + 1..]) == order[i + 1..];
    assert KeysOf(rest) == KeysOf(spine[..i]) + KeysOf(spine[i + 1..]);
  }

  lemma MapsRemove(nodes: map<Key, Node>, spine: seq<Node>, i: nat) returns (rest: seq<Node>)
    requires Maps(nodes, spine) && i < |spine|
    ensures rest == spine[..i] + spine[i + 1..]
    ensures Maps(nodes - {spine[i].key}, rest)
    ensures KeysOf(rest) == Without(KeysOf(spine), spine[i].key)
  {
    var order, key := KeysOf(spine), spine[i].key;
    rest := KeysRemove(spine, i);
    MinusNoDup(order, {key});
    KeysIn(KeysOf(rest));
    forall j | 0 <= j < |rest| ensures rest[j].key in nodes && rest[j].key != key {
      assert KeysOf(rest)[j] in KeysOf(rest);
    }
  }

  lemma RingWithout(head: Node, spine: seq<Node>, tail: Node, ring: seq<Node>, i: nat) returns (rest: seq<Node>)
    requires ring == [head] + spine + [tail] && i < |spine|
    ensures rest == [head] + (spine[..i] + spine[i + 1..]) + [tail] == ring[..i + 1] + ring[i + 2..]
    ensures forall j :: 0 <= j < |rest| ==> rest[j] == if j <= i then ring[j] else ring[j + 1]
    ensures Distinct(ring) ==> Distinct(rest) && ring[i + 1] !in rest
  {
    rest := RingRemove(ring, i + 1);
    assert ring[..i + 1] == [head] + spine[..i];
    assert ring[i + 2..] == spine[i + 1..] + [tail];
  }

  lemma RingWith(head: Node, spine: seq<Node>, tail: Node, ring: seq<Node>, i: nat, node: Node)
    returns (grown: seq<Node>)
    requires ring == [head] + spine + [tail] && 0 < i < |ring|
    requires Distinct(ring) && node !in ring
    ensures grown == [head] + (spine[..i - 1] + [node] + spine[i - 1..]) + [tail] == ring[..i] + [node] + ring[i..]
    ensures forall j :: 0 <= j < |grown| ==>
      grown[j] == if j < i then ring[j] else if j == i then node else ring[j - 1]
    ensures Distinct(grown)
  {
    grown := ring[..i] + [node] + ring[i..];
    assert ring[..i] == [head] + spine[..i - 1];
    assert ring[i..] == spine[i - 1..] + [tail];
    assert forall j :: 0 <= j < |grown| ==>
      grown[j] == if j < i then ring[j] else if j == i then node else ring[j - 1];
  }

  lemma MapsMove(nodes: map<Key, Node>, spine: seq<Node>, i: nat) returns (moved: seq<Node>)
    requires Maps(nodes, spine) && i < |spine|
    ensures moved == spine[..i] + spine[i + 1..] + [spine[i]]
    ensures Maps(nodes, moved)
    ensures KeysOf(moved) == Touch(KeysOf(spine), spine[i].key)
  {
    var key := spine[i].key;
    var rest := MapsRemove(nodes, spine, i);
    MapsAppend(nodes - {key}, rest, spine[i]);
    TouchWithout(KeysOf(spine), key);
    assert (nodes - {key})[key := spine[i]] == nodes;
    moved := rest + [spine[i]];
  }

  class LruChain {
    const head: Node
    const tail: Node
    var nodes: map<Key, Node>
    /** The nodes between the sentinels, least recently used first. */
    ghost var spine: seq<Node>
    ghost var repr: set<object>

    ghost function Ring(): seq<Node>
      reads this
    {
      [head] + spine + [tail]
    }

    ghost predicate Linked()
      reads this, repr
    {
      && this in repr && (forall n :: n in Ring() ==> n in repr)
      && Distinct(Ring()) && Links(Ring())
      && head.prev == null && tail.next == null
    }

    ghost predicate Valid()
      reads this, repr
      ensures Valid() ==> this in repr
    {
      Linked() && Maps(nodes, spine)
    }

    /** The abstract value: the keys, least recently used first. */
    ghost function Order(): seq<Key>
      reads this
    {
      KeysOf(spine)
    }

    constructor ()
      ensures Valid() && fresh(repr) && Order() == []
    {
      head := new Node("__head__");
      tail := new Node("__tail__");
      nodes := map[];
      spine := [];
      repr := {this, head, tail};
      new;
      head.next := tail;
      tail.prev := head;
    }

    method Contains(key: Key) returns (b: bool)
      requires Valid()
      ensures b <==> key in Keys(Order())
    {
      b := key in nodes;
    }

    method Length() returns (n: nat)
      requires Valid()
      ensures n == |Order()|
    {
      NoDupCardinality(Order());
      n := |nodes|;
    }

    method AppendMru(key: Key)
      requires Valid()
      modifies repr
      ensures Valid() && fresh(repr - old(repr))
      ensures Order() == Touch(old(Order()), key)
    {
      if key in nodes {
        MoveToMru(key);
      } else {
        AppendNew(key);
      }
    }

    method AppendNew(key: Key)
      requires Valid() && key !in nodes
      modifies repr
      ensures Valid() && fresh(repr - old(repr))
      ensures Order() == Touch(old(Order()), key)
    {
      var node := new Node(key);
      MapsAppend(nodes, spine, node);
      nodes := nodes[key := node];
      ghost var before := spine;
      InsertBefore(tail, node, |spine| + 1);
      assert spine == before + [node];
    }

    method MoveToMru(key: Key)
      requires Valid()
      modifies repr
      ensures Valid() && repr == old(repr)
      ensures Order() == if key in Keys(old(Order())) then Touch(old(Order()), key) else old(Order())
    {
      if key !in nodes {
        return;
      }
      var node := nodes[key];
      ghost var i := Position(nodes, spine, key);
      ghost var moved := MapsMove(nodes, spine, i);
      Unlink(node, i);
      InsertBefore(tail, node, |spine| + 1);
      assert spine == moved;
    }

    method Remove(key: Key)
      requires Valid()
      modifies repr
      ensures Valid() && repr == old(repr)
      ensures Order() == Without(old(Order()), key)
    {
      if key !in nodes {
        MinusAbsent(Order(), {key});
        return;
      }
      var node := nodes[key];
      ghost var i := Position(nodes, spine, key);
      ghost var rest := MapsRemove(nodes, spine, i);
      nodes := nodes - {key};
      Unlink(node, i);
    }

    method LruKey() returns (key: Option<Key>)
      requires Valid()
      ensures key == if Order() == [] then None else Some(Order()[0])
    {
      assert Ring()[0] == head && Ring()[0].next == Ring()[1];
      var node := head.next;
      if node == null || node == tail {
        assert Ring()[|Ring()| - 1] == tail;
        return None;
      }
      assert node == spine[0];
      return Some(node.key);
    }

    method PopLru() returns (key: Option<Key>)
      requires Valid()
      modifies repr
      ensures Valid() && repr == old(repr)
      ensures key == if old(Order()) == [] then None else Some(old(Order())[0])
      ensures Order() == if old(Order()) == [] then [] else old(Order())[1..]
    {
      key := LruKey();
      if key == None {
        return;
      }
      PopFirst(Order());
      Remove(key.value);
    }

    method Unlink(node: Node, ghost i: nat)
      requires Linked() && i < |spine| && spine[i] == node
      modifies repr
      ensures Linked() && nodes == old(nodes) && repr == old(repr)
      ensures spine == old(spine[..i] + spine[i + 1..])
      ensures node !in Ring() && node.prev == null && node.next == null
    {
      ghost var ring := Ring();
      ghost var rest := RingWithout(head, spine, tail, ring, i);
      assert ring[i + 1] == node && ring[i + 1].prev == ring[i] && ring[i + 1].next == ring[i + 2];
      var prevNode := node.prev;
      var nextNode := node.next;
      if prevNode != null {
        prevNode.next := nextNode;
      }
      if nextNode != null {
        nextNode.prev := prevNode;
      }
      assert Links(rest);
      node.prev := null;
      node.next := null;
      spine := spine[..i] + spine[i + 1..];
      assert Ring() == rest;
    }

    /** `anchor` sits at position `i` of the ring. */
    method InsertBefore(anchor: Node, node: Node, ghost i: nat)
      requires Linked() && 0 < i < |Ring()| && Ring()[i] == anchor
      requires node !in Ring()
      modifies repr, node
      ensures Linked() && nodes == old(nodes) && repr == old(repr) + {node}
      ensures spine == old(spine[..i - 1] + [node] + spine[i - 1..])
    {
      ghost var ring := Ring();
      ghost var grown := RingWith(head, spine, tail, ring, i, node);
      assert ring[i].prev == ring[i - 1] && ring[i - 1].next == ring[i];
      assert ring[i - 1] != tail by {
        assert ring[|ring| - 1] == tail;
      }
      assert ring[0] == head;
      var prevNode := anchor.prev;
      node.prev := prevNode;
      node.next := anchor;
      if prevNode != null {
        prevNode.next := node;
      }
      anchor.prev := node;
      assert Links(grown);
      spine := spine[..i - 1] + [node] + spine[i - 1..];
      repr := repr + {node};
      assert Ring() == grown;
    }
  }
}
