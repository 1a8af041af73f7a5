/** The recency list of the cache: a doubly linked list whose nodes are handed out as iterators, as
    `std::list` is used in src/cache.cpp. */
module RecencyList {

  /** The sequence without the first occurrence of `x`. */
  function Without<T(==)>(s: seq<T>, x: T): seq<T> {
    if s == [] then [] else if s[0] == x then s[1..] else [s[0]] + Without(s[1..], x)
  }

  lemma {:induction false} WithoutAt<T>(s: seq<T>, i: nat)
    requires i < |s| && forall j :: 0 <= j < i ==> s[j] != s[i]
    ensures Without(s, s[i]) == Cut(s, i)
  {
    if i > 0 {
      WithoutAt(s[1..], i - 1);
      assert s[1..][..i - 1] == s[1..i] && s[1..][i..] == s[i + 1..];
      assert s[..i] == [s[0]] + s[1..i];
    }
  }

  /** The sequence without position i. */
  function Cut<T>(s: seq<T>, i: nat): seq<T>
    requires i < |s|
  {
    s[..i] + s[i + 1..]
  }

  lemma {:induction false} CutAt<T>(s: seq<T>, i: nat)
    requires i < |s|
    ensures |Cut(s, i)| == |s| - 1
    ensures forall j :: 0 <= j < |s| - 1 ==> Cut(s, i)[j] == s[if j < i then j else j + 1]
  {
  }

  /** A sequence without repeats loses exactly the element cut. */
  lemma {:induction false} CutMembers<T>(s: seq<T>, i: nat)
    requires i < |s| && forall a, b :: 0 <= a < b < |s| ==> s[a] != s[b]
    ensures forall x :: x in Cut(s, i) <==> x in s && x != s[i]
  {
    CutAt(s, i);
    forall x | x in s && x != s[i] ensures x in Cut(s, i) {
      var k :| 0 <= k < |s| && s[k] == x;
      assert Cut(s, i)[if k < i then k else k - 1] == x;
    }
  }

  class Node<K> {
    const key: K
    var prev: Node?<K>
    var next: Node?<K>

    constructor (key: K)
      ensures this.key == key && prev == null && next == null
    {
      this.key := key;
      prev, next := null, null;
    }
  }

  class RecencyList<K(==)> {
    var head: Node?<K>
    var tail: Node?<K>
    ghost var nodes: seq<Node<K>>
    ghost var repr: set<Node<K>>

    /** The node at position i is linked to its neighbours in `nodes`. */
    ghost predicate Linked(i: int)
      requires 0 <= i < |nodes|
      reads this, nodes
    {
      && nodes[i].prev == (if i == 0 then null else nodes[i - 1])
      && nodes[i].next == (if i == |nodes| - 1 then null else nodes[i + 1])
    }

    ghost predicate Valid()
      reads this, repr
    {
      && head == (if nodes == [] then null else nodes[0])
      && tail == (if nodes == [] then null else nodes[|nodes| - 1])
      && (forall i, j :: 0 <= i < j < |nodes| ==> nodes[i] != nodes[j])
      && (forall i :: 0 <= i < |nodes| ==> nodes[i] in repr)
      && (forall i :: 0 <= i < |nodes| ==> Linked(i))
    }

    constructor ()
      ensures Valid() && nodes == [] && repr == {}
    {
      head, tail, nodes, repr := null, null, [], {};
    }

    /** Linking a detached node in behind the last one. */
    method Append(n: Node<K>)
      requires Valid() && n !in repr
      modifies this, repr, n
      ensures Valid() && nodes == old(nodes) + [n] && repr == old(repr) + {n}
    {
      ghost var last := |nodes|;
      n.prev := tail;
      n.next := null;
      if tail == null { head := n; } else { tail.next := n; }
      tail := n;
      nodes := nodes + [n];
      repr := repr + {n};
      forall i | 0 <= i < |nodes| ensures Linked(i) {
        if i < last { assert old(Linked(i)); }
      }
    }

    method PushBack(key: K) returns (n: Node<K>)
      requires Valid()
      modifies this, repr
      ensures Valid() && fresh(n) && n.key == key && nodes == old(nodes) + [n] && repr == old(repr) + {n}
    {
      n := new Node(key);
      Append(n);
    }

    /** Unlinking a node found through its iterator; the search is ghost. */
    method Erase(n: Node<K>)
      requires Valid() && n in nodes
      modifies this, repr
      ensures Valid() && nodes == Without(old(nodes), n) && repr == old(repr) - {n}
      ensures forall x :: x in nodes <==> x in old(nodes) && x != n
    {
      hide Without, Cut;
      ghost var i :| 0 <= i < |nodes| && nodes[i] == n;
      WithoutAt(nodes, i);
      CutMembers(nodes, i);
      Unlink(n, i);
    }

    /** The pointer surgery alone: the neighbours of the node point past it. */
    method Bypass(n: Node<K>, ghost i: nat)
      requires Valid() && i < |nodes| && nodes[i] == n
      modifies `head, `tail, repr
      ensures head == (if i == 0 then old(n.next) else old(head))
      ensures tail == (if i == |nodes| - 1 then old(n.prev) else old(tail))
      ensures forall k ::
        0 <= k < |nodes| && k != i ==> nodes[k].prev == if k == i + 1 then old(n.prev) else old(nodes[k].prev)
      ensures forall k ::
        0 <= k < |nodes| && k != i ==> nodes[k].next == if k == i - 1 then old(n.next) else old(nodes[k].next)
    {
      assert Linked(i);
      var p, q := n.prev, n.next;
      if p == null { head := q; } else { p.next := q; }
      if q == null { tail := p; } else { q.prev := p; }
    }

    method Unlink(n: Node<K>, ghost i: nat)
      requires Valid() && i < |nodes| && nodes[i] == n
      modifies this, repr
      ensures Valid() && nodes == Cut(old(nodes), i) && repr == old(repr) - {n}
    {
      hide Cut;
      ghost var before := nodes;
      CutAt(nodes, i);
      Bypass(n, i);
      nodes := Cut(nodes, i);
      repr := repr - {n};
      assert old(Linked(i));
      forall j | 0 <= j < |nodes| ensures Linked(j) {
        ghost var k := if j < i then j else j + 1;
        assert old(Linked(k));
        assert nodes[j] == before[k];
      }
    }

    /** `splice` to the end: the same node, now most recent. */
    method MoveToBack(n: Node<K>)
      requires Valid() && n in nodes
      modifies this, repr
      ensures Valid() && nodes == Without(old(nodes), n) + [n] && repr == old(repr)
      ensures forall x :: x in nodes <==> x in old(nodes)
    {
      Erase(n);
      Append(n);
    }

    /** `pop_front`. */
    method PopFront() returns (key: K)
      requires Valid() && nodes != []
      modifies this, repr
      ensures Valid() && key == old(nodes)[0].key && nodes == old(nodes)[1..] && repr == old(repr) - {old(nodes)[0]}
      ensures forall x :: x in nodes <==> x in old(nodes) && x != old(nodes)[0]
    {
      key := head.key;
      assert Cut(nodes, 0) == nodes[1..];
      CutMembers(nodes, 0);
      Unlink(head, 0);
    }
  }
}
