/** The answer cache as it is built: a table whose slots hold iterators into a linked recency list
    (`DnsCache` of src/cache.cpp). Every method is proved against the abstract cache of module Lru. */
module Cache {
  import opened Wire
  import opened Parser
  import opened Ttl
  import opened RecencyList
  import opened Lru

  datatype Slot = Slot(entry: Entry, node: Node<Key>)

  ghost function KeysOf(nodes: seq<Node<Key>>): seq<Key> {
    seq(|nodes|, i requires 0 <= i < |nodes| => nodes[i].key)
  }

  ghost function EntriesOf(table: map<Key, Slot>): map<Key, Entry> {
    map k | k in table :: table[k].entry
  }

  lemma {:induction false} EntriesSize(table: map<Key, Slot>)
    ensures |EntriesOf(table)| == |table|
  {
    assert EntriesOf(table).Keys == table.Keys;
  }

  lemma {:induction false} EntriesMinus(table: map<Key, Slot>, key: Key)
    ensures EntriesOf(table - {key}) == EntriesOf(table) - {key}
  {
  }

  lemma {:induction false} EntriesPlus(table: map<Key, Slot>, key: Key, slot: Slot)
    ensures EntriesOf(table[key := slot]) == EntriesOf(table)[key := slot.entry]
  {
  }

  lemma {:induction false} EntryAt(table: map<Key, Slot>, key: Key)
    ensures key in EntriesOf(table) <==> key in table
    ensures key in table ==> EntriesOf(table)[key] == table[key].entry
  {
  }

  lemma {:induction false} KeysWithout(nodes: seq<Node<Key>>, n: Node<Key>)
    requires n in nodes && forall x :: x in nodes && x.key == n.key ==> x == n
    ensures KeysOf(Without(nodes, n)) == Without(KeysOf(nodes), n.key)
  {
    var keys := KeysOf(nodes);
    assert KeysOf(nodes[1..]) == keys[1..];
    if nodes[0] != n {
      assert nodes[0].key != n.key;
      KeysWithout(nodes[1..], n);
      assert KeysOf([nodes[0]] + Without(nodes[1..], n)) == [nodes[0].key] + KeysOf(Without(nodes[1..], n));
    }
  }

  lemma {:induction false} KeysTail(nodes: seq<Node<Key>>)
    requires nodes != []
    ensures |KeysOf(nodes)| == |nodes| && KeysOf(nodes)[0] == nodes[0].key && KeysOf(nodes)[1..] == KeysOf(nodes[1..])
  {
  }

  lemma {:induction false} KeysSnoc(nodes: seq<Node<Key>>, n: Node<Key>)
    ensures KeysOf(nodes + [n]) == KeysOf(nodes) + [n.key]
  {
  }

  /** Setting the transaction id. */
  function WithId(p: Packet, id: U16): (r: Packet)
    ensures |r| == |p|
  {
    if |p| >= 2 then Patch(p, 0, U16Bytes(id)) else p
  }

  /** The bytes served for an entry. */
  function ServedBytes(e: Entry, now: int, id: U16): Packet
    requires Fresh(e, now)
  {
    WithId(Rewritten(e.response, e.offsets, Served(e, now)), id)
  }

  class DnsCache {
    const maxEntries: nat
    const lru: RecencyList<Key>
    var table: map<Key, Slot>
    var hits: nat
    var misses: nat
    var inserts: nat
    var evictions: nat
    var swept: nat
    ghost var lapsed: nat
    ghost var replaced: nat

    /** Each slot's iterator is a node of the list that carries the slot's own key, and each node of the
        list belongs to the slot of its key. */
    ghost predicate Valid()
      reads `table, lru, lru.repr
    {
      && lru.Valid()
      && (forall k :: k in table ==> table[k].node in lru.nodes && table[k].node.key == k)
      && (forall n :: n in lru.nodes ==> n.key in table && table[n.key].node == n)
    }

    ghost function Value(): State
      reads this, lru
    {
      State(KeysOf(lru.nodes), EntriesOf(table), Counts(hits, misses, inserts, evictions, swept, lapsed, replaced))
    }

    /** The keys of the table are the elements of the list, each once. */
    lemma {:induction false} ValidIsConsistent()
      requires Valid()
      ensures Consistent(Value())
    {
      hide EntriesOf, RecencyList.Linked;
      var order := KeysOf(lru.nodes);
      assert forall i :: 0 <= i < |order| ==> order[i] == lru.nodes[i].key && lru.nodes[i] in lru.nodes;
      forall k ensures k in order <==> k in EntriesOf(table) {
        EntryAt(table, k);
        if k in table {
          var i :| 0 <= i < |lru.nodes| && lru.nodes[i] == table[k].node;
          assert order[i] == k;
        }
      }
      SameSize(order, EntriesOf(table));
    }

    constructor (maxEntries: nat)
      ensures Valid() && Value() == EMPTY && this.maxEntries == maxEntries && fresh(lru) && lru.repr == {}
    {
      this.maxEntries := maxEntries;
      lru := new RecencyList<Key>();
      table, hits, misses, inserts, evictions, swept, lapsed, replaced := map[], 0, 0, 0, 0, 0, 0, 0;
    }

    /** Erasing a slot and its list node. */
    method Drop(key: Key)
      requires Valid() && key in table
      modifies `table, lru, lru.repr
      ensures Valid() && Value() == Removed(old(Value()), key)
      ensures lru.repr <= old(lru.repr) && table.Keys == old(table.Keys) - {key}
    {
      hide Without, KeysOf, EntriesOf, RecencyList.Valid;
      var n := table[key].node;
      KeysWithout(lru.nodes, n);
      assert forall x :: x in lru.nodes && x != n ==> x.key != key;
      lru.Erase(n);
      table := table - {key};
      EntriesMinus(old(table), key);
    }

    /** `evict_one_locked` on a non-empty list. */
    method EvictFront()
      requires Valid() && lru.nodes != []
      modifies `table, `evictions, lru, lru.repr
      ensures Valid() && KeysOf(old(lru.nodes)) != [] && Value() == EvictOne(old(Value()))
      ensures lru.repr <= old(lru.repr) && table.Keys <= old(table.Keys) && |lru.nodes| == |old(lru.nodes)| - 1
    {
      hide RecencyList.Valid, KeysOf, EntriesOf;
      ghost var front := lru.nodes[0];
      assert front in lru.nodes;
      KeysTail(lru.nodes);
      var victim := lru.PopFront();
      if victim in table { table := table - {victim}; }
      evictions := evictions + 1;
      EntriesMinus(old(table), victim);
    }

    /** A new slot at the recent end. */
    method AddSlot(key: Key, e: Entry)
      requires Valid() && key !in table
      modifies `table, `inserts, lru, lru.repr
      ensures Valid()
      ensures Value() == State(old(Value()).order + [key], old(Value()).entries[key := e],
                               old(Value()).counts.(inserts := old(inserts) + 1))
    {
      hide RecencyList.Valid, KeysOf, EntriesOf;
      ghost var before := lru.nodes;
      var n := lru.PushBack(key);
      KeysSnoc(before, n);
      table := table[key := Slot(e, n)];
      inserts := inserts + 1;
      EntriesPlus(old(table), key, Slot(e, n));
    }

    lemma {:induction false} SlotsNeedNodes()
      requires Valid() && |table| > 0
      ensures lru.nodes != []
    {
      var k :| k in table;
      assert table[k].node in lru.nodes;
    }

    /** Making room: evict from the front until a slot is free. */
    method MakeSpace()
      requires Valid() && maxEntries >= 1
      modifies `table, `evictions, lru, lru.repr
      ensures Valid() && Value() == MakeRoom(old(Value()), maxEntries)
      ensures lru.repr <= old(lru.repr) && table.Keys <= old(table.Keys)
    {
      hide KeysOf, EvictOne, Valid, EntriesOf;
      while |table| >= maxEntries
        invariant Valid() && lru.repr <= old(lru.repr) && table.Keys <= old(table.Keys)
        invariant MakeRoom(Value(), maxEntries) == MakeRoom(old(Value()), maxEntries)
        decreases |lru.nodes|
      {
        EntriesSize(table);
        SlotsNeedNodes();
        EvictFront();
      }
      EntriesSize(table);
    }

    /** `insert`: skip, drop what is there, make room, add at the recent end. */
    method Insert(key: Key, response: Packet, parsed: Message, ttl: int, now: int)
      requires Valid() && maxEntries >= 1
      modifies this, lru, lru.repr
      ensures Valid()
      ensures Value() == Step(old(Value()), maxEntries, InsertOp(now, key, response, TtlOffsets(parsed.Records()), ttl))
    {
      hide KeysOf, EntriesOf, Valid, Removed, MakeRoom, TtlOffsets;
      if ttl <= 0 { return; }
      var offsets := CollectTtlOffsets(parsed);
      var e := Entry(response, offsets, now + ttl * SECOND);
      EntryAt(table, key);
      if key in table {
        Drop(key);
        replaced := replaced + 1;
      }
      MakeSpace();
      AddSlot(key, e);
    }

    /** Moving a slot's node to the recent end. */
    method Promote(key: Key)
      requires Valid() && key in table
      modifies lru, lru.repr
      ensures Valid() && KeysOf(lru.nodes) == Without(KeysOf(old(lru.nodes)), key) + [key]
    {
      hide Without, KeysOf, EntriesOf, RecencyList.Valid;
      var n := table[key].node;
      KeysWithout(lru.nodes, n);
      KeysSnoc(Without(lru.nodes, n), n);
      lru.MoveToBack(n);
    }

    /** `lookup`: a miss, an expired entry dropped on the way, or a hit served from a copy. */
    method Lookup(key: Key, clientId: U16, now: int) returns (r: Option<Packet>)
      requires Valid()
      modifies this, lru, lru.repr
      ensures Valid() && Value() == Lru.Lookup(old(Value()), key, now)
      ensures r == match Hit(old(Value()), key, now)
        case None => None
        case Some(e) => Some(ServedBytes(e, now, clientId))
    {
      hide KeysOf, EntriesOf, Valid, Without, Served, Rewritten, U16Bytes;
      EntryAt(table, key);
      if key !in table {
        misses := misses + 1;
        return None;
      }
      var e := table[key].entry;
      if e.expiresAt <= now {
        Drop(key);
        misses := misses + 1;
        lapsed := lapsed + 1;
        return None;
      }
      Promote(key);
      hits := hits + 1;
      var copy := new Byte[|e.response|](i requires 0 <= i < |e.response| => e.response[i]);
      assert copy[..] == e.response;
      RewriteTtls(copy, e.offsets, Served(e, now));
      if copy.Length >= 2 {
        ghost var before := copy[..];
        var b := U16Bytes(clientId);
        copy[0], copy[1] := b[0], b[1];
        assert copy[..] == Patch(before, 0, b);
      }
      return Some(copy[..]);
    }

    /** `sweep_expired`: every slot is visited once, in whatever order the table gives. */
    method SweepExpired(now: int) returns (n: nat)
      requires Valid()
      modifies this, lru, lru.repr
      ensures Valid() && Value() == Sweep(old(Value()), now)
      ensures n == |old(Value()).entries| - |Value().entries|
    {
      hide KeysOf, EntriesOf, Valid, Consistent, Restricted;
      ValidIsConsistent();
      n := 0;
      ghost var start := Value();
      ghost var kept := table.Keys;
      var todo := table.Keys;
      RestrictAll(start);
      EntriesSize(table);
      assert EntriesOf(table).Keys == table.Keys by {
        forall k ensures k in EntriesOf(table) <==> k in table { EntryAt(table, k); }
      }
      while todo != {}
        invariant Valid() && todo <= kept == table.Keys && kept <= start.entries.Keys && lru.repr <= old(lru.repr)
        invariant Value() == Restricted(start, kept)
        invariant forall k :: k in start.entries ==> (k in kept <==> k in todo || Fresh(start.entries[k], now))
        invariant |kept| + n == |start.entries|
        decreases todo
      {
        var k :| k in todo;
        todo := todo - {k};
        EntryAt(table, k);
        RestrictedEntry(start, kept, k);
        if table[k].entry.expiresAt <= now {
          RestrictedRemoved(start, kept, k);
          Drop(k);
          kept := kept - {k};
          n := n + 1;
        }
      }
      RestrictedFresh(start, kept, now);
      if n != 0 { swept := swept + n; }
    }
  }

  /** A state cut down to some of its keys. */
  ghost function Restricted(s: State, keys: set<Key>): State {
    s.(order := Keep(s.order, keys), entries := map k | k in s.entries && k in keys :: s.entries[k])
  }

  lemma {:induction false} RestrictAll(s: State)
    requires Consistent(s)
    ensures Restricted(s, s.entries.Keys) == s
  {
    hide Distinct;
    KeepAll(s.order, s.entries.Keys);
  }

  lemma {:induction false} KeepAll(order: seq<Key>, keys: set<Key>)
    requires forall k :: k in order ==> k in keys
    ensures Keep(order, keys) == order
  {
    if order != [] { KeepAll(order[1..], keys); }
  }

  lemma {:induction false} RestrictedEntry(s: State, keys: set<Key>, key: Key)
    requires key in keys && key in s.entries
    ensures key in Restricted(s, keys).entries && Restricted(s, keys).entries[key] == s.entries[key]
  {
  }

  lemma {:induction false} KeepWithout(order: seq<Key>, keys: set<Key>, key: Key)
    requires Distinct(order)
    ensures Keep(order, keys - {key}) == Without(Keep(order, keys), key)
  {
    if order != [] {
      KeepWithout(order[1..], keys, key);
      if order[0] == key {
        KeepMissing(order[1..], keys, key);
      }
    }
  }

  lemma {:induction false} KeepMissing(order: seq<Key>, keys: set<Key>, key: Key)
    requires key !in order
    ensures Keep(order, keys - {key}) == Keep(order, keys)
  {
    if order != [] { KeepMissing(order[1..], keys, key); }
  }

  lemma {:induction false} RestrictedRemoved(s: State, keys: set<Key>, key: Key)
    requires Consistent(s) && key in keys
    ensures Removed(Restricted(s, keys), key) == Restricted(s, keys - {key})
  {
    hide Distinct, Keep, Without;
    KeepWithout(s.order, keys, key);
    assert Restricted(s, keys).entries - {key} == Restricted(s, keys - {key}).entries;
  }

  lemma {:induction false} RestrictedFresh(s: State, keys: set<Key>, now: int)
    requires keys <= s.entries.Keys && forall k :: k in s.entries ==> (k in keys <==> Fresh(s.entries[k], now))
    ensures var left := FreshEntries(s.entries, now);
      left.Keys == keys && Restricted(s, keys) == s.(order := Keep(s.order, left.Keys), entries := left)
        && |left| == |keys|
  {
    hide Keep;
    var left := FreshEntries(s.entries, now);
    assert left.Keys == keys;
    assert left == Restricted(s, keys).entries;
  }
}
