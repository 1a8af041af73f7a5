/** What the cache is meant to be: a map with a recency order, and what holds of it over every run. */
module Lru {
  import opened Wire
  import opened RecencyList

  datatype Key = Key(qname: Name, qtype: U16, qclass: U16)

  datatype Entry = Entry(response: Packet, offsets: seq<nat>, expiresAt: int)

  /** `lapsed` and `replaced` are not counted by the source; they make the books balance. */
  datatype Counts = Counts(hits: nat, misses: nat, inserts: nat, evictions: nat, swept: nat, lapsed: nat, replaced: nat)

  /** `order` runs from the least to the most recently used key. */
  datatype State = State(order: seq<Key>, entries: map<Key, Entry>, counts: Counts)

  const EMPTY := State([], map[], Counts(0, 0, 0, 0, 0, 0, 0))

  /** Clock ticks in a second. */
  const SECOND := 1_000_000_000

  function Removed(s: State, key: Key): State {
    s.(order := Without(s.order, key), entries := s.entries - {key})
  }

  function EvictOne(s: State): State
    requires s.order != []
  {
    s.(order := s.order[1..], entries := s.entries - {s.order[0]},
       counts := s.counts.(evictions := s.counts.evictions + 1))
  }

  /** Evicting until there is room for one more. */
  function MakeRoom(s: State, max: nat): State
    decreases |s.order|
  {
    if |s.entries| >= max && s.order != [] then MakeRoom(EvictOne(s), max) else s
  }

  function Insert(s: State, max: nat, key: Key, e: Entry): State {
    var dropped :=
      if key in s.entries then Removed(s, key).(counts := s.counts.(replaced := s.counts.replaced + 1)) else s;
    var room := MakeRoom(dropped, max);
    State(room.order + [key], room.entries[key := e], room.counts.(inserts := room.counts.inserts + 1))
  }

  predicate Fresh(e: Entry, now: int) { e.expiresAt > now }

  function Hit(s: State, key: Key, now: int): Option<Entry> {
    if key in s.entries && Fresh(s.entries[key], now) then Some(s.entries[key]) else None
  }

  function Lookup(s: State, key: Key, now: int): State {
    if key !in s.entries then s.(counts := s.counts.(misses := s.counts.misses + 1))
    else if !Fresh(s.entries[key], now) then
      Removed(s, key).(counts := s.counts.(misses := s.counts.misses + 1, lapsed := s.counts.lapsed + 1))
    else s.(order := Without(s.order, key) + [key], counts := s.counts.(hits := s.counts.hits + 1))
  }

  /** The keys of a sequence that are in a set, in order. */
  function Keep(order: seq<Key>, keys: set<Key>): seq<Key> {
    if order == [] then []
    else if order[0] in keys then [order[0]] + Keep(order[1..], keys)
    else Keep(order[1..], keys)
  }

  function FreshEntries(m: map<Key, Entry>, now: int): map<Key, Entry> {
    map k | k in m && Fresh(m[k], now) :: m[k]
  }

  function Sweep(s: State, now: int): State {
    var left := FreshEntries(s.entries, now);
    var gone := |s.entries| - |left|;
    State(Keep(s.order, left.Keys), left, s.counts.(swept := s.counts.swept + (if gone > 0 then gone else 0)))
  }

  // ----- the invariant -----

  ghost predicate Consistent(s: State) {
    && Distinct(s.order)
    && (forall k :: k in s.order <==> k in s.entries)
    && |s.order| == |s.entries|
  }

  /** Everything ever inserted is still there or accounted for. */
  predicate Balanced(s: State) {
    var c := s.counts;
    c.inserts == |s.entries| + c.evictions + c.swept + c.lapsed + c.replaced
  }

  /** A sequence without repeats loses exactly the element removed. */
  lemma {:induction false} WithoutMembers(order: seq<Key>, key: Key)
    requires Distinct(order) && key in order
    ensures Distinct(Without(order, key)) && |Without(order, key)| == |order| - 1
    ensures forall x :: x in Without(order, key) <==> x in order && x != key
  {
    hide Without;
    var i :| 0 <= i < |order| && order[i] == key;
    WithoutAt(order, i);
    CutAt(order, i);
    forall x | x in order && x != key ensures x in Cut(order, i) {
      var k :| 0 <= k < |order| && order[k] == x;
      assert Cut(order, i)[if k < i then k else k - 1] == x;
    }
  }

  lemma {:induction false} SnocMembers(order: seq<Key>, key: Key)
    requires Distinct(order) && key !in order
    ensures Distinct(order + [key])
    ensures forall x :: x in order + [key] <==> x in order || x == key
  {
  }

  lemma {:induction false} RemovedConsistent(s: State, key: Key)
    requires Consistent(s) && key in s.entries
    ensures Consistent(Removed(s, key)) && |Removed(s, key).entries| == |s.entries| - 1
  {
    hide Without, Distinct;
    WithoutMembers(s.order, key);
    assert s.entries.Keys == (s.entries - {key}).Keys + {key};
  }

  lemma {:induction false} EvictConsistent(s: State)
    requires Consistent(s) && s.order != []
    ensures Consistent(EvictOne(s)) && |EvictOne(s).entries| == |s.entries| - 1
    ensures Balanced(s) ==> Balanced(EvictOne(s))
  {
    hide Distinct;
    assert s.order[0] in s.order;
    RemovedConsistent(s, s.order[0]);
    assert Without(s.order, s.order[0]) == s.order[1..];
  }

  lemma {:induction false} MakeRoomConsistent(s: State, max: nat)
    requires Consistent(s) && max >= 1
    ensures var r := MakeRoom(s, max);
      && Consistent(r) && |r.entries| < max && (Balanced(s) ==> Balanced(r))
      && (forall k :: k in r.entries ==> k in s.entries && r.entries[k] == s.entries[k])
    decreases |s.order|
  {
    hide Distinct;
    if |s.entries| >= max && s.order != [] {
      EvictConsistent(s);
      MakeRoomConsistent(EvictOne(s), max);
    }
  }

  lemma {:induction false} InsertConsistent(s: State, max: nat, key: Key, e: Entry)
    requires Consistent(s) && Balanced(s) && max >= 1
    ensures var r := Insert(s, max, key, e); Consistent(r) && Balanced(r) && |r.entries| <= max
  {
    hide MakeRoom, Without, Distinct;
    if key in s.entries { RemovedConsistent(s, key); }
    var dropped :=
      if key in s.entries then Removed(s, key).(counts := s.counts.(replaced := s.counts.replaced + 1)) else s;
    MakeRoomConsistent(dropped, max);
    AppendConsistent(MakeRoom(dropped, max), key, e);
  }

  lemma {:induction false} AppendConsistent(s: State, key: Key, e: Entry)
    requires Consistent(s) && key !in s.entries
    ensures Consistent(State(s.order + [key], s.entries[key := e], s.counts))
      && |s.entries[key := e]| == |s.entries| + 1
  {
    hide Distinct;
    SnocMembers(s.order, key);
    assert s.entries[key := e].Keys == s.entries.Keys + {key};
  }

  lemma {:induction false} LookupConsistent(s: State, key: Key, now: int)
    requires Consistent(s) && Balanced(s)
    ensures var r := Lookup(s, key, now); Consistent(r) && Balanced(r) && |r.entries| <= |s.entries|
  {
    hide Without, Distinct;
    if key in s.entries {
      RemovedConsistent(s, key);
      if Fresh(s.entries[key], now) {
        AppendConsistent(Removed(s, key), key, s.entries[key]);
        assert (s.entries - {key})[key := s.entries[key]] == s.entries;
      }
    }
  }

  lemma {:induction false} KeepMembers(order: seq<Key>, keys: set<Key>)
    requires Distinct(order)
    ensures forall k :: k in Keep(order, keys) <==> k in order && k in keys
    ensures Distinct(Keep(order, keys))
  {
    if order != [] {
      KeepMembers(order[1..], keys);
      assert forall k :: k in order <==> k == order[0] || k in order[1..];
    }
  }

  /** Distinct keys in a sequence are as many as the map has entries. */
  lemma {:induction false} SameSize(order: seq<Key>, m: map<Key, Entry>)
    requires Distinct(order)
    requires forall k :: k in order <==> k in m
    ensures |order| == |m|
  {
    if order == [] {
      assert m == map[];
    } else {
      var rest := m - {order[0]};
      assert m.Keys == rest.Keys + {order[0]};
      forall k | k in rest ensures k in order[1..] {
        var i :| 0 <= i < |order| && order[i] == k;
        assert order[1..][i - 1] == k;
      }
      SameSize(order[1..], rest);
    }
  }

  lemma {:induction false} SweepConsistent(s: State, now: int)
    requires Consistent(s) && Balanced(s)
    ensures var r := Sweep(s, now); Consistent(r) && Balanced(r) && |r.entries| <= |s.entries|
  {
    hide Keep, Distinct;
    var left := FreshEntries(s.entries, now);
    KeepMembers(s.order, left.Keys);
    SameSize(Keep(s.order, left.Keys), left);
    assert left.Keys <= s.entries.Keys;
    SubsetSize(left.Keys, s.entries.Keys);
  }

  lemma {:induction false} SubsetSize(a: set<Key>, b: set<Key>)
    requires a <= b
    ensures |a| <= |b|
  {
    assert b == a + (b - a);
  }

  // ----- runs -----

  datatype Op =
    | InsertOp(now: int, key: Key, response: Packet, offsets: seq<nat>, ttl: int)
    | LookupOp(now: int, key: Key)
    | SweepOp(now: int)

  /** `insert` skips a lifetime that is not positive. */
  predicate Stores(op: Op, key: Key) { op.InsertOp? && op.key == key && op.ttl > 0 }

  function EntryOf(op: Op): Entry
    requires op.InsertOp?
  {
    Entry(op.response, op.offsets, op.now + op.ttl * SECOND)
  }

  function Step(s: State, max: nat, op: Op): State {
    match op
    case InsertOp(_, key, _, _, ttl) => if ttl <= 0 then s else Insert(s, max, key, EntryOf(op))
    case LookupOp(now, key) => Lookup(s, key, now)
    case SweepOp(now) => Sweep(s, now)
  }

  /** The cache after a run, from empty. */
  function After(max: nat, ops: seq<Op>): State {
    if ops == [] then EMPTY else Step(After(max, ops[..|ops| - 1]), max, ops[|ops| - 1])
  }

  /** Over every run: keys and recency order agree and hold no repeats, the size never passes the limit,
      and inserts = size + evictions + swept + lapsed + replaced. */
  lemma {:induction false} RunInvariant(max: nat, ops: seq<Op>)
    requires max >= 1
    ensures var s := After(max, ops); Consistent(s) && Balanced(s) && |s.entries| <= max
  {
    if ops != [] {
      hide Insert, Lookup, Sweep, Distinct, Balanced, Consistent;
      RunInvariant(max, ops[..|ops| - 1]);
      var s := After(max, ops[..|ops| - 1]);
      var op := ops[|ops| - 1];
      match op {
        case InsertOp(_, key, _, _, ttl) => InsertConsistent(s, max, key, EntryOf(op));
        case LookupOp(now, key) => LookupConsistent(s, key, now);
        case SweepOp(now) => SweepConsistent(s, now);
      }
    }
  }

  // ----- a hit is the latest insert -----

  /** Index of the last operation that stored something for the key, or -1. */
  function LatestInsert(ops: seq<Op>, key: Key): (j: int)
    ensures -1 <= j < |ops|
    ensures j >= 0 ==> Stores(ops[j], key)
  {
    if ops == [] then -1
    else if Stores(ops[|ops| - 1], key) then |ops| - 1
    else LatestInsert(ops[..|ops| - 1], key)
  }

  /** One operation leaves an entry alone, drops it, or stores it. */
  lemma {:induction false} StepEntry(s: State, max: nat, op: Op, key: Key)
    requires Consistent(s) && max >= 1
    ensures var r := Step(s, max, op);
      && (Stores(op, key) ==> key in r.entries && r.entries[key] == EntryOf(op))
      && (!Stores(op, key) && key in r.entries ==> key in s.entries && r.entries[key] == s.entries[key])
  {
    hide MakeRoom, Without, Distinct, Keep;
    if op.InsertOp? && op.ttl > 0 {
      if op.key in s.entries { RemovedConsistent(s, op.key); }
      var dropped :=
        if op.key in s.entries then Removed(s, op.key).(counts := s.counts.(replaced := s.counts.replaced + 1)) else s;
      MakeRoomConsistent(dropped, max);
    }
  }

  /** Whatever happened in between, an entry is what was last stored under its key. */
  lemma {:induction false} EntryIsLatestInsert(max: nat, ops: seq<Op>, key: Key)
    requires max >= 1 && key in After(max, ops).entries
    ensures LatestInsert(ops, key) >= 0 && After(max, ops).entries[key] == EntryOf(ops[LatestInsert(ops, key)])
  {
    hide Step, Consistent, EntryOf;
    var init := ops[..|ops| - 1];
    RunInvariant(max, init);
    StepEntry(After(max, init), max, ops[|ops| - 1], key);
    if !Stores(ops[|ops| - 1], key) { EntryIsLatestInsert(max, init, key); }
  }

  /** The TTL served for an entry: whole seconds left, as far as 32 bits go. */
  function Served(e: Entry, now: int): (ttl: U32)
    requires Fresh(e, now)
  {
    var left := (e.expiresAt - now) / SECOND;
    if left > 0xFFFF_FFFF then 0xFFFF_FFFF else left
  }

  /** As many whole seconds as fit into what is left, or as many as 32 bits can say. */
  predicate WholeSeconds(ttl: int, left: int) {
    ttl * SECOND <= left && (left < (ttl + 1) * SECOND || ttl == 0xFFFF_FFFF)
  }

  lemma {:induction false} ServedExactly(e: Entry, now: int)
    requires Fresh(e, now)
    ensures WholeSeconds(Served(e, now), e.expiresAt - now)
  {
    var left := (e.expiresAt - now) / SECOND;
    assert left * SECOND <= e.expiresAt - now < (left + 1) * SECOND;
  }

  /** When what was last stored under the key expires. */
  function Expiry(ops: seq<Op>, key: Key): int
    requires LatestInsert(ops, key) >= 0
  {
    var op := ops[LatestInsert(ops, key)];
    op.now + op.ttl * SECOND
  }

  /** In every run, a hit is the latest thing stored under the key, served with exactly the whole seconds that are
      left of its lifetime. */
  lemma {:induction false} HitIsLatest(max: nat, ops: seq<Op>, key: Key, now: int)
    requires max >= 1 && Hit(After(max, ops), key, now).Some?
    ensures var e := Hit(After(max, ops), key, now).value; var j := LatestInsert(ops, key);
      && j >= 0 && e == EntryOf(ops[j]) && Expiry(ops, key) > now
      && WholeSeconds(Served(e, now), Expiry(ops, key) - now)
      && (ops[j].now <= now ==> Served(e, now) <= ops[j].ttl)
  {
    hide After, LatestInsert, Served;
    EntryIsLatestInsert(max, ops, key);
    ServedExactly(Hit(After(max, ops), key, now).value, now);
  }

  // ----- the order is the order of last use -----

  /** The operation uses the key: it stores it, or looks it up and hits. */
  predicate Touches(s: State, op: Op, key: Key) {
    Stores(op, key) || (op.LookupOp? && op.key == key && Hit(s, key, op.now).Some?)
  }

  /** Index of the last operation that used the key, or -1. */
  function LastTouch(max: nat, ops: seq<Op>, key: Key): (j: int)
    ensures -1 <= j < |ops|
  {
    if ops == [] then -1
    else if Touches(After(max, ops[..|ops| - 1]), ops[|ops| - 1], key) then |ops| - 1
    else LastTouch(max, ops[..|ops| - 1], key)
  }

  ghost predicate Increasing(order: seq<Key>, rank: Key -> int) {
    forall a, b :: 0 <= a < b < |order| ==> rank(order[a]) < rank(order[b])
  }

  /** The first key is below all that follow. */
  lemma {:induction false} HeadIsLeast(order: seq<Key>, rank: Key -> int, x: Key)
    requires Increasing(order, rank) && order != [] && x in order && x != order[0]
    ensures rank(order[0]) < rank(x)
  {
    var i :| 0 <= i < |order| && order[i] == x;
  }

  lemma {:induction false} ConsIncreasing(x: Key, order: seq<Key>, rank: Key -> int)
    requires Increasing(order, rank) && forall y :: y in order ==> rank(x) < rank(y)
    ensures Increasing([x] + order, rank)
  {
    assert forall y :: y in order ==> rank(x) < rank(y);
  }

  lemma {:induction false} TailAbove(order: seq<Key>, rank: Key -> int)
    requires Increasing(order, rank) && order != []
    ensures Increasing(order[1..], rank) && forall y :: y in order[1..] ==> rank(order[0]) < rank(y)
  {
  }

  lemma {:induction false} WithoutIncreasing(order: seq<Key>, key: Key, rank: Key -> int)
    requires Increasing(order, rank)
    ensures Increasing(Without(order, key), rank) && forall x :: x in Without(order, key) ==> x in order
  {
    if order != [] {
      hide Increasing;
      TailAbove(order, rank);
      WithoutIncreasing(order[1..], key, rank);
      if order[0] != key { ConsIncreasing(order[0], Without(order[1..], key), rank); }
    }
  }

  lemma {:induction false} KeepIncreasing(order: seq<Key>, keys: set<Key>, rank: Key -> int)
    requires Increasing(order, rank)
    ensures Increasing(Keep(order, keys), rank) && forall x :: x in Keep(order, keys) ==> x in order
  {
    if order != [] {
      hide Increasing;
      TailAbove(order, rank);
      KeepIncreasing(order[1..], keys, rank);
      if order[0] in keys { ConsIncreasing(order[0], Keep(order[1..], keys), rank); }
    }
  }

  lemma {:induction false} SnocIncreasing(order: seq<Key>, key: Key, rank: Key -> int, rank': Key -> int)
    requires Increasing(order, rank)
    requires forall x :: x in order ==> rank'(x) == rank(x) && rank(x) < rank'(key)
    ensures Increasing(order + [key], rank')
  {
  }

  lemma {:induction false} MakeRoomIncreasing(s: State, max: nat, rank: Key -> int)
    requires Increasing(s.order, rank)
    ensures Increasing(MakeRoom(s, max).order, rank) && forall x :: x in MakeRoom(s, max).order ==> x in s.order
    decreases |s.order|
  {
    if |s.entries| >= max && s.order != [] {
      MakeRoomIncreasing(EvictOne(s), max, rank);
    }
  }

  /** Keys the operation does not use keep their relative order; the one it uses goes last. */
  lemma {:induction false} StepIncreasing(s: State, max: nat, op: Op, rank: Key -> int, rank': Key -> int, top: int)
    requires Consistent(s) && max >= 1 && Increasing(s.order, rank)
    requires forall k :: k in s.order ==> rank(k) < top
    requires forall k :: rank'(k) == if Touches(s, op, k) then top else rank(k)
    ensures Increasing(Step(s, max, op).order, rank')
  {
    hide Without, Keep, MakeRoom, Increasing, Distinct;
    match op {
      case InsertOp(_, key, _, _, ttl) =>
        if ttl > 0 {
          if key in s.entries { WithoutIncreasing(s.order, key, rank); WithoutMembers(s.order, key); }
          var dropped :=
            if key in s.entries then Removed(s, key).(counts := s.counts.(replaced := s.counts.replaced + 1)) else s;
          MakeRoomIncreasing(dropped, max, rank);
          assert key !in dropped.order;
          SnocIncreasing(MakeRoom(dropped, max).order, key, rank, rank');
        } else {
          RankAgrees(s.order, rank, rank');
        }
      case LookupOp(now, key) =>
        if key in s.entries {
          WithoutIncreasing(s.order, key, rank);
          WithoutMembers(s.order, key);
          if Fresh(s.entries[key], now) {
            SnocIncreasing(Without(s.order, key), key, rank, rank');
          } else {
            RankAgrees(Without(s.order, key), rank, rank');
          }
        } else {
          RankAgrees(s.order, rank, rank');
        }
      case SweepOp(now) =>
        KeepIncreasing(s.order, FreshEntries(s.entries, now).Keys, rank);
        RankAgrees(Keep(s.order, FreshEntries(s.entries, now).Keys), rank, rank');
    }
  }

  lemma {:induction false} RankAgrees(order: seq<Key>, rank: Key -> int, rank': Key -> int)
    requires Increasing(order, rank) && forall x :: x in order ==> rank'(x) == rank(x)
    ensures Increasing(order, rank')
  {
  }

  /** In every run the recency order is the order of last use. */
  lemma {:induction false} OrderIsLastUse(max: nat, ops: seq<Op>)
    requires max >= 1
    ensures Increasing(After(max, ops).order, k => LastTouch(max, ops, k))
  {
    if ops != [] {
      hide Step, Consistent, Increasing, Touches;
      var init := ops[..|ops| - 1];
      OrderIsLastUse(max, init);
      RunInvariant(max, init);
      StepIncreasing(After(max, init), max, ops[|ops| - 1],
                     k => LastTouch(max, init, k), k => LastTouch(max, ops, k), |ops| - 1);
    }
  }

  /** A new key in a cache of `max`: with room nothing goes, without room the front of the order does. */
  lemma {:induction false} InsertNew(s: State, max: nat, key: Key, e: Entry)
    requires Consistent(s) && 1 <= max && |s.entries| <= max && key !in s.entries
    ensures var r := Insert(s, max, key, e);
      if |s.entries| < max then r.entries.Keys == s.entries.Keys + {key} && r.counts.evictions == s.counts.evictions
      else
        && |s.order| == max && r.counts.evictions == s.counts.evictions + 1
        && r.entries.Keys == s.entries.Keys - {s.order[0]} + {key}
  {
    hide Distinct;
    if |s.entries| == max {
      EvictConsistent(s);
      assert MakeRoom(EvictOne(s), max) == EvictOne(s);
    }
  }

  /** What makes room for a new key in a full cache is the key whose last use is longest ago, and nothing
      else; with room to spare nothing is evicted. */
  lemma {:induction false} EvictsLeastRecentlyUsed(max: nat, ops: seq<Op>, op: Op)
    requires max >= 1 && op.InsertOp? && op.ttl > 0 && op.key !in After(max, ops).entries
    ensures var s := After(max, ops); var r := After(max, ops + [op]);
      if |s.entries| < max then r.entries.Keys == s.entries.Keys + {op.key} && r.counts.evictions == s.counts.evictions
      else
        && |s.order| == max && r.counts.evictions == s.counts.evictions + 1
        && r.entries.Keys == s.entries.Keys - {s.order[0]} + {op.key}
        && forall k :: k in s.entries && k != s.order[0] ==> LastTouch(max, ops, s.order[0]) < LastTouch(max, ops, k)
  {
    hide LastTouch, Distinct, Insert, Increasing;
    var s := After(max, ops);
    assert (ops + [op])[..|ops|] == ops;
    assert After(max, ops + [op]) == Step(s, max, op);
    RunInvariant(max, ops);
    InsertNew(s, max, op.key, EntryOf(op));
    OrderIsLastUse(max, ops);
    if |s.entries| >= max {
      forall k | k in s.entries && k != s.order[0] ensures LastTouch(max, ops, s.order[0]) < LastTouch(max, ops, k) {
        HeadIsLeast(s.order, x => LastTouch(max, ops, x), k);
      }
    }
  }

  // ----- what every operation does to the keys -----

  /** Storing under a key that is there evicts nothing. */
  lemma {:induction false} InsertAgain(s: State, max: nat, key: Key, e: Entry)
    requires Consistent(s) && 1 <= max && |s.entries| <= max && key in s.entries
    ensures var r := Insert(s, max, key, e);
      r.entries.Keys == s.entries.Keys && r.counts.evictions == s.counts.evictions
  {
    hide Distinct, Without, Consistent;
    RemovedConsistent(s, key);
    var dropped := Removed(s, key).(counts := s.counts.(replaced := s.counts.replaced + 1));
    assert MakeRoom(dropped, max) == dropped;
  }

  /** The key whose last use is longest ago. */
  ghost predicate LeastRecent(max: nat, ops: seq<Op>, key: Key) {
    var s := After(max, ops);
    key in s.entries && forall k :: k in s.entries && k != key ==> LastTouch(max, ops, key) < LastTouch(max, ops, k)
  }

  /** Whether a key is there after one more operation. Storing brings its key, and drops the least recently used one
      if the key is new and the cache full; looking up drops its key if it has expired; a sweep drops exactly what
      has expired. */
  ghost predicate ThereAfter(max: nat, ops: seq<Op>, op: Op, key: Key)
    requires max >= 1
  {
    var s := After(max, ops);
    match op
    case InsertOp(_, k, _, _, ttl) =>
      if ttl <= 0 then key in s.entries
      else key == k || (key in s.entries && (k in s.entries || |s.entries| < max || !LeastRecent(max, ops, key)))
    case LookupOp(now, k) =>
      key in s.entries && LatestInsert(ops, key) >= 0 && (key == k ==> Expiry(ops, key) > now)
    case SweepOp(now) => key in s.entries && LatestInsert(ops, key) >= 0 && Expiry(ops, key) > now
  }

  /** Over every run: which keys are there is what the history says. */
  lemma {:induction false} KeysAreExact(max: nat, ops: seq<Op>, op: Op, key: Key)
    requires max >= 1
    ensures key in After(max, ops + [op]).entries <==> ThereAfter(max, ops, op, key)
  {
    hide LastTouch, Distinct, Insert, LatestInsert, LeastRecent, Consistent;
    var s := After(max, ops);
    assert (ops + [op])[..|ops|] == ops;
    RunInvariant(max, ops);
    if key in s.entries { EntryIsLatestInsert(max, ops, key); }
    if op.InsertOp? && op.ttl > 0 {
      if op.key in s.entries {
        InsertAgain(s, max, op.key, EntryOf(op));
      } else {
        EvictsLeastRecentlyUsed(max, ops, op);
        if |s.entries| >= max && key in s.entries { FrontIsLeastRecent(max, ops, key); }
      }
    }
  }

  lemma {:induction false} FrontIsLeastRecent(max: nat, ops: seq<Op>, key: Key)
    requires max >= 1 && After(max, ops).order != [] && key in After(max, ops).entries
    ensures LeastRecent(max, ops, key) <==> key == After(max, ops).order[0]
  {
    hide LastTouch, Distinct, Increasing, After;
    var s := After(max, ops);
    RunInvariant(max, ops);
    OrderIsLastUse(max, ops);
    assert s.order[0] in s.order;
    forall k | k in s.entries && k != s.order[0] ensures LastTouch(max, ops, s.order[0]) < LastTouch(max, ops, k) {
      HeadIsLeast(s.order, x => LastTouch(max, ops, x), k);
    }
  }

  // ----- the counters -----

  /** How many operations were of a kind that depends on what had happened before. */
  ghost function Count(ops: seq<Op>, kind: (seq<Op>, Op) -> bool): nat {
    |set i | 0 <= i < |ops| && kind(ops[..i], ops[i])|
  }

  lemma {:induction false} CountSnoc(ops: seq<Op>, op: Op, kind: (seq<Op>, Op) -> bool)
    ensures Count(ops + [op], kind) == Count(ops, kind) + if kind(ops, op) then 1 else 0
  {
    var more := ops + [op];
    var before := set i | 0 <= i < |ops| && kind(ops[..i], ops[i]);
    var after := set i | 0 <= i < |more| && kind(more[..i], more[i]);
    assert forall i :: 0 <= i <= |ops| ==> more[..i] == ops[..i];
    assert ops[..|ops|] == ops;
    assert after == before + if kind(ops, op) then {|ops|} else {};
  }

  predicate IsStore(op: Op) { op.InsertOp? && op.ttl > 0 }

  /** A lookup that finds its key, still fresh or no longer. */
  ghost predicate FindsFresh(max: nat, before: seq<Op>, op: Op) {
    op.LookupOp? && op.key in After(max, before).entries && After(max, before).entries[op.key].expiresAt > op.now
  }

  ghost predicate FindsExpired(max: nat, before: seq<Op>, op: Op) {
    op.LookupOp? && op.key in After(max, before).entries && After(max, before).entries[op.key].expiresAt <= op.now
  }

  ghost predicate StoresAgain(max: nat, before: seq<Op>, op: Op) {
    IsStore(op) && op.key in After(max, before).entries
  }

  /** A store of a new key into a full cache. */
  ghost predicate Crowds(max: nat, before: seq<Op>, op: Op) {
    IsStore(op) && op.key !in After(max, before).entries && |After(max, before).entries| >= max
  }

  /** Over every run the counters say how many lookups hit and missed, how many responses were stored, and how many
      were evicted; with the balance of `RunInvariant`, what is left was swept. */
  lemma {:induction false} CountersAreRight(max: nat, ops: seq<Op>)
    requires max >= 1
    ensures var c := After(max, ops).counts;
      && c.hits == Count(ops, (h, op) => FindsFresh(max, h, op))
      && c.misses == Count(ops, (h, op: Op) => op.LookupOp? && !FindsFresh(max, h, op))
      && c.inserts == Count(ops, (_, op) => IsStore(op))
      && c.evictions == Count(ops, (h, op) => Crowds(max, h, op))
      && c.lapsed == Count(ops, (h, op) => FindsExpired(max, h, op))
      && c.replaced == Count(ops, (h, op) => StoresAgain(max, h, op))
  {
    hide Count, Insert, Lookup, Sweep, FindsFresh, FindsExpired, StoresAgain, Crowds, IsStore;
    if ops == [] {
      NothingCounted((h, op) => FindsFresh(max, h, op));
      NothingCounted((h, op: Op) => op.LookupOp? && !FindsFresh(max, h, op));
      NothingCounted((_, op) => IsStore(op));
      NothingCounted((h, op) => Crowds(max, h, op));
      NothingCounted((h, op) => FindsExpired(max, h, op));
      NothingCounted((h, op) => StoresAgain(max, h, op));
    } else {
      var init, op := ops[..|ops| - 1], ops[|ops| - 1];
      assert init + [op] == ops;
      CountersAreRight(max, init);
      CountSnoc(init, op, (h, op) => FindsFresh(max, h, op));
      CountSnoc(init, op, (h, op: Op) => op.LookupOp? && !FindsFresh(max, h, op));
      CountSnoc(init, op, (_, op) => IsStore(op));
      CountSnoc(init, op, (h, op) => Crowds(max, h, op));
      CountSnoc(init, op, (h, op) => FindsExpired(max, h, op));
      CountSnoc(init, op, (h, op) => StoresAgain(max, h, op));
      CountedStep(max, init, op);
    }
  }

  lemma {:induction false} NothingCounted(kind: (seq<Op>, Op) -> bool)
    ensures Count([], kind) == 0
  {
  }

  lemma {:induction false} CountedStep(max: nat, ops: seq<Op>, op: Op)
    requires max >= 1
    ensures var c, d := After(max, ops).counts, Step(After(max, ops), max, op).counts;
      && d.hits == c.hits + (if FindsFresh(max, ops, op) then 1 else 0)
      && d.misses == c.misses + (if op.LookupOp? && !FindsFresh(max, ops, op) then 1 else 0)
      && d.inserts == c.inserts + (if IsStore(op) then 1 else 0)
      && d.evictions == c.evictions + (if Crowds(max, ops, op) then 1 else 0)
      && d.lapsed == c.lapsed + (if FindsExpired(max, ops, op) then 1 else 0)
      && d.replaced == c.replaced + (if StoresAgain(max, ops, op) then 1 else 0)
  {
    hide After, Without, Distinct, MakeRoom, Keep;
    var s := After(max, ops);
    RunInvariant(max, ops);
    if IsStore(op) {
      var dropped :=
        if op.key in s.entries then Removed(s, op.key).(counts := s.counts.(replaced := s.counts.replaced + 1)) else s;
      RoomCounts(dropped, max);
      if op.key in s.entries {
        InsertAgain(s, max, op.key, EntryOf(op));
      } else {
        InsertNew(s, max, op.key, EntryOf(op));
      }
    }
  }

  /** Making room counts evictions and nothing else. */
  lemma {:induction false} RoomCounts(s: State, max: nat)
    ensures MakeRoom(s, max).counts == s.counts.(evictions := MakeRoom(s, max).counts.evictions)
    decreases |s.order|
  {
    if |s.entries| >= max && s.order != [] { RoomCounts(EvictOne(s), max); }
  }
}
