/** What the cache guarantees over whole runs: traces of operations, each at its own time. */
module StoreTraces {
  import opened Seqs
  import opened LruModel

  datatype Op =
    | GetOp(key: string)
    | SetOp(key: string, value: string, ttl: int, writtenAt: int)
    | DeleteOp(key: string)
    | SweepOp

  datatype Event = Event(op: Op, now: int)

  function Step(c: Cache, e: Event): (c': Cache)
    requires c.capacity >= 1
    ensures c'.capacity == c.capacity
  {
    match e.op
    case GetOp(key) => Get(c, key, e.now).0
    case SetOp(key, value, ttl, writtenAt) => Set(c, key, value, ttl, writtenAt, e.now).0
    case DeleteOp(key) => Delete(c, key).0
    case SweepOp => Sweep(c, e.now)
  }

  /** The cache after a trace. */
  function Run(c: Cache, es: seq<Event>): (c': Cache)
    requires c.capacity >= 1
    ensures c'.capacity == c.capacity
  {
    if es == [] then c else Step(Run(c, Init(es)), Last(es))
  }

  lemma RunSnoc(c: Cache, es: seq<Event>, e: Event)
    requires c.capacity >= 1
    ensures Run(c, es + [e]) == Step(Run(c, es), e)
  {
    assert Init(es + [e]) == es;
  }

  lemma StepWellFormed(c: Cache, e: Event)
    requires WellFormed(c)
    ensures WellFormed(Step(c, e))
  {
    match e.op
    case GetOp(key) => GetWellFormed(c, key, e.now);
    case SetOp(key, value, ttl, writtenAt) => SetWellFormed(c, key, value, ttl, writtenAt, e.now);
    case DeleteOp(key) => DeleteWellFormed(c, key);
    case SweepOp => SweepWellFormed(c, e.now);
  }

  /** Distinct keys, and never more items than the capacity, in every run. */
  lemma {:induction false} RunWellFormed(c: Cache, es: seq<Event>)
    requires WellFormed(c)
    ensures WellFormed(Run(c, es))
  {
    if es == [] {
    } else {
      RunWellFormed(c, Init(es));
      StepWellFormed(Run(c, Init(es)), Last(es));
    }
  }

  // ---------- what one step does to one key ----------

  /** The key a step hits or successfully sets. */
  function Touched(c: Cache, e: Event): set<string>
    requires c.capacity >= 1
  {
    match e.op
    case GetOp(key) => if Get(c, key, e.now).1.Some? then {key} else {}
    case SetOp(key, value, ttl, writtenAt) => if Set(c, key, value, ttl, writtenAt, e.now).1 then {key} else {}
    case _ => {}
  }

  /** The step deletes the key or finds it expired. */
  predicate Drops(c: Cache, e: Event, key: string) {
    match e.op
    case GetOp(k) => k == key && Lookup(c.items, key).Some? && Expired(Lookup(c.items, key).value, e.now)
    case SetOp(_, _, _, _) => false
    case DeleteOp(k) => k == key
    case SweepOp => Lookup(c.items, key).Some? && Expired(Lookup(c.items, key).value, e.now)
  }

  predicate Evicts(c: Cache, e: Event, key: string) {
    && e.op.SetOp? && Lookup(c.items, e.op.key).None? && Lookup(c.items, key).Some?
    && Lookup(c.items[..Min(|c.items|, Max(c.capacity - 1, 0))], key).None?
  }

  lemma StepLookup(c: Cache, e: Event, key: string)
    requires WellFormed(c)
    ensures Lookup(Step(c, e).items, key) ==
      if e.op.SetOp? && e.op.key == key && Set(c, key, e.op.value, e.op.ttl, e.op.writtenAt, e.now).1
      then Some(NewItem(key, e.op.value, e.op.ttl, e.op.writtenAt, e.now))
      else if Drops(c, e, key) || Evicts(c, e, key) then None
      else Lookup(c.items, key)
  {
    hide Lookup, Filter, DistinctKeys;
    match e.op
    case GetOp(k) =>
      LookupWithout(c.items, k, key);
      if Holds(c, k) { LookupFront(Lookup(c.items, k).value, Without(c.items, k), key); }
    case SetOp(k, value, ttl, writtenAt) =>
      var it := NewItem(k, value, ttl, writtenAt, e.now);
      var kept := c.items[..Min(|c.items|, c.capacity - 1)];
      LookupWithout(c.items, k, key);
      LookupFront(it, Without(c.items, k), key);
      LookupFront(it, kept, key);
      LookupPrefix(c.items, |kept|, key);
    case DeleteOp(k) =>
      LookupWithout(c.items, k, key);
    case SweepOp =>
      LookupLive(c.items, e.now, key);
  }

  // ---------- survival ----------

  function TouchedIn(c: Cache, es: seq<Event>): set<string>
    requires c.capacity >= 1
  {
    if es == [] then {} else TouchedIn(c, Init(es)) + Touched(Run(c, Init(es)), Last(es))
  }

  /** The key is neither deleted nor found expired anywhere in the trace. */
  predicate Undropped(c: Cache, es: seq<Event>, key: string)
    requires c.capacity >= 1
  {
    es == [] || (Undropped(c, Init(es), key) && !Drops(Run(c, Init(es)), Last(es), key))
  }

  /** The keys used more recently than `key`. */
  function Ahead(items: seq<Item>, key: string): set<string> {
    if items == [] || items[0].key == key then {} else {items[0].key} + Ahead(items[1..], key)
  }

  lemma {:induction false} AheadWithout(items: seq<Item>, other: string, key: string)
    requires other != key
    ensures Ahead(Without(items, other), key) <= Ahead(items, key)
  {
    if items != [] {
      AheadWithout(items[1..], other, key);
      var rest := Without(items[1..], other);
      assert ([items[0]] + rest)[1..] == rest && [] + rest == rest;
    }
  }

  lemma {:induction false} AheadLive(items: seq<Item>, now: int, key: string)
    requires Lookup(items, key).Some? && !Expired(Lookup(items, key).value, now)
    ensures Ahead(Filter(items, LiveAt(now)), key) <= Ahead(items, key)
  {
    var rest := Filter(items[1..], LiveAt(now));
    assert ([items[0]] + rest)[1..] == rest && [] + rest == rest;
    if items[0].key != key {
      AheadLive(items[1..], now, key);
    }
  }

  lemma {:induction false} AheadPrefix(items: seq<Item>, n: nat, key: string)
    requires n <= |items| && Lookup(items[..n], key).Some?
    ensures Ahead(items[..n], key) <= Ahead(items, key)
  {
    assert items[..n][1..] == items[1..][..n - 1];
    if items[0].key != key {
      AheadPrefix(items[1..], n - 1, key);
    }
  }

  lemma AheadFront(it: Item, rest: seq<Item>, key: string)
    ensures Ahead([it] + rest, key) == if it.key == key then {} else {it.key} + Ahead(rest, key)
  {
    assert ([it] + rest)[1..] == rest;
  }

  lemma {:induction false} AheadHeld(items: seq<Item>, key: string)
    ensures forall k :: k in Ahead(items, key) ==> Lookup(items, k).Some?
  {
    if items != [] && items[0].key != key {
      AheadHeld(items[1..], key);
    }
  }

  lemma MissingFromPrefix(items: seq<Item>, n: nat, key: string)
    requires 0 < n <= |items| && Lookup(items[..n], key).None?
    ensures items[0].key != key && Lookup(items[1..][..n - 1], key).None?
  {
    assert items[..n][1..] == items[1..][..n - 1];
  }

  lemma HeadNotAhead(items: seq<Item>, key: string)
    requires items != [] && DistinctKeys(items)
    ensures items[0].key !in Ahead(items[1..], key)
  {
    AheadHeld(items[1..], key);
    LookupMissing(items[1..], items[0].key);
  }

  /** A key missing from the first n items has at least n distinct keys ahead of it. */
  lemma {:induction false} AheadCount(items: seq<Item>, n: nat, key: string)
    requires DistinctKeys(items) && n <= |items|
    requires Lookup(items[..n], key).None?
    ensures |Ahead(items, key)| >= n
    ensures forall k :: k in Ahead(items, key) ==> Lookup(items, k).Some?
  {
    hide Lookup;
    AheadHeld(items, key);
    if n > 0 {
      MissingFromPrefix(items, n, key);
      AheadCount(items[1..], n - 1, key);
      HeadNotAhead(items, key);
    }
  }

  lemma MoveAhead(items: seq<Item>, it: Item, key: string)
    requires DistinctKeys(items) && Lookup(items, key).Some?
    ensures Ahead([it] + Without(items, it.key), key) <= Ahead(items, key) + ({it.key} - {key})
  {
    AheadFront(it, Without(items, it.key), key);
    if it.key != key { AheadWithout(items, it.key, key); }
  }

  lemma InsertAhead(c: Cache, it: Item, key: string)
    requires WellFormed(c) && Holds(c, key) && !Holds(c, it.key)
    requires Lookup([it] + c.items[..Min(|c.items|, c.capacity - 1)], key).Some?
    ensures Ahead([it] + c.items[..Min(|c.items|, c.capacity - 1)], key) <= Ahead(c.items, key) + {it.key}
  {
    var n := Min(|c.items|, c.capacity - 1);
    AheadFront(it, c.items[..n], key);
    LookupFront(it, c.items[..n], key);
    AheadPrefix(c.items, n, key);
  }

  lemma StepAhead(c: Cache, e: Event, key: string)
    requires WellFormed(c) && Holds(c, key) && Holds(Step(c, e), key) && !Drops(c, e, key)
    ensures Ahead(Step(c, e).items, key) <= Ahead(c.items, key) + (Touched(c, e) - {key})
  {
    hide Lookup, Without, Ahead, DistinctKeys;
    match e.op
    case GetOp(k) =>
      if Holds(c, k) {
        MoveAhead(c.items, Lookup(c.items, k).value, key);
        if k != key { AheadWithout(c.items, k, key); }
      }
    case SetOp(k, value, ttl, writtenAt) =>
      var it := NewItem(k, value, ttl, writtenAt, e.now);
      if Holds(c, k) {
        MoveAhead(c.items, it, key);
      } else {
        InsertAhead(c, it, key);
      }
    case DeleteOp(k) =>
      if k != key { AheadWithout(c.items, k, key); }
    case SweepOp =>
      AheadLive(c.items, e.now, key);
  }

  lemma EvictionNeedsCapacityKeys(c: Cache, e: Event, key: string, others: set<string>)
    requires WellFormed(c) && Evicts(c, e, key)
    requires Ahead(c.items, key) + Touched(c, e) <= others
    ensures |others| >= c.capacity
  {
    var n := Min(|c.items|, c.capacity - 1);
    assert c.items[..|c.items|] == c.items;
    AheadCount(c.items, n, key);
    assert e.op.key !in Ahead(c.items, key);
    SubsetCardinality(Ahead(c.items, key) + {e.op.key}, others);
  }

  /** LRU survival: a key at the front, then neither deleted nor found expired, is still held
      after any trace that touches fewer than `capacity` distinct other keys. */
  lemma {:induction false} RecentKeySurvives(c: Cache, es: seq<Event>, key: string)
    requires WellFormed(c) && c.items != [] && c.items[0].key == key
    requires Undropped(c, es, key)
    requires |TouchedIn(c, es) - {key}| < c.capacity
    ensures Holds(Run(c, es), key)
    ensures Ahead(Run(c, es).items, key) <= TouchedIn(c, es) - {key}
  {
    if es == [] {
    } else {
      var before, e := Run(c, Init(es)), Last(es);
      var others := TouchedIn(c, es) - {key};
      SubsetCardinality(TouchedIn(c, Init(es)) - {key}, others);
      RecentKeySurvives(c, Init(es), key);
      RunWellFormed(c, Init(es));
      StepLookup(before, e, key);
      if Evicts(before, e, key) {
        EvictionNeedsCapacityKeys(before, e, key, others);
        assert false;
      }
      StepAhead(before, e, key);
    }
  }

  /** A hit or a successful set is what puts a key at the front. */
  lemma TouchedKeyIsFront(c: Cache, e: Event, key: string)
    requires c.capacity >= 1 && key in Touched(c, e)
    ensures Step(c, e).items != [] && Step(c, e).items[0].key == key
  {
  }

  // ---------- which write a hit returns ----------

  /** The writes to `key` that arrived since it was last absent. */
  function Since(c: Cache, es: seq<Event>, key: string): seq<Event>
    requires c.capacity >= 1
  {
    if es == [] || !Holds(Run(c, es), key) then []
    else Since(c, Init(es), key) + (if Last(es).op.SetOp? && Last(es).op.key == key then [Last(es)] else [])
  }

  predicate IsWrite(e: Event, key: string) {
    e.op.SetOp? && e.op.key == key
  }

  /** ws[j] has the largest writtenAt, and is the last to arrive among those that do. */
  ghost predicate Wins(ws: seq<Event>, j: int) {
    && 0 <= j < |ws| && ws[j].op.SetOp?
    && (forall i :: 0 <= i < j ==> ws[i].op.SetOp? && ws[i].op.writtenAt <= ws[j].op.writtenAt)
    && (forall i :: j < i < |ws| ==> ws[i].op.SetOp? && ws[i].op.writtenAt < ws[j].op.writtenAt)
  }

  function ItemOf(e: Event): Item
    requires e.op.SetOp?
  {
    NewItem(e.op.key, e.op.value, e.op.ttl, e.op.writtenAt, e.now)
  }

  /** A later arrival wins if it is no older; otherwise the winner stays. */
  lemma WinsAfter(ws: seq<Event>, j: int, e: Event)
    requires Wins(ws, j) && e.op.SetOp?
    ensures e.op.writtenAt >= ws[j].op.writtenAt ==> Wins(ws + [e], |ws|)
    ensures e.op.writtenAt < ws[j].op.writtenAt ==> Wins(ws + [e], j)
  {
  }

  /** What a key holds is the last-arriving of the largest writes since it was last absent. */
  lemma {:induction false} HeldItemIsTheWinner(c: Cache, es: seq<Event>, key: string) returns (j: int)
    requires WellFormed(c) && !Holds(c, key)
    requires Holds(Run(c, es), key)
    ensures 0 <= j < |Since(c, es, key)| && Wins(Since(c, es, key), j)
    ensures Lookup(Run(c, es).items, key) == Some(ItemOf(Since(c, es, key)[j]))
    ensures forall e :: e in Since(c, es, key) ==> e in es && IsWrite(e, key)
  {
    hide Lookup, Filter, Drops, Evicts;
    var before, e := Run(c, Init(es)), Last(es);
    RunWellFormed(c, Init(es));
    StepLookup(before, e, key);
    if Holds(before, key) {
      j := HeldItemIsTheWinner(c, Init(es), key);
      var ws := Since(c, Init(es), key);
      if IsWrite(e, key) {
        WinsAfter(ws, j, e);
        if e.op.writtenAt >= ws[j].op.writtenAt { j := |ws|; }
      } else {
        assert Since(c, es, key) == ws;
      }
    } else {
      assert Since(c, Init(es), key) == [];
      j := 0;
      assert Wins([e], 0);
    }
  }

  /** A hit returns that item, and it has not expired. */
  lemma HitReturnsTheWinner(c: Cache, es: seq<Event>, key: string, now: int) returns (j: int)
    requires WellFormed(c) && !Holds(c, key)
    requires Get(Run(c, es), key, now).1.Some?
    ensures Wins(Since(c, es, key), j)
    ensures Get(Run(c, es), key, now).1 == Some(ItemOf(Since(c, es, key)[j]))
    ensures !Expired(ItemOf(Since(c, es, key)[j]), now)
  {
    j := HeldItemIsTheWinner(c, es, key);
  }

  /** While a key is held, a read hits and a sweep spares it exactly until the TTL of that write,
      counted from its arrival, has passed; a hit has the write's value and stamp. */
  lemma HitExactly(c: Cache, es: seq<Event>, key: string, now: int) returns (j: int)
    requires WellFormed(c) && !Holds(c, key) && Holds(Run(c, es), key)
    ensures 0 <= j < |Since(c, es, key)| && Wins(Since(c, es, key), j)
    ensures var w, got := Since(c, es, key)[j], Get(Run(c, es), key, now).1;
      && (got.Some? <==> w.op.ttl <= 0 || now < w.now + w.op.ttl)
      && (got.Some? ==> got.value.value == w.op.value && got.value.writtenAt == w.op.writtenAt)
      && (Holds(Sweep(Run(c, es), now), key) <==> w.op.ttl <= 0 || now < w.now + w.op.ttl)
  {
    j := HeldItemIsTheWinner(c, es, key);
    RunWellFormed(c, es);
    hide Lookup, Run, Since, Wins;
    LookupLive(Run(c, es).items, now, key);
  }

  // ---------- replica convergence ----------

  predicate OnlyWrites(es: seq<Event>) {
    forall e :: e in es ==> e.op.SetOp?
  }

  function KeysOf(es: seq<Event>): set<string>
    requires OnlyWrites(es)
  {
    set e | e in es :: e.op.key
  }

  function Writes(es: seq<Event>): set<Op> {
    set e | e in es :: e.op
  }

  function ItemKeys(items: seq<Item>): set<string> {
    set it | it in items :: it.key
  }

  lemma ItemKeysLookup(items: seq<Item>)
    ensures forall k :: k in ItemKeys(items) <==> Lookup(items, k).Some?
  {
    forall k ensures k in ItemKeys(items) <==> Lookup(items, k).Some? {
      LookupMissing(items, k);
    }
  }

  lemma {:induction false} ItemKeysCount(items: seq<Item>)
    requires DistinctKeys(items)
    ensures |ItemKeys(items)| == |items|
  {
    if items == [] {
      assert ItemKeys(items) == {};
    } else {
      ItemKeysCount(items[1..]);
      assert items[0].key !in ItemKeys(items[1..]);
      assert items == [items[0]] + items[1..];
      assert ItemKeys(items) == {items[0].key} + ItemKeys(items[1..]);
    }
  }

  /** With room for every key written, nothing is evicted: exactly the written keys are held,
      and all writes to a key count. */
  lemma {:induction false} RoomyRunHoldsAllWrites(c: Cache, es: seq<Event>)
    requires WellFormed(c) && c.items == [] && OnlyWrites(es) && |KeysOf(es)| <= c.capacity
    ensures forall k :: Holds(Run(c, es), k) <==> k in KeysOf(es)
    ensures forall k, e :: e in es && IsWrite(e, k) ==> e in Since(c, es, k)
  {
    if es == [] {
    } else {
      var init, e, before := Init(es), Last(es), Run(c, Init(es));
      assert es == init + [e];
      assert KeysOf(es) == KeysOf(init) + {e.op.key};
      SubsetCardinality(KeysOf(init), KeysOf(es));
      RoomyRunHoldsAllWrites(c, init);
      RunWellFormed(c, init);
      RoomyStep(before, e, KeysOf(init));
      forall k, w | w in es && IsWrite(w, k) ensures w in Since(c, es, k) {
        assert Holds(Run(c, es), k);
        assert Since(c, es, k) == Since(c, init, k) + (if IsWrite(e, k) then [e] else []);
      }
    }
  }

  lemma RoomyStep(c: Cache, e: Event, keys: set<string>)
    requires WellFormed(c) && e.op.SetOp? && |keys + {e.op.key}| <= c.capacity
    requires forall k :: Holds(c, k) <==> k in keys
    ensures forall k :: Holds(Step(c, e), k) <==> k in keys + {e.op.key}
  {
    ItemKeysLookup(c.items);
    ItemKeysCount(c.items);
    assert ItemKeys(c.items) == keys;
    if e.op.key !in keys {
      assert |keys + {e.op.key}| == |keys| + 1;
      assert c.items[..|c.items|] == c.items;
    }
    forall k ensures Holds(Step(c, e), k) <==> k in keys + {e.op.key} {
      StepLookup(c, e, k);
    }
  }

  lemma SameWritesSameKeys(ea: seq<Event>, eb: seq<Event>)
    requires OnlyWrites(ea) && OnlyWrites(eb) && Writes(ea) <= Writes(eb)
    ensures KeysOf(ea) <= KeysOf(eb)
  {
    forall e | e in ea ensures e.op.key in KeysOf(eb) {
      assert e.op in Writes(eb);
    }
  }

  /** No write of the set to the same key has a larger writtenAt. */
  ghost predicate Largest(ws: set<Op>, w: Op) {
    w in ws && w.SetOp? && forall v :: v in ws && v.SetOp? && v.key == w.key ==> v.writtenAt <= w.writtenAt
  }

  /** The largest writes to the key, if there are any, carry one value. */
  ghost predicate OneWinner(ws: set<Op>, key: string) {
    forall v, w :: Largest(ws, v) && Largest(ws, w) && v.key == w.key == key ==> v.value == w.value
  }

  lemma WinnerIsLargest(c: Cache, es: seq<Event>, key: string, j: int)
    requires c.capacity >= 1
    requires 0 <= j < |Since(c, es, key)| && Wins(Since(c, es, key), j)
    requires forall e :: e in Since(c, es, key) ==> e in es && IsWrite(e, key)
    requires forall k, e :: e in es && IsWrite(e, k) ==> e in Since(c, es, k)
    ensures Largest(Writes(es), Since(c, es, key)[j].op)
  {
    hide Since, Run;
    var ws := Since(c, es, key);
    assert ws[j] in ws;
    forall v | v in Writes(es) && v.SetOp? && v.key == key
      ensures v.writtenAt <= ws[j].op.writtenAt
    {
      var e :| e in es && e.op == v;
      assert IsWrite(e, key);
    }
  }

  /** What replicas can agree on: the presence, the value and the writtenAt of an item. Its
      expiry is counted from when the write arrives. */
  function Version(it: Option<Item>): Option<(string, int)> {
    if it.Some? then Some((it.value.value, it.value.writtenAt)) else None
  }

  predicate NoTTL(ws: set<Op>) {
    forall w :: w in ws && w.SetOp? ==> w.ttl <= 0
  }

  /** Two replicas that receive the same writes, at any times, in any order and any number of
      times, end up holding the same version of a key whose largest writes carry one value: the
      largest write. Without a TTL they hold the same item. */
  lemma ReplicasConverge(a: Cache, b: Cache, ea: seq<Event>, eb: seq<Event>, key: string)
    requires WellFormed(a) && a.items == [] && OnlyWrites(ea) && |KeysOf(ea)| <= a.capacity
    requires WellFormed(b) && b.items == [] && OnlyWrites(eb) && |KeysOf(eb)| <= b.capacity
    requires Writes(ea) == Writes(eb) && OneWinner(Writes(ea), key)
    ensures Version(Lookup(Run(a, ea).items, key)) == Version(Lookup(Run(b, eb).items, key))
    ensures NoTTL(Writes(ea)) ==> Lookup(Run(a, ea).items, key) == Lookup(Run(b, eb).items, key)
    ensures forall w :: w in Writes(ea) && w.SetOp? && w.key == key ==>
      Holds(Run(a, ea), key) && w.writtenAt <= Lookup(Run(a, ea).items, key).value.writtenAt
  {
    hide Run, Since, Lookup, Wins;
    RoomyRunHoldsAllWrites(a, ea);
    RoomyRunHoldsAllWrites(b, eb);
    assert KeysOf(ea) == KeysOf(eb) by { SameWritesSameKeys(ea, eb); SameWritesSameKeys(eb, ea); }
    if Holds(Run(a, ea), key) {
      var i := HeldItemIsTheWinner(a, ea, key);
      var j := HeldItemIsTheWinner(b, eb, key);
      WinnerIsLargest(a, ea, key, i);
      WinnerIsLargest(b, eb, key, j);
      assert Since(a, ea, key)[i] in Since(a, ea, key) && Since(b, eb, key)[j] in Since(b, eb, key);
    }
  }

  /** A largest write that arrives last is what the key holds. */
  lemma LastLargestWins(c: Cache, es: seq<Event>, e: Event)
    requires WellFormed(c) && c.items == [] && Largest(Writes(es + [e]), e.op)
    ensures Lookup(Run(c, es + [e]).items, e.op.key) == Some(ItemOf(e))
  {
    var before, key := Run(c, es), e.op.key;
    RunSnoc(c, es, e);
    RunWellFormed(c, es);
    StepLookup(before, e, key);
    if Holds(before, key) {
      var j := HeldItemIsTheWinner(c, es, key);
      hide Since, Run, Wins;
      var held := Since(c, es, key)[j];
      assert held in Since(c, es, key);
      assert held in es + [e];
      assert held.op in Writes(es + [e]);
    }
  }

  /** The writes of a set, each arriving once. */
  lemma {:induction false} Order(ws: set<Op>) returns (es: seq<Event>)
    ensures |es| == |ws| && Writes(es) == ws
  {
    if ws == {} {
      es := [];
    } else {
      var w :| w in ws;
      var rest := Order(ws - {w});
      es := rest + [Event(w, 0)];
      WritesSnoc(rest, Event(w, 0));
      assert ws - {w} + {w} == ws;
    }
  }

  lemma WritesSnoc(es: seq<Event>, e: Event)
    ensures Writes(es + [e]) == Writes(es) + {e.op}
  {
    assert forall x :: x in es + [e] <==> x in es || x == e;
  }

  ghost predicate WritesOnly(ws: set<Op>) {
    forall w :: w in ws ==> w.SetOp?
  }

  function WrittenKeys(ws: set<Op>): set<string>
    requires WritesOnly(ws)
  {
    set w | w in ws :: w.key
  }

  lemma ArrivalKeys(es: seq<Event>)
    requires WritesOnly(Writes(es))
    ensures OnlyWrites(es) && KeysOf(es) == WrittenKeys(Writes(es))
  {
    forall e | e in es ensures e.op.SetOp? {
      assert e.op in Writes(es);
    }
    forall k ensures k in KeysOf(es) <==> k in WrittenKeys(Writes(es)) {
      if k in WrittenKeys(Writes(es)) {
        var w :| w in Writes(es) && w.key == k;
      }
    }
  }

  /** Convergence, exactly: two empty replicas with room for a set of writes agree on a key
      whatever the order, the times and the repeats in which they receive them if, and only if,
      the largest writes to the key carry one value. When they do not, two orders without any
      repeat already disagree. */
  lemma ConvergeExactly(a: Cache, b: Cache, ws: set<Op>, key: string)
    requires WritesOnly(ws)
    requires WellFormed(a) && a.items == [] && |WrittenKeys(ws)| <= a.capacity
    requires WellFormed(b) && b.items == [] && |WrittenKeys(ws)| <= b.capacity
    ensures OneWinner(ws, key) ==> forall ea, eb :: Writes(ea) == ws && Writes(eb) == ws ==>
      Version(Lookup(Run(a, ea).items, key)) == Version(Lookup(Run(b, eb).items, key))
    ensures !OneWinner(ws, key) ==> exists ea, eb ::
      && Writes(ea) == ws && Writes(eb) == ws && |ea| == |eb| == |ws|
      && Version(Lookup(Run(a, ea).items, key)) != Version(Lookup(Run(b, eb).items, key))
  {
    hide Run, Lookup, OneWinner;
    if OneWinner(ws, key) {
      forall ea, eb | Writes(ea) == ws && Writes(eb) == ws
        ensures Version(Lookup(Run(a, ea).items, key)) == Version(Lookup(Run(b, eb).items, key))
      {
        ArrivalKeys(ea);
        ArrivalKeys(eb);
        ReplicasConverge(a, b, ea, eb, key);
      }
    } else {
      var ea, eb := DisagreeingOrders(a, b, ws, key);
    }
  }

  lemma DisagreeingOrders(a: Cache, b: Cache, ws: set<Op>, key: string) returns (ea: seq<Event>, eb: seq<Event>)
    requires WellFormed(a) && a.items == [] && WellFormed(b) && b.items == [] && !OneWinner(ws, key)
    ensures Writes(ea) == ws && Writes(eb) == ws && |ea| == |eb| == |ws|
    ensures Version(Lookup(Run(a, ea).items, key)) != Version(Lookup(Run(b, eb).items, key))
  {
    hide Run, Lookup, Writes;
    var v, w :| Largest(ws, v) && Largest(ws, w) && v.key == w.key == key && v.value != w.value;
    var restA := Order(ws - {v});
    var restB := Order(ws - {w});
    WritesSnoc(restA, Event(v, 0));
    WritesSnoc(restB, Event(w, 0));
    assert ws - {v} + {v} == ws && ws - {w} + {w} == ws;
    LastLargestWins(a, restA, Event(v, 0));
    LastLargestWins(b, restB, Event(w, 0));
    ea, eb := restA + [Event(v, 0)], restB + [Event(w, 0)];
  }

  // ---------- a larger cache includes a smaller one ----------

  /** `small` is a subsequence of `large`. */
  ghost predicate Within(small: seq<Item>, large: seq<Item>) {
    small == [] || (large != [] &&
      ((small[0] == large[0] && Within(small[1..], large[1..])) || Within(small, large[1..])))
  }

  lemma {:induction false} WithinFilter(small: seq<Item>, large: seq<Item>, keep: Item -> bool)
    requires Within(small, large)
    ensures Within(Filter(small, keep), Filter(large, keep))
    decreases |large|
  {
    if small != [] {
      var f := Filter(large[1..], keep);
      assert ([large[0]] + f)[1..] == f && [] + f == f;
      if small[0] == large[0] && Within(small[1..], large[1..]) {
        WithinFilter(small[1..], large[1..], keep);
        var g := Filter(small[1..], keep);
        assert ([small[0]] + g)[1..] == g && [] + g == g;
      } else {
        WithinFilter(small, large[1..], keep);
      }
    }
  }

  lemma WithinFront(it: Item, small: seq<Item>, large: seq<Item>)
    requires Within(small, large)
    ensures Within([it] + small, [it] + large)
  {
    assert ([it] + small)[1..] == small && ([it] + large)[1..] == large;
  }

  /** Dropping the last item of the smaller, or of both, keeps the subsequence. */
  lemma {:induction false} WithinInit(small: seq<Item>, large: seq<Item>)
    requires small != [] && Within(small, large)
    ensures Within(small[..|small| - 1], large)
    ensures large != [] && Within(small[..|small| - 1], large[..|large| - 1])
    decreases |large|
  {
    var s, l := small[..|small| - 1], large[..|large| - 1];
    if small[0] == large[0] && Within(small[1..], large[1..]) {
      if |small| > 1 {
        WithinInit(small[1..], large[1..]);
        assert s[1..] == small[1..][..|small| - 2] && l[1..] == large[1..][..|large| - 2];
      }
    } else {
      WithinInit(small, large[1..]);
      if l != [] { assert l[1..] == large[1..][..|large| - 2]; }
    }
  }

  lemma {:induction false} WithinLookup(small: seq<Item>, large: seq<Item>, key: string)
    requires Within(small, large) && DistinctKeys(large) && Lookup(small, key).Some?
    ensures Lookup(large, key) == Lookup(small, key)
    decreases |large|
  {
    if small[0] == large[0] && Within(small[1..], large[1..]) {
      if small[0].key != key { WithinLookup(small[1..], large[1..], key); }
    } else {
      WithinLookup(small, large[1..], key);
      LookupMissing(large[1..], large[0].key);
    }
  }

  /** How the two caches stay related: the smaller never has more free room. */
  ghost predicate Related(c: Cache, d: Cache) {
    && WellFormed(c) && WellFormed(d)
    && Within(c.items, d.items)
    && c.capacity - |c.items| <= d.capacity - |d.items|
  }

  /** The step that tells the caches apart: a write to a key that only the larger still holds,
      and holds with a newer stamp. The larger ignores it, the smaller takes it. */
  predicate Splits(c: Cache, d: Cache, e: Event) {
    && e.op.SetOp? && Lookup(c.items, e.op.key).None?
    && Lookup(d.items, e.op.key).Some? && Lookup(d.items, e.op.key).value.writtenAt > e.op.writtenAt
  }

  lemma {:induction false} LookupIn(items: seq<Item>, key: string)
    requires DistinctKeys(items)
    ensures Lookup(items, key).Some? ==> |Without(items, key)| == |items| - 1
    ensures Lookup(items, key).None? ==> Without(items, key) == items
    ensures forall it :: it in Without(items, key) ==> it in items
  {
    LookupMissing(items, key);
    FilterKeeps(items, KeyIsNot(key));
    if Lookup(items, key).Some? {
      var i :| 0 <= i < |items| && items[i] == Lookup(items, key).value;
      WithoutAt(items, i);
    } else {
      FilterAll(items, KeyIsNot(key));
    }
  }

  lemma RelatedRemoval(c: Cache, d: Cache, key: string)
    requires Related(c, d)
    ensures Related(c.(items := Without(c.items, key)), d.(items := Without(d.items, key)))
  {
    WithinFilter(c.items, d.items, KeyIsNot(key));
    LookupIn(c.items, key);
    LookupIn(d.items, key);
    FilterDistinct(c.items, KeyIsNot(key));
    FilterDistinct(d.items, KeyIsNot(key));
    if Holds(c, key) { WithinLookup(c.items, d.items, key); }
  }

  lemma {:induction false} WithinSweepCounts(small: seq<Item>, large: seq<Item>, keep: Item -> bool)
    requires Within(small, large)
    ensures |large| - |Filter(large, keep)| >= |small| - |Filter(small, keep)|
    decreases |large|
  {
    if small != [] {
      if small[0] == large[0] && Within(small[1..], large[1..]) {
        WithinSweepCounts(small[1..], large[1..], keep);
      } else {
        WithinSweepCounts(small, large[1..], keep);
      }
    }
  }

  lemma RelatedGet(c: Cache, d: Cache, key: string, now: int)
    requires Related(c, d)
    ensures Related(Get(c, key, now).0, Get(d, key, now).0)
    ensures Get(c, key, now).1.Some? ==> Get(d, key, now).1 == Get(c, key, now).1
  {
    GetWellFormed(c, key, now);
    GetWellFormed(d, key, now);
    RelatedRemoval(c, d, key);
    LookupIn(c.items, key);
    LookupIn(d.items, key);
    if Holds(c, key) {
      WithinLookup(c.items, d.items, key);
      WithinFront(Lookup(c.items, key).value, Without(c.items, key), Without(d.items, key));
    }
    if Holds(d, key) && !Holds(c, key) {
      WithinSkip(c.items, Lookup(d.items, key).value, Without(d.items, key));
    }
  }

  lemma WithinSkip(small: seq<Item>, it: Item, large: seq<Item>)
    requires Within(small, large)
    ensures Within(small, [it] + large)
  {
    assert ([it] + large)[1..] == large;
  }

  lemma RelatedSet(c: Cache, d: Cache, key: string, value: string, ttl: int, writtenAt: int, now: int)
    requires Related(c, d) && !Splits(c, d, Event(SetOp(key, value, ttl, writtenAt), now))
    ensures Related(Set(c, key, value, ttl, writtenAt, now).0, Set(d, key, value, ttl, writtenAt, now).0)
  {
    hide Lookup, Without, DistinctKeys, Within;
    var it := NewItem(key, value, ttl, writtenAt, now);
    SetWellFormed(c, key, value, ttl, writtenAt, now);
    SetWellFormed(d, key, value, ttl, writtenAt, now);
    LookupIn(c.items, key);
    LookupIn(d.items, key);
    RelatedRemoval(c, d, key);
    var cn, dn := Min(|c.items|, c.capacity - 1), Min(|d.items|, d.capacity - 1);
    if Holds(c, key) {
      WithinLookup(c.items, d.items, key);
      WithinFront(it, Without(c.items, key), Without(d.items, key));
    } else if Holds(d, key) {
      var rest := Without(d.items, key);
      WithinTrim(c.items, rest, cn, |rest|);
      assert rest[..|rest|] == rest;
      WithinFront(it, c.items[..cn], rest);
    } else {
      WithinTrim(c.items, d.items, cn, dn);
      WithinFront(it, c.items[..cn], d.items[..dn]);
    }
  }

  /** At most one item leaves either end; the larger only trims when the smaller does. */
  lemma WithinTrim(small: seq<Item>, large: seq<Item>, sn: nat, ln: nat)
    requires Within(small, large)
    requires |small| - 1 <= sn <= |small| && |large| - 1 <= ln <= |large|
    requires ln < |large| ==> sn < |small|
    ensures Within(small[..sn], large[..ln])
  {
    if sn < |small| { WithinInit(small, large); }
    assert sn == |small| ==> small[..sn] == small;
    assert ln == |large| ==> large[..ln] == large;
  }

  lemma RelatedStep(c: Cache, d: Cache, e: Event)
    requires Related(c, d) && !Splits(c, d, e)
    ensures Related(Step(c, e), Step(d, e))
  {
    match e.op
    case GetOp(key) => RelatedGet(c, d, key, e.now);
    case SetOp(key, value, ttl, writtenAt) => RelatedSet(c, d, key, value, ttl, writtenAt, e.now);
    case DeleteOp(key) =>
      RelatedRemoval(c, d, key);
      LookupIn(c.items, key);
      LookupIn(d.items, key);
    case SweepOp =>
      WithinFilter(c.items, d.items, LiveAt(e.now));
      WithinSweepCounts(c.items, d.items, LiveAt(e.now));
      SweepWellFormed(c, e.now);
      SweepWellFormed(d, e.now);
  }

  /** One step keeps the smaller cache's items, in order and entry for entry, among the larger
      one's exactly when it does not split them; a step that does leaves the smaller cache with
      an older item for the key than the larger. */
  lemma InclusionStep(c: Cache, d: Cache, e: Event)
    requires Related(c, d)
    ensures Within(Step(c, e).items, Step(d, e).items) <==> !Splits(c, d, e)
    ensures !Splits(c, d, e) ==> Related(Step(c, e), Step(d, e))
    ensures Splits(c, d, e) ==>
      var small, large := Lookup(Step(c, e).items, e.op.key), Lookup(Step(d, e).items, e.op.key);
      small.Some? && large.Some? && small.value.writtenAt < large.value.writtenAt
  {
    hide Lookup, Within, Step;
    if Splits(c, d, e) {
      StepLookup(c, e, e.op.key);
      StepLookup(d, e, e.op.key);
      StepWellFormed(d, e);
      if Within(Step(c, e).items, Step(d, e).items) {
        WithinLookup(Step(c, e).items, Step(d, e).items, e.op.key);
        assert false;
      }
    } else {
      RelatedStep(c, d, e);
    }
  }

  /** No step of the trace splits the caches. */
  ghost predicate NeverSplits(c: Cache, d: Cache, es: seq<Event>)
    requires c.capacity >= 1 && d.capacity >= 1
  {
    es == [] || (NeverSplits(c, d, Init(es)) && !Splits(Run(c, Init(es)), Run(d, Init(es)), Last(es)))
  }

  /** After every step of the trace, the smaller cache's items are among the larger one's. */
  ghost predicate AlwaysWithin(c: Cache, d: Cache, es: seq<Event>)
    requires c.capacity >= 1 && d.capacity >= 1
  {
    Within(Run(c, es).items, Run(d, es).items) && (es == [] || AlwaysWithin(c, d, Init(es)))
  }

  /** Inclusion: throughout a trace the items of the smaller cache are, in order and entry for
      entry, among those of the larger, if and only if no write of the trace splits them. */
  lemma {:induction false} InclusionExactly(c: Cache, d: Cache, es: seq<Event>)
    requires Related(c, d)
    ensures AlwaysWithin(c, d, es) <==> NeverSplits(c, d, es)
    ensures NeverSplits(c, d, es) ==> Related(Run(c, es), Run(d, es))
  {
    hide Splits, Step, Within;
    if es != [] {
      InclusionExactly(c, d, Init(es));
      if NeverSplits(c, d, Init(es)) {
        InclusionStep(Run(c, Init(es)), Run(d, Init(es)), Last(es));
      }
    }
  }

  /** The largest writtenAt so far in a trace whose writes never go back. */
  function LastWrite(bound: int, es: seq<Event>): int {
    if es == [] then bound
    else if Last(es).op.SetOp? then Last(es).op.writtenAt
    else LastWrite(bound, Init(es))
  }

  predicate WritesAscend(bound: int, es: seq<Event>) {
    es == [] ||
    (WritesAscend(bound, Init(es)) && (Last(es).op.SetOp? ==> Last(es).op.writtenAt >= LastWrite(bound, Init(es))))
  }

  /** No item is newer than the bound. */
  ghost predicate NoneNewer(c: Cache, bound: int) {
    forall key :: Lookup(c.items, key).Some? ==> Lookup(c.items, key).value.writtenAt <= bound
  }

  lemma {:induction false} RunNoneNewer(c: Cache, es: seq<Event>, bound: int)
    requires WellFormed(c) && NoneNewer(c, bound) && WritesAscend(bound, es)
    ensures NoneNewer(Run(c, es), LastWrite(bound, es))
  {
    if es != [] {
      RunNoneNewer(c, Init(es), bound);
      RunWellFormed(c, Init(es));
      forall key | Lookup(Run(c, es).items, key).Some?
        ensures Lookup(Run(c, es).items, key).value.writtenAt <= LastWrite(bound, es)
      {
        StepLookup(Run(c, Init(es)), Last(es), key);
      }
    }
  }

  /** Writes whose writtenAt never goes back do not split the caches. */
  lemma {:induction false} AscendingNeverSplits(c: Cache, d: Cache, es: seq<Event>, bound: int)
    requires WellFormed(c) && WellFormed(d) && NoneNewer(d, bound) && WritesAscend(bound, es)
    ensures NeverSplits(c, d, es)
  {
    if es != [] {
      AscendingNeverSplits(c, d, Init(es), bound);
      RunNoneNewer(d, Init(es), bound);
    }
  }

  /** So on a trace whose writes have non-decreasing writtenAt the larger cache includes the
      smaller, throughout. */
  lemma LargerIncludesSmaller(c: Cache, d: Cache, es: seq<Event>, bound: int)
    requires Related(c, d) && NoneNewer(d, bound) && WritesAscend(bound, es)
    ensures AlwaysWithin(c, d, es) && Related(Run(c, es), Run(d, es))
  {
    AscendingNeverSplits(c, d, es, bound);
    InclusionExactly(c, d, es);
  }

  /** And whatever hits in the smaller of two caches started empty hits in the larger, with the
      same item, after any trace that never splits them; in particular after any trace whose
      writes have non-decreasing writtenAt. */
  lemma LargerHitsWhenSmallerHits(small: nat, large: nat, es: seq<Event>, bound: int, key: string, now: int)
    requires 1 <= small <= large
    requires NeverSplits(Cache(small, [], NO_STATS), Cache(large, [], NO_STATS), es) || WritesAscend(bound, es)
    ensures var c, d := Run(Cache(small, [], NO_STATS), es), Run(Cache(large, [], NO_STATS), es);
      Get(c, key, now).1.Some? ==> Get(d, key, now).1 == Get(c, key, now).1
  {
    var c, d := Cache(small, [], NO_STATS), Cache(large, [], NO_STATS);
    if WritesAscend(bound, es) { AscendingNeverSplits(c, d, es, bound); }
    InclusionExactly(c, d, es);
    RelatedGet(Run(c, es), Run(d, es), key, now);
  }

  /** Traces that split are easy to come by: fill the smaller of two caches until it has
      forgotten a key that the larger remembers, and repeat the write with an older stamp. */
  lemma SplitHappens(a: string, b: string, v: string, stamp: int) returns (es: seq<Event>)
    requires a != b
    ensures !AlwaysWithin(Cache(1, [], NO_STATS), Cache(2, [], NO_STATS), es)
  {
    var c0, d0 := Cache(1, [], NO_STATS), Cache(2, [], NO_STATS);
    var first, second := Event(SetOp(a, v, 0, stamp), 0), Event(SetOp(b, v, 0, stamp), 0);
    var stale := Event(SetOp(a, v, 0, stamp - 1), 0);
    var one := [] + [first];
    es := one + [second] + [stale];
    RunSnoc(c0, [], first);
    RunSnoc(d0, [], first);
    RunSnoc(c0, one, second);
    RunSnoc(d0, one, second);
    assert Run(c0, []) == c0 && Run(d0, []) == d0;
    assert Init(es) == one + [second] && Last(es) == stale;
    hide Run;
    OneWrite(c0, first);
    OneWrite(d0, first);
    StepWellFormed(d0, first);
    assert Step(Step(c0, first), second).items == [ItemOf(second)];
    assert Step(Step(d0, first), second).items == [ItemOf(second), ItemOf(first)];
    LookupFront(ItemOf(second), [], a);
    LookupFront(ItemOf(second), [ItemOf(first)], a);
    LookupFront(ItemOf(first), [], a);
    assert [ItemOf(second)] + [] == [ItemOf(second)] && [ItemOf(first)] + [] == [ItemOf(first)];
    assert Splits(Run(c0, one + [second]), Run(d0, one + [second]), stale);
    InclusionExactly(c0, d0, es);
  }

  lemma OneWrite(c: Cache, e: Event)
    requires c.capacity >= 1 && c.items == [] && e.op.SetOp?
    ensures Step(c, e).items == [ItemOf(e)]
  {
  }

  // ---------- conservation ----------

  function Gets(es: seq<Event>): nat {
    if es == [] then 0 else Gets(Init(es)) + if Last(es).op.GetOp? then 1 else 0
  }

  function Puts(es: seq<Event>): nat {
    if es == [] then 0 else Puts(Init(es)) + if Last(es).op.SetOp? then 1 else 0
  }

  /** Writes that found their key absent. */
  function Inserts(c: Cache, es: seq<Event>): nat
    requires c.capacity >= 1
  {
    if es == [] then 0
    else Inserts(c, Init(es)) + if Last(es).op.SetOp? && !Holds(Run(c, Init(es)), Last(es).op.key) then 1 else 0
  }

  /** How many steps of the trace are of a kind, judged by the cache they meet. */
  function Count(c: Cache, es: seq<Event>, kind: (Cache, Event) -> bool): nat
    requires c.capacity >= 1
  {
    if es == [] then 0 else Count(c, Init(es), kind) + if kind(Run(c, Init(es)), Last(es)) then 1 else 0
  }

  function AHit(): (Cache, Event) -> bool {
    (c: Cache, e: Event) => e.op.GetOp? && Get(c, e.op.key, e.now).1.Some?
  }

  function AnAppliedSet(): (Cache, Event) -> bool {
    (c: Cache, e: Event) => e.op.SetOp? && c.capacity >= 1 &&
      Set(c, e.op.key, e.op.value, e.op.ttl, e.op.writtenAt, e.now).1
  }

  function ADeletion(): (Cache, Event) -> bool {
    (c: Cache, e: Event) => e.op.DeleteOp? && Delete(c, e.op.key).1
  }

  /** A write of an absent key to a cache that has no room. */
  function AnEviction(): (Cache, Event) -> bool {
    (c: Cache, e: Event) => e.op.SetOp? && Lookup(c.items, e.op.key).None? && |c.items| == c.capacity
  }

  function One(b: bool): nat { if b then 1 else 0 }

  lemma StepCounters(c: Cache, e: Event)
    requires WellFormed(c)
    ensures var before, after := c.stats, Step(c, e).stats;
      && after.hits == before.hits + One(AHit()(c, e)) && after.sets == before.sets + One(AnAppliedSet()(c, e))
      && after.deletes == before.deletes + One(ADeletion()(c, e))
      && after.evictions == before.evictions + One(AnEviction()(c, e))
  {
    hide Lookup, Filter, DistinctKeys;
  }

  /** The counters count what they are named after: reads that hit, writes applied, deletions
      reported, keys evicted for room. */
  lemma {:induction false} CountersMean(capacity: nat, es: seq<Event>)
    requires capacity >= 1
    ensures var start := Cache(capacity, [], NO_STATS);
      var stats := Run(start, es).stats;
      && stats.hits == Count(start, es, AHit()) && stats.sets == Count(start, es, AnAppliedSet())
      && stats.deletes == Count(start, es, ADeletion()) && stats.evictions == Count(start, es, AnEviction())
  {
    hide Step, WellFormed, AHit, AnAppliedSet, ADeletion, AnEviction;
    var start := Cache(capacity, [], NO_STATS);
    StartIsWellFormed(capacity);
    if es != [] {
      CountersMean(capacity, Init(es));
      RunWellFormed(start, Init(es));
      StepCounters(Run(start, Init(es)), Last(es));
    }
  }

  lemma StartIsWellFormed(capacity: nat)
    requires capacity >= 1
    ensures WellFormed(Cache(capacity, [], NO_STATS))
  {
  }

  /** With these the other counters are pinned too: every insert is still held or was deleted,
      evicted or expired; every get is a hit or a miss; every write is applied or skipped. */
  lemma {:induction false} NothingIsLost(capacity: nat, es: seq<Event>)
    requires capacity >= 1
    ensures var start := Cache(capacity, [], NO_STATS);
      var c := Run(start, es);
      && |c.items| + c.stats.deletes + c.stats.evictions + c.stats.expired == Inserts(start, es)
      && c.stats.hits + c.stats.misses == Gets(es)
      && c.stats.sets + c.stats.skipped == Puts(es)
  {
    if es == [] {
    } else {
      NothingIsLost(capacity, Init(es));
      var start := Cache(capacity, [], NO_STATS);
      RunWellFormed(start, Init(es));
      var c, e := Run(start, Init(es)), Last(es);
      if !e.op.SweepOp? { LookupIn(c.items, e.op.key); }
    }
  }
}
