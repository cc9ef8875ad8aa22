/** The keyed bucket store as a value: one bucket per key, and the keys from least to most
    recently used. */
module LimiterModel {
  import opened Seqs
  import B = BucketModel

  datatype Entry = Entry(bucket: B.Bucket, lastUsed: real)

  datatype Limiter = Limiter(capacity: nat, idleTTL: real, order: seq<string>, items: map<string, Entry>)

  /** The list without the first occurrence of the key. */
  function RemoveFirst(order: seq<string>, key: string): seq<string> {
    if order == [] then []
    else if order[0] == key then order[1..]
    else [order[0]] + RemoveFirst(order[1..], key)
  }

  /** Drop keys from the front while the store is full. */
  function Evict(l: Limiter): Limiter
    decreases |l.order|
  {
    if |l.items| >= l.capacity && l.order != [] then
      Evict(l.(order := l.order[1..], items := l.items - {l.order[0]}))
    else l
  }

  /** One take: a new key gets a full bucket, an existing one is resized to the request's
      limits; either way the key becomes the most recently used. */
  function Take(l: Limiter, key: string, r: B.LimitedRequest): (Limiter, B.Result) {
    if key !in l.items then
      var room := Evict(l);
      var (b, res) := B.Take(B.New(r.rate, r.burst, r.now), r.now, r.cost);
      (room.(order := room.order + [key], items := room.items[key := Entry(b, r.now)]), res)
    else
      var (b, res) := B.TakeLimited(l.items[key].bucket, r);
      (l.(order := RemoveFirst(l.order, key) + [key], items := l.items[key := Entry(b, r.now)]), res)
  }

  function InUse(l: Limiter, now: real): string -> bool {
    (k: string) => k in l.items && now - l.items[k].lastUsed <= l.idleTTL
  }

  /** Drop every bucket idle for longer than the TTL. */
  function Sweep(l: Limiter, now: real): Limiter {
    l.(order := Filter(l.order, InUse(l, now)),
       items := map k | k in l.items && now - l.items[k].lastUsed <= l.idleTTL :: l.items[k])
  }

  // ---------- order and map agree ----------

  /** The order lists the map's keys once each, and fits the capacity. */
  ghost predicate Listing(l: Limiter) {
    && l.capacity >= 1
    && NoDup(l.order)
    && Elements(l.order) == l.items.Keys
    && |l.order| <= l.capacity
  }

  lemma ListingSize(l: Limiter)
    requires NoDup(l.order) && Elements(l.order) == l.items.Keys
    ensures |l.items| == |l.order|
  {
    NoDupCardinality(l.order);
    assert |l.items.Keys| == |l.items|;
  }

  lemma {:induction false} RemoveFirstIs(order: seq<string>, key: string)
    requires NoDup(order)
    ensures NoDup(RemoveFirst(order, key)) && Elements(RemoveFirst(order, key)) == Elements(order) - {key}
    ensures key in order ==> |RemoveFirst(order, key)| == |order| - 1
  {
    if order != [] {
      assert order == [order[0]] + order[1..];
      assert order[0] !in order[1..];
      if order[0] != key {
        RemoveFirstIs(order[1..], key);
        var t := RemoveFirst(order[1..], key);
        assert order[0] !in Elements(t);
        assert Elements([order[0]] + t) == {order[0]} + Elements(t);
      }
    }
  }

  lemma DropFront(l: Limiter)
    requires Listing(l) && l.order != []
    ensures Listing(l.(order := l.order[1..], items := l.items - {l.order[0]}))
  {
    assert l.order == [l.order[0]] + l.order[1..];
    assert l.order[0] !in l.order[1..];
  }

  /** Eviction drops at most one key: the front one, exactly when the store is full. */
  lemma EvictsTheFront(l: Limiter)
    requires Listing(l)
    ensures Listing(Evict(l)) && |Evict(l).order| < l.capacity
    ensures Evict(l) == if |l.order| == l.capacity
      then l.(order := l.order[1..], items := l.items - {l.order[0]}) else l
  {
    ListingSize(l);
    if |l.order| == l.capacity {
      DropFront(l);
      var l' := l.(order := l.order[1..], items := l.items - {l.order[0]});
      ListingSize(l');
      assert Evict(l') == l';
    }
  }

  lemma AppendListing(order: seq<string>, items: map<string, Entry>, key: string, e: Entry)
    requires NoDup(order) && Elements(order) + {key} == items.Keys + {key} && key !in order
    ensures NoDup(order + [key]) && Elements(order + [key]) == items[key := e].Keys
  {
    assert Elements(order + [key]) == Elements(order) + {key};
  }

  lemma TakeKeepsListing(l: Limiter, key: string, r: B.LimitedRequest)
    requires Listing(l)
    ensures Listing(Take(l, key, r).0)
  {
    if key !in l.items {
      EvictsTheFront(l);
      assert key !in Elements(Evict(l).order);
      AppendListing(Evict(l).order, Evict(l).items, key, Take(l, key, r).0.items[key]);
    } else {
      RemoveFirstIs(l.order, key);
      assert key in Elements(l.order) && key !in Elements(RemoveFirst(l.order, key));
      AppendListing(RemoveFirst(l.order, key), l.items, key, Take(l, key, r).0.items[key]);
    }
  }

  /** What a take on a key answers and leaves: an existing bucket pays from its old balance with
      what its old rate has earned, up to both bursts; a new one from its burst. The key is used
      now. */
  lemma KeyedTakeExactly(l: Limiter, key: string, r: B.LimitedRequest)
    requires Listing(l) && r.rate >= 0.0 && r.burst >= 0.0
    requires key in l.items ==> B.Sound(l.items[key].bucket) && l.items[key].bucket.lastRefill <= r.now
    ensures var (l', res) := Take(l, key, r);
      var balance := if key in l.items then B.Affordable(l.items[key].bucket, r) else r.burst;
      && (res.allowed <==> B.NotNegative(r.cost) <= balance)
      && res.remaining == (if res.allowed then balance - B.NotNegative(r.cost) else balance)
      && key in l'.items && l'.items[key] == Entry(B.Bucket(res.remaining, r.now, r.rate, r.burst), r.now)
  {
    hide B.Take, B.TakeLimited, Evict, Listing, B.Affordable;
    if key in l.items {
      B.TakeLimitedExactly(l.items[key].bucket, r);
    } else {
      B.NewBucketPays(r.rate, r.burst, r.now, r.cost);
      NewBucketNeedsNoResize(r);
      B.LimitedStep(B.New(r.rate, r.burst, r.now), r);
    }
  }

  /** A take leaves every other bucket that stays as it was; a key only goes when a new one finds
      the store full. */
  lemma TakeKeepsOthers(l: Limiter, key: string, r: B.LimitedRequest)
    requires Listing(l)
    ensures var l' := Take(l, key, r).0;
      && (forall k :: k in l'.items && k != key ==> k in l.items && l'.items[k] == l.items[k])
      && (key in l.items || |l.order| < l.capacity ==> l'.items.Keys == l.items.Keys + {key})
  {
    hide B.Take, B.TakeLimited, B.New, Evict;
    EvictsTheFront(l);
  }

  lemma SweepKeepsListing(l: Limiter, now: real)
    requires Listing(l)
    ensures Listing(Sweep(l, now))
  {
    FilterNoDup(l.order, InUse(l, now));
    FilterKeeps(l.order, InUse(l, now));
    forall k ensures k in Elements(Sweep(l, now).order) <==> k in Sweep(l, now).items {
      assert k in Elements(l.order) <==> k in l.items;
    }
  }

  // ---------- with a clock that never goes back, the order is by last use ----------

  ghost predicate UseOrder(order: seq<string>, items: map<string, Entry>) {
    && (forall i :: 0 <= i < |order| ==> order[i] in items)
    && forall i, j :: 0 <= i < j < |order| ==> items[order[i]].lastUsed <= items[order[j]].lastUsed
  }

  ghost predicate ByLastUse(l: Limiter, now: real) {
    UseOrder(l.order, l.items) && forall k :: k in l.items ==> l.items[k].lastUsed <= now
  }

  lemma UseOrderTail(order: seq<string>, items: map<string, Entry>)
    requires UseOrder(order, items) && order != []
    ensures UseOrder(order[1..], items) && order[0] in items
    ensures forall k :: k in order[1..] ==> k in items && items[order[0]].lastUsed <= items[k].lastUsed
  {
  }

  lemma UseOrderPush(x: string, order: seq<string>, items: map<string, Entry>)
    requires UseOrder(order, items) && x in items
    requires forall k :: k in order ==> k in items && items[x].lastUsed <= items[k].lastUsed
    ensures UseOrder([x] + order, items)
  {
  }

  lemma {:induction false} UseOrderRemove(order: seq<string>, items: map<string, Entry>, key: string)
    requires UseOrder(order, items)
    ensures UseOrder(RemoveFirst(order, key), items)
    ensures forall k :: k in RemoveFirst(order, key) ==> k in order
  {
    hide UseOrder;
    if order == [] {
    } else {
      UseOrderTail(order, items);
      if order[0] != key {
        UseOrderRemove(order[1..], items, key);
        UseOrderPush(order[0], RemoveFirst(order[1..], key), items);
      }
    }
  }

  lemma UseOrderAppend(order: seq<string>, items: map<string, Entry>, items': map<string, Entry>, key: string)
    requires UseOrder(order, items) && key !in order && key in items'
    requires forall k :: k in order ==> k in items' && items'[k] == items[k]
    requires forall k :: k in items' ==> items'[k].lastUsed <= items'[key].lastUsed
    ensures UseOrder(order + [key], items')
  {
  }

  lemma TakeKeepsUseOrder(l: Limiter, key: string, r: B.LimitedRequest, now: real)
    requires Listing(l) && ByLastUse(l, now) && now <= r.now
    ensures ByLastUse(Take(l, key, r).0, r.now)
  {
    hide UseOrder, Evict;
    var l' := Take(l, key, r).0;
    if key !in l.items {
      EvictsTheFront(l);
      var room := Evict(l);
      assert key !in Elements(room.order);
      assert forall k :: k in room.order ==> k in Elements(room.order);
      UseOrderWithoutFront(l);
      UseOrderAppend(room.order, room.items, l'.items, key);
    } else {
      RemoveFirstIs(l.order, key);
      UseOrderRemove(l.order, l.items, key);
      assert key !in Elements(RemoveFirst(l.order, key));
      assert forall k :: k in l.order ==> k in Elements(l.order);
      UseOrderAppend(RemoveFirst(l.order, key), l.items, l'.items, key);
    }
  }

  lemma UseOrderWithoutFront(l: Limiter)
    requires Listing(l) && UseOrder(l.order, l.items)
    ensures l.order != [] ==> UseOrder(l.order[1..], l.items - {l.order[0]})
  {
  }

  lemma {:induction false} SortedFilterIsSuffix(order: seq<string>, items: map<string, Entry>, keep: string -> bool,
                                                cut: real)
    returns (p: nat)
    requires UseOrder(order, items)
    requires forall k :: k in order ==> (keep(k) <==> items[k].lastUsed >= cut)
    ensures p <= |order| && Filter(order, keep) == order[p..]
    ensures forall k :: k in order[..p] ==> !keep(k)
  {
    if order == [] {
      p := 0;
    } else if keep(order[0]) {
      p := 0;
      FilterAll(order, keep);
    } else {
      var q := SortedFilterIsSuffix(order[1..], items, keep, cut);
      p := q + 1;
      assert order[1..][q..] == order[p..] && order[..p] == [order[0]] + order[1..][..q];
    }
  }

  lemma UseOrderSuffix(order: seq<string>, items: map<string, Entry>, p: nat, items': map<string, Entry>)
    requires UseOrder(order, items) && p <= |order|
    requires forall k :: k in order[p..] ==> k in items' && items'[k] == items[k]
    ensures UseOrder(order[p..], items')
  {
    assert forall i :: 0 <= i < |order[p..]| ==> order[p..][i] == order[p + i] && order[p..][i] in order[p..];
  }

  /** The sweep removes exactly a prefix of the order and keeps it sorted. */
  lemma SweepRemovesAPrefix(l: Limiter, clock: real, now: real) returns (p: nat)
    requires Listing(l) && ByLastUse(l, clock) && clock <= now
    ensures p <= |l.order| && Sweep(l, now).order == l.order[p..]
    ensures Sweep(l, now).items.Keys == l.items.Keys - Elements(l.order[..p])
    ensures ByLastUse(Sweep(l, now), now)
  {
    p := SortedFilterIsSuffix(l.order, l.items, InUse(l, now), now - l.idleTTL);
    hide UseOrder, Filter;
    SweepKeepsListing(l, now);
    var gone, l' := l.order[..p], Sweep(l, now);
    SuffixElements(gone, l'.order, l.order);
    assert forall k :: k in l'.order ==> k in Elements(l'.order);
    UseOrderSuffix(l.order, l.items, p, l'.items);
  }

  lemma SuffixElements(gone: seq<string>, rest: seq<string>, order: seq<string>)
    requires order == gone + rest && NoDup(order)
    ensures Elements(rest) == Elements(order) - Elements(gone)
  {
    forall k ensures k in rest <==> k in order && k !in gone {
      assert forall i :: 0 <= i < |gone| ==> order[i] == gone[i];
      assert forall j :: 0 <= j < |rest| ==> rest[j] == order[|gone| + j];
    }
  }

  /** The victim of an eviction is least recently used. */
  lemma VictimIsLeastRecentlyUsed(l: Limiter, now: real, key: string)
    requires Listing(l) && ByLastUse(l, now) && key in l.items
    ensures l.order != [] && l.items[l.order[0]].lastUsed <= l.items[key].lastUsed
  {
    assert key in Elements(l.order);
    var i :| 0 <= i < |l.order| && l.order[i] == key;
  }

  // ---------- runs ----------

  datatype Op = TakeOp(key: string, req: B.LimitedRequest) | SweepOp(now: real)

  function Step(l: Limiter, op: Op): Limiter {
    match op
    case TakeOp(key, req) => Take(l, key, req).0
    case SweepOp(now) => Sweep(l, now)
  }

  function Run(l: Limiter, ops: seq<Op>): Limiter {
    if ops == [] then l else Step(Run(l, Init(ops)), Last(ops))
  }

  lemma {:induction false} RunKeepsListing(l: Limiter, ops: seq<Op>)
    requires Listing(l)
    ensures Listing(Run(l, ops)) && Run(l, ops).capacity == l.capacity && Run(l, ops).idleTTL == l.idleTTL
  {
    if ops != [] {
      RunKeepsListing(l, Init(ops));
      var before := Run(l, Init(ops));
      match Last(ops)
      case TakeOp(key, req) =>
        TakeKeepsListing(before, key, req);
        EvictsTheFront(before);
      case SweepOp(now) =>
        SweepKeepsListing(before, now);
    }
  }

  /** The result of each take of a run. */
  function Results(l: Limiter, ops: seq<Op>): seq<B.Result> {
    if ops == [] then []
    else Results(l, Init(ops)) + ResultOf(Run(l, Init(ops)), Last(ops))
  }

  function ResultOf(l: Limiter, op: Op): seq<B.Result> {
    match op
    case TakeOp(key, req) => [Take(l, key, req).1]
    case SweepOp(_) => []
  }

  /** What a step allows for the key. */
  function Grant(l: Limiter, op: Op, key: string): real {
    if op.TakeOp? && op.key == key && Take(l, key, op.req).1.allowed then B.RMax(op.req.cost, 0.0) else 0.0
  }

  /** All that a run allows for the key, over all the buckets it had. */
  function Granted(l: Limiter, ops: seq<Op>, key: string): real {
    if ops == [] then 0.0 else Granted(l, Init(ops), key) + Grant(Run(l, Init(ops)), Last(ops), key)
  }

  lemma NothingYet(l: Limiter)
    ensures Run(l, []) == l && Results(l, []) == []
    ensures forall key :: Granted(l, [], key) == 0.0
  {
  }

  lemma Snoc(l: Limiter, ops: seq<Op>, op: Op)
    ensures Run(l, ops + [op]) == Step(Run(l, ops), op)
    ensures Results(l, ops + [op]) == Results(l, ops) + ResultOf(Run(l, ops), op)
    ensures forall key :: Granted(l, ops + [op], key) == Granted(l, ops, key) + Grant(Run(l, ops), op, key)
  {
    assert Init(ops + [op]) == ops && Last(ops + [op]) == op;
  }

  function TimeOf(op: Op): real {
    match op
    case TakeOp(_, req) => req.now
    case SweepOp(now) => now
  }

  /** A clock that never goes back, and limits that are not negative. */
  ghost predicate Proper(clock: real, ops: seq<Op>) {
    ops == [] || (Proper(clock, Init(ops)) && ClockAfter(clock, Init(ops)) <= TimeOf(Last(ops))
      && (Last(ops).TakeOp? ==> Last(ops).req.rate >= 0.0 && Last(ops).req.burst >= 0.0))
  }

  function ClockAfter(clock: real, ops: seq<Op>): real {
    if ops == [] then clock else TimeOf(Last(ops))
  }

  /** With a clock that never goes back, the order is by last use in every run. */
  lemma {:induction false} RunKeepsUseOrder(l: Limiter, ops: seq<Op>, clock: real)
    requires Listing(l) && ByLastUse(l, clock) && Proper(clock, ops)
    ensures ByLastUse(Run(l, ops), ClockAfter(clock, ops))
  {
    if ops != [] {
      RunKeepsUseOrder(l, Init(ops), clock);
      RunKeepsListing(l, Init(ops));
      var before, now := Run(l, Init(ops)), ClockAfter(clock, Init(ops));
      match Last(ops)
      case TakeOp(key, req) => TakeKeepsUseOrder(before, key, req, now);
      case SweepOp(at) => var p := SweepRemovesAPrefix(before, now, at);
    }
  }

  /** The time of the last take on the key. */
  function LastTake(ops: seq<Op>, key: string): Option<real> {
    if ops == [] then None
    else if Last(ops).TakeOp? && Last(ops).key == key then Some(Last(ops).req.now)
    else LastTake(Init(ops), key)
  }

  lemma StepLastUsed(l: Limiter, op: Op, key: string)
    requires Listing(l) && key in Step(l, op).items
    ensures if op.TakeOp? && op.key == key then Step(l, op).items[key].lastUsed == op.req.now
            else key in l.items && Step(l, op).items[key].lastUsed == l.items[key].lastUsed
  {
    if op.TakeOp? { TakeKeepsOthers(l, op.key, op.req); }
  }

  /** An entry says when its key was last taken from. */
  lemma {:induction false} LastUsedIsLastTake(l: Limiter, ops: seq<Op>, key: string)
    requires Listing(l) && key !in l.items && key in Run(l, ops).items
    ensures LastTake(ops, key) == Some(Run(l, ops).items[key].lastUsed)
  {
    hide Step, Listing;
    var before := Run(l, Init(ops));
    RunKeepsListing(l, Init(ops));
    StepLastUsed(before, Last(ops), key);
    if key in before.items { LastUsedIsLastTake(l, Init(ops), key); }
  }

  function Empty(capacity: nat, idleTTL: real): Limiter {
    Limiter(capacity, idleTTL, [], map[])
  }

  /** In every run from an empty store, what an eviction drops is least recently used. */
  lemma RunEvictsLeastRecentlyUsed(capacity: nat, idleTTL: real, ops: seq<Op>, clock: real, gone: string, key: string)
    requires capacity >= 1 && Proper(clock, ops)
    requires var l := Run(Empty(capacity, idleTTL), ops);
      gone in l.items && gone !in Evict(l).items && key in l.items
    ensures LastTake(ops, gone).Some? && LastTake(ops, key).Some?
    ensures LastTake(ops, gone).value <= LastTake(ops, key).value
  {
    RunKeepsListing(Empty(capacity, idleTTL), ops);
    RunKeepsUseOrder(Empty(capacity, idleTTL), ops, clock);
    var l := Run(Empty(capacity, idleTTL), ops);
    EvictsTheFront(l);
    VictimIsLeastRecentlyUsed(l, ClockAfter(clock, ops), key);
    LastUsedIsLastTake(Empty(capacity, idleTTL), ops, gone);
    LastUsedIsLastTake(Empty(capacity, idleTTL), ops, key);
  }

  /** In every run from an empty store, a sweep drops exactly a prefix of the order. */
  lemma RunSweepsAPrefix(capacity: nat, idleTTL: real, ops: seq<Op>, clock: real, now: real) returns (p: nat)
    requires capacity >= 1 && Proper(clock, ops) && ClockAfter(clock, ops) <= now
    ensures var l := Run(Empty(capacity, idleTTL), ops);
      && p <= |l.order| && Sweep(l, now).order == l.order[p..]
      && Sweep(l, now).items.Keys == l.items.Keys - Elements(l.order[..p])
      && forall k :: k in l.items ==>
           LastTake(ops, k).Some? && (k in Elements(l.order[..p]) <==> now - LastTake(ops, k).value > idleTTL)
  {
    RunKeepsListing(Empty(capacity, idleTTL), ops);
    RunKeepsUseOrder(Empty(capacity, idleTTL), ops, clock);
    var l := Run(Empty(capacity, idleTTL), ops);
    p := SweepRemovesAPrefix(l, ClockAfter(clock, ops), now);
    forall k | k in l.items ensures LastTake(ops, k) == Some(l.items[k].lastUsed) {
      LastUsedIsLastTake(Empty(capacity, idleTTL), ops, k);
    }
  }

  // ---------- one incarnation of one bucket ----------

  /** The takes on `key` since its bucket was created. */
  function Incarnation(l: Limiter, ops: seq<Op>, key: string): seq<B.LimitedRequest> {
    if ops == [] || key !in Run(l, ops).items then []
    else
      (if key in Run(l, Init(ops)).items then Incarnation(l, Init(ops), key) else []) +
      (if Last(ops).TakeOp? && Last(ops).key == key then [Last(ops).req] else [])
  }

  /** What those takes were allowed. */
  function Allowed(l: Limiter, ops: seq<Op>, key: string): real {
    if ops == [] || key !in Run(l, ops).items then 0.0
    else
      var before := Run(l, Init(ops));
      (if key in before.items then Allowed(l, Init(ops), key) else 0.0) +
      Grant(before, Last(ops), key)
  }

  lemma IncarnationSnoc(l: Limiter, init: seq<Op>, op: Op, key: string)
    requires key in Run(l, init + [op]).items
    ensures var before := Run(l, init);
      && Run(l, init + [op]) == Step(before, op)
      && Incarnation(l, init + [op], key) ==
           (if key in before.items then Incarnation(l, init, key) else []) +
           (if op.TakeOp? && op.key == key then [op.req] else [])
      && Allowed(l, init + [op], key) ==
           (if key in before.items then Allowed(l, init, key) else 0.0) +
           Grant(before, op, key)
  {
    assert Init(init + [op]) == init && Last(init + [op]) == op;
  }

  function FirstBucket(rs: seq<B.LimitedRequest>): B.Bucket
    requires rs != []
  {
    B.New(rs[0].rate, rs[0].burst, rs[0].now)
  }

  lemma NewBucketNeedsNoResize(r: B.LimitedRequest)
    requires r.rate >= 0.0 && r.burst >= 0.0
    ensures B.TakeLimited(B.New(r.rate, r.burst, r.now), r) == B.Take(B.New(r.rate, r.burst, r.now), r.now, r.cost)
    ensures B.ValidLimits(r.now, [r])
    ensures B.RunLimited(B.New(r.rate, r.burst, r.now), [r]) == B.TakeLimited(B.New(r.rate, r.burst, r.now), r).0
    ensures B.SpentLimited(B.New(r.rate, r.burst, r.now), [r])
         == if B.TakeLimited(B.New(r.rate, r.burst, r.now), r).1.allowed then B.RMax(r.cost, 0.0) else 0.0
  {
    assert Init([r]) == [] && Last([r]) == r;
    assert B.ValidLimits(r.now, Init([r]));
  }

  /** What one step does to the entry of a key. */
  lemma StepEntry(l: Limiter, op: Op, key: string)
    requires Listing(l) && key in Step(l, op).items
    ensures op.TakeOp? && op.key == key && key !in l.items ==>
      Step(l, op).items[key].bucket == B.Take(B.New(op.req.rate, op.req.burst, op.req.now), op.req.now, op.req.cost).0
    ensures op.TakeOp? && op.key == key && key in l.items ==>
      Step(l, op).items[key].bucket == B.TakeLimited(l.items[key].bucket, op.req).0
    ensures op.TakeOp? && op.key == key && key in l.items ==>
      Take(l, key, op.req).1 == B.TakeLimited(l.items[key].bucket, op.req).1
    ensures op.TakeOp? && op.key == key && key !in l.items ==>
      Take(l, key, op.req).1 == B.Take(B.New(op.req.rate, op.req.burst, op.req.now), op.req.now, op.req.cost).1
    ensures !(op.TakeOp? && op.key == key) ==> key in l.items && Step(l, op).items[key] == l.items[key]
  {
    hide B.Take, B.TakeLimited, B.New;
    EvictsTheFront(l);
  }

  lemma NotEmpty(l: Limiter, ops: seq<Op>, key: string)
    requires key !in l.items && key in Run(l, ops).items
    ensures ops != []
  {
  }

  /** Other keys, sweeps and evictions do not disturb a bucket: it is what its own takes made
      of the full bucket it started as. */
  lemma {:induction false} BucketIsItsIncarnation(l: Limiter, ops: seq<Op>, key: string, clock: real)
    requires Listing(l) && key !in l.items && Proper(clock, ops)
    requires key in Run(l, ops).items
    ensures var rs := Incarnation(l, ops, key);
      && rs != [] && rs[0].rate >= 0.0 && rs[0].burst >= 0.0
      && Run(l, ops).items[key].bucket == B.RunLimited(FirstBucket(rs), rs)
      && Allowed(l, ops, key) == B.SpentLimited(FirstBucket(rs), rs)
      && B.ValidLimits(rs[0].now, rs)
      && B.ClockAfter(rs[0].now, rs) <= ClockAfter(clock, ops)
  {
    hide B.Take, B.TakeLimited, B.New, Evict, Listing, Step, Sweep, Take;
    hide Run, Incarnation, Allowed, B.RunLimited, B.SpentLimited, B.ValidLimits;
    NotEmpty(l, ops, key);
    var init, op := Init(ops), Last(ops);
    var before, rs := Run(l, init), Incarnation(l, ops, key);
    assert ops == init + [op];
    IncarnationSnoc(l, init, op, key);
    RunKeepsListing(l, init);
    StepEntry(before, op, key);
    if key in before.items {
      NotEmpty(l, init, key);
      BucketIsItsIncarnation(l, init, key, clock);
      var rs0 := Incarnation(l, init, key);
      if op.TakeOp? && op.key == key {
        assert rs == rs0 + [op.req];
        B.LimitedSnoc(FirstBucket(rs0), rs0, op.req, rs0[0].now);
      } else {
        assert rs == rs0;
      }
    } else {
      assert rs == [op.req];
      NewBucketNeedsNoResize(op.req);
    }
  }

  /** The keyed store enforces the limit on every bucket it keeps: since its creation a
      bucket allowed at most its first burst plus the rates in force over time. */
  lemma IncarnationIsLimited(l: Limiter, ops: seq<Op>, key: string, clock: real)
    requires Listing(l) && key !in l.items && Proper(clock, ops)
    requires key in Run(l, ops).items
    ensures var rs := Incarnation(l, ops, key);
      && rs != []
      && Allowed(l, ops, key) <= rs[0].burst + B.Accrued(FirstBucket(rs), rs)
  {
    BucketIsItsIncarnation(l, ops, key, clock);
    var rs := Incarnation(l, ops, key);
    B.ChangingLimitsMintNothing(FirstBucket(rs), rs);
  }

  /** Once created, the bucket of a key is not dropped before the end of the run. */
  predicate Uninterrupted(l: Limiter, ops: seq<Op>, key: string) {
    ops == [] ||
    (Uninterrupted(l, Init(ops), key) && (key in Run(l, Init(ops)).items ==> key in Run(l, ops).items))
  }

  /** All that was allowed was then allowed by that bucket. */
  lemma {:induction false} GrantedByOneBucket(l: Limiter, ops: seq<Op>, key: string)
    requires Uninterrupted(l, ops, key) && key !in l.items
    ensures Granted(l, ops, key) == Allowed(l, ops, key)
  {
    hide Evict, B.Take, B.TakeLimited;
    if ops != [] {
      GrantedByOneBucket(l, Init(ops), key);
    }
  }
}
