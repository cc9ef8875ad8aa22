/** What idle sweeps do to whole runs of takes: when they cannot be seen, and what the limit is
    across the buckets a key had. */
module LimiterTraces {
  import opened Seqs
  import opened LimiterModel
  import B = BucketModel

  function TakesOnly(): Op -> bool { (op: Op) => op.TakeOp? }

  function Takes(ops: seq<Op>): seq<Op> { Filter(ops, TakesOnly()) }

  lemma TakesOf(ops: seq<Op>)
    requires ops != []
    ensures Takes(ops) == if Last(ops).TakeOp? then Takes(Init(ops)) + [Last(ops)] else Takes(Init(ops))
  {
    assert ops == Init(ops) + [Last(ops)];
    FilterSnoc(Init(ops), Last(ops), TakesOnly());
    if !Last(ops).TakeOp? { assert Takes(Init(ops)) + [] == Takes(Init(ops)); }
  }

  lemma TakesKeep(ops: seq<Op>)
    ensures forall op :: op in Takes(ops) <==> op in ops && op.TakeOp?
  {
    FilterKeeps(ops, TakesOnly());
  }

  lemma SnocSplits(ops: seq<Op>, op: Op)
    ensures ops + [op] != [] && Init(ops + [op]) == ops && Last(ops + [op]) == op
  {
  }

  predicate TakesWithin(keys: set<string>, ops: seq<Op>) {
    forall op :: op in ops && op.TakeOp? ==> op.key in keys
  }

  // ---------- when a sweep can be seen ----------

  /** A sound bucket, last refilled when it was last used. */
  ghost predicate Kept(e: Entry, now: real) {
    B.Sound(e.bucket) && e.bucket.lastRefill == e.lastUsed <= now
  }

  /** `s` sweeps and `n` never does; both have room for all the keys. What `s` has lost has been
      idle for longer than the TTL. */
  ghost predicate SweptVersion(s: Limiter, n: Limiter, keys: set<string>, now: real) {
    && Listing(s) && Listing(n) && s.idleTTL == n.idleTTL
    && s.items.Keys <= n.items.Keys <= keys && |keys| <= s.capacity && |keys| <= n.capacity
    && (forall k :: k in s.items ==> n.items[k] == s.items[k])
    && (forall k :: k in n.items ==> Kept(n.items[k], now))
    && (forall k :: k in n.items && k !in s.items ==> now - n.items[k].lastUsed > n.idleTTL)
  }

  /** If the take finds its bucket idle for longer than the TTL, the bucket has meanwhile come to
      hold all of the burst that the take asks for. */
  predicate RefilledFor(l: Limiter, op: Op) {
    op.TakeOp? && op.key in l.items && op.req.now - l.items[op.key].lastUsed > l.idleTTL ==>
      B.Refill(l.items[op.key].bucket, op.req.now).tokens >= op.req.burst
  }

  ghost predicate RefilledAcrossGaps(l: Limiter, takes: seq<Op>) {
    takes == [] || (RefilledAcrossGaps(l, Init(takes)) && RefilledFor(Run(l, Init(takes)), Last(takes)))
  }

  lemma RefilledSnoc(l: Limiter, takes: seq<Op>, op: Op)
    ensures RefilledAcrossGaps(l, takes + [op]) <==> RefilledAcrossGaps(l, takes) && RefilledFor(Run(l, takes), op)
  {
    SnocSplits(takes, op);
  }

  /** A kept bucket answers a take as a new one exactly when it has come to hold all of the burst
      that the take asks for. */
  lemma KeptOrNew(e: Entry, r: B.LimitedRequest)
    requires Kept(e, r.now) && r.rate >= 0.0 && r.burst >= 0.0
    ensures var kept, fresh_ := B.TakeLimited(e.bucket, r), B.Take(B.New(r.rate, r.burst, r.now), r.now, r.cost);
      && (B.Refill(e.bucket, r.now).tokens >= r.burst ==> kept == fresh_)
      && (B.Refill(e.bucket, r.now).tokens < r.burst ==> kept.1 != fresh_.1)
  {
    hide B.Earned, B.RetryAfterMs;
    B.RefillSound(e.bucket, r.now);
    B.EarnedAdds(e.lastUsed, r.now, r.now, e.bucket.rate);
  }

  lemma TakeEntryKept(b: B.Bucket, r: B.LimitedRequest)
    requires B.Sound(b) && b.lastRefill <= r.now && r.rate >= 0.0 && r.burst >= 0.0
    ensures Kept(Entry(B.TakeLimited(b, r).0, r.now), r.now)
  {
    B.LimitedStep(b, r);
  }

  lemma NewEntryKept(r: B.LimitedRequest)
    requires r.rate >= 0.0 && r.burst >= 0.0
    ensures Kept(Entry(B.Take(B.New(r.rate, r.burst, r.now), r.now, r.cost).0, r.now), r.now)
  {
    B.TakeSound(B.New(r.rate, r.burst, r.now), r.now, r.cost);
  }

  /** Both stores come to hold the same new entry. */
  lemma SweptUpdate(s: Limiter, n: Limiter, s': Limiter, n': Limiter, keys: set<string>,
                    clock: real, key: string, e: Entry)
    requires SweptVersion(s, n, keys, clock) && clock <= e.lastUsed && key in keys
    requires Listing(s') && s' == s.(order := s'.order, items := s.items[key := e])
    requires Listing(n') && n' == n.(order := n'.order, items := n.items[key := e])
    requires Kept(e, e.lastUsed)
    ensures SweptVersion(s', n', keys, e.lastUsed)
  {
    hide Listing;
  }

  /** A take gives the same result with and without earlier sweeps. */
  lemma SweptTake(s: Limiter, n: Limiter, keys: set<string>, clock: real, key: string, r: B.LimitedRequest)
    requires SweptVersion(s, n, keys, clock)
    requires clock <= r.now && key in keys && r.rate >= 0.0 && r.burst >= 0.0
    requires RefilledFor(n, TakeOp(key, r))
    ensures Take(s, key, r).1 == Take(n, key, r).1
    ensures SweptVersion(Take(s, key, r).0, Take(n, key, r).0, keys, r.now)
  {
    hide Listing, B.Take, B.TakeLimited, B.New, B.Refill, Evict;
    var s', n' := Take(s, key, r).0, Take(n, key, r).0;
    TakeKeepsListing(s, key, r);
    TakeKeepsListing(n, key, r);
    RoomForKey(s, keys, key);
    RoomForKey(n, keys, key);
    NewEntryKept(r);
    if key in n.items {
      TakeEntryKept(n.items[key].bucket, r);
      if key !in s.items {
        KeptOrNew(n.items[key], r);
      }
    }
    SweptUpdate(s, n, s', n', keys, clock, key, n'.items[key]);
  }

  lemma RoomForKey(l: Limiter, keys: set<string>, key: string)
    requires Listing(l) && l.items.Keys <= keys && key in keys && |keys| <= l.capacity
    ensures key !in l.items ==> Evict(l) == l
  {
    if key !in l.items {
      ListingSize(l);
      SubsetCardinality(l.items.Keys + {key}, keys);
      EvictsTheFront(l);
    }
  }

  lemma SweptSweep(s: Limiter, n: Limiter, keys: set<string>, clock: real, now: real)
    requires SweptVersion(s, n, keys, clock) && clock <= now
    ensures SweptVersion(Sweep(s, now), n, keys, now)
  {
    hide Listing;
    SweepKeepsListing(s, now);
  }

  lemma SweptStep(s: Limiter, n: Limiter, keys: set<string>, clock: real, op: Op)
    requires SweptVersion(s, n, keys, clock) && clock <= TimeOf(op)
    requires op.TakeOp? ==> op.key in keys && op.req.rate >= 0.0 && op.req.burst >= 0.0 && RefilledFor(n, op)
    ensures op.TakeOp? ==>
      && ResultOf(s, op) == ResultOf(n, op) && SweptVersion(Step(s, op), Step(n, op), keys, TimeOf(op))
      && forall key :: Grant(s, op, key) == Grant(n, op, key)
    ensures op.SweepOp? ==>
      && ResultOf(s, op) == [] && SweptVersion(Step(s, op), n, keys, TimeOf(op))
      && forall key :: Grant(s, op, key) == 0.0
  {
    hide SweptVersion, Take, Sweep, RefilledFor;
    match op
    case TakeOp(key, req) => SweptTake(s, n, keys, clock, key, req);
    case SweepOp(now) => SweptSweep(s, n, keys, clock, now);
  }

  /** If every take that finds its bucket idle for longer than the TTL also finds it refilled,
      in the run without sweeps, then sweeping at arbitrary moments changes no result. */
  lemma {:induction false} SweepsAreInvisible(s: Limiter, n: Limiter, keys: set<string>, clock: real, ops: seq<Op>)
    requires SweptVersion(s, n, keys, clock) && Proper(clock, ops) && TakesWithin(keys, ops)
    requires RefilledAcrossGaps(n, Takes(ops))
    ensures Results(s, ops) == Results(n, Takes(ops))
    ensures forall key :: Granted(s, ops, key) == Granted(n, Takes(ops), key)
    ensures SweptVersion(Run(s, ops), Run(n, Takes(ops)), keys, ClockAfter(clock, ops))
  {
    hide SweptVersion, Take, Sweep, Takes, Run, Results, Granted, Grant;
    hide RefilledFor, RefilledAcrossGaps, ResultOf, Step;
    if ops == [] {
      NothingYet(s);
      NothingYet(n);
      NoTakes();
    } else {
      var init, op := Init(ops), Last(ops);
      assert op in ops && forall o :: o in init ==> o in ops;
      var kept := Takes(init);
      TakesOf(ops);
      if op.TakeOp? { RefilledSnoc(n, kept, op); }
      SweepsAreInvisible(s, n, keys, clock, init);
      RunLast(s, ops);
      Snoc(n, kept, op);
      SweptStep(Run(s, init), Run(n, kept), keys, ClockAfter(clock, init), op);
      if !op.TakeOp? {
        assert Results(s, ops) == Results(s, init);
      }
    }
  }

  lemma NoTakes()
    ensures Takes([]) == []
  {
  }

  lemma RunLast(l: Limiter, ops: seq<Op>)
    requires ops != []
    ensures Run(l, ops) == Step(Run(l, Init(ops)), Last(ops))
    ensures Results(l, ops) == Results(l, Init(ops)) + ResultOf(Run(l, Init(ops)), Last(ops))
    ensures forall key :: Granted(l, ops, key) == Granted(l, Init(ops), key) + Grant(Run(l, Init(ops)), Last(ops), key)
  {
  }

  lemma {:induction false} ResultsCount(l: Limiter, ops: seq<Op>)
    ensures |Results(l, ops)| == |Takes(ops)|
  {
    if ops == [] {
    } else {
      ResultsCount(l, Init(ops));
      TakesOf(ops);
    }
  }

  lemma AllTakes(takes: seq<Op>)
    requires forall op :: op in takes ==> op.TakeOp?
    ensures Takes(takes) == takes
  {
    FilterAll(takes, TakesOnly());
  }

  /** A sweep just before a take that finds its idle bucket not refilled changes that take's
      result. */
  lemma SweepIsSeen(l: Limiter, op: Op, clock: real)
    requires Listing(l) && op.TakeOp? && op.req.rate >= 0.0 && op.req.burst >= 0.0 && clock <= op.req.now
    requires forall k :: k in l.items ==> Kept(l.items[k], clock)
    requires !RefilledFor(l, op)
    ensures ResultOf(Step(l, SweepOp(op.req.now)), op) != ResultOf(l, op)
  {
    hide B.Take, B.TakeLimited, B.New, B.Refill, Evict, Listing;
    assert op.key !in Sweep(l, op.req.now).items;
    KeptOrNew(l.items[op.key], op.req);
  }

  lemma Diverged(a: seq<B.Result>, b: seq<B.Result>, x: seq<B.Result>, y: seq<B.Result>)
    requires |a| == |b| && a != b
    ensures a + x != b + y
  {
    var i :| 0 <= i < |a| && a[i] != b[i];
    assert (a + x)[i] == a[i] && (b + y)[i] == b[i];
  }

  /** If some take finds its bucket idle for longer than the TTL and not refilled, then one sweep
      in the right place changes a result. */
  lemma {:induction false} SomeSweepIsSeen(l: Limiter, keys: set<string>, clock: real, takes: seq<Op>)
    returns (ops: seq<Op>)
    requires SweptVersion(l, l, keys, clock) && Proper(clock, takes) && TakesWithin(keys, takes)
    requires forall op :: op in takes ==> op.TakeOp?
    requires !RefilledAcrossGaps(l, takes)
    ensures Takes(ops) == takes
    ensures Proper(clock, ops) && ClockAfter(clock, ops) == ClockAfter(clock, takes)
    ensures Results(l, ops) != Results(l, takes)
  {
    hide SweptVersion, Take, Sweep, Takes, Run, Results, Granted, Grant, ResultOf, Step, RefilledFor;
    var init, op := Init(takes), Last(takes);
    assert op in takes && forall o :: o in init ==> o in takes;
    AllTakes(init);
    if !RefilledAcrossGaps(l, init) {
      var before := SomeSweepIsSeen(l, keys, clock, init);
      ops := before + [op];
      SnocSplits(before, op);
      TakesOf(ops);
      RunLast(l, takes);
      RunLast(l, ops);
      ResultsCount(l, before);
      ResultsCount(l, init);
      Diverged(Results(l, before), Results(l, init), ResultOf(Run(l, before), op), ResultOf(Run(l, init), op));
    } else {
      SweepsAreInvisible(l, l, keys, clock, init);
      KeptEntries(Run(l, init), keys, ClockAfter(clock, init));
      ops := SweepBeforeLast(l, takes, clock);
    }
  }

  lemma SweepBeforeLast(l: Limiter, takes: seq<Op>, clock: real) returns (ops: seq<Op>)
    requires takes != [] && Proper(clock, takes) && forall o :: o in takes ==> o.TakeOp?
    requires var before := Run(l, Init(takes));
      && Listing(before) && !RefilledFor(before, Last(takes))
      && forall k :: k in before.items ==> Kept(before.items[k], ClockAfter(clock, Init(takes)))
    ensures Takes(ops) == takes && Proper(clock, ops) && ClockAfter(clock, ops) == ClockAfter(clock, takes)
    ensures Results(l, ops) != Results(l, takes)
  {
    hide Take, Sweep, Takes, Run, Results, Granted, Grant, ResultOf, Step, RefilledFor, Listing, Kept;
    var init, op := Init(takes), Last(takes);
    var sweep, before := SweepOp(op.req.now), Run(l, init);
    var swept := init + [sweep];
    ops := swept + [op];
    SnocSplits(init, sweep);
    SnocSplits(swept, op);
    assert op in takes && forall o :: o in init ==> o in takes;
    AllTakes(init);
    TakesOf(swept);
    TakesOf(ops);
    RunLast(l, takes);
    RunLast(l, swept);
    RunLast(l, ops);
    SweepHasNoResult(before, sweep);
    SweepIsSeen(before, op, ClockAfter(clock, init));
    OneResult(before, op);
    OneResult(Step(before, sweep), op);
    DivergedAt(Results(l, init), ResultOf(Step(before, sweep), op), ResultOf(before, op));
    assert Results(l, init) + [] == Results(l, init);
  }

  lemma OneResult(l: Limiter, op: Op)
    requires op.TakeOp?
    ensures |ResultOf(l, op)| == 1
  {
  }

  lemma DivergedAt(a: seq<B.Result>, x: seq<B.Result>, y: seq<B.Result>)
    requires |x| == |y| == 1 && x != y
    ensures a + x != a + y
  {
    assert (a + x)[|a|] == x[0] && (a + y)[|a|] == y[0];
    assert x == [x[0]] && y == [y[0]];
  }

  lemma SweepHasNoResult(l: Limiter, op: Op)
    requires op.SweepOp?
    ensures ResultOf(l, op) == []
  {
  }

  lemma KeptEntries(l: Limiter, keys: set<string>, now: real)
    requires SweptVersion(l, l, keys, now)
    ensures Listing(l) && forall k :: k in l.items ==> Kept(l.items[k], now)
  {
  }

  /** When sweeps cannot be seen, exactly: for a run of takes with a clock that never goes back,
      limits that may change with every request, and room for all the keys, sweeping at any
      moments changes no result if and only if every take that finds its bucket idle for longer
      than the TTL finds that it has come to hold all of the burst the take asks for. */
  lemma SweepsInvisibleExactly(capacity: nat, idleTTL: real, keys: set<string>, clock: real, takes: seq<Op>)
    requires 1 <= capacity && |keys| <= capacity && Proper(clock, takes) && TakesWithin(keys, takes)
    requires forall op :: op in takes ==> op.TakeOp?
    ensures var l := Empty(capacity, idleTTL);
      (forall ops :: Takes(ops) == takes && Proper(clock, ops) ==> Results(l, ops) == Results(l, takes))
      <==> RefilledAcrossGaps(l, takes)
  {
    hide Results, Proper, RefilledAcrossGaps, Takes, SweptVersion;
    var l := Empty(capacity, idleTTL);
    EmptyStoresMatch(capacity, idleTTL, keys, clock);
    if RefilledAcrossGaps(l, takes) {
      forall ops | Takes(ops) == takes && Proper(clock, ops)
        ensures Results(l, ops) == Results(l, takes)
      {
        TakesKeep(ops);
        SweepsAreInvisible(l, l, keys, clock, ops);
      }
    } else {
      var ops := SomeSweepIsSeen(l, keys, clock, takes);
    }
  }

  /** Both runs may start from an empty store. */
  lemma EmptyStoresMatch(capacity: nat, ttl: real, keys: set<string>, clock: real)
    requires 1 <= capacity && |keys| <= capacity
    ensures SweptVersion(Empty(capacity, ttl), Empty(capacity, ttl), keys, clock)
  {
  }

  // ---------- the limit across sweeps ----------

  /** The requests of a run for the key. */
  function RequestsFor(ops: seq<Op>, key: string): seq<B.LimitedRequest> {
    if ops == [] then []
    else RequestsFor(Init(ops), key) + if Last(ops).TakeOp? && Last(ops).key == key then [Last(ops).req] else []
  }

  lemma {:induction false} RequestsOfTakes(ops: seq<Op>, key: string)
    ensures RequestsFor(Takes(ops), key) == RequestsFor(ops, key)
  {
    hide Takes;
    if ops == [] {
      NoTakes();
    } else {
      RequestsOfTakes(Init(ops), key);
      TakesOf(ops);
      SnocSplits(Takes(Init(ops)), Last(ops));
    }
  }

  lemma {:induction false} ProperTakes(clock: real, ops: seq<Op>)
    requires Proper(clock, ops)
    ensures Proper(clock, Takes(ops)) && clock <= ClockAfter(clock, Takes(ops)) <= ClockAfter(clock, ops)
  {
    hide Takes;
    if ops == [] {
      NoTakes();
    } else {
      ProperTakes(clock, Init(ops));
      TakesOf(ops);
      SnocSplits(Takes(Init(ops)), Last(ops));
    }
  }

  /** A take with room for all the keys drops no bucket. */
  lemma TakeDropsNothing(n: Limiter, keys: set<string>, key: string, r: B.LimitedRequest)
    requires Listing(n) && n.items.Keys <= keys && |keys| <= n.capacity && key in keys
    ensures Take(n, key, r).0.items.Keys == n.items.Keys + {key}
  {
    RoomForKey(n, keys, key);
  }

  /** Without sweeps and with room, a key has one bucket, from its first request on. */
  lemma {:induction false} OneIncarnation(l: Limiter, keys: set<string>, takes: seq<Op>, key: string)
    requires Listing(l) && l.items == map[] && |keys| <= l.capacity && TakesWithin(keys, takes)
    requires forall op :: op in takes ==> op.TakeOp?
    ensures Listing(Run(l, takes)) && Run(l, takes).items.Keys <= keys && |keys| <= Run(l, takes).capacity
    ensures key in Run(l, takes).items <==> RequestsFor(takes, key) != []
    ensures Incarnation(l, takes, key) == RequestsFor(takes, key)
    ensures Uninterrupted(l, takes, key)
  {
    hide Take, Listing;
    RunKeepsListing(l, takes);
    if takes != [] {
      var init, op := Init(takes), Last(takes);
      assert op in takes && forall o :: o in init ==> o in takes;
      OneIncarnation(l, keys, init, key);
      TakeDropsNothing(Run(l, init), keys, op.key, op.req);
    }
  }

  /** The limit over a whole run with sweeps, across all the buckets a key had: if every take
      that finds its bucket idle for longer than the TTL also finds it refilled, the takes
      allowed on a key cost at most its first burst plus the rates in force over time. */
  lemma LimitHoldsAcrossSweeps(capacity: nat, idleTTL: real, keys: set<string>, clock: real, ops: seq<Op>, key: string)
    requires 1 <= capacity && |keys| <= capacity && Proper(clock, ops) && TakesWithin(keys, ops)
    requires RefilledAcrossGaps(Empty(capacity, idleTTL), Takes(ops))
    ensures var rs := RequestsFor(ops, key);
      if rs == [] then Granted(Empty(capacity, idleTTL), ops, key) == 0.0
      else Granted(Empty(capacity, idleTTL), ops, key) <= rs[0].burst + B.Accrued(FirstBucket(rs), rs)
  {
    hide RefilledAcrossGaps, Takes, SweptVersion, Run, RequestsFor, Incarnation, Granted, B.Accrued, Uninterrupted;
    var l, takes := Empty(capacity, idleTTL), Takes(ops);
    EmptyStoresMatch(capacity, idleTTL, keys, clock);
    SweepsAreInvisible(l, l, keys, clock, ops);
    TakesKeep(ops);
    ProperTakes(clock, ops);
    RequestsOfTakes(ops, key);
    OneIncarnation(l, keys, takes, key);
    GrantedByOneBucket(l, takes, key);
    if key in Run(l, takes).items {
      IncarnationIsLimited(l, takes, key, clock);
    }
  }

  // ---------- limits that are fixed per key ----------

  type Limits = string -> (real, real)

  predicate Fixed(limits: Limits, op: Op)
    requires op.TakeOp?
  {
    (op.req.rate, op.req.burst) == limits(op.key) && op.req.rate >= 0.0 && op.req.burst >= 0.0
  }

  /** The clock never goes back, and every take names one of the keys and carries that key's
      limits. */
  ghost predicate FixedLimits(limits: Limits, keys: set<string>, clock: real, ops: seq<Op>) {
    ops == [] ||
    (FixedLimits(limits, keys, clock, Init(ops))
      && ClockAfter(clock, Init(ops)) <= TimeOf(Last(ops))
      && (Last(ops).TakeOp? ==> Last(ops).key in keys && Fixed(limits, Last(ops))))
  }

  /** Every key's rate fills its burst within the TTL. */
  ghost predicate RefillWithin(limits: Limits, keys: set<string>, ttl: real) {
    forall k :: k in keys ==> limits(k).0 * ttl >= limits(k).1
  }

  lemma IdleLongEnough(b: B.Bucket, ttl: real, now: real)
    requires B.Sound(b) && now - b.lastRefill > ttl >= 0.0 && b.rate * ttl >= b.burst
    ensures B.Refill(b, now).tokens >= b.burst
  {
    B.MulMonotone(ttl, now - b.lastRefill, b.rate);
    B.EarnedIs(b.lastRefill, now, b.rate);
  }

  ghost predicate Limited(limits: Limits, n: Limiter) {
    forall k :: k in n.items ==> (n.items[k].bucket.rate, n.items[k].bucket.burst) == limits(k)
  }

  /** Under fixed limits, a rate that fills the burst within the TTL refills every idle bucket. */
  lemma {:induction false} FixedLimitsRefill(limits: Limits, l: Limiter, keys: set<string>, clock: real, ops: seq<Op>)
    requires FixedLimits(limits, keys, clock, ops) && RefillWithin(limits, keys, l.idleTTL) && l.idleTTL >= 0.0
    requires SweptVersion(l, l, keys, clock) && l.items == map[]
    ensures Proper(clock, ops) && TakesWithin(keys, ops)
    ensures RefilledAcrossGaps(l, Takes(ops))
    ensures var n := Run(l, Takes(ops));
      && SweptVersion(n, n, keys, ClockAfter(clock, ops)) && n.idleTTL == l.idleTTL
      && Limited(limits, n)
  {
    hide SweptVersion, Take, Run, Takes, Limited, RefilledFor, RefilledAcrossGaps, RefillWithin, Step, Fixed;
    if ops == [] {
      NothingYet(l);
      NoTakes();
      EmptyIsLimited(limits, l);
    } else {
      var init, op := Init(ops), Last(ops);
      FixedLimitsRefill(limits, l, keys, clock, init);
      var kept := Takes(init);
      TakesOf(ops);
      if op.TakeOp? {
        RefilledSnoc(l, kept, op);
        Snoc(l, kept, op);
        FixedTake(limits, Run(l, kept), keys, ClockAfter(clock, init), op);
        FixedIsProper(limits, op);
      } else {
        SweptLater(Run(l, kept), keys, ClockAfter(clock, init), TimeOf(op));
      }
    }
  }

  lemma FixedIsProper(limits: Limits, op: Op)
    requires op.TakeOp? && Fixed(limits, op)
    ensures op.req.rate >= 0.0 && op.req.burst >= 0.0
  {
  }

  lemma EmptyIsLimited(limits: Limits, l: Limiter)
    requires l.items == map[]
    ensures Limited(limits, l) && RefilledAcrossGaps(l, [])
  {
  }

  lemma SweptLater(n: Limiter, keys: set<string>, clock: real, now: real)
    requires SweptVersion(n, n, keys, clock) && clock <= now
    ensures SweptVersion(n, n, keys, now)
  {
    hide Listing;
  }

  lemma FixedTake(limits: Limits, n: Limiter, keys: set<string>, clock: real, op: Op)
    requires SweptVersion(n, n, keys, clock) && op.TakeOp? && op.key in keys && clock <= op.req.now
    requires Fixed(limits, op) && RefillWithin(limits, keys, n.idleTTL) && n.idleTTL >= 0.0
    requires Limited(limits, n)
    ensures RefilledFor(n, op)
    ensures var n' := Step(n, op);
      && SweptVersion(n', n', keys, op.req.now) && n'.idleTTL == n.idleTTL
      && Limited(limits, n')
  {
    hide Listing, B.Take, B.Refill, Evict;
    if op.key in n.items && op.req.now - n.items[op.key].lastUsed > n.idleTTL {
      IdleLongEnough(n.items[op.key].bucket, n.idleTTL, op.req.now);
    }
    SweptTake(n, n, keys, clock, op.key, op.req);
    RoomForKey(n, keys, op.key);
    if op.key in n.items {
      B.TakeSound(n.items[op.key].bucket, op.req.now, op.req.cost);
    } else {
      B.TakeSound(B.New(op.req.rate, op.req.burst, op.req.now), op.req.now, op.req.cost);
    }
  }

  lemma {:induction false} AccruedAtOneRate(b: B.Bucket, rs: seq<B.LimitedRequest>)
    requires forall r :: r in rs ==> r.rate == b.rate
    ensures B.Accrued(b, rs) == B.Earned(b.lastRefill, B.ClockAfter(b.lastRefill, rs), b.rate)
    ensures B.RunLimited(b, rs).rate == b.rate
  {
    hide B.Earned, B.RetryAfterMs;
    if rs == [] {
      B.EarnedAdds(b.lastRefill, b.lastRefill, b.lastRefill, b.rate);
    } else {
      assert Last(rs) in rs && forall r :: r in Init(rs) ==> r in rs;
      AccruedAtOneRate(b, Init(rs));
      B.EarnedAdds(b.lastRefill, B.ClockAfter(b.lastRefill, Init(rs)), Last(rs).now, b.rate);
    }
  }

  lemma {:induction false} FixedRequests(limits: Limits, keys: set<string>, clock: real, ops: seq<Op>, key: string)
    requires FixedLimits(limits, keys, clock, ops)
    ensures clock <= ClockAfter(clock, ops)
    ensures forall r :: r in RequestsFor(ops, key) ==> (r.rate, r.burst) == limits(key)
    ensures forall r :: r in RequestsFor(ops, key) ==> clock <= r.now <= ClockAfter(clock, ops)
  {
    if ops != [] {
      FixedRequests(limits, keys, clock, Init(ops), key);
    }
  }

  /** In particular, when limits are fixed per key, every rate fills its burst within the TTL and
      there is room for the keys: the takes allowed on a key, over all the buckets it had, cost
      at most its burst plus its rate times the time. */
  lemma FixedLimitHoldsAcrossSweeps(limits: Limits, capacity: nat, idleTTL: real, keys: set<string>, clock: real,
                                    ops: seq<Op>, key: string)
    requires 1 <= capacity && |keys| <= capacity && idleTTL >= 0.0
    requires FixedLimits(limits, keys, clock, ops) && RefillWithin(limits, keys, idleTTL)
    requires limits(key).0 >= 0.0 && limits(key).1 >= 0.0
    ensures Granted(Empty(capacity, idleTTL), ops, key)
         <= limits(key).1 + B.Earned(clock, ClockAfter(clock, ops), limits(key).0)
  {
    hide SweptVersion, RefilledAcrossGaps, Takes, Run, Granted, FixedLimits, RefillWithin, RequestsFor, Proper,
         ClockAfter, B.Earned, B.Accrued;
    var l, rs := Empty(capacity, idleTTL), RequestsFor(ops, key);
    EmptyStoresMatch(capacity, idleTTL, keys, clock);
    FixedLimitsRefill(limits, l, keys, clock, ops);
    LimitHoldsAcrossSweeps(capacity, idleTTL, keys, clock, ops, key);
    FixedRequests(limits, keys, clock, ops, key);
    if rs == [] {
      Widen(clock, clock, clock, ClockAfter(clock, ops), limits(key).0);
    } else {
      FixedAccrued(rs, limits(key).0, limits(key).1, clock, ClockAfter(clock, ops));
    }
  }

  lemma FixedAccrued(rs: seq<B.LimitedRequest>, rate: real, burst: real, start: real, now: real)
    requires rs != [] && rate >= 0.0 && burst >= 0.0
    requires forall r :: r in rs ==> r.rate == rate && r.burst == burst && start <= r.now <= now
    ensures rs[0].burst + B.Accrued(FirstBucket(rs), rs) <= burst + B.Earned(start, now, rate)
  {
    hide B.Earned, B.Accrued, B.RunLimited;
    assert rs[0] in rs && Last(rs) in rs;
    AccruedAtOneRate(FirstBucket(rs), rs);
    Widen(start, rs[0].now, Last(rs).now, now, rate);
  }

  lemma Widen(start: real, first: real, last: real, now: real, rate: real)
    requires start <= first <= now && start <= last <= now && rate >= 0.0
    ensures 0.0 <= B.Earned(start, now, rate) && B.Earned(first, last, rate) <= B.Earned(start, now, rate)
  {
    hide B.Earned;
    B.EarnedAdds(start, first, now, rate);
    B.EarnedAdds(first, last, now, rate);
    B.EarnedAdds(last, now, now, rate);
    B.EarnedAdds(start, now, now, rate);
  }

  /** A moment by which a bucket has been idle too long and is still not full. */
  lemma IdleButNotFull(rate: real, burst: real, ttl: real) returns (t: real)
    requires rate >= 0.0 && ttl >= 0.0 && rate * ttl < burst
    ensures t > ttl && B.Earned(0.0, t, rate) < burst
    ensures burst > 0.0 && t * rate < burst
  {
    B.MulMonotone(0.0, ttl, rate);
    if rate == 0.0 {
      t := ttl + 1.0;
    } else {
      var gap := (burst - rate * ttl) / (2.0 * rate);
      B.DivCancels(burst - rate * ttl, 2.0 * rate);
      assert gap * (2.0 * rate) == burst - rate * ttl;
      B.DivideThrough(burst - rate * ttl, 2.0 * rate, 0.0);
      t := ttl + gap;
      assert t * rate == ttl * rate + gap * rate;
    }
    B.EarnedIs(0.0, t, rate);
  }

  function FullTake(rate: real, burst: real, t: real): Op {
    TakeOp("k", B.LimitedRequest(t, rate, burst, burst))
  }

  /** A bucket is emptied, and swept away or not. */
  lemma SweptAway(rate: real, burst: real, ttl: real, t: real)
    requires rate >= 0.0 && burst > 0.0 && ttl >= 0.0 && t > ttl && B.Earned(0.0, t, rate) < burst
    ensures var l, first, last := Empty(1, ttl), FullTake(rate, burst, 0.0), FullTake(rate, burst, t);
      var spent := Step(l, first);
      var swept := Step(spent, SweepOp(t));
      && Take(l, "k", first.req).1.allowed
      && !Take(spent, "k", last.req).1.allowed && Take(swept, "k", last.req).1.allowed
  {
    hide B.Take, B.TakeLimited, B.New;
    EmptiedBucket(rate, burst, t);
    var l, first := Empty(1, ttl), FullTake(rate, burst, 0.0);
    var spent := Step(l, first);
    assert Evict(l) == l;
    assert spent.items["k"] == Entry(B.Bucket(0.0, 0.0, rate, burst), 0.0);
    assert Step(spent, SweepOp(t)).items == map[];
  }

  /** A full take, a sweep, and another full take. */
  function SweptTrace(rate: real, burst: real, t: real): seq<Op> {
    [] + [FullTake(rate, burst, 0.0)] + [SweepOp(t)] + [FullTake(rate, burst, t)]
  }

  lemma SweptTraceTakes(rate: real, burst: real, t: real)
    ensures Takes(SweptTrace(rate, burst, t))
         == [] + [FullTake(rate, burst, 0.0)] + [FullTake(rate, burst, t)]
  {
    var first, last := FullTake(rate, burst, 0.0), FullTake(rate, burst, t);
    hide Filter;
    FilterDropsOne([first], SweepOp(t), [last], TakesOnly());
    FilterConcat([first], [last], TakesOnly());
    FilterAll([first], TakesOnly());
    FilterAll([last], TakesOnly());
    assert SweptTrace(rate, burst, t) == [first] + [SweepOp(t)] + [last];
    assert [first] + [last] == [] + [first] + [last];
  }

  /** What the trace is allowed, with the sweep and without it. */
  lemma SweptTraceResults(rate: real, burst: real, ttl: real, t: real)
    requires rate >= 0.0 && burst > 0.0 && ttl >= 0.0 && t > ttl && B.Earned(0.0, t, rate) < burst
    ensures var l := Empty(1, ttl);
      && |Results(l, SweptTrace(rate, burst, t))| == 2 && Results(l, SweptTrace(rate, burst, t))[1].allowed
      && Granted(l, SweptTrace(rate, burst, t), "k") == burst + burst
      && var kept := [] + [FullTake(rate, burst, 0.0)] + [FullTake(rate, burst, t)];
      && |Results(l, kept)| == 2 && !Results(l, kept)[1].allowed
  {
    SweptAway(rate, burst, ttl, t);
    hide Take, Step, Run, Results, Granted, B.Earned;
    var l, sweep := Empty(1, ttl), SweepOp(t);
    var first, last := FullTake(rate, burst, 0.0), FullTake(rate, burst, t);
    NothingYet(l);
    Snoc(l, [], first);
    Snoc(l, [] + [first], sweep);
    Snoc(l, [] + [first] + [sweep], last);
    Snoc(l, [] + [first], last);
  }

  /** And that condition on the limits is needed: whenever the TTL is too short for a refill, some
      run with one sweep allows a take that the run without it denies, and more than the limit. */
  lemma ShortTTLIsVisible(rate: real, burst: real, ttl: real) returns (ops: seq<Op>)
    requires rate >= 0.0 && ttl >= 0.0 && rate * ttl < burst
    ensures var l := Empty(1, ttl);
      && Proper(0.0, ops) && Results(l, ops) != Results(l, Takes(ops))
      && Granted(l, ops, "k") > burst + ClockAfter(0.0, ops) * rate
    ensures forall op :: op in ops && op.TakeOp? ==> op.key == "k" && op.req.rate == rate && op.req.burst == burst
  {
    hide Results, Granted, Takes, Proper, SweptTrace, B.Earned, ClockAfter;
    var t := IdleButNotFull(rate, burst, ttl);
    ops := SweptTrace(rate, burst, t);
    SweptTraceResults(rate, burst, ttl, t);
    SweptTraceTakes(rate, burst, t);
    SweptTraceIsProper(rate, burst, t);
  }

  lemma SweptTraceIsProper(rate: real, burst: real, t: real)
    requires rate >= 0.0 && burst >= 0.0 && t >= 0.0
    ensures Proper(0.0, SweptTrace(rate, burst, t)) && ClockAfter(0.0, SweptTrace(rate, burst, t)) == t
    ensures forall op :: op in SweptTrace(rate, burst, t) && op.TakeOp? ==>
      op.key == "k" && op.req.rate == rate && op.req.burst == burst
  {
    ProperSteps(FullTake(rate, burst, 0.0), SweepOp(t), FullTake(rate, burst, t));
    assert SweptTrace(rate, burst, t) == [FullTake(rate, burst, 0.0), SweepOp(t), FullTake(rate, burst, t)];
  }

  lemma EmptiedBucket(rate: real, burst: real, t: real)
    requires rate >= 0.0 && burst > 0.0 && t > 0.0 && B.Earned(0.0, t, rate) < burst
    ensures B.Take(B.New(rate, burst, 0.0), 0.0, burst).0 == B.Bucket(0.0, 0.0, rate, burst)
    ensures B.Take(B.New(rate, burst, 0.0), 0.0, burst).1.allowed
    ensures B.Take(B.New(rate, burst, t), t, burst).1.allowed
    ensures !B.TakeLimited(B.Bucket(0.0, 0.0, rate, burst), B.LimitedRequest(t, rate, burst, burst)).1.allowed
  {
    hide B.Earned;
    B.EarnedAdds(0.0, 0.0, 0.0, rate);
  }

  lemma ProperSteps(a: Op, b: Op, c: Op)
    requires 0.0 <= TimeOf(a) <= TimeOf(b) <= TimeOf(c)
    requires forall op :: op in [a, b, c] && op.TakeOp? ==> op.req.rate >= 0.0 && op.req.burst >= 0.0
    ensures Proper(0.0, [a, b, c])
  {
    assert Init([a, b, c]) == [a, b] && Init([a, b]) == [a] && Init([a]) == [];
    assert a in [a, b, c] && b in [a, b, c] && c in [a, b, c];
    assert Proper(0.0, Init([a]));
    assert Proper(0.0, [a]);
    assert Proper(0.0, [a, b]);
  }
}
