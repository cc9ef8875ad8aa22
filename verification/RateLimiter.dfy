/** The keyed bucket store: a map of buckets, and a slice of their keys from least to most
    recently used. */
module RateLimiter {
  import opened Seqs
  import B = BucketModel
  import M = LimiterModel
  import opened Slice
  import opened TokenBucket

  class Entry {
    const bucket: Bucket
    var lastUsed: real

    constructor (bucket: Bucket, lastUsed: real)
      ensures this.bucket == bucket && this.lastUsed == lastUsed
    {
      this.bucket, this.lastUsed := bucket, lastUsed;
    }

    ghost function State(): M.Entry
      reads this, bucket
    {
      M.Entry(bucket.State(), lastUsed)
    }

    /** A take on an existing bucket: new limits first, then the payment. */
    method Reuse(rate: real, burst: real, cost: real, now: real) returns (r: B.Result)
      modifies this, bucket
      ensures var (b, res) := B.TakeLimited(old(bucket.State()), B.LimitedRequest(now, rate, burst, cost));
        r == res && State() == M.Entry(b, now)
    {
      bucket.SetLimits(rate, burst, now);
      lastUsed := now;
      r := bucket.Take(now, cost);
    }
  }

  type Entries = map<string, Entry>

  /** The entries are known, share nothing, and are in the given states. */
  ghost predicate Hold(items: Entries, states: map<string, M.Entry>, es: set<Entry>, bs: set<Bucket>)
    reads es, bs
  {
    && items.Keys == states.Keys
    && (forall k :: k in items ==> items[k] in es && items[k].bucket in bs && items[k].State() == states[k])
    && (forall j, k :: j in items && k in items && j != k ==>
          items[j] != items[k] && items[j].bucket != items[k].bucket)
  }

  lemma HoldFewer(items: Entries, states: map<string, M.Entry>, es: set<Entry>, bs: set<Bucket>, gone: set<string>)
    requires Hold(items, states, es, bs)
    ensures Hold(items - gone, states - gone, es, bs)
  {
  }

  class RateLimiter {
    const capacity: nat
    const idleTTL: real
    const order: Slice
    var items: Entries
    /** The state as a value, and every entry and bucket ever created. */
    ghost var view: M.Limiter
    ghost var entries: set<Entry>
    ghost var buckets: set<Bucket>

    ghost predicate Represents()
      reads this, order, order.backing, entries, buckets
    {
      && view.capacity == capacity && view.idleTTL == idleTTL
      && order.Valid() && order.Contents() == view.order
      && Hold(items, view.items, entries, buckets)
    }

    ghost predicate Valid()
      reads this, order, order.backing, entries, buckets
    {
      Represents() && M.Listing(view)
    }

    constructor (capacity: int, idleTTL: real)
      ensures Valid() && fresh(order) && fresh(order.backing) && entries == {} && buckets == {}
      ensures view == M.Empty(if capacity < 1 then 1024 else capacity, if idleTTL <= 0.0 then 60.0 else idleTTL)
    {
      this.capacity := if capacity < 1 then 1024 else capacity;
      this.idleTTL := if idleTTL <= 0.0 then 60.0 else idleTTL;
      order := new Slice();
      items := map[];
      view := M.Empty(if capacity < 1 then 1024 else capacity, if idleTTL <= 0.0 then 60.0 else idleTTL);
      entries, buckets := {}, {};
    }

    lemma SameSize()
      requires Represents()
      ensures items.Keys == view.items.Keys && |items| == |view.items| && order.length == |view.order|
      ensures order.length > 0 ==> order.backing[order.start] == view.order[0]
    {
      assert |items.Keys| == |view.items.Keys|;
    }

    /** The eviction loop: drop the front key while the map is full. */
    method EvictIfNeeded()
      requires Represents()
      modifies this`items, this`view, order
      ensures Represents() && order.backing == old(order.backing)
      ensures view == M.Evict(old(view)) && items.Keys == view.items.Keys
    {
      SameSize();
      while |items| >= capacity && order.length > 0
        invariant Represents() && order.backing == old(order.backing)
        invariant |items| == |view.items| && order.length == |view.order|
        invariant M.Evict(view) == M.Evict(old(view))
        decreases order.length
      {
        DropVictim();
        SameSize();
      }
    }

    method DropVictim()
      requires Represents() && order.length > 0
      modifies this`items, this`view, order
      ensures Represents() && order.backing == old(order.backing) && order.length == old(order.length) - 1
      ensures old(view).order != []
      ensures view == old(view).(order := old(view).order[1..], items := old(view).items - {old(view).order[0]})
    {
      SameSize();
      hide Hold;
      var victim := order.backing[order.start];
      HoldFewer(items, view.items, entries, buckets, {victim});
      order.DropFront();
      items := items - {victim};
      view := view.(order := view.order[1..], items := view.items - {victim});
    }

    /** One take at time `now`. */
    method Take(key: string, rate: real, burst: real, cost: real, now: real) returns (r: B.Result)
      requires Valid()
      modifies this, order, order.backing, entries, buckets
      ensures Valid() && (order.backing == old(order.backing) || fresh(order.backing))
      ensures (view, r) == M.Take(old(view), key, B.LimitedRequest(now, rate, burst, cost))
      ensures fresh(entries - old(entries)) && fresh(buckets - old(buckets))
    {
      hide Represents, Hold, M.Listing, M.Evict, B.Take, B.TakeLimited, B.New;
      ghost var req := B.LimitedRequest(now, rate, burst, cost);
      M.TakeKeepsListing(view, key, req);
      M.EvictsTheFront(view);
      SameSize();
      if key !in items {
        EvictIfNeeded();
        r := Create(key, rate, burst, cost, now);
      } else {
        r := Reuse(key, rate, burst, cost, now);
      }
    }

    /** A new key: a full bucket, appended to the order. */
    method Create(key: string, rate: real, burst: real, cost: real, now: real) returns (r: B.Result)
      requires Represents() && key !in items
      modifies this, order, order.backing
      ensures Represents() && (order.backing == old(order.backing) || fresh(order.backing))
      ensures var (b, res) := B.Take(B.New(rate, burst, now), now, cost);
        && r == res
        && view == old(view).(order := old(view).order + [key], items := old(view).items[key := M.Entry(b, now)])
      ensures fresh(entries - old(entries)) && fresh(buckets - old(buckets))
    {
      hide B.Take, B.New, Hold;
      r := CreateEntry(key, rate, burst, cost, now);
      order.Append(key);
      view := view.(order := view.order + [key]);
    }

    method CreateEntry(key: string, rate: real, burst: real, cost: real, now: real) returns (r: B.Result)
      requires Hold(items, view.items, entries, buckets) && key !in items
      modifies this`items, this`view, this`entries, this`buckets
      ensures var (b, res) := B.Take(B.New(rate, burst, now), now, cost);
        r == res && view == old(view).(items := old(view).items[key := M.Entry(b, now)])
      ensures fresh(entries - old(entries)) && fresh(buckets - old(buckets))
      ensures Hold(items, view.items, entries, buckets)
    {
      hide B.Take, B.New, Hold;
      var bucket := new Bucket(rate, burst, now);
      var e := new Entry(bucket, now);
      r := bucket.Take(now, cost);
      AddEntry(key, e);
    }

    method AddEntry(key: string, e: Entry)
      requires Hold(items, view.items, entries, buckets) && key !in items
      requires e !in entries && e.bucket !in buckets
      modifies this`items, this`view, this`entries, this`buckets
      ensures items == old(items)[key := e] && view == old(view).(items := old(view).items[key := e.State()])
      ensures entries == old(entries) + {e} && buckets == old(buckets) + {e.bucket}
      ensures Hold(items, view.items, entries, buckets)
    {
      items := items[key := e];
      entries, buckets := entries + {e}, buckets + {e.bucket};
      view := view.(items := view.items[key := e.State()]);
    }

    /** A known key: resized to the request's limits and moved to the end of the order. */
    method Reuse(key: string, rate: real, burst: real, cost: real, now: real) returns (r: B.Result)
      requires Represents() && key in items
      modifies this`view, order, order.backing, entries, buckets
      ensures Represents() && (order.backing == old(order.backing) || fresh(order.backing))
      ensures (view, r) == M.Take(old(view), key, B.LimitedRequest(now, rate, burst, cost))
    {
      hide B.TakeLimited, Hold;
      SameSize();
      r := ReuseEntry(key, rate, burst, cost, now);
      order.Touch(key);
      view := view.(order := M.RemoveFirst(view.order, key) + [key]);
    }

    method ReuseEntry(key: string, rate: real, burst: real, cost: real, now: real) returns (r: B.Result)
      requires Hold(items, view.items, entries, buckets) && key in items
      modifies this`view, entries, buckets
      ensures var (b, res) := B.TakeLimited(old(view).items[key].bucket, B.LimitedRequest(now, rate, burst, cost));
        r == res && view == old(view).(items := old(view).items[key := M.Entry(b, now)])
      ensures Hold(items, view.items, entries, buckets)
    {
      hide B.TakeLimited;
      r := items[key].Reuse(rate, burst, cost, now);
      view := view.(items := view.items[key := items[key].State()]);
    }

    /** The idle sweep. */
    method Sweep(now: real)
      requires Valid()
      modifies this`items, this`view, order, order.backing
      ensures Valid() && order.backing == old(order.backing)
      ensures view == M.Sweep(old(view), now)
    {
      hide M.Sweep, M.Listing, Hold, NoDup;
      M.SweepKeepsListing(view, now);
      SweptKeys(view, now);
      ghost var gone := Idle(view.order, M.InUse(view, now));
      SweepKeys(now, gone);
      view := M.Sweep(view, now);
    }

    method SweepKeys(now: real, ghost gone: set<string>)
      requires order.Valid() && order.Contents() == view.order && NoDup(view.order)
      requires Hold(items, view.items, entries, buckets) && view.idleTTL == idleTTL
      requires gone == Idle(view.order, M.InUse(view, now))
      modifies this`items, order, order.backing
      ensures order.Valid() && order.backing == old(order.backing)
      ensures order.Contents() == Filter(view.order, M.InUse(view, now))
      ensures Hold(items, view.items - gone, entries, buckets)
    {
      hide Hold, NoDup, Idle, M.InUse, Filter;
      HoldFewer(items, view.items, entries, buckets, gone);
      var kept := Compact(now);
      order.Truncate(kept);
      assert order.Contents() == Filter(view.order, M.InUse(view, now));
    }

    /** Compact the order in place over its own backing array, while ranging over it, and drop
        the idle keys from the map. */
    method Compact(now: real) returns (kept: nat)
      requires order.Valid() && order.Contents() == view.order && NoDup(view.order)
      requires Hold(items, view.items, entries, buckets) && view.idleTTL == idleTTL
      modifies this`items, order.backing
      ensures order.Valid() && kept == |Filter(view.order, M.InUse(view, now))| <= order.length
      ensures forall x :: order.start <= x < order.start + kept ==>
        order.backing[x] == Filter(view.order, M.InUse(view, now))[x - order.start]
      ensures items == old(items) - Idle(view.order, M.InUse(view, now))
    {
      hide Hold, Filter, NoDup, M.InUse, Idle, Remaining;
      ghost var keep, was, before := M.InUse(view, now), view.order, items;
      var from, base, n := order.backing, order.start, order.length;
      kept := 0;
      ghost var done, gone: set<string> := [], {};
      PrefixStart(was, keep);
      RemainingStart(items);
      for i := 0 to n
        modifies this`items, from
        invariant done == Filter(was[..i], keep) && gone == Idle(was[..i], keep)
        invariant kept == |done| <= i
        invariant forall x :: base <= x < base + kept ==> from[x] == done[x - base]
        invariant forall x :: base + i <= x < base + n ==> from[x] == was[x - base]
        invariant Remaining(items, before, gone)
      {
        PrefixStep(was, i, keep);
        var key := from[base + i];
        LastUse(before, key, now);
        RemainingStep(items, before, gone, key);
        if key in items && now - items[key].lastUsed > idleTTL {
          items := items - {key};
        } else if key in items {
          from[base + kept] := key;
          kept := kept + 1;
        }
        if keep(key) {
          done := done + [key];
        } else {
          gone := gone + {key};
        }
      }
      assert was[..n] == was;
      RemainingIs(items, before, gone);
    }

    lemma LastUse(before: Entries, key: string, now: real)
      requires Hold(before, view.items, entries, buckets) && view.idleTTL == idleTTL
      ensures key in before && before[key] in entries ==>
        (now - before[key].lastUsed <= idleTTL <==> M.InUse(view, now)(key))
      ensures key in before ==> before[key] in entries
      ensures key !in before ==> !M.InUse(view, now)(key)
    {
    }
  }

  ghost function Idle(keys: seq<string>, keep: string -> bool): set<string> {
    set k | k in keys && !keep(k)
  }

  lemma SweptKeys(l: M.Limiter, now: real)
    requires M.Listing(l)
    ensures NoDup(l.order)
    ensures M.Sweep(l, now) ==
      l.(order := Filter(l.order, M.InUse(l, now)), items := l.items - Idle(l.order, M.InUse(l, now)))
  {
    forall k ensures k in l.order <==> k in l.items {
      assert k in Elements(l.order) <==> k in l.items;
    }
  }

  ghost predicate Remaining(items: Entries, before: Entries, gone: set<string>) {
    items == before - gone
  }

  lemma RemainingStart(items: Entries)
    ensures Remaining(items, items, {})
  {
  }

  lemma RemainingStep(items: Entries, before: Entries, gone: set<string>, key: string)
    requires Remaining(items, before, gone) && key !in gone
    ensures key in items <==> key in before
    ensures key in items ==> items[key] == before[key] && Remaining(items - {key}, before, gone + {key})
    ensures key !in items ==> Remaining(items, before, gone + {key})
  {
    assert before - (gone + {key}) == (before - gone) - {key};
  }

  lemma RemainingIs(items: Entries, before: Entries, gone: set<string>)
    requires Remaining(items, before, gone)
    ensures items == before - gone
  {
  }

  lemma PrefixStart(keys: seq<string>, keep: string -> bool)
    ensures Filter(keys[..0], keep) == [] && Idle(keys[..0], keep) == {}
  {
  }

  lemma PrefixStep(keys: seq<string>, i: nat, keep: string -> bool)
    requires NoDup(keys) && i < |keys|
    ensures Filter(keys[..i + 1], keep) ==
      if keep(keys[i]) then Filter(keys[..i], keep) + [keys[i]] else Filter(keys[..i], keep)
    ensures Idle(keys[..i + 1], keep) ==
      if keep(keys[i]) then Idle(keys[..i], keep) else Idle(keys[..i], keep) + {keys[i]}
    ensures keys[i] !in Idle(keys[..i], keep)
  {
    assert keys[..i + 1] == keys[..i] + [keys[i]];
    FilterSnoc(keys[..i], keys[i], keep);
  }
}
