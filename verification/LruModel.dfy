/** The local cache as a value: a most-recently-used-first sequence of items, with one
    function per operation. The Store object is proved against these functions. */
module LruModel {
  import opened Seqs

  /** Times are nanoseconds on one clock; expiresAt None means no expiry. */
  datatype Item = Item(key: string, value: string, expiresAt: Option<int>, writtenAt: int)

  datatype Stats = Stats(hits: nat, misses: nat, sets: nat, deletes: nat,
                         evictions: nat, expired: nat, skipped: nat)

  datatype Cache = Cache(capacity: nat, items: seq<Item>, stats: Stats)

  const NO_STATS := Stats(0, 0, 0, 0, 0, 0, 0)

  predicate Expired(it: Item, now: int) {
    it.expiresAt.Some? && now >= it.expiresAt.value
  }

  function KeyIsNot(key: string): Item -> bool { (it: Item) => it.key != key }

  function LiveAt(now: int): Item -> bool { (it: Item) => !Expired(it, now) }

  function Without(items: seq<Item>, key: string): seq<Item> {
    Filter(items, KeyIsNot(key))
  }

  function Lookup(items: seq<Item>, key: string): (r: Option<Item>)
    ensures r.Some? ==> r.value.key == key && r.value in items
  {
    if items == [] then None
    else if items[0].key == key then Some(items[0])
    else Lookup(items[1..], key)
  }

  predicate Holds(c: Cache, key: string) {
    Lookup(c.items, key).Some?
  }

  ghost predicate DistinctKeys(items: seq<Item>) {
    forall i, j :: 0 <= i < j < |items| ==> items[i].key != items[j].key
  }

  ghost predicate WellFormed(c: Cache) {
    c.capacity >= 1 && DistinctKeys(c.items) && |c.items| <= c.capacity
  }

  // ---------- the operations ----------

  /** A live hit moves the item to the front; an expired item is dropped and misses. */
  function Get(c: Cache, key: string, now: int): (Cache, Option<Item>) {
    var s := c.stats;
    match Lookup(c.items, key)
    case None => (c.(stats := s.(misses := s.misses + 1)), None)
    case Some(it) =>
      if Expired(it, now) then
        (c.(items := Without(c.items, key), stats := s.(expired := s.expired + 1, misses := s.misses + 1)), None)
      else
        (c.(items := [it] + Without(c.items, key), stats := s.(hits := s.hits + 1)), Some(it))
  }

  function NewItem(key: string, value: string, ttl: int, writtenAt: int, now: int): Item {
    Item(key, value, if ttl > 0 then Some(now + ttl) else None, writtenAt)
  }

  /** Last writer wins on writtenAt, ties going to the later arrival; a new key evicts from
      the back until there is room. False means the write was ignored as stale. */
  function Set(c: Cache, key: string, value: string, ttl: int, writtenAt: int, now: int): (Cache, bool)
    requires c.capacity >= 1
  {
    var s := c.stats;
    var it := NewItem(key, value, ttl, writtenAt, now);
    match Lookup(c.items, key)
    case Some(cur) =>
      if cur.writtenAt > writtenAt then
        (c.(stats := s.(skipped := s.skipped + 1)), false)
      else
        (c.(items := [it] + Without(c.items, key), stats := s.(sets := s.sets + 1)), true)
    case None =>
      var kept := c.items[..Min(|c.items|, c.capacity - 1)];
      (c.(items := [it] + kept,
          stats := s.(sets := s.sets + 1, evictions := s.evictions + |c.items| - |kept|)), true)
  }

  /** True when the key was present, expired or not. */
  function Delete(c: Cache, key: string): (Cache, bool) {
    if Holds(c, key) then
      (c.(items := Without(c.items, key), stats := c.stats.(deletes := c.stats.deletes + 1)), true)
    else (c, false)
  }

  function Sweep(c: Cache, now: int): Cache {
    var live := Filter(c.items, LiveAt(now));
    c.(items := live, stats := c.stats.(expired := c.stats.expired + |c.items| - |live|))
  }

  // ---------- looking up after an operation ----------

  lemma {:induction false} LookupMissing(items: seq<Item>, key: string)
    ensures Lookup(items, key).None? <==> forall i :: 0 <= i < |items| ==> items[i].key != key
  {
    if items != [] {
      LookupMissing(items[1..], key);
      forall i | 0 <= i < |items[1..]| ensures items[1..][i] == items[i + 1] {}
      if Lookup(items, key).None? {
        forall i | 0 <= i < |items| ensures items[i].key != key {
          if i > 0 { assert items[1..][i - 1] == items[i]; }
        }
      }
    }
  }

  lemma {:induction false} LookupAt(items: seq<Item>, i: nat)
    requires i < |items| && DistinctKeys(items)
    ensures Lookup(items, items[i].key) == Some(items[i])
  {
    if i > 0 {
      LookupAt(items[1..], i - 1);
    }
  }

  lemma WithoutAt(items: seq<Item>, i: nat)
    requires i < |items| && DistinctKeys(items)
    ensures Without(items, items[i].key) == items[..i] + items[i + 1..]
  {
    var left, right := items[..i], items[i + 1..];
    assert items == left + [items[i]] + right;
    FilterDropsOne(left, items[i], right, KeyIsNot(items[i].key));
  }

  lemma {:induction false} LookupWithout(items: seq<Item>, key: string, other: string)
    ensures Lookup(Without(items, key), other) == if key == other then None else Lookup(items, other)
  {
    if items != [] {
      LookupWithout(items[1..], key, other);
      var rest := Without(items[1..], key);
      assert ([items[0]] + rest)[1..] == rest && [] + rest == rest;
    }
  }

  lemma LookupFront(it: Item, rest: seq<Item>, key: string)
    ensures Lookup([it] + rest, key) == if it.key == key then Some(it) else Lookup(rest, key)
  {
    assert ([it] + rest)[1..] == rest;
  }

  lemma {:induction false} LookupPrefix(items: seq<Item>, n: nat, key: string)
    requires n <= |items|
    ensures Lookup(items[..n], key).Some? ==> Lookup(items[..n], key) == Lookup(items, key)
  {
    if n > 0 {
      LookupPrefix(items[1..], n - 1, key);
      assert items[..n][1..] == items[1..][..n - 1];
    }
  }

  lemma {:induction false} LookupLive(items: seq<Item>, now: int, key: string)
    requires DistinctKeys(items)
    ensures var live := Lookup(Filter(items, LiveAt(now)), key);
      live == (if Lookup(items, key).Some? && Expired(Lookup(items, key).value, now) then None else Lookup(items, key))
  {
    if items != [] {
      LookupLive(items[1..], now, key);
      var rest := Filter(items[1..], LiveAt(now));
      assert ([items[0]] + rest)[1..] == rest && [] + rest == rest;
      LookupMissing(items[1..], items[0].key);
      LookupLive(items[1..], now, items[0].key);
    }
  }

  // ---------- what an operation means for later ones ----------

  /** An applied write is read back, with its value and stamp, exactly until its TTL has passed;
      without a TTL for ever. A sweep drops it from then on and not before. */
  lemma SetThenGet(c: Cache, key: string, value: string, ttl: int, writtenAt: int, t0: int, t: int)
    requires WellFormed(c) && Set(c, key, value, ttl, writtenAt, t0).1
    ensures var after := Set(c, key, value, ttl, writtenAt, t0).0;
      var got := Get(after, key, t).1;
      && (got.Some? <==> ttl <= 0 || t < t0 + ttl)
      && (got.Some? ==> got.value.key == key && got.value.value == value && got.value.writtenAt == writtenAt)
      && (Holds(Sweep(after, t), key) <==> ttl <= 0 || t < t0 + ttl)
  {
    var after := Set(c, key, value, ttl, writtenAt, t0).0;
    SetWellFormed(c, key, value, ttl, writtenAt, t0);
    LookupFront(after.items[0], after.items[1..], key);
    assert after.items == [after.items[0]] + after.items[1..];
    LookupLive(after.items, t, key);
  }

  /** A delete reports whether the key was there, run out or not, and leaves nothing to report. */
  lemma DeleteReports(c: Cache, key: string)
    ensures Delete(c, key).1 <==> exists it :: it in c.items && it.key == key
    ensures !Delete(Delete(c, key).0, key).1
  {
    LookupMissing(c.items, key);
    LookupWithout(c.items, key, key);
    if it :| it in c.items && it.key == key {
      var i :| 0 <= i < |c.items| && c.items[i] == it;
    }
  }

  // ---------- every operation keeps the invariant ----------

  lemma {:induction false} FilterDistinct(items: seq<Item>, keep: Item -> bool)
    requires DistinctKeys(items)
    ensures DistinctKeys(Filter(items, keep))
  {
    if items != [] {
      FilterDistinct(items[1..], keep);
      var rest := Filter(items[1..], keep);
      FilterKeeps(items[1..], keep);
      forall i | 0 <= i < |rest| ensures rest[i].key != items[0].key {
        assert rest[i] in items[1..];
      }
    }
  }

  lemma PushDistinct(it: Item, rest: seq<Item>)
    requires DistinctKeys(rest) && Lookup(rest, it.key).None?
    ensures DistinctKeys([it] + rest)
  {
    LookupMissing(rest, it.key);
  }

  lemma MovedToFront(items: seq<Item>, it: Item)
    requires DistinctKeys(items) && Lookup(items, it.key).Some?
    ensures DistinctKeys([it] + Without(items, it.key))
    ensures |[it] + Without(items, it.key)| == |items|
  {
    var i :| 0 <= i < |items| && items[i] == Lookup(items, it.key).value;
    WithoutAt(items, i);
    LookupWithout(items, it.key, it.key);
    FilterDistinct(items, KeyIsNot(it.key));
    PushDistinct(it, Without(items, it.key));
  }

  lemma GetWellFormed(c: Cache, key: string, now: int)
    requires WellFormed(c)
    ensures WellFormed(Get(c, key, now).0)
  {
    FilterDistinct(c.items, KeyIsNot(key));
    if Holds(c, key) { MovedToFront(c.items, Lookup(c.items, key).value); }
  }

  lemma SetWellFormed(c: Cache, key: string, value: string, ttl: int, writtenAt: int, now: int)
    requires WellFormed(c)
    ensures WellFormed(Set(c, key, value, ttl, writtenAt, now).0)
  {
    var it := NewItem(key, value, ttl, writtenAt, now);
    if Holds(c, key) {
      MovedToFront(c.items, it);
    } else {
      var n := Min(|c.items|, c.capacity - 1);
      LookupPrefix(c.items, n, key);
      PushDistinct(it, c.items[..n]);
    }
  }

  lemma DeleteWellFormed(c: Cache, key: string)
    requires WellFormed(c)
    ensures WellFormed(Delete(c, key).0)
  {
    FilterDistinct(c.items, KeyIsNot(key));
  }

  lemma SweepWellFormed(c: Cache, now: int)
    requires WellFormed(c)
    ensures WellFormed(Sweep(c, now))
  {
    FilterDistinct(c.items, LiveAt(now));
  }
}
