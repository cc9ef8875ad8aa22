/** The Store object: a doubly linked list of elements, most recently used first, and a map
    from keys to those elements, kept in agreement by every operation. */
module Store {
  import opened Seqs
  import opened LruModel
  import opened LinkedList

  // ---------- agreement of list and map ----------

  /** The position of every listed key. */
  type Ranks = map<string, nat>

  /** What the list and the map hold: the elements from front to back, the items they carry,
      and the position of each key. */
  datatype Shape = Shape(order: seq<Element>, contents: seq<Item>, rank: Ranks)

  const EMPTY := Shape([], [], map[])

  ghost predicate Ranked(rank: Ranks, contents: seq<Item>) {
    && (forall i :: 0 <= i < |contents| ==> contents[i].key in rank && rank[contents[i].key] == i)
    && (forall k :: k in rank ==> rank[k] < |contents| && contents[rank[k]].key == k)
  }

  /** The map indexes exactly the listed elements, each under the key of its item. */
  ghost predicate Agrees(items: map<string, Element>, s: Shape) {
    && |s.contents| == |s.order|
    && Ranked(s.rank, s.contents)
    && items.Keys == s.rank.Keys
    && forall k :: k in items ==> s.rank[k] < |s.order| && items[k] == s.order[s.rank[k]]
  }

  /** The elements carry the items. */
  ghost predicate Carries(s: Shape)
    reads s.order`item
  {
    && |s.contents| == |s.order|
    && forall i :: 0 <= i < |s.order| ==> s.order[i].item == s.contents[i]
  }

  ghost function RankCut(rank: Ranks, key: string, i: nat): Ranks {
    map k | k in rank && k != key :: if rank[k] > i then rank[k] - 1 else rank[k]
  }

  ghost function RankPushed(rank: Ranks, key: string): Ranks {
    (map k | k in rank :: rank[k] + 1)[key := 0]
  }

  ghost predicate Lists(s: Shape, key: string) {
    key in s.rank && s.rank[key] < |s.order| == |s.contents|
  }

  /** The shape without the element of `key`. */
  ghost function CutAt(s: Shape, key: string): Shape
    requires Lists(s, key)
  {
    var i := s.rank[key];
    Shape(Cut(s.order, i), Cut(s.contents, i), RankCut(s.rank, key, i))
  }

  ghost function Pushed(s: Shape, e: Element, it: Item): Shape {
    Shape([e] + s.order, [it] + s.contents, RankPushed(s.rank, it.key))
  }

  lemma RankedLookup(rank: Ranks, contents: seq<Item>, key: string)
    requires Ranked(rank, contents)
    ensures DistinctKeys(contents)
    ensures key in rank <==> Lookup(contents, key).Some?
    ensures key in rank ==>
      Lookup(contents, key) == Some(contents[rank[key]]) && Without(contents, key) == Cut(contents, rank[key])
  {
    if key in rank {
      LookupAt(contents, rank[key]);
      WithoutAt(contents, rank[key]);
      CutIsConcat(contents, rank[key]);
    } else {
      LookupMissing(contents, key);
    }
  }

  lemma RankedSize(rank: Ranks, contents: seq<Item>)
    requires Ranked(rank, contents)
    ensures |rank| == |contents|
  {
    var keys := seq(|contents|, i requires 0 <= i < |contents| => contents[i].key);
    NoDupCardinality(keys);
    forall k ensures k in Elements(keys) <==> k in rank {
      if k in rank { assert keys[rank[k]] == k; }
    }
    assert Elements(keys) == rank.Keys;
  }

  lemma RankedCut(rank: Ranks, contents: seq<Item>, i: nat)
    requires Ranked(rank, contents) && i < |contents|
    ensures Ranked(RankCut(rank, contents[i].key, i), Cut(contents, i))
  {
    var rank', contents' := RankCut(rank, contents[i].key, i), Cut(contents, i);
    forall k | k in rank' ensures rank'[k] < |contents'| && contents'[rank'[k]].key == k {
      assert contents[rank[k]].key == k;
      assert rank[k] != i;
    }
  }

  lemma RankedPush(rank: Ranks, contents: seq<Item>, it: Item)
    requires Ranked(rank, contents) && it.key !in rank
    ensures Ranked(RankPushed(rank, it.key), [it] + contents)
  {
    var rank', contents' := RankPushed(rank, it.key), [it] + contents;
    forall i | 0 <= i < |contents'| ensures contents'[i].key in rank' && rank'[contents'[i].key] == i {
      if i > 0 { assert contents'[i] == contents[i - 1]; }
    }
    forall k | k in rank' ensures rank'[k] < |contents'| && contents'[rank'[k]].key == k {
      if k != it.key { assert contents'[rank[k] + 1] == contents[rank[k]]; }
    }
  }

  /** What the operations need to know about a key. */
  lemma Find(items: map<string, Element>, s: Shape, key: string)
    requires Agrees(items, s)
    ensures DistinctKeys(s.contents) && |items| == |s.order| == |s.contents|
    ensures key in items <==> Lookup(s.contents, key).Some?
    ensures key in items ==>
      && Lists(s, key) && s.order[s.rank[key]] == items[key] && s.contents[s.rank[key]].key == key
      && Lookup(s.contents, key) == Some(s.contents[s.rank[key]])
      && Without(s.contents, key) == CutAt(s, key).contents
  {
    RankedLookup(s.rank, s.contents, key);
    RankedSize(s.rank, s.contents);
    assert |items.Keys| == |s.rank.Keys|;
  }

  lemma AgreesCut(items: map<string, Element>, s: Shape, key: string)
    requires Agrees(items, s) && key in items
    ensures Lists(s, key) && s.order[s.rank[key]] == items[key]
    ensures Agrees(items - {key}, CutAt(s, key))
  {
    RankedCut(s.rank, s.contents, s.rank[key]);
    forall k | k in items && k != key ensures s.rank[k] != s.rank[key] {
      assert s.contents[s.rank[k]].key == k;
    }
  }

  lemma AgreesPush(items: map<string, Element>, s: Shape, e: Element, it: Item)
    requires Agrees(items, s) && it.key !in items
    ensures Agrees(items[it.key := e], Pushed(s, e, it))
  {
    RankedPush(s.rank, s.contents, it);
  }

  lemma CarriesPushed(s: Shape, e: Element)
    requires Carries(s)
    ensures Carries(Pushed(s, e, e.item))
  {
  }

  /** Taking an element out and putting it in front leaves the map as it was. */
  lemma AgreesMove(items: map<string, Element>, s: Shape, e: Element, it: Item)
    requires Agrees(items, s) && it.key in items && items[it.key] == e
    ensures Lists(s, it.key) && s.order[s.rank[it.key]] == e
    ensures Agrees(items, Pushed(CutAt(s, it.key), e, it))
  {
    hide Agrees;
    AgreesCut(items, s, it.key);
    AgreesPush(items - {it.key}, CutAt(s, it.key), e, it);
    assert (items - {it.key})[it.key := e] == items;
  }

  class Store {
    const capacity: nat
    const ll: List
    var items: map<string, Element>
    var hits: nat
    var misses: nat
    var sets: nat
    var deletes: nat
    var evicts: nat
    var expired: nat
    var skipped: nat
    ghost var shape: Shape

    ghost predicate Consistent()
      reads this`shape, this`items, ll, shape.order
    {
      ll.Linked(shape.order) && Carries(shape) && Agrees(items, shape)
    }

    ghost predicate Valid()
      reads this, ll, shape.order
    {
      capacity >= 1 && Consistent() && |shape.order| <= capacity
    }

    ghost function View(): Cache
      reads this
    {
      Cache(capacity, shape.contents, Stats(hits, misses, sets, deletes, evicts, expired, skipped))
    }

    constructor (size: int)
      ensures Valid() && fresh(ll) && shape == EMPTY
      ensures View() == Cache(Max(size, 1), [], NO_STATS)
    {
      capacity := if size < 1 then 1 else size;
      ll := new List();
      items := map[];
      hits, misses, sets, deletes, evicts, expired, skipped := 0, 0, 0, 0, 0, 0, 0;
      shape := EMPTY;
    }

    /** The map and the list are of one size. */
    lemma SameSize()
      requires Consistent()
      ensures |items| == |shape.order| == |shape.contents|
    {
      RankedSize(shape.rank, shape.contents);
      assert |items.Keys| == |shape.rank.Keys|;
    }

    /** What the operations need to know about a key. */
    lemma Locate(key: string)
      requires Consistent()
      ensures |items| == |shape.order| == |shape.contents|
      ensures key in items <==> Lookup(shape.contents, key).Some?
      ensures key in items ==>
        && Lookup(shape.contents, key) == Some(items[key].item) && items[key].item.key == key
        && Lists(shape, key) && CutAt(shape, key).contents == Without(shape.contents, key)
      ensures key in items ==> items[key] in shape.order
      ensures key in items ==> |Without(shape.contents, key)| == |shape.contents| - 1
    {
      Find(items, shape, key);
    }

    lemma Positions(key: string)
      requires Consistent() && key in items
      ensures ll.Linked(shape.order) && Agrees(items, shape) && Carries(shape)
      ensures Lists(shape, key) && shape.order[shape.rank[key]] == items[key]
      ensures forall i :: 0 <= i < |shape.order| && i != shape.rank[key] ==> shape.order[i] != items[key]
    {
    }

    /** What the operations need to know about the element at position i. */
    lemma Occupant(i: nat)
      requires Consistent() && i < |shape.order|
      ensures var e := shape.order[i];
        && |shape.contents| == |shape.order| && e.item == shape.contents[i] && e.prev == Nth(shape.order, i - 1)
        && e.item.key in items && items[e.item.key] == e
        && e.item.key in shape.rank && shape.rank[e.item.key] == i
    {
      assert shape.order[i].item == shape.contents[i];
      assert shape.order[i].prev == Nth(shape.order, i - 1);
    }

    /** What the operations need to know about the back of the list. */
    lemma AtBack()
      requires Consistent()
      ensures ll.back == Nth(shape.order, |shape.order| - 1)
      ensures shape.order != [] ==> var n := |shape.order| - 1;
        && |shape.contents| == n + 1
        && Cut(shape.order, n) == shape.order[..n] && Cut(shape.contents, n) == shape.contents[..n]
    {
    }

    // ---------- list and map together ----------

    method RemoveElem(e: Element)
      requires Consistent() && e.item.key in items && items[e.item.key] == e
      modifies ll, this`shape, this`items, shape.order`prev, shape.order`next
      ensures Consistent()
      ensures Lists(old(shape), e.item.key) && shape == CutAt(old(shape), e.item.key)
    {
      hide Agrees, List.Linked, RankCut, RankPushed;
      ghost var key := e.item.key;
      AgreesCut(items, shape, key);
      items := items - {e.item.key};
      ll.Unlink(e, shape.order, shape.rank[key]);
      shape := CutAt(shape, key);
    }

    method RemoveKey(key: string)
      requires Consistent() && key in items
      modifies ll, this`shape, this`items, shape.order`prev, shape.order`next
      ensures Consistent()
      ensures shape.contents == Without(old(shape).contents, key)
      ensures |shape.order| == |old(shape).order| - 1
      ensures forall x :: x in shape.order ==> x in old(shape).order
    {
      hide Consistent, RankCut;
      Locate(key);
      RemoveElem(items[key]);
    }

    /** Moves e to the front; its item may just have been overwritten. */
    method Refresh(e: Element)
      requires ll.Linked(shape.order) && Agrees(items, shape)
      requires e.item.key in items && items[e.item.key] == e && Lists(shape, e.item.key)
      requires forall i :: 0 <= i < |shape.order| && i != shape.rank[e.item.key] ==>
        shape.order[i].item == shape.contents[i]
      modifies ll, this`shape, shape.order`prev, shape.order`next
      ensures Consistent()
      ensures Lists(old(shape), e.item.key)
      ensures shape == Pushed(CutAt(old(shape), e.item.key), e, e.item)
    {
      hide Agrees, List.Linked, RankCut, RankPushed;
      ghost var key := e.item.key;
      AgreesMove(items, shape, e, e.item);
      ll.MoveToFront(e, shape.order, shape.rank[key]);
      shape := Pushed(CutAt(shape, key), e, e.item);
    }

    method Touch(e: Element)
      requires Consistent() && e.item.key in items && items[e.item.key] == e
      modifies ll, this`shape, shape.order`prev, shape.order`next
      ensures Consistent()
      ensures shape.contents == [e.item] + Without(old(shape).contents, e.item.key)
      ensures |shape.order| == |old(shape).order|
      ensures forall x :: x in shape.order ==> x in old(shape).order
    {
      hide Agrees, List.Linked, RankCut, RankPushed;
      Locate(e.item.key);
      Positions(e.item.key);
      Refresh(e);
    }

    /** Overwrites the fields of an item in place and moves its element to the front. */
    method Update(e: Element, value: string, exp: Option<int>, writtenAt: int)
      requires Consistent() && e.item.key in items && items[e.item.key] == e
      modifies ll, this`shape, e`item, shape.order`prev, shape.order`next
      ensures Consistent()
      ensures e.item == old(e.item).(value := value, expiresAt := exp, writtenAt := writtenAt)
      ensures shape.contents == [e.item] + Without(old(shape).contents, e.item.key)
      ensures |shape.order| == |old(shape).order|
      ensures forall x :: x in shape.order ==> x in old(shape).order
    {
      hide Agrees, List.Linked, RankCut, RankPushed;
      Locate(e.item.key);
      Positions(e.item.key);
      e.item := e.item.(value := value, expiresAt := exp, writtenAt := writtenAt);
      Refresh(e);
    }

    method EvictLRU()
      requires Consistent()
      modifies ll, this`shape, this`items, this`evicts, shape.order`prev, shape.order`next
      ensures Consistent()
      ensures old(shape).order == [] ==> shape == old(shape) && evicts == old(evicts)
      ensures old(shape).order != [] ==>
        && |shape.order| == |old(shape).order| - 1
        && shape.order == old(shape).order[..|shape.order|]
        && shape.contents == old(shape).contents[..|shape.order|]
        && evicts == old(evicts) + 1
    {
      hide Consistent, RankCut;
      AtBack();
      if ll.back == null {
        return;
      }
      Occupant(|shape.order| - 1);
      RemoveElem(ll.back);
      evicts := evicts + 1;
    }

    // ---------- the operations ----------

    method Get(key: string, now: int) returns (r: Option<Item>)
      requires Valid()
      modifies this, ll, shape.order
      ensures Valid()
      ensures (View(), r) == LruModel.Get(old(View()), key, now)
      ensures forall e :: e in shape.order ==> e in old(shape).order
    {
      hide Consistent, CutAt, Pushed, Lists, Lookup, Without;
      Locate(key);
      if key !in items {
        misses := misses + 1;
        return None;
      }
      var e := items[key];
      if e.item.expiresAt.Some? && now >= e.item.expiresAt.value {
        RemoveKey(key);
        expired := expired + 1;
        misses := misses + 1;
        return None;
      }
      Touch(e);
      hits := hits + 1;
      r := Some(e.item);
    }

    method Set(key: string, value: string, ttl: int, writtenAt: int, now: int) returns (applied: bool)
      requires Valid()
      modifies this, ll, shape.order
      ensures Valid()
      ensures (View(), applied) == LruModel.Set(old(View()), key, value, ttl, writtenAt, now)
      ensures forall e :: e in shape.order ==> e in old(shape).order || fresh(e)
    {
      hide Consistent, CutAt, Pushed, Lists, Lookup, Without;
      Locate(key);
      var exp: Option<int> := None;
      if ttl > 0 {
        exp := Some(now + ttl);
      }
      if key in items {
        var e := items[key];
        if e.item.writtenAt > writtenAt {
          skipped := skipped + 1;
          return false;
        }
        Update(e, value, exp, writtenAt);
        sets := sets + 1;
        return true;
      }
      EvictToFit();
      LookupPrefix(old(shape).contents, |shape.contents|, key);
      Insert(Item(key, value, exp, writtenAt));
      sets := sets + 1;
      applied := true;
    }

    /** Links and indexes a new element. */
    method Insert(it: Item)
      requires Consistent() && Lookup(shape.contents, it.key).None?
      modifies ll, this`shape, this`items, shape.order`prev
      ensures Consistent()
      ensures shape.contents == [it] + old(shape).contents
      ensures |shape.order| == |old(shape).order| + 1
      ensures forall x :: x in shape.order ==> x in old(shape).order || fresh(x)
    {
      hide Agrees, List.Linked, RankPushed, Carries;
      Locate(it.key);
      var e := new Element(it);
      AgreesPush(items, shape, e, it);
      items := items[it.key := e];
      ll.PushFront(e, shape.order);
      CarriesPushed(shape, e);
      shape := Pushed(shape, e, it);
    }

    /** The eviction loop. It ends because each pass really shrinks the map. */
    method EvictToFit()
      requires Valid()
      modifies ll, this`shape, this`items, this`evicts, shape.order`prev, shape.order`next
      ensures Consistent()
      ensures |shape.order| == Min(|old(shape).order|, capacity - 1)
      ensures shape.order == old(shape).order[..|shape.order|]
      ensures shape.contents == old(shape).contents[..|shape.order|]
      ensures evicts == old(evicts) + |old(shape).order| - |shape.order|
    {
      hide Consistent;
      SameSize();
      while |items| >= capacity
        invariant Consistent() && |items| == |shape.order| == |shape.contents|
        invariant Min(|old(shape).order|, capacity - 1) <= |shape.order| <= |old(shape).order|
        invariant shape.order == old(shape).order[..|shape.order|]
        invariant shape.contents == old(shape).contents[..|shape.order|]
        invariant evicts == old(evicts) + |old(shape).order| - |shape.order|
        decreases |items|
      {
        EvictLRU();
        SameSize();
      }
    }

    method Delete(key: string) returns (present: bool)
      requires Valid()
      modifies this, ll, shape.order
      ensures Valid()
      ensures (View(), present) == LruModel.Delete(old(View()), key)
      ensures forall e :: e in shape.order ==> e in old(shape).order
    {
      hide Consistent, CutAt, Pushed, Lists, Lookup, Without;
      Locate(key);
      if key !in items {
        return false;
      }
      RemoveKey(key);
      deletes := deletes + 1;
      present := true;
    }

    /** One step of the pass, at position i: returns the element before it. */
    method SweepOne(el: Element, now: int, ghost i: nat) returns (prev: Element?)
      requires Consistent() && el == Nth(shape.order, i)
      modifies ll, this`shape, this`items, this`expired, shape.order`prev, shape.order`next
      ensures Consistent()
      ensures i < |old(shape).order| == |old(shape).contents|
      ensures var gone := Expired(old(shape).contents[i], now);
        && shape.order == (if gone then Cut(old(shape).order, i) else old(shape).order)
        && shape.contents == (if gone then Cut(old(shape).contents, i) else old(shape).contents)
        && expired == old(expired) + (if gone then 1 else 0)
      ensures prev == Nth(shape.order, i - 1)
    {
      hide Consistent, RankCut;
      Occupant(i);
      prev := el.prev;
      if el.item.expiresAt.Some? && now >= el.item.expiresAt.value {
        RemoveElem(el);
        expired := expired + 1;
      }
    }

    /** The janitor's pass, from the back to the front. */
    method Sweep(now: int)
      requires Valid()
      modifies this, ll, shape.order
      ensures Valid()
      ensures View() == LruModel.Sweep(old(View()), now)
      ensures forall e :: e in shape.order ==> e in old(shape).order
    {
      hide Consistent, Filter, Expired, Cut;
      ghost var all, elements := shape.contents, shape.order;
      ghost var p := |all|;
      SweepEnds(all, now);
      SameSize();
      AtBack();
      var el := ll.back;
      while el != null
        modifies ll, this`shape, this`items, this`expired, elements
        invariant 0 <= p <= |shape.order| <= |all|
        invariant el == Nth(shape.order, p - 1)
        invariant Consistent()
        invariant forall i :: 0 <= i < |shape.order| ==> shape.order[i] in elements
        invariant shape.contents == all[..p] + Filter(all[p..], LiveAt(now))
        invariant expired == old(expired) + |all| - |shape.contents|
        decreases p
      {
        SweepStep(all, p, now);
        p := p - 1;
        el := SweepOne(el, now, p);
      }
    }

    method Len() returns (n: nat)
      requires Valid()
      ensures n == |View().items| <= capacity
    {
      SameSize();
      n := |items|;
    }
  }

  lemma SweepEnds(all: seq<Item>, now: int)
    ensures all[..|all|] + Filter(all[|all|..], LiveAt(now)) == all
    ensures all[..0] + Filter(all[0..], LiveAt(now)) == Filter(all, LiveAt(now))
  {
    assert all[0..] == all;
  }

  lemma SweepStep(all: seq<Item>, p: nat, now: int)
    requires 0 < p <= |all|
    ensures var before := all[..p] + Filter(all[p..], LiveAt(now));
      var after := all[..p - 1] + Filter(all[p - 1..], LiveAt(now));
      && before[p - 1] == all[p - 1]
      && after == if Expired(all[p - 1], now) then Cut(before, p - 1) else before
  {
    assert all[p - 1..][1..] == all[p..];
  }
}
