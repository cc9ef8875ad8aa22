/** The Ring object: Add and Remove rebuild the point slice, Owners searches and walks it. */
module Ring {
  import opened Seqs
  import opened RingModel

  /** sort.Slice with the ring's order: sorted, same points. Nothing else is promised. */
  method SortSlice(a: array<VNode>)
    modifies a
    ensures Sorted(a[..]) && multiset(a[..]) == multiset(old(a[..]))
  {
    var n := 0;
    while n < a.Length
      invariant 0 <= n <= a.Length
      invariant Sorted(a[..n]) && multiset(a[..]) == multiset(old(a[..]))
    {
      SinkInto(a, n);
      n := n + 1;
    }
    assert a[..n] == a[..];
  }

  method Swap(a: array<VNode>, j: nat)
    requires 0 < j < a.Length
    modifies a
    ensures a[j - 1] == old(a[j]) && a[j] == old(a[j - 1])
    ensures forall k :: 0 <= k < a.Length && k != j && k != j - 1 ==> a[k] == old(a[k])
    ensures multiset(a[..]) == multiset(old(a[..]))
  {
    a[j - 1], a[j] := a[j], a[j - 1];
  }

  method SinkInto(a: array<VNode>, n: nat)
    requires n < a.Length && Sorted(a[..n])
    modifies a
    ensures Sorted(a[..n + 1]) && multiset(a[..]) == multiset(old(a[..]))
  {
    var j := n;
    while j > 0 && Below(a[j], a[j - 1])
      invariant 0 <= j <= n
      invariant multiset(a[..]) == multiset(old(a[..]))
      invariant forall x, y :: 0 <= x < y <= n && y != j ==> !Below(a[y], a[x])
    {
      forall y | j < y <= n
        ensures !Below(a[y], a[j])
      {}
      BelowTotal(a[j], a[j - 1]);
      Swap(a, j);
      j := j - 1;
    }
    forall x | 0 <= x < j
      ensures !Below(a[j], a[x])
    {
      if x < j - 1 { BelowTransitive(a[x], a[j - 1], a[j]); }
    }
  }

  class Ring {
    const cfg: Config
    var nodes: set<string>
    var ring: seq<VNode>
    /** Every Add and Remove call so far. */
    ghost var history: seq<Change>

    ghost predicate Valid()
      reads this
    {
      cfg.vnodes >= 1 && nodes == Members(history) && IsRing(cfg, nodes, ring)
    }

    constructor (hash: HashFunction, vnodesPerNode: int)
      ensures Valid() && history == [] && nodes == {}
      ensures cfg == Config(hash, Max(vnodesPerNode, 1))
    {
      cfg := Config(hash, if vnodesPerNode < 1 then 1 else vnodesPerNode);
      nodes := {};
      ring := [];
      history := [];
    }

    method Rebuild()
      requires cfg.vnodes >= 1 && nodes == Members(history)
      modifies this`ring
      ensures Valid()
    {
      var points: seq<VNode> := [];
      var todo := nodes;
      while todo != {}
        invariant todo <= nodes
        invariant forall p: VNode :: multiset(points)[p] == Multiplicity(cfg, nodes - todo, p)
      {
        var id :| id in todo;
        ghost var before := points;
        ghost var all := Points(cfg, id);
        for i := 0 to cfg.vnodes
          invariant points == before + all[..i]
        {
          points := points + [Point(cfg, id, i)];
        }
        assert all[..cfg.vnodes] == all;
        JoinMultiplicity(cfg, nodes - todo, id, before, points);
        assert nodes - todo + {id} == nodes - (todo - {id});
        todo := todo - {id};
      }
      assert nodes - todo == nodes;
      var slice := new VNode[|points|](i requires 0 <= i < |points| => points[i]);
      assert slice[..] == points;
      SortSlice(slice);
      ring := slice[..];
    }

    method Add(id: string)
      requires Valid()
      modifies this
      ensures Valid()
      ensures history == old(history) + [Change.Add(id)]
      ensures nodes == Changed(old(nodes), Change.Add(id))
      ensures id == "" || id in old(nodes) ==> ring == old(ring)
    {
      history := history + [Change.Add(id)];
      assert history[..|history| - 1] == old(history);
      if id == "" || id in nodes {
        return;
      }
      nodes := nodes + {id};
      Rebuild();
    }

    method Remove(id: string)
      requires Valid()
      modifies this
      ensures Valid()
      ensures history == old(history) + [Change.Remove(id)]
      ensures nodes == Changed(old(nodes), Change.Remove(id))
      ensures id !in old(nodes) ==> ring == old(ring)
    {
      history := history + [Change.Remove(id)];
      assert history[..|history| - 1] == old(history);
      if id !in nodes {
        return;
      }
      nodes := nodes - {id};
      Rebuild();
    }

    /** sort.Search: the first point at or clockwise of h, or the length. */
    method Search(h: Hash) returns (i: nat)
      requires Valid()
      ensures i <= |ring|
      ensures forall k :: 0 <= k < i ==> ring[k].hash < h
      ensures forall k :: i <= k < |ring| ==> ring[k].hash >= h
    {
      i := 0;
      var j := |ring|;
      while i < j
        invariant 0 <= i <= j <= |ring|
        invariant forall k :: 0 <= k < i ==> ring[k].hash < h
        invariant forall k :: j <= k < |ring| ==> ring[k].hash >= h
      {
        var mid := (i + j) / 2;
        if ring[mid].hash >= h {
          j := mid;
        } else {
          i := mid + 1;
        }
      }
    }

    /** The walk of a lookup: one lap at most from slot `start`, wrapping at the end of the
        slice, skipping members already seen, until `limit` members are found. */
    method WalkFrom(start: nat, limit: nat) returns (out: seq<string>)
      requires start < |ring|
      ensures var walk := Walk(ring[start..] + ring[..start], {});
        out == walk[..Min(limit, |walk|)]
    {
      ghost var lap := ring[start..] + ring[..start];
      ghost var walk := Walk(lap, {});
      var i := start;
      var seen: set<string> := {};
      out := [];
      var walked := 0;
      assert lap[0..] == lap;
      while walked < |ring| && |out| < limit
        invariant 0 <= walked <= |ring| && |out| <= limit
        invariant i == if start + walked < |ring| then start + walked else start + walked - |ring|
        invariant out + Walk(lap[walked..], seen) == walk
      {
        var id := ring[i].id;
        assert lap[walked] == ring[i];
        assert lap[walked..][0] == ring[i] && lap[walked..][1..] == lap[walked + 1..];
        if id !in seen {
          assert (out + [id]) + Walk(lap[walked + 1..], seen + {id}) == walk;
          seen := seen + {id};
          out := out + [id];
        }
        i := i + 1;
        if i == |ring| {
          i := 0;
        }
        walked := walked + 1;
      }
    }

    /** The lookup: a binary search, then the wrapping, deduplicating walk. */
    method Owners(key: string, n: int) returns (out: seq<string>)
      requires Valid()
      ensures out == OwnersOf(cfg, nodes, key, n)
    {
      RingIsUnique(cfg, nodes, ring, RingOf(cfg, nodes));
      FullWalkMeetsMembers(cfg, nodes, key);
      if n < 1 || |ring| == 0 || |nodes| == 0 {
        return [];
      }
      var limit := if n > |nodes| then |nodes| else n;
      var i := Search(cfg.hash(key));
      LapIsClockwise(ring, cfg.hash(key), i);
      if i == |ring| {
        assert ring[i..] + ring[..i] == ring[0..] + ring[..0];
        i := 0;
      }
      out := WalkFrom(i, limit);
    }

    method Primary(key: string) returns (id: string)
      requires Valid()
      ensures OwnersOf(cfg, nodes, key, 1) == if id == "" then [] else [id]
      ensures id == "" <==> nodes == {}
    {
      OwnersAreExact(cfg, nodes, key, 1, 1);
      NoEmptyMember(history);
      var o := Owners(key, 1);
      if |o| == 0 {
        return "";
      }
      id := o[0];
      assert id in Elements(o);
    }
  }

  lemma LapIsClockwise(r: seq<VNode>, h: Hash, i: nat)
    requires i <= |r|
    requires forall k :: 0 <= k < i ==> r[k].hash < h
    requires forall k :: i <= k < |r| ==> r[k].hash >= h
    ensures r[i..] + r[..i] == Clockwise(r, h)
  {
    var low, high := r[..i], r[i..];
    assert r == low + high;
    FilterSplit(low, high, AtOrAfter(h));
    FilterSplit(high, low, Before(h));
  }
}
