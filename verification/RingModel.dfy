/** The consistent-hash ring as a mathematical object: which points a set of members puts on
    the ring, what a clockwise walk meets, and how both react to a join or a leave.
    The hash is an arbitrary function, so colliding points are included throughout. */
module RingModel {
  import opened Seqs
  import Text

  type Hash = h: int | 0 <= h < 0x1_0000_0000
  type HashFunction = string -> Hash

  datatype VNode = VNode(hash: Hash, id: string)

  /** A ring configuration: the hash and the number of virtual nodes per member. */
  datatype Config = Config(hash: HashFunction, vnodes: nat)

  // ---------- the order of the points ----------

  predicate Below(a: VNode, b: VNode) {
    if a.hash == b.hash then Text.Less(a.id, b.id) else a.hash < b.hash
  }

  ghost predicate Sorted(r: seq<VNode>) {
    forall i, j :: 0 <= i < j < |r| ==> !Below(r[j], r[i])
  }

  lemma BelowTransitive(a: VNode, b: VNode, c: VNode)
    requires !Below(b, a) && !Below(c, b)
    ensures !Below(c, a)
  {
    Text.LessTotal(a.id, b.id);
    Text.LessTotal(b.id, c.id);
    Text.LessTotal(a.id, c.id);
    if Text.Less(a.id, b.id) && Text.Less(b.id, c.id) {
      Text.LessTransitive(a.id, b.id, c.id);
    }
  }

  lemma BelowTotal(a: VNode, b: VNode)
    ensures !Below(a, b) && !Below(b, a) ==> a == b
    ensures !(Below(a, b) && Below(b, a))
  {
    Text.LessTotal(a.id, b.id);
  }

  lemma SortedHead(a: seq<VNode>, b: seq<VNode>)
    requires Sorted(a) && Sorted(b) && multiset(a) == multiset(b) && a != []
    ensures b != [] && a[0] == b[0]
  {
    assert a[0] in multiset(b);
    assert b[0] in multiset(a);
    BelowTotal(a[0], b[0]);
  }

  lemma SortedTail(a: seq<VNode>)
    requires Sorted(a) && a != []
    ensures Sorted(a[1..]) && multiset(a[1..]) == multiset(a) - multiset{a[0]}
  {
    assert a == [a[0]] + a[1..];
  }

  /** A sorted arrangement is determined by the points in it: any sort, stable or not,
      started from any order, ends in the same sequence. */
  lemma {:induction false} SortIsUnique(a: seq<VNode>, b: seq<VNode>)
    requires Sorted(a) && Sorted(b) && multiset(a) == multiset(b)
    ensures a == b
    decreases |a|
  {
    if a == [] {
      assert |multiset(b)| == 0;
    } else {
      SortedHead(a, b);
      SortedTail(a);
      SortedTail(b);
      SortIsUnique(a[1..], b[1..]);
      assert a == [a[0]] + a[1..] && b == [b[0]] + b[1..];
    }
  }

  lemma {:induction false} FilterSorted(r: seq<VNode>, keep: VNode -> bool)
    requires Sorted(r)
    ensures Sorted(Filter(r, keep))
  {
    if r != [] {
      FilterSorted(r[1..], keep);
      FilterKeeps(r[1..], keep);
      var t := Filter(r[1..], keep);
      forall j | 0 <= j < |t|
        ensures !Below(t[j], r[0])
      {
        assert t[j] in t;
        assert t[j] in r[1..];
      }
    }
  }

  // ---------- the points of a set of members ----------

  /** The documented identity of a virtual node: id#i. */
  function VNodeName(id: string, i: nat): string {
    id + "#" + Text.Itoa(i)
  }

  function Point(cfg: Config, id: string, i: nat): VNode {
    VNode(cfg.hash(VNodeName(id, i)), id)
  }

  function Points(cfg: Config, id: string): (ps: seq<VNode>)
    ensures |ps| == cfg.vnodes
    ensures forall p :: p in ps ==> p.id == id
  {
    seq(cfg.vnodes, i requires 0 <= i => Point(cfg, id, i))
  }

  /** How often a point occurs on the ring of `nodes`. */
  ghost function Multiplicity(cfg: Config, nodes: set<string>, p: VNode): nat {
    if p.id in nodes then multiset(Points(cfg, p.id))[p] else 0
  }

  /** `r` is a ring of `nodes`: sorted, holding exactly the members' points. */
  ghost predicate IsRing(cfg: Config, nodes: set<string>, r: seq<VNode>) {
    Sorted(r) && forall p: VNode :: multiset(r)[p] == Multiplicity(cfg, nodes, p)
  }

  lemma RingIsUnique(cfg: Config, nodes: set<string>, a: seq<VNode>, b: seq<VNode>)
    requires IsRing(cfg, nodes, a) && IsRing(cfg, nodes, b)
    ensures a == b
  {
    assert multiset(a) == multiset(b);
    SortIsUnique(a, b);
  }

  function Insert(r: seq<VNode>, p: VNode): (s: seq<VNode>)
    ensures multiset(s) == multiset(r) + multiset{p}
  {
    if r == [] || !Below(r[0], p) then [p] + r
    else
      assert r == [r[0]] + r[1..];
      [r[0]] + Insert(r[1..], p)
  }

  lemma {:induction false} InsertSorted(r: seq<VNode>, p: VNode)
    requires Sorted(r)
    ensures Sorted(Insert(r, p))
  {
    if r == [] {
    } else if !Below(r[0], p) {
      forall j | 0 <= j < |r|
        ensures !Below(r[j], p)
      {
        if j > 0 { BelowTransitive(p, r[0], r[j]); }
      }
    } else {
      InsertSorted(r[1..], p);
      var t := Insert(r[1..], p);
      BelowTotal(r[0], p);
      forall j | 0 <= j < |t|
        ensures !Below(t[j], r[0])
      {
        assert t[j] in multiset(t);
        assert t[j] == p || t[j] in multiset(r[1..]);
      }
    }
  }

  lemma {:induction false} InsertAll(r: seq<VNode>, ps: seq<VNode>) returns (s: seq<VNode>)
    requires Sorted(r)
    ensures Sorted(s) && multiset(s) == multiset(r) + multiset(ps)
    decreases |ps|
  {
    if ps == [] {
      s := r;
    } else {
      InsertSorted(r, ps[0]);
      s := InsertAll(Insert(r, ps[0]), ps[1..]);
      assert ps == [ps[0]] + ps[1..];
    }
  }

  lemma JoinMultiplicity(cfg: Config, nodes: set<string>, id: string, before: seq<VNode>, after: seq<VNode>)
    requires id !in nodes && multiset(after) == multiset(before) + multiset(Points(cfg, id))
    requires forall p: VNode :: multiset(before)[p] == Multiplicity(cfg, nodes, p)
    ensures forall p: VNode :: multiset(after)[p] == Multiplicity(cfg, nodes + {id}, p)
  {
    forall p: VNode
      ensures multiset(after)[p] == Multiplicity(cfg, nodes + {id}, p)
    {
      assert multiset(before)[p] == Multiplicity(cfg, nodes, p);
      if p.id != id { assert p !in Points(cfg, id); }
    }
  }

  /** Every set of members has a ring. */
  lemma {:induction false} RingExists(cfg: Config, nodes: set<string>)
    ensures exists r :: IsRing(cfg, nodes, r)
  {
    if nodes == {} {
      assert IsRing(cfg, nodes, []);
    } else {
      var id :| id in nodes;
      RingExists(cfg, nodes - {id});
      var before :| IsRing(cfg, nodes - {id}, before);
      var after := InsertAll(before, Points(cfg, id));
      JoinMultiplicity(cfg, nodes - {id}, id, before, after);
      assert nodes - {id} + {id} == nodes;
      assert IsRing(cfg, nodes, after);
    }
  }

  /** The ring of a set of members. */
  ghost function RingOf(cfg: Config, nodes: set<string>): (r: seq<VNode>)
    ensures IsRing(cfg, nodes, r)
  {
    RingExists(cfg, nodes);
    var r :| IsRing(cfg, nodes, r);
    r
  }

  // ---------- the clockwise walk ----------

  function AtOrAfter(h: Hash): VNode -> bool { (p: VNode) => p.hash >= h }

  function Before(h: Hash): VNode -> bool { (p: VNode) => p.hash < h }

  /** The points in the order a clockwise walk from `h` meets them, one full lap. */
  function Clockwise(r: seq<VNode>, h: Hash): seq<VNode> {
    Filter(r, AtOrAfter(h)) + Filter(r, Before(h))
  }

  /** The distinct member ids met along `points`, in order of first meeting, ignoring `seen`. */
  function Walk(points: seq<VNode>, seen: set<string>): seq<string> {
    if points == [] then []
    else if points[0].id in seen then Walk(points[1..], seen)
    else [points[0].id] + Walk(points[1..], seen + {points[0].id})
  }

  ghost function Ids(points: seq<VNode>): set<string> {
    set p | p in points :: p.id
  }

  /** The walk lists every id that is not ignored exactly once. */
  lemma {:induction false} WalkListsIds(points: seq<VNode>, seen: set<string>)
    ensures NoDup(Walk(points, seen))
    ensures Elements(Walk(points, seen)) == Ids(points) - seen
  {
    if points == [] {
    } else {
      var id, rest := points[0].id, points[1..];
      assert Ids(points) == {id} + Ids(rest) by {
        assert points == [points[0]] + rest;
      }
      if id in seen {
        WalkListsIds(rest, seen);
      } else {
        WalkListsIds(rest, seen + {id});
        var w := Walk(rest, seen + {id});
        assert id !in Elements(w);
        assert Elements([id] + w) == {id} + Elements(w);
      }
    }
  }

  function NotFrom(id: string): VNode -> bool { (p: VNode) => p.id != id }

  function IsNot(id: string): string -> bool { (x: string) => x != id }

  /** First-occurrence deduplication commutes with deleting one member. */
  lemma {:induction false} WalkWithout(points: seq<VNode>, seen: set<string>, id: string)
    ensures Filter(Walk(points, seen), IsNot(id)) == Walk(Filter(points, NotFrom(id)), seen - {id})
  {
    if points == [] {
    } else {
      var p, rest := points[0], points[1..];
      var f := Filter(rest, NotFrom(id));
      assert ([p] + f)[1..] == f && [] + f == f;
      if p.id in seen {
        WalkWithout(rest, seen, id);
      } else {
        WalkWithout(rest, seen + {p.id}, id);
        var w := Walk(rest, seen + {p.id});
        assert ([p.id] + w)[1..] == w;
        if p.id == id {
          assert seen + {p.id} - {id} == seen - {id};
        } else {
          assert seen + {p.id} - {id} == seen - {id} + {p.id};
        }
      }
    }
  }

  /** Every member, nearest clockwise first. */
  ghost function FullWalk(cfg: Config, nodes: set<string>, key: string): seq<string> {
    Walk(Clockwise(RingOf(cfg, nodes), cfg.hash(key)), {})
  }

  /** The owners of a key: the first n members of the clockwise walk, or all of them. */
  ghost function OwnersOf(cfg: Config, nodes: set<string>, key: string, n: int): seq<string> {
    Prefix(FullWalk(cfg, nodes, key), n)
  }

  /** At most n elements from the front. */
  function Prefix(s: seq<string>, n: int): seq<string> {
    s[..Min(Max(n, 0), |s|)]
  }

  lemma LapMeetsAllPoints(r: seq<VNode>, h: Hash)
    ensures Ids(Clockwise(r, h)) == Ids(r)
  {
    FilterKeeps(r, AtOrAfter(h));
    FilterKeeps(r, Before(h));
    forall p
      ensures p in Clockwise(r, h) <==> p in r
    {}
  }

  lemma FullWalkMeetsMembers(cfg: Config, nodes: set<string>, key: string)
    requires cfg.vnodes >= 1
    ensures Elements(FullWalk(cfg, nodes, key)) == nodes
    ensures |FullWalk(cfg, nodes, key)| == |nodes|
    ensures NoDup(FullWalk(cfg, nodes, key))
  {
    var r, h := RingOf(cfg, nodes), cfg.hash(key);
    var walk := FullWalk(cfg, nodes, key);
    WalkListsIds(Clockwise(r, h), {});
    LapMeetsAllPoints(r, h);
    forall id
      ensures id in nodes <==> id in Ids(r)
    {
      if id in nodes {
        var p := Points(cfg, id)[0];
        assert p in multiset(Points(cfg, id));
        assert multiset(r)[p] == Multiplicity(cfg, nodes, p) > 0;
        assert p in r;
      }
      if id in Ids(r) {
        var p :| p in r && p.id == id;
        assert p in multiset(r);
        assert multiset(r)[p] == Multiplicity(cfg, nodes, p);
      }
    }
    NoDupCardinality(walk);
  }

  /** Exactness: for n >= 1 exactly min(n, members) distinct members, and asking for fewer
      owners gives a prefix. */
  lemma OwnersAreExact(cfg: Config, nodes: set<string>, key: string, m: int, n: int)
    requires cfg.vnodes >= 1 && m <= n
    ensures |OwnersOf(cfg, nodes, key, n)| == Min(Max(n, 0), |nodes|)
    ensures NoDup(OwnersOf(cfg, nodes, key, n))
    ensures Elements(OwnersOf(cfg, nodes, key, n)) <= nodes
    ensures n >= |nodes| ==> Elements(OwnersOf(cfg, nodes, key, n)) == nodes
    ensures OwnersOf(cfg, nodes, key, m) <= OwnersOf(cfg, nodes, key, n)
  {
    FullWalkMeetsMembers(cfg, nodes, key);
    var walk := FullWalk(cfg, nodes, key);
    forall id | id in OwnersOf(cfg, nodes, key, n)
      ensures id in nodes
    {
      assert id in walk;
      assert id in Elements(walk);
    }
  }

  // ---------- owners are the nearest members ----------

  /** How far clockwise of `from` a point is. */
  function Distance(to: Hash, from: Hash): nat {
    (to - from) % 0x1_0000_0000
  }

  /** How far clockwise of the key the virtual node id#i is. */
  function DistanceOf(cfg: Config, id: string, i: nat, key: string): nat {
    Distance(cfg.hash(id + "#" + Text.Itoa(i)), cfg.hash(key))
  }

  /** Every virtual node of y is farther than d, or as far with y the larger id. */
  ghost predicate Beats(cfg: Config, key: string, x: string, d: nat, y: string) {
    forall b :: 0 <= b < cfg.vnodes ==>
      d < DistanceOf(cfg, y, b, key) || (d == DistanceOf(cfg, y, b, key) && Text.Less(x, y))
  }

  /** Some virtual node of x comes clockwise of the key before all those of y. */
  ghost predicate Closer(cfg: Config, key: string, x: string, y: string) {
    exists a :: 0 <= a < cfg.vnodes && Beats(cfg, key, x, DistanceOf(cfg, x, a, key), y)
  }

  /** A lap goes by distance, and by id where points collide. */
  lemma LapByDistance(r: seq<VNode>, h: Hash, i: nat, j: nat)
    requires Sorted(r) && i < j < |Clockwise(r, h)|
    ensures var p, q := Clockwise(r, h)[i], Clockwise(r, h)[j];
      Distance(p.hash, h) < Distance(q.hash, h) ||
      (Distance(p.hash, h) == Distance(q.hash, h) && !Text.Less(q.id, p.id))
  {
    var high, low := Filter(r, AtOrAfter(h)), Filter(r, Before(h));
    FilterSorted(r, AtOrAfter(h));
    FilterSorted(r, Before(h));
    FilterKeeps(r, AtOrAfter(h));
    FilterKeeps(r, Before(h));
    hide Filter;
    var p, q := Clockwise(r, h)[i], Clockwise(r, h)[j];
    if j < |high| {
      assert p in high && q in high && !Below(q, p);
    } else if i < |high| {
      assert p in high && q in low;
    } else {
      assert p == low[i - |high|] && q == low[j - |high|] && !Below(q, p);
      assert p in low && q in low;
    }
  }

  /** Up to where the walk first meets its i-th member, it has met no other member than the first
      i and those it ignores. */
  lemma {:induction false} FirstMeeting(points: seq<VNode>, seen: set<string>, i: nat) returns (p: nat)
    requires i < |Walk(points, seen)|
    ensures p < |points| && points[p].id == Walk(points, seen)[i]
    ensures forall q :: 0 <= q <= p ==> points[q].id in seen || points[q].id in Walk(points, seen)[..i + 1]
  {
    var id, rest := points[0].id, points[1..];
    if id in seen {
      p := FirstMeeting(rest, seen, i);
    } else if i == 0 {
      p := 0;
      return;
    } else {
      p := FirstMeeting(rest, seen + {id}, i - 1);
      assert Walk(points, seen)[..i + 1] == [id] + Walk(rest, seen + {id})[..i];
    }
    forall q | 0 <= q <= p + 1
      ensures points[q].id in seen || points[q].id in Walk(points, seen)[..i + 1]
    {
      if q > 0 { assert points[q] == rest[q - 1]; }
    }
    p := p + 1;
  }

  lemma PointOnRing(cfg: Config, nodes: set<string>, p: VNode)
    ensures p in RingOf(cfg, nodes) <==>
      p.id in nodes && exists i :: 0 <= i < cfg.vnodes && p == Point(cfg, p.id, i)
  {
    var r, ps := RingOf(cfg, nodes), Points(cfg, p.id);
    assert multiset(r)[p] == Multiplicity(cfg, nodes, p);
    assert p in r <==> p in multiset(r);
    assert p in ps <==> p in multiset(ps);
    if p in ps {
      var i :| 0 <= i < |ps| && ps[i] == p;
      assert p == Point(cfg, p.id, i);
    }
    if i :| 0 <= i < cfg.vnodes && p == Point(cfg, p.id, i) {
      assert ps[i] == p;
    }
  }

  /** The owners are the nearest members, in the order of their distance: each is closer than
      every member that is not listed before it. */
  lemma OwnersAreNearest(cfg: Config, nodes: set<string>, key: string, n: int, i: nat, y: string)
    requires cfg.vnodes >= 1 && i < |OwnersOf(cfg, nodes, key, n)|
    requires y in nodes && y !in OwnersOf(cfg, nodes, key, n)[..i + 1]
    ensures Closer(cfg, key, OwnersOf(cfg, nodes, key, n)[i], y)
  {
    var r, h, walk := RingOf(cfg, nodes), cfg.hash(key), FullWalk(cfg, nodes, key);
    var lap, x := Clockwise(r, h), walk[i];
    assert OwnersOf(cfg, nodes, key, n)[..i + 1] == walk[..i + 1];
    var p := FirstMeeting(lap, {}, i);
    LapPoints(r, h);
    hide Walk, Clockwise, Distance;
    PointOnRing(cfg, nodes, lap[p]);
    assert lap[p] in lap;
    var a :| 0 <= a < cfg.vnodes && lap[p] == Point(cfg, x, a);
    forall b | 0 <= b < cfg.vnodes
      ensures DistanceOf(cfg, x, a, key) < DistanceOf(cfg, y, b, key) ||
        (DistanceOf(cfg, x, a, key) == DistanceOf(cfg, y, b, key) && Text.Less(x, y))
    {
      PointOnRing(cfg, nodes, Point(cfg, y, b));
      var t :| 0 <= t < |lap| && lap[t] == Point(cfg, y, b);
      LapByDistance(r, h, p, t);
      Text.LessTotal(x, y);
    }
    assert Beats(cfg, key, x, DistanceOf(cfg, x, a, key), y);
  }

  lemma LapPoints(r: seq<VNode>, h: Hash)
    ensures forall p :: p in Clockwise(r, h) <==> p in r
  {
    FilterKeeps(r, AtOrAfter(h));
    FilterKeeps(r, Before(h));
  }

  /** The primary is the member nearest clockwise of the key. */
  lemma PrimaryIsNearest(cfg: Config, nodes: set<string>, key: string)
    requires cfg.vnodes >= 1 && nodes != {}
    ensures |OwnersOf(cfg, nodes, key, 1)| == 1
    ensures forall y :: y in nodes && y != OwnersOf(cfg, nodes, key, 1)[0] ==>
      Closer(cfg, key, OwnersOf(cfg, nodes, key, 1)[0], y)
  {
    OwnersAreExact(cfg, nodes, key, 1, 1);
    forall y | y in nodes && y != OwnersOf(cfg, nodes, key, 1)[0]
      ensures Closer(cfg, key, OwnersOf(cfg, nodes, key, 1)[0], y)
    {
      OwnersAreNearest(cfg, nodes, key, 1, 0, y);
    }
  }

  // ---------- join and leave ----------

  lemma RingWithout(cfg: Config, nodes: set<string>, id: string)
    requires id !in nodes
    ensures Filter(RingOf(cfg, nodes + {id}), NotFrom(id)) == RingOf(cfg, nodes)
  {
    var r := RingOf(cfg, nodes + {id});
    var f := Filter(r, NotFrom(id));
    FilterSorted(r, NotFrom(id));
    forall p: VNode
      ensures multiset(f)[p] == Multiplicity(cfg, nodes, p)
    {
      FilterCount(r, NotFrom(id), p);
      assert multiset(r)[p] == Multiplicity(cfg, nodes + {id}, p);
    }
    RingIsUnique(cfg, nodes, f, RingOf(cfg, nodes));
  }

  /** Minimal disruption: the walk after a join, with the new member deleted, is the old walk. */
  lemma JoinKeepsWalk(cfg: Config, nodes: set<string>, id: string, key: string)
    requires id !in nodes
    ensures Filter(FullWalk(cfg, nodes + {id}, key), IsNot(id)) == FullWalk(cfg, nodes, key)
  {
    var r, h := RingOf(cfg, nodes + {id}), cfg.hash(key);
    calc {
      Filter(FullWalk(cfg, nodes + {id}, key), IsNot(id));
    ==  { WalkWithout(Clockwise(r, h), {}, id); assert {} - {id} == {}; }
      Walk(Filter(Clockwise(r, h), NotFrom(id)), {});
    ==  { FilterConcat(Filter(r, AtOrAfter(h)), Filter(r, Before(h)), NotFrom(id));
          FiltersCommute(r, AtOrAfter(h), NotFrom(id));
          FiltersCommute(r, Before(h), NotFrom(id)); }
      Walk(Clockwise(Filter(r, NotFrom(id)), h), {});
    ==  { RingWithout(cfg, nodes, id); }
      FullWalk(cfg, nodes, key);
    }
  }

  /** A join inserts the new member at one place of the walk; everyone else keeps the order. */
  lemma JoinInsertsIntoWalk(cfg: Config, nodes: set<string>, id: string, key: string) returns (p: nat)
    requires id !in nodes && cfg.vnodes >= 1
    ensures var before, after := FullWalk(cfg, nodes, key), FullWalk(cfg, nodes + {id}, key);
      p <= |before| && id !in before && after == before[..p] + [id] + before[p..]
  {
    FullWalkMeetsMembers(cfg, nodes + {id}, key);
    var after := FullWalk(cfg, nodes + {id}, key);
    assert id in Elements(after);
    p :| 0 <= p < |after| && after[p] == id;
    JoinKeepsWalk(cfg, nodes, id, key);
    InsertedAt(after, FullWalk(cfg, nodes, key), p, id);
  }

  lemma InsertedAt(after: seq<string>, before: seq<string>, p: nat, id: string)
    requires p < |after| && after[p] == id && NoDup(after) && Filter(after, IsNot(id)) == before
    ensures p <= |before| && after == before[..p] + [id] + before[p..]
    ensures id !in before
  {
    var left, right := after[..p], after[p + 1..];
    assert after == left + [id] + right;
    FilterDropsOne(left, id, right, IsNot(id));
    assert before[..p] == left && before[p..] == right;
  }

  lemma InsertedPrefix(w: seq<string>, w': seq<string>, p: nat, id: string, n: int)
    requires p <= |w| && w' == w[..p] + [id] + w[p..] && id !in w
    ensures var before, after := Prefix(w, n), Prefix(w', n);
      && Filter(after, IsNot(id)) <= before
      && |Filter(after, IsNot(id))| >= |before| - 1
      && (p >= n ==> after == before)
      && (p < n ==> p <= |before| && after == (before[..p] + [id] + before[p..])[..Min(n, |before| + 1)])
  {
    hide Filter;
    var before, after := Prefix(w, n), Prefix(w', n);
    if p < n {
      var right := w[p..|after| - 1];
      assert after == w[..p] + [id] + right;
      FilterDropsOne(w[..p], id, right, IsNot(id));
      assert w[..p] + right == w[..|after| - 1];
      assert before == w[..|before|];
      assert before[..p] == w[..p] && before[p..] == w[p..|before|];
      assert w'[..|before| + 1] == w[..p] + [id] + w[p..|before|];
    } else {
      assert after == before;
      FilterAll(after, IsNot(id));
    }
  }

  /** What a join does to the owners of a key: with the new member deleted they are a prefix
      of the old ones, at most one of which drops out. */
  lemma JoinInsertsOneOwner(cfg: Config, nodes: set<string>, id: string, key: string, n: int)
    returns (p: nat)
    requires id !in nodes && cfg.vnodes >= 1
    ensures p <= |nodes|
    ensures var before, after := OwnersOf(cfg, nodes, key, n), OwnersOf(cfg, nodes + {id}, key, n);
      && Filter(after, IsNot(id)) <= before
      && |Filter(after, IsNot(id))| >= |before| - 1
      && (p >= n ==> after == before)
      && (p < n ==> p <= |before| && after == (before[..p] + [id] + before[p..])[..Min(n, |before| + 1)])
  {
    FullWalkMeetsMembers(cfg, nodes, key);
    FullWalkMeetsMembers(cfg, nodes + {id}, key);
    p := JoinInsertsIntoWalk(cfg, nodes, id, key);
    InsertedPrefix(FullWalk(cfg, nodes, key), FullWalk(cfg, nodes + {id}, key), p, id, n);
  }

  /** A join changes the primary of a key only by giving it to the new member. */
  lemma JoinMovesPrimaryOnlyToNewcomer(cfg: Config, nodes: set<string>, id: string, key: string)
    requires id !in nodes && nodes != {} && cfg.vnodes >= 1
    ensures var before, after := OwnersOf(cfg, nodes, key, 1), OwnersOf(cfg, nodes + {id}, key, 1);
      |before| == |after| == 1 && (after[0] == before[0] || after[0] == id)
  {
    var p := JoinInsertsOneOwner(cfg, nodes, id, key, 1);
    OwnersAreExact(cfg, nodes, key, 1, 1);
    OwnersAreExact(cfg, nodes + {id}, key, 1, 1);
  }

  /** A leave keeps every other owner, in order, and brings in at most one new one at the end. */
  lemma LeaveKeepsOtherOwners(cfg: Config, nodes: set<string>, id: string, key: string, n: int)
    requires id in nodes && cfg.vnodes >= 1 && n >= 1
    ensures var before, after := OwnersOf(cfg, nodes, key, n), OwnersOf(cfg, nodes - {id}, key, n);
      Filter(before, IsNot(id)) <= after && |after| <= |Filter(before, IsNot(id))| + 1
  {
    assert nodes - {id} + {id} == nodes;
    var p := JoinInsertsOneOwner(cfg, nodes - {id}, id, key, n);
  }

  // ---------- any change of membership ----------

  function In(sub: set<string>): string -> bool { (x: string) => x in sub }

  lemma {:induction false} FilterTwice(s: seq<string>, sub: set<string>, id: string)
    requires id !in sub
    ensures Filter(Filter(s, IsNot(id)), In(sub)) == Filter(s, In(sub))
  {
    if s != [] {
      FilterTwice(s[1..], sub, id);
      var f := Filter(s[1..], IsNot(id));
      assert ([s[0]] + f)[1..] == f && [] + f == f;
    }
  }

  /** The walk of some of the members is the walk of all of them without the others. */
  lemma {:induction false} WalkOfFewer(cfg: Config, nodes: set<string>, sub: set<string>, key: string)
    requires sub <= nodes && cfg.vnodes >= 1
    ensures Filter(FullWalk(cfg, nodes, key), In(sub)) == FullWalk(cfg, sub, key)
    decreases |nodes|
  {
    hide FullWalk;
    if nodes == sub {
      FullWalkMeetsMembers(cfg, nodes, key);
      var walk := FullWalk(cfg, nodes, key);
      forall x | x in walk ensures In(sub)(x) { assert x in Elements(walk); }
      FilterAll(walk, In(sub));
    } else {
      var id :| id in nodes && id !in sub;
      WalkOfFewer(cfg, nodes - {id}, sub, key);
      assert nodes - {id} + {id} == nodes;
      JoinKeepsWalk(cfg, nodes - {id}, id, key);
      FilterTwice(FullWalk(cfg, nodes, key), sub, id);
    }
  }

  /** Before the first element that is kept there are only elements that are not. */
  lemma FirstKept(walk: seq<string>, sub: set<string>) returns (p: nat)
    requires Filter(walk, In(sub)) != [] && NoDup(walk)
    ensures p < |walk| && walk[p] == Filter(walk, In(sub))[0] && walk[p] in sub
    ensures p <= |Elements(walk) - sub|
  {
    FilterKeeps(walk, In(sub));
    var x := Filter(walk, In(sub))[0];
    assert x in Filter(walk, In(sub));
    p := FirstIndex(walk, sub);
    var before := walk[..p];
    NoDupCardinality(before);
    forall y | y in Elements(before) ensures y in Elements(walk) - sub {
      var i :| 0 <= i < |before| && before[i] == y;
      assert walk[i] == y;
    }
    SubsetCardinality(Elements(before), Elements(walk) - sub);
  }

  lemma {:induction false} FirstIndex(walk: seq<string>, sub: set<string>) returns (p: nat)
    requires Filter(walk, In(sub)) != []
    ensures p < |walk| && walk[p] == Filter(walk, In(sub))[0] && walk[p] in sub
    ensures forall i :: 0 <= i < p ==> walk[i] !in sub
  {
    if walk[0] in sub {
      p := 0;
    } else {
      var q := FirstIndex(walk[1..], sub);
      p := q + 1;
    }
  }

  /** The nearest remaining member is an owner as long as fewer members than owners went. */
  lemma NearestIsOwner(cfg: Config, nodes: set<string>, sub: set<string>, key: string, n: int)
    requires sub != {} && sub <= nodes && cfg.vnodes >= 1 && |nodes - sub| < n
    ensures FullWalk(cfg, sub, key) != [] && FullWalk(cfg, sub, key)[0] in sub
    ensures FullWalk(cfg, sub, key)[0] in OwnersOf(cfg, nodes, key, n)
  {
    hide FullWalk;
    FullWalkMeetsMembers(cfg, nodes, key);
    FullWalkMeetsMembers(cfg, sub, key);
    WalkOfFewer(cfg, nodes, sub, key);
    var walk := FullWalk(cfg, nodes, key);
    var p := FirstKept(walk, sub);
    assert OwnersOf(cfg, nodes, key, n)[p] == walk[p];
  }

  /** Overlap: across any change of membership, from `before` with n owners to `after` with m,
      some remaining member is an owner both times, if fewer than n members left and fewer than
      m joined. */
  lemma OwnersOverlap(cfg: Config, before: set<string>, after: set<string>, key: string, n: int, m: int)
    returns (survivor: string)
    requires cfg.vnodes >= 1 && before * after != {}
    requires |before - after| < n && |after - before| < m
    ensures survivor in before * after
    ensures survivor in OwnersOf(cfg, before, key, n) && survivor in OwnersOf(cfg, after, key, m)
  {
    var both := before * after;
    assert before - both == before - after && after - both == after - before;
    NearestIsOwner(cfg, before, both, key, n);
    NearestIsOwner(cfg, after, both, key, m);
    survivor := FullWalk(cfg, both, key)[0];
  }

  // ---------- histories ----------

  datatype Change = Add(id: string) | Remove(id: string)

  function Changed(nodes: set<string>, change: Change): set<string> {
    match change
    case Add(id) => if id == "" then nodes else nodes + {id}
    case Remove(id) => nodes - {id}
  }

  /** The members after a history of Add and Remove calls on an empty ring. */
  function Members(history: seq<Change>): set<string> {
    if history == [] then {}
    else Changed(Members(Init(history)), Last(history))
  }

  lemma {:induction false} NoEmptyMember(history: seq<Change>)
    ensures "" !in Members(history)
  {
    if history == [] {
    } else {
      NoEmptyMember(Init(history));
    }
  }

  /** The last call on the id added it. */
  ghost predicate AddedLast(history: seq<Change>, id: string, i: int) {
    0 <= i < |history| && history[i] == Add(id) && forall j :: i < j < |history| ==> history[j] != Remove(id)
  }

  /** A member is an id, not empty, that has been added and not removed since. */
  lemma {:induction false} MembersAre(history: seq<Change>, id: string)
    ensures id in Members(history) <==> id != "" && exists i :: AddedLast(history, id, i)
  {
    if history != [] {
      var init, last := Init(history), Last(history);
      MembersAre(init, id);
      assert forall i :: 0 <= i < |init| ==> history[i] == init[i];
      assert history[|init|] == last;
      if last == Add(id) { assert AddedLast(history, id, |init|); }
      if i :| AddedLast(init, id, i) {
        if last != Remove(id) { assert AddedLast(history, id, i); }
      }
      if i :| AddedLast(history, id, i) {
        if i < |init| { assert AddedLast(init, id, i); }
      }
    }
  }

  lemma MembersSnoc(history: seq<Change>, change: Change)
    ensures Members(history + [change]) == Changed(Members(history), change)
  {
    assert Init(history + [change]) == history;
  }

  /** What a lookup reads off a ring slice. */
  function OwnersOn(r: seq<VNode>, h: Hash, n: int): seq<string> {
    Prefix(Walk(Clockwise(r, h), {}), n)
  }

  /** Histories that leave the same members leave the same ring slice, so that every lookup on
      either slice gives the same owners: those of the members. */
  lemma HistoryIndependence(cfg: Config, h1: seq<Change>, h2: seq<Change>, r1: seq<VNode>, r2: seq<VNode>,
                            key: string, n: int)
    requires Members(h1) == Members(h2)
    requires IsRing(cfg, Members(h1), r1) && IsRing(cfg, Members(h2), r2)
    ensures r1 == r2
    ensures OwnersOn(r1, cfg.hash(key), n) == OwnersOn(r2, cfg.hash(key), n) == OwnersOf(cfg, Members(h1), key, n)
  {
    RingIsUnique(cfg, Members(h1), r1, r2);
    RingIsUnique(cfg, Members(h1), r1, RingOf(cfg, Members(h1)));
  }

  /** Adding a fresh member and removing it again restores the slice and every owner list. */
  lemma AddThenRemoveRestores(cfg: Config, h: seq<Change>, id: string, before: seq<VNode>, after: seq<VNode>)
    requires id !in Members(h)
    requires IsRing(cfg, Members(h), before)
    requires IsRing(cfg, Members(h + [Add(id)] + [Remove(id)]), after)
    ensures Members(h + [Add(id)] + [Remove(id)]) == Members(h)
    ensures after == before
  {
    MembersSnoc(h, Add(id));
    MembersSnoc(h + [Add(id)], Remove(id));
    hide Members, IsRing;
    assert Members(h + [Add(id)] + [Remove(id)]) == Members(h);
    RingIsUnique(cfg, Members(h), before, after);
  }
}
