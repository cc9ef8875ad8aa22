/** The Node object: a ring, a cache, a bucket store, the peer table and the breaker. What the
    network answers is a parameter. */
module Node {
  import opened Seqs
  import opened NodeModel
  import B = BucketModel
  import L = LruModel
  import M = LimiterModel
  import R = RingModel
  import RateLimiter
  import Ring
  import Store
  import Text

  /** Two seconds, in nanoseconds. */
  const DEFAULT_BREAK := 2_000_000_000
  const DEFAULT_VNODES := 150
  const DEFAULT_CAPACITY := 1024
  const DEFAULT_BUCKETS := 10000

  datatype Config = Config(id: string, replicas: int, capacity: int, vnodes: int, breakFor: int,
                           rateLimitCapacity: int, rateLimitIdleTTL: real, peers: map<string, string>)

  datatype Status = OK | BadRequest | Unavailable

  class Node {
    const id: string
    const replicas: int
    const breakFor: int
    const ring: Ring.Ring
    const store: Store.Store
    const limiter: RateLimiter.RateLimiter
    var peers: map<string, string>
    var downUntil: Breaker

    ghost predicate Valid()
      reads this, ring, store, store.ll, store.shape.order
      reads limiter, limiter.order, limiter.order.backing, limiter.entries, limiter.buckets
    {
      ring.Valid() && store.Valid() && limiter.Valid() && id !in downUntil
    }

    ghost function OwnersFor(key: string): seq<string>
      reads this, ring
    {
      R.OwnersOf(ring.cfg, ring.nodes, key, replicas)
    }

    constructor (cfg: Config, hash: R.HashFunction)
      ensures Valid() && fresh(ring) && ring.nodes == {} && peers == cfg.peers && downUntil == map[]
      ensures fresh(store) && fresh(store.ll) && store.shape == Store.EMPTY
      ensures fresh(limiter) && fresh(limiter.order) && fresh(limiter.order.backing)
      ensures limiter.entries == {} && limiter.buckets == {}
      ensures id == cfg.id && replicas == Min(Max(cfg.replicas, 1), |cfg.peers|)
      ensures breakFor == if cfg.breakFor <= 0 then DEFAULT_BREAK else cfg.breakFor
      ensures ring.cfg == R.Config(hash, if cfg.vnodes < 1 then DEFAULT_VNODES else cfg.vnodes)
      ensures store.View() == L.Cache(if cfg.capacity < 1 then DEFAULT_CAPACITY else cfg.capacity, [], L.NO_STATS)
      ensures limiter.view == M.Empty(if cfg.rateLimitCapacity < 1 then DEFAULT_BUCKETS else cfg.rateLimitCapacity,
                                      if cfg.rateLimitIdleTTL <= 0.0 then 60.0 else cfg.rateLimitIdleTTL)
    {
      id, replicas := cfg.id, Min(Max(cfg.replicas, 1), |cfg.peers|);
      breakFor := if cfg.breakFor <= 0 then DEFAULT_BREAK else cfg.breakFor;
      peers, downUntil := cfg.peers, map[];
      ring := new Ring.Ring(hash, if cfg.vnodes < 1 then DEFAULT_VNODES else cfg.vnodes);
      store := new Store.Store(if cfg.capacity < 1 then DEFAULT_CAPACITY else cfg.capacity);
      limiter := new RateLimiter.RateLimiter(
        if cfg.rateLimitCapacity < 1 then DEFAULT_BUCKETS else cfg.rateLimitCapacity, cfg.rateLimitIdleTTL);
    }

    /** Start a node from its configuration, whose peers must include it. The ring does not
        depend on the order in which they are added. */
    static method New(cfg: Config, hash: R.HashFunction) returns (n: Node?)
      ensures n == null <==> cfg.id == "" || cfg.id !in cfg.peers
      ensures n != null ==>
        && fresh(n) && fresh(n.ring) && fresh(n.store) && fresh(n.limiter) && n.Valid()
        && n.id == cfg.id && n.peers == cfg.peers && n.downUntil == map[]
        && n.replicas == Min(Max(cfg.replicas, 1), |cfg.peers|)
        && n.breakFor == (if cfg.breakFor <= 0 then DEFAULT_BREAK else cfg.breakFor)
        && n.ring.cfg == R.Config(hash, if cfg.vnodes < 1 then DEFAULT_VNODES else cfg.vnodes)
        && n.ring.nodes == cfg.peers.Keys - {""}
        && n.store.View() == L.Cache(if cfg.capacity < 1 then DEFAULT_CAPACITY else cfg.capacity, [], L.NO_STATS)
        && n.limiter.view == M.Empty(if cfg.rateLimitCapacity < 1 then DEFAULT_BUCKETS else cfg.rateLimitCapacity,
                                     if cfg.rateLimitIdleTTL <= 0.0 then 60.0 else cfg.rateLimitIdleTTL)
    {
      hide Store.Store.Consistent, RateLimiter.RateLimiter.Represents, R.IsRing, R.Members, M.Listing;
      if cfg.id == "" || cfg.id !in cfg.peers {
        return null;
      }
      n := new Node(cfg, hash);
      var todo := cfg.peers.Keys;
      while todo != {}
        modifies n.ring
        invariant n.Valid() && todo <= cfg.peers.Keys
        invariant n.ring.nodes == cfg.peers.Keys - todo - {""}
      {
        var member :| member in todo;
        n.ring.Add(member);
        todo := todo - {member};
      }
    }

    /** Learn of a member. The false result is the error for a missing id or address, or for an
        address that does not parse. */
    method Join(member: string, url: string, parses: bool) returns (ok: bool)
      requires Valid()
      modifies this`peers, ring
      ensures Valid()
      ensures ok <==> member != "" && url != "" && parses
      ensures ring.nodes == (if ok then old(ring.nodes) + {member} else old(ring.nodes))
      ensures peers == (if ok then old(peers)[member := url] else old(peers))
    {
      hide Store.Store.Consistent, RateLimiter.RateLimiter.Represents, R.IsRing, R.Members, M.Listing;
      if member == "" || url == "" || !parses {
        return false;
      }
      peers := peers[member := url];
      ring.Add(member);
      ok := true;
    }

    /** Forget a member, and its breaker mark. A node cannot leave itself. */
    method Leave(member: string) returns (ok: bool)
      requires Valid()
      modifies this`peers, this`downUntil, ring
      ensures Valid()
      ensures ok <==> member != "" && member != id
      ensures ring.nodes == (if ok then old(ring.nodes) - {member} else old(ring.nodes))
      ensures downUntil == (if ok then old(downUntil) - {member} else old(downUntil))
      ensures peers == (if ok then old(peers) - {member} else old(peers))
    {
      hide Store.Store.Consistent, RateLimiter.RateLimiter.Represents, R.IsRing, R.Members, M.Listing;
      if member == "" || member == id {
        return false;
      }
      peers := peers - {member};
      downUntil := downUntil - {member};
      ring.Remove(member);
      ok := true;
    }

    method MarkDown(peer: string, now: int)
      modifies this`downUntil
      ensures downUntil == NodeModel.MarkDown(old(downUntil), id, peer, now + breakFor)
    {
      if peer == id {
        return;
      }
      downUntil := downUntil[peer := now + breakFor];
    }

    method IsDown(peer: string, now: int) returns (isDown: bool)
      modifies this`downUntil
      ensures isDown == NodeModel.IsDown(old(downUntil), peer, now)
      ensures downUntil == Checked(old(downUntil), peer, now)
    {
      if peer !in downUntil {
        return false;
      }
      if now < downUntil[peer] {
        return true;
      }
      downUntil := downUntil - {peer};
      isDown := false;
    }

    /** Read one owner: the own cache, or a peer, which is not asked while it is marked. */
    method ReadOwner(owner: string, key: string, wire: Wire, now: int) returns (r: Reply)
      requires Valid()
      modifies this`downUntil, store, store.ll, store.shape.order
      ensures Valid()
      ensures var reply := if owner == id then LocalReply(old(store.View()), key, now) else Decode(key, wire, now);
        r == Effective(old(downUntil), id, owner, reply, now)
      ensures downUntil == if owner == id then old(downUntil) else Checked(old(downUntil), owner, now)
      ensures store.View() == if owner == id then L.Get(old(store.View()), key, now).0 else old(store.View())
      ensures forall e :: e in store.shape.order ==> e in old(store.shape.order)
    {
      hide L.Get, Store.Store.Consistent, RateLimiter.RateLimiter.Represents, R.IsRing, R.Members, M.Listing;
      if owner == id {
        var found := store.Get(key, now);
        return if found.Some? then Found(found.value) else Missing;
      }
      var down := IsDown(owner, now);
      r := if down then Unreachable else Decode(key, wire, now);
    }

    /** Read one owner, and mark it if that failed. */
    method VisitOwner(owner: string, key: string, wire: Wire, now: int) returns (r: Reply)
      requires Valid()
      modifies this`downUntil, store, store.ll, store.shape.order
      ensures Valid()
      ensures var reply := if owner == id then LocalReply(old(store.View()), key, now) else Decode(key, wire, now);
        && r == Effective(old(downUntil), id, owner, reply, now)
        && downUntil == Visit(old(downUntil), id, owner, reply, now, breakFor)
      ensures store.View() == if owner == id then L.Get(old(store.View()), key, now).0 else old(store.View())
      ensures forall e :: e in store.shape.order ==> e in old(store.shape.order)
    {
      hide L.Get, LocalReply, Decode;
      hide Store.Store.Consistent, RateLimiter.RateLimiter.Represents, R.IsRing, R.Members, M.Listing;
      r := ReadOwner(owner, key, wire, now);
      if r.Unreachable? {
        MarkDown(owner, now);
      }
    }

    /** A read: walk the owners, preferring the local copy, and repair the others on a hit. */
    method HandleGet(key: string, wires: string -> Wire, now: int) returns (o: GetOutcome, repairs: seq<Write>)
      requires Valid()
      modifies this`downUntil, store, store.ll, store.shape.order
      ensures Valid()
      ensures var seen := Replies(old(store.View()), id, key, wires, now);
        var order := PreferLocal(OwnersFor(key), id);
        && downUntil == VisitAll(old(downUntil), id, order, seen, now, breakFor)
        && o == Outcome(order, EffectiveReplies(old(downUntil), id, seen, now))
      ensures store.View() == if id in OwnersFor(key) then L.Get(old(store.View()), key, now).0 else old(store.View())
      ensures repairs == if o.Hit? then RepairWrites(OwnersFor(key), o.servedBy, key, o.found, now) else []
    {
      hide L.Get, Outcome, VisitAll, Replies, EffectiveReplies, RepairWrites, PreferLocal, NoDup, R.OwnersOf;
      hide Store.Store.Consistent, RateLimiter.RateLimiter.Represents, R.IsRing, R.Members, M.Listing;
      var owners := ring.Owners(key, replicas);
      R.OwnersAreExact(ring.cfg, ring.nodes, key, replicas, replicas);
      SelfOnlyFirst(owners, id);
      var order := PreferLocalLoop(owners, id);
      o := WalkOwners(order, key, wires, now);
      repairs := [];
      if o.Hit? {
        repairs := ReadRepair(owners, o.servedBy, key, o.found, now);
      }
    }

    method WalkOwners(order: seq<string>, key: string, wires: string -> Wire, now: int) returns (o: GetOutcome)
      requires Valid() && NoDup(order) && forall i :: 0 < i < |order| ==> order[i] != id
      modifies this`downUntil, store, store.ll, store.shape.order
      ensures Valid()
      ensures var seen := Replies(old(store.View()), id, key, wires, now);
        && downUntil == VisitAll(old(downUntil), id, order, seen, now, breakFor)
        && o == Outcome(order, EffectiveReplies(old(downUntil), id, seen, now))
      ensures store.View() ==
        if order != [] && order[0] == id then L.Get(old(store.View()), key, now).0 else old(store.View())
    {
      hide L.Get, Store.Store.Consistent, RateLimiter.RateLimiter.Represents, R.IsRing, R.Members, M.Listing;
      hide Visit, Effective;
      ghost var before, cache, elements := downUntil, store.View(), store.shape.order;
      ghost var replies := Replies(cache, id, key, wires, now);
      ghost var seen := EffectiveReplies(before, id, replies, now);
      var reached := false;
      assert order[0..] == order;
      for i := 0 to |order|
        modifies this`downUntil, store, store.ll, elements
        invariant Valid()
        invariant forall k :: 0 <= k < |store.shape.order| ==> store.shape.order[k] in elements
        invariant store.View() == if i > 0 && order[0] == id then L.Get(cache, key, now).0 else cache
        invariant VisitAll(downUntil, id, order[i..], replies, now, breakFor)
               == VisitAll(before, id, order, replies, now, breakFor)
        invariant StillSeen(downUntil, id, order[i..], replies, seen, now)
        invariant Outcome(order, seen) ==
          if reached then Reached(Outcome(order[i..], seen)) else Outcome(order[i..], seen)
      {
        ghost var rest := order[i..];
        assert rest[0] == order[i] && rest[1..] == order[i + 1..];
        StillSeenAfter(downUntil, id, rest, replies, seen, now, breakFor);
        ghost var present := store.shape.order;
        var r := VisitOwner(order[i], key, wires(order[i]), now);
        forall k | 0 <= k < |store.shape.order|
          ensures store.shape.order[k] in elements
        {
          assert store.shape.order[k] in present;
        }
        if r.Found? {
          return Hit(order[i], r.item);
        }
        reached := reached || r.Missing?;
      }
      assert order[|order|..] == [];
      o := if reached then NotFound else AllUnreachable;
    }

    /** Count the answers of a fan-out as they arrive, marking the owners that failed, and list
        these in order. */
    method Fanout(answers: seq<Answer>) returns (acked: nat, failed: seq<string>)
      requires Valid()
      modifies this`downUntil
      ensures Valid()
      ensures acked == Acked(answers) && NamesFailed(failed, answers)
      ensures acked + |failed| == |answers| && Elements(failed) == Elements(Failed(answers))
      ensures downUntil == MarkFailed(old(downUntil), id, answers, breakFor)
    {
      hide Store.Store.Consistent, RateLimiter.RateLimiter.Represents, R.IsRing, R.Members, M.Listing;
      acked, failed := 0, [];
      for i := 0 to |answers|
        invariant Valid()
        invariant acked == Acked(answers[..i]) && failed == Failed(answers[..i])
        invariant downUntil == MarkFailed(old(downUntil), id, answers[..i], breakFor)
      {
        assert answers[..i + 1][..i] == answers[..i];
        if answers[i].failed {
          MarkDown(answers[i].owner, answers[i].at);
          failed := failed + [answers[i].owner];
          continue;
        }
        acked := acked + 1;
      }
      assert answers[..|answers|] == answers;
      failed := SortIds(failed);
      NamesAre(failed, answers);
      EveryOwnerIsCounted(answers);
    }

    /** A write: fan out to the owners, the own cache included, wait for every answer, and
        succeed when somebody acked. Writing to the own cache does not fail. */
    method HandleSet(key: string, value: string, ttlMs: int, writtenAt: int, answers: seq<Answer>, now: int)
      returns (status: Status, owners: seq<string>, acked: nat, failed: seq<string>)
      requires Valid() && OneAnswerEach(answers, OwnersFor(key))
      requires forall i :: 0 <= i < |answers| && answers[i].owner == id ==> !answers[i].failed
      modifies this`downUntil, store, store.ll, store.shape.order
      ensures Valid()
      ensures status == BadRequest <==> ttlMs < 0
      ensures status == BadRequest ==> downUntil == old(downUntil) && store.View() == old(store.View())
      ensures status != BadRequest ==>
        && owners == OwnersFor(key)
        && (status == OK <==> exists i :: 0 <= i < |answers| && !answers[i].failed)
        && acked + |failed| == |owners| && Elements(failed) <= Elements(owners) && NamesFailed(failed, answers)
        && (failed == [] <==> forall i :: 0 <= i < |answers| ==> !answers[i].failed)
        && downUntil == MarkFailed(old(downUntil), id, answers, breakFor)
        && store.View() == (
          if id in owners
          then L.Set(old(store.View()), key, value, ttlMs * MILLISECOND,
                     if writtenAt == 0 then now else writtenAt, now).0
          else old(store.View()))
    {
      hide L.Set, Store.Store.Consistent, RateLimiter.RateLimiter.Represents, R.IsRing, R.Members, M.Listing;
      if ttlMs < 0 {
        return BadRequest, [], 0, [];
      }
      var stamp := if writtenAt == 0 then now else writtenAt;
      owners := ring.Owners(key, replicas);
      if id in owners {
        var applied := store.Set(key, value, ttlMs * MILLISECOND, stamp, now);
      }
      acked, failed := Fanout(answers);
      EveryOwnerIsCounted(answers);
      AnswersComeFromOwners(answers, owners);
      status := if acked == 0 then Unavailable else OK;
    }

    /** A delete: the same, except that an empty ring has nothing to delete from. */
    method HandleDelete(key: string, answers: seq<Answer>)
      returns (status: Status, owners: seq<string>, acked: nat, failed: seq<string>)
      requires Valid() && OneAnswerEach(answers, OwnersFor(key))
      requires forall i :: 0 <= i < |answers| && answers[i].owner == id ==> !answers[i].failed
      modifies this`downUntil, store, store.ll, store.shape.order
      ensures Valid() && owners == OwnersFor(key)
      ensures status == OK <==> owners == [] || exists i :: 0 <= i < |answers| && !answers[i].failed
      ensures status == OK || status == Unavailable
      ensures acked + |failed| == |owners| && Elements(failed) <= Elements(owners) && NamesFailed(failed, answers)
      ensures downUntil == MarkFailed(old(downUntil), id, answers, breakFor)
      ensures store.View() == if id in owners then L.Delete(old(store.View()), key).0 else old(store.View())
    {
      hide L.Delete, Store.Store.Consistent, RateLimiter.RateLimiter.Represents, R.IsRing, R.Members, M.Listing;
      owners := ring.Owners(key, replicas);
      if id in owners {
        var present := store.Delete(key);
      }
      acked, failed := Fanout(answers);
      EveryOwnerIsCounted(answers);
      AnswersComeFromOwners(answers, owners);
      status := if acked == 0 && |owners| > 0 then Unavailable else OK;
    }

    /** A peer's read of the own cache. */
    method InternalGet(key: string, now: int) returns (w: Wire)
      requires Valid()
      modifies store, store.ll, store.shape.order
      ensures Valid()
      ensures w == Serve(old(store.View()), key, now) && store.View() == L.Get(old(store.View()), key, now).0
    {
      hide L.Get, Store.Store.Consistent, RateLimiter.RateLimiter.Represents, R.IsRing, R.Members, M.Listing;
      var found := store.Get(key, now);
      if found.None? {
        return WireMissing;
      }
      w := WireFound(found.value.value, EncodeTTL(found.value.expiresAt, now), found.value.writtenAt);
    }

    /** A peer's write: acked whether it is applied or ignored as stale. */
    method InternalPut(key: string, value: string, ttlMs: int, writtenAt: int, now: int) returns (applied: bool)
      requires Valid()
      modifies store, store.ll, store.shape.order
      ensures Valid()
      ensures (store.View(), applied) == L.Set(old(store.View()), key, value, ttlMs * MILLISECOND, writtenAt, now)
    {
      hide L.Set, Store.Store.Consistent, RateLimiter.RateLimiter.Represents, R.IsRing, R.Members, M.Listing;
      applied := store.Set(key, value, ttlMs * MILLISECOND, writtenAt, now);
    }

    /** A rate-limit take: refused if it makes no sense, applied here if this node is the key's
        primary, else forwarded to the primary and to nobody else. */
    method HandleTake(key: string, rate: real, burst: real, cost: real, forwarded: Option<B.Result>, now: int)
      returns (status: Status, primary: string, result: Option<B.Result>)
      requires Valid()
      modifies this`downUntil, limiter, limiter.order, limiter.order.backing, limiter.entries, limiter.buckets
      ensures Valid()
      ensures var req, owners := ParseTake(rate, burst, cost, Seconds(now)), R.OwnersOf(ring.cfg, ring.nodes, key, 1);
        && (status == BadRequest <==> req.None?)
        && (status != BadRequest ==> owners == if primary == "" then [] else [primary])
        && (status == OK <==> req.Some? && owners != [] && (owners[0] == id || forwarded.Some?))
        && (status == OK <==> result.Some?)
        && (if req.Some? && owners == [id] && result.Some?
            then (limiter.view, result.value) == M.Take(old(limiter.view), key, req.value)
            else limiter.view == old(limiter.view) && (result.Some? ==> result == forwarded))
        && downUntil == (if req.Some? && owners != [] && owners[0] != id && forwarded.None?
                         then NodeModel.MarkDown(old(downUntil), id, owners[0], now + breakFor) else old(downUntil))
    {
      hide R.OwnersOf, M.Take;
      hide Store.Store.Consistent, RateLimiter.RateLimiter.Represents, R.IsRing, R.Members, M.Listing;
      if rate < 0.0 || burst < 0.0 || cost < 0.0 {
        return BadRequest, "", None;
      }
      primary := ring.Primary(key);
      if primary == "" {
        return Unavailable, primary, None;
      }
      if primary == id {
        var r := limiter.Take(key, rate, burst, if cost == 0.0 then 1.0 else cost, Seconds(now));
        return OK, primary, Some(r);
      }
      if forwarded.None? {
        MarkDown(primary, now);
        return Unavailable, primary, None;
      }
      return OK, primary, forwarded;
    }
  }

  /** sort.Strings: sorted, the same strings. Nothing else is promised. */
  method SortIds(ids: seq<string>) returns (sorted: seq<string>)
    ensures SortedIds(sorted) && multiset(sorted) == multiset(ids)
  {
    sorted := [];
    for i := 0 to |ids|
      invariant SortedIds(sorted) && multiset(sorted) == multiset(ids[..i])
    {
      assert ids[..i + 1] == ids[..i] + [ids[i]];
      sorted := InsertId(sorted, ids[i]);
    }
    assert ids[..|ids|] == ids;
  }

  method InsertId(ids: seq<string>, id: string) returns (more: seq<string>)
    requires SortedIds(ids)
    ensures SortedIds(more) && multiset(more) == multiset(ids) + multiset{id}
  {
    var j := |ids|;
    while j > 0 && Text.Less(id, ids[j - 1])
      invariant 0 <= j <= |ids|
      invariant forall k :: j <= k < |ids| ==> Text.Less(id, ids[k])
    {
      j := j - 1;
    }
    forall k | 0 <= k < j
      ensures !Text.Less(id, ids[k])
    {
      if k < j - 1 { NotAfter(id, ids[j - 1], ids[k]); }
    }
    forall k | j <= k < |ids|
      ensures !Text.Less(ids[k], id)
    {
      Text.LessTotal(id, ids[k]);
    }
    more := ids[..j] + [id] + ids[j..];
    assert ids == ids[..j] + ids[j..];
  }

  lemma NotAfter(a: string, b: string, c: string)
    requires !Text.Less(a, b) && !Text.Less(b, c)
    ensures !Text.Less(a, c)
  {
    Text.LessTotal(a, b);
    Text.LessTotal(b, c);
    if Text.Less(a, c) && c != b {
      Text.LessTransitive(a, c, b);
    }
  }

  /** The repair loop. */
  method ReadRepair(owners: seq<string>, servedBy: string, key: string, item: L.Item, now: int)
    returns (writes: seq<Write>)
    ensures writes == RepairWrites(owners, servedBy, key, item, now)
  {
    var ms := 0;
    if item.expiresAt.Some? {
      ms := Milliseconds(item.expiresAt.value - now);
      if ms <= 0 {
        return [];
      }
    }
    writes := [];
    assert Filter(owners[..0], R.IsNot(servedBy)) == [];
    hide Filter;
    for i := 0 to |owners|
      invariant writes == Each(Filter(owners[..i], R.IsNot(servedBy)), WriteTo(key, item, ms))
    {
      assert owners[..i + 1] == owners[..i] + [owners[i]];
      FilterSnoc(owners[..i], owners[i], R.IsNot(servedBy));
      if owners[i] == servedBy {
        continue;
      }
      writes := writes + [Write(owners[i], key, item.value, ms * MILLISECOND, item.writtenAt)];
    }
    assert owners[..|owners|] == owners;
  }

  /** The owners still to be visited look as they did when the read began. */
  ghost predicate StillSeen(down: Breaker, self: string, rest: seq<string>, replies: string -> Reply,
                            seen: string -> Reply, now: int)
  {
    forall j :: 0 <= j < |rest| ==> Effective(down, self, rest[j], replies(rest[j]), now) == seen(rest[j])
  }

  lemma StillSeenAfter(down: Breaker, self: string, rest: seq<string>, replies: string -> Reply,
                       seen: string -> Reply, now: int, breakFor: int)
    requires rest != [] && NoDup(rest) && StillSeen(down, self, rest, replies, seen, now)
    ensures Effective(down, self, rest[0], replies(rest[0]), now) == seen(rest[0])
    ensures StillSeen(Visit(down, self, rest[0], replies(rest[0]), now, breakFor), self, rest[1..], replies, seen, now)
  {
    forall j | 0 < j < |rest|
      ensures var after := Visit(down, self, rest[0], replies(rest[0]), now, breakFor);
        Effective(after, self, rest[j], replies(rest[j]), now) == seen(rest[j])
    {
      VisitTouchesOne(down, self, rest[0], replies(rest[0]), now, breakFor, rest[j]);
    }
  }

  function Reached(o: GetOutcome): GetOutcome {
    if o.AllUnreachable? then NotFound else o
  }

  /** The two loops that put self first. */
  method PreferLocalLoop(owners: seq<string>, self: string) returns (out: seq<string>)
    ensures out == PreferLocal(owners, self)
  {
    assert Filter(owners[..0], Is(self)) == Filter(owners[..0], R.IsNot(self)) == [];
    hide Filter;
    out := [];
    for i := 0 to |owners|
      invariant out == Filter(owners[..i], Is(self))
    {
      assert owners[..i + 1] == owners[..i] + [owners[i]];
      FilterSnoc(owners[..i], owners[i], Is(self));
      if owners[i] == self {
        out := out + [owners[i]];
      }
    }
    assert owners[..|owners|] == owners;
    ghost var local := out;
    for i := 0 to |owners|
      invariant out == local + Filter(owners[..i], R.IsNot(self))
    {
      assert owners[..i + 1] == owners[..i] + [owners[i]];
      FilterSnoc(owners[..i], owners[i], R.IsNot(self));
      if owners[i] != self {
        out := out + [owners[i]];
      }
    }
  }
}
