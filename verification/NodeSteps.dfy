/** The Node object and the step machine agree: what a node does for a request is what some steps
    of the cluster do. */
module NodeSteps {
  import opened Seqs
  import opened NodeModel
  import C = Cluster
  import L = LruModel
  import R = RingModel

  /** The state when an owner's reply to a read has been dealt with. */
  function AfterVisit(s: C.State, request: nat, reply: Reply, now: int): C.State
    requires C.Visiting(s, request)
    requires !reply.Unreachable? ==> C.NextOwner(s.gets[request]) in s.nodes
    requires reply.Found? ==>
      L.Get(s.nodes[C.NextOwner(s.gets[request])].cache, s.gets[request].key, now).1.Some?
  {
    var g := s.gets[request];
    var owner := C.NextOwner(g);
    match reply
    case Unreachable => s.(gets := s.gets[request := g.(next := g.next + 1)])
    case Missing =>
      C.WithCache(s, owner, L.Get(s.nodes[owner].cache, g.key, now).0)
        .(gets := s.gets[request := g.(next := g.next + 1, reached := true)])
    case Found(_) =>
      var (cache, found) := L.Get(s.nodes[owner].cache, g.key, now);
      C.WithCache(s, owner, cache)
        .(gets := s.gets[request := g.(hit := Some((owner, found.value)))],
          puts := s.puts + C.Repairs(g, owner, found.value, now, now, now))
  }

  /** The reply is one that the owner can give at this time, or none; the own cache always gives
      one. */
  predicate Fits(s: C.State, g: C.GetRequest, owner: string, reply: Reply, now: int) {
    match reply
    case Unreachable => owner != g.coordinator
    case Missing => owner in s.nodes && L.Get(s.nodes[owner].cache, g.key, now).1.None?
    case Found(item) =>
      && owner in s.nodes && L.Get(s.nodes[owner].cache, g.key, now).1.Some?
      && item == C.AsReceived(g, owner, L.Get(s.nodes[owner].cache, g.key, now).1.value, now, now)
  }

  lemma {:induction false} RunConcat(c: C.Setup, s: C.State, a: seq<C.Step>, b: seq<C.Step>)
    ensures C.Run(c, s, a + b) == C.Run(c, C.Run(c, s, a), b)
  {
    if b == [] {
      assert a + b == a;
      C.RunSnoc(c, C.Run(c, s, a), [], C.Abandon(0));
    } else {
      assert a + b == (a + Init(b)) + [Last(b)] && b == Init(b) + [Last(b)];
      RunConcat(c, s, a, Init(b));
      C.RunSnoc(c, s, a + Init(b), Last(b));
      C.RunSnoc(c, C.Run(c, s, a), Init(b), Last(b));
    }
  }

  /** One visit is one or two steps. */
  lemma VisitIsSteps(c: C.Setup, s: C.State, request: nat, reply: Reply, now: int) returns (steps: seq<C.Step>)
    requires C.Visiting(s, request) && s.gets[request].waiting.None?
    requires Fits(s, s.gets[request], C.NextOwner(s.gets[request]), reply, now)
    ensures C.Run(c, s, steps) == AfterVisit(s, request, reply, now)
  {
    hide L.Get, C.Repairs, C.Run;
    if reply.Unreachable? {
      steps := [] + [C.ReadFails(request, None)];
      C.RunSnoc(c, s, [], C.ReadFails(request, None));
    } else {
      var read := C.Read(request, now);
      steps := [] + [read];
      C.RunSnoc(c, s, [], read);
      if reply.Found? {
        var receive := C.Receive(request, now, now);
        C.RunSnoc(c, s, steps, receive);
        steps := steps + [receive];
        Received(c, s, request, reply, now);
      }
    }
  }

  lemma Received(c: C.Setup, s: C.State, request: nat, reply: Reply, now: int)
    requires C.Visiting(s, request) && s.gets[request].waiting.None? && reply.Found?
    requires Fits(s, s.gets[request], C.NextOwner(s.gets[request]), reply, now)
    ensures C.Apply(c, C.Apply(c, s, C.Read(request, now)), C.Receive(request, now, now))
         == AfterVisit(s, request, reply, now)
  {
    hide L.Get, RepairWrites;
    var g := s.gets[request];
    var read := C.Apply(c, s, C.Read(request, now));
    var end := C.Apply(c, read, C.Receive(request, now, now));
    assert C.Receiving(read, request, now, now);
    assert end.gets == AfterVisit(s, request, reply, now).gets;
    assert end.puts == AfterVisit(s, request, reply, now).puts;
  }

  /** The read in the state has come to what the outcome says. */
  predicate Agrees(s: C.State, end: C.State, request: nat, o: GetOutcome, now: int)
    requires request in s.gets && request in end.gets
  {
    var before, g := s.gets[request], end.gets[request];
    && g.owners == before.owners && g.key == before.key
    && match o
       case Hit(servedBy, found) =>
         && g.hit.Some? && g.hit.value.0 == servedBy
         && found == C.AsReceived(g, servedBy, g.hit.value.1, now, now)
         && end.puts == s.puts + PutsOf(RepairWrites(g.owners, servedBy, g.key, found, now))
       case NotFound => g.hit.None? && g.next == |g.order| && g.reached && end.puts == s.puts
       case AllUnreachable =>
         g.hit.None? && g.next == |g.order| && g.reached == before.reached && end.puts == s.puts
  }

  function PutsOf(ws: seq<Write>): set<C.Put> {
    set w | w in ws :: C.Put(w.to, w.key, w.value, w.ttl, w.writtenAt, None)
  }

  /** The node after its own visits among the given owners. */
  function OwnAfter(n: C.NodeState, self: string, owners: seq<string>, key: string, now: int): C.NodeState {
    if self in owners then n.(cache := L.Get(n.cache, key, now).0) else n
  }

  ghost predicate Ready(s: C.State, request: nat, replies: string -> Reply, now: int) {
    && request in s.gets
    && var g := s.gets[request];
    && g.open && g.hit.None? && g.waiting.None? && g.next <= |g.order| && NoDup(g.order)
    && g.coordinator in s.nodes
    && (forall i :: 0 < i < |g.order| ==> g.order[i] != g.coordinator)
    && (forall i :: g.next <= i < |g.order| ==> Fits(s, g, g.order[i], replies(g.order[i]), now))
  }

  /** A visit leaves the later owners as they were. */
  lemma StaysReady(s: C.State, request: nat, replies: string -> Reply, now: int)
    requires Ready(s, request, replies, now) && s.gets[request].next < |s.gets[request].order|
    requires !replies(C.NextOwner(s.gets[request])).Found?
    ensures Ready(AfterVisit(s, request, replies(C.NextOwner(s.gets[request])), now), request, replies, now)
  {
    hide L.Get, C.Repairs;
    var g := s.gets[request];
    var s' := AfterVisit(s, request, replies(C.NextOwner(g)), now);
    forall i | g.next < i < |g.order| ensures Fits(s', s'.gets[request], g.order[i], replies(g.order[i]), now) {
      assert g.order[i] != g.order[g.next];
    }
  }

  lemma FoundAgrees(s: C.State, request: nat, reply: Reply, now: int)
    requires C.Visiting(s, request) && reply.Found?
    requires Fits(s, s.gets[request], C.NextOwner(s.gets[request]), reply, now)
    ensures Agrees(s, AfterVisit(s, request, reply, now), request, Hit(C.NextOwner(s.gets[request]), reply.item), now)
  {
    hide L.Get, RepairWrites;
  }

  /** The rest of a walk is a run of steps, ending as the node's own walk ends. */
  lemma {:induction false} WalkIsSteps(c: C.Setup, s: C.State, request: nat, replies: string -> Reply, now: int)
    returns (steps: seq<C.Step>)
    requires Ready(s, request, replies, now)
    ensures request in C.Run(c, s, steps).gets && s.gets[request].coordinator in C.Run(c, s, steps).nodes
    ensures var g, end := s.gets[request], C.Run(c, s, steps);
      && Agrees(s, end, request, Outcome(g.order[g.next..], replies), now)
      && (g.next == 0 || g.coordinator !in g.order[g.next..] ==>
            end.nodes[g.coordinator] ==
              OwnAfter(s.nodes[g.coordinator], g.coordinator, g.order[g.next..], g.key, now))
    decreases |s.gets[request].order| - s.gets[request].next
  {
    hide L.Get, C.Repairs, RepairWrites, C.Run, NoDup;
    var g := s.gets[request];
    var rest := g.order[g.next..];
    if rest == [] {
      steps := [];
      C.RunSnoc(c, s, [], C.Abandon(0));
    } else {
      assert rest[0] == C.NextOwner(g) && rest[1..] == g.order[g.next + 1..];
      var reply := replies(rest[0]);
      var visit := VisitIsSteps(c, s, request, reply, now);
      var s' := AfterVisit(s, request, reply, now);
      if reply.Found? {
        steps := visit;
        FoundAgrees(s, request, reply, now);
      } else {
        StaysReady(s, request, replies, now);
        var more := WalkIsSteps(c, s', request, replies, now);
        steps := visit + more;
        RunConcat(c, s, visit, more);
      }
    }
  }

  /** What a peer answers at a time, if it answers: what its cache holds. */
  predicate Honest(s: C.State, owners: seq<string>, self: string, key: string, wires: string -> Wire, now: int) {
    forall x :: x in owners && x != self ==>
      wires(x) == WireError || (x in s.nodes && wires(x) == Serve(s.nodes[x].cache, key, now))
  }

  lemma HonestFits(s: C.State, g: C.GetRequest, wires: string -> Wire, down: Breaker, x: string, now: int)
    requires g.coordinator in s.nodes
    requires x != g.coordinator ==>
      wires(x) == WireError || (x in s.nodes && wires(x) == Serve(s.nodes[x].cache, g.key, now))
    ensures var seen := Replies(s.nodes[g.coordinator].cache, g.coordinator, g.key, wires, now);
      Fits(s, g, x, Effective(down, g.coordinator, x, seen(x), now), now)
  {
    if x in s.nodes { FoundKey(s.nodes[x].cache, g.key, now); }
    hide L.Get;
  }

  lemma FoundKey(cache: L.Cache, key: string, now: int)
    ensures L.Get(cache, key, now).1.Some? ==> L.Get(cache, key, now).1.value.key == key
  {
  }

  /** A node's read is a run of the cluster: a GET is started, every visit is a step or two, and
      in the end the reply, the own cache and the repairs on their way are those that the node's
      HandleGet gives. */
  lemma HandleGetIsSteps(c: C.Setup, s: C.State, request: nat, self: string, key: string, wires: string -> Wire,
                         down: Breaker, now: int)
    returns (steps: seq<C.Step>)
    requires c.vnodes >= 1 && self in s.nodes && request !in s.gets
    requires Honest(s, C.Owners(c, s.nodes[self], key), self, key, wires, now)
    ensures var owners := C.Owners(c, s.nodes[self], key);
      var seen := EffectiveReplies(down, self, Replies(s.nodes[self].cache, self, key, wires, now), now);
      var start := C.Apply(c, s, C.StartGet(request, self, key));
      var end := C.Run(c, start, steps);
      && request in start.gets && request in end.gets && self in end.nodes
      && start.gets[request].owners == owners && start.gets[request].key == key && start.puts == s.puts
      && Agrees(start, end, request, Outcome(PreferLocal(owners, self), seen), now)
      && end.nodes[self] == OwnAfter(s.nodes[self], self, owners, key, now)
  {
    var seen := EffectiveReplies(down, self, Replies(s.nodes[self].cache, self, key, wires, now), now);
    var start := C.Apply(c, s, C.StartGet(request, self, key));
    R.OwnersAreExact(c, s.nodes[self].members, key, s.nodes[self].replicas, s.nodes[self].replicas);
    StartGetIs(c, s, request, self, key);
    hide Outcome, L.Get, EffectiveReplies, Replies, Honest, Ready, Agrees, C.Run, C.Owners, C.Apply, PreferLocal, NoDup;
    StartIsReady(s, start, request, wires, down, now);
    steps := WalkIsSteps(c, start, request, seen, now);
    var order := start.gets[request].order;
    assert order[0..] == order;
  }

  lemma StartIsReady(s: C.State, start: C.State, request: nat, wires: string -> Wire, down: Breaker, now: int)
    requires request in start.gets && start.nodes == s.nodes
    requires var g := start.gets[request];
      && g.coordinator in s.nodes && NoDup(g.owners) && g.order == PreferLocal(g.owners, g.coordinator)
      && g.open && g.hit.None? && g.waiting.None? && g.next == 0
      && Honest(s, g.owners, g.coordinator, g.key, wires, now)
    ensures var g := start.gets[request];
      var seen := Replies(s.nodes[g.coordinator].cache, g.coordinator, g.key, wires, now);
      && Ready(start, request, EffectiveReplies(down, g.coordinator, seen, now), now)
      && (g.coordinator in g.order <==> g.coordinator in g.owners)
  {
    hide NoDup, Fits, Honest, EffectiveReplies, Replies, PreferLocal;
    var g := start.gets[request];
    var seen := EffectiveReplies(down, g.coordinator,
      Replies(s.nodes[g.coordinator].cache, g.coordinator, g.key, wires, now), now);
    SelfOnlyFirst(g.owners, g.coordinator);
    SplitBySelf(g.owners, g.coordinator);
    EachFits(s, g, g.owners, wires, down, now);
    forall i | 0 <= i < |g.order| ensures Fits(start, g, g.order[i], seen(g.order[i]), now) {
      assert g.order[i] in g.order;
      SameFit(s, start, g, g.order[i], seen(g.order[i]), now);
    }
  }

  lemma StartGetIs(c: C.Setup, s: C.State, request: nat, self: string, key: string)
    requires self in s.nodes && request !in s.gets
    ensures var owners := C.Owners(c, s.nodes[self], key);
      C.Apply(c, s, C.StartGet(request, self, key)) == s.(gets := s.gets[request :=
        C.GetRequest(self, key, owners, PreferLocal(owners, self), 0, false, None, None, true)])
  {
  }

  lemma EachFits(s: C.State, g: C.GetRequest, owners: seq<string>, wires: string -> Wire, down: Breaker, now: int)
    requires g.coordinator in s.nodes && Honest(s, owners, g.coordinator, g.key, wires, now)
    ensures var seen := Replies(s.nodes[g.coordinator].cache, g.coordinator, g.key, wires, now);
      forall x :: x in owners ==> Fits(s, g, x, EffectiveReplies(down, g.coordinator, seen, now)(x), now)
  {
    hide L.Get, Fits, Serve;
    forall x | x in owners
      ensures var seen := Replies(s.nodes[g.coordinator].cache, g.coordinator, g.key, wires, now);
        Fits(s, g, x, EffectiveReplies(down, g.coordinator, seen, now)(x), now)
    {
      HonestFits(s, g, wires, down, x, now);
    }
  }

  lemma SameFit(s: C.State, s': C.State, g: C.GetRequest, owner: string, reply: Reply, now: int)
    requires Fits(s, g, owner, reply, now) && s'.nodes == s.nodes
    ensures Fits(s', g, owner, reply, now)
  {
  }

  /** A peer's write is a delivery: the cache takes it or ignores it by its own rule, and acks. */
  lemma InternalPutIsDeliver(c: C.Setup, s: C.State, put: C.Put, now: int)
    requires C.Invariant(s) && put in s.puts && put.to in s.nodes
    ensures var s' := C.Apply(c, s, C.Deliver(put, now));
      && s'.nodes == s.nodes[put.to := s.nodes[put.to].(
           cache := L.Set(s.nodes[put.to].cache, put.key, put.value, put.ttl, put.writtenAt, now).0)]
      && (put.request.Some? ==> (put.request.value, put.to) in s'.acks)
      && s'.puts == s.puts && s'.sets == s.sets && s'.gets == s.gets
  {
  }

  /** A node's write is a SET that is started, and the delivery of the node's own share of it:
      the own cache ends up as HandleSet leaves it, and a write is on its way to every owner. */
  lemma HandleSetIsSteps(c: C.Setup, s: C.State, request: nat, self: string, key: string, value: string, ttl: int,
                         writtenAt: int, now: int)
    returns (steps: seq<C.Step>)
    requires C.Invariant(s) && self in s.nodes && request !in s.sets
    ensures var owners := C.Owners(c, s.nodes[self], key);
      var end := C.Run(c, s, steps);
      && end.nodes == s.nodes[self := if self in owners
           then s.nodes[self].(cache := L.Set(s.nodes[self].cache, key, value, ttl, writtenAt, now).0)
           else s.nodes[self]]
      && request in end.sets && end.sets[request].owners == owners
      && (forall o :: o in owners ==> C.Put(o, key, value, ttl, writtenAt, Some(request)) in end.puts)
      && (self in owners ==> (request, self) in end.acks)
  {
    hide L.Set, C.Run, C.Owners;
    var start := C.StartSet(request, self, key, value, ttl, writtenAt);
    var own := C.Put(self, key, value, ttl, writtenAt, Some(request));
    var owners := C.Owners(c, s.nodes[self], key);
    C.RunSnoc(c, s, [], start);
    steps := [] + [start];
    if self in owners {
      C.StepInvariant(c, s, start);
      InternalPutIsDeliver(c, C.Apply(c, s, start), own, now);
      C.RunSnoc(c, s, steps, C.Deliver(own, now));
      steps := steps + [C.Deliver(own, now)];
    }
  }

  /** A join or a leave at a node changes the members it knows, and so its owners, as a call on
      the ring does; a node does not leave itself. */
  lemma MembershipIsSteps(c: C.Setup, s: C.State, at: string, member: string, key: string)
    requires at in s.nodes
    ensures var joined := C.Apply(c, s, C.Join(at, member)).nodes;
      && joined == s.nodes[at := s.nodes[at].(members := R.Changed(s.nodes[at].members, R.Add(member)))]
      && C.Owners(c, joined[at], key)
         == R.OwnersOf(c, R.Changed(s.nodes[at].members, R.Add(member)), key, s.nodes[at].replicas)
    ensures var left := C.Apply(c, s, C.Leave(at, member)).nodes;
      left == if at == member then s.nodes
              else s.nodes[at := s.nodes[at].(members := R.Changed(s.nodes[at].members, R.Remove(member)))]
  {
  }
}
