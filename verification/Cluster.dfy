/** The replication protocol as a step machine. Messages, once sent, may be delivered at any
    later time, any number of times, or never; membership is per node and changes node by node. */
module Cluster {
  import opened Seqs
  import L = LruModel
  import T = StoreTraces
  import N = NodeModel
  import R = RingModel

  /** What every node shares: the hash, and the number of virtual nodes. */
  type Setup = R.Config

  /** A node: its cache, the members it knows, and its number of replicas, which it has fixed at
      its start. */
  datatype NodeState = NodeState(cache: L.Cache, members: set<string>, replicas: int)

  /** A PUT on its way to a node: part of a fan-out, or a read repair. */
  datatype Put = Put(to: string, key: string, value: string, ttl: int, writtenAt: int, request: Option<nat>)

  /** A SET at its coordinator. */
  datatype SetRequest = SetRequest(key: string, writtenAt: int, owners: seq<string>,
                                   acked: set<string>, failed: set<string>)

  /** What an owner found for a read, and when. */
  datatype Found = Found(from: string, item: L.Item, served: int)

  /** A GET at its coordinator: the owners, the order of the walk, how far it is, a find that an
      owner has answered and that the coordinator has not dealt with, and its result. A request
      that is no longer open was given up by its client, or lost in a restart. */
  datatype GetRequest = GetRequest(coordinator: string, key: string, owners: seq<string>, order: seq<string>, next: nat,
                                   reached: bool, waiting: Option<Found>, hit: Option<(string, L.Item)>, open: bool)

  datatype State = State(nodes: map<string, NodeState>, puts: set<Put>, acks: set<(nat, string)>,
                         sets: map<nat, SetRequest>, gets: map<nat, GetRequest>)

  datatype Step =
    | StartSet(request: nat, coordinator: string, key: string, value: string, ttl: int, writtenAt: int)
    | Deliver(put: Put, now: int)
    | Forget(put: Put)
    | ReceiveAck(request: nat, owner: string)
    | GiveUp(request: nat, owner: string)
    | StartGet(request: nat, coordinator: string, key: string)
    /** The next owner looks in its cache. */
    | Read(request: nat, served: int)
    /** The coordinator receives what that owner found, replies, and sends the repairs. */
    | Receive(request: nat, received: int, sent: int)
    /** The next owner is not asked, or does not answer, or its answer is lost. */
    | ReadFails(request: nat, asked: Option<int>)
    | Abandon(request: nat)
    | DeleteAt(node: string, key: string)
    | SweepAt(node: string, now: int)
    | Restart(node: string)
    | Join(at: string, member: string)
    | Leave(at: string, member: string)
    | Boot(node: string, capacity: nat, members: set<string>, replicas: int)

  /** The owners of a key, as a node sees them. */
  ghost function Owners(c: Setup, node: NodeState, key: string): seq<string> {
    R.OwnersOf(c, node.members, key, node.replicas)
  }

  function WithCache(s: State, node: string, cache: L.Cache): State
    requires node in s.nodes
  {
    s.(nodes := s.nodes[node := s.nodes[node].(cache := cache)])
  }

  /** A hit as the coordinator has it: a peer's answer carries its lifetime in milliseconds. */
  function AsReceived(g: GetRequest, servedBy: string, item: L.Item, served: int, received: int): L.Item {
    if servedBy == g.coordinator then item
    else item.(expiresAt := N.DecodeTTL(N.EncodeTTL(item.expiresAt, served), received))
  }

  /** The repair writes of a hit, as messages. */
  function Repairs(g: GetRequest, servedBy: string, item: L.Item, served: int, received: int, sent: int): set<Put> {
    var seen := AsReceived(g, servedBy, item, served, received);
    set w | w in N.RepairWrites(g.owners, servedBy, g.key, seen, sent) ::
      Put(w.to, w.key, w.value, w.ttl, w.writtenAt, None)
  }

  /** The read has an owner to visit. */
  predicate Visiting(s: State, request: nat) {
    && request in s.gets && s.gets[request].open
    && s.gets[request].hit.None? && s.gets[request].next < |s.gets[request].order|
  }

  function NextOwner(g: GetRequest): string
    requires g.next < |g.order|
  {
    g.order[g.next]
  }

  predicate Reading(s: State, request: nat) {
    Visiting(s, request) && s.gets[request].waiting.None? && NextOwner(s.gets[request]) in s.nodes
  }

  /** The coordinator can deal with the find at these times, by its clock. */
  predicate Receiving(s: State, request: nat, received: int, sent: int) {
    && Visiting(s, request) && s.gets[request].waiting.Some? && received <= sent
    && var find := s.gets[request].waiting.value;
    find.from == s.gets[request].coordinator ==> find.served <= received
  }

  /** An own cache does not fail. */
  predicate Failing(s: State, request: nat) {
    Visiting(s, request) && NextOwner(s.gets[request]) != s.gets[request].coordinator
  }

  /** A step that is not possible in a state leaves it unchanged, so every sequence of steps is
      a run. */
  ghost function Apply(c: Setup, s: State, step: Step): State {
    match step
    case StartSet(request, coordinator, key, value, ttl, writtenAt) =>
      if coordinator !in s.nodes || request in s.sets then s
      else
        var owners := Owners(c, s.nodes[coordinator], key);
        s.(sets := s.sets[request := SetRequest(key, writtenAt, owners, {}, {})],
           puts := s.puts + set o | o in owners :: Put(o, key, value, ttl, writtenAt, Some(request)))
    case Deliver(put, now) =>
      if put !in s.puts || put.to !in s.nodes || s.nodes[put.to].cache.capacity < 1 then s
      else
        var cache := L.Set(s.nodes[put.to].cache, put.key, put.value, put.ttl, put.writtenAt, now).0;
        WithCache(s, put.to, cache).(acks := s.acks + if put.request.Some? then {(put.request.value, put.to)} else {})
    case Forget(put) => s.(puts := s.puts - {put})
    case ReceiveAck(request, owner) =>
      if request !in s.sets || (request, owner) !in s.acks || owner in s.sets[request].failed then s
      else s.(sets := s.sets[request := s.sets[request].(acked := s.sets[request].acked + {owner})])
    case GiveUp(request, owner) =>
      if request !in s.sets || owner in s.sets[request].acked then s
      else s.(sets := s.sets[request := s.sets[request].(failed := s.sets[request].failed + {owner})])
    case StartGet(request, coordinator, key) =>
      if coordinator !in s.nodes || request in s.gets then s
      else
        var owners := Owners(c, s.nodes[coordinator], key);
        s.(gets := s.gets[request :=
          GetRequest(coordinator, key, owners, N.PreferLocal(owners, coordinator), 0, false, None, None, true)])
    case Read(request, served) =>
      if !Reading(s, request) then s
      else
        var g := s.gets[request];
        var owner := NextOwner(g);
        var (cache, found) := L.Get(s.nodes[owner].cache, g.key, served);
        var read := WithCache(s, owner, cache);
        (match found
         case None => read.(gets := s.gets[request := g.(next := g.next + 1, reached := true)])
         case Some(item) => read.(gets := s.gets[request := g.(waiting := Some(Found(owner, item, served)))]))
    case Receive(request, received, sent) =>
      if !Receiving(s, request, received, sent) then s
      else
        var g := s.gets[request];
        var find := g.waiting.value;
        s.(gets := s.gets[request := g.(waiting := None, hit := Some((find.from, find.item)))],
           puts := s.puts + Repairs(g, find.from, find.item, find.served, received, sent))
    case ReadFails(request, asked) =>
      if !Failing(s, request) then s
      else
        var g := s.gets[request];
        var owner := NextOwner(g);
        var touched :=
          if g.waiting.None? && asked.Some? && owner in s.nodes
          then WithCache(s, owner, L.Get(s.nodes[owner].cache, g.key, asked.value).0) else s;
        touched.(gets := s.gets[request := g.(next := g.next + 1, waiting := None)])
    case Abandon(request) =>
      if request !in s.gets then s else s.(gets := s.gets[request := s.gets[request].(open := false)])
    case DeleteAt(node, key) =>
      if node !in s.nodes then s else WithCache(s, node, L.Delete(s.nodes[node].cache, key).0)
    case SweepAt(node, now) =>
      if node !in s.nodes then s else WithCache(s, node, L.Sweep(s.nodes[node].cache, now))
    case Restart(node) =>
      if node !in s.nodes then s
      else WithCache(s, node, L.Cache(s.nodes[node].cache.capacity, [], L.NO_STATS))
    case Join(at, member) =>
      if at !in s.nodes || member == "" then s
      else s.(nodes := s.nodes[at := s.nodes[at].(members := s.nodes[at].members + {member})])
    case Leave(at, member) =>
      if at !in s.nodes || at == member then s
      else s.(nodes := s.nodes[at := s.nodes[at].(members := s.nodes[at].members - {member})])
    case Boot(node, capacity, members, replicas) =>
      if node in s.nodes || capacity < 1 then s
      else s.(nodes := s.nodes[node := NodeState(L.Cache(capacity, [], L.NO_STATS), members, replicas)])
  }

  ghost function Run(c: Setup, s: State, steps: seq<Step>): State {
    if steps == [] then s else Apply(c, Run(c, s, Init(steps)), Last(steps))
  }

  // ---------- what every run keeps ----------

  predicate FindFits(g: GetRequest) {
    g.waiting.Some? ==> g.next < |g.order| && g.waiting.value.from == NextOwner(g)
  }

  /** Caches are well formed, acks concern known requests, and a find comes from the owner that
      the read is visiting. */
  ghost predicate Invariant(s: State) {
    && (forall n :: n in s.nodes ==> L.WellFormed(s.nodes[n].cache))
    && (forall p :: p in s.puts && p.request.Some? ==> p.request.value in s.sets)
    && (forall a :: a in s.acks ==> a.0 in s.sets)
    && (forall r :: r in s.gets ==> FindFits(s.gets[r]))
  }

  /** The item a node holds for a key. */
  function Held(s: State, node: string, key: string): Option<L.Item> {
    if node in s.nodes then L.Lookup(s.nodes[node].cache.items, key) else None
  }

  /** The step takes the key away from the node: a delete, an expiry, an eviction, a restart. */
  ghost predicate Removes(c: Setup, s: State, step: Step, node: string, key: string) {
    Held(s, node, key).Some? && Held(Apply(c, s, step), node, key).None?
  }

  /** Nothing takes the key away from any of the nodes during the run. */
  ghost predicate Keeps(c: Setup, s: State, steps: seq<Step>, who: set<string>, key: string) {
    steps == [] ||
    (Keeps(c, s, Init(steps), who, key)
      && forall n :: n in who ==> !Removes(c, Run(c, s, Init(steps)), Last(steps), n, key))
  }

  ghost predicate AtLeast(s: State, node: string, key: string, writtenAt: int) {
    Held(s, node, key).Some? && Held(s, node, key).value.writtenAt >= writtenAt
  }

  // ---------- one step, one cache ----------

  /** A step leaves a node's cache alone, or applies one cache operation, or empties it. */
  lemma CacheEffect(c: Setup, s: State, step: Step, node: string) returns (e: Option<T.Event>)
    requires node in s.nodes && L.WellFormed(s.nodes[node].cache)
    ensures node in Apply(c, s, step).nodes
    ensures var before, after := s.nodes[node].cache, Apply(c, s, step).nodes[node].cache;
      || (e.Some? && after == T.Step(before, e.value))
      || (e.None? && after == before)
      || (e.None? && after == L.Cache(before.capacity, [], L.NO_STATS))
    ensures e.Some? && e.value.op.SetOp? ==>
      step.Deliver? && step.put in s.puts && step.put.to == node && e.value.op.key == step.put.key
  {
    e := None;
    match step
    case Deliver(put, now) =>
      if put in s.puts && put.to == node {
        e := Some(T.Event(T.SetOp(put.key, put.value, put.ttl, put.writtenAt), now));
      }
    case Read(request, served) =>
      if Reading(s, request) && NextOwner(s.gets[request]) == node {
        e := Some(T.Event(T.GetOp(s.gets[request].key), served));
      }
    case ReadFails(request, asked) =>
      if Failing(s, request) && NextOwner(s.gets[request]) == node && s.gets[request].waiting.None? && asked.Some? {
        e := Some(T.Event(T.GetOp(s.gets[request].key), asked.value));
      }
    case DeleteAt(n, key) =>
      if n == node { e := Some(T.Event(T.DeleteOp(key), 0)); }
    case SweepAt(n, now) =>
      if n == node { e := Some(T.Event(T.SweepOp, now)); }
    case _ =>
  }

  lemma NewNodes(c: Setup, s: State, step: Step, node: string)
    requires node !in s.nodes && node in Apply(c, s, step).nodes
    ensures Apply(c, s, step).nodes[node].cache.items == [] && L.WellFormed(Apply(c, s, step).nodes[node].cache)
  {
  }

  lemma RequestsGrow(c: Setup, s: State, step: Step)
    requires Invariant(s)
    ensures var s' := Apply(c, s, step);
      && (forall p :: p in s'.puts && p.request.Some? ==> p.request.value in s'.sets)
      && (forall a :: a in s'.acks ==> a.0 in s'.sets)
  {
  }

  lemma FindStays(c: Setup, s: State, step: Step, r: nat)
    requires r in s.gets ==> FindFits(s.gets[r])
    ensures r in Apply(c, s, step).gets ==> FindFits(Apply(c, s, step).gets[r])
  {
    hide L.Get, L.Set, L.Delete, L.Sweep, Repairs;
  }

  lemma StepInvariant(c: Setup, s: State, step: Step)
    requires Invariant(s)
    ensures Invariant(Apply(c, s, step))
  {
    RequestsGrow(c, s, step);
    var s' := Apply(c, s, step);
    forall r | r in s'.gets ensures FindFits(s'.gets[r]) {
      FindStays(c, s, step, r);
    }
    forall n | n in s'.nodes ensures L.WellFormed(s'.nodes[n].cache) {
      if n in s.nodes {
        var e := CacheEffect(c, s, step, n);
        if e.Some? { T.StepWellFormed(s.nodes[n].cache, e.value); }
      } else {
        NewNodes(c, s, step, n);
      }
    }
  }

  /** Well-formed caches and known requests, in every run. */
  lemma {:induction false} RunInvariant(c: Setup, s: State, steps: seq<Step>)
    requires Invariant(s)
    ensures Invariant(Run(c, s, steps))
  {
    if steps != [] {
      RunInvariant(c, s, Init(steps));
      StepInvariant(c, Run(c, s, Init(steps)), Last(steps));
    }
  }

  lemma OperationNeverGoesBack(cache: L.Cache, e: T.Event, key: string)
    requires L.WellFormed(cache)
    ensures var before, after := L.Lookup(cache.items, key), L.Lookup(T.Step(cache, e).items, key);
      before.Some? && after.Some? ==> after.value.writtenAt >= before.value.writtenAt
  {
    T.StepLookup(cache, e, key);
  }

  /** A replica's writtenAt for a key never goes back while it holds the key. */
  lemma StepKeepsAtLeast(c: Setup, s: State, step: Step, node: string, key: string, writtenAt: int)
    requires Invariant(s) && AtLeast(s, node, key, writtenAt) && !Removes(c, s, step, node, key)
    ensures AtLeast(Apply(c, s, step), node, key, writtenAt)
  {
    var e := CacheEffect(c, s, step, node);
    if e.Some? { OperationNeverGoesBack(s.nodes[node].cache, e.value, key); }
  }

  /** Delivering a write leaves the replica with that write or a newer one, whether the write
      was applied or ignored as stale: this is what an ack means. */
  lemma DeliveredIsAtLeast(c: Setup, s: State, put: Put, now: int)
    requires Invariant(s) && put in s.puts && put.to in s.nodes
    ensures AtLeast(Apply(c, s, Deliver(put, now)), put.to, put.key, put.writtenAt)
  {
    var cache := s.nodes[put.to].cache;
    var e := T.Event(T.SetOp(put.key, put.value, put.ttl, put.writtenAt), now);
    T.StepLookup(cache, e, put.key);
  }

  /** An ack does not mean that the write was applied: a replica acks every write it receives,
      and applies it exactly when it holds nothing newer. */
  lemma AckedIsNotApplied(c: Setup, s: State, put: Put, now: int)
    requires Invariant(s) && put in s.puts && put.to in s.nodes
    ensures var s', held := Apply(c, s, Deliver(put, now)), Held(s, put.to, put.key);
      && (put.request.Some? ==> (put.request.value, put.to) in s'.acks)
      && Held(s', put.to, put.key) ==
           if held.Some? && held.value.writtenAt > put.writtenAt then held
           else Some(L.NewItem(put.key, put.value, put.ttl, put.writtenAt, now))
  {
    T.StepLookup(s.nodes[put.to].cache, T.Event(T.SetOp(put.key, put.value, put.ttl, put.writtenAt), now), put.key);
  }

  // ---------- acked writes ----------

  /** The state knows the request, its acks come from its owners, and every node of `who` that
      acked still has the write or a newer one. */
  ghost predicate Tracks(s: State, request: nat, key: string, writtenAt: int, owners: seq<string>, who: set<string>) {
    && request in s.sets
    && s.sets[request].key == key && s.sets[request].writtenAt == writtenAt && s.sets[request].owners == owners
    && (forall p :: p in s.puts && p.request == Some(request) ==>
          p.key == key && p.writtenAt == writtenAt && p.to in owners)
    && (forall a :: a in s.acks && a.0 == request ==> a.1 in owners && (a.1 in who ==> AtLeast(s, a.1, key, writtenAt)))
    && (forall o :: o in s.sets[request].acked ==> (request, o) in s.acks)
  }

  lemma StartTracks(c: Setup, s: State, request: nat, coordinator: string, key: string, value: string, ttl: int,
                    writtenAt: int,
                    who: set<string>)
    requires Invariant(s) && request !in s.sets && coordinator in s.nodes
    ensures var s' := Apply(c, s, StartSet(request, coordinator, key, value, ttl, writtenAt));
      Tracks(s', request, key, writtenAt, Owners(c, s.nodes[coordinator], key), who)
  {
  }

  /** The only new acks are for the write being delivered. */
  lemma NewAcks(c: Setup, s: State, step: Step)
    ensures s.acks <= Apply(c, s, step).acks
    ensures forall a :: a in Apply(c, s, step).acks && a !in s.acks ==>
      && step.Deliver? && step.put in s.puts && step.put.to in s.nodes
      && a.1 == step.put.to && step.put.request == Some(a.0)
  {
  }

  /** New messages for a request are only sent when it starts, and its description stays. */
  lemma RequestKept(c: Setup, s: State, step: Step, request: nat)
    requires request in s.sets
    ensures var s' := Apply(c, s, step);
      && request in s'.sets
      && s'.sets[request] == s.sets[request].(acked := s'.sets[request].acked, failed := s'.sets[request].failed)
      && (forall p :: p in s'.puts && p.request == Some(request) ==> p in s.puts)
      && (forall o :: o in s'.sets[request].acked && o !in s.sets[request].acked ==> (request, o) in s.acks)
  {
  }

  lemma StepTracks(c: Setup, s: State, step: Step, request: nat, key: string, writtenAt: int, owners: seq<string>,
                   who: set<string>)
    requires Invariant(s) && Tracks(s, request, key, writtenAt, owners, who)
    requires forall n :: n in who ==> !Removes(c, s, step, n, key)
    ensures Tracks(Apply(c, s, step), request, key, writtenAt, owners, who)
  {
    hide Apply, Removes, AtLeast;
    RequestKept(c, s, step, request);
    NewAcks(c, s, step);
    forall a | a in Apply(c, s, step).acks && a.0 == request
      ensures a.1 in owners && (a.1 in who ==> AtLeast(Apply(c, s, step), a.1, key, writtenAt))
    {
      if a in s.acks {
        if a.1 in who { StepKeepsAtLeast(c, s, step, a.1, key, writtenAt); }
      } else {
        DeliveredIsAtLeast(c, s, step.put, step.now);
      }
    }
  }

  lemma {:induction false} RunTracks(c: Setup, s: State, steps: seq<Step>, request: nat, key: string, writtenAt: int,
                                     owners: seq<string>, who: set<string>)
    requires Invariant(s) && Tracks(s, request, key, writtenAt, owners, who)
    requires Keeps(c, s, steps, who, key)
    ensures Tracks(Run(c, s, steps), request, key, writtenAt, owners, who)
  {
    hide Tracks, Invariant, Apply, Removes;
    if steps != [] {
      var init := Init(steps);
      RunTracks(c, s, init, request, key, writtenAt, owners, who);
      RunInvariant(c, s, init);
      StepTracks(c, Run(c, s, init), Last(steps), request, key, writtenAt, owners, who);
    }
  }

  /** In every run, only owners ack, and an ack counted at the coordinator means that the owner
      has the write or a newer one, as long as nothing took the key away from that owner. */
  lemma AckMeansFresh(c: Setup, s: State, request: nat, coordinator: string, key: string, value: string, ttl: int,
                      writtenAt: int, steps: seq<Step>, owner: string)
    requires Invariant(s) && request !in s.sets && coordinator in s.nodes
    requires var s' := Apply(c, s, StartSet(request, coordinator, key, value, ttl, writtenAt));
      Keeps(c, s', steps, {owner}, key)
    ensures var s' := Apply(c, s, StartSet(request, coordinator, key, value, ttl, writtenAt));
      var end := Run(c, s', steps);
      && request in end.sets
      && end.sets[request].acked <= Elements(Owners(c, s.nodes[coordinator], key))
      && (owner in end.sets[request].acked ==> AtLeast(end, owner, key, writtenAt))
  {
    var start := StartSet(request, coordinator, key, value, ttl, writtenAt);
    var owners := Owners(c, s.nodes[coordinator], key);
    StepInvariant(c, s, start);
    StartTracks(c, s, request, coordinator, key, value, ttl, writtenAt, {owner});
    hide Apply;
    RunTracks(c, Apply(c, s, start), steps, request, key, writtenAt, owners, {owner});
  }

  /** An ack that a replica has sent is counted, unless the coordinator has given the owner up;
      and once given up it is not counted any more. */
  lemma AckIsCounted(c: Setup, s: State, request: nat, owner: string)
    requires request in s.sets
    ensures var s' := Apply(c, s, ReceiveAck(request, owner));
      && request in s'.sets && s'.sets[request].failed == s.sets[request].failed
      && (owner in s'.sets[request].acked <==>
            owner in s.sets[request].acked || ((request, owner) in s.acks && owner !in s.sets[request].failed))
    ensures var s' := Apply(c, s, GiveUp(request, owner));
      && request in s'.sets && s'.sets[request].acked == s.sets[request].acked
      && (owner in s'.sets[request].failed <==> owner in s.sets[request].failed || owner !in s.sets[request].acked)
  {
  }

  /** In every run an owner is counted once, as acked or as failed, and stays so. */
  lemma {:induction false} CountedOnce(c: Setup, s: State, steps: seq<Step>, request: nat)
    requires request in s.sets && s.sets[request].acked !! s.sets[request].failed
    ensures var end := Run(c, s, steps);
      && request in end.sets && end.sets[request].acked !! end.sets[request].failed
      && s.sets[request].acked <= end.sets[request].acked && s.sets[request].failed <= end.sets[request].failed
  {
    hide Apply;
    if steps != [] {
      CountedOnce(c, s, Init(steps), request);
      StaysApart(c, Run(c, s, Init(steps)), Last(steps), request);
    }
  }

  lemma StaysApart(c: Setup, s: State, step: Step, request: nat)
    requires request in s.sets && s.sets[request].acked !! s.sets[request].failed
    ensures var s' := Apply(c, s, step);
      && request in s'.sets && s'.sets[request].acked !! s'.sets[request].failed
      && s.sets[request].acked <= s'.sets[request].acked && s.sets[request].failed <= s'.sets[request].failed
  {
    hide L.Get, L.Set, L.Delete, L.Sweep, Repairs;
  }

  /** What is needed to have an owner ack: it runs, its share is on its way, and it has not been
      given up. */
  ghost predicate CanAck(s: State, request: nat, put: Put) {
    && request in s.sets && put.request == Some(request) && put in s.puts && put.to in s.nodes
    && put.to !in s.sets[request].failed
  }

  /** Delivering a share and receiving its ack counts the owner, takes the key away from nobody,
      and leaves the others as able to ack as they were. */
  lemma OneAck(c: Setup, s: State, request: nat, put: Put, now: int)
    requires Invariant(s) && CanAck(s, request, put)
    ensures var delivered := Apply(c, s, Deliver(put, now));
      var s' := Apply(c, delivered, ReceiveAck(request, put.to));
      && Invariant(delivered) && Invariant(s')
      && request in s'.sets && s'.sets[request].acked == s.sets[request].acked + {put.to}
      && (forall p :: CanAck(s, request, p) ==> CanAck(s', request, p))
      && (forall n :: !Removes(c, s, Deliver(put, now), n, put.key))
      && (forall n :: !Removes(c, delivered, ReceiveAck(request, put.to), n, put.key))
  {
    StepInvariant(c, s, Deliver(put, now));
    var delivered := Apply(c, s, Deliver(put, now));
    StepInvariant(c, delivered, ReceiveAck(request, put.to));
    DeliveredIsAtLeast(c, s, put, now);
    hide L.Set, L.Lookup;
  }

  lemma RunSnoc(c: Setup, s: State, steps: seq<Step>, step: Step)
    ensures Run(c, s, []) == s
    ensures Run(c, s, steps + [step]) == Apply(c, Run(c, s, steps), step)
  {
    assert Init(steps + [step]) == steps;
  }

  lemma KeepsSnoc(c: Setup, s: State, steps: seq<Step>, step: Step, who: set<string>, key: string)
    requires Keeps(c, s, steps, who, key) && forall n :: !Removes(c, Run(c, s, steps), step, n, key)
    ensures Keeps(c, s, steps + [step], who, key)
  {
    assert Init(steps + [step]) == steps && Last(steps + [step]) == step;
  }

  lemma {:induction false} AllAck(c: Setup, s: State, request: nat, puts: seq<Put>, key: string, who: set<string>,
                                  now: int)
    returns (steps: seq<Step>)
    requires Invariant(s) && request in s.sets
    requires forall p :: p in puts ==> CanAck(s, request, p) && p.key == key
    ensures Invariant(Run(c, s, steps)) && Keeps(c, s, steps, who, key)
    ensures request in Run(c, s, steps).sets
    ensures forall p :: p in puts ==> p.to in Run(c, s, steps).sets[request].acked
    ensures forall p :: CanAck(s, request, p) ==> CanAck(Run(c, s, steps), request, p)
  {
    hide Apply, Invariant, CanAck, Removes, Keeps, Run;
    if puts == [] {
      steps := [];
      NothingRun(c, s, who, key);
    } else {
      var put := Last(puts);
      assert put in puts && forall p :: p in Init(puts) ==> p in puts;
      var before := AllAck(c, s, request, Init(puts), key, who, now);
      var s' := Run(c, s, before);
      OneAck(c, s', request, put, now);
      RunSnoc(c, s, before, Deliver(put, now));
      KeepsSnoc(c, s, before, Deliver(put, now), who, key);
      var delivered := before + [Deliver(put, now)];
      RunSnoc(c, s, delivered, ReceiveAck(request, put.to));
      KeepsSnoc(c, s, delivered, ReceiveAck(request, put.to), who, key);
      steps := delivered + [ReceiveAck(request, put.to)];
      assert puts == Init(puts) + [put];
    }
  }

  lemma NothingRun(c: Setup, s: State, who: set<string>, key: string)
    ensures Run(c, s, []) == s && Keeps(c, s, [], who, key)
  {
  }

  function Shares(owners: seq<string>, key: string, value: string, ttl: int, writtenAt: int, request: nat): seq<Put> {
    seq(|owners|, i requires 0 <= i < |owners| => Put(owners[i], key, value, ttl, writtenAt, Some(request)))
  }

  /** A SET whose owners all run can be acked by every one of them, and keeps the key everywhere
      on the way: what holds after a full ack does not hold for want of one. */
  lemma FullAckHappens(c: Setup, s: State, request: nat, coordinator: string, key: string, value: string, ttl: int,
                       writtenAt: int, now: int)
    returns (steps: seq<Step>)
    requires Invariant(s) && request !in s.sets && coordinator in s.nodes
    requires forall o :: o in Owners(c, s.nodes[coordinator], key) ==> o in s.nodes
    ensures var s' := Apply(c, s, StartSet(request, coordinator, key, value, ttl, writtenAt));
      var owners := Elements(Owners(c, s.nodes[coordinator], key));
      && Keeps(c, s', steps, owners, key)
      && request in Run(c, s', steps).sets && Run(c, s', steps).sets[request].acked == owners
  {
    var start := StartSet(request, coordinator, key, value, ttl, writtenAt);
    var s', owners := Apply(c, s, start), Owners(c, s.nodes[coordinator], key);
    var puts := Shares(owners, key, value, ttl, writtenAt, request);
    StepInvariant(c, s, start);
    StartTracks(c, s, request, coordinator, key, value, ttl, writtenAt, {});
    forall p | p in puts ensures CanAck(s', request, p) && p.key == key {
      var i :| 0 <= i < |puts| && puts[i] == p;
      assert owners[i] in owners;
    }
    steps := AllAck(c, s', request, puts, key, Elements(owners), now);
    KeepsFewer(c, s', steps, Elements(owners), {}, key);
    RunTracks(c, s', steps, request, key, writtenAt, owners, {});
    hide Apply, Invariant, CanAck, Keeps, Run, Owners;
    var end := Run(c, s', steps);
    forall o ensures o in end.sets[request].acked <==> o in Elements(owners) {
      if o in owners {
        var i :| 0 <= i < |owners| && owners[i] == o;
        assert puts[i] in puts && puts[i].to == o;
      }
    }
  }

  // ---------- reads ----------

  /** A started read visits only `who`, and what it was answered or has hit is new enough. */
  ghost predicate ReadsFrom(s: State, request: nat, who: set<string>, key: string, writtenAt: int) {
    && request in s.gets && s.gets[request].key == key && Elements(s.gets[request].order) <= who
    && (s.gets[request].waiting.Some? ==> s.gets[request].waiting.value.item.writtenAt >= writtenAt)
    && (s.gets[request].hit.Some? ==> s.gets[request].hit.value.1.writtenAt >= writtenAt)
  }

  ghost predicate AllAtLeast(s: State, who: set<string>, key: string, writtenAt: int) {
    forall n :: n in who ==> AtLeast(s, n, key, writtenAt)
  }

  lemma ReadKept(c: Setup, s: State, step: Step, request: nat)
    requires request in s.gets
    ensures request in Apply(c, s, step).gets
    ensures var g, g' := s.gets[request], Apply(c, s, step).gets[request];
      && g'.coordinator == g.coordinator && g'.key == g.key && g'.owners == g.owners && g'.order == g.order
      && (g'.waiting.None? || g'.waiting == g.waiting ||
           (Reading(s, request) && Held(s, NextOwner(g), g.key) == Some(g'.waiting.value.item)))
      && (g'.hit == g.hit ||
           (g.waiting.Some? && g'.hit == Some((g.waiting.value.from, g.waiting.value.item))))
  {
    hide L.Set, L.Delete, L.Sweep, Repairs;
  }

  lemma StepReadsFrom(c: Setup, s: State, step: Step, request: nat, who: set<string>, key: string, writtenAt: int)
    requires ReadsFrom(s, request, who, key, writtenAt) && AllAtLeast(s, who, key, writtenAt)
    ensures ReadsFrom(Apply(c, s, step), request, who, key, writtenAt)
  {
    hide Apply;
    ReadKept(c, s, step, request);
    var g := s.gets[request];
    if Reading(s, request) {
      assert g.order[g.next] in Elements(g.order);
    }
  }

  lemma {:induction false} RunReadsFrom(c: Setup, s: State, steps: seq<Step>, request: nat, who: set<string>,
                                        key: string, writtenAt: int)
    requires Invariant(s) && ReadsFrom(s, request, who, key, writtenAt) && AllAtLeast(s, who, key, writtenAt)
    requires Keeps(c, s, steps, who, key)
    ensures ReadsFrom(Run(c, s, steps), request, who, key, writtenAt)
    ensures AllAtLeast(Run(c, s, steps), who, key, writtenAt)
  {
    hide Invariant, Apply, Removes, ReadsFrom, AtLeast;
    if steps != [] {
      var init, last := Init(steps), Last(steps);
      RunReadsFrom(c, s, init, request, who, key, writtenAt);
      RunInvariant(c, s, init);
      StepReadsFrom(c, Run(c, s, init), last, request, who, key, writtenAt);
      forall n | n in who ensures AtLeast(Run(c, s, steps), n, key, writtenAt) {
        StepKeepsAtLeast(c, Run(c, s, init), last, n, key, writtenAt);
      }
    }
  }

  /** Once every owner has the write or a newer one, a later read over those owners returns
      nothing older, whatever is lost, delayed, repeated or reordered meanwhile. */
  lemma LaterReadsAreFresh(c: Setup, s: State, request: nat, coordinator: string, key: string, writtenAt: int,
                           who: set<string>, steps: seq<Step>)
    requires Invariant(s) && AllAtLeast(s, who, key, writtenAt)
    requires request !in s.gets && coordinator in s.nodes
    requires Elements(Owners(c, s.nodes[coordinator], key)) <= who
    requires Keeps(c, Apply(c, s, StartGet(request, coordinator, key)), steps, who, key)
    ensures var end := Run(c, Apply(c, s, StartGet(request, coordinator, key)), steps);
      && request in end.gets
      && (end.gets[request].hit.Some? ==> end.gets[request].hit.value.1.writtenAt >= writtenAt)
  {
    var s' := Apply(c, s, StartGet(request, coordinator, key));
    N.PreferLocalVisitsOwners(Owners(c, s.nodes[coordinator], key), coordinator);
    StepInvariant(c, s, StartGet(request, coordinator, key));
    RunReadsFrom(c, s', steps, request, who, key, writtenAt);
  }

  /** Fully acked writes stay fresh. From the start of a SET on: once all its owners have
      acked, every later GET over those owners that hits returns that write or a newer one,
      provided no owner lost the key to a delete, an expiry, an eviction or a restart. */
  lemma FullyAckedWritesStayFresh(c: Setup, s0: State, setId: nat, from: string, key: string, value: string, ttl: int,
                                  writtenAt: int, before: seq<Step>, getId: nat, via: string, after: seq<Step>)
    requires Invariant(s0) && setId !in s0.sets && from in s0.nodes
    requires var owners := Elements(Owners(c, s0.nodes[from], key));
      var s1 := Apply(c, s0, StartSet(setId, from, key, value, ttl, writtenAt));
      var s2 := Run(c, s1, before);
      && Keeps(c, s1, before, owners, key)
      && setId in s2.sets && owners <= s2.sets[setId].acked
      && getId !in s2.gets && via in s2.nodes && Elements(Owners(c, s2.nodes[via], key)) <= owners
      && Keeps(c, Apply(c, s2, StartGet(getId, via, key)), after, owners, key)
    ensures var s1 := Apply(c, s0, StartSet(setId, from, key, value, ttl, writtenAt));
      var s2 := Run(c, s1, before);
      var end := Run(c, Apply(c, s2, StartGet(getId, via, key)), after);
      && getId in end.gets
      && (end.gets[getId].hit.Some? ==> end.gets[getId].hit.value.1.writtenAt >= writtenAt)
  {
    var start := StartSet(setId, from, key, value, ttl, writtenAt);
    var s1 := Apply(c, s0, start);
    var s2 := Run(c, s1, before);
    var owners := Elements(Owners(c, s0.nodes[from], key));
    StepInvariant(c, s0, start);
    RunInvariant(c, s1, before);
    hide Apply, Run, Invariant, Keeps, AtLeast;
    forall o | o in owners ensures AtLeast(s2, o, key, writtenAt) {
      KeepsFewer(c, s1, before, owners, {o}, key);
      AckMeansFresh(c, s0, setId, from, key, value, ttl, writtenAt, before, o);
    }
    LaterReadsAreFresh(c, s2, getId, via, key, writtenAt, owners, after);
  }

  // ---------- a join or a leave ----------

  /** The step completes a visit of the read: a miss, an answer received, or a failure. */
  predicate Visits(s: State, step: Step, request: nat) {
    match step
    case Read(r, served) =>
      r == request && Reading(s, r) &&
      L.Get(s.nodes[NextOwner(s.gets[r])].cache, s.gets[r].key, served).1.None?
    case Receive(r, received, sent) => r == request && Receiving(s, r, received, sent)
    case ReadFails(r, _) => r == request && Failing(s, r)
    case _ => false
  }

  ghost function VisitsIn(c: Setup, s: State, steps: seq<Step>, request: nat): nat {
    if steps == [] then 0
    else VisitsIn(c, s, Init(steps), request) + if Visits(Run(c, s, Init(steps)), Last(steps), request) then 1 else 0
  }

  /** The read has hit, or has visited every owner. */
  predicate Finished(g: GetRequest) {
    g.hit.Some? || g.next == |g.order|
  }

  /** The visits a read has completed. */
  function Made(g: GetRequest): nat {
    g.next + if g.hit.Some? then 1 else 0
  }

  lemma StepProgress(c: Setup, s: State, step: Step, request: nat)
    requires request in s.gets && Made(s.gets[request]) <= |s.gets[request].order|
    ensures var g, s' := s.gets[request], Apply(c, s, step);
      && request in s'.gets && s'.gets[request].order == g.order
      && Made(s'.gets[request]) == Made(g) + (if Visits(s, step, request) then 1 else 0)
      && Made(s'.gets[request]) <= |g.order|
  {
    hide L.Set, L.Delete, L.Sweep, Repairs;
  }

  /** Every visit takes a read one owner further, so that it is finished once it has completed as
      many visits as there are owners. */
  lemma {:induction false} RunProgress(c: Setup, s: State, steps: seq<Step>, request: nat)
    requires request in s.gets && s.gets[request].next == 0 && s.gets[request].hit.None?
    ensures var end := Run(c, s, steps);
      && request in end.gets && end.gets[request].order == s.gets[request].order
      && Made(end.gets[request]) == VisitsIn(c, s, steps, request) <= |s.gets[request].order|
      && (VisitsIn(c, s, steps, request) == |s.gets[request].order| ==> Finished(end.gets[request]))
  {
    hide Apply, Visits;
    if steps != [] {
      RunProgress(c, s, Init(steps), request);
      StepProgress(c, Run(c, s, Init(steps)), Last(steps), request);
    }
  }

  /** A read that is open and not finished can always complete its next visit, without a failure
      if it is one to a running node. */
  lemma ReadCanGoOn(c: Setup, s: State, request: nat) returns (steps: seq<Step>)
    requires Invariant(s) && Visiting(s, request) && s.gets[request].coordinator in s.nodes
    ensures VisitsIn(c, s, steps, request) == 1
    ensures NextOwner(s.gets[request]) in s.nodes ==> forall step :: step in steps ==> !step.ReadFails?
  {
    hide Apply, L.Get, Invariant, Run, VisitsIn;
    var g := s.gets[request];
    if g.waiting.Some? {
      steps := [] + [Receive(request, g.waiting.value.served, g.waiting.value.served)];
    } else if NextOwner(g) !in s.nodes {
      steps := [] + [ReadFails(request, None)];
    } else {
      steps := [] + [Read(request, 0)];
      if L.Get(s.nodes[NextOwner(g)].cache, g.key, 0).1.Some? {
        FindIsReceived(c, s, request);
        VisitSnoc(c, s, [], Read(request, 0), request);
        VisitSnoc(c, s, steps, Receive(request, 0, 0), request);
        steps := steps + [Receive(request, 0, 0)];
        return;
      }
    }
    VisitSnoc(c, s, [], steps[0], request);
  }

  lemma FindIsReceived(c: Setup, s: State, request: nat)
    requires Reading(s, request) && L.Get(s.nodes[NextOwner(s.gets[request])].cache, s.gets[request].key, 0).1.Some?
    ensures Receiving(Apply(c, s, Read(request, 0)), request, 0, 0)
  {
    hide L.Get;
  }

  lemma VisitSnoc(c: Setup, s: State, steps: seq<Step>, step: Step, request: nat)
    ensures Run(c, s, []) == s && VisitsIn(c, s, [], request) == 0
    ensures Run(c, s, steps + [step]) == Apply(c, Run(c, s, steps), step)
    ensures VisitsIn(c, s, steps + [step], request) ==
      VisitsIn(c, s, steps, request) + if Visits(Run(c, s, steps), step, request) then 1 else 0
  {
    assert Init(steps + [step]) == steps && Last(steps + [step]) == step;
  }

  /** The read ends in a hit: it is one when it is finished, and it is finished once it has
      made a visit for every owner. */
  ghost predicate EndsInHit(c: Setup, s: State, steps: seq<Step>, request: nat) {
    var end := Run(c, s, steps);
    && request in end.gets
    && (Finished(end.gets[request]) ==> end.gets[request].hit.Some?)
    && VisitsIn(c, s, steps, request) <= |end.gets[request].order|
    && (VisitsIn(c, s, steps, request) == |end.gets[request].order| ==> end.gets[request].hit.Some?)
  }

  /** The step fails a visit of the read to one of the nodes: it is down, marked or unreachable. */
  predicate FailsAt(s: State, step: Step, request: nat, who: set<string>) {
    step.ReadFails? && step.request == request && Failing(s, request) && NextOwner(s.gets[request]) in who
  }

  /** Whenever the read visits one of the nodes during the run, it gets an answer. */
  ghost predicate Answers(c: Setup, s: State, steps: seq<Step>, request: nat, who: set<string>) {
    steps == [] ||
    (Answers(c, s, Init(steps), request, who)
      && !FailsAt(Run(c, s, Init(steps)), Last(steps), request, who))
  }

  /** The read has hit, or has yet to visit the survivor, which has the key. */
  ghost predicate WillHit(s: State, request: nat, key: string, survivor: string, p: nat) {
    && request in s.gets && s.gets[request].key == key
    && p < |s.gets[request].order| && s.gets[request].order[p] == survivor
    && (s.gets[request].hit.Some? || s.gets[request].next <= p)
    && Held(s, survivor, key).Some?
  }

  lemma StepWillHit(c: Setup, s: State, step: Step, request: nat, key: string, survivor: string, p: nat)
    requires Invariant(s) && WillHit(s, request, key, survivor, p) && !Removes(c, s, step, survivor, key)
    requires !FailsAt(s, step, request, {survivor})
    ensures WillHit(Apply(c, s, step), request, key, survivor, p)
  {
    hide L.Get, L.Set, L.Delete, L.Sweep, L.Lookup, Repairs;
    var item := Held(s, survivor, key).value;
    StepKeepsAtLeast(c, s, step, survivor, key, item.writtenAt);
    if step.Read? && step.request == request && Reading(s, request) && s.gets[request].next == p {
      ReadHits(s.nodes[survivor].cache, key, step.served);
    }
  }

  /** A read that leaves the key in place is a hit. */
  lemma ReadHits(cache: L.Cache, key: string, now: int)
    requires L.WellFormed(cache) && L.Lookup(cache.items, key).Some?
    requires L.Lookup(L.Get(cache, key, now).0.items, key).Some?
    ensures L.Get(cache, key, now).1.Some?
  {
    T.StepLookup(cache, T.Event(T.GetOp(key), now), key);
  }

  lemma {:induction false} RunWillHit(c: Setup, s: State, steps: seq<Step>, request: nat, key: string,
                                      survivor: string, p: nat)
    requires Invariant(s) && WillHit(s, request, key, survivor, p)
    requires Keeps(c, s, steps, {survivor}, key) && Answers(c, s, steps, request, {survivor})
    ensures WillHit(Run(c, s, steps), request, key, survivor, p)
  {
    hide Invariant, Apply, Removes, WillHit, FailsAt;
    if steps != [] {
      var init, last := Init(steps), Last(steps);
      RunWillHit(c, s, init, request, key, survivor, p);
      RunInvariant(c, s, init);
      StepWillHit(c, Run(c, s, init), last, request, key, survivor, p);
    }
  }

  /** A read whose coordinator counts as an owner some node that has the key and answers cannot
      end in a miss, whatever the other owners do: once it has visited every owner it has hit. */
  lemma ReadFindsSurvivor(c: Setup, s: State, request: nat, coordinator: string, key: string, survivor: string,
                          steps: seq<Step>)
    requires Invariant(s) && request !in s.gets && coordinator in s.nodes
    requires survivor in Owners(c, s.nodes[coordinator], key) && Held(s, survivor, key).Some?
    requires Keeps(c, Apply(c, s, StartGet(request, coordinator, key)), steps, {survivor}, key)
    requires Answers(c, Apply(c, s, StartGet(request, coordinator, key)), steps, request, {survivor})
    ensures EndsInHit(c, Apply(c, s, StartGet(request, coordinator, key)), steps, request)
  {
    var s' := Apply(c, s, StartGet(request, coordinator, key));
    var owners := Owners(c, s.nodes[coordinator], key);
    N.PreferLocalVisitsOwners(owners, coordinator);
    assert survivor in Elements(owners);
    var p :| 0 <= p < |N.PreferLocal(owners, coordinator)| && N.PreferLocal(owners, coordinator)[p] == survivor;
    StepInvariant(c, s, StartGet(request, coordinator, key));
    RunWillHit(c, s', steps, request, key, survivor, p);
    RunProgress(c, s', steps, request);
  }

  /** With two or more replicas at the reader, a join leaves some old owner an owner. */
  lemma JoinKeepsAnOwner(c: Setup, members: set<string>, id: string, key: string, n: int, m: int)
    returns (survivor: string)
    requires c.vnodes >= 1 && n >= 1 && m >= 2 && members != {} && id !in members
    ensures survivor in R.OwnersOf(c, members, key, n) && survivor in R.OwnersOf(c, members + {id}, key, m)
  {
    assert members - (members + {id}) == {} && members + {id} - members == {id};
    assert members * (members + {id}) == members;
    survivor := R.OwnersOverlap(c, members, members + {id}, key, n, m);
  }

  /** With two or more replicas at the writer, a leave leaves some other old owner an owner. */
  lemma LeaveKeepsAnOwner(c: Setup, members: set<string>, id: string, key: string, n: int, m: int)
    returns (survivor: string)
    requires c.vnodes >= 1 && n >= 2 && m >= 1 && |members| >= 2 && id in members
    ensures survivor != id
    ensures survivor in R.OwnersOf(c, members, key, n) && survivor in R.OwnersOf(c, members - {id}, key, m)
  {
    assert |members - {id}| >= 1;
    assert members - (members - {id}) == {id} && members - {id} - members == {};
    assert members * (members - {id}) == members - {id};
    survivor := R.OwnersOverlap(c, members, members - {id}, key, n, m);
  }

  /** The change of membership is small enough for some owner to remain one: fewer members left
      than the writer had replicas, and fewer joined than the reader has. */
  predicate SmallChange(writer: NodeState, reader: NodeState) {
    && writer.members * reader.members != {}
    && |writer.members - reader.members| < writer.replicas
    && |reader.members - writer.members| < reader.replicas
  }

  /** What every owner of a key holds survives any small enough change of membership, joins and
      leaves together: a read at a node that knows the new members ends in a hit, if the old
      owners that remain keep the key and answer. Newcomers may do as they like. */
  lemma MembershipChangeSurvives(c: Setup, s: State, writer: NodeState, key: string, request: nat, coordinator: string,
                                 steps: seq<Step>)
    requires c.vnodes >= 1 && Invariant(s) && request !in s.gets && coordinator in s.nodes
    requires SmallChange(writer, s.nodes[coordinator])
    requires var remaining := Elements(Owners(c, writer, key)) * s.nodes[coordinator].members;
      && (forall o :: o in remaining ==> Held(s, o, key).Some?)
      && Keeps(c, Apply(c, s, StartGet(request, coordinator, key)), steps, remaining, key)
      && Answers(c, Apply(c, s, StartGet(request, coordinator, key)), steps, request, remaining)
    ensures EndsInHit(c, Apply(c, s, StartGet(request, coordinator, key)), steps, request)
  {
    hide Run, Apply, Invariant, Keeps, Answers, EndsInHit, R.OwnersOf;
    var reader := s.nodes[coordinator];
    var survivor := R.OwnersOverlap(c, writer.members, reader.members, key, writer.replicas, reader.replicas);
    var remaining := Elements(Owners(c, writer, key)) * reader.members;
    assert survivor in remaining;
    var s' := Apply(c, s, StartGet(request, coordinator, key));
    KeepsFewer(c, s', steps, remaining, {survivor}, key);
    AnswersFewer(c, s', steps, request, remaining, {survivor});
    ReadFindsSurvivor(c, s, request, coordinator, key, survivor, steps);
  }

  lemma {:induction false} KeepsFewer(c: Setup, s: State, steps: seq<Step>, who: set<string>, fewer: set<string>,
                                      key: string)
    requires Keeps(c, s, steps, who, key) && fewer <= who
    ensures Keeps(c, s, steps, fewer, key)
  {
    hide Apply, Removes;
    if steps != [] {
      KeepsFewer(c, s, Init(steps), who, fewer, key);
    }
  }

  lemma {:induction false} AnswersFewer(c: Setup, s: State, steps: seq<Step>, request: nat, who: set<string>,
                                        fewer: set<string>)
    requires Answers(c, s, steps, request, who) && fewer <= who
    ensures Answers(c, s, steps, request, fewer)
  {
    if steps != [] {
      AnswersFewer(c, s, Init(steps), request, who, fewer);
    }
  }

  /** One acked replica is enough to be found: whatever happens to the other owners, restarts
      and failures included, a later GET hits if its coordinator counts among the owners one
      that acked the SET, that has kept the key since, and that answers. */
  lemma AckedReplicaIsFound(c: Setup, s0: State, setId: nat, from: string, key: string, value: string, ttl: int,
                            writtenAt: int, before: seq<Step>, survivor: string, getId: nat, via: string,
                            after: seq<Step>)
    requires Invariant(s0) && setId !in s0.sets && from in s0.nodes
    requires var s1 := Apply(c, s0, StartSet(setId, from, key, value, ttl, writtenAt));
      var s2 := Run(c, s1, before);
      && Keeps(c, s1, before, {survivor}, key)
      && setId in s2.sets && survivor in s2.sets[setId].acked
      && getId !in s2.gets && via in s2.nodes && survivor in Owners(c, s2.nodes[via], key)
      && Keeps(c, Apply(c, s2, StartGet(getId, via, key)), after, {survivor}, key)
      && Answers(c, Apply(c, s2, StartGet(getId, via, key)), after, getId, {survivor})
    ensures var s1 := Apply(c, s0, StartSet(setId, from, key, value, ttl, writtenAt));
      EndsInHit(c, Apply(c, Run(c, s1, before), StartGet(getId, via, key)), after, getId)
  {
    var start := StartSet(setId, from, key, value, ttl, writtenAt);
    var s1 := Apply(c, s0, start);
    StepInvariant(c, s0, start);
    RunInvariant(c, s1, before);
    AckMeansFresh(c, s0, setId, from, key, value, ttl, writtenAt, before, survivor);
    hide Apply, Run, Invariant, Keeps, Answers;
    ReadFindsSurvivor(c, Run(c, s1, before), getId, via, key, survivor, after);
  }

  /** A fully acked write survives any small enough change of membership: after a SET acked by all
      its owners, GETs at a coordinator that has learnt of the change end in a hit, if the old
      owners that remain keep the key and answer. */
  lemma AckedWriteSurvivesChange(c: Setup, s0: State, setId: nat, from: string, key: string, value: string, ttl: int,
                                 writtenAt: int, before: seq<Step>, getId: nat, via: string, after: seq<Step>)
    requires c.vnodes >= 1 && Invariant(s0) && setId !in s0.sets && from in s0.nodes
    requires var owners := Elements(Owners(c, s0.nodes[from], key));
      var s1 := Apply(c, s0, StartSet(setId, from, key, value, ttl, writtenAt));
      var s2 := Run(c, s1, before);
      && setId in s2.sets && owners <= s2.sets[setId].acked
      && getId !in s2.gets && via in s2.nodes && SmallChange(s0.nodes[from], s2.nodes[via])
      && var remaining := owners * s2.nodes[via].members;
      && Keeps(c, s1, before, remaining, key)
      && Keeps(c, Apply(c, s2, StartGet(getId, via, key)), after, remaining, key)
      && Answers(c, Apply(c, s2, StartGet(getId, via, key)), after, getId, remaining)
    ensures var s1 := Apply(c, s0, StartSet(setId, from, key, value, ttl, writtenAt));
      EndsInHit(c, Apply(c, Run(c, s1, before), StartGet(getId, via, key)), after, getId)
  {
    var start := StartSet(setId, from, key, value, ttl, writtenAt);
    var s1 := Apply(c, s0, start);
    var s2 := Run(c, s1, before);
    StepInvariant(c, s0, start);
    RunInvariant(c, s1, before);
    var remaining := Elements(Owners(c, s0.nodes[from], key)) * s2.nodes[via].members;
    hide Apply, Run, Invariant, Keeps, Answers, EndsInHit, Owners;
    forall o | o in remaining ensures Held(s2, o, key).Some? {
      KeepsFewer(c, s1, before, remaining, {o}, key);
      AckMeansFresh(c, s0, setId, from, key, value, ttl, writtenAt, before, o);
    }
    MembershipChangeSurvives(c, s2, s0.nodes[from], key, getId, via, after);
  }

  /** No node, no message, no request: every deployment starts here, and its nodes boot. */
  const NOTHING := State(map[], {}, {}, map[], map[])

  /** So the invariant holds in every run of every deployment; a node that has just booted is
      empty and knows the members it was given. */
  lemma EveryDeploymentIsSound(c: Setup, steps: seq<Step>, node: string, capacity: nat, members: set<string>,
                               replicas: int)
    requires capacity >= 1
    ensures Invariant(Run(c, NOTHING, steps))
    ensures var s := Run(c, NOTHING, steps);
      node !in s.nodes ==>
        var s' := Apply(c, s, Boot(node, capacity, members, replicas));
        s'.nodes[node] == NodeState(L.Cache(capacity, [], L.NO_STATS), members, replicas) && Invariant(s')
  {
    RunInvariant(c, NOTHING, steps);
    StepInvariant(c, Run(c, NOTHING, steps), Boot(node, capacity, members, replicas));
  }

  /** Deletes are not final: there are no tombstones, so any write still on its way brings the
      key back, however old it is. */
  lemma LateWriteUndoesDelete(c: Setup, s: State, put: Put, now: int)
    requires Invariant(s) && put in s.puts && put.to in s.nodes
    ensures var deleted := Apply(c, s, DeleteAt(put.to, put.key));
      && Held(deleted, put.to, put.key).None?
      && Held(Apply(c, deleted, Deliver(put, now)), put.to, put.key)
         == Some(L.NewItem(put.key, put.value, put.ttl, put.writtenAt, now))
  {
    var deleted := Apply(c, s, DeleteAt(put.to, put.key));
    StepInvariant(c, s, DeleteAt(put.to, put.key));
    T.StepLookup(s.nodes[put.to].cache, T.Event(T.DeleteOp(put.key), 0), put.key);
    var late := T.Event(T.SetOp(put.key, put.value, put.ttl, put.writtenAt), now);
    T.StepLookup(deleted.nodes[put.to].cache, late, put.key);
  }

  // ---------- what happens around the requests ----------

  /** A restart loses everything the node held, and touches no other. */
  lemma RestartLosesAll(c: Setup, s: State, node: string, other: string, key: string)
    requires node in s.nodes && other != node
    ensures Held(Apply(c, s, Restart(node)), node, key) == None
    ensures Held(Apply(c, s, Restart(node)), other, key) == Held(s, other, key)
  {
  }

  /** A sweep loses what has run out by then, and touches no other node. */
  lemma SweepLosesExpired(c: Setup, s: State, node: string, other: string, key: string, now: int)
    requires Invariant(s) && node in s.nodes && other != node
    ensures Held(Apply(c, s, SweepAt(node, now)), other, key) == Held(s, other, key)
    ensures var held := Held(s, node, key);
      Held(Apply(c, s, SweepAt(node, now)), node, key) ==
        if held.Some? && held.value.expiresAt.Some? && held.value.expiresAt.value <= now then None else held
  {
    T.StepLookup(s.nodes[node].cache, T.Event(T.SweepOp, now), key);
    hide L.Sweep, L.Lookup;
  }

  /** A delete loses its key, and nothing else. */
  lemma DeleteLosesItsKey(c: Setup, s: State, node: string, other: string, deleted: string, key: string)
    requires Invariant(s) && node in s.nodes && other != node
    ensures Held(Apply(c, s, DeleteAt(node, deleted)), other, key) == Held(s, other, key)
    ensures Held(Apply(c, s, DeleteAt(node, deleted)), node, key) == if key == deleted then None else Held(s, node, key)
  {
    T.StepLookup(s.nodes[node].cache, T.Event(T.DeleteOp(deleted), 0), key);
    hide L.Delete, L.Lookup;
  }

  /** A message that the network has forgotten is not delivered any more; a read that its client
      has given up goes no further. */
  lemma EndsAre(c: Setup, s: State, put: Put, now: int, request: nat, step: Step)
    requires request in s.gets
    ensures Apply(c, Apply(c, s, Forget(put)), Deliver(put, now)) == Apply(c, s, Forget(put))
    ensures !Visits(Apply(c, s, Abandon(request)), step, request)
    ensures !RepairsToCome(Apply(c, s, Abandon(request)).gets[request])
  {
    hide L.Get, L.Set, L.Delete, L.Sweep, Repairs;
  }

  // ---------- when a delete is final ----------

  /** No node holds the key. */
  ghost predicate Nowhere(s: State, key: string) {
    forall n :: Held(s, n, key).None?
  }

  /** The coordinator has been answered with an item and has yet to repair another owner. An own
      item that had less than a millisecond left when it was read is not sent on. */
  predicate RepairsToCome(g: GetRequest) {
    && g.open && g.hit.None? && g.next < |g.order| && g.waiting.Some?
    && (exists o :: o in g.owners && o != g.waiting.value.from)
    && var find := g.waiting.value;
    find.from == g.coordinator && find.item.expiresAt.Some? ==>
      find.item.expiresAt.value - find.served >= N.MILLISECOND
  }

  /** A write of the key may still be delivered, or a read of it still be repaired. */
  ghost predicate OnTheWay(s: State, key: string) {
    || (exists p :: p in s.puts && p.key == key)
    || (exists r :: r in s.gets && s.gets[r].key == key && RepairsToCome(s.gets[r]))
  }

  predicate NoNewSet(steps: seq<Step>, key: string) {
    forall step :: step in steps ==> !(step.StartSet? && step.key == key)
  }

  lemma RepairsAreForTheKey(g: GetRequest, servedBy: string, item: L.Item, served: int, received: int, sent: int)
    ensures forall p :: p in Repairs(g, servedBy, item, served, received, sent) ==> p.key == g.key
  {
    N.RepairsReachTheOthers(g.owners, servedBy, g.key, AsReceived(g, servedBy, item, served, received), sent);
  }

  /** Exactly when repairs are to come can dealing with the find send any. */
  lemma RepairsCome(g: GetRequest, received: int, sent: int)
    requires g.open && g.hit.None? && g.next < |g.order| && g.waiting.Some? && received <= sent
    requires g.waiting.value.from == g.coordinator ==> g.waiting.value.served <= received
    ensures var find := g.waiting.value;
      var repairs := Repairs(g, find.from, find.item, find.served, received, sent);
      && (!RepairsToCome(g) ==> repairs == {})
      && (RepairsToCome(g) && received == sent == find.served ==> repairs != {})
  {
    var find := g.waiting.value;
    var seen := AsReceived(g, find.from, find.item, find.served, received);
    N.RepairsReachTheOthers(g.owners, find.from, g.key, seen, sent);
    if seen.expiresAt.Some? { N.MillisecondsBound(seen.expiresAt.value - sent); }
    var ws := N.RepairWrites(g.owners, find.from, g.key, seen, sent);
    if ws != [] {
      assert ws[0] in ws;
    }
    if RepairsToCome(g) && received == sent == find.served {
      var o :| o in g.owners && o != find.from;
      StillAlive(g, find, received);
      var w :| w in ws && w.to == o;
      var repairs := Repairs(g, find.from, find.item, find.served, received, sent);
      assert Put(w.to, w.key, w.value, w.ttl, w.writtenAt, None) in repairs;
    }
  }

  lemma StillAlive(g: GetRequest, find: Found, now: int)
    requires find.from == g.coordinator && find.item.expiresAt.Some? ==>
      find.item.expiresAt.value - find.served >= N.MILLISECOND
    requires now == find.served
    ensures var seen := AsReceived(g, find.from, find.item, find.served, now);
      seen.expiresAt.None? || seen.expiresAt.value - now >= N.MILLISECOND
  {
  }

  /** The only new messages are those of a SET, and the repairs of an answered read. */
  lemma NewPuts(c: Setup, s: State, step: Step, p: Put)
    requires p in Apply(c, s, step).puts && p !in s.puts
    ensures (step.StartSet? && p.key == step.key) ||
            exists r :: r in s.gets && s.gets[r].key == p.key && RepairsToCome(s.gets[r])
  {
    hide L.Get, L.Set, L.Delete, L.Sweep, RepairsToCome, Repairs;
    if step.Receive? {
      var g := s.gets[step.request];
      var find := g.waiting.value;
      RepairsAreForTheKey(g, find.from, find.item, find.served, step.received, step.sent);
      RepairsCome(g, step.received, step.sent);
    }
  }

  lemma StepStaysGone(c: Setup, s: State, step: Step, key: string)
    requires Invariant(s) && Nowhere(s, key) && !OnTheWay(s, key) && !(step.StartSet? && step.key == key)
    ensures Nowhere(Apply(c, s, step), key) && !OnTheWay(Apply(c, s, step), key)
  {
    hide Apply, RepairsToCome;
    var s' := Apply(c, s, step);
    if p :| p in s'.puts && p.key == key && p !in s.puts {
      NewPuts(c, s, step, p);
    }
    forall r | r in s'.gets && s'.gets[r].key == key ensures !RepairsToCome(s'.gets[r]) {
      NoNewFind(c, s, step, r, key);
    }
    forall n ensures Held(s', n, key).None? {
      assert Held(s, n, key).None?;
      if n in s.nodes {
        var e := CacheEffect(c, s, step, n);
        if e.Some? { T.StepLookup(s.nodes[n].cache, e.value, key); }
      } else if n in s'.nodes {
        NewNodes(c, s, step, n);
      }
    }
  }

  lemma NoNewFind(c: Setup, s: State, step: Step, r: nat, key: string)
    requires Nowhere(s, key) && r in Apply(c, s, step).gets && Apply(c, s, step).gets[r].key == key
    requires r in s.gets && s.gets[r].key == key ==> !RepairsToCome(s.gets[r])
    ensures !RepairsToCome(Apply(c, s, step).gets[r])
  {
    hide L.Set, L.Delete, L.Sweep, Repairs;
    if step.Read? && step.request == r && Reading(s, r) {
      assert Held(s, NextOwner(s.gets[r]), key).None?;
    }
  }

  lemma {:induction false} RunStaysGone(c: Setup, s: State, steps: seq<Step>, key: string)
    requires Invariant(s) && Nowhere(s, key) && !OnTheWay(s, key) && NoNewSet(steps, key)
    ensures Nowhere(Run(c, s, steps), key) && !OnTheWay(Run(c, s, steps), key)
  {
    hide Apply, Invariant, Nowhere, OnTheWay;
    if steps != [] {
      assert Last(steps) in steps && forall step :: step in Init(steps) ==> step in steps;
      RunStaysGone(c, s, Init(steps), key);
      RunInvariant(c, s, Init(steps));
      StepStaysGone(c, Run(c, s, Init(steps)), Last(steps), key);
    }
  }

  /** A write that is still on its way can bring the key back without a new SET. */
  lemma WriteComesBack(c: Setup, s: State, before: seq<Step>, put: Put) returns (steps: seq<Step>)
    requires Invariant(s) && NoNewSet(before, put.key) && put in Run(c, s, before).puts
    ensures NoNewSet(steps, put.key) && Held(Run(c, s, steps), put.to, put.key).Some?
  {
    var boot, deliver := Boot(put.to, 1, {}, 1), Deliver(put, 0);
    var s' := Run(c, s, before);
    RunInvariant(c, s, before);
    steps := before;
    if put.to !in s'.nodes {
      RunSnoc(c, s, before, boot);
      StepInvariant(c, s', boot);
      s' := Apply(c, s', boot);
      steps := before + [boot];
    }
    DeliveredIsAtLeast(c, s', put, 0);
    RunSnoc(c, s, steps, deliver);
    steps := steps + [deliver];
  }

  /** A read that has been answered and is still to be repaired can bring the key back. */
  lemma FindComesBack(c: Setup, s: State, request: nat) returns (to: string, steps: seq<Step>)
    requires Invariant(s) && request in s.gets && RepairsToCome(s.gets[request])
    ensures NoNewSet(steps, s.gets[request].key) && Held(Run(c, s, steps), to, s.gets[request].key).Some?
  {
    var g := s.gets[request];
    var find := g.waiting.value;
    var receive := Receive(request, find.served, find.served);
    RepairsCome(g, find.served, find.served);
    RepairsAreForTheKey(g, find.from, find.item, find.served, find.served, find.served);
    hide RepairsToCome, Repairs, Invariant;
    var put :| put in Repairs(g, find.from, find.item, find.served, find.served, find.served);
    RunSnoc(c, s, [], receive);
    to := put.to;
    steps := WriteComesBack(c, s, [] + [receive], put);
  }

  /** When a delete is final: once no node holds the key, no run without a new SET of it ever
      brings it back if, and only if, no write of the key is still on its way and no read of it
      has been answered and is still to be repaired. */
  lemma DeleteIsFinalExactly(c: Setup, s: State, key: string)
    requires Invariant(s) && Nowhere(s, key)
    ensures (forall steps :: NoNewSet(steps, key) ==> Nowhere(Run(c, s, steps), key)) <==> !OnTheWay(s, key)
  {
    hide Apply, Invariant, NoNewSet, RepairsToCome;
    if put :| put in s.puts && put.key == key {
      RunSnoc(c, s, [], Forget(put));
      NoSteps(key);
      var steps := WriteComesBack(c, s, [], put);
      assert !Nowhere(Run(c, s, steps), key);
    } else if r :| r in s.gets && s.gets[r].key == key && RepairsToCome(s.gets[r]) {
      var to, steps := FindComesBack(c, s, r);
      assert !Nowhere(Run(c, s, steps), key);
    } else {
      forall steps | NoNewSet(steps, key) ensures Nowhere(Run(c, s, steps), key) {
        RunStaysGone(c, s, steps, key);
      }
    }
  }

  lemma NoSteps(key: string)
    ensures NoNewSet([], key)
  {
  }
}
