/** Rate limiting across the cluster: any coordinator takes a request, and the key's primary
    owns the bucket. */
module RateLimitCluster {
  import opened Seqs
  import B = BucketModel
  import M = LimiterModel
  import R = RingModel
  import T = LimiterTraces

  type Nodes = map<string, M.Limiter>

  datatype Step =
    /** A take for `key` at a coordinator that knows `members`; `arrives` is false when the
        forward to the primary fails. */
    | TakeVia(members: set<string>, key: string, req: B.LimitedRequest, arrives: bool)
    | SweepAt(node: string, now: real)

  /** The node that applies a take: the first owner of the key. */
  ghost function Target(ring: R.Config, step: Step): Option<string>
    requires step.TakeVia?
  {
    var o := R.OwnersOf(ring, step.members, step.key, 1);
    if o == [] || !step.arrives then None else Some(o[0])
  }

  /** What a step does at one node, if anything. */
  ghost function OpsAt(ring: R.Config, step: Step, node: string): seq<M.Op> {
    match step
    case TakeVia(_, key, req, _) => if Target(ring, step) == Some(node) then [M.TakeOp(key, req)] else []
    case SweepAt(n, now) => if n == node then [M.SweepOp(now)] else []
  }

  ghost function Apply(ring: R.Config, s: Nodes, step: Step): Nodes {
    map n | n in s :: M.Run(s[n], OpsAt(ring, step, n))
  }

  ghost function Run(ring: R.Config, s: Nodes, steps: seq<Step>): Nodes {
    if steps == [] then s else Apply(ring, Run(ring, s, Init(steps)), Last(steps))
  }

  /** The cost of a step's take on `key`, if it is allowed, wherever it is applied. */
  ghost function StepSpent(ring: R.Config, s: Nodes, step: Step, key: string): real {
    if step.TakeVia? && step.key == key && Target(ring, step).Some? && Target(ring, step).value in s
    then M.Grant(s[Target(ring, step).value], M.TakeOp(key, step.req), key) else 0.0
  }

  /** All that the cluster allowed for a key. */
  ghost function Spent(ring: R.Config, s: Nodes, steps: seq<Step>, key: string): real {
    if steps == [] then 0.0
    else Spent(ring, s, Init(steps), key) + StepSpent(ring, Run(ring, s, Init(steps)), Last(steps), key)
  }

  /** What the steps do at one node. */
  ghost function Ops(ring: R.Config, steps: seq<Step>, node: string): seq<M.Op> {
    if steps == [] then [] else Ops(ring, Init(steps), node) + OpsAt(ring, Last(steps), node)
  }

  ghost predicate SameMembers(steps: seq<Step>, members: set<string>) {
    forall step :: step in steps && step.TakeVia? ==> step.members == members
  }

  lemma SnocOps(l: M.Limiter, ops: seq<M.Op>, more: seq<M.Op>, key: string)
    requires |more| <= 1
    ensures M.Run(l, ops + more) == M.Run(M.Run(l, ops), more)
    ensures M.Granted(l, ops + more, key) ==
      M.Granted(l, ops, key) + if more == [] then 0.0 else M.Grant(M.Run(l, ops), more[0], key)
  {
    if more == [] {
      assert ops + more == ops;
    } else {
      assert ops + more == ops + [more[0]];
      M.Snoc(l, ops, more[0]);
      M.Snoc(M.Run(l, ops), [], more[0]);
      M.NothingYet(M.Run(l, ops));
      assert [] + [more[0]] == more;
    }
  }

  /** While all coordinators know the same members, every take on a key lands on one node, and
      what the cluster allows is what that node allows. */
  lemma {:induction false} OneBucketPerKey(ring: R.Config, s: Nodes, steps: seq<Step>, members: set<string>,
                                           key: string, primary: string)
    requires SameMembers(steps, members)
    requires R.OwnersOf(ring, members, key, 1) == [primary] && primary in s
    ensures primary in Run(ring, s, steps)
    ensures Run(ring, s, steps)[primary] == M.Run(s[primary], Ops(ring, steps, primary))
    ensures Spent(ring, s, steps, key) == M.Granted(s[primary], Ops(ring, steps, primary), key)
  {
    hide M.Run, M.Granted, M.Take;
    if steps == [] {
      M.NothingYet(s[primary]);
    } else {
      var init, step := Init(steps), Last(steps);
      assert step in steps && forall x :: x in init ==> x in steps;
      OneBucketPerKey(ring, s, init, members, key, primary);
      SnocOps(s[primary], Ops(ring, init, primary), OpsAt(ring, step, primary), key);
    }
  }

  /** So the cluster as a whole enforces the limit: with equal membership everywhere, a clock
      that never goes back, and a bucket that is not dropped meanwhile, the takes allowed
      through all coordinators together cost at most the first burst plus the rates in force
      over time. */
  lemma ClusterIsLimited(ring: R.Config, s: Nodes, steps: seq<Step>, members: set<string>, key: string,
                         primary: string, clock: real)
    requires SameMembers(steps, members)
    requires R.OwnersOf(ring, members, key, 1) == [primary] && primary in s
    requires M.Listing(s[primary]) && key !in s[primary].items
    requires M.Proper(clock, Ops(ring, steps, primary))
    requires M.Uninterrupted(s[primary], Ops(ring, steps, primary), key)
    ensures var rs := M.Incarnation(s[primary], Ops(ring, steps, primary), key);
      if rs == [] then Spent(ring, s, steps, key) == 0.0
      else Spent(ring, s, steps, key) <= rs[0].burst + B.Accrued(M.FirstBucket(rs), rs)
  {
    var l, ops := s[primary], Ops(ring, steps, primary);
    OneBucketPerKey(ring, s, steps, members, key, primary);
    M.GrantedByOneBucket(l, ops, key);
    if key in M.Run(l, ops).items {
      M.IncarnationIsLimited(l, ops, key, clock);
    }
  }

  /** And idle sweeps do not loosen the limit if every take that finds its bucket idle for longer
      than the TTL also finds it refilled: with room for the keys, the takes allowed through all
      coordinators together, over all the buckets the key had, cost at most the first burst plus
      the rates in force over time. */
  lemma ClusterIsLimitedAcrossSweeps(ring: R.Config, s: Nodes, steps: seq<Step>, members: set<string>, key: string,
                                     primary: string, clock: real, keys: set<string>)
    requires SameMembers(steps, members)
    requires R.OwnersOf(ring, members, key, 1) == [primary] && primary in s
    requires s[primary] == M.Empty(s[primary].capacity, s[primary].idleTTL)
    requires 1 <= s[primary].capacity && |keys| <= s[primary].capacity
    requires var ops := Ops(ring, steps, primary);
      && M.Proper(clock, ops) && T.TakesWithin(keys, ops)
      && T.RefilledAcrossGaps(s[primary], T.Takes(ops))
    ensures var rs := T.RequestsFor(Ops(ring, steps, primary), key);
      if rs == [] then Spent(ring, s, steps, key) == 0.0
      else Spent(ring, s, steps, key) <= rs[0].burst + B.Accrued(M.FirstBucket(rs), rs)
  {
    hide M.Granted, M.Proper, M.Run, T.RefilledAcrossGaps, T.RequestsFor, B.Accrued, T.Takes;
    hide Spent, Ops, SameMembers, Run, R.OwnersOf;
    OneBucketPerKey(ring, s, steps, members, key, primary);
    T.LimitHoldsAcrossSweeps(s[primary].capacity, s[primary].idleTTL, keys, clock, Ops(ring, steps, primary), key);
  }
}
