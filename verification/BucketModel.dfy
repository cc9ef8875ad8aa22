/** The token bucket over the reals: tokens, tokens per second, and times in seconds. */
module BucketModel {
  import opened Seqs

  datatype Bucket = Bucket(tokens: real, lastRefill: real, rate: real, burst: real)

  datatype Result = Result(allowed: bool, remaining: real, retryAfterMs: int)

  const MAX_INT32 := 0x7fff_ffff

  function RMin(a: real, b: real): real {
    if a < b then a else b
  }

  function RMax(a: real, b: real): real {
    if a < b then b else a
  }

  /** The tokens a rate brings in from t0 to t1. */
  function Earned(t0: real, t1: real, rate: real): real {
    (t1 - t0) * rate
  }

  function Ceil(x: real): int {
    -((-x).Floor)
  }

  /** A bucket starts full; negative limits count as zero. */
  function New(rate: real, burst: real, now: real): Bucket {
    Bucket(RMax(burst, 0.0), now, RMax(rate, 0.0), RMax(burst, 0.0))
  }

  function Refill(b: Bucket, now: real): Bucket {
    if b.rate <= 0.0 then b.(lastRefill := now)
    else if now - b.lastRefill <= 0.0 then b
    else b.(tokens := RMin(b.burst, b.tokens + Earned(b.lastRefill, now, b.rate)), lastRefill := now)
  }

  function RetryAfterMs(tokens: real, cost: real, rate: real, burst: real): int {
    if cost > burst && tokens >= burst then MAX_INT32
    else
      var deficit := (if cost > burst then burst else cost) - tokens;
      if deficit <= 0.0 then 0
      else if rate <= 0.0 then MAX_INT32
      else Max(Ceil(deficit / rate * 1000.0), 1)
  }

  /** Refill lazily, then pay `cost` if the bucket can. */
  function Take(b: Bucket, now: real, cost: real): (Bucket, Result) {
    var c := RMax(cost, 0.0);
    var full := Refill(b, now);
    if c <= full.burst && full.tokens >= c then
      (full.(tokens := full.tokens - c), Result(true, full.tokens - c, 0))
    else
      (full, Result(false, full.tokens, RetryAfterMs(full.tokens, c, full.rate, full.burst)))
  }

  /** The balance is never negative and never above the burst. */
  ghost predicate Sound(b: Bucket) {
    0.0 <= b.tokens <= b.burst && b.rate >= 0.0
  }

  lemma MulMonotone(a: real, b: real, r: real)
    requires a <= b && r >= 0.0
    ensures a * r <= b * r
  {
    assert (b - a) * r >= 0.0;
  }

  lemma EarnedAdds(t0: real, t1: real, t2: real, rate: real)
    ensures Earned(t0, t2, rate) == Earned(t0, t1, rate) + Earned(t1, t2, rate)
    ensures rate == 0.0 || t0 == t1 ==> Earned(t0, t1, rate) == 0.0
    ensures t0 <= t1 && rate >= 0.0 ==> Earned(t0, t1, rate) >= 0.0
  {
  }

  lemma EarnedIs(t0: real, t1: real, rate: real)
    ensures Earned(t0, t1, rate) == (t1 - t0) * rate
  {
  }

  lemma RefillSound(b: Bucket, now: real)
    requires Sound(b)
    ensures Sound(Refill(b, now)) && Refill(b, now).tokens >= b.tokens
    ensures Refill(b, now).rate == b.rate && Refill(b, now).burst == b.burst
  {
    hide Earned;
    EarnedAdds(b.lastRefill, now, now, b.rate);
  }

  lemma TakeSound(b: Bucket, now: real, cost: real)
    requires Sound(b)
    ensures Sound(Take(b, now, cost).0)
    ensures Take(b, now, cost).0.rate == b.rate && Take(b, now, cost).0.burst == b.burst
  {
    RefillSound(b, now);
  }

  // ---------- what a take answers and leaves ----------

  function Least(a: real, b: real): (r: real)
    ensures (r == a || r == b) && r <= a && r <= b
  {
    if a <= b then a else b
  }

  function NotNegative(a: real): (r: real)
    ensures r >= 0.0 && r >= a && (r == a || r == 0.0)
  {
    if a <= 0.0 then 0.0 else a
  }

  /** What a bucket holds by a time: its tokens and what it has earned since, up to the burst. A
      clock that has gone back earns nothing. */
  function Balance(b: Bucket, now: real): real {
    Least(b.tokens + NotNegative(now - b.lastRefill) * b.rate, b.burst)
  }

  lemma RefillIsBalance(b: Bucket, now: real)
    requires Sound(b)
    ensures Refill(b, now).tokens == Balance(b, now)
    ensures Refill(b, now).lastRefill == if b.rate == 0.0 || b.lastRefill <= now then now else b.lastRefill
  {
    EarnedIs(b.lastRefill, now, b.rate);
    Idle(b.rate);
  }

  /** A take is allowed exactly when the balance with what has been earned since, up to the burst,
      covers the cost; it then leaves the rest, and reports what it leaves. A negative cost is
      free. */
  lemma TakeExactly(b: Bucket, now: real, cost: real)
    requires Sound(b)
    ensures var (c, res) := Take(b, now, cost);
      var balance := Balance(b, now);
      && (res.allowed <==> NotNegative(cost) <= balance)
      && c.tokens == (if res.allowed then balance - NotNegative(cost) else balance)
      && res.remaining == c.tokens && (res.allowed ==> res.retryAfterMs == 0)
      && c.lastRefill == (if b.rate == 0.0 || b.lastRefill <= now then now else b.lastRefill)
  {
    hide RetryAfterMs, Balance, Refill;
    RefillIsBalance(b, now);
    RefillSound(b, now);
  }

  lemma Idle(rate: real)
    ensures 0.0 * rate == 0.0
  {
  }

  /** A new bucket can pay up to its burst at once. */
  lemma NewBucketPays(rate: real, burst: real, now: real, cost: real)
    ensures var (c, res) := Take(New(rate, burst, now), now, cost);
      && (res.allowed <==> NotNegative(cost) <= NotNegative(burst))
      && res.remaining == c.tokens
      && c.tokens == (if res.allowed then NotNegative(burst) - NotNegative(cost) else NotNegative(burst))
  {
    hide Take;
    TakeExactly(New(rate, burst, now), now, cost);
    Idle(New(rate, burst, now).rate);
  }

  // ---------- runs of one bucket ----------

  datatype Request = Request(now: real, cost: real)

  function Run(b: Bucket, rs: seq<Request>): Bucket {
    if rs == [] then b else Take(Run(b, Init(rs)), Last(rs).now, Last(rs).cost).0
  }

  function ResultOf(b: Bucket, rs: seq<Request>): Result
    requires rs != []
  {
    Take(Run(b, Init(rs)), Last(rs).now, Last(rs).cost).1
  }

  /** The total cost of the allowed takes. */
  function Spent(b: Bucket, rs: seq<Request>): real {
    if rs == [] then 0.0
    else Spent(b, Init(rs)) + if ResultOf(b, rs).allowed then RMax(Last(rs).cost, 0.0) else 0.0
  }

  /** The latest clock reading of a run, which may step backwards. */
  function Latest(start: real, rs: seq<Request>): real {
    if rs == [] then start else RMax(Latest(start, Init(rs)), Last(rs).now)
  }

  /** One take: what it spends and leaves is covered by what was there and what was earned. */
  lemma TakeIsCovered(b: Bucket, now: real, cost: real)
    requires Sound(b)
    ensures var (c, r) := Take(b, now, cost);
      && Sound(c) && c.rate == b.rate && c.burst == b.burst
      && (b.rate > 0.0 ==> c.lastRefill == RMax(b.lastRefill, now))
      && (if r.allowed then RMax(cost, 0.0) else 0.0) + c.tokens
           <= b.tokens + Earned(b.lastRefill, RMax(b.lastRefill, now), b.rate)
  {
    hide Earned;
    RefillSound(b, now);
    EarnedAdds(b.lastRefill, RMax(b.lastRefill, now), now, b.rate);
  }

  /** The account of a bucket: what was spent and what is left never exceed what it had plus
      the rate times the time it has seen. Any costs, any clock. */
  lemma {:induction false} SpentIsBounded(b: Bucket, rs: seq<Request>)
    requires Sound(b)
    ensures Sound(Run(b, rs)) && Run(b, rs).rate == b.rate && Run(b, rs).burst == b.burst
    ensures b.rate > 0.0 ==> Run(b, rs).lastRefill == Latest(b.lastRefill, rs)
    ensures Spent(b, rs) + Run(b, rs).tokens <= b.tokens + Earned(b.lastRefill, Latest(b.lastRefill, rs), b.rate)
  {
    hide Earned, Take, RetryAfterMs;
    if rs == [] {
      EarnedAdds(b.lastRefill, b.lastRefill, b.lastRefill, b.rate);
    } else {
      SpentIsBounded(b, Init(rs));
      var c, now, cost := Run(b, Init(rs)), Last(rs).now, Last(rs).cost;
      TakeIsCovered(c, now, cost);
      var t0 := Latest(b.lastRefill, Init(rs));
      EarnedAdds(b.lastRefill, t0, RMax(t0, now), b.rate);
      EarnedAdds(t0, RMax(t0, now), now, b.rate);
      EarnedAdds(c.lastRefill, RMax(c.lastRefill, now), now, b.rate);
    }
  }

  /** The limit: a new bucket allows at most burst + rate * time, whatever is asked of it. */
  lemma NewBucketBound(rate: real, burst: real, created: real, rs: seq<Request>)
    requires rate >= 0.0 && burst >= 0.0
    ensures Spent(New(rate, burst, created), rs) <= burst + (Latest(created, rs) - created) * rate
  {
    hide Spent, Latest, Run, Earned;
    SpentIsBounded(New(rate, burst, created), rs);
    EarnedIs(created, Latest(created, rs), rate);
  }

  ghost predicate Ascending(start: real, rs: seq<Request>) {
    rs == [] || (Ascending(start, Init(rs)) && Latest(start, Init(rs)) <= Last(rs).now)
  }

  lemma {:induction false} LatestAscends(start: real, rs: seq<Request>)
    requires Ascending(start, rs)
    ensures Latest(start, rs) == if rs == [] then start else Last(rs).now
    ensures start <= Latest(start, rs)
  {
    if rs != [] { LatestAscends(start, Init(rs)); }
  }

  /** Taking at t is taking from the bucket refilled to t. */
  lemma RefillIdempotent(b: Bucket, t: real, cost: real)
    requires Sound(b)
    ensures Refill(Refill(b, t), t) == Refill(b, t)
    ensures Take(Refill(b, t), t, cost) == Take(b, t, cost)
  {
  }

  lemma {:induction false} RefillFirst(b: Bucket, rs: seq<Request>)
    requires Sound(b) && rs != []
    ensures Run(Refill(b, rs[0].now), rs) == Run(b, rs)
    ensures Spent(Refill(b, rs[0].now), rs) == Spent(b, rs)
    ensures ResultOf(Refill(b, rs[0].now), rs) == ResultOf(b, rs)
  {
    RefillIdempotent(b, rs[0].now, rs[0].cost);
    if |rs| == 1 {
      assert Init(rs) == [];
      assert Spent(b, Init(rs)) == 0.0 == Spent(Refill(b, rs[0].now), Init(rs));
    } else {
      RefillFirst(b, Init(rs));
    }
  }

  lemma {:induction false} AscendingFrom(start: real, rs: seq<Request>)
    requires Ascending(start, rs) && rs != []
    ensures start <= rs[0].now <= Last(rs).now
    ensures Ascending(rs[0].now, rs) && Latest(rs[0].now, rs) == Last(rs).now
  {
    if |rs| > 1 {
      AscendingFrom(start, Init(rs));
      LatestAscends(start, Init(rs));
    } else {
      assert Init(rs) == [] && Last(rs) == rs[0];
      assert Ascending(rs[0].now, Init(rs)) && Latest(rs[0].now, Init(rs)) == rs[0].now;
    }
  }

  /** With a clock that never goes back, the limit holds over every window of requests, from
      whatever state earlier requests left. */
  lemma WindowBound(b: Bucket, window: seq<Request>)
    requires Sound(b) && window != [] && Ascending(b.lastRefill, window)
    ensures Spent(b, window) <= b.burst + (Last(window).now - window[0].now) * b.rate
  {
    hide Spent, Latest, Run, Ascending, Earned;
    var t := window[0].now;
    var full := Refill(b, t);
    RefillSound(b, t);
    RefillFirst(b, window);
    AscendingFrom(b.lastRefill, window);
    assert full.lastRefill == t;
    SpentIsBounded(full, window);
    EarnedIs(t, Last(window).now, b.rate);
  }

  // ---------- retry-after ----------

  lemma CeilBound(x: real, m: int)
    ensures x <= m as real <==> Ceil(x) <= m
  {
  }

  lemma DivCancels(a: real, r: real)
    requires r > 0.0
    ensures a / r * r == a
  {
  }

  lemma DivideThrough(deficit: real, rate: real, dt: real)
    requires rate > 0.0
    ensures dt * rate >= deficit <==> dt >= deficit / rate
  {
    DivCancels(deficit, rate);
    if dt >= deficit / rate {
      MulMonotone(deficit / rate, dt, rate);
    } else {
      assert (deficit / rate - dt) * rate > 0.0;
    }
  }

  /** After a denied take that the bucket could ever pay, the same take is allowed exactly
      from the bucket's own clock plus deficit / rate on. */
  lemma DeniedUntil(b: Bucket, now: real, cost: real, t: real)
    requires Sound(b) && b.rate > 0.0 && 0.0 <= cost <= b.burst
    requires !Take(b, now, cost).1.allowed
    ensures var c := Take(b, now, cost).0;
      Take(c, t, cost).1.allowed <==> t >= c.lastRefill + (cost - c.tokens) / b.rate
  {
    var c := Take(b, now, cost).0;
    RefillSound(b, now);
    var dt := t - c.lastRefill;
    DivideThrough(cost - c.tokens, b.rate, dt);
    if dt <= 0.0 {
      MulMonotone(dt, 0.0, b.rate);
    }
  }

  lemma Milliseconds(x: real, m: int)
    ensures m as real / 1000.0 >= x <==> m as real >= x * 1000.0
  {
  }

  /** Retry-after is exact: counted in whole milliseconds on the bucket's clock, it is the
      least wait after which the same take is allowed. When the clock has not gone back, the
      bucket's clock is the time of the denied take. */
  lemma RetryAfterIsExact(b: Bucket, now: real, cost: real, m: nat)
    requires Sound(b) && b.rate > 0.0 && 0.0 <= cost <= b.burst
    requires !Take(b, now, cost).1.allowed
    ensures var (c, r) := Take(b, now, cost);
      && r.retryAfterMs >= 1
      && (Take(c, c.lastRefill + m as real / 1000.0, cost).1.allowed <==> m >= r.retryAfterMs)
      && (b.lastRefill <= now ==> c.lastRefill == now)
  {
    var (c, r) := Take(b, now, cost);
    RefillSound(b, now);
    var wait := (cost - c.tokens) / b.rate;
    DeniedUntil(b, now, cost, c.lastRefill + m as real / 1000.0);
    DivideThrough(cost - c.tokens, b.rate, 0.0);
    assert wait > 0.0;
    Milliseconds(wait, m);
    CeilBound(wait * 1000.0, m);
    CeilBound(wait * 1000.0, 0);
  }

  /** Waiting the retry-after from the time of the take, by the system clock, suffices exactly
      when the clock had gone back by no more than what rounding up to whole milliseconds adds. */
  lemma RetryAfterAssumesTheClock(b: Bucket, now: real, cost: real)
    requires Sound(b) && b.rate > 0.0 && 0.0 <= cost <= b.burst
    requires !Take(b, now, cost).1.allowed
    ensures var (c, r) := Take(b, now, cost);
      Take(c, now + r.retryAfterMs as real / 1000.0, cost).1.allowed
      <==> RMax(b.lastRefill - now, 0.0) <= r.retryAfterMs as real / 1000.0 - (cost - c.tokens) / b.rate
  {
    var (c, r) := Take(b, now, cost);
    DeniedUntil(b, now, cost, now + r.retryAfterMs as real / 1000.0);
  }

  /** What rounding up adds is at least nothing and less than a millisecond. */
  lemma RoundingIsUnderAMillisecond(b: Bucket, now: real, cost: real)
    requires Sound(b) && b.rate > 0.0 && 0.0 <= cost <= b.burst
    requires !Take(b, now, cost).1.allowed
    ensures var (c, r) := Take(b, now, cost);
      0.0 <= r.retryAfterMs as real / 1000.0 - (cost - c.tokens) / b.rate < 0.001
  {
    var (c, r) := Take(b, now, cost);
    var before := (r.retryAfterMs - 1) as real / 1000.0;
    RetryAfterIsExact(b, now, cost, r.retryAfterMs);
    RetryAfterIsExact(b, now, cost, r.retryAfterMs - 1);
    DeniedUntil(b, now, cost, c.lastRefill + before + 0.001);
    DeniedUntil(b, now, cost, c.lastRefill + before);
    assert r.retryAfterMs as real / 1000.0 == before + 0.001;
  }

  /** So it suffices if the clock had not gone back, and never does if it had gone back by a
      millisecond or more. */
  lemma RetryAfterAndTheClock(b: Bucket, now: real, cost: real)
    requires Sound(b) && b.rate > 0.0 && 0.0 <= cost <= b.burst
    requires !Take(b, now, cost).1.allowed
    ensures var (c, r) := Take(b, now, cost);
      var retry := Take(c, now + r.retryAfterMs as real / 1000.0, cost).1;
      && (b.lastRefill <= now ==> retry.allowed)
      && (b.lastRefill - now >= 0.001 ==> !retry.allowed)
  {
    RetryAfterAssumesTheClock(b, now, cost);
    RoundingIsUnderAMillisecond(b, now, cost);
  }

  /** A take above the burst is never allowed. At a positive rate its retry-after is the least
      number of milliseconds until the bucket is full, and MaxInt32 once it is; at a zero rate
      it is MaxInt32. */
  lemma OverBurstNeverPays(b: Bucket, now: real, cost: real, m: nat)
    requires Sound(b) && cost > b.burst
    ensures var (c, r) := Take(b, now, cost);
      && !r.allowed && c == Refill(b, now)
      && (c.tokens == c.burst || b.rate == 0.0 ==> r.retryAfterMs == MAX_INT32)
      && (c.tokens < c.burst && b.rate > 0.0 ==>
           (Refill(c, c.lastRefill + m as real / 1000.0).tokens == c.burst <==> m >= r.retryAfterMs))
  {
    var (c, r) := Take(b, now, cost);
    RefillSound(b, now);
    if c.tokens < c.burst && b.rate > 0.0 {
      var wait := (c.burst - c.tokens) / b.rate;
      var dt := m as real / 1000.0;
      DivideThrough(c.burst - c.tokens, b.rate, dt);
      DivideThrough(c.burst - c.tokens, b.rate, 0.0);
      Milliseconds(wait, m);
      CeilBound(wait * 1000.0, m);
      CeilBound(wait * 1000.0, 0);
      assert c.lastRefill + dt - c.lastRefill == dt;
    }
  }

  /** At a zero rate a denied take is told MaxInt32, and is denied for ever: after any further
      takes, whatever they cost and whenever they come. */
  lemma {:induction false} ZeroRateNeverRefills(b: Bucket, now: real, cost: real, rs: seq<Request>, later: real)
    requires Sound(b) && b.rate == 0.0 && cost >= 0.0
    requires !Take(b, now, cost).1.allowed
    ensures Take(b, now, cost).1.retryAfterMs == MAX_INT32
    ensures var c := Run(Take(b, now, cost).0, rs);
      c.rate == 0.0 && c.burst == b.burst && c.tokens <= b.tokens && !Take(c, later, cost).1.allowed
  {
    if rs != [] {
      ZeroRateNeverRefills(b, now, cost, Init(rs), later);
    }
  }

  // ---------- trace erasure ----------

  /** Refilling in two steps is refilling once: the cap loses nothing. */
  lemma RefillComposes(b: Bucket, t: real, u: real)
    requires Sound(b) && b.lastRefill <= t <= u
    ensures Refill(Refill(b, t), u) == Refill(b, u)
  {
    hide Earned;
    EarnedAdds(b.lastRefill, t, u, b.rate);
    EarnedAdds(t, u, u, b.rate);
  }

  /** The take is allowed and costs something. */
  predicate Matters(b: Bucket, r: Request) {
    Take(b, r.now, r.cost).1.allowed && r.cost > 0.0
  }

  /** The run without its denied and zero-cost takes. */
  function Kept(b: Bucket, rs: seq<Request>): seq<Request> {
    if rs == [] then []
    else Kept(b, Init(rs)) + if Matters(Run(b, Init(rs)), Last(rs)) then [Last(rs)] else []
  }

  function Results(b: Bucket, rs: seq<Request>): seq<Result> {
    if rs == [] then [] else Results(b, Init(rs)) + [ResultOf(b, rs)]
  }

  /** The results of the full run at the takes that are kept. */
  function KeptResults(b: Bucket, rs: seq<Request>): seq<Result> {
    if rs == [] then []
    else KeptResults(b, Init(rs)) + if Matters(Run(b, Init(rs)), Last(rs)) then [ResultOf(b, rs)] else []
  }

  /** With a clock that never goes back, denied and zero-cost takes leave no trace: the kept
      takes get the same results without them. */
  lemma {:induction false} ErasureIsInvisible(b: Bucket, rs: seq<Request>)
    requires Sound(b) && Ascending(b.lastRefill, rs)
    ensures Results(b, Kept(b, rs)) == KeptResults(b, rs)
    ensures var t, erased := Latest(b.lastRefill, rs), Run(b, Kept(b, rs));
      && Sound(erased) && erased.lastRefill <= t && Run(b, rs).lastRefill <= t
      && Refill(Run(b, rs), t) == Refill(erased, t)
  {
    if rs == [] {
    } else {
      ErasureIsInvisible(b, Init(rs));
      SpentIsBounded(b, Init(rs));
      LatestAscends(b.lastRefill, rs);
      var full, erased, r := Run(b, Init(rs)), Run(b, Kept(b, Init(rs))), Last(rs);
      ErasureStep(full, erased, Latest(b.lastRefill, Init(rs)), r);
      if Matters(full, r) {
        assert Init(Kept(b, rs)) == Kept(b, Init(rs)) && Last(Kept(b, rs)) == r;
      } else {
        assert Kept(b, rs) == Kept(b, Init(rs)) && KeptResults(b, rs) == KeptResults(b, Init(rs));
      }
    }
  }

  lemma ErasureStep(full: Bucket, erased: Bucket, t: real, r: Request)
    requires Sound(full) && Sound(erased) && full.lastRefill <= t && erased.lastRefill <= t <= r.now
    requires Refill(full, t) == Refill(erased, t)
    ensures var (f, res) := Take(full, r.now, r.cost);
      && f.lastRefill <= r.now
      && (Matters(full, r) ==> Take(erased, r.now, r.cost) == (f, res) && Sound(f))
      && (!Matters(full, r) ==> Refill(f, r.now) == Refill(erased, r.now))
  {
    hide Earned;
    RefillComposes(full, t, r.now);
    RefillComposes(erased, t, r.now);
    TakeSound(full, r.now, r.cost);
    RefillIdempotent(full, r.now, r.cost);
  }

  // ---------- limits that change from request to request ----------

  datatype LimitedRequest = LimitedRequest(now: real, rate: real, burst: real, cost: real)

  /** An existing bucket meets new limits: refilled at the old rate first, then clamped. */
  function Resize(b: Bucket, rate: real, burst: real, now: real): Bucket {
    if b.rate != rate || b.burst != burst then
      var r := Refill(b, now);
      Bucket(RMin(r.tokens, burst), r.lastRefill, rate, burst)
    else b
  }

  function TakeLimited(b: Bucket, r: LimitedRequest): (Bucket, Result) {
    Take(Resize(b, r.rate, r.burst, r.now), r.now, r.cost)
  }

  function RunLimited(b: Bucket, rs: seq<LimitedRequest>): Bucket {
    if rs == [] then b else TakeLimited(RunLimited(b, Init(rs)), Last(rs)).0
  }

  function SpentLimited(b: Bucket, rs: seq<LimitedRequest>): real {
    if rs == [] then 0.0
    else
      SpentLimited(b, Init(rs)) +
      if TakeLimited(RunLimited(b, Init(rs)), Last(rs)).1.allowed then RMax(Last(rs).cost, 0.0) else 0.0
  }

  function ClockAfter(start: real, rs: seq<LimitedRequest>): real {
    if rs == [] then start else Last(rs).now
  }

  /** The sum over the intervals between requests of the rate in force times the length. */
  function Accrued(b: Bucket, rs: seq<LimitedRequest>): real {
    if rs == [] then 0.0
    else Accrued(b, Init(rs)) + Earned(ClockAfter(b.lastRefill, Init(rs)), Last(rs).now, RunLimited(b, Init(rs)).rate)
  }

  ghost predicate ValidLimits(start: real, rs: seq<LimitedRequest>) {
    rs == [] || (ValidLimits(start, Init(rs)) && Last(rs).rate >= 0.0 && Last(rs).burst >= 0.0
      && ClockAfter(start, Init(rs)) <= Last(rs).now)
  }

  lemma LimitedSnoc(b: Bucket, rs: seq<LimitedRequest>, r: LimitedRequest, start: real)
    ensures RunLimited(b, rs + [r]) == TakeLimited(RunLimited(b, rs), r).0
    ensures SpentLimited(b, rs + [r]) == SpentLimited(b, rs) +
      (if TakeLimited(RunLimited(b, rs), r).1.allowed then RMax(r.cost, 0.0) else 0.0)
    ensures ClockAfter(start, rs + [r]) == r.now
    ensures ValidLimits(start, rs) && r.rate >= 0.0 && r.burst >= 0.0 && ClockAfter(start, rs) <= r.now ==>
      ValidLimits(start, rs + [r])
  {
    assert Init(rs + [r]) == rs && Last(rs + [r]) == r;
  }

  lemma LimitedStep(b: Bucket, r: LimitedRequest)
    requires Sound(b) && r.rate >= 0.0 && r.burst >= 0.0 && b.lastRefill <= r.now
    ensures var (c, res) := TakeLimited(b, r);
      && Sound(c) && c.lastRefill == r.now && c.rate == r.rate && c.burst == r.burst
      && c.tokens + (if res.allowed then RMax(r.cost, 0.0) else 0.0) <= b.tokens + Earned(b.lastRefill, r.now, b.rate)
  {
    hide Earned;
    RefillSound(b, r.now);
    EarnedAdds(b.lastRefill, r.now, r.now, b.rate);
    EarnedAdds(r.now, r.now, r.now, r.rate);
    var s := Resize(b, r.rate, r.burst, r.now);
    RefillSound(s, r.now);
  }

  /** What a bucket can pay under new limits: the old balance with what the old rate has earned
      since, within the old burst and the new one. */
  function Affordable(b: Bucket, r: LimitedRequest): real {
    Least(Least(b.tokens + (r.now - b.lastRefill) * b.rate, b.burst), r.burst)
  }

  lemma AffordableIs(b: Bucket, r: LimitedRequest)
    requires b.lastRefill <= r.now
    ensures Affordable(b, r) == Least(Balance(b, r.now), r.burst)
  {
    assert NotNegative(r.now - b.lastRefill) == r.now - b.lastRefill;
  }

  lemma ResizedBalance(b: Bucket, r: LimitedRequest)
    requires Sound(b) && r.rate >= 0.0 && r.burst >= 0.0 && b.lastRefill <= r.now
    ensures var s := Resize(b, r.rate, r.burst, r.now);
      && Sound(s) && s.rate == r.rate && s.burst == r.burst && s.lastRefill <= r.now
      && Balance(s, r.now) == Affordable(b, r)
  {
    hide Refill;
    RefillIsBalance(b, r.now);
    RefillSound(b, r.now);
    var s := Resize(b, r.rate, r.burst, r.now);
    if s != b { Idle(s.rate); }
  }

  /** A take under new limits is allowed exactly when the bucket can pay its cost under them; it
      leaves the rest to the new limits. A larger burst takes nothing away. */
  lemma TakeLimitedExactly(b: Bucket, r: LimitedRequest)
    requires Sound(b) && r.rate >= 0.0 && r.burst >= 0.0 && b.lastRefill <= r.now
    ensures var (c, res) := TakeLimited(b, r);
      var balance := Affordable(b, r);
      && (res.allowed <==> NotNegative(r.cost) <= balance)
      && c == Bucket(if res.allowed then balance - NotNegative(r.cost) else balance, r.now, r.rate, r.burst)
      && res.remaining == c.tokens && (res.allowed ==> res.retryAfterMs == 0)
  {
    hide Take, Resize, Balance, Affordable, Earned;
    ResizedBalance(b, r);
    var s := Resize(b, r.rate, r.burst, r.now);
    TakeExactly(s, r.now, r.cost);
    TakeSound(s, r.now, r.cost);
  }

  /** Changing limits never mints tokens: over a run in which every request brings its own
      rate and burst, at most the starting balance plus the rates in force over time is spent. */
  lemma {:induction false} ChangingLimitsMintNothing(b: Bucket, rs: seq<LimitedRequest>)
    requires Sound(b) && ValidLimits(b.lastRefill, rs)
    ensures Sound(RunLimited(b, rs)) && RunLimited(b, rs).lastRefill == ClockAfter(b.lastRefill, rs)
    ensures SpentLimited(b, rs) + RunLimited(b, rs).tokens <= b.tokens + Accrued(b, rs)
  {
    hide Earned, TakeLimited;
    if rs == [] {
    } else {
      ChangingLimitsMintNothing(b, Init(rs));
      LimitedStep(RunLimited(b, Init(rs)), Last(rs));
    }
  }
}
