# ringcache: a verified model

ringcache is a distributed in-memory cache written in Go. Every node holds a consistent-hash ring
of all members and a local LRU cache with expiry; any node coordinates a request by fanning a
write out to the R clockwise owners of the key, or by walking them on a read. Next to the cache
each node keeps token buckets, and an HTTP middleware limits requests in flight. This project
models those parts in Dafny and proves what they guarantee over all inputs, runs and interleavings.

| part | specification and theorems | objects proved against it |
|---|---|---|
| ring | `RingModel.dfy`, `Text.dfy` | `Ring.dfy` |
| local cache | `LruModel.dfy`, `StoreTraces.dfy` | `Store.dfy` over the pointer list of `LinkedList.dfy` |
| token bucket | `BucketModel.dfy` | `TokenBucket.dfy` |
| keyed bucket store | `LimiterModel.dfy`, `LimiterTraces.dfy`, `RateLimitCluster.dfy` | `RateLimiter.dfy` over the in-place slice of `Slice.dfy` |
| replication | `NodeModel.dfy`, `Cluster.dfy`, `NodeSteps.dfy` | `Node.dfy` |
| in-flight limiter | `Semaphore.dfy` | |

`Seqs.dfy` holds shared facts about sequences.

How the pieces are put together:

* **Hash.** The ring's hash is an arbitrary function from strings into [0, 2^32). Collisions are
  therefore covered everywhere, including the tie-break on ids.
* **Sort and search.** `Ring.SortSlice` promises only what `sort.Slice` does: the points are sorted
  and are the same points. That the resulting slice is nevertheless unique is a theorem
  (`RingModel.SortIsUnique`), and so are its consequences for history independence.
* **Objects.** Each Go object that updates its fields is a class whose methods are proved equal to
  functions on a value (`View()`, `State()`, `view`); the theorems are about those functions. In
  `Store.Store` the list is really linked by `prev` and `next`, the map really points to the
  elements, and the items are overwritten in place. In `Slice.Slice` the order slice is a window on
  a backing array, and deletion and compaction shift inside that array.
* **Time.** Every operation takes its time as a parameter: whole nanoseconds in the cache and the
  node, real seconds in the bucket. Where a result needs a clock that never goes back, it says so.
* **Replication.** `Cluster.Apply` is one step of a state machine. A message that has been sent may
  be delivered at any later time, any number of times, in any order, or never, until the network
  forgets it; an owner may be given up at any time; any read of a peer may fail for any reason,
  before or after the peer handled it; an owner's answer to a read waits until the coordinator deals
  with it, and other steps may come in between; a client may give up at any time; any node may
  restart empty, delete, sweep, join or leave at any time. A step that is not possible leaves the
  state unchanged, so that every sequence of steps is a run. Where a property needs a key not to be
  deleted, expired, evicted or lost in a restart, this is one predicate, `Keeps`: no step of the run
  takes the key away from the named nodes. Where it needs a node to answer a read, it is `Answers`;
  that a read ends in a hit is `EndsInHit`. The requests that a `Node` object handles are runs of
  these steps (`NodeSteps`).

What the code does differently from what the documentation of ringcache says (its own README.md,
cited here by line as "ringcache README"); in each case the model follows the code:

* ringcache README, line 154, says that peers skip a dead node briefly and then retry it. Each
  skipped visit of a read marks the peer down again, as do failed writes and forwards, so a peer is
  asked exactly when none of these has marked it for breakFor, and under steady reads never
  (`NodeModel.AskedExactly`, `NodeModel.BusyPeerIsNeverAsked`).
* ringcache README, line 138, says that a successful SET was applied by an owner. An owner also acks
  a write that it ignores as stale; what an ack does mean is that the owner holds that write or a
  newer one (`Cluster.AckedIsNotApplied`, `Cluster.DeliveredIsAtLeast`).
* ringcache README, line 166, promises that a delayed retry cannot clobber a newer value. For equal
  `written_at` the later arrival wins: replicas agree over all arrival orders exactly when the
  largest writes carry one value (`StoreTraces.ConvergeExactly`).
* Deletes leave no trace: once no node holds the key, the delete is final exactly when no write of
  the key is still on its way and no read of it has been answered and is still to repair another
  owner (`Cluster.DeleteIsFinalExactly`, `Cluster.LateWriteUndoesDelete`).
* A larger cache includes a smaller one exactly until a stale write reaches a key that only the
  larger still remembers (`StoreTraces.InclusionExactly`).
* A read repair of an item that a peer served with less than a millisecond to live installs a copy
  without expiry; an item of the coordinator's own cache in that state is not sent on
  (`NodeModel.RepairedLifetime`, `NodeModel.RepairCanMakeImmortal`).
* The retry-after of a denied take counts from the bucket's own clock. Counted by the system clock
  it suffices exactly when that clock had gone back by no more than what rounding up adds
  (`BucketModel.RetryAfterAssumesTheClock`). For a cost above the burst it is the time until the
  bucket is full, although the take is denied then as well (`BucketModel.OverBurstNeverPays`).
* Dropping an idle bucket can be seen by a client. With a clock that never goes back and room for
  all the keys, it cannot be seen exactly when every take that finds its bucket idle for longer than
  the idle time also finds in it all of the burst that the take asks for; a burst raised across such
  a gap is enough to tell (`LimiterTraces.SweepsInvisibleExactly`). Under the same condition the
  limit holds across all the buckets a key had (`LimiterTraces.LimitHoldsAcrossSweeps`). When the
  limits of each key are fixed, it suffices that each rate fills its burst within the idle time, and
  for any rate that does not there is a run that shows it (`LimiterTraces.FixedLimitsRefill`,
  `LimiterTraces.ShortTTLIsVisible`).

## Model

| member | source | states |
|---|---|---|
| Text.LessTotal | internal/ring/ring.go:175-180 | The id order used to break hash ties is total and strict, so it decides between any two points. |
| Text.LessIsLexicographic | internal/ring/ring.go:175-180 | The id order is by the first character in which two ids differ, a prefix coming first. |
| Text.ItoaIsDecimal | internal/ring/ring.go:161-163 | The numeral in a virtual node's name is decimal, without leading zeros, and stands for its index. |
| RingModel.SortIsUnique | internal/ring/ring.go:175-180 | Two sorted arrangements of the same points are equal: an unstable sort and a random map order still give one slice. |
| RingModel.RingIsUnique | internal/ring/ring.go:165-182 | A set of members has at most one ring slice. |
| RingModel.RingExists | internal/ring/ring.go:165-182 | Every set of members has a ring slice. |
| RingModel.WalkListsIds | internal/ring/ring.go:128-140 | The deduplicating walk lists every id it meets exactly once, and nothing else. |
| RingModel.WalkWithout | internal/ring/ring.go:128-140 | First-occurrence deduplication commutes with deleting one member's points. |
| RingModel.FullWalkMeetsMembers | internal/ring/ring.go:114-142 | One lap meets every member exactly once. |
| RingModel.OwnersAreExact | internal/ring/ring.go:114-142 | The owners are exactly min(n, members) distinct members, and fewer owners are a prefix of more. |
| RingModel.OwnersAreNearest | internal/ring/ring.go:114-142 | The owners are the nearest members, in order: each has a virtual node id#i that is clockwise of the key, modulo 2^32, before every virtual node of every member not listed before it, ids deciding ties. |
| RingModel.PrimaryIsNearest | internal/ring/ring.go:145-151 | The primary is the member nearest clockwise of the key. |
| RingModel.LapByDistance | internal/ring/ring.go:123-140 | A lap goes by clockwise distance from the key, and by id where points collide. |
| RingModel.FirstMeeting | internal/ring/ring.go:128-140 | The i-th id of a walk is met before any id that is not among the first i. |
| RingModel.RingWithout | internal/ring/ring.go:62-84 | The new slice with the newcomer's points deleted is the old slice. |
| RingModel.JoinKeepsWalk | internal/ring/ring.go:62-73 | Minimal disruption: the full walk after a join, with the new id deleted, is the old walk, for every hash and key. |
| RingModel.JoinInsertsIntoWalk | internal/ring/ring.go:62-73 | A join inserts the new id at one place of the walk and changes nothing else. |
| RingModel.JoinInsertsOneOwner | internal/ring/ring.go:114-142 | Owners after a join, without the newcomer, are a prefix of the old owners, at most one of which drops out; the exact new list is given. |
| RingModel.JoinMovesPrimaryOnlyToNewcomer | internal/ring/ring.go:145-151 | A key's primary is unchanged by a join or becomes the newcomer. |
| RingModel.LeaveKeepsOtherOwners | internal/ring/ring.go:76-84 | A leave keeps every other owner in order and adds at most one at the end. |
| RingModel.WalkOfFewer | internal/ring/ring.go:114-142 | The walk of some of the members is the walk of all of them without the others. |
| RingModel.OwnersOverlap | internal/ring/ring.go:114-142 | Across any change of membership some remaining member is an owner before and after, if fewer members left than there were owners and fewer joined than there are. |
| RingModel.NoEmptyMember | internal/ring/ring.go:62-73 | No history of calls makes the empty id a member. |
| RingModel.MembersAre | internal/ring/ring.go:62-84 | A member is an id, not empty, that has been added and not removed since. |
| RingModel.HistoryIndependence | internal/ring/ring.go:62-84 | Any two slices left by histories that end in the same members are equal, and every lookup on either gives the owners of those members. |
| RingModel.AddThenRemoveRestores | internal/ring/ring.go:62-84 | Adding a fresh member and removing it restores the slice, and so every owner list. |
| Ring.SortSlice | internal/ring/ring.go:175-180 | The contract of sort.Slice under the ring's order: sorted, same points. |
| Ring.Ring.constructor | internal/ring/ring.go:44-52 | An empty ring; fewer than one virtual node per member counts as one. |
| Ring.Ring.Rebuild | internal/ring/ring.go:165-182 | Whatever order the members come in, the slice is the sorted slice of exactly their points. |
| Ring.Ring.Add | internal/ring/ring.go:62-73 | The members afterwards; an empty or known id changes nothing; the slice is that of the new members. |
| Ring.Ring.Remove | internal/ring/ring.go:76-84 | The members afterwards; an unknown id changes nothing; the slice is that of the remaining members. |
| Ring.Ring.Search | internal/ring/ring.go:124 | Binary search finds the first point at or after the key's hash, or the end. |
| Ring.Ring.WalkFrom | internal/ring/ring.go:125-141 | The wrapping walk with its moving index returns the first `limit` distinct ids of the lap from the start slot. |
| Ring.Ring.Owners | internal/ring/ring.go:114-142 | The lookup returns the first n members of the clockwise walk from the key's hash; none on an empty ring or for n < 1. |
| Ring.Ring.Primary | internal/ring/ring.go:145-151 | The primary is the single owner for n = 1, and empty exactly when the ring is. |
| Ring.LapIsClockwise | internal/ring/ring.go:114-142 | The lap from the found slot is the points with hash >= h followed by those with hash < h. |
| LruModel.LookupWithout | internal/store/store.go:214-218 | Removing an element makes its key absent and leaves every other key as it was. |
| LruModel.LookupLive | internal/store/store.go:191-203 | A sweep removes a key exactly when its item has expired. |
| LruModel.SetThenGet | internal/store/store.go:88-138 | An applied write is read back, with its value and stamp, exactly until its TTL has passed, without one for ever; a sweep drops it exactly from then on. |
| LruModel.DeleteReports | internal/store/store.go:141-151 | A delete reports whether the key was there, expired or not, and leaves nothing to report. |
| LruModel.MovedToFront | internal/store/store.go:103-136 | Moving an item to the front keeps keys distinct and loses nothing. |
| LruModel.GetWellFormed | internal/store/store.go:88-106 | A get keeps keys distinct and the size within the capacity. |
| LruModel.SetWellFormed | internal/store/store.go:110-138 | A set keeps keys distinct and the size within the capacity. |
| LruModel.DeleteWellFormed | internal/store/store.go:141-151 | A delete keeps keys distinct and the size within the capacity. |
| LruModel.SweepWellFormed | internal/store/store.go:191-203 | A sweep keeps keys distinct and the size within the capacity. |
| LinkedList.List.Unlink | internal/store/store.go:214-218 | Removing an element re-links its neighbours: both directions list the chain without it. |
| LinkedList.List.PushFront | internal/store/store.go:134-136 | The new element comes first, in both directions. |
| LinkedList.List.MoveToFront | internal/store/store.go:103-127 | The element comes first and the others keep their order, in both directions. |
| Store.AgreesCut | internal/store/store.go:214-218 | Deleting the map entry and the element together keeps map and list in agreement. |
| Store.AgreesPush | internal/store/store.go:134-136 | Inserting an element under its absent key keeps map and list in agreement. |
| Store.AgreesMove | internal/store/store.go:118-130 | Moving an element leaves the map right as it is. |
| Store.Store.constructor | internal/store/store.go:64-77 | An empty store; a capacity below one counts as one. |
| Store.Store.Get | internal/store/store.go:88-106 | Hit, miss, expiry, the move to the front and the counters are those of the MRU-ordered sequence; list and map agree afterwards. |
| Store.Store.Set | internal/store/store.go:110-138 | Update, stale write, insert, evictions and counters are those of the sequence; list and map agree afterwards. |
| Store.Store.EvictToFit | internal/store/store.go:131-133 | The eviction loop drops exactly the back items until there is room, and terminates because each pass shrinks the map. |
| Store.Store.EvictLRU | internal/store/store.go:205-212 | An eviction drops the back element from list and map. |
| Store.Store.RemoveElem | internal/store/store.go:214-218 | Exactly that element leaves list and map. |
| Store.Store.Delete | internal/store/store.go:141-151 | The deletion, its reply and its counter are those of the sequence. |
| Store.Store.SweepOne | internal/store/store.go:191-203 | One step of the janitor drops the element exactly when it has expired and goes on to its predecessor. |
| Store.Store.Sweep | internal/store/store.go:191-203 | The back-to-front pass with deletion drops exactly the expired items and keeps the order. |
| Store.Store.Len | internal/store/store.go:154-158 | The map's size is the number of items listed, and at most the capacity. |
| StoreTraces.RunWellFormed | internal/store/store.go:88-218 | Over every trace the keys stay distinct and the size within the capacity. |
| StoreTraces.StepLookup | internal/store/store.go:88-218 | What one operation does to one key: it is written, dropped as deleted or expired, evicted, or untouched. |
| StoreTraces.TouchedKeyIsFront | internal/store/store.go:103-136 | A hit or a successful set puts the key at the front. |
| StoreTraces.RecentKeySurvives | internal/store/store.go:205-212 | LRU survival: a front key, neither deleted nor found expired, is held after any trace touching fewer than capacity other keys. |
| StoreTraces.EvictionNeedsCapacityKeys | internal/store/store.go:205-212 | An eviction of a key needs capacity distinct other keys touched since. |
| StoreTraces.HeldItemIsTheWinner | internal/store/store.go:110-138 | What a key holds is the last-arriving of the largest-written_at sets since it last became absent. |
| StoreTraces.HitReturnsTheWinner | internal/store/store.go:88-106 | A hit returns exactly that item, and it has not expired. |
| StoreTraces.HitExactly | internal/store/store.go:88-138 | In every trace, while a key is held, a get hits and a sweep spares it exactly until the TTL of its winning write, counted from its arrival, has passed; the hit has that write's value and stamp. |
| StoreTraces.RoomyRunHoldsAllWrites | internal/store/store.go:110-138 | With room for all keys, exactly the written keys are held and every write counts. |
| StoreTraces.ReplicasConverge | internal/store/store.go:118-130 | Replicas receiving the same writes at any times, in any order, with any repeats hold the same value and written_at, the largest, if the largest writes carry one value; without a TTL the same item. |
| StoreTraces.ConvergeExactly | internal/store/store.go:118-130 | Empty replicas with room agree on the value and written_at of a key over all arrival orders, times and repeats of a write set, TTLs included, if and only if the largest writes to the key carry one value. |
| StoreTraces.DisagreeingOrders | internal/store/store.go:120 | Otherwise two orders in which every write arrives once already leave different versions. |
| StoreTraces.LastLargestWins | internal/store/store.go:118-130 | A largest write that arrives last is what the key holds. |
| StoreTraces.InclusionStep | internal/store/store.go:88-138 | One operation keeps the smaller cache within the larger if and only if it is not a write to a key that only the larger holds, with a newer stamp; after such a write the smaller holds the older item. |
| StoreTraces.InclusionExactly | internal/store/store.go:88-138 | Throughout a trace the smaller cache's items are an in-order subsequence of the larger one's if and only if no write of the trace is of that kind. |
| StoreTraces.AscendingNeverSplits | internal/store/store.go:118-130 | A trace with non-decreasing written_at has no such write. |
| StoreTraces.LargerIncludesSmaller | internal/store/store.go:88-138 | So on such a trace the larger cache includes the smaller throughout. |
| StoreTraces.LargerHitsWhenSmallerHits | internal/store/store.go:88-138 | After any trace without such a write the larger cache hits, with the same item, whenever the smaller does. |
| StoreTraces.SplitHappens | internal/store/store.go:118-130 | For any two keys, three writes from empty caches after which the smaller is not within the larger. |
| StoreTraces.CountersMean | internal/store/store.go:161-175 | Over every trace the counters count reads that hit, writes applied, deletions reported and keys evicted for room. |
| StoreTraces.NothingIsLost | internal/store/store.go:161-175 | And the others follow: inserts = held + deleted + evicted + expired; gets = hits + misses; sets = applied + skipped. |
| BucketModel.RefillSound | internal/ratelimit/bucket.go:75-86 | A refill keeps 0 <= tokens <= burst and takes nothing away, whatever the clock does. |
| BucketModel.TakeSound | internal/ratelimit/bucket.go:51-73 | A take keeps 0 <= tokens <= burst and the limits. |
| BucketModel.TakeExactly | internal/ratelimit/bucket.go:51-86 | A take is allowed iff the balance with what was earned since, up to the burst, covers its cost; it leaves and reports the rest; a clock that went back earns nothing, a negative cost is free. |
| BucketModel.NewBucketPays | internal/ratelimit/bucket.go:32-45 | A new bucket can pay up to its burst at once; negative limits count as zero. |
| BucketModel.TakeIsCovered | internal/ratelimit/bucket.go:51-86 | One take spends and leaves no more than was there plus what the elapsed time earned. |
| BucketModel.SpentIsBounded | internal/ratelimit/bucket.go:51-86 | Over every run, spent plus left is at most the start balance plus rate times the time seen, for any costs and any clock. |
| BucketModel.NewBucketBound | internal/ratelimit/bucket.go:32-86 | A new bucket allows at most burst + rate * (latest time seen - creation time). |
| BucketModel.WindowBound | internal/ratelimit/bucket.go:51-86 | With a monotone clock the bound holds over every window of a run. |
| BucketModel.DeniedUntil | internal/ratelimit/bucket.go:64-72 | A denied affordable take is allowed exactly from deficit / rate after the bucket's clock. |
| BucketModel.RetryAfterIsExact | internal/ratelimit/bucket.go:88-111 | Retry-after is the least whole number of milliseconds after which the same take is allowed. |
| BucketModel.RetryAfterAssumesTheClock | internal/ratelimit/bucket.go:64-72 | Waiting the retry-after from the time of the denied take suffices if and only if the clock had gone back by no more than what rounding up to whole milliseconds adds. |
| BucketModel.RoundingIsUnderAMillisecond | internal/ratelimit/bucket.go:106-110 | What rounding up adds is at least nothing and less than a millisecond. |
| BucketModel.RetryAfterAndTheClock | internal/ratelimit/bucket.go:64-72 | So it suffices if the clock had not gone back, and never does if it had gone back by a millisecond or more. |
| BucketModel.OverBurstNeverPays | internal/ratelimit/bucket.go:88-111 | A cost above the burst is always denied; its retry-after is the least wait until the bucket is full, and MaxInt32 when it is full or the rate is zero. |
| BucketModel.ZeroRateNeverRefills | internal/ratelimit/bucket.go:88-111 | At a zero rate a denied take is told MaxInt32 and is denied for ever, after any further takes at any times. |
| BucketModel.RefillComposes | internal/ratelimit/bucket.go:75-86 | Refilling twice equals refilling once at the later time. |
| BucketModel.ErasureIsInvisible | internal/ratelimit/bucket.go:51-86 | With a monotone clock, removing all denied and zero-cost takes leaves every other result identical. |
| BucketModel.LimitedStep | internal/ratelimit/store.go:61-85 | A take under new limits is covered by the old balance plus the old rate's earnings. |
| BucketModel.TakeLimitedExactly | internal/ratelimit/store.go:61-85 | A take under new limits is allowed iff its cost is covered by the old balance with the old rate's earnings, the old burst and the new burst; it leaves and reports the rest. |
| BucketModel.ChangingLimitsMintNothing | internal/ratelimit/store.go:61-85 | When every request brings its own limits, spent plus left is at most the start balance plus the rates in force over time. |
| TokenBucket.Bucket.constructor | internal/ratelimit/bucket.go:32-45 | A bucket starts full; negative limits count as zero. |
| TokenBucket.Bucket.Refill | internal/ratelimit/bucket.go:75-86 | The object's refill is the model's, including the zero rate and the clock that goes back. |
| TokenBucket.Bucket.Take | internal/ratelimit/bucket.go:51-73 | The object's balance and result are the model's. |
| TokenBucket.Bucket.SetLimits | internal/ratelimit/store.go:73-82 | New limits: refilled at the old rate first, then the balance clamped to the new burst. |
| LimiterModel.EvictsTheFront | internal/ratelimit/store.go:104-110 | Eviction drops at most one key: the front one, exactly when the store is full. |
| LimiterModel.TakeKeepsListing | internal/ratelimit/store.go:61-102 | The order stays a duplicate-free listing of the map's keys within the capacity across a take. |
| LimiterModel.KeyedTakeExactly | internal/ratelimit/store.go:61-85 | The same for a take on a key, whose bucket may be new; the key is used now. |
| LimiterModel.TakeKeepsOthers | internal/ratelimit/store.go:61-110 | Every other bucket that stays is as it was, and one only goes when a new key finds the store full. |
| LimiterModel.SweepKeepsListing | internal/ratelimit/store.go:126-143 | And across a sweep. |
| LimiterModel.RunKeepsListing | internal/ratelimit/store.go:61-143 | And so over every run. |
| LimiterModel.TakeKeepsUseOrder | internal/ratelimit/store.go:94-102 | With a monotone clock a take keeps the order sorted by last use. |
| LimiterModel.SweepRemovesAPrefix | internal/ratelimit/store.go:126-143 | With a monotone clock a sweep removes exactly a prefix of the order, and the keys in it. |
| LimiterModel.RunKeepsUseOrder | internal/ratelimit/store.go:61-143 | With a monotone clock the order is by last use in every run of takes and sweeps. |
| LimiterModel.LastUsedIsLastTake | internal/ratelimit/store.go:61-85 | In every run an entry says when its key was last taken from. |
| LimiterModel.RunEvictsLeastRecentlyUsed | internal/ratelimit/store.go:104-110 | In every run from an empty store, an eviction drops no key that was taken from later than one it keeps. |
| LimiterModel.RunSweepsAPrefix | internal/ratelimit/store.go:126-143 | In every run from an empty store, a sweep drops exactly a prefix of the order: the keys whose last take is more than the TTL ago. |
| LimiterModel.BucketIsItsIncarnation | internal/ratelimit/store.go:61-85 | In every run of takes and sweeps over many keys, a kept bucket is the single-bucket run of its own takes since creation. |
| LimiterModel.IncarnationIsLimited | internal/ratelimit/store.go:61-85 | So since its creation it allowed at most its first burst plus the rates in force over time. |
| LimiterModel.GrantedByOneBucket | internal/ratelimit/store.go:61-85 | While its bucket is not dropped, all that was allowed on a key was allowed by that bucket. |
| LimiterTraces.KeptOrNew | internal/ratelimit/store.go:61-85 | A kept bucket answers a take as a new one if and only if it has come to hold all of the burst that the take asks for. |
| LimiterTraces.SweptTake | internal/ratelimit/store.go:61-85 | A take gives the same result whether or not its bucket had been swept, if an idle bucket has refilled to the burst asked for. |
| LimiterTraces.SweepsInvisibleExactly | internal/ratelimit/store.go:126-143 | For takes with limits of their own, a monotone clock and room for all the keys, sweeps at any moments change no result if and only if every take that finds its bucket idle for longer than the TTL finds in it all of the burst it asks for. |
| LimiterTraces.SweepsAreInvisible | internal/ratelimit/store.go:126-143 | The "if" half, from any state, for the amounts granted as well. |
| LimiterTraces.SomeSweepIsSeen | internal/ratelimit/store.go:126-143 | The "only if" half: otherwise one sweep in the right place changes a result. |
| LimiterTraces.EmptyStoresMatch | internal/ratelimit/store.go:28-48 | Both runs may start from the empty store. |
| LimiterTraces.LimitHoldsAcrossSweeps | internal/ratelimit/store.go:61-143 | Under that condition, with room for all the keys, the takes allowed on a key over a whole run with sweeps cost at most its first burst plus the rates in force over time, across all the buckets it had. |
| LimiterTraces.OneIncarnation | internal/ratelimit/store.go:61-85 | Without sweeps and with room, a key has one bucket from its first request on. |
| LimiterTraces.FixedLimitsRefill | internal/ratelimit/store.go:126-143 | Limits that are fixed per key, with rates that fill the burst within the TTL, meet the condition. |
| LimiterTraces.FixedLimitHoldsAcrossSweeps | internal/ratelimit/store.go:61-143 | So with such limits and room for all the keys, at most burst + rate * time is allowed across sweeps. |
| LimiterTraces.ShortTTLIsVisible | internal/ratelimit/store.go:126-143 | Whenever rate * TTL < burst, some run under these fixed limits with one sweep gives a different result and allows more than burst + rate * time. |
| Slice.Slice.Append | internal/ratelimit/store.go:94-102 | Append, in place or on a larger copy, adds one key at the end. |
| Slice.Slice.DropFront | internal/ratelimit/store.go:104-110 | Re-slicing drops the first key and copies nothing. |
| Slice.Slice.Truncate | internal/ratelimit/store.go:126-143 | Re-slicing keeps the first n keys and copies nothing. |
| Slice.Slice.DeleteAt | internal/ratelimit/store.go:94-102 | The shift inside the shared backing array deletes exactly that position. |
| Slice.Slice.Touch | internal/ratelimit/store.go:94-102 | Find, delete and append: the key moves to the end, the others keep their order. |
| RateLimiter.RateLimiter.constructor | internal/ratelimit/store.go:28-48 | An empty store, with the default capacity and TTL for values that are not positive. |
| RateLimiter.RateLimiter.EvictIfNeeded | internal/ratelimit/store.go:104-110 | The eviction loop is the model's, on map and slice alike. |
| RateLimiter.RateLimiter.Take | internal/ratelimit/store.go:61-85 | A take on the map of bucket objects and the in-place slice has the model's result and effect; buckets stay unshared. |
| RateLimiter.RateLimiter.Create | internal/ratelimit/store.go:61-85 | A new key gets a full bucket, pays from it, and comes last in the order. |
| RateLimiter.RateLimiter.Reuse | internal/ratelimit/store.go:61-85 | A known key is resized, pays, and moves to the end. |
| RateLimiter.Entry.Reuse | internal/ratelimit/store.go:73-85 | An existing bucket is refilled at its old rate, resized, stamped and charged, in that order of effect. |
| RateLimiter.RateLimiter.Sweep | internal/ratelimit/store.go:126-143 | The idle sweep has the model's effect on map and order. |
| RateLimiter.RateLimiter.Compact | internal/ratelimit/store.go:126-143 | Compacting the order over its own backing array while ranging over it gives the filtered order, and drops exactly the idle keys. |
| RateLimitCluster.OneBucketPerKey | internal/node/node.go:545-565 | While all coordinators know the same members, all takes on a key land on one node, and the cluster allows what that node allows. |
| RateLimitCluster.ClusterIsLimited | internal/node/node.go:529-566 | So all coordinators together allow at most the first burst plus the rates in force over time. |
| RateLimitCluster.ClusterIsLimitedAcrossSweeps | internal/node/node.go:529-566 | Idle sweeps do not loosen that limit if every take that finds its bucket idle for longer than the TTL finds it refilled, with room for all the keys. |
| NodeModel.PreferLocalVisitsOwners | internal/node/node.go:753-766 | A read visits exactly the owners, self first, the others in ring order. |
| NodeModel.EveryOwnerIsCounted | internal/node/node.go:427-451 | Every answer counts once as acked or failed; fully acked means nobody failed, and the failed list names exactly those that did. |
| NodeModel.NamesAre | internal/node/node.go:427-451 | The sorted list of a fan-out's failures names exactly the owners that failed. |
| NodeModel.FailuresAreMarked | internal/node/node.go:427-451 | A fan-out marks exactly the peers that failed, until breakFor after the failure, never self. |
| NodeModel.FanoutIsFailures | internal/node/node.go:427-451 | To the breaker a fan-out is its failures, each at its own time. |
| NodeModel.AnswersComeFromOwners | internal/node/node.go:427-451 | One answer an owner: as many answers as owners, and only owners fail. |
| NodeModel.OutcomeIs | internal/node/node.go:264-287 | Hit iff some owner has the key, unavailable iff all are unreachable; a hit is the first in the order. |
| NodeModel.ReadIsVisits | internal/node/node.go:264-287 | To the breaker a read is a visit to each owner up to the first hit, and nothing else. |
| NodeModel.SelfIsNeverDown | internal/node/node.go:730-737 | A node never marks itself down. |
| NodeModel.AskedExactly | internal/node/node.go:730-751 | Over any run of reads, failed writes, failed forwards and leaves with a monotone clock, a peer is asked if and only if it has no mark since it last left or breakFor has passed since the last mark, and counts as unreachable otherwise; skipped reads mark too. |
| NodeModel.AnswerForgetsMark | internal/node/node.go:739-751 | A mark that has run out is forgotten by the next read that is answered. |
| NodeModel.MarksTrackEvents | internal/node/node.go:730-751 | The breaker map holds exactly the last mark of a peer until it has run out. |
| NodeModel.BusyPeerIsNeverAsked | internal/node/node.go:268-272 | A marked peer is never asked while reads keep coming less than breakFor apart, even if it would answer. |
| NodeModel.DecodedServe | internal/node/node.go:384-425 | What a peer's cache finds is what the coordinator gets: nothing, or the same version with the life that was left cut to whole milliseconds. |
| NodeModel.RepairedLifetime | internal/node/node.go:502-527 | For every repair sent: the copy never expires iff the item does not, or a peer served it with less than a millisecond left; an own item in that state is not sent; else the copy expires with the original, shifted by the delays and cut to milliseconds. |
| NodeModel.RepairIsApplied | internal/node/node.go:502-527 | A repair that arrives where the key is not held leaves that copy. |
| NodeModel.RepairsReachTheOthers | internal/node/node.go:502-527 | A repair goes to other owners only, once each, with the version that was served and the life that is left in whole milliseconds, and to every one of them if a millisecond is left. |
| NodeModel.RepairCanMakeImmortal | internal/node/node.go:776-782 | For any owner and value, an unexpired item of a peer whose repaired copy never expires. |
| NodeModel.ParsedTakeMeans | internal/node/node.go:589-607 | A request with a negative number is refused; any other charges its cost, or one for zero, under its rate and its burst. |
| NodeModel.SecondsAdd | internal/ratelimit/bucket.go:75-86 | Times in seconds add up and keep their order. |
| Node.Node.New | internal/node/node.go:61-116 | A node starts only with an id among its peers, with the documented defaults, an empty cache, an empty bucket store, and a ring of exactly its peers. |
| Node.Node.constructor | internal/node/node.go:61-116 | The defaults and clamps of every configured number, and the empty cache and bucket store. |
| Node.Node.Join | internal/node/node.go:681-695 | A join succeeds iff id and address are given and the address parses; then the ring and peer table gain that member, else nothing changes. |
| Node.Node.Leave | internal/node/node.go:698-712 | A leave succeeds iff the id is given and is not the node's own; then ring, peers and breaker forget it, else nothing changes. |
| Node.Node.MarkDown | internal/node/node.go:730-737 | A peer is marked until now + breakFor; self never is. |
| Node.Node.IsDown | internal/node/node.go:739-751 | A mark holds before its time and is deleted when looked at afterwards. |
| Node.Node.ReadOwner | internal/node/node.go:384-425 | Self is read from its own cache; a marked peer is not asked; a peer's answer is decoded with its lifetime counted from now. |
| Node.Node.VisitOwner | internal/node/node.go:267-273 | A failed visit, skipped ones included, marks the peer down again. |
| Node.Node.HandleGet | internal/node/node.go:248-288 | The reply, the breaker, the effect on the own cache, and the repair writes sent on a hit, in terms of the ring's owners, the own cache and the peers' answers. |
| Node.Node.WalkOwners | internal/node/node.go:264-287 | The loop returns the first live hit, and "not found" instead of "unreachable" iff an owner was reached. |
| Node.ReadRepair | internal/node/node.go:502-527 | The loop sends one write to every owner but the server, with the life that is left, or none at all. |
| NodeModel.SelfOnlyFirst | internal/node/node.go:753-766 | In the order of a read self is visited only first, and exactly when it is an owner. |
| Node.Node.Fanout | internal/node/node.go:427-451 | The counting loop: acked, marks, and the sorted list of exactly the owners that failed, in any arrival order. |
| Node.SortIds | internal/node/node.go:449 | The contract of sort.Strings: sorted, the same strings. |
| Node.Node.HandleSet | internal/node/node.go:290-322 | A negative TTL is refused; else a write succeeds iff at least one owner acked, the failed list names exactly the owners that failed, and the own cache takes the write iff it is an owner. |
| Node.Node.HandleDelete | internal/node/node.go:324-342 | A delete succeeds iff an owner acked or there is no owner; the failed list names exactly those that failed; the own cache drops the key iff it is an owner. |
| Node.Node.InternalGet | internal/node/node.go:344-358 | A peer is served from the own cache, with the remaining life in whole milliseconds. |
| Node.Node.InternalPut | internal/node/node.go:359-372 | A peer's write is applied or ignored by the cache's rule. |
| Node.Node.HandleTake | internal/node/node.go:529-566 | A take is refused when a number is negative, applied by the key's primary on its bucket store, forwarded to that primary alone, and lost with the peer marked when that fails. |
| Node.PreferLocalLoop | internal/node/node.go:753-766 | The two loops give self first and the others in order. |
| Cluster.CacheEffect | internal/node/node.go:344-382 | A protocol step leaves a node's cache alone, applies one cache operation to it, or empties it. |
| Cluster.RunInvariant | internal/node/node.go:290-527 | In every run all caches are well formed, every ack and message belongs to a known request, and an answered find comes from the owner being visited. |
| Cluster.StepKeepsAtLeast | internal/store/store.go:118-130 | A replica's written_at for a key never goes back while it holds the key. |
| Cluster.DeliveredIsAtLeast | internal/node/node.go:344-382 | After a delivery the replica holds that write or a newer one, even when it ignored it as stale. |
| Cluster.AckedIsNotApplied | internal/node/node.go:344-382 | Every delivered write is acked, and is applied if and only if the replica holds nothing newer. |
| Cluster.RunTracks | internal/node/node.go:427-451 | In every run the acks of a write come from its owners, and each node that acked has the write or a newer one. |
| Cluster.AckIsCounted | internal/node/node.go:427-451 | A sent ack is counted unless the owner was given up, and an owner is given up unless it was counted. |
| Cluster.CountedOnce | internal/node/node.go:427-451 | In every run an owner is counted once, as acked or as failed, and stays so. |
| Cluster.FullAckHappens | internal/node/node.go:427-451 | A SET whose owners all run can be acked by every one of them, with the key kept everywhere on the way. |
| Cluster.AckMeansFresh | internal/node/node.go:427-451 | An ack counted at the coordinator means that owner has the write or a newer one, if it has kept the key. |
| Cluster.LaterReadsAreFresh | internal/node/node.go:264-287 | Once all owners have a write or newer, every later hit over them is at least as new. |
| Cluster.FullyAckedWritesStayFresh | internal/node/node.go:427-527 | Once a SET is acked by all owners, every later hit is at least as new, under loss, delay, duplication and reordering of writes and repairs. |
| Cluster.RunProgress | internal/node/node.go:264-287 | Every completed visit takes a read one owner further; it is finished once it has completed as many visits as there are owners. |
| Cluster.ReadCanGoOn | internal/node/node.go:264-287 | An open read that is not finished can complete its next visit, without a failure if that node is running. |
| Cluster.ReadFindsSurvivor | internal/node/node.go:264-287 | A read whose owners include one that has the key and answers ends in a hit: finished means hit, and it is finished after a visit for every owner. |
| Cluster.AckedReplicaIsFound | README.md:177-181 | One acked, kept and answering replica is enough for a later read to end in a hit, through failures and restarts of all the others. |
| Cluster.JoinKeepsAnOwner | internal/node/node.go:681-695 | With R >= 2 at the reader some old owner is still an owner after a join. |
| Cluster.LeaveKeepsAnOwner | internal/node/node.go:698-712 | With R >= 2 at the writer and two members, some other old owner is still an owner after a leave. |
| Cluster.MembershipChangeSurvives | internal/node/node.go:264-287 | A read of what all owners hold ends in a hit after any joins and leaves, fewer than the reader's and the writer's replicas, if the old owners that remain keep it and answer. |
| Cluster.AckedWriteSurvivesChange | internal/node/node.go:681-712 | A read of a SET acked by all its owners ends in a hit through any coordinator that has learnt of such a change. |
| Cluster.DeleteIsFinalExactly | internal/node/node.go:324-342 | Once no node holds a key, no run without a new SET of it brings it back if and only if no write of it is still on its way and no answered read of it is still to be repaired. |
| Cluster.RepairsCome | internal/node/node.go:502-527 | An answered read sends repairs only if another owner is to be repaired and an own item had a millisecond left. |
| Cluster.FindComesBack | internal/node/node.go:280-285 | An answered read that is still to be repaired can bring its key back without a new SET. |
| Cluster.RunStaysGone | internal/node/node.go:290-527 | A key that is nowhere, not on its way and not about to be repaired stays so in every run without a new SET of it. |
| Cluster.WriteComesBack | internal/node/node.go:502-527 | Any write still on its way can bring its key back without a new SET. |
| Cluster.LateWriteUndoesDelete | internal/node/node.go:502-527 | At the node it is delivered to, the write brings the key back however old it is. |
| Cluster.RestartLosesAll | internal/store/store.go:64-77 | A restart loses everything the node held, and touches no other. |
| Cluster.SweepLosesExpired | internal/store/store.go:191-203 | A sweep loses exactly what has run out by then, and touches no other node. |
| Cluster.DeleteLosesItsKey | internal/node/node.go:344-382 | A delete loses its key and nothing else. |
| Cluster.EndsAre | internal/node/node.go:248-288 | A forgotten message is not delivered any more; a read given up by its client goes no further and repairs nothing. |
| Cluster.EveryDeploymentIsSound | internal/node/node.go:61-116 | The invariant holds in every run from nothing, and a node that boots starts empty with the members it was given. |
| NodeSteps.HandleGetIsSteps | internal/node/node.go:248-288 | A node's read is a run of steps: it ends with the outcome, the own cache and the repairs on their way that HandleGet gives. |
| NodeSteps.WalkIsSteps | internal/node/node.go:264-287 | The rest of an owner walk is a run of steps that ends as the walk does. |
| NodeSteps.HandleSetIsSteps | internal/node/node.go:290-322 | A node's write is a SET that is started and the delivery of its own share. |
| NodeSteps.InternalPutIsDeliver | internal/node/node.go:359-372 | A peer's write is a delivery. |
| NodeSteps.MembershipIsSteps | internal/node/node.go:681-712 | A join or a leave changes the members a node knows, and so its owners, as a call on the ring does. |
| Semaphore.StepCounts | pkg/ratelimit/middleware.go:243-255 | Every atomic step keeps each counter equal to its holders and within 0..max. |
| Semaphore.CountersCountHolders | pkg/ratelimit/middleware.go:243-255 | So in every interleaving of any number of threads. |
| Semaphore.RejectsOnlyWhenFull | pkg/ratelimit/middleware.go:243-255 | A thread is turned away iff the key is fully held at the moment it loads. |
| Semaphore.ReleaseFreesASlot | pkg/ratelimit/middleware.go:251-252 | A release makes holders and counter one less, the thread none of them, and the next load on the key is admitted; other keys keep their holders. |
| Semaphore.FreeSlotIsTaken | pkg/ratelimit/middleware.go:243-255 | A thread that enters while there is a free slot, and is not interrupted, holds it. |
| Semaphore.FailedSwapRetries | pkg/ratelimit/middleware.go:246-254 | A thread whose swap fails changes nothing and loads the counter as it is now. |
| Semaphore.SwapComparesHolders | pkg/ratelimit/middleware.go:243-255 | A swap succeeds iff the number of holders is what the thread loaded, and then stays within the maximum. |
| Semaphore.SwapFailsOnlyOnInterference | pkg/ratelimit/middleware.go:243-255 | If a swap fails, another thread has swapped or released on the same key since this thread's load. |

## Left out

- FNV-1a: the hash is arbitrary, so nothing is claimed about how evenly keys spread or what share of them a join moves.
- HTTP servers and clients, JSON, URL escaping, key and value size checks, trimming of ids: I/O plumbing. Whether an address parses is a parameter of the join.
- Locks: every method that holds its mutex throughout is one atomic step; a node's handlers hold none, and are taken apart into steps in `Cluster`. The two locks that `join` and `leave` take one after the other are one step as well, so a request between them is not modelled.
- Tickers, Close, once-guards, logging, exported counters: a sweep may happen at any time instead.
- Integer width and floating point: counters, nanoseconds and stamps are unbounded integers; tokens, rates and seconds are reals. Overflow of the retry-after computation and NaN are not modelled.
- Strings: sequences of characters compared character by character, where Go compares bytes.
- Element: the fields of a cache item are one value field that is overwritten in place.
- Ring.SortSlice: an insertion sort stands for sort.Slice; callers rely only on its contract.
- Slice.Slice.Append: the size of a grown backing array is chosen freely, and a grown slice starts a new array.
- RateLimiter.RateLimiter.Take: negative limits are clamped for a new bucket only, as in the code; the results over runs assume limits that are not negative, which the request parser checks (internal/node/node.go:597-599, `NodeModel.ParseTake`).
- Node.Node.New: the listen address and the timeout of calls to peers, which only the network sees.
- Node.Node.HandleTake: what the primary answers to a forwarded take is a parameter, as are the peers' answers to a read.
- Node.Node.HandleGet: one clock reading serves a whole request, and an empty ring and unreachable owners, both answered as unavailable, are one outcome.
- Cluster.CacheEffect: the breaker only decides which reads fail; since any read may fail at any time in `Cluster`, it is modelled separately in `NodeModel` and `Node`. A coordinator's write to its own cache is a message like any other.
- NodeSteps.HandleGetIsSteps: the run it gives is the one in which nothing else happens meanwhile and all clocks show one time, as HandleGet takes it; other interleavings are runs of `Cluster` only.
- Cluster.FullyAckedWritesStayFresh: claims nothing for writes acked by fewer than all owners, which the code does not promise.
- RateLimitCluster.ClusterIsLimited: claims nothing across a change of membership, or an eviction for lack of room, after which a key starts with a full bucket.
- Semaphore: the release closure is called at most once by each holder, as the middleware does.
- The middleware's fail-open, dry-run and kill-switch branches, the load generators, examples and scripts: nothing beyond one branch each.
- Accessors that only report (ring description and sizes, member list, statistics replies).
