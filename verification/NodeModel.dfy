/** One node's part of the protocol, as values: the order in which a read visits the owners,
    what the visits add up to, the read-side breaker, and how a remaining lifetime travels. */
module NodeModel {
  import opened Seqs
  import opened LruModel
  import R = RingModel
  import B = BucketModel
  import Text

  // ---------- the order of a read ----------

  function Is(id: string): string -> bool { (x: string) => x == id }

  /** Self first if it is an owner, then the others in ring order. */
  function PreferLocal(owners: seq<string>, self: string): seq<string> {
    Filter(owners, Is(self)) + Filter(owners, R.IsNot(self))
  }

  lemma SplitBySelf(owners: seq<string>, self: string)
    ensures forall x :: x in PreferLocal(owners, self) <==> x in owners
    ensures multiset(PreferLocal(owners, self)) == multiset(owners)
  {
    var a, b := Filter(owners, Is(self)), Filter(owners, R.IsNot(self));
    FilterKeeps(owners, Is(self));
    FilterKeeps(owners, R.IsNot(self));
    forall x ensures multiset(a + b)[x] == multiset(owners)[x] {
      FilterCount(owners, Is(self), x);
      FilterCount(owners, R.IsNot(self), x);
    }
  }

  lemma OthersStayInOrder(owners: seq<string>, self: string)
    ensures Filter(PreferLocal(owners, self), R.IsNot(self)) == Filter(owners, R.IsNot(self))
  {
    var a, b := Filter(owners, Is(self)), Filter(owners, R.IsNot(self));
    FilterKeeps(owners, Is(self));
    FilterKeeps(owners, R.IsNot(self));
    FilterConcat(a, b, R.IsNot(self));
    FilterNone(a, R.IsNot(self));
    FilterAll(b, R.IsNot(self));
    assert [] + b == b;
  }

  lemma ConcatNoDup(a: seq<string>, b: seq<string>)
    requires NoDup(a) && NoDup(b) && forall x :: x in a ==> x !in b
    ensures NoDup(a + b)
  {
    forall i, j | 0 <= i < |a| && 0 <= j < |b| ensures a[i] != b[j] {
      assert a[i] in a && b[j] in b;
    }
  }

  /** A reordering of the owners: nobody is added, dropped or repeated, self comes first, and
      the others stay in ring order. */
  lemma PreferLocalVisitsOwners(owners: seq<string>, self: string)
    ensures multiset(PreferLocal(owners, self)) == multiset(owners)
    ensures Elements(PreferLocal(owners, self)) == Elements(owners)
    ensures self in owners ==> |PreferLocal(owners, self)| > 0 && PreferLocal(owners, self)[0] == self
    ensures Filter(PreferLocal(owners, self), R.IsNot(self)) == Filter(owners, R.IsNot(self))
    ensures NoDup(owners) ==> NoDup(PreferLocal(owners, self))
  {
    hide NoDup, Filter;
    SplitBySelf(owners, self);
    var a, b := Filter(owners, Is(self)), Filter(owners, R.IsNot(self));
    FilterKeeps(owners, Is(self));
    FilterKeeps(owners, R.IsNot(self));
    if self in owners {
      assert self in a;
      assert a[0] in a;
    }
    OthersStayInOrder(owners, self);
    if NoDup(owners) {
      FilterNoDup(owners, Is(self));
      FilterNoDup(owners, R.IsNot(self));
      ConcatNoDup(a, b);
    }
  }

  /** Self is visited first if at all. */
  lemma SelfOnlyFirst(owners: seq<string>, self: string)
    requires NoDup(owners)
    ensures var order := PreferLocal(owners, self);
      && NoDup(order)
      && (forall i :: 0 < i < |order| ==> order[i] != self)
      && (self in owners <==> order != [] && order[0] == self)
  {
    PreferLocalVisitsOwners(owners, self);
    var order := PreferLocal(owners, self);
    if order != [] && order[0] == self {
      assert self in Elements(order);
    }
    forall i | 0 < i < |order| ensures order[i] != self {
      assert order[i] in Elements(order);
    }
  }

  // ---------- the fan-out of a write ----------

  /** One owner's answer, in the order the answers arrive. */
  datatype Answer = Answer(owner: string, failed: bool, at: int)

  function Acked(answers: seq<Answer>): nat {
    if answers == [] then 0 else Acked(Init(answers)) + if Last(answers).failed then 0 else 1
  }

  function Failed(answers: seq<Answer>): seq<string> {
    if answers == [] then []
    else
      var a := Last(answers);
      Failed(Init(answers)) + if a.failed then [a.owner] else []
  }

  function MarkFailed(down: map<string, int>, self: string, answers: seq<Answer>, breakFor: int): map<string, int> {
    if answers == [] then down
    else
      var a := Last(answers);
      var before := MarkFailed(down, self, Init(answers), breakFor);
      if a.failed then MarkDown(before, self, a.owner, a.at + breakFor) else before
  }

  /** Every owner is counted once, as acked or as failed; so the write is fully acked exactly
      when nobody failed, and accepted at all exactly when somebody did not. */
  lemma {:induction false} EveryOwnerIsCounted(answers: seq<Answer>)
    ensures Acked(answers) + |Failed(answers)| == |answers|
    ensures Acked(answers) == |answers| <==> forall i :: 0 <= i < |answers| ==> !answers[i].failed
    ensures Acked(answers) >= 1 <==> exists i :: 0 <= i < |answers| && !answers[i].failed
    ensures forall x :: x in Failed(answers) <==>
      exists i :: 0 <= i < |answers| && answers[i].failed && answers[i].owner == x
  {
    if answers != [] {
      var init := Init(answers);
      EveryOwnerIsCounted(init);
      assert forall i :: 0 <= i < |init| ==> init[i] == answers[i];
    }
  }

  /** In the order of Go's sort.Strings. */
  ghost predicate SortedIds(ids: seq<string>) {
    forall i, j :: 0 <= i < j < |ids| ==> !Text.Less(ids[j], ids[i])
  }

  /** A list of failed owners names exactly those that failed, each as often as it did. */
  ghost predicate NamesFailed(failed: seq<string>, answers: seq<Answer>) {
    && SortedIds(failed) && multiset(failed) == multiset(Failed(answers))
    && forall x :: x in failed <==> exists i :: 0 <= i < |answers| && answers[i].failed && answers[i].owner == x
  }

  lemma NamesAre(failed: seq<string>, answers: seq<Answer>)
    requires SortedIds(failed) && multiset(failed) == multiset(Failed(answers))
    ensures NamesFailed(failed, answers) && |failed| == |Failed(answers)|
    ensures Elements(failed) == Elements(Failed(answers))
  {
    EveryOwnerIsCounted(answers);
    assert |multiset(failed)| == |failed| && |multiset(Failed(answers))| == |Failed(answers)|;
    forall x ensures x in failed <==> x in Failed(answers) {
      assert x in failed <==> x in multiset(failed);
    }
  }

  function Answerers(answers: seq<Answer>): seq<string> {
    seq(|answers|, i requires 0 <= i < |answers| => answers[i].owner)
  }

  /** Every owner answers once, in any order. */
  ghost predicate OneAnswerEach(answers: seq<Answer>, owners: seq<string>) {
    multiset(Answerers(answers)) == multiset(owners)
  }

  lemma AnswersComeFromOwners(answers: seq<Answer>, owners: seq<string>)
    requires OneAnswerEach(answers, owners)
    ensures |answers| == |owners|
    ensures Elements(Failed(answers)) <= Elements(owners)
  {
    assert |multiset(owners)| == |owners| && |multiset(Answerers(answers))| == |answers|;
    EveryOwnerIsCounted(answers);
    forall x | x in Failed(answers) ensures x in owners {
      var i :| 0 <= i < |answers| && answers[i].failed && answers[i].owner == x;
      assert Answerers(answers)[i] == x;
      assert x in multiset(Answerers(answers));
    }
  }

  /** A fan-out over distinct owners marks exactly the peers that failed, each until `breakFor`
      after its failure; it never marks self and forgets nothing. */
  lemma {:induction false} FailuresAreMarked(down: map<string, int>, self: string, answers: seq<Answer>,
                                             breakFor: int, peer: string)
    requires forall i, j :: 0 <= i < j < |answers| ==> answers[i].owner != answers[j].owner
    ensures var after := MarkFailed(down, self, answers, breakFor);
      && (peer in after && (peer !in down || after[peer] != down[peer]) ==> peer != self && peer in Failed(answers))
      && (peer in down ==> peer in after)
      && forall i :: 0 <= i < |answers| && answers[i].failed && answers[i].owner == peer && peer != self ==>
           peer in after && after[peer] == answers[i].at + breakFor
  {
    if answers != [] {
      var init := Init(answers);
      FailuresAreMarked(down, self, init, breakFor, peer);
      assert forall i :: 0 <= i < |init| ==> init[i] == answers[i];
    }
  }

  // ---------- what a read returns ----------

  datatype Reply = Found(item: Item) | Missing | Unreachable

  datatype GetOutcome = Hit(servedBy: string, found: Item) | NotFound | AllUnreachable

  /** The first live hit wins; without one, a reached owner makes it "not found". */
  function Outcome(order: seq<string>, replies: string -> Reply): GetOutcome {
    if order == [] then AllUnreachable
    else
      match replies(order[0])
      case Found(item) => Hit(order[0], item)
      case Missing =>
        var rest := Outcome(order[1..], replies);
        if rest.AllUnreachable? then NotFound else rest
      case Unreachable => Outcome(order[1..], replies)
  }

  ghost predicate FirstHit(order: seq<string>, replies: string -> Reply, i: int) {
    && 0 <= i < |order| && replies(order[i]).Found?
    && forall j :: 0 <= j < i ==> !replies(order[j]).Found?
  }

  /** The outcome in terms of all the replies at once. */
  lemma {:induction false} OutcomeIs(order: seq<string>, replies: string -> Reply)
    ensures var o := Outcome(order, replies);
      && (o.Hit? <==> exists i :: 0 <= i < |order| && replies(order[i]).Found?)
      && (o.AllUnreachable? <==> forall i :: 0 <= i < |order| ==> replies(order[i]).Unreachable?)
      && (o.Hit? ==>
            exists i :: FirstHit(order, replies, i) && o.servedBy == order[i] && replies(order[i]) == Found(o.found))
  {
    if order != [] {
      OutcomeIs(order[1..], replies);
      var rest := order[1..];
      assert forall i :: 0 <= i < |rest| ==> rest[i] == order[i + 1];
      assert forall i :: 0 < i < |order| ==> order[i] == rest[i - 1];
      var o := Outcome(rest, replies);
      if replies(order[0]).Found? { assert FirstHit(order, replies, 0); }
      if o.Hit? && !replies(order[0]).Found? {
        var i :| FirstHit(rest, replies, i) && o.servedBy == rest[i] && replies(rest[i]) == Found(o.found);
        assert FirstHit(order, replies, i + 1);
      }
    }
  }

  // ---------- the read-side breaker ----------

  type Breaker = map<string, int>

  predicate IsDown(down: Breaker, id: string, now: int) {
    id in down && now < down[id]
  }

  /** An expired mark is forgotten when it is looked at. */
  function Checked(down: Breaker, id: string, now: int): Breaker {
    if id in down && now >= down[id] then down - {id} else down
  }

  function MarkDown(down: Breaker, self: string, id: string, until: int): Breaker {
    if id == self then down else down[id := until]
  }

  /** What the coordinator sees of an owner: a marked peer counts as unreachable, unasked. */
  function Effective(down: Breaker, self: string, id: string, reply: Reply, now: int): Reply {
    if id != self && IsDown(down, id, now) then Unreachable else reply
  }

  function EffectiveReplies(down: Breaker, self: string, replies: string -> Reply, now: int): string -> Reply {
    (x: string) => Effective(down, self, x, replies(x), now)
  }

  /** The breaker after visiting one owner. */
  function Visit(down: Breaker, self: string, id: string, reply: Reply, now: int, breakFor: int): Breaker {
    var looked := if id == self then down else Checked(down, id, now);
    if Effective(down, self, id, reply, now).Unreachable? then MarkDown(looked, self, id, now + breakFor) else looked
  }

  /** The breaker after the visits of one read, which stop at the first hit. */
  function VisitAll(down: Breaker, self: string, order: seq<string>, replies: string -> Reply, now: int,
                    breakFor: int): Breaker
    decreases |order|
  {
    if order == [] then down
    else
      var next := Visit(down, self, order[0], replies(order[0]), now, breakFor);
      if Effective(down, self, order[0], replies(order[0]), now).Found? then next
      else VisitAll(next, self, order[1..], replies, now, breakFor)
  }

  /** The coordinator never marks itself down. */
  lemma {:induction false} SelfIsNeverDown(down: Breaker, self: string, order: seq<string>, replies: string -> Reply,
                                           now: int, breakFor: int)
    requires self !in down
    ensures self !in VisitAll(down, self, order, replies, now, breakFor)
    decreases |order|
  {
    if order != [] {
      var next := Visit(down, self, order[0], replies(order[0]), now, breakFor);
      SelfIsNeverDown(next, self, order[1..], replies, now, breakFor);
    }
  }

  /** A visit to an owner leaves the others' marks alone. */
  lemma VisitTouchesOne(down: Breaker, self: string, id: string, reply: Reply, now: int, breakFor: int, other: string)
    requires other != id
    ensures var after := Visit(down, self, id, reply, now, breakFor);
      (other in after <==> other in down) && (other in down ==> after[other] == down[other])
  {
  }

  /** What can happen to a peer's mark: a read visits it, a write or a forwarded take to it
      fails, it leaves. A read that fails only some time after it asked is a visit, and then a
      failure at its own time. */
  datatype Event =
    | ReadOf(peer: string, reply: Reply, at: int)
    | Failure(peer: string, at: int)
    | Leave(peer: string, at: int)

  function AfterEvent(down: Breaker, self: string, e: Event, breakFor: int): Breaker {
    match e
    case ReadOf(peer, reply, at) => Visit(down, self, peer, reply, at, breakFor)
    case Failure(peer, at) => MarkDown(down, self, peer, at + breakFor)
    case Leave(peer, _) => down - {peer}
  }

  function AfterEvents(self: string, es: seq<Event>, breakFor: int): Breaker {
    if es == [] then map[] else AfterEvent(AfterEvents(self, Init(es), breakFor), self, Last(es), breakFor)
  }

  predicate Ascending(es: seq<Event>) {
    forall i, j :: 0 <= i < j < |es| ==> es[i].at <= es[j].at
  }

  /** The last time since it last left that the peer failed, or was asked and did not answer, or
      was skipped for less than `breakFor` after such a time. */
  function LastMark(es: seq<Event>, peer: string, breakFor: int): Option<int> {
    if es == [] then None
    else
      var mark, e := LastMark(Init(es), peer, breakFor), Last(es);
      if e.peer != peer then mark
      else if e.Leave? then None
      else if e.Failure? || e.reply.Unreachable? || (mark.Some? && e.at < mark.value + breakFor) then Some(e.at)
      else mark
  }

  lemma {:induction false} MarksTrackEvents(self: string, es: seq<Event>, breakFor: int, peer: string)
    requires self != peer && Ascending(es)
    ensures var down, mark := AfterEvents(self, es, breakFor), LastMark(es, peer, breakFor);
      if peer in down then mark.Some? && down[peer] == mark.value + breakFor
      else mark.None? || (es != [] && mark.value + breakFor <= Last(es).at)
  {
    if es != [] {
      MarksTrackEvents(self, Init(es), breakFor, peer);
    }
  }

  /** When a peer is asked: over any run of reads with any replies, failed writes, failed
      forwards and leaves, with a clock that never goes back, a read asks a peer if and only if
      it has no mark since it last left, or `breakFor` has passed since the last; otherwise it
      counts as unreachable. Skipped reads mark, so what counts is not the last answer. */
  lemma AskedExactly(self: string, es: seq<Event>, breakFor: int, peer: string, now: int, reply: Reply)
    requires self != peer && Ascending(es) && (es != [] ==> Last(es).at <= now)
    ensures var mark := LastMark(es, peer, breakFor);
      && (!IsDown(AfterEvents(self, es, breakFor), peer, now) <==> mark.None? || now >= mark.value + breakFor)
      && Effective(AfterEvents(self, es, breakFor), self, peer, reply, now)
           == (if mark.None? || now >= mark.value + breakFor then reply else Unreachable)
  {
    MarksTrackEvents(self, es, breakFor, peer);
  }

  /** A mark that has run out is forgotten by the next read that is answered. */
  lemma AnswerForgetsMark(down: Breaker, self: string, peer: string, reply: Reply, now: int, breakFor: int)
    requires self != peer && !reply.Unreachable?
    ensures var after := Visit(down, self, peer, reply, now, breakFor);
      if peer in down && now < down[peer] then peer in after && after[peer] == now + breakFor else peer !in after
  {
  }

  lemma {:induction false} SkippedVisitsMark(es: seq<Event>, visits: seq<Event>, breakFor: int, peer: string, n: nat)
    requires n <= |visits| && LastMark(es, peer, breakFor).Some?
    requires forall i :: 0 <= i < |visits| ==> visits[i].ReadOf? && visits[i].peer == peer
    requires visits != [] ==> visits[0].at < LastMark(es, peer, breakFor).value + breakFor
    requires forall i :: 0 < i < |visits| ==> visits[i].at < visits[i - 1].at + breakFor
    ensures LastMark(es + visits[..n], peer, breakFor)
         == if n == 0 then LastMark(es, peer, breakFor) else Some(visits[n - 1].at)
  {
    if n == 0 {
      assert es + visits[..0] == es;
    } else {
      SkippedVisitsMark(es, visits, breakFor, peer, n - 1);
      assert Init(es + visits[..n]) == es + visits[..n - 1] && Last(es + visits[..n]) == visits[n - 1];
    }
  }

  /** So a marked peer is never asked again, however long ago it recovered, while reads keep
      coming in less than `breakFor` apart. */
  lemma BusyPeerIsNeverAsked(self: string, es: seq<Event>, visits: seq<Event>, breakFor: int, peer: string, n: nat)
    requires self != peer && Ascending(es + visits) && n < |visits| && LastMark(es, peer, breakFor).Some?
    requires forall i :: 0 <= i < |visits| ==> visits[i].ReadOf? && visits[i].peer == peer
    requires visits[0].at < LastMark(es, peer, breakFor).value + breakFor
    requires forall i :: 0 < i < |visits| ==> visits[i].at < visits[i - 1].at + breakFor
    ensures IsDown(AfterEvents(self, es + visits[..n], breakFor), peer, visits[n].at)
  {
    hide LastMark, AfterEvents;
    SkippedVisitsMark(es, visits, breakFor, peer, n);
    var all, before := es + visits, es + visits[..n];
    assert forall i :: 0 <= i < |before| ==> before[i] == all[i];
    assert all[|before|] == visits[n];
    AskedExactly(self, before, breakFor, peer, visits[n].at, Missing);
  }

  /** The owners a read visits: up to its first hit, or all of them. */
  ghost predicate VisitsUpTo(order: seq<string>, replies: string -> Reply, n: int) {
    if n > 0 && FirstHit(order, replies, n - 1) then true
    else n == |order| && forall i :: 0 <= i < |order| ==> !replies(order[i]).Found?
  }

  function ReadsOf(order: seq<string>, replies: string -> Reply, now: int): seq<Event> {
    seq(|order|, i requires 0 <= i < |order| => ReadOf(order[i], replies(order[i]), now))
  }

  /** To the breaker a read is a visit to each owner up to the first hit, and nothing else. */
  lemma {:induction false} ReadIsVisits(self: string, es: seq<Event>, breakFor: int, order: seq<string>,
                                        replies: string -> Reply, now: int, n: int)
    requires NoDup(order)
    requires VisitsUpTo(order, EffectiveReplies(AfterEvents(self, es, breakFor), self, replies, now), n)
    ensures 0 <= n <= |order|
    ensures VisitAll(AfterEvents(self, es, breakFor), self, order, replies, now, breakFor)
         == AfterEvents(self, es + ReadsOf(order[..n], replies, now), breakFor)
    decreases |order|
  {
    var down := AfterEvents(self, es, breakFor);
    var seen := EffectiveReplies(down, self, replies, now);
    if order == [] {
      assert es + ReadsOf(order[..n], replies, now) == es;
    } else {
      var e := ReadOf(order[0], replies(order[0]), now);
      EventSnoc(self, es, e, breakFor);
      if seen(order[0]).Found? {
        assert n == 1;
        assert es + ReadsOf(order[..n], replies, now) == es + [e];
      } else {
        var rest, next := order[1..], AfterEvents(self, es + [e], breakFor);
        StillUpTo(down, self, order, replies, now, breakFor, n);
        ReadIsVisits(self, es + [e], breakFor, rest, replies, now, n - 1);
        assert es + [e] + ReadsOf(rest[..n - 1], replies, now) == es + ReadsOf(order[..n], replies, now);
      }
    }
  }

  lemma EventSnoc(self: string, es: seq<Event>, e: Event, breakFor: int)
    ensures AfterEvents(self, es + [e], breakFor) == AfterEvent(AfterEvents(self, es, breakFor), self, e, breakFor)
  {
    assert Init(es + [e]) == es && Last(es + [e]) == e;
  }

  lemma StillUpTo(down: Breaker, self: string, order: seq<string>, replies: string -> Reply, now: int,
                  breakFor: int, n: int)
    requires order != [] && NoDup(order) && VisitsUpTo(order, EffectiveReplies(down, self, replies, now), n)
    requires !Effective(down, self, order[0], replies(order[0]), now).Found?
    ensures n >= 1
    ensures var next := Visit(down, self, order[0], replies(order[0]), now, breakFor);
      VisitsUpTo(order[1..], EffectiveReplies(next, self, replies, now), n - 1)
  {
    var next, rest := Visit(down, self, order[0], replies(order[0]), now, breakFor), order[1..];
    var seen, later := EffectiveReplies(down, self, replies, now), EffectiveReplies(next, self, replies, now);
    forall i | 0 <= i < |rest| ensures later(rest[i]) == seen(order[i + 1]) {
      VisitTouchesOne(down, self, order[0], replies(order[0]), now, breakFor, rest[i]);
    }
    if n > 0 && FirstHit(order, seen, n - 1) {
      assert n > 1;
      assert FirstHit(rest, later, n - 2);
    }
  }

  function FailuresOf(answers: seq<Answer>): seq<Event> {
    if answers == [] then []
    else
      var a := Last(answers);
      FailuresOf(Init(answers)) + if a.failed then [Failure(a.owner, a.at)] else []
  }

  /** To the breaker a fan-out is its failures. */
  lemma {:induction false} FanoutIsFailures(self: string, es: seq<Event>, breakFor: int, answers: seq<Answer>)
    ensures MarkFailed(AfterEvents(self, es, breakFor), self, answers, breakFor)
         == AfterEvents(self, es + FailuresOf(answers), breakFor)
  {
    hide AfterEvents;
    if answers == [] {
      assert es + [] == es;
    } else {
      var rest, a := FailuresOf(Init(answers)), Last(answers);
      FanoutIsFailures(self, es, breakFor, Init(answers));
      hide FailuresOf;
      FailuresSnoc(answers);
      if a.failed {
        EventSnoc(self, es + rest, Failure(a.owner, a.at), breakFor);
        assert es + rest + [Failure(a.owner, a.at)] == es + (rest + [Failure(a.owner, a.at)]);
      }
    }
  }

  lemma FailuresSnoc(answers: seq<Answer>)
    requires answers != []
    ensures FailuresOf(answers) ==
      if Last(answers).failed then FailuresOf(Init(answers)) + [Failure(Last(answers).owner, Last(answers).at)]
      else FailuresOf(Init(answers))
  {
  }

  // ---------- how a lifetime travels ----------

  const MILLISECOND := 1_000_000

  /** time.Duration.Milliseconds: truncated toward zero. */
  function Milliseconds(ns: int): int {
    if ns >= 0 then ns / MILLISECOND else -(-ns / MILLISECOND)
  }

  /** The lifetime field of a reply, made at `now`: absent without expiry, else whole
      milliseconds, not negative. */
  function EncodeTTL(expiresAt: Option<int>, now: int): Option<int> {
    match expiresAt
    case None => None
    case Some(exp) => Some(Max(Milliseconds(exp - now), 0))
  }

  /** What the coordinator makes of it: only a positive lifetime is an expiry. */
  function DecodeTTL(ttl: Option<int>, now: int): Option<int> {
    if ttl.Some? && ttl.value > 0 then Some(now + ttl.value * MILLISECOND) else None
  }

  /** The lifetime of a read-repair write, in milliseconds; None when nothing is sent. */
  function RepairTTL(expiresAt: Option<int>, now: int): Option<int> {
    match expiresAt
    case None => Some(0)
    case Some(exp) => if Milliseconds(exp - now) <= 0 then None else Some(Milliseconds(exp - now))
  }

  /** A peer's answer to a read. */
  datatype Wire = WireFound(value: string, ttl: Option<int>, writtenAt: int) | WireMissing | WireError

  /** What a node answers a peer from its own cache. */
  function Serve(c: Cache, key: string, now: int): Wire {
    match Get(c, key, now).1
    case None => WireMissing
    case Some(item) => WireFound(item.value, EncodeTTL(item.expiresAt, now), item.writtenAt)
  }

  /** What the coordinator makes of a peer's answer. */
  function Decode(key: string, w: Wire, now: int): Reply {
    match w
    case WireFound(value, ttl, writtenAt) => Found(Item(key, value, DecodeTTL(ttl, now), writtenAt))
    case WireMissing => Missing
    case WireError => Unreachable
  }

  /** What a peer's cache finds is what the coordinator gets: nothing, or the same version, with
      the lifetime that was left cut to whole milliseconds; less than one is no expiry at all. */
  lemma DecodedServe(c: Cache, key: string, served: int, received: int)
    ensures var found, reply := Get(c, key, served).1, Decode(key, Serve(c, key, served), received);
      && (found.None? <==> reply.Missing?) && (found.Some? <==> reply.Found?)
      && (found.Some? ==>
            && reply.item.key == key && reply.item.value == found.value.value
            && reply.item.writtenAt == found.value.writtenAt
            && (found.value.expiresAt.None? ==> reply.item.expiresAt.None?)
            && (found.value.expiresAt.Some? ==>
                  var left := found.value.expiresAt.value - served;
                  && (reply.item.expiresAt.None? <==> left < MILLISECOND)
                  && (reply.item.expiresAt.Some? ==>
                        received + left - MILLISECOND < reply.item.expiresAt.value <= received + left)))
  {
    hide Get;
    var found := Get(c, key, served).1;
    if found.Some? && found.value.expiresAt.Some? { MillisecondsBound(found.value.expiresAt.value - served); }
  }

  /** What the coordinator finds in its own cache. */
  function LocalReply(c: Cache, key: string, now: int): Reply {
    var found := Get(c, key, now).1;
    if found.Some? then Found(found.value) else Missing
  }

  /** What every owner has to say: the coordinator from its cache, the others over the wire. */
  function Replies(c: Cache, self: string, key: string, wires: string -> Wire, now: int): string -> Reply {
    (x: string) => if x == self then LocalReply(c, key, now) else Decode(key, wires(x), now)
  }

  /** A write on its way to an owner. */
  datatype Write = Write(to: string, key: string, value: string, ttl: int, writtenAt: int)

  function WriteTo(key: string, item: Item, ms: int): string -> Write {
    (to: string) => Write(to, key, item.value, ms * MILLISECOND, item.writtenAt)
  }

  /** The repair writes of a hit: one to every owner but the one that served it, with the
      lifetime that is left, and none at all if less than a millisecond is left. */
  function RepairWrites(owners: seq<string>, servedBy: string, key: string, item: Item, now: int): seq<Write> {
    match RepairTTL(item.expiresAt, now)
    case None => []
    case Some(ms) => Each(Filter(owners, R.IsNot(servedBy)), WriteTo(key, item, ms))
  }

  function Each(owners: seq<string>, write: string -> Write): seq<Write> {
    seq(|owners|, i requires 0 <= i < |owners| => write(owners[i]))
  }

  /** Every repair goes to another owner of the key and carries the version that was served, with
      the life that is left, in whole milliseconds; unless its life is over, every other owner
      gets one. */
  lemma RepairsReachTheOthers(owners: seq<string>, servedBy: string, key: string, item: Item, now: int)
    ensures var ws := RepairWrites(owners, servedBy, key, item, now);
      && (forall w :: w in ws ==>
            && w.to in owners && w.to != servedBy
            && w.key == key && w.value == item.value && w.writtenAt == item.writtenAt
            && (if item.expiresAt.None? then w.ttl == 0
                else 0 < w.ttl <= item.expiresAt.value - now < w.ttl + MILLISECOND))
      && (ws == [] || forall o :: o in owners && o != servedBy ==> exists w :: w in ws && w.to == o)
      && |ws| <= |Filter(owners, R.IsNot(servedBy))|
      && (item.expiresAt.None? || item.expiresAt.value - now >= MILLISECOND ==>
            forall o :: o in owners && o != servedBy ==> exists w :: w in ws && w.to == o)
  {
    var ws, ttl := RepairWrites(owners, servedBy, key, item, now), RepairTTL(item.expiresAt, now);
    var to := Filter(owners, R.IsNot(servedBy));
    FilterKeeps(owners, R.IsNot(servedBy));
    if item.expiresAt.Some? { MillisecondsBound(item.expiresAt.value - now); }
    if ttl.Some? {
      forall w | w in ws ensures w.to in to && w == WriteTo(key, item, ttl.value)(w.to) {
        var i :| 0 <= i < |ws| && ws[i] == w;
      }
      forall o | o in to ensures exists w :: w in ws && w.to == o {
        var i :| 0 <= i < |to| && to[i] == o;
        assert ws[i] in ws && ws[i].to == o;
      }
    }
  }

  lemma MillisecondsBound(ns: int)
    ensures ns >= MILLISECOND <==> Milliseconds(ns) > 0
    ensures ns >= 0 ==> Milliseconds(ns) * MILLISECOND <= ns < Milliseconds(ns) * MILLISECOND + MILLISECOND
  {
  }

  /** An item as the coordinator has it: its own, or what it made of a peer's answer. */
  function AsSeen(own: bool, item: Item, served: int, received: int): Item {
    if own then item else item.(expiresAt := DecodeTTL(EncodeTTL(item.expiresAt, served), received))
  }

  /** What an owner that holds nothing newer holds once a repair has been applied there. */
  function CopyOf(w: Write, applied: int): Item {
    NewItem(w.key, w.value, w.ttl, w.writtenAt, applied)
  }

  /** The life of a repaired copy. A copy never expires exactly when the item does not, or came
      from a peer that had less than a millisecond of it left; an own item with less than a
      millisecond left is not sent at all. A copy that does expire does so when the original
      does, shifted by the delays on the way and cut to milliseconds once or twice. */
  lemma RepairedLifetime(own: bool, item: Item, owners: seq<string>, servedBy: string, key: string,
                         served: int, received: int, sent: int, applied: int, w: Write)
    requires served <= received <= sent <= applied
    ensures var ws := RepairWrites(owners, servedBy, key, AsSeen(own, item, served, received), sent);
      && (own && item.expiresAt.Some? && item.expiresAt.value - sent < MILLISECOND ==> ws == [])
      && (w in ws && item.expiresAt.None? ==> CopyOf(w, applied).expiresAt.None?)
      && (w in ws && item.expiresAt.Some? ==>
            var exp, copy := item.expiresAt.value, CopyOf(w, applied).expiresAt;
            var late := (if own then 0 else received - served) + (applied - sent);
            && (copy.None? <==> !own && exp - served < MILLISECOND)
            && (copy.Some? ==> exp + late - 2 * MILLISECOND < copy.value <= exp + late))
  {
    var seen := AsSeen(own, item, served, received);
    RepairsReachTheOthers(owners, servedBy, key, seen, sent);
    if item.expiresAt.Some? {
      MillisecondsBound(item.expiresAt.value - served);
      MillisecondsBound(item.expiresAt.value - sent);
    }
    hide RepairWrites, Milliseconds;
    if own && item.expiresAt.Some? && item.expiresAt.value - sent < MILLISECOND {
      NothingLeft(owners, servedBy, key, item, sent);
    }
  }

  lemma NothingLeft(owners: seq<string>, servedBy: string, key: string, item: Item, sent: int)
    requires item.expiresAt.Some? && item.expiresAt.value - sent < MILLISECOND
    ensures RepairWrites(owners, servedBy, key, item, sent) == []
  {
    MillisecondsBound(item.expiresAt.value - sent);
  }

  /** A repair that arrives where the key is not held leaves that copy. */
  lemma RepairIsApplied(c: Cache, w: Write, applied: int)
    requires WellFormed(c) && !Holds(c, w.key)
    ensures Lookup(Set(c, w.key, w.value, w.ttl, w.writtenAt, applied).0.items, w.key) == Some(CopyOf(w, applied))
  {
    LookupFront(CopyOf(w, applied), c.items[..Min(|c.items|, c.capacity - 1)], w.key);
  }

  /** In particular a peer's item with less than a millisecond to live comes back without
      expiry. */
  lemma RepairCanMakeImmortal(owners: seq<string>, servedBy: string, other: string, key: string, value: string)
    returns (item: Item, now: int, w: Write)
    requires other in owners && other != servedBy
    ensures item.value == value && item.expiresAt.Some? && now < item.expiresAt.value
    ensures w in RepairWrites(owners, servedBy, key, AsSeen(false, item, now, now), now)
    ensures w.to == other && w.value == value && CopyOf(w, now).expiresAt.None?
  {
    item, now := Item(key, value, Some(1), 0), 0;
    RepairsReachTheOthers(owners, servedBy, key, AsSeen(false, item, now, now), now);
    w :| w in RepairWrites(owners, servedBy, key, AsSeen(false, item, now, now), now) && w.to == other;
    RepairedLifetime(false, item, owners, servedBy, key, now, now, now, now, w);
  }

  // ---------- a rate-limit request ----------

  /** What a request comes down to: a cost of zero means one, and negative numbers are refused. */
  function ParseTake(rate: real, burst: real, cost: real, now: real): Option<B.LimitedRequest> {
    if rate < 0.0 || burst < 0.0 || cost < 0.0 then None
    else Some(B.LimitedRequest(now, rate, burst, if cost == 0.0 then 1.0 else cost))
  }

  /** What the numbers of a request do: refused if any is negative, else the cost, or one for
      zero, is charged under that rate and that burst. */
  lemma ParsedTakeMeans(rate: real, burst: real, cost: real, now: real, b: B.Bucket)
    requires B.Sound(b) && b.lastRefill <= now
    ensures var req := ParseTake(rate, burst, cost, now);
      && (req.None? <==> rate < 0.0 || burst < 0.0 || cost < 0.0)
      && (req.Some? ==>
            var (c, res) := B.TakeLimited(b, req.value);
            var asked := if cost == 0.0 then 1.0 else cost;
            && c.rate == rate && c.burst == burst && c.lastRefill == now
            && (res.allowed <==> asked <= B.Least(B.Balance(b, now), burst))
            && c.tokens == B.Least(B.Balance(b, now), burst) - (if res.allowed then asked else 0.0))
  {
    hide B.TakeLimited, B.Affordable, B.Balance;
    var req := ParseTake(rate, burst, cost, now);
    if req.Some? {
      B.TakeLimitedExactly(b, req.value);
      B.AffordableIs(b, req.value);
    }
  }

  function Seconds(ns: int): real {
    ns as real / 1_000_000_000.0
  }

  /** A second is a thousand million nanoseconds, and times add up. */
  lemma SecondsAdd(a: int, b: int)
    ensures Seconds(a + b) == Seconds(a) + Seconds(b) && Seconds(1_000_000_000) == 1.0
    ensures a <= b <==> Seconds(a) <= Seconds(b)
  {
    assert (b - a) as real == b as real - a as real;
  }
}
