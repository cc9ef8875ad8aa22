/** The in-flight limiter: any number of threads load, compare-and-swap and release shared
    counters, interleaved in any order. */
module Semaphore {
  import opened Seqs

  /** Where a thread is in acquireInflight or after it. */
  datatype Thread =
    | Looping(key: string)
    | Loaded(key: string, cur: int)
    | Holding(key: string)
    | Rejected(key: string)
    | Done(key: string)

  datatype State = State(counters: map<string, int>, threads: map<nat, Thread>)

  datatype Step =
    | Enter(thread: nat, key: string)
    | Load(thread: nat)
    | Swap(thread: nat)
    | Release(thread: nat)

  /** One atomic step of one thread. A failed swap goes back to load; a step that a thread is
      not ready for changes nothing. */
  function Apply(max: int, s: State, step: Step): State {
    if !step.Enter? && step.thread !in s.threads then s
    else
      match step
      case Enter(t, key) =>
        if t in s.threads then s
        else State(if key in s.counters then s.counters else s.counters[key := 0], s.threads[t := Looping(key)])
      case Load(t) =>
        (match s.threads[t]
         case Looping(key) =>
           if key !in s.counters then s
           else if s.counters[key] >= max then s.(threads := s.threads[t := Rejected(key)])
           else s.(threads := s.threads[t := Loaded(key, s.counters[key])])
         case _ => s)
      case Swap(t) =>
        (match s.threads[t]
         case Loaded(key, cur) =>
           if key in s.counters && s.counters[key] == cur then
             State(s.counters[key := cur + 1], s.threads[t := Holding(key)])
           else s.(threads := s.threads[t := Looping(key)])
         case _ => s)
      case Release(t) =>
        (match s.threads[t]
         case Holding(key) =>
           if key !in s.counters then s
           else State(s.counters[key := s.counters[key] - 1], s.threads[t := Done(key)])
         case _ => s)
  }

  function Run(max: int, s: State, steps: seq<Step>): State {
    if steps == [] then s else Apply(max, Run(max, s, Init(steps)), Last(steps))
  }

  const START := State(map[], map[])

  function Holders(s: State, key: string): set<nat> {
    set t | t in s.threads && s.threads[t] == Holding(key)
  }

  /** Every counter counts the holders of its key and stays within 0..max; a loaded value was
      below the maximum. */
  ghost predicate Counts(max: int, s: State) {
    && (forall k :: k in s.counters ==> s.counters[k] == |Holders(s, k)| && 0 <= s.counters[k] <= max)
    && (forall t :: t in s.threads ==> s.threads[t].key in s.counters)
    && (forall t :: t in s.threads && s.threads[t].Loaded? ==> s.threads[t].cur < max)
  }

  lemma OneMore(s: State, s': State, t: nat, key: string)
    requires t in s.threads && s.threads[t] != Holding(key) && s'.threads == s.threads[t := Holding(key)]
    ensures Holders(s', key) == Holders(s, key) + {t} && |Holders(s', key)| == |Holders(s, key)| + 1
    ensures forall k :: k != key && s.threads[t] != Holding(k) ==> Holders(s', k) == Holders(s, k)
  {
    assert Holders(s', key) == Holders(s, key) + {t};
  }

  lemma OneLess(s: State, s': State, t: nat, key: string)
    requires t in s.threads && s.threads[t] == Holding(key) && s'.threads == s.threads[t := Done(key)]
    ensures |Holders(s', key)| == |Holders(s, key)| - 1
    ensures forall k :: k != key ==> Holders(s', k) == Holders(s, k)
  {
    assert Holders(s, key) == Holders(s', key) + {t};
    forall k | k != key ensures Holders(s', k) == Holders(s, k) {
      assert forall x :: x in Holders(s', k) <==> x in Holders(s, k);
    }
  }

  lemma Same(s: State, s': State, t: nat, th: Thread)
    requires s'.threads == s.threads[t := th] && !th.Holding? && (t in s.threads ==> !s.threads[t].Holding?)
    ensures forall k :: Holders(s', k) == Holders(s, k)
  {
    forall k ensures Holders(s', k) == Holders(s, k) {
      assert forall x :: x in Holders(s', k) <==> x in Holders(s, k);
    }
  }

  lemma StepCounts(max: int, s: State, step: Step)
    requires max >= 0 && Counts(max, s)
    ensures Counts(max, Apply(max, s, step))
  {
    hide Holders;
    var s' := Apply(max, s, step);
    var t := step.thread;
    if s'.threads != s.threads {
      if t in s.threads && s.threads[t].Holding? {
        OneLess(s, s', t, s.threads[t].key);
      } else if s'.threads[t].Holding? {
        OneMore(s, s', t, s'.threads[t].key);
      } else {
        Same(s, s', t, s'.threads[t]);
      }
    }
    if step.Enter? && step.thread !in s.threads && step.key !in s.counters {
      NobodyHolds(s, step.key);
    }
  }

  lemma NobodyHolds(s: State, key: string)
    requires forall t :: t in s.threads ==> s.threads[t].key in s.counters
    requires key !in s.counters
    ensures |Holders(s, key)| == 0
  {
    assert Holders(s, key) == {};
  }

  /** In every interleaving the counter of a key is the number of its holders, and never more
      than the maximum. */
  lemma {:induction false} CountersCountHolders(max: int, steps: seq<Step>)
    requires max >= 0
    ensures Counts(max, Run(max, START, steps))
  {
    if steps != [] {
      CountersCountHolders(max, Init(steps));
      StepCounts(max, Run(max, START, Init(steps)), Last(steps));
    }
  }

  /** A thread is turned away exactly when, at the moment it loads, the key is fully held: the
      limiter rejects nobody it could admit. */
  lemma RejectsOnlyWhenFull(max: int, steps: seq<Step>, t: nat)
    requires max >= 0
    requires var s := Run(max, START, steps); t in s.threads && s.threads[t].Looping?
    ensures var s := Run(max, START, steps);
      Apply(max, s, Load(t)).threads[t].Rejected? <==> |Holders(s, s.threads[t].key)| == max
  {
    CountersCountHolders(max, steps);
  }

  /** A swap succeeds exactly when the number of holders is what the thread loaded, and then
      stays within the maximum, whatever happened in between. */
  lemma SwapComparesHolders(max: int, steps: seq<Step>, t: nat)
    requires max >= 0
    requires var s := Run(max, START, steps); t in s.threads && s.threads[t].Loaded?
    ensures var s := Run(max, START, steps);
      var th := s.threads[t];
      && (Apply(max, s, Swap(t)).threads[t].Holding? <==> |Holders(s, th.key)| == th.cur)
      && (Apply(max, s, Swap(t)).threads[t].Holding? ==> |Holders(Apply(max, s, Swap(t)), th.key)| == th.cur + 1 <= max)
  {
    CountersCountHolders(max, steps);
    var s := Run(max, START, steps);
    StepCounts(max, s, Swap(t));
  }

  /** The step is another thread's swap or release that moves the counter of the key. */
  predicate Interferes(max: int, s: State, step: Step, t: nat, key: string) {
    && step.thread != t && (step.Swap? || step.Release?)
    && key in s.counters && key in Apply(max, s, step).counters && Apply(max, s, step).counters[key] != s.counters[key]
  }

  lemma {:induction false} LoadedUntilSwap(max: int, s: State, between: seq<Step>, t: nat)
    requires t in s.threads && s.threads[t].Loaded? && s.threads[t].key in s.counters
    requires Swap(t) !in between
    ensures var end, key := Run(max, s, between), s.threads[t].key;
      && t in end.threads && end.threads[t] == s.threads[t] && key in end.counters
      && (end.counters[key] == s.counters[key] ||
          exists i :: 0 <= i < |between| && Interferes(max, Run(max, s, between[..i]), between[i], t, key))
  {
    if between != [] {
      var init, last, key := Init(between), Last(between), s.threads[t].key;
      assert forall step :: step in init ==> step in between;
      assert last in between;
      LoadedUntilSwap(max, s, init, t);
      var before := Run(max, s, init);
      if before.counters[key] != s.counters[key] {
        var i :| 0 <= i < |init| && Interferes(max, Run(max, s, init[..i]), init[i], t, key);
        assert between[..i] == init[..i] && between[i] == init[i];
      } else if Apply(max, before, last).counters[key] != before.counters[key] {
        assert between[..|init|] == init && between[|init|] == last;
        assert Interferes(max, before, last, t, key);
      }
    }
  }

  /** A swap fails only on interference: since the thread's load, another thread has swapped or
      released on the same key. */
  lemma SwapFailsOnlyOnInterference(max: int, before: seq<Step>, t: nat, between: seq<Step>)
    requires max >= 0 && Swap(t) !in between
    requires var s := Run(max, START, before);
      t in s.threads && s.threads[t].Looping? && Apply(max, s, Load(t)).threads[t].Loaded?
    ensures var loaded := Apply(max, Run(max, START, before), Load(t));
      var end := Run(max, loaded, between);
      && t in end.threads
      && (Apply(max, end, Swap(t)).threads[t].Holding? ||
          exists i :: 0 <= i < |between| &&
            Interferes(max, Run(max, loaded, between[..i]), between[i], t, loaded.threads[t].key))
  {
    CountersCountHolders(max, before);
    LoadedUntilSwap(max, Apply(max, Run(max, START, before), Load(t)), between, t);
  }

  /** A release gives the slot back: the holders and the counter of the key are one less, the
      thread is none of them, and the next load on the key is not turned away. Other keys keep
      their holders. */
  lemma ReleaseFreesASlot(max: int, steps: seq<Step>, t: nat, u: nat)
    requires max >= 0
    requires var s := Run(max, START, steps);
      && t in s.threads && s.threads[t].Holding?
      && u in s.threads && s.threads[u] == Looping(s.threads[t].key)
    ensures var s := Run(max, START, steps);
      var s', key := Apply(max, s, Release(t)), s.threads[t].key;
      && key in s.counters && key in s'.counters
      && Holders(s', key) == Holders(s, key) - {t} && |Holders(s', key)| == |Holders(s, key)| - 1
      && s'.counters[key] == s.counters[key] - 1
      && (forall k :: k != key ==> Holders(s', k) == Holders(s, k))
      && Apply(max, s', Load(u)).threads[u].Loaded?
  {
    CountersCountHolders(max, steps);
    var s := Run(max, START, steps);
    var s', key := Apply(max, s, Release(t)), s.threads[t].key;
    OneLess(s, s', t, key);
    assert Holders(s', key) == Holders(s, key) - {t};
  }

  /** A thread that enters while the key has a free slot, and is not interrupted, gets it. */
  lemma FreeSlotIsTaken(max: int, steps: seq<Step>, t: nat, key: string)
    requires max >= 0
    requires var s := Run(max, START, steps); t !in s.threads && |Holders(s, key)| < max
    ensures var s := Run(max, START, steps);
      var s' := Apply(max, Apply(max, Apply(max, s, Enter(t, key)), Load(t)), Swap(t));
      && t in s'.threads && s'.threads[t] == Holding(key)
      && Holders(s', key) == Holders(s, key) + {t} && |Holders(s', key)| == |Holders(s, key)| + 1
      && key in s'.counters && s'.counters[key] == |Holders(s', key)|
  {
    hide Holders;
    CountersCountHolders(max, steps);
    var s := Run(max, START, steps);
    var entered := Apply(max, s, Enter(t, key));
    Same(s, entered, t, Looping(key));
    if key !in s.counters { NobodyHolds(s, key); }
    var loaded := Apply(max, entered, Load(t));
    Same(entered, loaded, t, loaded.threads[t]);
    var s' := Apply(max, loaded, Swap(t));
    OneMore(loaded, s', t, key);
  }

  /** A thread whose swap fails tries again: it loads the counter as it is now. */
  lemma FailedSwapRetries(max: int, steps: seq<Step>, t: nat)
    requires max >= 0
    requires var s := Run(max, START, steps);
      t in s.threads && s.threads[t].Loaded? && !Apply(max, s, Swap(t)).threads[t].Holding?
    ensures var s := Run(max, START, steps);
      var key, s' := s.threads[t].key, Apply(max, s, Swap(t));
      && s'.counters == s.counters && s'.threads == s.threads[t := Looping(key)]
      && (if |Holders(s, key)| < max then Apply(max, s', Load(t)).threads[t] == Loaded(key, |Holders(s, key)|)
          else Apply(max, s', Load(t)).threads[t] == Rejected(key))
  {
    CountersCountHolders(max, steps);
  }
}
