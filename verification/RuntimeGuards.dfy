/**
  The guard methods themselves, as one caller runs them over the cache, with the cache
  failing at any call, and their agreement with the interleaved protocols when nobody else
  moves and nothing fails.
 */
module RuntimeGuards {
  import ThreadSlots
  import RateWindow
  import opened Seqs

  type Thread = string

  /** The position of the cache call that raises, if one does. */
  type Outage = Option<nat>

  // ----- what the guards are supposed to do -----

  type Counters = map<int, nat>

  function CountOf(counters: Counters, window: int): nat {
    if window in counters then counters[window] else 0
  }

  datatype RateOutcome = RateOutcome(counters: Counters, allowed: bool)

  /** `allow_request`: calls 0 and 1 are `incr` and, for the first request of a window, `expire`. */
  function Allow(counters: Counters, window: int, requestsPerMinute: Option<nat>, outage: Outage): RateOutcome {
    if requestsPerMinute.None? then RateOutcome(counters, true)
    else if outage == Some(0) then RateOutcome(counters, false)
    else
      var current := CountOf(counters, window) + 1;
      RateOutcome(counters[window := current],
                  current <= requestsPerMinute.value && !(current == 1 && outage == Some(1)))
  }

  /** The active set and the slot keys after an acquisition, and its answer. */
  datatype SlotOutcome = SlotOutcome(active: set<Thread>, slots: set<Thread>, acquired: bool)

  /**
    `try_acquire_thread_slot`: call 0 is `exists`; with a slot key 1 and 2 refresh it,
    without one 1 to 4 are `sadd`, `set`, `scard`, `expire`, and 5 and 6 undo the entries.
   */
  function Acquire(active: set<Thread>, slots: set<Thread>, t: Thread, limit: nat, outage: Outage): SlotOutcome {
    var joined, counted := SlotOutcome(active + {t}, slots, false), SlotOutcome(active + {t}, slots + {t}, false);
    if outage == Some(0) then SlotOutcome(active, slots, false)
    else if t in slots then SlotOutcome(active, slots, outage != Some(1) && outage != Some(2))
    else if outage == Some(1) then SlotOutcome(active, slots, false)
    else if outage == Some(2) then joined
    else if outage == Some(3) || outage == Some(4) then counted
    else if |active + {t}| <= limit then counted.(acquired := true)
    else if outage == Some(5) then counted
    else if outage == Some(6) then counted.(active := active - {t})
    else SlotOutcome(active - {t}, slots, false)
  }

  /** `release_thread_slot`: calls 0 and 1 are `srem` and `delete`; a failure is swallowed. */
  function Released(active: set<Thread>, slots: set<Thread>, t: Thread, outage: Outage): (set<Thread>, set<Thread>) {
    if outage == Some(0) then (active, slots)
    else if outage == Some(1) then (active - {t}, slots)
    else (active - {t}, slots - {t})
  }

  /** The slot part of a message: acquire, and after processing release. */
  function Served(active: set<Thread>, slots: set<Thread>, t: Thread, maxConcurrentThreads: Option<nat>,
                  acquiring: Outage, releasing: Outage): SlotOutcome
  {
    var r := if maxConcurrentThreads.None? then SlotOutcome(active, slots, true)
             else Acquire(active, slots, t, maxConcurrentThreads.value, acquiring);
    if !r.acquired then r
    else
      var (active', slots') := Released(r.active, r.slots, t, releasing);
      SlotOutcome(active', slots', true)
  }

  /** While nothing fails, a message leaves nothing of its thread and touches no other, processed or refused. */
  lemma ServedCleanly(active: set<Thread>, slots: set<Thread>, t: Thread, maxConcurrentThreads: Option<nat>)
    ensures var r := Served(active, slots, t, maxConcurrentThreads, None, None);
      && r.active == active - {t} && r.slots == slots - {t}
      && (r.acquired <==> maxConcurrentThreads.None? || t in slots ||
                          |active + {t}| <= maxConcurrentThreads.value)
  {
    assert active + {t} - {t} == active - {t} && slots + {t} - {t} == slots - {t};
  }

  datatype Answer = RateLimited | ConcurrencyLimited | Processed

  class ProjectRuntimeGuards {
    /** Counters of request windows, the active-threads set, and the threads with a slot key. */
    var counters: Counters
    var active: set<Thread>
    var slots: set<Thread>

    constructor ()
      ensures counters == map[] && active == {} && slots == {}
    {
      counters, active, slots := map[], {}, {};
    }

    method Incr(window: int) returns (current: nat)
      modifies this`counters
      ensures current == CountOf(old(counters), window) + 1
      ensures counters == old(counters)[window := current]
    {
      current := CountOf(counters, window) + 1;
      counters := counters[window := current];
    }

    /** `allow_request` */
    method AllowRequest(now: real, requestsPerMinute: Option<nat>, outage: Outage) returns (allowed: bool)
      modifies this`counters
      ensures requestsPerMinute.None? ==> allowed && counters == old(counters)
      ensures RateOutcome(counters, allowed) == Allow(old(counters), RateWindow.Window(now), requestsPerMinute, outage)
    {
      if requestsPerMinute.None? {
        return true;
      }
      if outage == Some(0) {
        return false;
      }
      var current := Incr(RateWindow.Window(now));
      if current == 1 && outage == Some(1) {
        return false;
      }
      allowed := current <= requestsPerMinute.value;
    }

    /** `try_acquire_thread_slot` */
    method TryAcquireThreadSlot(t: Thread, maxConcurrentThreads: Option<nat>, outage: Outage) returns (acquired: bool)
      modifies this`active, this`slots
      ensures maxConcurrentThreads.None? ==> acquired && active == old(active) && slots == old(slots)
      ensures maxConcurrentThreads.Some? ==>
                SlotOutcome(active, slots, acquired) ==
                Acquire(old(active), old(slots), t, maxConcurrentThreads.value, outage)
    {
      if maxConcurrentThreads.None? {
        return true;
      }
      if outage == Some(0) {
        return false;
      }
      if t in slots {
        return outage != Some(1) && outage != Some(2);
      }
      if outage == Some(1) {
        return false;
      }
      active := active + {t};
      if outage == Some(2) {
        return false;
      }
      slots := slots + {t};
      if outage == Some(3) {
        return false;
      }
      var activeCount := |active|;
      if outage == Some(4) {
        return false;
      }
      if activeCount > maxConcurrentThreads.value {
        if outage == Some(5) {
          return false;
        }
        active := active - {t};
        if outage == Some(6) {
          return false;
        }
        slots := slots - {t};
        return false;
      }
      return true;
    }

    /** `release_thread_slot` */
    method ReleaseThreadSlot(t: Thread, outage: Outage)
      modifies this`active, this`slots
      ensures (active, slots) == Released(old(active), old(slots), t, outage)
    {
      if outage == Some(0) {
        return;
      }
      active := active - {t};
      if outage == Some(1) {
        return;
      }
      slots := slots - {t};
    }

    /** `_process_locked_message`: the rate check, then acquire, process, release. */
    method ProcessLocked(now: real, requestsPerMinute: Option<nat>, t: Thread, maxConcurrentThreads: Option<nat>,
                         checking: Outage, acquiring: Outage, releasing: Outage)
      returns (answer: Answer)
      modifies this
      ensures var rate := Allow(old(counters), RateWindow.Window(now), requestsPerMinute, checking);
        && counters == rate.counters
        && (answer == RateLimited <==> !rate.allowed)
      ensures answer == RateLimited ==> active == old(active) && slots == old(slots)
      ensures answer != RateLimited ==>
                SlotOutcome(active, slots, answer == Processed) ==
                Served(old(active), old(slots), t, maxConcurrentThreads, acquiring, releasing)
    {
      var allowed := AllowRequest(now, requestsPerMinute, checking);
      if !allowed {
        return RateLimited;
      }
      var acquired := TryAcquireThreadSlot(t, maxConcurrentThreads, acquiring);
      if !acquired {
        return ConcurrencyLimited;
      }
      ReleaseThreadSlot(t, releasing);
      return Processed;
    }
  }

  // ----- what a refusal leaves behind -----

  /** The failing call is one from `first` to `last`. */
  predicate FailsBetween(outage: Outage, first: nat, last: nat) {
    outage.Some? && first <= outage.value <= last
  }

  /** The failing call comes after `set`, so that the slot key stays. */
  predicate LeavesKey(outage: Outage) {
    FailsBetween(outage, 3, 6)
  }

  /**
    Exactly when a refused acquisition leaves the cache as it was: the thread has a slot
    key, or nothing was written yet, or `set` failed and the thread was in the active set
    before, or nothing failed and it was not.
   */
  lemma RefusalCleanIff(active: set<Thread>, slots: set<Thread>, t: Thread, limit: nat, outage: Outage)
    requires !Acquire(active, slots, t, limit, outage).acquired
    ensures var r := Acquire(active, slots, t, limit, outage);
      r.active == active && r.slots == slots <==>
        || t in slots || FailsBetween(outage, 0, 1)
        || (outage == Some(2) && t in active)
        || (!FailsBetween(outage, 0, 6) && t !in active)
  {
    RefusalActive(active, slots, t, limit, outage);
    RefusalSlots(active, slots, t, limit, outage);
  }

  lemma RefusalActive(active: set<Thread>, slots: set<Thread>, t: Thread, limit: nat, outage: Outage)
    requires !Acquire(active, slots, t, limit, outage).acquired
    ensures Acquire(active, slots, t, limit, outage).active == active <==>
        || t in slots || FailsBetween(outage, 0, 1)
        || if FailsBetween(outage, 2, 5) then t in active else t !in active
  {
    PutSame(active, t);
  }

  lemma RefusalSlots(active: set<Thread>, slots: set<Thread>, t: Thread, limit: nat, outage: Outage)
    requires !Acquire(active, slots, t, limit, outage).acquired
    ensures Acquire(active, slots, t, limit, outage).slots == slots <==> t in slots || !FailsBetween(outage, 3, 6)
  {
    PutSame(slots, t);
  }

  /** Adding an element, or removing it, changes nothing exactly when it was there, or was not. */
  lemma PutSame(xs: set<Thread>, t: Thread)
    ensures xs + {t} == xs <==> t in xs
    ensures xs - {t} == xs <==> t !in xs
  {
    assert t in xs + {t} && t !in xs - {t};
  }

  /**
    An outage at `set` leaves the thread in the active set without a slot key, and the
    next refusal, with nothing failing, takes it out again: neither leaves the cache as it
    found it.
   */
  lemma LeftoverMemberRemoved(active: set<Thread>, slots: set<Thread>, t: Thread, limit: nat)
    requires t !in active && t !in slots && |active + {t}| > limit
    ensures var left := Acquire(active, slots, t, limit, Some(2));
      && !left.acquired && left.active == active + {t} && left.slots == slots
      && Acquire(left.active, left.slots, t, limit, None) == SlotOutcome(active, slots, false)
  {
    assert active + {t} + {t} == active + {t} && active + {t} - {t} == active;
  }

  /**
    Exactly when a refused thread gets in on its next attempt: it has a slot key by then,
    its own from before or one the refusal left, or there is room for it.  With a slot key
    it gets in uncounted, whatever the limit.
   */
  lemma RetryAdmittedIff(active: set<Thread>, slots: set<Thread>, t: Thread, limit: nat, outage: Outage)
    requires !Acquire(active, slots, t, limit, outage).acquired
    ensures var r := Acquire(active, slots, t, limit, outage);
      var retry := Acquire(r.active, r.slots, t, limit, None);
      && (t in r.slots <==> t in slots || LeavesKey(outage))
      && (retry.acquired <==> t in slots || LeavesKey(outage) || |active + {t}| <= limit)
      && (t in r.slots ==> retry == SlotOutcome(r.active, r.slots, true))
  {
    RefusalLeaves(active, slots, t, limit, outage);
  }

  /** What the next attempt finds after a refusal. */
  lemma RefusalLeaves(active: set<Thread>, slots: set<Thread>, t: Thread, limit: nat, outage: Outage)
    requires !Acquire(active, slots, t, limit, outage).acquired
    ensures var r := Acquire(active, slots, t, limit, outage);
      r.active + {t} == active + {t} && (t in r.slots <==> t in slots || LeavesKey(outage))
  {
    assert active + {t} + {t} == active + {t} && active - {t} + {t} == active + {t};
  }

  // ----- agreement with the interleaved protocol -----

  /** `n` steps of worker `w` with nobody else moving. */
  ghost function Alone(s: ThreadSlots.State, w: ThreadSlots.Worker, limit: nat, n: nat): ThreadSlots.State
    requires w in s.workers
    decreases n
  {
    if n == 0 || s.workers[w].pc.Unlock? then s
    else
      var s' := ThreadSlots.Act(s, w, true, limit);
      Alone(s', w, limit, n - 1)
  }

  /** The place a worker reaches with the answer it got. */
  function Answered(acquired: bool): ThreadSlots.Pc {
    if acquired then ThreadSlots.Admitted else ThreadSlots.Unlock
  }

  lemma {:induction false} AloneOne(s: ThreadSlots.State, w: ThreadSlots.Worker, limit: nat, n: nat)
    requires w in s.workers && !s.workers[w].pc.Unlock? && n > 0
    ensures w in ThreadSlots.Act(s, w, true, limit).workers
    ensures Alone(s, w, limit, n) == Alone(ThreadSlots.Act(s, w, true, limit), w, limit, n - 1)
  {
  }

  /** From the count on: admitted, or rolled back in two more calls. */
  lemma {:induction false} AloneFromScard(s: ThreadSlots.State, w: ThreadSlots.Worker, limit: nat)
    requires w in s.workers && s.workers[w].pc.Scard?
    ensures var t := s.workers[w].thread;
      if |s.active| <= limit then
        Alone(s, w, limit, 2) == s.(workers := s.workers[w := ThreadSlots.Job(t, ThreadSlots.Admitted)])
      else
        Alone(s, w, limit, 4) == ThreadSlots.State(s.active - {t}, s.slots - {t}, s.locks,
                                                   s.workers[w := ThreadSlots.Job(t, ThreadSlots.Unlock)])
  {
  }

  /** A worker without a slot reaches the count in three calls. */
  lemma AloneToScard(s: ThreadSlots.State, w: ThreadSlots.Worker, limit: nat, n: nat) returns (s3: ThreadSlots.State)
    requires w in s.workers && s.workers[w].pc.Exists? && s.workers[w].thread !in s.slots
    ensures var t := s.workers[w].thread;
      s3 == ThreadSlots.State(s.active + {t}, s.slots + {t}, s.locks,
                              s.workers[w := ThreadSlots.Job(t, ThreadSlots.Scard)])
    ensures Alone(s, w, limit, n + 3) == Alone(s3, w, limit, n)
  {
    var s1 := ThreadSlots.Act(s, w, true, limit);
    var s2 := ThreadSlots.Act(s1, w, true, limit);
    s3 := ThreadSlots.Act(s2, w, true, limit);
    AloneOne(s, w, limit, n + 3);
    AloneOne(s1, w, limit, n + 2);
    AloneOne(s2, w, limit, n + 1);
    assert s3.workers == s.workers[w := ThreadSlots.Job(s.workers[w].thread, ThreadSlots.Scard)];
  }

  /**
    The method is the protocol run without interruption: from the first call some number
    of steps later the worker is admitted or on its way out, with the cache the method
    leaves.
   */
  lemma AloneIsMethod(s: ThreadSlots.State, w: ThreadSlots.Worker, limit: nat) returns (n: nat)
    requires w in s.workers && s.workers[w].pc.Exists?
    ensures var t := s.workers[w].thread;
      var r := Acquire(s.active, s.slots, t, limit, None);
      Alone(s, w, limit, n) == ThreadSlots.State(r.active, r.slots, s.locks,
                                                 s.workers[w := ThreadSlots.Job(t, Answered(r.acquired))])
  {
    var t := s.workers[w].thread;
    if t in s.slots {
      n := 1;
      AloneOne(s, w, limit, 1);
    } else {
      n := if |s.active + {t}| <= limit then 5 else 7;
      var s3 := AloneToScard(s, w, limit, n - 3);
      AloneFromScard(s3, w, limit);
      assert s.slots + {t} - {t} == s.slots && s.active + {t} - {t} == s.active - {t};
      var answer := ThreadSlots.Job(t, Answered(n == 5));
      assert s3.workers[w := answer] == s.workers[w := answer];
    }
  }

  lemma {:induction false} AloneSum(s: ThreadSlots.State, w: ThreadSlots.Worker, limit: nat, m: nat, n: nat)
    requires w in s.workers
    ensures w in Alone(s, w, limit, m).workers
    ensures Alone(s, w, limit, m + n) == Alone(Alone(s, w, limit, m), w, limit, n)
    decreases m
  {
    if s.workers[w].pc.Unlock? {
      AloneStays(s, w, limit, m);
      AloneStays(s, w, limit, m + n);
      AloneStays(s, w, limit, n);
    } else if m > 0 {
      var s1 := NextAlone(s, w, limit, m, m + n);
      AloneSum(s1, w, limit, m - 1, n);
    }
  }

  lemma NextAlone(s: ThreadSlots.State, w: ThreadSlots.Worker, limit: nat, m: nat, n: nat)
    returns (s1: ThreadSlots.State)
    requires w in s.workers && !s.workers[w].pc.Unlock? && m > 0 && n > 0
    ensures w in s1.workers
    ensures Alone(s, w, limit, m) == Alone(s1, w, limit, m - 1) && Alone(s, w, limit, n) == Alone(s1, w, limit, n - 1)
  {
    s1 := ThreadSlots.Act(s, w, true, limit);
    AloneOne(s, w, limit, m);
    AloneOne(s, w, limit, n);
  }

  /** Two stretches without interruption make one. */
  lemma AloneThen(s: ThreadSlots.State, w: ThreadSlots.Worker, limit: nat, m: nat, n: nat,
                  mid: ThreadSlots.State, end: ThreadSlots.State)
    requires w in s.workers && w in mid.workers
    requires Alone(s, w, limit, m) == mid && Alone(mid, w, limit, n) == end
    ensures Alone(s, w, limit, m + n) == end
  {
    AloneSum(s, w, limit, m, n);
  }

  lemma AloneStays(s: ThreadSlots.State, w: ThreadSlots.Worker, limit: nat, n: nat)
    requires w in s.workers && s.workers[w].pc.Unlock?
    ensures Alone(s, w, limit, n) == s
  {
  }

  /** An admitted worker takes its entries out in three calls. */
  lemma AloneRelease(s: ThreadSlots.State, w: ThreadSlots.Worker, limit: nat)
    requires w in s.workers && s.workers[w].pc.Admitted?
    ensures var t := s.workers[w].thread;
      Alone(s, w, limit, 3) == ThreadSlots.State(s.active - {t}, s.slots - {t}, s.locks,
                                                 s.workers[w := ThreadSlots.Job(t, ThreadSlots.Unlock)])
  {
    var s1 := ThreadSlots.Act(s, w, true, limit);
    var s2 := ThreadSlots.Act(s1, w, true, limit);
    var s3 := ThreadSlots.Act(s2, w, true, limit);
    AloneOne(s, w, limit, 3);
    AloneOne(s1, w, limit, 2);
    AloneOne(s2, w, limit, 1);
    assert s3.workers == s.workers[w := ThreadSlots.Job(s.workers[w].thread, ThreadSlots.Unlock)];
  }

  /**
    A message that the rate check lets through runs, undisturbed, through acquisition,
    processing and release as one call of the guard methods does, and then lets go of the
    lock.
   */
  lemma AloneServed(s: ThreadSlots.State, w: ThreadSlots.Worker, limit: nat) returns (n: nat)
    requires w in s.workers && s.workers[w].pc.Limiting?
    ensures var t := s.workers[w].thread;
      var r := Served(s.active, s.slots, t, Some(limit), None, None);
      var done := At(s, w, r.active, r.slots, ThreadSlots.Unlock);
      && Alone(s, w, limit, n) == done
      && ThreadSlots.Act(done, w, true, limit) ==
         ThreadSlots.State(r.active, r.slots, s.locks - {t}, s.workers - {w})
  {
    var t := s.workers[w].thread;
    var r := Acquire(s.active, s.slots, t, limit, None);
    var s2 := At(s, w, r.active, r.slots, Answered(r.acquired));
    n := AcquirePhase(s, w, limit);
    if r.acquired {
      AloneRelease(s2, w, limit);
      var s3 := At(s, w, r.active - {t}, r.slots - {t}, ThreadSlots.Unlock);
      assert s2.workers[w := ThreadSlots.Job(t, ThreadSlots.Unlock)] == s3.workers;
      AloneThen(s, w, limit, n, 3, s2, s3);
      n := n + 3;
    }
    var served := Served(s.active, s.slots, t, Some(limit), None, None);
    UnlockLast(s, w, limit, served.active, served.slots);
  }

  /** `s` with another cache and worker `w` at another place. */
  function At(s: ThreadSlots.State, w: ThreadSlots.Worker, active: set<Thread>, slots: set<Thread>, pc: ThreadSlots.Pc)
    : ThreadSlots.State
    requires w in s.workers
  {
    ThreadSlots.State(active, slots, s.locks, s.workers[w := ThreadSlots.Job(s.workers[w].thread, pc)])
  }

  lemma AcquirePhase(s: ThreadSlots.State, w: ThreadSlots.Worker, limit: nat) returns (n: nat)
    requires w in s.workers && s.workers[w].pc.Limiting?
    ensures var r := Acquire(s.active, s.slots, s.workers[w].thread, limit, None);
      Alone(s, w, limit, n) == At(s, w, r.active, r.slots, Answered(r.acquired))
  {
    var s1 := EnterAlone(s, w, limit);
    var m := AloneIsMethod(s1, w, limit);
    var r := Acquire(s.active, s.slots, s.workers[w].thread, limit, None);
    var s2 := At(s, w, r.active, r.slots, Answered(r.acquired));
    assert s1.workers[w := s2.workers[w]] == s2.workers;
    AloneThen(s, w, limit, 1, m, s1, s2);
    n := 1 + m;
  }

  lemma EnterAlone(s: ThreadSlots.State, w: ThreadSlots.Worker, limit: nat) returns (s1: ThreadSlots.State)
    requires w in s.workers && s.workers[w].pc.Limiting?
    ensures s1 == At(s, w, s.active, s.slots, ThreadSlots.Exists) && Alone(s, w, limit, 1) == s1
  {
    s1 := ThreadSlots.Act(s, w, true, limit);
    AloneOne(s, w, limit, 1);
  }

  lemma UnlockLast(s: ThreadSlots.State, w: ThreadSlots.Worker, limit: nat, active: set<Thread>, slots: set<Thread>)
    requires w in s.workers
    ensures ThreadSlots.Act(At(s, w, active, slots, ThreadSlots.Unlock), w, true, limit) ==
            ThreadSlots.State(active, slots, s.locks - {s.workers[w].thread}, s.workers - {w})
  {
    var done := At(s, w, active, slots, ThreadSlots.Unlock);
    assert done.workers - {w} == s.workers - {w};
  }

  /** A message that the rate check refuses lets go of the lock and touches no slot. */
  lemma RateRefusedLeaves(s: ThreadSlots.State, w: ThreadSlots.Worker, limit: nat)
    requires w in s.workers && s.workers[w].pc.Limiting?
    ensures var t := s.workers[w].thread;
      ThreadSlots.Act(ThreadSlots.Act(s, w, false, limit), w, false, limit) ==
      ThreadSlots.State(s.active, s.slots, s.locks - {t}, s.workers - {w})
  {
    var s1 := ThreadSlots.Act(s, w, false, limit);
    assert s1.workers - {w} == s.workers - {w};
  }

  /** `n` steps of request `r` with nobody else moving. */
  function RateAlone(s: RateWindow.State, r: RateWindow.Request, limit: nat, n: nat): RateWindow.State
    requires r in s.calls
    decreases n
  {
    if n == 0 then s else RateAlone(RateWindow.Act(s, r, limit), r, limit, n - 1)
  }

  /** The rate check method is the window protocol run without interruption. */
  lemma RateAloneIsMethod(s: RateWindow.State, r: RateWindow.Request, limit: nat) returns (n: nat)
    requires r in s.calls && s.calls[r].pc.Incr?
    ensures var time, window := s.calls[r].time, RateWindow.Window(s.calls[r].time);
      var rate := Allow(s.counters, window, Some(limit), None);
      RateAlone(s, r, limit, n) ==
        RateWindow.State(rate.counters,
                         s.calls[r := RateWindow.Call(time, RateWindow.Decided(rate.counters[window], rate.allowed))])
  {
    var time, window := s.calls[r].time, RateWindow.Window(s.calls[r].time);
    var current := CountOf(s.counters, window) + 1;
    n := if current == 1 then 3 else 2;
    var s1 := RateWindow.Act(s, r, limit);
    var s2 := RateWindow.Act(s1, r, limit);
    var last := RateWindow.Act(s2, r, limit);
    assert RateAlone(s, r, limit, n) == RateAlone(s1, r, limit, n - 1) == RateAlone(s2, r, limit, n - 2);
    var decided := RateWindow.Call(time, RateWindow.Decided(current, current <= limit));
    if current == 1 {
      assert RateAlone(s2, r, limit, 1) == RateAlone(last, r, limit, 0) == last;
      assert last.calls == s.calls[r := decided];
    } else {
      assert s2.calls == s.calls[r := decided];
    }
  }
}
