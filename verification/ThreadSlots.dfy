/**
  The per-project thread slots of the runtime guards, under the thread lock that
  `process_message` takes.  Workers are program counters over one shared cache; every
  lock or cache call is one atomic step, and steps of different workers interleave freely.
 */
module ThreadSlots {
  import opened Seqs
  import Runs

  type Worker = nat
  type Thread = string

  /** Where a worker stands: the call it makes next. */
  datatype Pc =
    | Limiting           // rate check before the slot
    | Exists             // exists(slot_key)
    | Sadd               // sadd(active_threads_key, thread)
    | SetSlot            // set(slot_key)
    | Scard              // scard(active_threads_key)
    | Counted(count: nat)  // the count is compared with the limit
    | RollbackSrem | RollbackDelete   // over the limit: undo, answer False
    | Admitted           // slot acquired, the message is processed
    | ReleaseSrem | ReleaseDelete     // release_thread_slot
    | Unlock             // release_thread_lock

  datatype Job = Job(thread: Thread, pc: Pc)

  /** Shared cache, lock table and the messages in flight. */
  datatype State = State(active: set<Thread>, slots: set<Thread>, locks: set<Thread>, workers: map<Worker, Job>)

  const INITIAL := State({}, {}, {}, map[])

  /** What the worker at `pc` does next; `allowed` is the answer of the rate check. */
  datatype Event =
    | Arrive(worker: Worker, thread: Thread)
    | Advance(worker: Worker, allowed: bool)

  // The worker's next place, and what its call does to the active set and to the slot keys.

  function NextPc(pc: Pc, slotExists: bool, activeCount: nat, allowed: bool, limit: nat): Pc
    requires !pc.Unlock?
  {
    match pc
    case Limiting => if allowed then Exists else Unlock
    case Exists => if slotExists then Admitted else Sadd
    case Sadd => SetSlot
    case SetSlot => Scard
    case Scard => Counted(activeCount)
    case Counted(count) => if count > limit then RollbackSrem else Admitted
    case RollbackSrem => RollbackDelete
    case RollbackDelete => Unlock
    case Admitted => ReleaseSrem
    case ReleaseSrem => ReleaseDelete
    case ReleaseDelete => Unlock
  }

  function ActiveAfter(pc: Pc, t: Thread, active: set<Thread>): set<Thread> {
    match pc
    case Sadd => active + {t}
    case RollbackSrem => active - {t}
    case ReleaseSrem => active - {t}
    case _ => active
  }

  function SlotsAfter(pc: Pc, t: Thread, slots: set<Thread>): set<Thread> {
    match pc
    case SetSlot => slots + {t}
    case RollbackDelete => slots - {t}
    case ReleaseDelete => slots - {t}
    case _ => slots
  }

  /** One atomic step of a message; `limit` is max_concurrent_threads. */
  function Act(s: State, w: Worker, allowed: bool, limit: nat): State
    requires w in s.workers
  {
    var Job(t, pc) := s.workers[w];
    if pc.Unlock? then s.(locks := s.locks - {t}, workers := s.workers - {w})
    else
      State(ActiveAfter(pc, t, s.active), SlotsAfter(pc, t, s.slots), s.locks,
            s.workers[w := Job(t, NextPc(pc, t in s.slots, |s.active|, allowed, limit))])
  }

  /**
    A step of the system.  A message that finds its thread locked is answered at once and
    leaves no trace; with `locking` off every message goes straight in.
   */
  ghost predicate Step(s: State, s': State, event: Event, limit: nat, locking: bool) {
    match event
    case Arrive(w, t) =>
      && w !in s.workers
      && s' == if locking && t in s.locks then s
               else s.(locks := s.locks + {t}, workers := s.workers[w := Job(t, Limiting)])
    case Advance(w, allowed) => w in s.workers && s' == Act(s, w, allowed, limit)
  }

  /** The states some interleaving of some messages leads to. */
  ghost predicate Reachable(s: State, limit: nat, locking: bool) {
    exists run, events :: IsRun(run, events, limit, locking) && run[|run| - 1] == s
  }

  ghost predicate IsRun(run: seq<State>, events: seq<Event>, limit: nat, locking: bool) {
    Runs.IsRun(INITIAL, Steps(limit, locking), run, events)
  }

  ghost function Steps(limit: nat, locking: bool): (State, State, Event) -> bool {
    (s: State, s': State, e: Event) => Step(s, s', e, limit, locking)
  }

  // ----- the invariant -----

  predicate InActive(pc: Pc) {
    pc.SetSlot? || pc.Scard? || pc.Counted? || pc.RollbackSrem? || pc.Admitted? || pc.ReleaseSrem?
  }

  predicate InSlots(pc: Pc) {
    || pc.Scard? || pc.Counted? || pc.RollbackSrem? || pc.RollbackDelete?
    || pc.Admitted? || pc.ReleaseSrem? || pc.ReleaseDelete?
  }

  /** Has passed the count, or is bound to. */
  predicate Passed(pc: Pc, limit: nat) {
    pc.Admitted? || pc.ReleaseSrem? || (pc.Counted? && pc.count <= limit)
  }

  type Workers = map<Worker, Job>

  /** The threads whose worker satisfies `p`. */
  function Threads(ws: Workers, p: Pc -> bool): set<Thread> {
    set w | w in ws && p(ws[w].pc) :: ws[w].thread
  }

  function AdmittedThreads(s: State): set<Thread> {
    Threads(s.workers, (pc: Pc) => pc.Admitted?)
  }

  function PassedBy(limit: nat): Pc -> bool {
    (pc: Pc) => Passed(pc, limit)
  }

  predicate Anywhere(pc: Pc) {
    true
  }

  /** The lock gives each thread to at most one worker. */
  ghost predicate Exclusive(ws: Workers) {
    forall v, w :: v in ws && w in ws && ws[v].thread == ws[w].thread ==> v == w
  }

  ghost predicate Inv(s: State, limit: nat) {
    && Exclusive(s.workers)
    && s.locks == Threads(s.workers, Anywhere)
    && s.active == Threads(s.workers, InActive)
    && s.slots == Threads(s.workers, InSlots)
    && |Threads(s.workers, PassedBy(limit))| <= limit
  }

  // ----- every step keeps it -----

  lemma {:induction false} ThreadMember(ws: Workers, p: Pc -> bool, w: Worker)
    requires Exclusive(ws) && w in ws
    ensures ws[w].thread in Threads(ws, p) <==> p(ws[w].pc)
  {
  }

  /** `xs` with or without `t`. */
  function Put(xs: set<Thread>, t: Thread, present: bool): set<Thread> {
    if present then xs + {t} else xs - {t}
  }

  /** Moving a worker changes only whether its own thread is listed. */
  lemma ThreadsMove(ws: Workers, w: Worker, pc: Pc, p: Pc -> bool)
    requires Exclusive(ws) && w in ws
    ensures Threads(ws[w := ws[w].(pc := pc)], p) == Put(Threads(ws, p), ws[w].thread, p(pc))
  {
    var ws', t := ws[w := ws[w].(pc := pc)], ws[w].thread;
    forall u ensures u in Threads(ws', p) <==> u in Put(Threads(ws, p), t, p(pc)) {
      if u in Threads(ws', p) {
        var v :| v in ws' && p(ws'[v].pc) && ws'[v].thread == u;
        assert v != w ==> ws[v] == ws'[v];
      }
      if u in Threads(ws, p) && u != t {
        var v :| v in ws && p(ws[v].pc) && ws[v].thread == u;
        assert ws'[v] == ws[v];
      }
      if p(pc) && u == t {
        assert ws'[w].pc == pc;
      }
    }
  }

  lemma ThreadsRemove(ws: Workers, w: Worker, p: Pc -> bool)
    requires Exclusive(ws) && w in ws
    ensures Threads(ws - {w}, p) == Threads(ws, p) - {ws[w].thread}
  {
    var ws', t := ws - {w}, ws[w].thread;
    forall u ensures u in Threads(ws', p) <==> u != t && u in Threads(ws, p) {
      if u in Threads(ws, p) && u != t {
        var v :| v in ws && p(ws[v].pc) && ws[v].thread == u;
        assert v in ws' && ws'[v] == ws[v];
      }
    }
  }

  lemma ThreadsAdd(ws: Workers, w: Worker, j: Job, p: Pc -> bool)
    requires w !in ws
    ensures Threads(ws[w := j], p) == Threads(ws, p) + if p(j.pc) then {j.thread} else {}
  {
    var ws' := ws[w := j];
    forall u ensures u in Threads(ws', p) <==> u in Threads(ws, p) || (p(j.pc) && u == j.thread) {
      if u in Threads(ws, p) {
        var v :| v in ws && p(ws[v].pc) && ws[v].thread == u;
        assert v in ws' && ws'[v] == ws[v];
      }
      if p(j.pc) && u == j.thread {
        assert ws'[w] == j;
      }
    }
  }

  lemma {:induction false} PassedAreActive(ws: Workers, limit: nat)
    ensures Threads(ws, PassedBy(limit)) <= Threads(ws, InActive)
  {
  }

  /** A worker may only come to pass if it reads a count within the limit. */
  predicate MayPass(pc: Pc, pc': Pc, activeCount: nat, limit: nat) {
    Passed(pc', limit) ==> Passed(pc, limit) || (pc.Scard? && activeCount <= limit)
  }

  /** The count a worker reads includes itself and everybody who has passed. */
  lemma BoundAfterMove(ws: Workers, w: Worker, pc: Pc, limit: nat)
    requires Exclusive(ws) && w in ws && |Threads(ws, PassedBy(limit))| <= limit
    requires MayPass(ws[w].pc, pc, |Threads(ws, InActive)|, limit)
    ensures |Threads(ws[w := ws[w].(pc := pc)], PassedBy(limit))| <= limit
  {
    var passed, active := Threads(ws, PassedBy(limit)), Threads(ws, InActive);
    ThreadsMove(ws, w, pc, PassedBy(limit));
    ThreadMember(ws, PassedBy(limit), w);
    ThreadMember(ws, InActive, w);
    var after := Put(passed, ws[w].thread, Passed(pc, limit));
    if Passed(pc, limit) && !Passed(ws[w].pc, limit) {
      PassedAreActive(ws, limit);
      SubsetSize(after, active);
    } else {
      SubsetSize(after, passed);
    }
  }

  // Each call updates the cache exactly as the worker's new place says.

  lemma {:induction false} ActiveMoves(pc: Pc, pc': Pc, t: Thread, active: set<Thread>, slotExists: bool, n: nat,
                                       allowed: bool, limit: nat)
    requires !pc.Unlock? && (t in active <==> InActive(pc)) && (slotExists ==> InSlots(pc))
    requires pc' == NextPc(pc, slotExists, n, allowed, limit)
    ensures ActiveAfter(pc, t, active) == Put(active, t, InActive(pc'))
  {
  }

  lemma {:induction false} SlotsMove(pc: Pc, pc': Pc, t: Thread, slots: set<Thread>, n: nat, allowed: bool, limit: nat)
    requires !pc.Unlock? && (t in slots <==> InSlots(pc))
    requires pc' == NextPc(pc, t in slots, n, allowed, limit)
    ensures SlotsAfter(pc, t, slots) == Put(slots, t, InSlots(pc'))
    ensures MayPass(pc, pc', n, limit)
  {
  }

  lemma MoveKeeps(s: State, w: Worker, pc: Pc, limit: nat)
    requires Inv(s, limit) && w in s.workers
    requires MayPass(s.workers[w].pc, pc, |s.active|, limit)
    ensures var t := s.workers[w].thread;
      Inv(State(Put(s.active, t, InActive(pc)), Put(s.slots, t, InSlots(pc)), s.locks, s.workers[w := Job(t, pc)]),
          limit)
  {
    var ws := s.workers;
    ThreadsMove(ws, w, pc, InActive);
    ThreadsMove(ws, w, pc, InSlots);
    ThreadsMove(ws, w, pc, Anywhere);
    ThreadMember(ws, Anywhere, w);
    BoundAfterMove(ws, w, pc, limit);
  }

  lemma RemoveKeeps(s: State, w: Worker, limit: nat)
    requires Inv(s, limit) && w in s.workers && s.workers[w].pc.Unlock?
    ensures Inv(s.(locks := s.locks - {s.workers[w].thread}, workers := s.workers - {w}), limit)
  {
    var ws := s.workers;
    ThreadMember(ws, InActive, w);
    ThreadMember(ws, InSlots, w);
    ThreadsRemove(ws, w, InActive);
    ThreadsRemove(ws, w, InSlots);
    ThreadsRemove(ws, w, Anywhere);
    ThreadsRemove(ws, w, PassedBy(limit));
    SubsetSize(Threads(ws - {w}, PassedBy(limit)), Threads(ws, PassedBy(limit)));
  }

  lemma ActKeeps(s: State, w: Worker, allowed: bool, limit: nat)
    requires Inv(s, limit) && w in s.workers
    ensures Inv(Act(s, w, allowed, limit), limit)
  {
    var Job(t, pc) := s.workers[w];
    if pc.Unlock? {
      RemoveKeeps(s, w, limit);
    } else {
      var pc' := NextPc(pc, t in s.slots, |s.active|, allowed, limit);
      ThreadMember(s.workers, InActive, w);
      ThreadMember(s.workers, InSlots, w);
      ActiveMoves(pc, pc', t, s.active, t in s.slots, |s.active|, allowed, limit);
      SlotsMove(pc, pc', t, s.slots, |s.active|, allowed, limit);
      MoveKeeps(s, w, pc', limit);
    }
  }

  lemma {:induction false} ArriveExclusive(ws: Workers, w: Worker, t: Thread)
    requires Exclusive(ws) && w !in ws && t !in Threads(ws, Anywhere)
    ensures Exclusive(ws[w := Job(t, Limiting)])
  {
  }

  lemma ArriveThreads(ws: Workers, w: Worker, t: Thread, limit: nat)
    requires w !in ws
    ensures var ws' := ws[w := Job(t, Limiting)];
      && Threads(ws', Anywhere) == Threads(ws, Anywhere) + {t}
      && Threads(ws', InActive) == Threads(ws, InActive)
      && Threads(ws', InSlots) == Threads(ws, InSlots)
      && Threads(ws', PassedBy(limit)) == Threads(ws, PassedBy(limit))
  {
    var j := Job(t, Limiting);
    ThreadsAdd(ws, w, j, InActive);
    ThreadsAdd(ws, w, j, InSlots);
    ThreadsAdd(ws, w, j, Anywhere);
    ThreadsAdd(ws, w, j, PassedBy(limit));
  }

  lemma ArriveKeeps(s: State, w: Worker, t: Thread, limit: nat)
    requires Inv(s, limit) && w !in s.workers && t !in s.locks
    ensures Inv(s.(locks := s.locks + {t}, workers := s.workers[w := Job(t, Limiting)]), limit)
  {
    ArriveExclusive(s.workers, w, t);
    ArriveThreads(s.workers, w, t, limit);
  }

  lemma {:induction false} RunKeeps(run: seq<State>, events: seq<Event>, limit: nat, i: nat)
    requires IsRun(run, events, limit, true) && i < |run|
    ensures Inv(run[i], limit)
  {
    if i > 0 {
      RunKeeps(run, events, limit, i - 1);
      var s, e := run[i - 1], events[i - 1];
      assert Step(s, run[i], e, limit, true);
      match e {
        case Arrive(w, t) =>
          if t !in s.locks {
            ArriveKeeps(s, w, t, limit);
          }
        case Advance(w, allowed) => ActKeeps(s, w, allowed, limit);
      }
    }
  }

  // ----- safety over whole runs -----

  /**
    In every interleaving of any number of messages under the thread lock: admitted
    threads are in the active set, never more of them than the limit; nobody who asks
    finds its slot already there; and with no message in flight the cache holds nothing.
   */
  lemma SlotsSafe(s: State, limit: nat)
    requires Reachable(s, limit, true)
    ensures AdmittedThreads(s) <= s.active
    ensures |AdmittedThreads(s)| <= limit
    ensures forall w :: w in s.workers && s.workers[w].pc.Exists? ==> s.workers[w].thread !in s.slots
    ensures s.workers == map[] ==> s.active == s.slots == s.locks == {}
  {
    var run, events :| IsRun(run, events, limit, true) && run[|run| - 1] == s;
    RunKeeps(run, events, limit, |run| - 1);
    PassedAreActive(s.workers, limit);
    SubsetSize(AdmittedThreads(s), Threads(s.workers, PassedBy(limit)));
    forall w | w in s.workers && s.workers[w].pc.Exists? ensures s.workers[w].thread !in s.slots {
      ThreadMember(s.workers, InSlots, w);
    }
  }

  // ----- without the lock the bound fails -----

  lemma ReachableStep(s: State, s': State, e: Event, limit: nat, locking: bool)
    requires Reachable(s, limit, locking) && Step(s, s', e, limit, locking)
    ensures Reachable(s', limit, locking)
  {
    var run, events :| IsRun(run, events, limit, locking) && run[|run| - 1] == s;
    Runs.Extended(INITIAL, Steps(limit, locking), run, events, s', e);
    assert IsRun(run + [s'], events + [e], limit, locking);
  }

  lemma ReachableInitial(limit: nat, locking: bool)
    ensures Reachable(INITIAL, limit, locking)
  {
    assert IsRun([INITIAL], [], limit, locking);
  }

  lemma ReachableAct(s: State, w: Worker, limit: nat, locking: bool) returns (s': State)
    requires Reachable(s, limit, locking) && w in s.workers
    ensures s' == Act(s, w, true, limit) && Reachable(s', limit, locking)
  {
    s' := Act(s, w, true, limit);
    ReachableStep(s, s', Advance(w, true), limit, locking);
  }

  lemma ReachableArrive(s: State, w: Worker, t: Thread, limit: nat, locking: bool) returns (s': State)
    requires Reachable(s, limit, locking) && w !in s.workers && !(locking && t in s.locks)
    ensures s' == s.(locks := s.locks + {t}, workers := s.workers[w := Job(t, Limiting)])
    ensures Reachable(s', limit, locking)
  {
    s' := s.(locks := s.locks + {t}, workers := s.workers[w := Job(t, Limiting)]);
    ReachableStep(s, s', Arrive(w, t), limit, locking);
  }

  lemma EnterFirst(s: State, w: Worker, t: Thread, limit: nat, locking: bool) returns (s': State)
    requires Reachable(s, limit, locking) && w !in s.workers && t !in s.slots && !(locking && t in s.locks)
    ensures Reachable(s', limit, locking)
    ensures s'.locks == s.locks + {t}
    ensures s'.active == s.active && s'.slots == s.slots && s'.workers == s.workers[w := Job(t, Sadd)]
  {
    s' := ReachableArrive(s, w, t, limit, locking);
    s' := ReachableAct(s', w, limit, locking);
    s' := ReachableAct(s', w, limit, locking);
  }

  /** A thread for every number. */
  function Name(n: nat): (t: Thread)
    ensures |t| == n
  {
    if n == 0 then "" else Name(n - 1) + "a"
  }

  function Names(n: nat): set<Thread> {
    if n == 0 then {} else Names(n - 1) + {Name(n - 1)}
  }

  lemma {:induction false} NamesShort(n: nat)
    ensures forall t :: t in Names(n) ==> |t| < n
  {
    if n > 0 {
      NamesShort(n - 1);
    }
  }

  lemma {:induction false} NamesSize(n: nat)
    ensures |Names(n)| == n && Name(n) !in Names(n)
  {
    NamesShort(n);
    if n > 0 {
      NamesSize(n - 1);
    }
  }

  predicate IsAdmitted(pc: Pc) {
    pc.Admitted?
  }

  /** A message of a thread with a slot key enters without being counted. */
  lemma EnterUncounted(s: State, w: Worker, t: Thread, limit: nat) returns (s': State)
    requires Reachable(s, limit, false) && w !in s.workers && t in s.slots
    ensures Reachable(s', limit, false)
    ensures s'.active == s.active && s'.slots == s.slots && s'.workers == s.workers[w := Job(t, Admitted)]
  {
    s' := ReachableArrive(s, w, t, limit, false);
    s' := ReachableAct(s', w, limit, false);
    s' := ReachableAct(s', w, limit, false);
  }

  lemma JoinUnlocked(s: State, w: Worker, t: Thread, limit: nat) returns (s': State)
    requires Reachable(s, limit, false) && w in s.workers && s.workers[w] == Job(t, Sadd)
    ensures Reachable(s', limit, false)
    ensures s'.active == s.active + {t} && s'.slots == s.slots + {t} && s'.workers == s.workers[w := Job(t, Scard)]
  {
    s' := ReachableAct(s, w, limit, false);
    s' := ReachableAct(s', w, limit, false);
  }

  /** Of two messages of a new thread one sets the slot key, and before it counts the other finds the key. */
  lemma AdmitOneMore(s: State, v: Worker, w: Worker, t: Thread, limit: nat) returns (s': State)
    requires Reachable(s, limit, false) && v !in s.workers && w !in s.workers && v != w && t !in s.slots
    ensures Reachable(s', limit, false) && s'.slots == s.slots + {t}
    ensures s'.workers == s.workers[v := Job(t, Scard)][w := Job(t, Admitted)]
  {
    s' := EnterFirst(s, v, t, limit, false);
    s' := JoinUnlocked(s', v, t, limit);
    s' := EnterUncounted(s', w, t, limit);
  }

  lemma AdmittedOneMore(ws: Workers, v: Worker, w: Worker, t: Thread)
    requires v !in ws && w !in ws && v != w
    ensures Threads(ws[v := Job(t, Scard)][w := Job(t, Admitted)], IsAdmitted) == Threads(ws, IsAdmitted) + {t}
  {
    ThreadsAdd(ws, v, Job(t, Scard), IsAdmitted);
    ThreadsAdd(ws[v := Job(t, Scard)], w, Job(t, Admitted), IsAdmitted);
  }

  /** So without the lock any number of threads can be admitted at any limit. */
  lemma {:induction false} AdmitAny(n: nat, limit: nat) returns (s: State)
    ensures Reachable(s, limit, false) && s.slots == Names(n)
    ensures Threads(s.workers, IsAdmitted) == Names(n)
    ensures forall w :: w in s.workers ==> w < 2 * n
  {
    if n == 0 {
      ReachableInitial(limit, false);
      s := INITIAL;
    } else {
      var before := AdmitAny(n - 1, limit);
      var v, w, t := 2 * n - 2, 2 * n - 1, Name(n - 1);
      NamesSize(n - 1);
      AdmittedOneMore(before.workers, v, w, t);
      s := AdmitOneMore(before, v, w, t, limit);
    }
  }

  /** Whatever the limit, it bounds the admitted threads of every run if and only if the lock is taken. */
  lemma LockIsEssential(limit: nat, locking: bool)
    ensures (forall s :: Reachable(s, limit, locking) ==> |AdmittedThreads(s)| <= limit) <==> locking
  {
    if locking {
      forall s | Reachable(s, limit, true) ensures |AdmittedThreads(s)| <= limit {
        SlotsSafe(s, limit);
      }
    } else {
      var s := AdmitAny(limit + 1, limit);
      NamesSize(limit + 1);
      assert AdmittedThreads(s) == Threads(s.workers, IsAdmitted);
    }
  }

  /**
    Nor are admitted threads active without the lock: between the two calls of a release
    another message of the thread finds the slot key and enters uncounted.
   */
  lemma ReleaseWindow(t: Thread, limit: nat) returns (s: State)
    requires limit >= 1
    ensures Reachable(s, limit, false) && s.active == {} && AdmittedThreads(s) == {t}
  {
    ReachableInitial(limit, false);
    s := EnterFirst(INITIAL, 0, t, limit, false);
    s := AdmitAlone(s, 0, t, limit);
    s := ReachableAct(s, 0, limit, false);
    s := ReachableAct(s, 0, limit, false);
    assert s.active == {} && t in s.slots && s.workers == map[0 := Job(t, ReleaseDelete)];
    s := EnterUncounted(s, 1, t, limit);
    assert s.workers[1] == Job(t, Admitted);
  }

  lemma AdmitAlone(s: State, w: Worker, t: Thread, limit: nat) returns (s': State)
    requires Reachable(s, limit, false) && w in s.workers && s.workers[w] == Job(t, Sadd)
    requires s.active == {} && limit >= 1
    ensures Reachable(s', limit, false)
    ensures s'.active == {t} && s'.slots == s.slots + {t} && s'.workers == s.workers[w := Job(t, Admitted)]
  {
    s' := JoinUnlocked(s, w, t, limit);
    assert s'.active == {t};
    s' := ReachableAct(s', w, limit, false);
    s' := ReachableAct(s', w, limit, false);
  }

  // ----- when a message is refused -----

  /** Has counted too many, or is undoing its entries after that. */
  predicate Refused(pc: Pc, limit: nat) {
    (pc.Counted? && pc.count > limit) || pc.RollbackSrem? || pc.RollbackDelete?
  }

  /**
    In every run under the lock a worker's count refuses it if and only if, at that step,
    more threads than the limit stand between joining the active set and leaving it.
   */
  lemma RefusedIff(run: seq<State>, events: seq<Event>, limit: nat, i: nat, w: Worker, allowed: bool)
    requires IsRun(run, events, limit, true) && i < |events| && events[i] == Advance(w, allowed)
    requires w in run[i].workers && run[i].workers[w].pc.Scard?
    ensures w in run[i + 1].workers
    ensures Refused(run[i + 1].workers[w].pc, limit) <==> |Threads(run[i].workers, InActive)| > limit
  {
    RunKeeps(run, events, limit, i);
    assert Step(run[i], run[i + 1], events[i], limit, true);
  }

  /** Never more than `crowd` threads have a message in flight. */
  ghost predicate Within(run: seq<State>, crowd: nat) {
    forall i :: 0 <= i < |run| ==> |run[i].locks| <= crowd
  }

  ghost predicate ReachableWithin(s: State, limit: nat, crowd: nat) {
    exists run, events :: IsRun(run, events, limit, true) && Within(run, crowd) && run[|run| - 1] == s
  }

  predicate NoneRefused(s: State, limit: nat) {
    forall w :: w in s.workers ==> !Refused(s.workers[w].pc, limit)
  }

  lemma ActNoneRefused(s: State, w: Worker, allowed: bool, limit: nat)
    requires Inv(s, limit) && w in s.workers && NoneRefused(s, limit) && |s.locks| <= limit
    ensures NoneRefused(Act(s, w, allowed, limit), limit)
  {
    SubsetSize(s.active, s.locks);
  }

  lemma {:induction false} RunNoneRefused(run: seq<State>, events: seq<Event>, limit: nat, i: nat)
    requires IsRun(run, events, limit, true) && Within(run, limit) && i < |run|
    ensures NoneRefused(run[i], limit)
  {
    if i > 0 {
      RunNoneRefused(run, events, limit, i - 1);
      RunKeeps(run, events, limit, i - 1);
      assert Step(run[i - 1], run[i], events[i - 1], limit, true);
      match events[i - 1] {
        case Arrive(_, _) =>
        case Advance(w, allowed) => ActNoneRefused(run[i - 1], w, allowed, limit);
      }
    }
  }

  lemma WithinInitial(limit: nat, crowd: nat)
    ensures ReachableWithin(INITIAL, limit, crowd)
  {
    assert IsRun([INITIAL], [], limit, true) && Within([INITIAL], crowd);
  }

  lemma WithinStep(s: State, s': State, e: Event, limit: nat, crowd: nat)
    requires ReachableWithin(s, limit, crowd) && Step(s, s', e, limit, true) && |s'.locks| <= crowd
    ensures ReachableWithin(s', limit, crowd)
  {
    var run, events :| IsRun(run, events, limit, true) && Within(run, crowd) && run[|run| - 1] == s;
    Runs.Extended(INITIAL, Steps(limit, true), run, events, s', e);
    assert IsRun(run + [s'], events + [e], limit, true) && Within(run + [s'], crowd);
  }

  lemma WithinAct(s: State, w: Worker, limit: nat, crowd: nat) returns (s': State)
    requires ReachableWithin(s, limit, crowd) && |s.locks| <= crowd && w in s.workers && !s.workers[w].pc.Unlock?
    ensures s' == Act(s, w, true, limit) && ReachableWithin(s', limit, crowd)
  {
    s' := Act(s, w, true, limit);
    WithinStep(s, s', Advance(w, true), limit, crowd);
  }

  lemma EnterWithin(s: State, w: Worker, t: Thread, limit: nat, crowd: nat) returns (s': State)
    requires ReachableWithin(s, limit, crowd) && w !in s.workers && t !in s.locks && t !in s.slots
    requires |s.locks| < crowd
    ensures ReachableWithin(s', limit, crowd)
    ensures s' == s.(locks := s.locks + {t}, workers := s.workers[w := Job(t, Sadd)])
  {
    s' := s.(locks := s.locks + {t}, workers := s.workers[w := Job(t, Limiting)]);
    WithinStep(s, s', Arrive(w, t), limit, crowd);
    s' := WithinAct(s', w, limit, crowd);
    s' := WithinAct(s', w, limit, crowd);
    assert s'.workers == s.workers[w := Job(t, Sadd)];
  }

  lemma JoinWithin(s: State, w: Worker, limit: nat, crowd: nat) returns (s': State)
    requires ReachableWithin(s, limit, crowd) && |s.locks| <= crowd && w in s.workers && s.workers[w].pc.Sadd?
    ensures ReachableWithin(s', limit, crowd)
    ensures var t := s.workers[w].thread;
      s' == State(s.active + {t}, s.slots + {t}, s.locks, s.workers[w := Job(t, Scard)])
  {
    s' := WithinAct(s, w, limit, crowd);
    s' := WithinAct(s', w, limit, crowd);
    assert s'.workers == s.workers[w := Job(s.workers[w].thread, Scard)];
  }

  lemma RefuseWithin(s: State, w: Worker, limit: nat, crowd: nat) returns (s': State)
    requires ReachableWithin(s, limit, crowd) && |s.locks| <= crowd && w in s.workers && s.workers[w].pc.Scard?
    requires |s.active| > limit
    ensures ReachableWithin(s', limit, crowd)
    ensures s' == s.(workers := s.workers[w := Job(s.workers[w].thread, RollbackSrem)])
  {
    s' := WithinAct(s, w, limit, crowd);
    s' := WithinAct(s', w, limit, crowd);
    assert s'.workers == s.workers[w := Job(s.workers[w].thread, RollbackSrem)];
  }

  // A crew of `n` messages of different threads, brought forward phase by phase.

  /** Worker `w` has thread `Name(w)`; the first `m` stand at `after`, the others at `before`. */
  ghost predicate Crew(ws: Workers, n: nat, m: nat, before: Pc, after: Pc) {
    && (forall w: Worker :: w in ws <==> w < n)
    && forall w: Worker :: w in ws ==> InPlace(ws[w], w, if w < m then after else before)
  }

  predicate InPlace(job: Job, w: Worker, pc: Pc) {
    job.thread == Name(w) && job.pc == pc
  }

  lemma CrewGrows(ws: Workers, n: nat, before: Pc)
    requires Crew(ws, n, 0, before, before)
    ensures Crew(ws[n := Job(Name(n), before)], n + 1, 0, before, before)
  {
  }

  lemma CrewMoves(ws: Workers, n: nat, m: nat, before: Pc, after: Pc)
    requires Crew(ws, n, m, before, after) && m < n
    ensures Crew(ws[m := Job(Name(m), after)], n, m + 1, before, after)
    ensures ws[m] == Job(Name(m), before)
  {
    var ws' := ws[m := Job(Name(m), after)];
    forall w: Worker | w in ws' ensures InPlace(ws'[w], w, if w < m + 1 then after else before) {
      if w != m {
        assert InPlace(ws[w], w, if w < m then after else before);
      }
    }
  }

  lemma CrewStarts(ws: Workers, n: nat, before: Pc, after: Pc)
    requires Crew(ws, n, 0, before, before)
    ensures Crew(ws, n, 0, before, after)
  {
  }

  lemma CrewTurns(ws: Workers, n: nat, before: Pc, after: Pc, next: Pc)
    requires Crew(ws, n, n, before, after)
    ensures Crew(ws, n, 0, after, next)
  {
  }

  lemma {:induction false} CrewArrives(n: nat, limit: nat, crowd: nat) returns (s: State)
    requires n <= crowd
    ensures ReachableWithin(s, limit, crowd) && s.locks == Names(n) && s.active == s.slots == {}
    ensures Crew(s.workers, n, 0, Sadd, Sadd)
  {
    if n == 0 {
      WithinInitial(limit, crowd);
      s := INITIAL;
    } else {
      s := CrewArrives(n - 1, limit, crowd);
      NamesSize(n - 1);
      CrewGrows(s.workers, n - 1, Sadd);
      s := EnterWithin(s, n - 1, Name(n - 1), limit, crowd);
    }
  }

  lemma {:induction false} CrewJoins(n: nat, m: nat, limit: nat, crowd: nat) returns (s: State)
    requires m <= n <= crowd
    ensures ReachableWithin(s, limit, crowd) && s.locks == Names(n) && s.active == Names(m)
    ensures Crew(s.workers, n, m, Sadd, Scard)
  {
    NamesSize(n);
    if m == 0 {
      s := CrewArrives(n, limit, crowd);
      CrewStarts(s.workers, n, Sadd, Scard);
    } else {
      s := CrewJoins(n, m - 1, limit, crowd);
      CrewMoves(s.workers, n, m - 1, Sadd, Scard);
      s := JoinWithin(s, m - 1, limit, crowd);
    }
  }

  lemma {:induction false} CrewRefused(n: nat, m: nat, limit: nat, crowd: nat) returns (s: State)
    requires m <= n <= crowd && limit < n
    ensures ReachableWithin(s, limit, crowd) && s.locks == s.active == Names(n)
    ensures Crew(s.workers, n, m, Scard, RollbackSrem)
  {
    NamesSize(n);
    if m == 0 {
      s := CrewJoins(n, n, limit, crowd);
      CrewTurns(s.workers, n, Sadd, Scard, RollbackSrem);
    } else {
      s := CrewRefused(n, m - 1, limit, crowd);
      CrewMoves(s.workers, n, m - 1, Scard, RollbackSrem);
      s := RefuseWithin(s, m - 1, limit, crowd);
    }
  }

  /**
    At every limit, one message more than the limit is enough for all of them to be
    refused: each may count all the others before any of them withdraws.
   */
  lemma MutualRefusal(limit: nat) returns (s: State)
    ensures ReachableWithin(s, limit, limit + 1)
    ensures forall w: Worker :: w in s.workers <==> w <= limit
    ensures forall w :: w in s.workers ==> s.workers[w].pc.RollbackSrem?
  {
    s := CrewRefused(limit + 1, limit + 1, limit, limit + 1);
  }

  /**
    Under the lock no message is ever refused if and only if the messages in flight never
    exceed the limit.
   */
  lemma RefusalIffCrowded(limit: nat, crowd: nat)
    ensures (forall s :: ReachableWithin(s, limit, crowd) ==> NoneRefused(s, limit)) <==> crowd <= limit
  {
    if crowd <= limit {
      forall s | ReachableWithin(s, limit, crowd) ensures NoneRefused(s, limit) {
        var run, events :| IsRun(run, events, limit, true) && Within(run, crowd) && run[|run| - 1] == s;
        RunNoneRefused(run, events, limit, |run| - 1);
      }
    } else {
      var s := CrewRefused(limit + 1, limit + 1, limit, crowd);
      assert 0 in s.workers && Refused(s.workers[0].pc, limit);
    }
  }
}
