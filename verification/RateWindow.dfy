/**
  The per-minute request guard: every request increments the counter of its one-minute
  window and compares what it got back with the limit.  Calls of different requests
  interleave freely; window counters do not expire while they are in use.
 */
module RateWindow {
  import opened Seqs
  import Runs

  type Request = nat

  /** `int(time.time() // 60)` */
  function Window(time: real): int {
    (time / 60.0).Floor
  }

  /** Where a request stands: the call it makes next, with the count it got. */
  datatype Pc =
    | Incr                                // incr(key)
    | Expire(current: nat)                // first of its window: expire(key, 70)
    | Compare(current: nat)
    | Decided(current: nat, allowed: bool)

  datatype Call = Call(time: real, pc: Pc)

  datatype State = State(counters: map<int, nat>, calls: map<Request, Call>)

  const INITIAL := State(map[], map[])

  function Count(s: State, k: int): nat {
    if k in s.counters then s.counters[k] else 0
  }

  /** One atomic step of request `r`; `limit` is requests_per_minute. */
  function Act(s: State, r: Request, limit: nat): State
    requires r in s.calls
  {
    var Call(time, pc) := s.calls[r];
    match pc
    case Incr =>
      var current := Count(s, Window(time)) + 1;
      State(s.counters[Window(time) := current],
            s.calls[r := Call(time, if current == 1 then Expire(current) else Compare(current))])
    case Expire(current) => s.(calls := s.calls[r := Call(time, Compare(current))])
    case Compare(current) => s.(calls := s.calls[r := Call(time, Decided(current, current <= limit))])
    case Decided(_, _) => s
  }

  datatype Event = Arrive(request: Request, time: real) | Advance(request: Request)

  ghost predicate Step(s: State, s': State, event: Event, limit: nat) {
    match event
    case Arrive(r, time) => r !in s.calls && s' == s.(calls := s.calls[r := Call(time, Incr)])
    case Advance(r) => r in s.calls && s' == Act(s, r, limit)
  }

  ghost predicate IsRun(run: seq<State>, events: seq<Event>, limit: nat) {
    Runs.IsRun(INITIAL, Steps(limit), run, events)
  }

  ghost function Steps(limit: nat): (State, State, Event) -> bool {
    (s: State, s': State, e: Event) => Step(s, s', e, limit)
  }

  // ----- tickets -----

  /** Request `r` of window `k` got the count `n`. */
  predicate Holds(s: State, r: Request, k: int, n: nat) {
    && r in s.calls && Window(s.calls[r].time) == k
    && !s.calls[r].pc.Incr? && s.calls[r].pc.current == n
  }

  /** The counts handed out in a window are 1, 2, ..., each to exactly one request. */
  ghost predicate Inv(s: State, limit: nat) {
    && (forall r: Request, k, n: nat :: Holds(s, r, k, n) ==> 1 <= n <= Count(s, k))
    && (forall q: Request, r: Request, k, n: nat :: Holds(s, q, k, n) && Holds(s, r, k, n) ==> q == r)
    && (forall k, n: nat :: 1 <= n <= Count(s, k) ==> Handed(s, k, n))
    && DecidesByCount(s, limit)
  }

  predicate DecidesByCount(s: State, limit: nat) {
    forall r :: r in s.calls && s.calls[r].pc.Decided? ==>
      s.calls[r].pc.allowed == (s.calls[r].pc.current <= limit)
  }

  ghost predicate Handed(s: State, k: int, n: nat) {
    exists r: Request :: Holds(s, r, k, n)
  }

  lemma ArriveKeeps(s: State, r: Request, time: real, limit: nat)
    requires Inv(s, limit) && r !in s.calls
    ensures Inv(s.(calls := s.calls[r := Call(time, Incr)]), limit)
  {
    var s' := s.(calls := s.calls[r := Call(time, Incr)]);
    SameHolders(s, s', limit);
  }

  /** If the same requests hold the same counts, tickets stay in order. */
  lemma SameHolders(s: State, s': State, limit: nat)
    requires Inv(s, limit)
    requires forall r: Request, k, n: nat :: Holds(s', r, k, n) <==> Holds(s, r, k, n)
    requires forall k :: Count(s', k) == Count(s, k)
    requires DecidesByCount(s', limit)
    ensures Inv(s', limit)
  {
    forall k, n: nat | 1 <= n <= Count(s', k) ensures Handed(s', k, n) {
      assert Handed(s, k, n);
      var r :| Holds(s, r, k, n);
      assert Holds(s', r, k, n);
    }
  }

  lemma IncrKeeps(s: State, r: Request, limit: nat)
    requires Inv(s, limit) && r in s.calls && s.calls[r].pc.Incr?
    ensures Inv(Act(s, r, limit), limit)
  {
    var s', k0 := Act(s, r, limit), Window(s.calls[r].time);
    var c := Count(s, k0) + 1;
    assert forall q: Request, k, n: nat :: Holds(s', q, k, n) <==> Holds(s, q, k, n) || (q == r && k == k0 && n == c);
    assert forall k :: Count(s', k) == if k == k0 then c else Count(s, k);
    forall k, n: nat | 1 <= n <= Count(s', k) ensures Handed(s', k, n) {
      if k == k0 && n == c {
        assert Holds(s', r, k, n);
      } else {
        assert Handed(s, k, n);
        var q :| Holds(s, q, k, n);
        assert Holds(s', q, k, n);
      }
    }
  }

  lemma ActKeeps(s: State, r: Request, limit: nat)
    requires Inv(s, limit) && r in s.calls
    ensures Inv(Act(s, r, limit), limit)
  {
    if s.calls[r].pc.Incr? {
      IncrKeeps(s, r, limit);
    } else {
      SameHolders(s, Act(s, r, limit), limit);
    }
  }

  lemma {:induction false} RunKeeps(run: seq<State>, events: seq<Event>, limit: nat, i: nat)
    requires IsRun(run, events, limit) && i < |run|
    ensures Inv(run[i], limit)
  {
    if i > 0 {
      RunKeeps(run, events, limit, i - 1);
      assert Step(run[i - 1], run[i], events[i - 1], limit);
      match events[i - 1] {
        case Arrive(r, time) => ArriveKeeps(run[i - 1], r, time, limit);
        case Advance(r) => ActKeeps(run[i - 1], r, limit);
      }
    }
  }

  // ----- counting -----

  /** The requests of window `k` that got a count up to `m`. */
  function Holders(s: State, k: int, m: nat): set<Request> {
    set r | r in s.calls && Window(s.calls[r].time) == k && !s.calls[r].pc.Incr? && s.calls[r].pc.current <= m
  }

  lemma {:induction false} HoldersSize(s: State, k: int, m: nat, limit: nat)
    requires Inv(s, limit) && m <= Count(s, k)
    ensures |Holders(s, k, m)| == m
  {
    if m == 0 {
      if r :| r in Holders(s, k, 0) {
        assert Holds(s, r, k, s.calls[r].pc.current);
      }
      assert Holders(s, k, 0) == {};
    } else {
      HoldersSize(s, k, m - 1, limit);
      assert Handed(s, k, m);
      var r :| Holds(s, r, k, m);
      forall q | q in Holders(s, k, m) && q != r ensures q in Holders(s, k, m - 1) {
        assert Holds(s, q, k, s.calls[q].pc.current);
      }
      assert Holders(s, k, m) == Holders(s, k, m - 1) + {r};
    }
  }

  function Allowed(s: State, k: int): set<Request> {
    set r | r in s.calls && Window(s.calls[r].time) == k && s.calls[r].pc.Decided? && s.calls[r].pc.allowed
  }

  function RequestsIn(s: State, k: int): set<Request> {
    set r | r in s.calls && Window(s.calls[r].time) == k
  }

  function Min(a: nat, b: nat): nat {
    if a < b then a else b
  }

  lemma AllowedBound(s: State, k: int, limit: nat)
    requires Inv(s, limit)
    ensures |Allowed(s, k)| <= limit
  {
    var m := Min(limit, Count(s, k));
    forall r | r in Allowed(s, k) ensures r in Holders(s, k, m) {
      assert Holds(s, r, k, s.calls[r].pc.current);
    }
    HoldersSize(s, k, m, limit);
    SubsetSize(Allowed(s, k), Holders(s, k, m));
  }

  /** Once all requests of a window are decided, exactly the smaller of their number and the limit are allowed. */
  lemma WindowExact(s: State, k: int, limit: nat)
    requires Inv(s, limit)
    requires forall r :: r in RequestsIn(s, k) ==> s.calls[r].pc.Decided?
    ensures |Allowed(s, k)| == Min(|RequestsIn(s, k)|, limit)
  {
    var n := Count(s, k);
    forall r | r in RequestsIn(s, k) ensures r in Holders(s, k, n) {
      assert Holds(s, r, k, s.calls[r].pc.current);
    }
    assert RequestsIn(s, k) == Holders(s, k, n);
    HoldersSize(s, k, n, limit);
    var m := Min(n, limit);
    assert Allowed(s, k) == Holders(s, k, m) by {
      forall r | r in RequestsIn(s, k) ensures r in Allowed(s, k) <==> r in Holders(s, k, m) {
        assert Holds(s, r, k, s.calls[r].pc.current);
      }
    }
    HoldersSize(s, k, m, limit);
  }

  /** At every point of every interleaving a window has allowed at most the limit, whatever is still under way. */
  lemma WindowBound(run: seq<State>, events: seq<Event>, i: nat, k: int, limit: nat)
    requires IsRun(run, events, limit) && i < |run|
    ensures |Allowed(run[i], k)| <= limit
  {
    RunKeeps(run, events, limit, i);
    AllowedBound(run[i], k, limit);
  }

  /** In every interleaving of n rate checks on one window exactly min(n, limit) are allowed. */
  lemma RateExact(run: seq<State>, events: seq<Event>, k: int, limit: nat)
    requires IsRun(run, events, limit)
    requires var s := run[|run| - 1]; forall r :: r in RequestsIn(s, k) ==> s.calls[r].pc.Decided?
    ensures var s := run[|run| - 1]; |Allowed(s, k)| == Min(|RequestsIn(s, k)|, limit)
  {
    RunKeeps(run, events, limit, |run| - 1);
    WindowExact(run[|run| - 1], k, limit);
  }

  function AllowedIn(s: State, from: real): set<Request> {
    set r | r in s.calls && from <= s.calls[r].time < from + 60.0 && s.calls[r].pc.Decided? && s.calls[r].pc.allowed
  }

  lemma {:induction false} SpanWindows(from: real, time: real)
    requires from <= time < from + 60.0
    ensures Window(time) == Window(from) || Window(time) == Window(from) + 1
  {
  }

  /** Any sixty seconds of request times hold at most twice the limit of allowed requests. */
  lemma RateSpan(run: seq<State>, events: seq<Event>, from: real, limit: nat)
    requires IsRun(run, events, limit)
    ensures |AllowedIn(run[|run| - 1], from)| <= 2 * limit
  {
    var s, k := run[|run| - 1], Window(from);
    RunKeeps(run, events, limit, |run| - 1);
    var both := Allowed(s, k) + Allowed(s, k + 1);
    forall r | r in AllowedIn(s, from) ensures r in both {
      SpanWindows(from, s.calls[r].time);
    }
    SubsetSize(AllowedIn(s, from), both);
    AllowedBound(s, k, limit);
    AllowedBound(s, k + 1, limit);
  }

  // ----- and no smaller bound holds -----

  ghost predicate Reachable(s: State, limit: nat) {
    exists run, events :: IsRun(run, events, limit) && run[|run| - 1] == s
  }

  lemma ReachableStep(s: State, s': State, e: Event, limit: nat)
    requires Reachable(s, limit) && Step(s, s', e, limit)
    ensures Reachable(s', limit)
  {
    var run, events :| IsRun(run, events, limit) && run[|run| - 1] == s;
    Runs.Extended(INITIAL, Steps(limit), run, events, s', e);
    assert IsRun(run + [s'], events + [e], limit);
  }

  lemma ReachableAct(s: State, r: Request, limit: nat) returns (s': State)
    requires Reachable(s, limit) && r in s.calls
    ensures s' == Act(s, r, limit) && Reachable(s', limit)
  {
    s' := Act(s, r, limit);
    ReachableStep(s, s', Advance(r), limit);
  }

  /** A request served from arrival to decision with nobody else moving. */
  lemma Serve(s: State, r: Request, time: real, limit: nat) returns (s': State)
    requires Reachable(s, limit) && r !in s.calls
    ensures Reachable(s', limit)
    ensures var count := Count(s, Window(time)) + 1;
      s' == State(s.counters[Window(time) := count], s.calls[r := Call(time, Decided(count, count <= limit))])
  {
    s' := s.(calls := s.calls[r := Call(time, Incr)]);
    ReachableStep(s, s', Arrive(r, time), limit);
    s' := ReachableAct(s', r, limit);
    if s'.calls[r].pc.Expire? {
      s' := ReachableAct(s', r, limit);
    }
    s' := ReachableAct(s', r, limit);
    var count := Count(s, Window(time)) + 1;
    assert s'.calls == s.calls[r := Call(time, Decided(count, count <= limit))];
  }

  /** `n` requests, the first `limit` of them in the last second of one minute, the others in the next minute. */
  lemma {:induction false} ServeAcross(n: nat, limit: nat) returns (s: State)
    requires n <= 2 * limit
    ensures Reachable(s, limit) && (forall r: Request :: r in s.calls ==> r < n)
    ensures Count(s, 0) == Min(n, limit) && Count(s, 1) == n - Min(n, limit)
    ensures |AllowedIn(s, 30.0)| == n
  {
    if n == 0 {
      s := INITIAL;
      assert IsRun([INITIAL], [], limit);
    } else {
      var before := ServeAcross(n - 1, limit);
      var time := if n <= limit then 59.0 else 60.0;
      assert Window(59.0) == 0 && Window(60.0) == 1;
      s := Serve(before, n - 1, time, limit);
      assert AllowedIn(s, 30.0) == AllowedIn(before, 30.0) + {n - 1};
    }
  }

  /** A number bounds the allowed requests of any sixty seconds if and only if it is at least twice the limit. */
  lemma RateSpanIff(limit: nat, bound: nat)
    ensures (forall s, from :: Reachable(s, limit) ==> |AllowedIn(s, from)| <= bound) <==> bound >= 2 * limit
  {
    forall s, from | Reachable(s, limit) ensures |AllowedIn(s, from)| <= 2 * limit {
      var run, events :| IsRun(run, events, limit) && run[|run| - 1] == s;
      RateSpan(run, events, from, limit);
    }
    if bound < 2 * limit {
      var s := ServeAcross(2 * limit, limit);
      assert |AllowedIn(s, 30.0)| > bound;
    }
  }
}
