/**
  Technical failures across the turns of one thread: load the persisted state, run the
  graph, where at most one LLM stage can fail, and persist, opening an incident ticket
  when failures have piled up.
 */
module TechnicalIncidents {
  import opened Seqs

  /** The `technical_*` keys of the persisted state; an absent key is `None`. */
  datatype Technical = Technical(failureCount: Option<int>, incidentCreated: Option<bool>, ticketId: Option<string>)

  const FRESH := Technical(None, None, None)

  function CountOf(t: Technical): int {
    if t.failureCount.Some? then t.failureCount.value else 0
  }

  function IncidentOf(t: Technical): bool {
    t.incidentCreated.Some? && t.incidentCreated.value
  }

  datatype RulesDecision = RulesRespond | RulesEscalate | RulesProceed

  datatype PolicyDecision = Respond | RespondTemplate | LlmGenerate | EscalateToHuman | CallTool | Escalate

  /**
    What happens from outside during one turn: the rules, whether the intent call and the
    answer call raise, what the policy decides when it is asked, whether a called tool
    wants a human, and how the ticket call and the state save end.
   */
  datatype Turn = Turn(
    rules: RulesDecision, hasInput: bool, intentRaises: bool, policy: PolicyDecision, toolWantsHuman: bool,
    answerRaises: bool, ticketRaises: bool, newTicketId: string, saved: bool)

  /** A turn in which an LLM stage is reached and fails. */
  predicate Fails(turn: Turn) {
    turn.rules == RulesProceed &&
    ((turn.hasInput && turn.intentRaises) || (turn.policy == LlmGenerate && turn.answerRaises))
  }

  /** The patch both LLM stages return on failure. */
  function FailurePatch(t: Technical): Technical {
    t.(failureCount := Some(CountOf(t) + 1), incidentCreated := Some(IncidentOf(t)))
  }

  /** `should_create_technical_incident`, for a state that names its thread and project */
  predicate IncidentDue(t: Technical) {
    CountOf(t) >= 2 && !IncidentOf(t)
  }

  function AfterGraph(t: Technical, turn: Turn): Technical {
    if Fails(turn) then FailurePatch(t) else t
  }

  predicate OpensTicket(t: Technical, turn: Turn) {
    IncidentDue(AfterGraph(t, turn)) && !turn.ticketRaises
  }

  class ThreadRuntime {
    var persisted: Technical
    var tickets: nat

    constructor ()
      ensures persisted == FRESH && tickets == 0
    {
      persisted, tickets := FRESH, 0;
    }

    /** One pass through the graph, node by node, ending in the persist node. */
    method RunTurn(turn: Turn)
      modifies this
      ensures tickets == old(tickets) + if OpensTicket(old(persisted), turn) then 1 else 0
      ensures !turn.saved ==> persisted == old(persisted)
      ensures turn.saved ==>
                && CountOf(persisted) == CountOf(old(persisted)) + (if Fails(turn) then 1 else 0)
                && IncidentOf(persisted) == (IncidentOf(old(persisted)) || OpensTicket(old(persisted), turn))
                && persisted.ticketId == if OpensTicket(old(persisted), turn) && turn.newTicketId != ""
                                         then Some(turn.newTicketId) else old(persisted).ticketId
    {
      // load_state
      var state := persisted;
      if turn.rules == RulesProceed {
        // intent_extractor
        var respondPrepared := false;
        if turn.hasInput && turn.intentRaises {
          state := FailurePatch(state);
          respondPrepared := true;
        }
        // policy_engine keeps a prepared answer and its failure fields
        var decision := turn.policy;
        if respondPrepared {
          decision := Respond;
          state := state.(failureCount := Some(CountOf(state)), incidentCreated := Some(IncidentOf(state)));
        }
        // route_from_policy
        var reachesGenerator := decision == LlmGenerate || (decision == CallTool && !turn.toolWantsHuman);
        // response_generator answers only when the decision is generative
        if reachesGenerator && decision == LlmGenerate && turn.answerRaises {
          state := FailurePatch(state);
        }
      }
      // persist
      if CountOf(state) >= 2 && !IncidentOf(state) {
        if !turn.ticketRaises {
          tickets := tickets + 1;
          state := state.(incidentCreated := Some(true));
          if turn.newTicketId != "" {
            state := state.(ticketId := Some(turn.newTicketId));
          }
        }
      }
      if turn.saved {
        persisted := state;
      }
    }
  }

  // ----- whole runs -----

  /** What a run has done: the count and flag as persisted, and the tickets opened. */
  datatype Ledger = Ledger(count: int, incident: bool, tickets: nat)

  const OPENING := Ledger(0, false, 0)

  predicate Opens(l: Ledger, turn: Turn) {
    l.count + (if Fails(turn) then 1 else 0) >= 2 && !l.incident && !turn.ticketRaises
  }

  function After(l: Ledger, turn: Turn): Ledger {
    var opens := Opens(l, turn);
    var tickets := l.tickets + if opens then 1 else 0;
    if turn.saved then Ledger(l.count + (if Fails(turn) then 1 else 0), l.incident || opens, tickets)
    else l.(tickets := tickets)
  }

  function Run(turns: seq<Turn>): Ledger {
    if turns == [] then OPENING else After(Run(turns[..|turns| - 1]), turns[|turns| - 1])
  }

  /** Running the turns on a new thread does what the ledger says. */
  method RunAll(turns: seq<Turn>) returns (count: int, incident: bool, tickets: nat)
    ensures Ledger(count, incident, tickets) == Run(turns)
  {
    var thread := new ThreadRuntime();
    for i := 0 to |turns|
      invariant Ledger(CountOf(thread.persisted), IncidentOf(thread.persisted), thread.tickets) == Run(turns[..i])
    {
      assert turns[..i + 1][..i] == turns[..i];
      thread.RunTurn(turns[i]);
    }
    assert turns[..|turns|] == turns;
    count, incident, tickets := CountOf(thread.persisted), IncidentOf(thread.persisted), thread.tickets;
  }

  function Failures(turns: seq<Turn>): nat {
    |Filter(Fails, turns)|
  }

  predicate AllSaved(turns: seq<Turn>) {
    forall t :: t in turns ==> t.saved
  }

  /** Turn `k` is not before the second failing one, and its ticket call works. */
  predicate Due(turns: seq<Turn>, k: nat)
    requires k < |turns|
  {
    Failures(turns[..k + 1]) >= 2 && !turns[k].ticketRaises
  }

  ghost predicate EverDue(turns: seq<Turn>) {
    exists k :: 0 <= k < |turns| && Due(turns, k)
  }

  lemma FailuresSnoc(turns: seq<Turn>, turn: Turn)
    ensures Failures(turns + [turn]) == Failures(turns) + if Fails(turn) then 1 else 0
  {
    FilterConcat(Fails, turns, [turn]);
  }

  lemma EverDueSnoc(turns: seq<Turn>)
    requires turns != []
    ensures EverDue(turns) <==> EverDue(turns[..|turns| - 1]) || Due(turns, |turns| - 1)
  {
    var init := turns[..|turns| - 1];
    forall k | 0 <= k < |init| ensures Due(init, k) <==> Due(turns, k) {
      assert init[..k + 1] == turns[..k + 1];
    }
  }

  /**
    With every save succeeding, the persisted count is the number of failing turns, and
    the thread has one ticket if some turn from the second failing one on could open it,
    otherwise none.
   */
  lemma {:induction false} Accounting(turns: seq<Turn>)
    requires AllSaved(turns)
    ensures var l := Run(turns);
      && l.count == Failures(turns)
      && l.tickets == (if EverDue(turns) then 1 else 0)
      && l.incident == EverDue(turns)
  {
    if turns != [] {
      var init, last := turns[..|turns| - 1], turns[|turns| - 1];
      assert turns == init + [last];
      Accounting(init);
      FailuresSnoc(init, last);
      EverDueSnoc(turns);
      assert turns[..|turns|] == turns;
    }
  }

  lemma DueNeedsFailures(turns: seq<Turn>, k: nat)
    requires k < |turns| && Due(turns, k)
    ensures Failures(turns) >= 2
  {
    FilterConcat(Fails, turns[..k + 1], turns[k + 1..]);
    assert turns == turns[..k + 1] + turns[k + 1..];
  }

  /**
    At most one ticket, none before the second failing turn, and one by the time a turn
    after that can open it.
   */
  lemma {:induction false} TicketOnce(turns: seq<Turn>)
    requires AllSaved(turns)
    ensures Run(turns).tickets <= 1
    ensures Run(turns).tickets == 1 ==> Failures(turns) >= 2
    ensures Failures(turns) >= 2 && !turns[|turns| - 1].ticketRaises ==> Run(turns).tickets == 1
  {
    Accounting(turns);
    if EverDue(turns) {
      var k :| 0 <= k < |turns| && Due(turns, k);
      DueNeedsFailures(turns, k);
    } else if Failures(turns) >= 2 {
      assert turns[..|turns| - 1 + 1] == turns;
      assert !Due(turns, |turns| - 1);
    }
  }

  // ----- and when saves fail -----

  predicate SavedFailing(turn: Turn) {
    Fails(turn) && turn.saved
  }

  /** The failing turns among the first `n` whose state was saved. */
  function SavedFailures(turns: seq<Turn>, n: nat): nat
    requires n <= |turns|
  {
    |Filter(SavedFailing, turns[..n])|
  }

  /** Turn `k` sees two failures on record or its own on top of one, and its ticket call works. */
  predicate CouldOpen(turns: seq<Turn>, k: nat) {
    && k < |turns|
    && SavedFailures(turns, k) + (if Fails(turns[k]) then 1 else 0) >= 2
    && !turns[k].ticketRaises
  }

  /** Before turn `n` some turn could open a ticket and was saved, so that the ticket is on record. */
  predicate Noted(turns: seq<Turn>, n: nat)
    requires n <= |turns|
  {
    exists k :: 0 <= k < n && CouldOpen(turns, k) && turns[k].saved
  }

  /** The turns before `n` that open a ticket. */
  function OpeningTurns(turns: seq<Turn>, n: nat): set<nat>
    requires n <= |turns|
  {
    set k: nat | 0 <= k < n && CouldOpen(turns, k) && !Noted(turns, k)
  }

  lemma SavedFailuresStep(turns: seq<Turn>, n: nat)
    requires n < |turns|
    ensures SavedFailures(turns, n + 1) == SavedFailures(turns, n) + if SavedFailing(turns[n]) then 1 else 0
  {
    FilterConcat(SavedFailing, turns[..n], [turns[n]]);
    assert turns[..n + 1] == turns[..n] + [turns[n]];
  }

  lemma OpeningTurnsStep(turns: seq<Turn>, n: nat)
    requires n < |turns|
    ensures OpeningTurns(turns, n + 1) ==
            OpeningTurns(turns, n) + if CouldOpen(turns, n) && !Noted(turns, n) then {n} else {}
  {
  }

  function LedgerAt(turns: seq<Turn>, n: nat): Ledger
    requires n <= |turns|
  {
    Ledger(SavedFailures(turns, n), Noted(turns, n), |OpeningTurns(turns, n)|)
  }

  lemma LedgerStep(turns: seq<Turn>, n: nat)
    requires n < |turns|
    ensures LedgerAt(turns, n + 1) == After(LedgerAt(turns, n), turns[n])
  {
    SavedFailuresStep(turns, n);
    OpeningTurnsStep(turns, n);
    NotedStep(turns, n);
  }

  lemma NotedStep(turns: seq<Turn>, n: nat)
    requires n < |turns|
    ensures Noted(turns, n + 1) <==> Noted(turns, n) || (CouldOpen(turns, n) && turns[n].saved)
  {
  }

  lemma {:induction false} RunExactUpTo(turns: seq<Turn>, n: nat)
    requires n <= |turns|
    ensures Run(turns[..n]) == LedgerAt(turns, n)
  {
    if n > 0 {
      RunExactUpTo(turns, n - 1);
      LedgerStep(turns, n - 1);
      assert turns[..n][..n - 1] == turns[..n - 1];
    }
  }

  /**
    The exact ledger of any run, whichever saves and ticket calls fail: the count is the
    number of saved failing turns, and tickets are opened by exactly the turns that could
    open one while none was on record.
   */
  lemma {:induction false} RunExact(turns: seq<Turn>)
    ensures Run(turns).count == SavedFailures(turns, |turns|)
    ensures Run(turns).incident == Noted(turns, |turns|)
    ensures Run(turns).tickets == |OpeningTurns(turns, |turns|)|
  {
    RunExactUpTo(turns, |turns|);
    assert turns[..|turns|] == turns;
  }

  /** Two turns could open a ticket, and none was on record before the later one. */
  predicate Reopens(turns: seq<Turn>, i: nat, j: nat) {
    i < j < |turns| && CouldOpen(turns, i) && CouldOpen(turns, j) && !Noted(turns, j)
  }

  /**
    A thread gets at most one ticket if and only if no turn could open one after another
    could, with neither that one nor any other on record: the save of each earlier turn
    that could open a ticket was lost.
   */
  lemma OneTicketIff(turns: seq<Turn>)
    ensures Run(turns).tickets <= 1 <==> !exists i: nat, j: nat :: Reopens(turns, i, j)
  {
    RunExact(turns);
    var opening := OpeningTurns(turns, |turns|);
    SeveralElements(opening);
    if i: nat, j: nat :| Reopens(turns, i, j) {
      assert i in opening && j in opening;
    }
    if x, y :| x in opening && y in opening && x != y {
      assert Reopens(turns, if x < y then x else y, if x < y then y else x);
    }
  }

  function LostSaves(turns: seq<Turn>): nat {
    |Filter((t: Turn) => !t.saved, turns)|
  }

  /** The turns whose ticket went off the record because their save was lost. */
  function LostOpenings(turns: seq<Turn>): set<nat> {
    set k | k in OpeningTurns(turns, |turns|) && !turns[k].saved
  }

  /** All tickets but the one on record, if there is one, come from turns whose save was lost. */
  lemma TicketsByLoss(turns: seq<Turn>)
    ensures Run(turns).tickets == |LostOpenings(turns)| + if Run(turns).incident then 1 else 0
  {
    RunExact(turns);
    var opening, lost := OpeningTurns(turns, |turns|), LostOpenings(turns);
    if Noted(turns, |turns|) {
      var k := FirstNoted(turns, |turns|);
      OpeningsButOneLost(turns, k);
    } else {
      assert opening == lost;
    }
  }

  lemma OpeningsButOneLost(turns: seq<Turn>, k: nat)
    requires CouldOpen(turns, k) && turns[k].saved && !Noted(turns, k)
    ensures OpeningTurns(turns, |turns|) == LostOpenings(turns) + {k} && k !in LostOpenings(turns)
  {
  }

  /** The turn that put the ticket on record. */
  lemma {:induction false} FirstNoted(turns: seq<Turn>, n: nat) returns (k: nat)
    requires n <= |turns| && Noted(turns, n)
    ensures k < n && CouldOpen(turns, k) && turns[k].saved && !Noted(turns, k)
    ensures forall i :: 0 <= i < k ==> !(CouldOpen(turns, i) && turns[i].saved)
  {
    if Noted(turns, n - 1) {
      k := FirstNoted(turns, n - 1);
    } else {
      k := n - 1;
    }
  }

  /** A thread whose ticket-opening turn was not saved gets a second ticket. */
  lemma LostSaveDuplicates()
    ensures exists turns :: LostSaves(turns) == 1 && Run(turns).tickets == 2
  {
    var failing := Turn(RulesProceed, true, true, Respond, false, false, false, "t", true);
    var lost := failing.(saved := false);
    var turns := [failing, lost, failing];
    assert turns[..2] == [failing, lost] && [failing, lost][..1] == [failing] && [failing][..0] == [];
    assert Run([failing]) == Ledger(1, false, 0);
    assert Run([failing, lost]) == Ledger(1, false, 1);
    assert Run(turns) == Ledger(2, true, 2);
    var p := (t: Turn) => !t.saved;
    assert turns[1..] == [lost, failing] && [lost, failing][1..] == [failing] && [failing][1..] == [];
    assert Filter(p, [failing]) == [] && Filter(p, [lost, failing]) == [lost];
    assert LostSaves(turns) == 1;
  }
}
