/**
  Routing of a client message between the agent graph and the manager who owns the
  thread.  The assignment in the database decides; the session key in the cache is a copy
  of it that can expire or be out of date.
 */
module Routing {
  import opened Seqs

  /** The columns of the thread record that routing reads. */
  datatype Snapshot = Snapshot(status: Option<string>, managerUserId: Option<string>, managerChatId: Option<string>)

  /** `ManagerReplySession` */
  datatype Session = Session(userId: string, chatId: Option<string>, hasReply: bool, claimedAt: Option<int>)

  /**
    What the session key holds: nothing, an empty value, a JSON object (its absent or
    falsy ids are empty strings), or anything else, by its text.
   */
  datatype Cached = Absent | Blank
    | Object(userId: string, chatId: string, hasReply: bool, claimedAt: Option<int>)
    | Plain(text: string)

  /** The value of an optional string, the missing one as the empty one. */
  function Or(o: Option<string>): string {
    if o.Some? then o.value else ""
  }

  function Truthy(text: string): Option<string> {
    if text == "" then None else Some(text)
  }

  /** `ManagerReplySession.from_redis_value` */
  function ParseSession(raw: Cached): Option<Session> {
    match raw
    case Absent => None
    case Blank => None
    case Object(userId, chatId, hasReply, claimedAt) =>
      if userId == "" && chatId == "" then None
      else Some(Session(userId, Truthy(chatId), hasReply, claimedAt))
    case Plain(text) => Some(Session("", Some(text), false, None))
  }

  /** `ManagerReplySession.to_redis_value` */
  function WriteSession(s: Session): Cached {
    Object(s.userId, Or(s.chatId), s.hasReply, s.claimedAt)
  }

  /** A stored session reads back, except one that names nobody or has an empty chat id. */
  lemma {:induction false} SessionRoundTripIff(s: Session)
    ensures ParseSession(WriteSession(s)) == Some(s) <==>
            (s.userId != "" || s.chatId.Some?) && s.chatId != Some("")
  {
  }

  /**
    What a session key says: nothing, unless it names somebody; an object names the user and
    the chat it has, and any other value is a chat.
   */
  lemma ParseSessionExact(raw: Cached)
    ensures ParseSession(raw).None? <==>
            raw.Absent? || raw.Blank? || (raw.Object? && raw.userId == "" && raw.chatId == "")
    ensures raw.Object? && ParseSession(raw).Some? ==>
              var s := ParseSession(raw).value;
              && s.userId == raw.userId && Or(s.chatId) == raw.chatId && (s.chatId.Some? <==> raw.chatId != "")
              && s.hasReply == raw.hasReply && s.claimedAt == raw.claimedAt
    ensures raw.Plain? ==> ParseSession(raw) == Some(Session("", Some(raw.text), false, None))
  {
  }

  predicate HasStatus(thread: Option<Snapshot>, status: string) {
    thread.Some? && thread.value.status == Some(status)
  }

  /** `_manual_ticket_fallback_session`, from the database assignment alone */
  function FallbackSession(thread: Option<Snapshot>): Option<Session> {
    if !HasStatus(thread, "manual") || Or(thread.value.managerUserId) == "" then None
    else Some(Session(thread.value.managerUserId.value, Truthy(Or(thread.value.managerChatId)), false, None))
  }

  /** A task for the manager's chat. */
  datatype Notice = Notice(message: string, chatId: string, userId: Option<string>)

  datatype Reply = Handoff | FromGraph

  // ----- what routing is supposed to do -----

  predicate Active(thread: Option<Snapshot>) {
    HasStatus(thread, "active")
  }

  /** A manager is on the thread or is being waited for. */
  predicate Held(thread: Option<Snapshot>) {
    HasStatus(thread, "manual") || HasStatus(thread, "waiting_manager")
  }

  /** A manual thread with its manager in the database. */
  predicate Assigned(thread: Option<Snapshot>) {
    HasStatus(thread, "manual") && Or(thread.value.managerUserId) != ""
  }

  predicate NamesChat(raw: Cached) {
    ParseSession(raw).Some? && Or(ParseSession(raw).value.chatId) != ""
  }

  predicate ToManager(thread: Option<Snapshot>, raw: Cached) {
    || Assigned(thread)
    || (Held(thread) && ParseSession(raw).Some?)
    || (!Active(thread) && NamesChat(raw))
  }

  /** A closed or unknown thread with a session that names no chat. */
  predicate DoublyRecorded(thread: Option<Snapshot>, raw: Cached) {
    !Active(thread) && !Held(thread) && ParseSession(raw).Some? && !NamesChat(raw)
  }

  /** The session that receives the message: the cached one before the database's. */
  function Recipient(thread: Option<Snapshot>, raw: Cached): Option<Session> {
    if Active(thread) then None
    else if ParseSession(raw).Some? then ParseSession(raw)
    else FallbackSession(thread)
  }

  function NoticeFor(thread: Option<Snapshot>, raw: Cached, text: string): Option<Notice> {
    var to := Recipient(thread, raw);
    if to.None? || Or(to.value.chatId) == "" then None
    else Some(Notice(text, to.value.chatId.value, Truthy(to.value.userId)))
  }

  function Listed<T>(o: Option<T>): seq<T> {
    if o.Some? then [o.value] else []
  }

  function Recorded(thread: Option<Snapshot>, raw: Cached, text: string): seq<string> {
    if DoublyRecorded(thread, raw) then [text, text] else [text]
  }

  function GraphInput(thread: Option<Snapshot>, raw: Cached, text: string): seq<string> {
    if ToManager(thread, raw) then [] else [text]
  }

  // ----- the service -----

  class ClientMessageService {
    /** The session key, the stored user messages, the queued notices, the graph's inputs. */
    var session: Cached
    var messages: seq<string>
    var notices: seq<Notice>
    var graphInputs: seq<string>

    constructor ()
      ensures session == Absent && messages == [] && notices == [] && graphInputs == []
    {
      session, messages, notices, graphInputs := Absent, [], [], [];
    }

    /** `_clear_stale_manager_session` */
    method ClearStaleManagerSession(thread: Option<Snapshot>, parsed: Option<Session>) returns (kept: Option<Session>)
      modifies this`session
      ensures kept == if Active(thread) then None else parsed
      ensures session == if Active(thread) && parsed.Some? then Absent else old(session)
    {
      if parsed.None? {
        return parsed;
      }
      if thread.None? || thread.value.status != Some("active") {
        return parsed;
      }
      session := Absent;
      return None;
    }

    /** `_try_redirect_to_manager` */
    method TryRedirectToManager(thread: Option<Snapshot>, text: string) returns (reply: Option<Reply>)
      modifies this`session, this`messages, this`notices
      ensures reply == if ToManager(thread, old(session)) then Some(Handoff) else None
      ensures messages == old(messages) +
                          if ToManager(thread, old(session)) || DoublyRecorded(thread, old(session)) then [text] else []
      ensures notices == old(notices) + Listed(NoticeFor(thread, old(session), text))
      ensures session == if Active(thread) && ParseSession(old(session)).Some? then Absent else old(session)
    {
      var managerSession := ParseSession(session);
      managerSession := ClearStaleManagerSession(thread, managerSession);
      if managerSession.None? {
        managerSession := FallbackSession(thread);
      }
      if managerSession.None? {
        return None;
      }
      messages := messages + [text];
      if Or(managerSession.value.chatId) != "" {
        notices := notices + [Notice(text, managerSession.value.chatId.value, Truthy(managerSession.value.userId))];
      } else if thread.Some? && thread.value.status in {Some("manual"), Some("waiting_manager")} {
        // held for the manager on the platform
      } else {
        return None;
      }
      return Some(Handoff);
    }

    /** `_process_with_thread_slot` */
    method ProcessWithThreadSlot(thread: Option<Snapshot>, text: string) returns (reply: Reply)
      modifies this
      ensures reply == if ToManager(thread, old(session)) then Handoff else FromGraph
      ensures graphInputs == old(graphInputs) + GraphInput(thread, old(session), text)
      ensures messages == old(messages) + Recorded(thread, old(session), text)
      ensures notices == old(notices) + Listed(NoticeFor(thread, old(session), text))
      ensures session == if Active(thread) && ParseSession(old(session)).Some? then Absent else old(session)
    {
      var managerReply := TryRedirectToManager(thread, text);
      if managerReply.Some? {
        return managerReply.value;
      }
      messages := messages + [text];
      graphInputs := graphInputs + [text];
      return FromGraph;
    }

    /** A message arrives when the session key holds `key`. */
    method ProcessArrival(arrival: Arrival, key: Cached)
      modifies this
      ensures messages == old(messages) + RecordedOf(arrival, key)
      ensures graphInputs == old(graphInputs) + InputOf(arrival, key)
    {
      session := key;
      var reply := ProcessWithThreadSlot(arrival.thread, arrival.text);
    }

    /** Messages of one thread in turn, each finding whatever the session key then holds. */
    method ProcessAll(arrivals: seq<Arrival>, keys: seq<Cached>)
      requires |arrivals| == |keys|
      modifies this
      ensures messages == old(messages) + AllRecorded(arrivals, keys, |arrivals|)
      ensures graphInputs == old(graphInputs) + ToGraph(arrivals, keys, |arrivals|)
    {
      for i := 0 to |arrivals|
        invariant messages == old(messages) + AllRecorded(arrivals, keys, i)
        invariant graphInputs == old(graphInputs) + ToGraph(arrivals, keys, i)
      {
        Associate(old(messages), AllRecorded(arrivals, keys, i), RecordedOf(arrivals[i], keys[i]));
        Associate(old(graphInputs), ToGraph(arrivals, keys, i), InputOf(arrivals[i], keys[i]));
        ProcessArrival(arrivals[i], keys[i]);
      }
    }
  }

  // ----- one message -----

  /**
    An active thread always reaches the graph, an assigned one never does, and on no other
    thread does routing survive the loss of the session.
   */
  lemma CacheIrrelevantIff(thread: Option<Snapshot>)
    ensures Active(thread) ==> forall raw :: !ToManager(thread, raw)
    ensures Assigned(thread) ==> forall raw :: ToManager(thread, raw)
    ensures (forall raw1, raw2 :: ToManager(thread, raw1) == ToManager(thread, raw2)) <==> Settled(thread)
  {
    if !Settled(thread) {
      UnsettledBothWays(thread);
      assert ToManager(thread, Plain("c")) != ToManager(thread, Absent);
    }
  }

  /** Threads whose routing the database settles. */
  predicate Settled(thread: Option<Snapshot>) {
    Active(thread) || Assigned(thread)
  }

  lemma {:induction false} UnsettledBothWays(thread: Option<Snapshot>)
    requires !Settled(thread)
    ensures ToManager(thread, Plain("c")) && !ToManager(thread, Absent)
  {
  }

  /** Without a session the manager in the database is notified, in the chat it has there, if any. */
  lemma AssignedNotified(thread: Option<Snapshot>, text: string)
    requires Assigned(thread)
    ensures var chat := Or(thread.value.managerChatId);
      NoticeFor(thread, Absent, text) ==
        if chat == "" then None else Some(Notice(text, chat, Some(thread.value.managerUserId.value)))
  {
  }

  /**
    Who is notified on an assigned thread does depend on the session: the database's
    manager is, exactly when the session is gone or leads to the same chat and user.
   */
  lemma {:induction false} RecipientCurrentIff(thread: Option<Snapshot>, raw: Cached, text: string)
    requires Assigned(thread)
    ensures NoticeFor(thread, raw, text) == NoticeFor(thread, Absent, text) <==>
            || ParseSession(raw).None?
            || (!NamesChat(raw) && Or(thread.value.managerChatId) == "")
            || (Or(ParseSession(raw).value.chatId) == Or(thread.value.managerChatId) &&
                ParseSession(raw).value.userId == thread.value.managerUserId.value)
  {
  }

  /** An out-of-date session does mislead: any other chat in it gets the message instead. */
  lemma OtherManagerNotified(user: string, chat: string, otherUser: string, otherChat: string, text: string)
    requires user != "" && otherChat != "" && otherChat != chat
    ensures var thread := Some(Snapshot(Some("manual"), Some(user), Some(chat)));
      var raw := Object(otherUser, otherChat, false, None);
      && Assigned(thread)
      && NoticeFor(thread, raw, text) == Some(Notice(text, otherChat, Truthy(otherUser)))
      && NoticeFor(thread, raw, text) != NoticeFor(thread, Absent, text)
  {
  }

  /** A session written for the manager the database names expires unnoticed. */
  lemma {:induction false} ExpiryUnnoticed(thread: Option<Snapshot>, hasReply: bool, claimedAt: Option<int>,
                                           text: string)
    requires Assigned(thread)
    ensures var raw := WriteSession(FallbackSession(thread).value.(hasReply := hasReply, claimedAt := claimedAt));
      && ToManager(thread, raw) == ToManager(thread, Absent)
      && NoticeFor(thread, raw, text) == NoticeFor(thread, Absent, text)
      && Recorded(thread, raw, text) == Recorded(thread, Absent, text)
  {
  }

  // ----- whole conversations -----

  /** A message with the thread record as read when it arrives. */
  datatype Arrival = Arrival(thread: Option<Snapshot>, text: string)

  function InputOf(a: Arrival, key: Cached): seq<string> {
    GraphInput(a.thread, key, a.text)
  }

  function RecordedOf(a: Arrival, key: Cached): seq<string> {
    Recorded(a.thread, key, a.text)
  }

  /** What the graph is asked during the first `n` messages. */
  function ToGraph(arrivals: seq<Arrival>, keys: seq<Cached>, n: nat): seq<string>
    requires n <= |arrivals| == |keys|
  {
    if n == 0 then []
    else ToGraph(arrivals, keys, n - 1) + InputOf(arrivals[n - 1], keys[n - 1])
  }

  /** What is stored during the first `n` messages. */
  function AllRecorded(arrivals: seq<Arrival>, keys: seq<Cached>, n: nat): seq<string>
    requires n <= |arrivals| == |keys|
  {
    if n == 0 then []
    else AllRecorded(arrivals, keys, n - 1) + RecordedOf(arrivals[n - 1], keys[n - 1])
  }

  function TextOf(a: Arrival): string {
    a.text
  }

  predicate NeverDoubled(arrivals: seq<Arrival>, keys: seq<Cached>, n: nat)
    requires n <= |arrivals| == |keys|
  {
    forall i :: 0 <= i < n ==> !DoublyRecorded(arrivals[i].thread, keys[i])
  }

  /** Something is stored twice exactly when more is stored than arrived. */
  lemma {:induction false} RecordedLength(arrivals: seq<Arrival>, keys: seq<Cached>, n: nat)
    requires n <= |arrivals| == |keys|
    ensures |AllRecorded(arrivals, keys, n)| >= n
    ensures |AllRecorded(arrivals, keys, n)| == n <==> NeverDoubled(arrivals, keys, n)
  {
    if n > 0 {
      RecordedLength(arrivals, keys, n - 1);
    }
  }

  lemma {:induction false} RecordedTexts(arrivals: seq<Arrival>, keys: seq<Cached>, n: nat)
    requires n <= |arrivals| == |keys| && NeverDoubled(arrivals, keys, n)
    ensures |AllRecorded(arrivals, keys, n)| == n
    ensures forall i :: 0 <= i < n ==> AllRecorded(arrivals, keys, n)[i] == arrivals[i].text
  {
    if n > 0 {
      RecordedTexts(arrivals, keys, n - 1);
    }
  }

  /**
    The thread keeps exactly the messages that arrived, each once and in order, if and
    only if none met a closed or unknown thread with a session naming no chat.
   */
  lemma {:induction false} RecordedOnceIff(arrivals: seq<Arrival>, keys: seq<Cached>)
    requires |arrivals| == |keys|
    ensures AllRecorded(arrivals, keys, |arrivals|) == Map(TextOf, arrivals) <==>
            NeverDoubled(arrivals, keys, |arrivals|)
  {
    RecordedLength(arrivals, keys, |arrivals|);
    if NeverDoubled(arrivals, keys, |arrivals|) {
      RecordedTexts(arrivals, keys, |arrivals|);
    }
  }

  /** On a closed thread a session with a user and no chat makes the message stored twice. */
  lemma ClosedThreadRecordsTwice(user: string, text: string)
    requires user != ""
    ensures var arrivals := [Arrival(Some(Snapshot(Some("closed"), None, None)), text)];
      AllRecorded(arrivals, [Object(user, "", false, None)], 1) == [text, text]
  {
    var thread, key := Some(Snapshot(Some("closed"), None, None)), Object(user, "", false, None);
    var arrivals := [Arrival(thread, text)];
    assert "closed" != "active" && "closed" != "manual" && "closed" != "waiting_manager";
    assert DoublyRecorded(thread, key);
    assert AllRecorded(arrivals, [key], 1) == AllRecorded(arrivals, [key], 0) + RecordedOf(arrivals[0], key);
  }

  predicate SettledUpTo(arrivals: seq<Arrival>, n: nat)
    requires n <= |arrivals|
  {
    forall i :: 0 <= i < n ==> Settled(arrivals[i].thread)
  }

  /** Losing a session can only send more messages to the graph. */
  lemma {:induction false} LossSendsMore(arrivals: seq<Arrival>, held: seq<Cached>, lost: seq<Cached>, n: nat)
    requires n <= |arrivals| == |held| == |lost|
    requires forall i :: 0 <= i < |arrivals| ==> held[i] == Plain("c") && lost[i] == Absent
    ensures |ToGraph(arrivals, held, n)| <= |ToGraph(arrivals, lost, n)|
    ensures ToGraph(arrivals, held, n) == ToGraph(arrivals, lost, n) ==> SettledUpTo(arrivals, n)
  {
    if n > 0 {
      LossSendsMore(arrivals, held, lost, n - 1);
      var last := arrivals[n - 1];
      var before, before' := ToGraph(arrivals, held, n - 1), ToGraph(arrivals, lost, n - 1);
      if Assigned(last.thread) {
        assert ToGraph(arrivals, held, n) == before && ToGraph(arrivals, lost, n) == before';
      } else if Active(last.thread) {
        SnocInjective(before, before', last.text);
      } else {
        UnsettledBothWays(last.thread);
      }
    }
  }

  lemma {:induction false} SettledSameGraph(arrivals: seq<Arrival>, keys1: seq<Cached>, keys2: seq<Cached>, n: nat)
    requires n <= |arrivals| == |keys1| == |keys2| && SettledUpTo(arrivals, n)
    ensures ToGraph(arrivals, keys1, n) == ToGraph(arrivals, keys2, n)
  {
    if n > 0 {
      SettledSameGraph(arrivals, keys1, keys2, n - 1);
      CacheIrrelevantIff(arrivals[n - 1].thread);
    }
  }

  ghost predicate GraphIgnoresKeys(arrivals: seq<Arrival>) {
    forall keys1: seq<Cached>, keys2: seq<Cached> | |keys1| == |arrivals| && |keys2| == |arrivals| ::
      ToGraph(arrivals, keys1, |arrivals|) == ToGraph(arrivals, keys2, |arrivals|)
  }

  /**
    Over a whole conversation, what the graph is asked is independent of every expiry and
    content of the session key if and only if each message meets an active thread or a
    manual one with its manager in the database.
   */
  lemma ConversationIgnoresCacheIff(arrivals: seq<Arrival>)
    ensures GraphIgnoresKeys(arrivals) <==> forall i :: 0 <= i < |arrivals| ==> Settled(arrivals[i].thread)
  {
    var n := |arrivals|;
    if SettledUpTo(arrivals, n) {
      forall keys1: seq<Cached>, keys2: seq<Cached> | |keys1| == n && |keys2| == n
        ensures ToGraph(arrivals, keys1, n) == ToGraph(arrivals, keys2, n)
      {
        SettledSameGraph(arrivals, keys1, keys2, n);
      }
    }
    if GraphIgnoresKeys(arrivals) {
      LossSendsMore(arrivals, seq(n, _ => Plain("c")), seq(n, _ => Absent), n);
    }
  }
}
