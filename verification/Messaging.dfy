/** Sending a text message: any number of sends, retries and failures interleave, step by step.

    A row is inserted at most once per sender and nonce by the unique index; a send that meets a stored
    row fetches it in a second statement. Only a send that inserted its row publishes, and only
    afterwards. A row remembers which call inserted it; the columns that may change later are kept apart
    from the ones that may not. */
module Messaging {
  import opened Wrappers
  import opened Uuids

  type UserId = Uuid
  type MatchId = Uuid
  type MessageId = nat
  type Nonce = nat
  type CallId = nat

  const NIL: Nonce := 0
  const MAX_CONTENT := 2000

  /** The columns that never change. */
  datatype Body = Body(id: MessageId, matchId: MatchId, sender: UserId, nonce: Nonce, content: string)
  datatype Row = Row(body: Body, read: bool, deleted: bool, creator: CallId)
  datatype Key = Key(sender: UserId, nonce: Nonce)

  datatype Participants = Participants(low: UserId, high: UserId)
  datatype Published = Published(matchId: MatchId, recipients: Participants, body: Body)

  /** What the client sent, its content trimmed. */
  datatype Input = Input(matchId: MatchId, sender: UserId, nonce: Nonce, content: string)

  datatype Outcome =
    | InvalidNonce
    | EmptyContent
    | ContentTooLong
    | NotAdmitted
    | Sent(body: Body, created: bool)
    | StoreFailed
    | Crashed

  datatype Phase =
    | Valid
    | Admitted(participants: Participants)
    | Inserted(participants: Participants, body: Body)
    | Conflicted
    | Done(outcome: Outcome)

  datatype Call = Call(input: Input, phase: Phase)

  datatype State = State(rows: map<Key, Row>, published: seq<Published>, calls: map<CallId, Call>)

  /** `ReplyLost` executes the insert but the caller sees an error. */
  datatype Delivery = Delivered | NotSent | ReplyLost

  datatype Event =
    | Begin(call: CallId, input: Input)
    | Admit(call: CallId, participants: Option<Participants>)
    | Insert(call: CallId, id: MessageId, delivery: Delivery)
    | Fetch(call: CallId, fails: bool)
    | Publish(call: CallId, lost: bool)
    | Crash(call: CallId)
    | Touch(key: Key, read: bool, deleted: bool)

  function KeyOf(i: Input): Key {
    Key(i.sender, i.nonce)
  }

  /** The row a call inserts. */
  function BodyOf(i: Input, id: MessageId): Body {
    Body(id, i.matchId, i.sender, i.nonce, i.content)
  }

  function Validate(i: Input): Phase {
    if i.nonce == NIL then Done(InvalidNonce)
    else if i.content == "" then Done(EmptyContent)
    else if |i.content| > MAX_CONTENT then Done(ContentTooLong)
    else Valid
  }

  function SetPhase(s: State, call: CallId, phase: Phase): State
    requires call in s.calls
  {
    s.(calls := s.calls[call := s.calls[call].(phase := phase)])
  }

  predicate FreshId(s: State, id: MessageId) {
    forall k <- s.rows :: s.rows[k].body.id != id
  }

  function StepInsert(s: State, call: CallId, id: MessageId, delivery: Delivery): State
    requires call in s.calls && s.calls[call].phase.Admitted?
  {
    var Call(i, phase) := s.calls[call];
    var body := BodyOf(i, id);
    if delivery == NotSent || !FreshId(s, id) then SetPhase(s, call, Done(StoreFailed))
    else if KeyOf(i) in s.rows then
      SetPhase(s, call, if delivery == Delivered then Conflicted else Done(StoreFailed))
    else
      SetPhase(s.(rows := s.rows[KeyOf(i) := Row(body, false, false, call)]), call,
               if delivery == Delivered then Inserted(phase.participants, body) else Done(StoreFailed))
  }

  function StepPublish(s: State, call: CallId, lost: bool): State
    requires call in s.calls && s.calls[call].phase.Inserted?
  {
    var Inserted(participants, body) := s.calls[call].phase;
    var event := Published(s.calls[call].input.matchId, participants, body);
    SetPhase(if lost then s else s.(published := s.published + [event]), call, Done(Sent(body, true)))
  }

  /** An event that is not enabled leaves the state as it is. */
  function Step(s: State, e: Event): State {
    match e
    case Begin(call, input) =>
      if call in s.calls then s else s.(calls := s.calls[call := Call(input, Validate(input))])
    case Admit(call, participants) =>
      if call !in s.calls || !s.calls[call].phase.Valid? then s
      else SetPhase(s, call, if participants.Some? then Admitted(participants.value) else Done(NotAdmitted))
    case Insert(call, id, delivery) =>
      if call in s.calls && s.calls[call].phase.Admitted? then StepInsert(s, call, id, delivery) else s
    case Fetch(call, fails) =>
      if call !in s.calls || !s.calls[call].phase.Conflicted? then s
      else if fails || KeyOf(s.calls[call].input) !in s.rows then SetPhase(s, call, Done(StoreFailed))
      else SetPhase(s, call, Done(Sent(s.rows[KeyOf(s.calls[call].input)].body, false)))
    case Publish(call, lost) =>
      if call in s.calls && s.calls[call].phase.Inserted? then StepPublish(s, call, lost) else s
    case Crash(call) =>
      if call in s.calls && !s.calls[call].phase.Done? then SetPhase(s, call, Done(Crashed)) else s
    case Touch(key, read, deleted) =>
      if key in s.rows then s.(rows := s.rows[key := s.rows[key].(read := read, deleted := deleted)]) else s
  }

  function Run(s: State, events: seq<Event>): State
    decreases |events|
  {
    if events == [] then s else Run(Step(s, events[0]), events[1..])
  }

  const INIT := State(map[], [], map[])

  lemma {:induction false} RunAppend(s: State, a: seq<Event>, b: seq<Event>)
    ensures Run(s, a + b) == Run(Run(s, a), b)
    decreases |a|
  {
    if a == [] {
      assert a + b == b;
    } else {
      assert (a + b)[1..] == a[1..] + b;
      RunAppend(Step(s, a[0]), a[1..], b);
    }
  }

  lemma RunSnoc(s: State, events: seq<Event>, e: Event)
    ensures Run(s, events + [e]) == Step(Run(s, events), e)
  {
    RunAppend(s, events, [e]);
    var t := Run(s, events);
    assert [e][1..] == [];
    assert Run(Step(t, e), []) == Step(t, e);
  }

  lemma RunFour(s: State, a: Event, b: Event, c: Event, d: Event)
    ensures Run(s, [a, b, c, d]) == Step(Step(Step(Step(s, a), b), c), d)
  {
    RunSnoc(s, [a, b, c], d);
    RunSnoc(s, [a, b], c);
    RunSnoc(s, [a], b);
    RunSnoc(s, [], a);
    assert [a, b, c, d] == [a, b, c] + [d] && [a, b, c] == [a, b] + [c] && [a, b] == [a] + [b] && [a] == [] + [a];
  }

  // ----- each step, field by field -----

  /** A send is valid with a nonce and a text of one to two thousand characters; what is wrong is said in that
      order. */
  lemma ValidatedExactly(i: Input)
    ensures Validate(i) == Done(InvalidNonce) <==> i.nonce == 0
    ensures Validate(i) == Done(EmptyContent) <==> i.nonce != 0 && |i.content| == 0
    ensures Validate(i) == Done(ContentTooLong) <==> i.nonce != 0 && |i.content| > 2000
    ensures Validate(i) == Valid <==> i.nonce != 0 && 1 <= |i.content| <= 2000
  {
  }

  /** An insert that reaches the database stores the message under its sender and nonce if that is free, and
      otherwise changes nothing; only the caller that hears of it goes on. */
  lemma InsertExactly(s: State, call: CallId, id: MessageId, delivery: Delivery, p: Participants)
    requires call in s.calls && s.calls[call].phase == Admitted(p) && FreshId(s, id)
    ensures var i := s.calls[call].input;
            var k := Key(i.sender, i.nonce);
            var body := Body(id, i.matchId, i.sender, i.nonce, i.content);
            var t := Step(s, Insert(call, id, delivery));
            && t.published == s.published
            && t.rows == (if delivery != NotSent && k !in s.rows then s.rows[k := Row(body, false, false, call)]
                          else s.rows)
            && t.calls == s.calls[call := Call(i, if delivery != Delivered then Done(StoreFailed)
                                                  else if k in s.rows then Conflicted else Inserted(p, body))]
  {
  }

  /** A conflict is answered with the stored row and reported as not created. */
  lemma FetchExactly(s: State, call: CallId, fails: bool)
    requires call in s.calls && s.calls[call].phase == Conflicted
    ensures var i := s.calls[call].input;
            var k := Key(i.sender, i.nonce);
            Step(s, Fetch(call, fails)) == s.(calls := s.calls[call := Call(i,
              if fails || k !in s.rows then Done(StoreFailed) else Done(Sent(s.rows[k].body, false)))])
  {
  }

  /** An inserted message is published to the participants of its admission, unless that is lost, and reported
      as created either way. */
  lemma PublishExactly(s: State, call: CallId, lost: bool, p: Participants, body: Body)
    requires call in s.calls && s.calls[call].phase == Inserted(p, body)
    ensures var i := s.calls[call].input;
            Step(s, Publish(call, lost)) ==
              State(s.rows, if lost then s.published else s.published + [Published(i.matchId, p, body)],
                    s.calls[call := Call(i, Done(Sent(body, true)))])
  {
  }

  /** Admission, crashes, and the columns that change later. */
  lemma OtherExactly(s: State, call: CallId, p: Option<Participants>, key: Key, read: bool, deleted: bool)
    ensures forall i :: call !in s.calls ==>
              Step(s, Begin(call, i)) == s.(calls := s.calls[call := Call(i, Validate(i))])
    ensures call in s.calls && s.calls[call].phase == Valid ==>
              Step(s, Admit(call, p)) == s.(calls := s.calls[call := Call(s.calls[call].input,
                if p == None then Done(NotAdmitted) else Admitted(p.value))])
    ensures call in s.calls && !s.calls[call].phase.Done? ==>
              Step(s, Crash(call)) == s.(calls := s.calls[call := Call(s.calls[call].input, Done(Crashed))])
    ensures key in s.rows ==>
              var row := s.rows[key];
              Step(s, Touch(key, read, deleted)) == s.(rows := s.rows[key := Row(row.body, read, deleted, row.creator)])
  {
  }

  // ----- the invariant -----

  predicate SentBy(c: Call, body: Body, created: bool) {
    c.phase.Done? && c.phase.outcome == Sent(body, created)
  }

  /** What each call's progress says about the stored rows. */
  predicate CallOk(s: State, call: CallId)
    requires call in s.calls
  {
    var Call(i, phase) := s.calls[call];
    var k := KeyOf(i);
    && (phase.Inserted? || (phase.Done? && phase.outcome.Sent?) ==>
          var body := if phase.Inserted? then phase.body else phase.outcome.body;
          k in s.rows && s.rows[k].body == body)
    && (phase.Inserted? || (phase.Done? && phase.outcome.Sent? && phase.outcome.created) ==> s.rows[k].creator == call)
    && (phase.Conflicted? ==> k in s.rows)
    && (phase.Done? && phase.outcome.Sent? && !phase.outcome.created ==> s.rows[k].creator != call)
    && (phase.Conflicted? ==> s.rows[k].creator != call)
    && (phase.Valid? || phase.Admitted? ==> forall other <- s.rows :: s.rows[other].creator != call)
  }

  predicate RowOk(s: State, k: Key)
    requires k in s.rows
  {
    var row := s.rows[k];
    && k == Key(row.body.sender, row.body.nonce) && row.creator in s.calls
    && var Call(i, phase) := s.calls[row.creator];
       && row.body == BodyOf(i, row.body.id)
       && (phase.Inserted? || phase.Done?)
  }

  predicate EventOk(s: State, p: Published) {
    var k := Key(p.body.sender, p.body.nonce);
    && k in s.rows && s.rows[k].body == p.body && p.matchId == p.body.matchId
    && s.rows[k].creator in s.calls && s.calls[s.rows[k].creator].phase.Done?
  }

  predicate Inv(s: State) {
    && (forall call <- s.calls :: CallOk(s, call))
    && (forall k <- s.rows :: RowOk(s, k))
    && (forall a, b | a in s.rows && b in s.rows && a != b :: s.rows[a].body.id != s.rows[b].body.id)
    && (forall p <- s.published :: EventOk(s, p))
    && (forall i, j | 0 <= i < j < |s.published| :: s.published[i].body != s.published[j].body)
  }

  /** A new row belongs to its call, and disturbs no other call, row or event. */
  lemma NewRowKeeps(s: State, call: CallId, id: MessageId, delivery: Delivery)
    requires Inv(s) && call in s.calls && s.calls[call].phase.Admitted?
    requires delivery != NotSent && FreshId(s, id) && KeyOf(s.calls[call].input) !in s.rows
    ensures Inv(StepInsert(s, call, id, delivery))
  {
    assert CallOk(s, call);
    var t := StepInsert(s, call, id, delivery);
    forall other | other in t.calls ensures CallOk(t, other) {
      assert CallOk(s, other);
    }
    forall k | k in t.rows ensures RowOk(t, k) {
      if k in s.rows {
        assert RowOk(s, k);
      }
    }
    forall p | p in t.published ensures EventOk(t, p) {
      assert EventOk(s, p);
    }
  }

  lemma PublishKeeps(s: State, call: CallId, lost: bool)
    requires Inv(s) && call in s.calls && s.calls[call].phase.Inserted?
    ensures Inv(StepPublish(s, call, lost))
  {
    assert CallOk(s, call);
    var t := StepPublish(s, call, lost);
    var body := s.calls[call].phase.body;
    assert RowOk(s, KeyOf(s.calls[call].input));
    forall other | other in t.calls ensures CallOk(t, other) {
      assert CallOk(s, other);
    }
    forall k | k in t.rows ensures RowOk(t, k) {
      assert RowOk(s, k);
    }
    forall p | p in s.published ensures EventOk(t, p) && p.body != body {
      assert EventOk(s, p);
    }
  }

  lemma QuietKeeps(s: State, t: State)
    requires Inv(s) && t.rows.Keys == s.rows.Keys && t.published == s.published
    requires forall k <- s.rows :: t.rows[k].body == s.rows[k].body && t.rows[k].creator == s.rows[k].creator
    requires forall call <- s.calls :: call in t.calls && t.calls[call].input == s.calls[call].input
               && (s.calls[call].phase.Done? || s.calls[call].phase.Inserted? ==>
                     t.calls[call].phase == s.calls[call].phase || t.calls[call].phase == Done(Crashed))
    requires forall call <- t.calls :: CallOk(t, call)
    ensures Inv(t)
  {
    forall k | k in t.rows ensures RowOk(t, k) {
      assert RowOk(s, k);
    }
    forall p | p in t.published ensures EventOk(t, p) {
      assert EventOk(s, p);
    }
  }

  lemma BeginKeeps(s: State, call: CallId, input: Input)
    requires Inv(s) && call !in s.calls
    ensures Inv(Step(s, Begin(call, input)))
  {
    var t := Step(s, Begin(call, input));
    forall k | k in s.rows ensures s.rows[k].creator != call {
      assert RowOk(s, k);
    }
    forall other | other in t.calls ensures CallOk(t, other) {
      if other != call {
        assert CallOk(s, other);
      }
    }
    QuietKeeps(s, t);
  }

  lemma MoveKeeps(s: State, call: CallId, phase: Phase)
    requires Inv(s) && call in s.calls && !s.calls[call].phase.Done?
    requires s.calls[call].phase.Inserted? ==> phase == Done(Crashed)
    requires CallOk(SetPhase(s, call, phase), call)
    ensures Inv(SetPhase(s, call, phase))
  {
    var t := SetPhase(s, call, phase);
    forall other | other in t.calls ensures CallOk(t, other) {
      if other != call {
        assert CallOk(s, other);
      }
    }
    QuietKeeps(s, t);
  }

  lemma TouchKeeps(s: State, key: Key, read: bool, deleted: bool)
    requires Inv(s) && key in s.rows
    ensures Inv(Step(s, Touch(key, read, deleted)))
  {
    var t := Step(s, Touch(key, read, deleted));
    forall other | other in t.calls ensures CallOk(t, other) {
      assert CallOk(s, other);
    }
    QuietKeeps(s, t);
  }

  lemma InsertKeeps(s: State, call: CallId, id: MessageId, delivery: Delivery)
    requires Inv(s) && call in s.calls && s.calls[call].phase.Admitted?
    ensures Inv(StepInsert(s, call, id, delivery))
  {
    assert CallOk(s, call);
    if delivery != NotSent && FreshId(s, id) && KeyOf(s.calls[call].input) !in s.rows {
      NewRowKeeps(s, call, id, delivery);
    } else {
      MoveKeeps(s, call, StepInsert(s, call, id, delivery).calls[call].phase);
    }
  }

  lemma StepKeeps(s: State, e: Event)
    requires Inv(s)
    ensures Inv(Step(s, e))
  {
    var t := Step(s, e);
    if t != s {
      match e
      case Begin(call, input) => BeginKeeps(s, call, input);
      case Admit(call, _) => assert CallOk(s, call); MoveKeeps(s, call, t.calls[call].phase);
      case Insert(call, id, delivery) => InsertKeeps(s, call, id, delivery);
      case Fetch(call, _) => assert CallOk(s, call); MoveKeeps(s, call, t.calls[call].phase);
      case Publish(call, lost) => PublishKeeps(s, call, lost);
      case Crash(call) => assert CallOk(s, call); MoveKeeps(s, call, Done(Crashed));
      case Touch(key, read, deleted) => TouchKeeps(s, key, read, deleted);
    }
  }

  lemma {:induction false} RunKeeps(s: State, events: seq<Event>)
    requires Inv(s)
    ensures Inv(Run(s, events))
    decreases |events|
  {
    if events == [] {
    } else {
      StepKeeps(s, events[0]);
      RunKeeps(Step(s, events[0]), events[1..]);
    }
  }

  // ----- main results -----

  /** All successful sends with one sender and nonce return the same message, which is the stored one, and
      at most one of them reports that it created it; the message is what that call's client sent. */
  lemma SameMessage(events: seq<Event>, a: CallId, b: CallId, x: Body, y: Body, created: bool, again: bool)
    requires var s := Run(INIT, events);
             && a in s.calls && b in s.calls && KeyOf(s.calls[a].input) == KeyOf(s.calls[b].input)
             && SentBy(s.calls[a], x, created) && SentBy(s.calls[b], y, again)
    ensures var s := Run(INIT, events);
            && x == y
            && KeyOf(s.calls[a].input) in s.rows && s.rows[KeyOf(s.calls[a].input)].body == x
            && (created && again ==> a == b)
            && (created ==> x.content == s.calls[a].input.content && x.matchId == s.calls[a].input.matchId)
  {
    RunKeeps(INIT, events);
    var s := Run(INIT, events);
    assert CallOk(s, a) && CallOk(s, b);
    assert RowOk(s, KeyOf(s.calls[a].input));
  }

  /** A stored row was inserted by one call, and that call reports `created` unless it is still publishing,
      died, or never saw the reply to its insert: no other call ever does. */
  lemma OneCreator(events: seq<Event>, k: Key)
    requires k in Run(INIT, events).rows
    ensures var s := Run(INIT, events);
            var creator := s.rows[k].creator;
            && creator in s.calls && KeyOf(s.calls[creator].input) == k
            && (forall call | call in s.calls && KeyOf(s.calls[call].input) == k && s.calls[call].phase.Done?
                  && s.calls[call].phase.outcome.Sent? ::
                  s.calls[call].phase.outcome.created <==> call == creator)
  {
    RunKeeps(INIT, events);
    var s := Run(INIT, events);
    assert RowOk(s, k);
    forall call | call in s.calls && KeyOf(s.calls[call].input) == k
      && s.calls[call].phase.Done? && s.calls[call].phase.outcome.Sent?
      ensures s.calls[call].phase.outcome.created <==> call == s.rows[k].creator
    {
      assert CallOk(s, call);
    }
  }

  /** A reply that was replayed carries the caller's own match and content exactly when the creating call
      was sent the same: the nonce alone decides which message comes back. */
  lemma ReplayReturnsCreators(events: seq<Event>, call: CallId, body: Body)
    requires var s := Run(INIT, events); call in s.calls && SentBy(s.calls[call], body, false)
    ensures var s := Run(INIT, events);
            var i := s.calls[call].input;
            && KeyOf(i) in s.rows && s.rows[KeyOf(i)].creator in s.calls && s.rows[KeyOf(i)].creator != call
            && (body == BodyOf(i, body.id) <==> s.calls[s.rows[KeyOf(i)].creator].input == i)
  {
    RunKeeps(INIT, events);
    var s := Run(INIT, events);
    assert CallOk(s, call) && RowOk(s, KeyOf(s.calls[call].input));
  }

  /** And it can differ: for any two valid inputs with one key, the second send is answered with the
      message of the first, whatever match and content it asked for. */
  lemma ReplayOfOther(first: Input, second: Input, p: Participants, q: Participants) returns (events: seq<Event>)
    requires Validate(first).Valid? && Validate(second).Valid? && KeyOf(first) == KeyOf(second)
    ensures var s := Run(INIT, events);
            && 0 in s.calls && s.calls[0] == Call(first, Done(Sent(BodyOf(first, 0), true)))
            && 1 in s.calls && s.calls[1] == Call(second, Done(Sent(BodyOf(first, 0), false)))
  {
    var a := [Begin(0, first), Admit(0, Some(p)), Insert(0, 0, Delivered), Publish(0, false)];
    var b := [Begin(1, second), Admit(1, Some(q)), Insert(1, 1, Delivered), Fetch(1, false)];
    events := a + b;
    RunAppend(INIT, a, b);
    RunFour(INIT, a[0], a[1], a[2], a[3]);
    var s := Run(INIT, a);
    assert s.rows == map[KeyOf(first) := Row(BodyOf(first, 0), false, false, 0)];
    RunFour(s, b[0], b[1], b[2], b[3]);
  }

  lemma StoredBefore(s: State, last: Event, p: Published)
    requires Inv(s) && p in Step(s, last).published
    ensures var k := Key(p.body.sender, p.body.nonce);
            k in s.rows && s.rows[k].body == p.body && p.matchId == p.body.matchId
  {
    if p in s.published {
      assert EventOk(s, p);
    } else {
      assert CallOk(s, last.call) && RowOk(s, KeyOf(s.calls[last.call].input));
    }
  }

  lemma PublishedIds(s: State)
    requires Inv(s)
    ensures forall i, j | 0 <= i < j < |s.published| :: s.published[i].body.id != s.published[j].body.id
  {
    forall i, j | 0 <= i < j < |s.published| ensures s.published[i].body.id != s.published[j].body.id {
      assert EventOk(s, s.published[i]) && EventOk(s, s.published[j]);
    }
  }

  lemma PublishedGrows(s: State, e: Event)
    ensures s.published <= Step(s, e).published
  {
  }

  /** Every published event shows a row stored before it, under that row's match; no row is published twice. */
  lemma PublishedOnceAndStored(events: seq<Event>, last: Event)
    ensures var s := Run(INIT, events);
            var t := Step(s, last);
            && s.published <= t.published
            && (forall p <- t.published :: var k := Key(p.body.sender, p.body.nonce);
                  k in s.rows && s.rows[k].body == p.body && p.matchId == p.body.matchId)
            && (forall i, j | 0 <= i < j < |t.published| :: t.published[i].body.id != t.published[j].body.id)
  {
    RunKeeps(INIT, events);
    var s := Run(INIT, events);
    StepKeeps(s, last);
    PublishedIds(Step(s, last));
    PublishedGrows(s, last);
    forall p | p in Step(s, last).published
      ensures var k := Key(p.body.sender, p.body.nonce);
              k in s.rows && s.rows[k].body == p.body && p.matchId == p.body.matchId
    {
      StoredBefore(s, last, p);
    }
  }
}
