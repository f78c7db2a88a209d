/** The code of one send run without interruption: the repository's insert-or-fetch and the service
    method that publishes only what it inserted. */
module MessagingService {
  import opened Wrappers
  import opened Messaging
  import Conversations
  import Matching
  import MatchingRepository
  import Text

  /** What the rate limit, the database and the publisher do during one send. */
  datatype Environment = Environment(
    limited: bool, id: MessageId, insert: Delivery, fetchFails: bool, publishLost: bool)

  /** Who the send is admitted with, as the matches stand. */
  ghost function Admission(db: Matching.Db, input: Input, env: Environment): Option<Participants>
    requires Matching.Keyed(db)
  {
    if env.limited then None else Conversations.ActiveParticipants(db, input.matchId, input.sender)
  }

  function Solo(call: CallId, input: Input, p: Option<Participants>, env: Environment): seq<Event> {
    [Begin(call, input), Admit(call, p), Insert(call, env.id, env.insert),
     Fetch(call, env.fetchFails), Publish(call, env.publishLost)]
  }

  function AfterInsert(s: State, call: CallId, env: Environment): State {
    Step(Step(s, Fetch(call, env.fetchFails)), Publish(call, env.publishLost))
  }

  function AfterAdmit(s: State, call: CallId, env: Environment): State {
    AfterInsert(Step(s, Insert(call, env.id, env.insert)), call, env)
  }

  lemma SoloRun(s: State, call: CallId, input: Input, p: Option<Participants>, env: Environment)
    ensures Run(s, Solo(call, input, p, env))
         == AfterAdmit(Step(Step(s, Begin(call, input)), Admit(call, p)), call, env)
  {
    var e := Solo(call, input, p, env);
    RunSnoc(s, e[..0], e[0]);
    RunSnoc(s, e[..1], e[1]);
    RunSnoc(s, e[..2], e[2]);
    RunSnoc(s, e[..3], e[3]);
    RunSnoc(s, e[..4], e[4]);
    assert e[..0] == [] && e[..1] == e[..0] + [e[0]] && e[..2] == e[..1] + [e[1]];
    assert e[..3] == e[..2] + [e[2]] && e[..4] == e[..3] + [e[3]] && e == e[..4] + [e[4]];
  }

  /** A send is admitted exactly when it is not limited and its sender is one of the two users of an active,
      unblocked match of that id, and then with those two. */
  lemma AdmissionExactly(db: Matching.Db, input: Input, env: Environment)
    requires Matching.Keyed(db)
    ensures var p := Admission(db, input, env);
            && (p.Some? <==> !env.limited && exists key <- db.matches :: Suits(db, key, input))
            && (p.Some? ==> (p.value.low, p.value.high) in db.matches && Suits(db, (p.value.low, p.value.high), input))
  {
    if key :| key in db.matches && Suits(db, key, input) {
      assert Matching.Participates(db, input.matchId, input.sender);
    }
    var p := Conversations.ActiveParticipants(db, input.matchId, input.sender);
    if p.Some? {
      assert Suits(db, (p.value.low, p.value.high), input);
    }
  }

  predicate Suits(db: Matching.Db, key: Matching.Pair, input: Input)
    requires key in db.matches
  {
    && db.matches[key].id == input.matchId && db.matches[key].ending == None
    && (key.0 == input.sender || key.1 == input.sender) && key !in db.blocks && (key.1, key.0) !in db.blocks
  }

  /** The answer to one undisturbed send, case by case. */
  predicate Answers(rows: map<Key, Row>, input: Input, admitted: bool, env: Environment, o: Outcome) {
    var k := Key(input.sender, input.nonce);
    var valid := input.nonce != 0 && 1 <= |input.content| <= 2000;
    var stores := valid && admitted && env.insert == Delivered;
    && (o == InvalidNonce <==> input.nonce == 0)
    && (o == EmptyContent <==> input.nonce != 0 && |input.content| == 0)
    && (o == ContentTooLong <==> input.nonce != 0 && |input.content| > 2000)
    && (o == NotAdmitted <==> valid && !admitted)
    && (o == StoreFailed <==> valid && admitted && (env.insert != Delivered || (k in rows && env.fetchFails)))
    && (o.Sent? <==> stores && (k in rows ==> !env.fetchFails))
    && (o.Sent? ==> o.created == (k !in rows))
    && (o.Sent? && o.created ==> o.body == Body(env.id, input.matchId, input.sender, input.nonce, input.content))
    && (o.Sent? && !o.created ==> k in rows && o.body == rows[k].body)
  }

  /** What one undisturbed send is answered, stores and publishes. */
  lemma SoloAnswers(s: State, call: CallId, input: Input, p: Option<Participants>, env: Environment)
    requires call !in s.calls && FreshId(s, env.id)
    ensures var t := Run(s, Solo(call, input, p, env));
            var k := Key(input.sender, input.nonce);
            var body := Body(env.id, input.matchId, input.sender, input.nonce, input.content);
            && call in t.calls && t.calls[call].phase.Done?
            && Answers(s.rows, input, p.Some?, env, t.calls[call].phase.outcome)
            && t.rows == (if input.nonce != 0 && 1 <= |input.content| <= 2000 && p.Some?
                             && env.insert != NotSent && k !in s.rows
                          then s.rows[k := Row(body, false, false, call)] else s.rows)
            && t.published == (if t.calls[call].phase.outcome == Sent(body, true) && !env.publishLost && p.Some?
                               then s.published + [Published(input.matchId, p.value, body)] else s.published)
  {
    SoloRun(s, call, input, p, env);
    ValidatedExactly(input);
    var begun := Step(s, Begin(call, input));
    var admitted := Step(begun, Admit(call, p));
    if Validate(input).Valid? && p.Some? {
      InsertExactly(admitted, call, env.id, env.insert, p.value);
    }
  }

  class Service {
    const matches: MatchingRepository.Repository
    var rows: map<Key, Row>
    var published: seq<Published>
    ghost var calls: map<CallId, Call>

    constructor (matches: MatchingRepository.Repository)
      ensures this.matches == matches && View() == INIT
    {
      this.matches := matches;
      rows, published, calls := map[], [], map[];
    }

    ghost function View(): State
      reads this
    {
      State(rows, published, calls)
    }

    ghost method Move(call: CallId, phase: Phase)
      requires call in calls
      modifies this`calls
      ensures View() == SetPhase(old(View()), call, phase)
    {
      calls := calls[call := calls[call].(phase := phase)];
    }

    method SendText(call: CallId, matchId: MatchId, sender: UserId, nonce: Nonce, text: string, env: Environment)
      returns (outcome: Outcome)
      requires call !in calls && FreshId(View(), env.id)
      requires Matching.Keyed(matches.View()) && Matching.UniqueIds(matches.View())
      modifies this
      ensures var input := Input(matchId, sender, nonce, Text.TrimSpace(text));
              && View() == Run(old(View()), Solo(call, input, Admission(matches.View(), input, env), env))
              && call in calls && calls[call] == Call(input, Done(outcome))
      ensures outcome == EmptyContent <==> nonce != NIL && Text.All(text, Text.IsSpace)
      ensures var input := Input(matchId, sender, nonce, Text.TrimSpace(text));
              Answers(old(rows), input, Admission(matches.View(), input, env).Some?, env, outcome)
    {
      Text.TrimEmpty(text, Text.IsSpace);
      ghost var input := Input(matchId, sender, nonce, Text.TrimSpace(text));
      SoloAnswers(View(), call, input, Admission(matches.View(), input, env), env);
      outcome := SendTrimmed(call, Input(matchId, sender, nonce, Text.TrimSpace(text)), env);
    }

    method SendTrimmed(call: CallId, input: Input, env: Environment) returns (outcome: Outcome)
      requires call !in calls && FreshId(View(), env.id)
      requires Matching.Keyed(matches.View()) && Matching.UniqueIds(matches.View())
      modifies this
      ensures View() == Run(old(View()), Solo(call, input, Admission(matches.View(), input, env), env))
      ensures call in calls && calls[call] == Call(input, Done(outcome))
      ensures outcome == EmptyContent <==> input.nonce != NIL && input.content == ""
    {
      ghost var admission := Admission(matches.View(), input, env);
      SoloRun(View(), call, input, admission, env);
      calls := calls[call := Call(input, Validate(input))];
      if input.nonce == NIL {
        return InvalidNonce;
      }
      if input.content == "" {
        return EmptyContent;
      }
      if |input.content| > MAX_CONTENT {
        return ContentTooLong;
      }
      var participants := Authorize(input, env);
      if participants.None? {
        Move(call, Done(NotAdmitted));
        return NotAdmitted;
      }
      Move(call, Admitted(participants.value));
      outcome := PersistAndPublish(call, input, participants.value, env);
    }

    /** The two gates of a send: an active match of the sender, and the rate limit. */
    method Authorize(input: Input, env: Environment) returns (p: Option<Participants>)
      requires Matching.Keyed(matches.View()) && Matching.UniqueIds(matches.View())
      ensures p == Admission(matches.View(), input, env)
    {
      var pair := matches.GetActiveParticipants(input.matchId, input.sender);
      if pair.None? || env.limited {
        return None;
      }
      p := Some(Participants(pair.value.0, pair.value.1));
      ghost var admission := Admission(matches.View(), input, env);
      Conversations.JoinsOne(matches.View(), p.value, admission.value, input.matchId, input.sender);
    }

    /** Durable first, published second; a replay is not published again. */
    method PersistAndPublish(call: CallId, input: Input, participants: Participants, env: Environment)
      returns (outcome: Outcome)
      requires call in calls && calls[call] == Call(input, Admitted(participants)) && FreshId(View(), env.id)
      modifies this
      ensures View() == AfterAdmit(old(View()), call, env)
      ensures outcome != EmptyContent
      ensures call in calls && calls[call] == Call(input, Done(outcome))
    {
      outcome := Send(call, input, participants, env);
      if outcome.Sent? && outcome.created {
        if !env.publishLost {
          published := published + [Published(input.matchId, participants, outcome.body)];
        }
        Move(call, Done(outcome));
      }
    }

    /** Inserts the message, or fetches the one its nonce already has. A send that inserted still has to
        publish. */
    method Send(call: CallId, input: Input, participants: Participants, env: Environment)
      returns (outcome: Outcome)
      requires call in calls && calls[call] == Call(input, Admitted(participants)) && FreshId(View(), env.id)
      modifies this`rows, this`calls
      ensures outcome != EmptyContent
      ensures View() == Step(Step(old(View()), Insert(call, env.id, env.insert)), Fetch(call, env.fetchFails))
      ensures call in calls && calls[call].input == input
      ensures calls[call].phase == if outcome.Sent? && outcome.created then Inserted(participants, outcome.body)
                                   else Done(outcome)
      ensures outcome.Sent? ==> KeyOf(input) in rows && rows[KeyOf(input)].body == outcome.body
      ensures outcome.Sent? && outcome.created ==> KeyOf(input) !in old(rows)
    {
      if env.insert == NotSent {
        Move(call, Done(StoreFailed));
        return StoreFailed;
      }
      var conflict := KeyOf(input) in rows;
      var body := Body(env.id, input.matchId, input.sender, input.nonce, input.content);
      if !conflict {
        rows := rows[KeyOf(input) := Row(body, false, false, call)];
      }
      if env.insert == ReplyLost {
        Move(call, Done(StoreFailed));
        return StoreFailed;
      }
      if !conflict {
        Move(call, Inserted(participants, body));
        return Sent(body, true);
      }
      Move(call, Conflicted);
      if env.fetchFails {
        Move(call, Done(StoreFailed));
        return StoreFailed;
      }
      outcome := Sent(rows[KeyOf(input)].body, false);
      Move(call, Done(outcome));
    }
  }
}
