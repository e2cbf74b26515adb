/** The gate over a whole sequence of messages, as the bot sees them over the
    life of the process: the policy properties that only show across calls. */
module GateRuns {
  import opened Mention
  import opened Gate

  /** One incoming message with the moderation verdict on its cleaned text. */
  datatype Event = Event(msg: Message, flagged: bool)

  /** The handler applied to each message in turn: the final state and one
      answer per message. */
  function Run(st: State, botId: UserId, events: seq<Event>): (r: (State, seq<Outcome>))
    ensures |r.1| == |events|
    decreases |events|
  {
    if events == [] then (st, [])
    else
      var step := Handle(st, botId, events[0].msg, events[0].flagged);
      var rest := Run(step.0, botId, events[1..]);
      (rest.0, [step.1] + rest.1)
  }

  /** The state the handler is in when it reaches message `i`. */
  function StateBefore(st: State, botId: UserId, events: seq<Event>, i: nat): State
    requires i <= |events|
  {
    Run(st, botId, events[..i]).0
  }

  /** The answer to message `i` is the handler's answer in the state left by
      the messages before it, and that step gives the state before `i + 1`. */
  lemma {:induction false} RunAt(st: State, botId: UserId, events: seq<Event>, i: nat)
    requires i < |events|
    ensures var (st', outcome) := Handle(StateBefore(st, botId, events, i), botId, events[i].msg, events[i].flagged);
      Run(st, botId, events).1[i] == outcome && StateBefore(st, botId, events, i + 1) == st'
    decreases i
  {
    var st1 := Handle(st, botId, events[0].msg, events[0].flagged).0;
    if i == 0 {
      assert events[..0] == [];
      assert events[..1] == [events[0]] && events[..1][1..] == [];
      assert Run(st1, botId, []).0 == st1;
    } else {
      RunAt(st1, botId, events[1..], i - 1);
      assert events[..i][0] == events[0] && events[..i][1..] == events[1..][..i - 1];
      assert events[..i + 1][0] == events[0] && events[..i + 1][1..] == events[1..][..i];
    }
  }

  /** The invariant holds after any sequence of messages, so in particular in
      every state the process can reach from its empty start. */
  lemma {:induction false} RunPreservesValid(st: State, botId: UserId, events: seq<Event>)
    requires Valid(st)
    ensures Valid(Run(st, botId, events).0)
    decreases |events|
  {
    if events != [] {
      HandlePreservesValid(st, botId, events[0].msg, events[0].flagged);
      RunPreservesValid(Handle(st, botId, events[0].msg, events[0].flagged).0, botId, events[1..]);
    }
  }

  /** Over any sequence of messages counts never go down and nobody is
      unblocked. */
  lemma {:induction false} RunMonotone(st: State, botId: UserId, events: seq<Event>)
    ensures var st' := Run(st, botId, events).0;
      && st.blocked <= st'.blocked
      && (forall v :: v in st.violations ==> v in st'.violations && st.violations[v] <= st'.violations[v])
    decreases |events|
  {
    if events != [] {
      var st1 := Handle(st, botId, events[0].msg, events[0].flagged).0;
      HandleMonotone(st, botId, events[0].msg, events[0].flagged);
      RunMonotone(st1, botId, events[1..]);
    }
  }

  /** Messages with unflagged verdicts only, however many, leave the state as
      it was. */
  lemma {:induction false} UnflaggedRunChangesNothing(st: State, botId: UserId, events: seq<Event>)
    requires forall k :: 0 <= k < |events| ==> !events[k].flagged
    ensures Run(st, botId, events).0 == st
    decreases |events|
  {
    if events != [] {
      UnflaggedChangesNothing(st, botId, events[0].msg);
      UnflaggedRunChangesNothing(st, botId, events[1..]);
    }
  }

  /** A user blocked before message `i` is still blocked before every later
      message. */
  lemma {:induction false} StaysBlocked(st: State, botId: UserId, events: seq<Event>, i: nat, j: nat, u: UserId)
    requires i <= j <= |events|
    requires u in StateBefore(st, botId, events, i).blocked
    ensures u in StateBefore(st, botId, events, j).blocked
    decreases j - i
  {
    if i < j {
      RunAt(st, botId, events, i);
      HandleMonotone(StateBefore(st, botId, events, i), botId, events[i].msg, events[i].flagged);
      StaysBlocked(st, botId, events, i + 1, j, u);
    }
  }

  /** Once a user has been blocked, every later message of theirs to the bot
      is answered AlreadyBlocked: a user is blocked at most once. */
  lemma BlockedNowOnce(st: State, botId: UserId, events: seq<Event>, i: nat, j: nat)
    requires i < j < |events|
    requires Run(st, botId, events).1[i] == BlockedNow
    requires events[j].msg.authorId == events[i].msg.authorId
    requires !events[j].msg.authorIsBot && events[j].msg.mentionsBot
    ensures Run(st, botId, events).1[j] == AlreadyBlocked
  {
    var u := events[i].msg.authorId;
    RunAt(st, botId, events, i);
    assert u in StateBefore(st, botId, events, i + 1).blocked;
    StaysBlocked(st, botId, events, i + 1, j, u);
    RunAt(st, botId, events, j);
  }

  /** Run on a message followed by more messages: the first answer, then the
      answers from the state it leaves. */
  lemma RunCons(st: State, botId: UserId, e: Event, events: seq<Event>)
    ensures var step := Handle(st, botId, e.msg, e.flagged);
      var rest := Run(step.0, botId, events);
      Run(st, botId, [e] + events) == (rest.0, [step.1] + rest.1)
  {
    assert ([e] + events)[0] == e && ([e] + events)[1..] == events;
  }

  /** The three flagged messages of a user with no record, one at a time. */
  lemma StrikeWalk(st: State, botId: UserId, msg: Message)
    requires msg.authorId !in st.violations && msg.authorId !in st.blocked
    requires !msg.authorIsBot && msg.mentionsBot && CleanMention(msg.content, botId) != []
    ensures var st1 := Handle(st, botId, msg, true).0;
      var st2 := Handle(st1, botId, msg, true).0;
      var st3 := Handle(st2, botId, msg, true).0;
      && Handle(st, botId, msg, true).1 == Warned
      && Handle(st1, botId, msg, true).1 == Warned
      && Handle(st2, botId, msg, true).1 == BlockedNow
      && Strikes(st1, msg.authorId) == 1 && Strikes(st2, msg.authorId) == 2
      && Strikes(st3, msg.authorId) == BlockAfter && msg.authorId in st3.blocked
  {
    var u := msg.authorId;
    var st1 := Handle(st, botId, msg, true).0;
    var st2 := Handle(st1, botId, msg, true).0;
    assert Strikes(st1, u) == 1 && u !in st1.blocked;
    assert Strikes(st2, u) == 2 && u !in st2.blocked;
  }

  /** The three-strikes walk of a user with no record: two warnings, a block
      on the third flagged message with the count at BlockAfter, and the
      blocked answer to whatever they send next. */
  lemma ThreeStrikes(st: State, botId: UserId, msg: Message, next: Event)
    requires msg.authorId !in st.violations && msg.authorId !in st.blocked
    requires !msg.authorIsBot && msg.mentionsBot && CleanMention(msg.content, botId) != []
    requires next.msg.authorId == msg.authorId && !next.msg.authorIsBot && next.msg.mentionsBot
    ensures var (st', outcomes) := Run(st, botId, [Event(msg, true), Event(msg, true), Event(msg, true), next]);
      && outcomes == [Warned, Warned, BlockedNow, AlreadyBlocked]
      && Strikes(st', msg.authorId) == BlockAfter && msg.authorId in st'.blocked
  {
    var e := Event(msg, true);
    var st1 := Handle(st, botId, msg, true).0;
    var st2 := Handle(st1, botId, msg, true).0;
    var st3 := Handle(st2, botId, msg, true).0;
    StrikeWalk(st, botId, msg);
    BlockedShortCircuits(st3, botId, next.msg, next.flagged);
    RunCons(st3, botId, next, []);
    assert [next] + [] == [next] && [AlreadyBlocked] + [] == [AlreadyBlocked];
    RunCons(st2, botId, e, [next]);
    RunCons(st1, botId, e, [e, next]);
    RunCons(st, botId, e, [e, e, next]);
    assert [e] + [next] == [e, next] && [e] + [e, next] == [e, e, next];
    assert [e] + [e, e, next] == [e, e, e, next];
  }
}
