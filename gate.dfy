/** The moderation gate of the `messageCreate` handler (index.js:21-24, 30-60):
    which incoming messages the bot answers, and the three-strikes policy that
    counts flagged messages per user and blocks a user for good on the third. */
module Gate {
  import opened Mention

  type UserId = string

  /** BLOCK_AFTER: the strike count at which a user is blocked. */
  const BlockAfter: nat := 3

  /** What the handler sees of one chat message. `mentionsBot` is the chat
      gateway's own verdict that the message mentions the bot. */
  datatype Message = Message(authorId: UserId, authorIsBot: bool, mentionsBot: bool, content: string)

  /** How the handler answers. `Allowed` carries the cleaned text, which is
      what goes on to the completion API. */
  datatype Outcome = Ignored | AlreadyBlocked | Warned | BlockedNow | Allowed(prompt: string)

  /** The two process-lifetime collections: strike counts and blocked users. */
  datatype State = State(violations: map<UserId, nat>, blocked: set<UserId>)

  const Initial := State(map[], {})

  /** `violations.get(userId) || 0`. */
  function Strikes(st: State, u: UserId): nat
  {
    if u in st.violations then st.violations[u] else 0
  }

  /** The states reachable from `Initial`: a recorded count is one of the
      warned counts 1 and 2 or the blocking count 3, and a user is blocked
      exactly when their count is 3. */
  ghost predicate Valid(st: State)
  {
    (forall u :: u in st.violations ==> 1 <= st.violations[u] <= BlockAfter)
    && (forall u :: u in st.blocked ==> u in st.violations && st.violations[u] == BlockAfter)
    && (forall u :: u in st.violations && st.violations[u] == BlockAfter ==> u in st.blocked)
  }

  /** One run of the handler on `msg`, given the bot's own id and the
      moderation verdict on the cleaned text: the new state and the answer. */
  function Handle(st: State, botId: UserId, msg: Message, flagged: bool): (State, Outcome)
  {
    if msg.authorIsBot || !msg.mentionsBot then (st, Ignored)
    else if msg.authorId in st.blocked then (st, AlreadyBlocked)
    else
      var text := CleanMention(msg.content, botId);
      if text == [] then (st, Ignored)
      else if !flagged then (st, Allowed(text))
      else AddStrike(st, msg.authorId)
  }

  /** A flagged message from `u`: one more strike, and a block once the
      count reaches BlockAfter, a warning before that. */
  function AddStrike(st: State, u: UserId): (State, Outcome)
  {
    var strikes := Strikes(st, u) + 1;
    var violations := st.violations[u := strikes];
    if strikes >= BlockAfter then (State(violations, st.blocked + {u}), BlockedNow)
    else (State(violations, st.blocked), Warned)
  }

  /** The handler with its two collections held in place. */
  class ModerationGate {
    const botId: UserId
    var violations: map<UserId, nat>
    var blockedUsers: set<UserId>

    function Snapshot(): State
      reads this
    {
      State(violations, blockedUsers)
    }

    constructor (botId: UserId)
      ensures this.botId == botId
      ensures Snapshot() == Initial && Valid(Snapshot())
    {
      this.botId := botId;
      violations := map[];
      blockedUsers := {};
    }

    /** Handles one message; `flagged` is what moderation says of the text
        once the bot's mentions are stripped (it is not consulted when the
        handler returns before moderation). */
    method OnMessageCreate(msg: Message, flagged: bool) returns (outcome: Outcome)
      modifies this
      ensures (Snapshot(), outcome) == Handle(old(Snapshot()), botId, msg, flagged)
      ensures old(Valid(Snapshot())) ==> Valid(Snapshot())
    {
      ghost var before := Snapshot();
      if Valid(before) {
        HandlePreservesValid(before, botId, msg, flagged);
      }
      if msg.authorIsBot {
        return Ignored;
      }
      if !msg.mentionsBot {
        return Ignored;
      }
      var userId := msg.authorId;
      if userId in blockedUsers {
        return AlreadyBlocked;
      }
      var userMessage := CleanMention(msg.content, botId);
      if userMessage == [] {
        return Ignored;
      }
      if flagged {
        outcome := RecordStrike(userId);
        return;
      }
      return Allowed(userMessage);
    }

    /** The strike bookkeeping for a flagged message from `userId`. */
    method RecordStrike(userId: UserId) returns (outcome: Outcome)
      modifies this
      ensures (Snapshot(), outcome) == AddStrike(old(Snapshot()), userId)
    {
      var strikes := (if userId in violations then violations[userId] else 0) + 1;
      violations := violations[userId := strikes];
      if strikes >= BlockAfter {
        blockedUsers := blockedUsers + {userId};
        return BlockedNow;
      }
      return Warned;
    }
  }

  /** A message from a bot, or one that does not mention this bot, is ignored
      and changes nothing. */
  lemma IgnoresBotsAndUnmentioned(st: State, botId: UserId, msg: Message, flagged: bool)
    requires msg.authorIsBot || !msg.mentionsBot
    ensures Handle(st, botId, msg, flagged) == (st, Ignored)
  {
  }

  /** A blocked user is told so whatever they write and whatever moderation
      says, and nothing changes. */
  lemma BlockedShortCircuits(st: State, botId: UserId, msg: Message, flagged: bool)
    requires !msg.authorIsBot && msg.mentionsBot && msg.authorId in st.blocked
    ensures Handle(st, botId, msg, flagged) == (st, AlreadyBlocked)
  {
  }

  /** A message that is empty once the mentions are stripped and trimmed is
      ignored without a moderation verdict mattering, and changes nothing. */
  lemma EmptyTextIgnored(st: State, botId: UserId, msg: Message, flagged: bool)
    requires !msg.authorIsBot && msg.mentionsBot && msg.authorId !in st.blocked
    requires AllWhitespace(RemoveMentions(msg.content, botId))
    ensures Handle(st, botId, msg, flagged) == (st, Ignored)
  {
    CleanMentionSpec(msg.content, botId);
  }

  /** An unflagged verdict never changes the state. A message to the bot
      from an unblocked, non-bot author whose cleaned text is non-empty is
      Allowed with that text, and no other message is Allowed. */
  lemma UnflaggedChangesNothing(st: State, botId: UserId, msg: Message)
    ensures Handle(st, botId, msg, false).0 == st
    ensures Handle(st, botId, msg, false).1 in {Ignored, AlreadyBlocked, Allowed(CleanMention(msg.content, botId))}
    ensures Handle(st, botId, msg, false).1.Allowed? ==>
              var p := Handle(st, botId, msg, false).1.prompt;
              p != [] && NoOuterWhitespace(p) && msg.authorId !in st.blocked && !msg.authorIsBot && msg.mentionsBot
    ensures !msg.authorIsBot && msg.mentionsBot && msg.authorId !in st.blocked && CleanMention(msg.content, botId) != [] ==>
              Handle(st, botId, msg, false).1 == Allowed(CleanMention(msg.content, botId))
  {
    CleanMentionSpec(msg.content, botId);
  }

  /** Handling an unflagged message twice is the same as handling it once. */
  lemma UnflaggedIdempotent(st: State, botId: UserId, msg: Message)
    ensures Handle(Handle(st, botId, msg, false).0, botId, msg, false) == Handle(st, botId, msg, false)
  {
    UnflaggedChangesNothing(st, botId, msg);
  }

  /** A flagged message that reaches moderation gives its author one more
      strike (an absent count reads as 0), blocks them when the new count
      reaches BlockAfter and warns them otherwise; nobody else is touched. */
  lemma FlaggedAddsStrike(st: State, botId: UserId, msg: Message)
    requires !msg.authorIsBot && msg.mentionsBot && msg.authorId !in st.blocked
    requires CleanMention(msg.content, botId) != []
    ensures var (st', outcome) := Handle(st, botId, msg, true);
      var u := msg.authorId;
      && u in st'.violations && st'.violations[u] == Strikes(st, u) + 1
      && (forall v :: v != u ==> Strikes(st', v) == Strikes(st, v))
      && st'.violations.Keys == st.violations.Keys + {u}
      && (Strikes(st, u) + 1 >= BlockAfter ==> outcome == BlockedNow && st'.blocked == st.blocked + {u})
      && (Strikes(st, u) + 1 < BlockAfter ==> outcome == Warned && st'.blocked == st.blocked)
  {
  }

  /** The handler keeps the invariant: counts stay within 1..BlockAfter and
      a user is blocked exactly when their count is BlockAfter. */
  lemma HandlePreservesValid(st: State, botId: UserId, msg: Message, flagged: bool)
    requires Valid(st)
    ensures Valid(Handle(st, botId, msg, flagged).0)
  {
    var (st', _) := Handle(st, botId, msg, flagged);
    var u := msg.authorId;
    if st' != st {
      assert u !in st.blocked;
      assert Strikes(st, u) < BlockAfter;
      forall v | v in st'.violations
        ensures 1 <= st'.violations[v] <= BlockAfter
      {
        if v != u { assert v in st.violations; }
      }
    }
  }

  /** Counts never go down, nobody is ever unblocked, and only the author's
      count and membership can change. */
  lemma HandleMonotone(st: State, botId: UserId, msg: Message, flagged: bool)
    ensures var st' := Handle(st, botId, msg, flagged).0;
      && st.blocked <= st'.blocked
      && (forall v :: v in st.violations ==> v in st'.violations && st.violations[v] <= st'.violations[v])
      && (forall v :: v != msg.authorId ==> Strikes(st', v) == Strikes(st, v) && (v in st'.blocked <==> v in st.blocked))
  {
  }

  /** Under the invariant a user is blocked at their third flagged message and
      at no other: the answer is BlockedNow exactly when the count before was
      BlockAfter - 1, and then the author was not blocked before and is now. */
  lemma BlockedNowExactlyAtThreshold(st: State, botId: UserId, msg: Message, flagged: bool)
    requires Valid(st)
    ensures var (st', outcome) := Handle(st, botId, msg, flagged);
      outcome == BlockedNow <==>
        (flagged && !msg.authorIsBot && msg.mentionsBot && CleanMention(msg.content, botId) != []
         && msg.authorId !in st.blocked && Strikes(st, msg.authorId) == BlockAfter - 1)
    ensures var (st', outcome) := Handle(st, botId, msg, flagged);
      outcome == BlockedNow ==> msg.authorId !in st.blocked && msg.authorId in st'.blocked
  {
    var u := msg.authorId;
    if u !in st.blocked && u in st.violations {
      assert st.violations[u] <= BlockAfter - 1;
    }
  }
}
