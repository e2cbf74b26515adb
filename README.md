# Moderation gate of the mudsAI Discord bot, in Dafny

The bot answers chat messages that mention it by relaying them to a hosted
language model. Before it relays a message, its `messageCreate` handler works
through a small moderation gate:

- it drops messages written by bots and messages that do not mention it;
- it answers a blocked user with the blocked reply and does nothing else;
- it strips every `<@ID>` / `<@!ID>` mention of itself from the text, trims
  what is left, and ignores the message if nothing is left;
- on a flagged moderation verdict it adds one strike to the author. On the
  third strike (`BLOCK_AFTER = 3`) it blocks the author for the life of the
  process, and before that it warns them. An unflagged message goes on to
  the completion API.

The strike counts (`violations`, a map) and the blocked users
(`blockedUsers`, a set) live in memory for the life of the process.

## Layout

- `mention.dfy`, module `Mention`: the text cleaning as pure functions.
  `RemoveMentions` is the global replace of `<@!?ID>`: one left-to-right
  scan that tries the nickname form `<@!ID>` first, because the `!` is
  greedy. It never rescans text that a deletion brings together. `Trim` is
  JavaScript's `trim` over the ECMAScript WhiteSpace and LineTerminator code
  points. `CleanMention` is the two combined. The lemmas pin these down:
  - what `Trim` keeps;
  - the deletion is the identity exactly when there is no mention;
  - every mention is removed and the other text is kept in order;
  - a concrete input shows that a mention is not rescanned.
- `gate.dfy`, module `Gate`: the state (`State`: the strike map and the
  blocked set), the handler as a function `Handle`, and the class
  `ModerationGate`. The class holds the map and the set as fields that its
  method `OnMessageCreate` updates in place. The method's contract ties
  every call to `Handle`, and the lemmas state the gate's policy about
  `Handle`. The invariant `Valid` says that every recorded count is 1, 2 or
  3, and that a user is blocked exactly when their count is 3. It holds
  from the empty start and after every message.
- `runs.dfy`, module `GateRuns`: the handler over a sequence of messages
  (`Run`). These lemmas cover properties that span several calls:
  - the invariant is kept;
  - counts never go down and nobody is unblocked;
  - any number of unflagged messages change nothing;
  - a user is blocked at most once, and every later message of theirs to
    the bot (mentioning it, from a non-bot author) gets the blocked answer;
  - the walk of a new user: warned, warned, blocked now, already blocked.

The moderation verdict and the gateway's "mentions the bot" flag are inputs.
The `Allowed` outcome carries the cleaned text, which the source sends on to
the completion API.

## Model

| member | source | states |
|---|---|---|
| `Mention.IsWhitespace` | index.js:42 | the characters `trim` strips: the ECMAScript WhiteSpace and LineTerminator code points; its meaning for `trim` is stated by `Mention.TrimSpec` |
| `Mention.TrimStart` | index.js:42 | the leading half of `trim`; its contract is `Mention.TrimStartSpec` |
| `Mention.TrimEnd` | index.js:42 | the trailing half of `trim`; its contract is `Mention.TrimEndSpec` |
| `Mention.Trim` | index.js:42 | `String.prototype.trim`; its contract is `Mention.TrimSpec` and `Mention.TrimIdempotent` |
| `Mention.RemoveMentions` | index.js:41-42 | `content.replace(/<@!?ID>/g, "")`; its contract is `Mention.RemoveMentionsIdentity`, `Mention.RemoveMentionsShrinks`, `Mention.RemovesEveryMention` and `Mention.NoRescan` |
| `Mention.CleanMention` | index.js:41-42 | the cleaned text `userMessage`; its contract is `Mention.CleanMentionSpec` and `Mention.NoMentionOnlyTrims` |
| `Gate.Handle` | index.js:30-60 | one run of the handler; its contract is stated by `Gate.IgnoresBotsAndUnmentioned`, `Gate.BlockedShortCircuits`, `Gate.EmptyTextIgnored`, `Gate.UnflaggedChangesNothing`, `Gate.FlaggedAddsStrike`, `Gate.HandlePreservesValid`, `Gate.HandleMonotone` and `Gate.BlockedNowExactlyAtThreshold` |
| `Gate.AddStrike` | index.js:51-59 | the strike bookkeeping of a flagged message; its contract is `Gate.FlaggedAddsStrike` and `Gate.BlockedNowExactlyAtThreshold` |
| `Mention.TrimStartSpec` | index.js:42 | the leading part of `trim`: the result is the suffix of the text that starts at its first non-whitespace character, and everything cut off is whitespace |
| `Mention.TrimEndSpec` | index.js:42 | the trailing part of `trim`: the result is the prefix of the text that ends at its last non-whitespace character, and everything cut off is whitespace |
| `Mention.TrimSpec` | index.js:42 | `trim` returns a contiguous slice of the text with only whitespace cut off on either side, has no whitespace at either end, and is empty exactly when the text is all whitespace |
| `Mention.TrimIdempotent` | index.js:42 | trimming an already trimmed text changes nothing |
| `Mention.RemoveMentionsShrinks` | index.js:41-42 | the global replace only deletes text, so its result is never longer than its input |
| `Mention.RemoveMentionsIdentity` | index.js:41-42 | the replace leaves the text unchanged if and only if the text contains no `<@ID>` or `<@!ID>` mention of the bot |
| `Mention.CleanMentionSpec` | index.js:41-43 | the cleaned text has no whitespace at either end and is no longer than the message; it is empty (the handler returns) exactly when the message minus its mentions is all whitespace |
| `Mention.NoMentionOnlyTrims` | index.js:41-43 | a message with no mention of the bot is only trimmed, and it is ignored exactly when it is all whitespace |
| `Mention.KeepsFirst` | index.js:41-42 | the scan keeps any first character other than `<`, since every mention starts with `<` |
| `Mention.PlainPrefix` | index.js:41-42 | text without `<` is kept unchanged in place, whatever follows it (the simple case of `Mention.KeptPrefix`) |
| `Mention.KeptPrefix` | index.js:41-42 | text in which no mention of the bot starts is kept unchanged in place, whatever follows it |
| `Mention.MentionPrefix` | index.js:41-42 | a leading `<@ID>` or `<@!ID>` is deleted and the scan resumes right after it |
| `Mention.RemovesEveryMention` | index.js:41-42 | in a message made of text pieces and mentions of the bot, where no bot mention starts inside a text piece (other `<`, such as another user's mention or a custom emoji, may appear), every bot mention is deleted and all the other text is kept in order |
| `Mention.NoRescan` | index.js:41-42 | a mention formed by a deletion is not removed: `<@<@1>1>` becomes `<@1>`, which still mentions user 1 |
| `Gate.ModerationGate.constructor` | index.js:21-24 | the gate starts with an empty strike map and an empty blocked set, a state that satisfies the invariant |
| `Gate.ModerationGate.OnMessageCreate` | index.js:30-60 | one run of the handler updates the map and the set in place exactly as `Handle` says, and returns its outcome; it keeps the invariant |
| `Gate.ModerationGate.RecordStrike` | index.js:51-59 | a flagged message: the author's count becomes the old count plus one (0 when absent); the author is blocked when it reaches 3, otherwise warned |
| `Gate.IgnoresBotsAndUnmentioned` | index.js:32-33 | a message from a bot, or one that does not mention the bot, is ignored and changes neither collection, whatever its verdict |
| `Gate.BlockedShortCircuits` | index.js:36-38 | a blocked user gets the blocked answer whatever the content and verdict, and neither collection changes |
| `Gate.EmptyTextIgnored` | index.js:36-43 | a message from an unblocked user that is empty after mention removal and trimming is ignored, changes nothing, and its verdict does not matter |
| `Gate.UnflaggedChangesNothing` | index.js:30-62 | an unflagged verdict leaves the state unchanged; the answer is Ignored, AlreadyBlocked or Allowed with the cleaned text; a message to the bot from an unblocked non-bot author with non-empty cleaned text is Allowed with that text, and only such a message is Allowed |
| `Gate.UnflaggedIdempotent` | index.js:51-60 | handling the same unflagged message twice gives the same state and answer as handling it once |
| `Gate.FlaggedAddsStrike` | index.js:51-59 | a flagged message that reaches moderation sets the author's count to old count + 1 (absent reads as 0), and no other user's count changes. At 3 or more the author is added to the blocked set and the answer is BlockedNow; below 3 the answer is Warned and the blocked set is unchanged |
| `Gate.HandlePreservesValid` | index.js:22-24 | the handler keeps the invariant: counts are 1 to 3, and a user is blocked exactly when their count is 3 (so every blocked user has at least 3 strikes) |
| `Gate.HandleMonotone` | index.js:52-56 | counts never decrease, the blocked set never loses a member, and no user but the author changes count or membership |
| `Gate.BlockedNowExactlyAtThreshold` | index.js:51-57 | under the invariant the answer is BlockedNow exactly when a flagged, non-empty message to the bot comes from an unblocked user with 2 strikes, and that user was not blocked before and is blocked after |
| `GateRuns.Run` | index.js:30-60 | the handler applied to a sequence of messages gives one answer per message |
| `GateRuns.RunAt` | index.js:30-60 | the answer to message i is the handler's answer in the state left by the messages before it |
| `GateRuns.RunCons` | index.js:30-60 | running a message and then more messages is one step followed by the rest from the state that step leaves |
| `GateRuns.RunPreservesValid` | index.js:22-24 | the invariant holds after any sequence of messages, so in every state reachable from the empty start |
| `GateRuns.RunMonotone` | index.js:52-56 | over any sequence of messages, no count goes down and no user is unblocked |
| `GateRuns.UnflaggedRunChangesNothing` | index.js:51-60 | any number of messages with unflagged verdicts leave the state unchanged |
| `GateRuns.StaysBlocked` | index.js:36-38 | a user blocked before some message is still blocked before every later message |
| `GateRuns.BlockedNowOnce` | index.js:36-57 | after a user is blocked, every later message of theirs to the bot gets AlreadyBlocked, so BlockedNow happens at most once per user |
| `GateRuns.StrikeWalk` | index.js:51-59 | a user with no record moves from count 1 (warned) to count 2 (warned) to count 3 (blocked now) |
| `GateRuns.ThreeStrikes` | index.js:36-59 | a new user's flagged messages get Warned, Warned, then BlockedNow with count 3, and their next message to the bot gets AlreadyBlocked |

## Left out

- Discord client setup, intents, the `ready` log line, `client.login` and `dotenv` (index.js:2, 12-19, 26-28, 94) are SDK and network plumbing.
- The moderation request (index.js:46-49) is a call to an external HTTP API. Its verdict `mod.results[0].flagged` is the `flagged` input. A missing result and the exception it would raise are not modelled.
- The date string (index.js:63-68), the placeholder reply and its edit, the chat-completion call and the empty-response fallback (index.js:71-86) are I/O and locale behaviour. The model stops at `Allowed(prompt)` with the text that would be sent.
- The reply strings (index.js:37, 57, 59) are shown as the outcomes `AlreadyBlocked`, `BlockedNow` and `Warned`. Whether a reply is sent is not modelled.
- The `try`/`catch` around the handler (index.js:87-90) only reports errors from external calls, and none of those calls is modelled.
- Messages are handled one at a time; the interleaving of handlers at the `await` on index.js:46 is not modelled. The strike read and write (index.js:52-53) have no `await` between them, so no strike is lost, but a second message from the same user can pass the blocked check (index.js:36) before the first one blocks its author. The count then reaches 4, BlockedNow is answered twice, and an unflagged message from a user who was blocked meanwhile gets Allowed. So the bound of 3 in `Gate.Valid`, `Gate.HandlePreservesValid` and `GateRuns.RunPreservesValid`, and the at-most-once of `GateRuns.BlockedNowOnce`, hold only when messages are handled one at a time.
- `msg.mentions.has(client.user)` (index.js:33) is the gateway's own mention detection, so it is the `mentionsBot` input and is not derived from the text.
- The pattern `<@!?ID>` is matched literally. Discord ids are decimal digits, so the id cannot contain regular-expression syntax. `Mention.MentionPrefix` and `Mention.RemovesEveryMention` require such an id, so that the two token forms cannot both start at one position.
- Strings are sequences of Unicode code points, while JavaScript uses UTF-16 code units. Every whitespace character and every mention character is a single code unit, so trimming and mention removal are the same in both.
- Strike counts are unbounded integers. The invariant keeps them at 3 or below, so JavaScript number precision never matters.
- `Gate.Handle` models the whole handler, so the bot, mention and empty-text checks come before moderation, as at index.js:32-43. `Gate.Valid` states "blocked implies at least 3 strikes" in a stronger form: blocked exactly when the count is 3.
