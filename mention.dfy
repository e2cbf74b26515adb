/** The text cleaning the message handler does before moderation (index.js:41-43):
    every mention of the bot, `<@ID>` or `<@!ID>`, is deleted in one left-to-right
    pass (a global regular-expression replace), and the remainder is trimmed the
    way JavaScript's String.prototype.trim does. */
module Mention {

  /** The code points ECMAScript counts as WhiteSpace or LineTerminator, which
      is exactly what `trim` strips from both ends. */
  predicate IsWhitespace(c: char)
  {
    var n := c as int;
    n == 0x09 || n == 0x0A || n == 0x0B || n == 0x0C || n == 0x0D || n == 0x20
    || n == 0xA0 || n == 0x1680 || (0x2000 <= n <= 0x200A) || n == 0x2028
    || n == 0x2029 || n == 0x202F || n == 0x205F || n == 0x3000 || n == 0xFEFF
  }

  predicate AllWhitespace(s: string)
  {
    forall i :: 0 <= i < |s| ==> IsWhitespace(s[i])
  }

  /** Neither end of `s` is whitespace. */
  predicate NoOuterWhitespace(s: string)
  {
    s == [] || (!IsWhitespace(s[0]) && !IsWhitespace(s[|s| - 1]))
  }

  /** Drops the leading whitespace (see TrimStartSpec). */
  function TrimStart(s: string): string
  {
    if |s| > 0 && IsWhitespace(s[0]) then TrimStart(s[1..]) else s
  }

  /** Drops the trailing whitespace (see TrimEndSpec). */
  function TrimEnd(s: string): string
  {
    if |s| > 0 && IsWhitespace(s[|s| - 1]) then TrimEnd(s[..|s| - 1]) else s
  }

  /** `String.prototype.trim` (see TrimSpec). */
  function Trim(s: string): string
  {
    TrimEnd(TrimStart(s))
  }

  /** TrimStart gives the suffix of `s` that starts at its first
      non-whitespace character. */
  lemma {:induction false} TrimStartSpec(s: string)
    ensures var r := TrimStart(s);
      && |r| <= |s| && r == s[|s| - |r|..]
      && AllWhitespace(s[..|s| - |r|])
      && (r == [] || !IsWhitespace(r[0]))
  {
    if |s| > 0 && IsWhitespace(s[0]) {
      TrimStartSpec(s[1..]);
      var r := TrimStart(s[1..]);
      assert s[..|s| - |r|] == [s[0]] + s[1..][..|s| - 1 - |r|];
    }
  }

  /** TrimEnd gives the prefix of `s` that ends at its last non-whitespace
      character. */
  lemma {:induction false} TrimEndSpec(s: string)
    ensures var r := TrimEnd(s);
      && |r| <= |s| && r == s[..|r|]
      && AllWhitespace(s[|r|..])
      && (r == [] || !IsWhitespace(r[|r| - 1]))
  {
    if |s| > 0 && IsWhitespace(s[|s| - 1]) {
      TrimEndSpec(s[..|s| - 1]);
      var r := TrimEnd(s[..|s| - 1]);
      assert s[|r|..] == s[..|s| - 1][|r|..] + [s[|s| - 1]];
    }
  }

  /** `trim` gives the slice of `s` left once the whitespace run at each end
      is cut off: neither of its ends is whitespace, and it is empty exactly
      when `s` is all whitespace. */
  lemma TrimSpec(s: string)
    ensures var r := Trim(s);
      && NoOuterWhitespace(r)
      && (exists i :: 0 <= i <= |s| - |r| && r == s[i..i + |r|]
                      && AllWhitespace(s[..i]) && AllWhitespace(s[i + |r|..]))
      && (r == [] <==> AllWhitespace(s))
  {
    var t := TrimStart(s);
    var r := TrimEnd(t);
    TrimStartSpec(s);
    TrimEndSpec(t);
    var i := |s| - |t|;
    assert r == s[i..i + |r|];
    assert s[i + |r|..] == t[|r|..];
    assert AllWhitespace(s[..i]) && AllWhitespace(s[i + |r|..]);
    if r == [] {
      assert t == [];
      forall k | 0 <= k < |s|
        ensures IsWhitespace(s[k])
      {
        assert s[k] == s[..i][k];
      }
    } else {
      assert r[0] == t[0] == s[i];
    }
  }

  /** Trimming twice is trimming once. */
  lemma TrimIdempotent(s: string)
    ensures Trim(Trim(s)) == Trim(s)
  {
    var r := Trim(s);
    TrimSpec(s);
    assert TrimStart(r) == r;
    assert TrimEnd(r) == r;
  }

  /** The two forms of a mention of the user `id`: `<@ID>`, and `<@!ID>`
      (the nickname form). */
  function MentionToken(id: string, nickname: bool): string
  {
    if nickname then "<@!" + id + ">" else "<@" + id + ">"
  }

  predicate StartsWith(s: string, p: string)
  {
    |p| <= |s| && s[..|p|] == p
  }

  /** A mention of `id` begins at position `i` of `s`. */
  predicate MentionAt(s: string, i: nat, id: string)
    requires i <= |s|
  {
    StartsWith(s[i..], MentionToken(id, true)) || StartsWith(s[i..], MentionToken(id, false))
  }

  predicate HasMention(s: string, id: string)
  {
    exists i :: 0 <= i < |s| && MentionAt(s, i, id)
  }

  /** A Discord user id: a non-empty run of decimal digits. */
  predicate IsSnowflake(id: string)
  {
    |id| > 0 && forall k :: 0 <= k < |id| ==> '0' <= id[k] <= '9'
  }

  /** `content.replace(/<@!?ID>/g, "")`: the scan tries a match at each
      position from the left; a match is deleted and the scan resumes right
      after it, otherwise one character is kept. The optional `!` is greedy,
      so the nickname form is tried first. Text that a deletion brings
      together is never looked at again. */
  function RemoveMentions(s: string, id: string): string
    decreases |s|
  {
    if s == [] then []
    else if StartsWith(s, MentionToken(id, true)) then
      RemoveMentions(s[|MentionToken(id, true)|..], id)
    else if StartsWith(s, MentionToken(id, false)) then
      RemoveMentions(s[|MentionToken(id, false)|..], id)
    else
      [s[0]] + RemoveMentions(s[1..], id)
  }

  /** The text the handler goes on with: mentions of the bot `botId` removed,
      then trimmed. */
  function CleanMention(content: string, botId: string): string
  {
    Trim(RemoveMentions(content, botId))
  }

  /** The deletion pass only ever removes text. */
  lemma {:induction false} RemoveMentionsShrinks(s: string, id: string)
    ensures |RemoveMentions(s, id)| <= |s|
    decreases |s|
  {
    if s == [] {
    } else if StartsWith(s, MentionToken(id, true)) {
      RemoveMentionsShrinks(s[|MentionToken(id, true)|..], id);
    } else if StartsWith(s, MentionToken(id, false)) {
      RemoveMentionsShrinks(s[|MentionToken(id, false)|..], id);
    } else {
      RemoveMentionsShrinks(s[1..], id);
    }
  }

  /** The cleaned text is no longer than the message and has no whitespace at
      either end; it is empty exactly when the message minus its mentions is
      all whitespace. */
  lemma CleanMentionSpec(content: string, botId: string)
    ensures var r := CleanMention(content, botId);
      && NoOuterWhitespace(r) && |r| <= |content|
      && (r == [] <==> AllWhitespace(RemoveMentions(content, botId)))
  {
    RemoveMentionsShrinks(content, botId);
    TrimSpec(RemoveMentions(content, botId));
  }

  /** The deletion pass changes nothing exactly when there is nothing to delete. */
  lemma {:induction false} RemoveMentionsIdentity(s: string, id: string)
    ensures RemoveMentions(s, id) == s <==> !HasMention(s, id)
  {
    if s == [] {
    } else if MentionAt(s, 0, id) {
      assert s[0..] == s;
      var n := if StartsWith(s, MentionToken(id, true)) then |MentionToken(id, true)| else |MentionToken(id, false)|;
      RemoveMentionsShrinks(s[n..], id);
    } else {
      assert s[0..] == s;
      RemoveMentionsIdentity(s[1..], id);
      if HasMention(s, id) {
        var i :| 0 <= i < |s| && MentionAt(s, i, id);
        assert i > 0;
        assert s[1..][i - 1..] == s[i..];
        assert MentionAt(s[1..], i - 1, id);
      } else {
        forall j | 0 <= j < |s| - 1
          ensures !MentionAt(s[1..], j, id)
        {
          assert s[1..][j..] == s[j + 1..];
          assert !MentionAt(s, j + 1, id);
        }
      }
    }
  }

  /** Text with no mention of the bot is only trimmed. */
  lemma NoMentionOnlyTrims(content: string, botId: string)
    requires !HasMention(content, botId)
    ensures CleanMention(content, botId) == Trim(content)
    ensures CleanMention(content, botId) == [] <==> AllWhitespace(content)
  {
    RemoveMentionsIdentity(content, botId);
    TrimSpec(content);
  }

  /** Only text starting with `<` can start a mention, so the scan keeps any
      other first character. */
  lemma KeepsFirst(x: string, id: string)
    requires x != [] && x[0] != '<'
    ensures RemoveMentions(x, id) == [x[0]] + RemoveMentions(x[1..], id)
  {
    assert MentionToken(id, true)[0] == '<' && MentionToken(id, false)[0] == '<';
  }

  /** Text without a `<` passes the deletion untouched, wherever it stands:
      the simple case of `KeptPrefix`, since no mention starts inside such
      text. */
  lemma {:induction false} PlainPrefix(u: string, s: string, id: string)
    requires '<' !in u
    ensures RemoveMentions(u + s, id) == u + RemoveMentions(s, id)
  {
    if u != [] {
      var x := u + s;
      assert x[0] == u[0] && x[1..] == u[1..] + s;
      KeepsFirst(x, id);
      PlainPrefix(u[1..], s, id);
      ConsRest(u, RemoveMentions(s, id));
    } else {
      assert u + s == s;
    }
  }

  /** No mention of `id` starts inside `u` when `u` is read on into `s`. */
  predicate NoMentionStartsIn(u: string, s: string, id: string)
  {
    forall i :: 0 <= i < |u| ==> !MentionAt(u + s, i, id)
  }

  /** A first character at which no mention starts is kept. */
  lemma KeepsUnmatched(x: string, id: string)
    requires x != [] && !MentionAt(x, 0, id)
    ensures RemoveMentions(x, id) == [x[0]] + RemoveMentions(x[1..], id)
  {
    assert x[0..] == x;
  }

  /** One step of `KeptPrefix`: the first character of `u` is kept, and
      `NoMentionStartsIn` carries over to the rest of `u`. */
  lemma KeptStep(u: string, s: string, id: string)
    requires u != [] && NoMentionStartsIn(u, s, id)
    ensures RemoveMentions(u + s, id) == [u[0]] + RemoveMentions(u[1..] + s, id)
    ensures NoMentionStartsIn(u[1..], s, id)
  {
    var x := u + s;
    assert x[0] == u[0] && x[1..] == u[1..] + s;
    assert !MentionAt(x, 0, id);
    KeepsUnmatched(x, id);
    forall i | 0 <= i < |u[1..]|
      ensures !MentionAt(u[1..] + s, i, id)
    {
      assert (u[1..] + s)[i..] == x[i + 1..];
      assert !MentionAt(x, i + 1, id);
    }
  }

  /** Putting the first character back in front of the rest. */
  lemma ConsRest(u: string, r: string)
    requires u != []
    ensures [u[0]] + (u[1..] + r) == u + r
  {
    assert [u[0]] + u[1..] == u;
  }

  /** Text in which no mention starts passes the deletion untouched,
      wherever it stands. */
  lemma {:induction false} KeptPrefix(u: string, s: string, id: string)
    requires NoMentionStartsIn(u, s, id)
    ensures RemoveMentions(u + s, id) == u + RemoveMentions(s, id)
    decreases |u|
  {
    if u == [] {
      assert u + s == s;
    } else {
      KeptStep(u, s, id);
      KeptPrefix(u[1..], s, id);
      ConsRest(u, RemoveMentions(s, id));
    }
  }

  /** A mention at the front is deleted and the scan goes on after it. */
  lemma MentionPrefix(s: string, id: string, nickname: bool)
    requires IsSnowflake(id)
    ensures RemoveMentions(MentionToken(id, nickname) + s, id) == RemoveMentions(s, id)
  {
    var t := MentionToken(id, nickname);
    assert (t + s)[..|t|] == t;
    assert (t + s)[|t|..] == s;
    if !nickname {
      assert (t + s)[2] == id[0];
      assert MentionToken(id, true)[2] == '!';
    }
  }

  /** A piece of message text followed by one mention. */
  datatype Segment = Segment(text: string, nickname: bool)

  /** The message `text0 <mention> text1 <mention> ...` built from `segs`. */
  function Compose(segs: seq<Segment>, id: string): string
  {
    if segs == [] then [] else segs[0].text + MentionToken(id, segs[0].nickname) + Compose(segs[1..], id)
  }

  /** The same message with its mentions left out. */
  function Texts(segs: seq<Segment>): string
  {
    if segs == [] then [] else segs[0].text + Texts(segs[1..])
  }

  /** No bot mention starts inside any text piece of `segs`. */
  predicate CleanPieces(segs: seq<Segment>, tail: string, id: string)
  {
    forall k :: 0 <= k < |segs| ==>
      NoMentionStartsIn(segs[k].text, MentionToken(id, segs[k].nickname) + Compose(segs[k + 1..], id) + tail, id)
  }

  /** `CleanPieces` carries over to the pieces after the first. */
  lemma PiecesRest(segs: seq<Segment>, tail: string, id: string)
    requires segs != [] && CleanPieces(segs, tail, id)
    ensures CleanPieces(segs[1..], tail, id)
  {
    forall k | 0 <= k < |segs[1..]|
      ensures NoMentionStartsIn(segs[1..][k].text, MentionToken(id, segs[1..][k].nickname) + Compose(segs[1..][k + 1..], id) + tail, id)
    {
      assert segs[1..][k] == segs[k + 1] && segs[1..][k + 1..] == segs[k + 2..];
    }
  }

  /** The first text piece is kept and the first mention deleted. */
  lemma FirstPiece(segs: seq<Segment>, tail: string, id: string)
    requires IsSnowflake(id) && segs != [] && CleanPieces(segs, tail, id)
    ensures RemoveMentions(Compose(segs, id) + tail, id)
         == segs[0].text + RemoveMentions(Compose(segs[1..], id) + tail, id)
  {
    var t := MentionToken(id, segs[0].nickname);
    var rest := Compose(segs[1..], id) + tail;
    assert Compose(segs, id) + tail == segs[0].text + (t + rest);
    assert segs[0 + 1..] == segs[1..] && t + Compose(segs[1..], id) + tail == t + rest;
    assert NoMentionStartsIn(segs[0].text, t + rest, id);
    KeptPrefix(segs[0].text, t + rest, id);
    MentionPrefix(rest, id, segs[0].nickname);
  }

  /** Every mention of the bot in a message built from text pieces and
      mentions is deleted, and all the other text is kept in order, as long
      as no mention of the bot starts inside a text piece (it may contain
      other `<`, such as another user's mention or a custom emoji). */
  lemma {:induction false} RemovesEveryMention(segs: seq<Segment>, tail: string, id: string)
    requires IsSnowflake(id)
    requires CleanPieces(segs, tail, id)
    requires !HasMention(tail, id)
    ensures RemoveMentions(Compose(segs, id) + tail, id) == Texts(segs) + tail
  {
    if segs == [] {
      RemoveMentionsIdentity(tail, id);
      assert Compose(segs, id) + tail == tail && Texts(segs) + tail == tail;
    } else {
      FirstPiece(segs, tail, id);
      PiecesRest(segs, tail, id);
      RemovesEveryMention(segs[1..], tail, id);
      assert Texts(segs) + tail == segs[0].text + (Texts(segs[1..]) + tail);
    }
  }

  /** A mention that only appears once an inner one is deleted survives:
      `<@<@1>1>` becomes `<@1>`. */
  lemma NoRescan()
    ensures RemoveMentions("<@<@1>1>", "1") == "<@1>"
    ensures HasMention("<@<@1>1>", "1") && HasMention("<@1>", "1")
  {
    var s := "<@<@1>1>";
    assert s[0..] == s && s[2] == '<';
    assert MentionToken("1", true)[2] == '!' && MentionToken("1", false)[2] == '1';
    assert s[1..] == "@<@1>1>" && "@<@1>1>"[1..] == "<@1>1>";
    assert MentionToken("1", false) + "1>" == "<@1>1>";
    assert "1>" + [] == "1>" && RemoveMentions([], "1") == [];
    calc {
      RemoveMentions(s, "1");
      { KeepsUnmatched(s, "1"); }
      "<" + RemoveMentions("@<@1>1>", "1");
      { KeepsFirst("@<@1>1>", "1"); }
      "<" + ("@" + RemoveMentions("<@1>1>", "1"));
      { MentionPrefix("1>", "1", false); }
      "<" + ("@" + RemoveMentions("1>", "1"));
      { PlainPrefix("1>", [], "1"); }
      "<@1>";
    }
    assert MentionAt(s, 2, "1") by { assert s[2..] == "<@1>1>"; }
    assert MentionAt("<@1>", 0, "1") by { assert "<@1>"[0..] == "<@1>"; }
  }

}
