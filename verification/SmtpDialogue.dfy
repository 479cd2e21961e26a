/**
 What `send` of `packages/smtp/src/client.ts` says to the server and hears from it: the commands on
 the wire one by one, the replies each needs, and where it stops (section 3.3 of RFC 5321).
 */
module SmtpDialogue {
  import opened Bytes
  import opened SmtpData
  import opened SmtpClient

  // ----- the dialogue

  /** MAIL FROM names the sender, with the size and the body type if the server knows them. */
  predicate IsMailLine(c: Capabilities, e: Envelope, line: text) {
    var start := Ascii("MAIL FROM:<") + e.from + Ascii(">");
    var size := Ascii(" SIZE=") + Decimal(|e.data|);
    if Ascii("SIZE") in c.keywords then
      line == start + size + (if Ascii("8BITMIME") in c.keywords then Ascii(" BODY=8BITMIME") else [])
    else
      line == start + (if Ascii("8BITMIME") in c.keywords then Ascii(" BODY=8BITMIME") else [])
  }

  /** Line `j` of the dialogue: MAIL FROM, a RCPT TO for each recipient in order, DATA. */
  function LineAt(c: Client, e: Envelope, j: nat): text {
    if j == 0 then MailLine(c.capabilities, e)
    else if j <= |e.to| then Ascii("RCPT TO:<") + e.to[j - 1] + Ascii(">")
    else Ascii("DATA")
  }

  /** The replies that let it go on. */
  predicate GoesOn(e: Envelope, j: nat, code: nat) {
    if j == 0 then code == 250
    else if j <= |e.to| then 250 <= code <= 252
    else code == 354
  }

  /** The octets of the first `j` lines. */
  function Spoken(c: Client, e: Envelope, j: nat): bytes {
    if j == 0 then [] else Spoken(c, e, j - 1) + LineBytes(LineAt(c, e, j - 1))
  }

  /** Write `j` is taken: the list says so, or says nothing. */
  predicate IsTaken(c: Client, j: nat) {
    j < |c.writes| ==> c.writes[j].Taken?
  }

  predicate Passes(c: Client, e: Envelope, j: nat) {
    IsTaken(c, j) && j < |c.replies| && c.replies[j].Replied? && GoesOn(e, j, c.replies[j].code)
  }

  /** Nothing is wrong with the call before anything is written. */
  predicate MaySend(c: Client, e: Envelope) {
    && IsCommandSafe(e.from) && e.to != [] && (forall k | 0 <= k < |e.to| :: IsCommandSafe(e.to[k]))
    && (c.capabilities.maxMessageBytes.Some? ==> |e.data| <= c.capabilities.maxMessageBytes.value)
  }

  /** The message went out whole and the server said 2xx. */
  predicate IsConfirmed(c: Client, j: nat) {
    && IsTaken(c, j) && IsTaken(c, j + 1)
    && j < |c.replies| && c.replies[j].Replied? && 200 <= c.replies[j].code < 300
  }

  // ----- exchange by exchange

  /** The client behind `j` exchanges that passed. */
  function Behind(c: Client, e: Envelope, j: nat): Client {
    c.(wire := c.wire + Spoken(c, e, j), writes := Past(c.writes, j), replies := Past(c.replies, j))
  }

  function Past<T>(s: seq<T>, j: nat): seq<T> {
    if j <= |s| then s[j..] else []
  }

  lemma PastRest<T>(s: seq<T>, j: nat)
    ensures Rest(Past(s, j)) == Past(s, j + 1)
    ensures j < |s| ==> Past(s, j) != [] && Past(s, j)[0] == s[j]
    ensures j >= |s| ==> Past(s, j) == []
  {
  }

  function CodesAt(e: Envelope, j: nat): seq<nat> {
    if j == 0 then [250] else if j <= |e.to| then [250, 251, 252] else [354]
  }

  /** Why an exchange that does not pass stops the call. */
  predicate IsStop(c: Client, j: nat, reason: Failure) {
    if !IsTaken(c, j) || j >= |c.replies| then reason == Protocol
    else
      match c.replies[j]
      case Replied(code, _) => reason == Refused(code)
      case Unreadable(isClosed) => reason == if isClosed then Closed else Protocol
      case Silence => reason == Protocol
  }

  /** What the line that stops it left on the wire. */
  predicate IsSpokenTo(c: Client, e: Envelope, j: nat, wire: bytes) {
    var line := LineBytes(LineAt(c, e, j));
    var before := c.wire + Spoken(c, e, j);
    if IsTaken(c, j) then wire == before + line else before <= wire <= before + line
  }

  lemma Exchange(c: Client, e: Envelope, j: nat)
    requires !c.isAbandoned
    ensures var (c', answer) := Expect(Behind(c, e, j), LineAt(c, e, j), CodesAt(e, j));
            if Passes(c, e, j) then c' == Behind(c, e, j + 1) && answer.Accepted?
            else answer.Failed? && IsStop(c, j, answer.reason) && IsSpokenTo(c, e, j, c'.wire)
  {
    hide LineBytes, LineAt;
    PastRest(c.writes, j);
    PastRest(c.replies, j);
    ConcatAssoc(c.wire, Spoken(c, e, j), LineBytes(LineAt(c, e, j)));
  }

  /** The recipients from number `k` on, up to the first that does not pass. */
  lemma {:induction false} RecipientsAre(c: Client, e: Envelope, k: nat)
    requires !c.isAbandoned && k <= |e.to|
    ensures var (c', answer) := Recipients(Behind(c, e, k + 1), e.to[k..]);
            if forall j | k < j <= |e.to| :: Passes(c, e, j) then
              c' == Behind(c, e, |e.to| + 1) && answer.Accepted?
            else
              exists j | k < j <= |e.to| ::
                FirstStop(c, e, k + 1, j) && answer.Failed? && IsStop(c, j, answer.reason) && IsSpokenTo(c, e, j, c'.wire)
    decreases |e.to| - k
  {
    hide Expect, Behind, Passes, IsStop, IsSpokenTo;
    if k < |e.to| {
      assert e.to[k..][0] == e.to[k] && e.to[k..][1..] == e.to[k + 1..];
      assert RecipientLine(e.to[k]) == LineAt(c, e, k + 1);
      Exchange(c, e, k + 1);
      if Passes(c, e, k + 1) {
        RecipientsAre(c, e, k + 1);
        StopLater(c, e, k + 1);
      } else {
        assert FirstStop(c, e, k + 1, k + 1);
      }
    }
  }

  /** Exchange `j` is the first from `from` on that does not pass. */
  predicate FirstStop(c: Client, e: Envelope, from: nat, j: nat) {
    from <= j && !Passes(c, e, j) && forall i | from <= i < j :: Passes(c, e, i)
  }

  lemma StopLater(c: Client, e: Envelope, from: nat)
    requires Passes(c, e, from)
    ensures forall j :: FirstStop(c, e, from + 1, j) ==> FirstStop(c, e, from, j)
  {
    hide Passes;
  }

  lemma BehindNothing(c: Client, e: Envelope)
    ensures Behind(c, e, 0) == c
  {
    assert c.wire + [] == c.wire;
  }

  /** The message itself, behind the dialogue. */
  lemma BodyIs(c: Client, e: Envelope, j: nat)
    requires !c.isAbandoned
    ensures var b := Behind(c, e, j);
            var sent := SendBody(b, e.data);
            && (sent.answer.Accepted? <==> IsConfirmed(c, j))
            && (sent.answer.Accepted? ==>
                  && sent.client == b.(wire := b.wire + (Body(e.data) + TERMINATOR), writes := Past(c.writes, j + 2), replies := Past(c.replies, j + 1))
                  && sent.answer == Accepted(c.replies[j].code, c.replies[j].lines))
  {
    hide Body, Spoken;
    PastRest(c.writes, j);
    PastRest(c.writes, j + 1);
    PastRest(c.replies, j);
    ConcatAssoc(Behind(c, e, j).wire, Body(e.data), TERMINATOR);
  }

  lemma MailLineIs(c: Client, e: Envelope)
    ensures IsMailLine(c.capabilities, e, LineAt(c, e, 0))
  {
    hide Decimal;
    var start := Ascii("MAIL FROM:<") + e.from + Ascii(">");
    assert start + [] == start;
  }

  /** A call that is not even begun writes nothing. */
  lemma NotBegun(c: Client, e: Envelope)
    requires !MaySend(c, e) || c.isAbandoned
    ensures Send(c, e).answer.Failed? && Send(c, e).client == c
  {
    hide MailLine, SendBody, Recipients;
  }

  /**
   `send` succeeds if and only if the call is in order, every write is taken, and the server answers
   250 to the sender, 250, 251 or 252 to each recipient, 354 to DATA and 2xx to the end of the message;
   the wire then has grown by just that dialogue and the message, and the answer is the last reply.
   */
  lemma SendExactly(c: Client, e: Envelope)
    ensures var sent, n := Send(c, e), |e.to|;
            && (sent.answer.Accepted?
                <==> MaySend(c, e) && !c.isAbandoned && (forall j | 0 <= j < n + 2 :: Passes(c, e, j)) && IsConfirmed(c, n + 2))
            && (sent.answer.Accepted? ==>
                  && sent.client.wire == c.wire + Spoken(c, e, n + 2) + (Body(e.data) + TERMINATOR)
                  && IsMailLine(c.capabilities, e, LineAt(c, e, 0))
                  && sent.client.replies == Past(c.replies, n + 3)
                  && sent.answer == Accepted(c.replies[n + 2].code, c.replies[n + 2].lines))
  {
    hide Expect, Recipients, SendBody, Passes, IsConfirmed, MailLine, IsMailLine, Spoken, Body, IsCommandSafe;
    MailLineIs(c, e);
    if MaySend(c, e) && !c.isAbandoned {
      var n := |e.to|;
      BehindNothing(c, e);
      Exchange(c, e, 0);
      if Passes(c, e, 0) {
        RecipientsAre(c, e, 0);
        assert e.to[0..] == e.to;
        if forall j | 0 < j <= n :: Passes(c, e, j) {
          Exchange(c, e, n + 1);
          BodyIs(c, e, n + 2);
        }
      }
    } else {
      NotBegun(c, e);
    }
  }

  /** The first exchange that does not pass ends the call: with the code that refused it, and nothing of what comes later on the wire. */
  lemma SendStops(c: Client, e: Envelope, j: nat)
    requires MaySend(c, e) && !c.isAbandoned && j < |e.to| + 2 && FirstStop(c, e, 0, j)
    ensures var sent := Send(c, e);
            sent.answer.Failed? && IsStop(c, j, sent.answer.reason) && IsSpokenTo(c, e, j, sent.client.wire)
  {
    hide Expect, Recipients, SendBody, Passes, MailLine, Spoken, IsCommandSafe, IsStop, IsSpokenTo;
    var n := |e.to|;
    BehindNothing(c, e);
    Exchange(c, e, 0);
    if Passes(c, e, 0) {
      RecipientsAre(c, e, 0);
      assert e.to[0..] == e.to;
      if forall i | 0 < i <= n :: Passes(c, e, i) {
        Exchange(c, e, n + 1);
      } else {
        var i :| 0 < i <= n && FirstStop(c, e, 1, i) && IsStop(c, i, Recipients(Behind(c, e, 1), e.to).1.reason)
                 && IsSpokenTo(c, e, i, Recipients(Behind(c, e, 1), e.to).0.wire);
        SameStop(c, e, i, j);
      }
    }
  }

  lemma SameStop(c: Client, e: Envelope, i: nat, j: nat)
    requires FirstStop(c, e, 1, i) && FirstStop(c, e, 0, j) && Passes(c, e, 0)
    ensures i == j
  {
    hide Passes;
  }
}
