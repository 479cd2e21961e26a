/**
 The SMTP client of `packages/smtp/src/client.ts`: commands and replies, `send`, and the flag that
 ends all writing. What the transport does with each write and what comes of each wait for a reply
 are lists given beforehand, so a lemma about every list is one about every server and network.
 */
module SmtpClient {
  import opened Bytes
  import opened SmtpData
  import Utf8

  /** A write is taken, or rejects after the transport passed on some of it. */
  datatype WriteEvent = Taken | Broke(kept: nat)

  /** A reply, an unreadable one or a closed connection, or none within the time allowed. */
  datatype ReplyEvent = Replied(code: nat, lines: seq<text>) | Unreadable(isClosed: bool) | Silence

  datatype Failure = Refused(code: nat) | Closed | Protocol | TooLarge(limit: nat) | Unconfirmed

  datatype Answer = Accepted(code: nat, lines: seq<text>) | Failed(reason: Failure)

  datatype Capabilities = Capabilities(keywords: seq<text>, maxMessageBytes: Option<nat>)

  datatype Client = Client(
    isAbandoned: bool, capabilities: Capabilities,
    wire: bytes, writes: seq<WriteEvent>, replies: seq<ReplyEvent>)

  /** The client after a write, and whether the write was taken. */
  function Write(c: Client, data: bytes): (Client, bool) {
    match if c.writes == [] then Taken else c.writes[0] {
      case Taken => (c.(wire := c.wire + data, writes := Rest(c.writes)), true)
      case Broke(kept) =>
        var out := if kept <= |data| then data[..kept] else data;
        (c.(wire := c.wire + out, writes := Rest(c.writes)), false)
    }
  }

  function Rest<T>(s: seq<T>): seq<T> {
    if s == [] then [] else s[1..]
  }

  /** `readReplyWithin`: silence abandons the connection. */
  function ReadReply(c: Client): (Client, Answer) {
    var c' := c.(replies := Rest(c.replies));
    match if c.replies == [] then Silence else c.replies[0] {
      case Replied(code, lines) => (c', Accepted(code, lines))
      case Unreadable(isClosed) => (c', Failed(if isClosed then Closed else Protocol))
      case Silence => (c'.(isAbandoned := true), Failed(Protocol))
    }
  }

  function LineBytes(line: text): bytes {
    Utf8.Encode(line) + [CR, LF]
  }

  function Command(c: Client, line: text): (Client, Answer) {
    if c.isAbandoned then (c, Failed(Protocol))
    else
      var (c', taken) := Write(c, LineBytes(line));
      if taken then ReadReply(c') else (c', Failed(Protocol))
  }

  /** A reply with another code is a refusal. */
  function Expect(c: Client, line: text, codes: seq<nat>): (Client, Answer) {
    var (c', answer) := Command(c, line);
    if answer.Accepted? && answer.code !in codes then (c', Failed(Refused(answer.code))) else (c', answer)
  }

  // ----- send

  datatype Envelope = Envelope(from: text, to: seq<text>, data: bytes)

  predicate IsCommandSafe(address: text) {
    address != [] && forall i | 0 <= i < |address| :: !IsWhiteSpace(address[i]) && address[i] !in {0x3c, 0x3e}
  }

  function MailLine(c: Capabilities, e: Envelope): text {
    Ascii("MAIL FROM:<") + e.from + Ascii(">")
    + (if Ascii("SIZE") in c.keywords then Ascii(" SIZE=") + Decimal(|e.data|) else [])
    + (if Ascii("8BITMIME") in c.keywords then Ascii(" BODY=8BITMIME") else [])
  }

  function RecipientLine(to: text): text {
    Ascii("RCPT TO:<") + to + Ascii(">")
  }

  function Recipients(c: Client, to: seq<text>): (Client, Answer)
    decreases |to|
  {
    if to == [] then (c, Accepted(250, []))
    else
      var (c', answer) := Expect(c, RecipientLine(to[0]), [250, 251, 252]);
      if answer.Failed? then (c', answer) else Recipients(c', to[1..])
  }

  /** How `send` ended; `dataAt` is where on the wire the message began, `ended` whether its terminator was written at all. */
  datatype Sent = Sent(client: Client, answer: Answer, dataAt: nat, ended: bool)

  function Unsent(c: Client, reason: Failure): Sent {
    Sent(c, Failed(reason), |c.wire|, false)
  }

  /** The terminator and its answer. */
  function EndMessage(c: Client, dataAt: nat): Sent {
    var (c', taken) := Write(c, TERMINATOR);
    if !taken then Sent(c'.(isAbandoned := true), Failed(Unconfirmed), dataAt, true)
    else
      match ReadReply(c')
      case (c'', Failed(_)) => Sent(c''.(isAbandoned := true), Failed(Unconfirmed), dataAt, true)
      case (c'', Accepted(code, lines)) =>
        if 200 <= code < 300 then Sent(c'', Accepted(code, lines), dataAt, true)
        else if 400 <= code < 600 then Sent(c'', Failed(Refused(code)), dataAt, true)
        else Sent(c''.(isAbandoned := true), Failed(Unconfirmed), dataAt, true)
  }

  function SendBody(c: Client, data: bytes): Sent {
    var (c', taken) := Write(c, Body(data));
    if taken then EndMessage(c', |c.wire|)
    else Sent(c'.(isAbandoned := true), Failed(Protocol), |c.wire|, false)
  }

  function Send(c: Client, e: Envelope): Sent {
    if !IsCommandSafe(e.from) || exists k | 0 <= k < |e.to| :: !IsCommandSafe(e.to[k]) then Unsent(c, Protocol)
    else if e.to == [] then Unsent(c, Protocol)
    else if c.capabilities.maxMessageBytes.Some? && |e.data| > c.capabilities.maxMessageBytes.value then
      Unsent(c, TooLarge(c.capabilities.maxMessageBytes.value))
    else
      var (c1, mail) := Expect(c, MailLine(c.capabilities, e), [250]);
      if mail.Failed? then Unsent(c1, mail.reason)
      else
        var (c2, rcpt) := Recipients(c1, e.to);
        if rcpt.Failed? then Unsent(c2, rcpt.reason)
        else
          var (c3, data) := Expect(c2, Ascii("DATA"), [354]);
          if data.Failed? then Unsent(c3, data.reason) else SendBody(c3, e.data)
  }

  // ----- the client in its own form

  class Smtp {
    var isAbandoned: bool
    var capabilities: Capabilities
    /** The transport: what it passed on, and what it will do. */
    var wire: bytes
    var writes: seq<WriteEvent>
    var replies: seq<ReplyEvent>

    ghost function State(): Client
      reads this
    {
      Client(isAbandoned, capabilities, wire, writes, replies)
    }

    constructor (writes: seq<WriteEvent>, replies: seq<ReplyEvent>)
      ensures State() == Client(false, Capabilities([], None), [], writes, replies)
    {
      isAbandoned, capabilities, wire := false, Capabilities([], None), [];
      this.writes, this.replies := writes, replies;
    }

    method TransportWrite(data: bytes) returns (taken: bool)
      modifies this`wire, this`writes
      ensures (State(), taken) == Write(old(State()), data)
    {
      var event := if writes == [] then Taken else writes[0];
      writes := Rest(writes);
      match event
      case Taken =>
        wire := wire + data;
        return true;
      case Broke(kept) =>
        wire := wire + if kept <= |data| then data[..kept] else data;
        return false;
    }

    method ReadReplyWithin() returns (answer: Answer)
      modifies this`isAbandoned, this`replies
      ensures (State(), answer) == ReadReply(old(State()))
    {
      var event := if replies == [] then Silence else replies[0];
      replies := Rest(replies);
      match event
      case Replied(code, lines) => return Accepted(code, lines);
      case Unreadable(isClosed) => return Failed(if isClosed then Closed else Protocol);
      case Silence =>
        isAbandoned := true;
        return Failed(Protocol);
    }

    method IssueCommand(line: text) returns (answer: Answer)
      modifies this
      ensures (State(), answer) == Command(old(State()), line)
    {
      if isAbandoned {
        return Failed(Protocol);
      }
      var taken := TransportWrite(LineBytes(line));
      if !taken {
        return Failed(Protocol);
      }
      answer := ReadReplyWithin();
    }

    method ExpectReply(line: text, codes: seq<nat>) returns (answer: Answer)
      modifies this
      ensures (State(), answer) == Expect(old(State()), line, codes)
    {
      answer := IssueCommand(line);
      if answer.Accepted? && answer.code !in codes {
        answer := Failed(Refused(answer.code));
      }
    }

    method SendRecipients(to: seq<text>) returns (answer: Answer)
      modifies this
      ensures (State(), answer) == Recipients(old(State()), to)
    {
      hide Expect, RecipientLine;
      var k := 0;
      while k < |to|
        invariant 0 <= k <= |to|
        invariant Recipients(State(), to[k..]) == Recipients(old(State()), to)
      {
        answer := ExpectReply(RecipientLine(to[k]), [250, 251, 252]);
        if answer.Failed? {
          return;
        }
        k := k + 1;
      }
      return Accepted(250, []);
    }

    method SendMessage(e: Envelope) returns (answer: Answer)
      modifies this
      ensures var sent := Send(old(State()), e); State() == sent.client && answer == sent.answer
    {
      hide Expect, Recipients, MailLine, Write, ReadReply, Body, IsCommandSafe;
      if !IsCommandSafe(e.from) {
        return Failed(Protocol);
      }
      for k := 0 to |e.to|
        invariant forall j | 0 <= j < k :: IsCommandSafe(e.to[j])
      {
        if !IsCommandSafe(e.to[k]) {
          return Failed(Protocol);
        }
      }
      if |e.to| == 0 {
        return Failed(Protocol);
      }
      if capabilities.maxMessageBytes.Some? && |e.data| > capabilities.maxMessageBytes.value {
        return Failed(TooLarge(capabilities.maxMessageBytes.value));
      }
      answer := ExpectReply(MailLine(capabilities, e), [250]);
      if answer.Failed? {
        return;
      }
      answer := SendRecipients(e.to);
      if answer.Failed? {
        return;
      }
      answer := ExpectReply(Ascii("DATA"), [354]);
      if answer.Failed? {
        return;
      }
      answer := SendData(e.data);
    }

    method SendData(data: bytes) returns (answer: Answer)
      modifies this
      ensures var sent := SendBody(old(State()), data); State() == sent.client && answer == sent.answer
    {
      hide Write, ReadReply, Body;
      var stuffed := DotStuff(data);
      var terminatorAt := |stuffed| - |TERMINATOR|;
      assert stuffed[..terminatorAt] == Body(data) && stuffed[terminatorAt..] == TERMINATOR;
      var taken := TransportWrite(stuffed[..terminatorAt]);
      if !taken {
        isAbandoned := true;
        return Failed(Protocol);
      }
      taken := TransportWrite(stuffed[terminatorAt..]);
      if !taken {
        isAbandoned := true;
        return Failed(Unconfirmed);
      }
      answer := ReadReplyWithin();
      if answer.Failed? {
        isAbandoned := true;
        return Failed(Unconfirmed);
      }
      if 200 <= answer.code < 300 {
        return;
      }
      if 400 <= answer.code < 600 {
        return Failed(Refused(answer.code));
      }
      isAbandoned := true;
      return Failed(Unconfirmed);
    }
  }

  // ----- what a failure means

  /** The wire only grows, and an abandoned client adds nothing. */
  predicate Extends(c: Client, c': Client) {
    c.wire <= c'.wire && (c.isAbandoned ==> c'.isAbandoned && c'.wire == c.wire)
  }

  lemma ExpectExtends(c: Client, line: text, codes: seq<nat>)
    ensures Extends(c, Expect(c, line, codes).0)
    ensures var (c', answer) := Expect(c, line, codes);
            if answer.Accepted? then !c'.isAbandoned else answer.reason != Unconfirmed
  {
  }

  lemma {:induction false} RecipientsExtends(c: Client, to: seq<text>)
    ensures Extends(c, Recipients(c, to).0)
    decreases |to|
  {
    hide Expect;
    if to != [] {
      ExpectExtends(c, RecipientLine(to[0]), [250, 251, 252]);
      RecipientsExtends(Expect(c, RecipientLine(to[0]), [250, 251, 252]).0, to[1..]);
    }
  }

  /** The message's octets that got out. */
  function BodyOut(sent: Sent): bytes {
    if sent.dataAt <= |sent.client.wire| then sent.client.wire[sent.dataAt..] else []
  }

  lemma WriteOut(c: Client, data: bytes)
    ensures var (c', taken) := Write(c, data);
            && c.wire <= c'.wire && c'.wire[|c.wire|..] <= data
            && (taken ==> c'.wire == c.wire + data)
            && c'.capabilities == c.capabilities && c'.isAbandoned == c.isAbandoned
  {
  }

  lemma SendBodyOut(c: Client, data: bytes)
    ensures var sent := SendBody(c, data);
            && c.wire <= sent.client.wire && sent.dataAt == |c.wire|
            && BodyOut(sent) <= Body(data) + TERMINATOR
            && (!sent.ended ==> BodyOut(sent) <= Body(data) && sent.answer.Failed? && sent.client.isAbandoned)
            && (sent.answer.Accepted? ==> sent.ended && BodyOut(sent) == Body(data) + TERMINATOR)
  {
    hide Write, Body;
    WriteOut(c, Body(data));
    var (c', taken) := Write(c, Body(data));
    if taken {
      WriteOut(c', TERMINATOR);
      var c'' := Write(c', TERMINATOR).0;
      assert c''.wire == c.wire + Body(data) + c''.wire[|c'.wire|..];
      assert (c.wire + Body(data) + c''.wire[|c'.wire|..])[|c.wire|..] == Body(data) + c''.wire[|c'.wire|..];
    }
  }

  lemma {:induction false} RecipientsFail(c: Client, to: seq<text>)
    ensures var answer := Recipients(c, to).1; answer.Failed? ==> answer.reason != Unconfirmed
    decreases |to|
  {
    if to != [] {
      RecipientsFail(Expect(c, RecipientLine(to[0]), [250, 251, 252]).0, to[1..]);
    }
  }

  /** The three exchanges before the message, and where they leave off. */
  lemma SendParts(c: Client, e: Envelope) returns (at: Client)
    ensures Extends(c, at)
    ensures var sent := Send(c, e);
            || (sent == SendBody(at, e.data) && !at.isAbandoned)
            || (sent.client == at && !sent.ended && sent.dataAt == |at.wire| && sent.answer.Failed?
                && sent.answer.reason != Unconfirmed)
  {
    hide SendBody, Extends, Expect, Recipients, MailLine, IsCommandSafe;
    at := c;
    ExtendsSelf(c);
    if Send(c, e) != Unsent(c, Protocol) && Send(c, e) != Unsent(c, TooLarge(Limit(c))) {
      var (c1, mail) := Expect(c, MailLine(c.capabilities, e), [250]);
      ExpectExtends(c, MailLine(c.capabilities, e), [250]);
      at := c1;
      if mail.Accepted? {
        var (c2, rcpt) := Recipients(c1, e.to);
        RecipientsExtends(c1, e.to);
        RecipientsFail(c1, e.to);
        ExtendsTwice(c, c1, c2);
        at := c2;
        if rcpt.Accepted? {
          at := Expect(c2, Ascii("DATA"), [354]).0;
          ExpectExtends(c2, Ascii("DATA"), [354]);
          ExtendsTwice(c, c2, at);
        }
      }
    }
  }

  function Limit(c: Client): nat {
    if c.capabilities.maxMessageBytes.Some? then c.capabilities.maxMessageBytes.value else 0
  }

  lemma ExtendsSelf(c: Client)
    ensures Extends(c, c)
  {
  }

  lemma ExtendsTwice(a: Client, b: Client, c: Client)
    requires Extends(a, b) && Extends(b, c)
    ensures Extends(a, c)
  {
  }

  /**
   What `send` answers is what the server can know. A failure that is neither `unconfirmed` nor a
   4xx or 5xx answer to the terminator leaves a strict server and a lenient one alike without an end
   of message; success means they were sent all of it.
   */
  lemma SendIsHonest(c: Client, e: Envelope, strict: bool)
    ensures var sent := Send(c, e);
            && BodyOut(sent) <= Body(e.data) + TERMINATOR
            && (!sent.ended ==> sent.answer.Failed? && sent.answer.reason != Unconfirmed
                                && Receive(strict, FIRST, BodyOut(sent)).Unfinished?)
            && (sent.ended && sent.answer.Failed? ==>
                  sent.answer.reason == Unconfirmed
                  || (sent.answer.reason.Refused? && 400 <= sent.answer.reason.code < 600))
            && (sent.answer.Accepted? ==> BodyOut(sent) == Body(e.data) + TERMINATOR && 200 <= sent.answer.code < 300)
  {
    hide Send, SendBody, Receive, Body, Extends;
    var at := SendParts(c, e);
    SendBodyOut(at, e.data);
    SendBodyAnswers(at, e.data);
    var sent := Send(c, e);
    if !sent.ended {
      NothingEndsEarly(strict, e.data, BodyOut(sent));
    }
  }

  lemma SendBodyAnswers(c: Client, data: bytes)
    ensures var sent := SendBody(c, data);
            if !sent.ended then sent.answer == Failed(Protocol)
            else if sent.answer.Accepted? then 200 <= sent.answer.code < 300
            else sent.answer.reason == Unconfirmed
                 || (sent.answer.reason.Refused? && 400 <= sent.answer.reason.code < 600)
    ensures var sent := SendBody(c, data);
            sent.answer == Failed(Unconfirmed) || !sent.ended ==> sent.client.isAbandoned
  {
    hide Write;
  }

  /** Success is delivery: for data whose lines end in CRLF, any server has it back, with a last line end if that lacked. */
  lemma SuccessDelivers(c: Client, e: Envelope, strict: bool)
    requires Send(c, e).answer.Accepted?
    requires strict ==> forall i | 0 <= i < |e.data| :: e.data[i] == LF ==> i > 0 && e.data[i - 1] == CR
    ensures Receive(strict, FIRST, BodyOut(Send(c, e))) == Ended(Completed(e.data), [])
  {
    hide Send, Receive, Body, EndsWell, IsStrayDot;
    SendIsHonest(c, e, strict);
    if strict {
      CrlfData(e.data);
    } else {
      LenientAlways(e.data);
    }
    DataArrives(strict, e.data, []);
    assert Body(e.data) + TERMINATOR + [] == Body(e.data) + TERMINATOR;
  }

  // ----- a whole session

  /** What a caller may ask: one of the exchanges `authenticate` and `quit` are made of, EHLO, the greeting, a message. */
  datatype Call =
    | Exchange(line: text, codes: seq<nat>)
    | Ehlo(name: text)
    | Greeting
    | Message(envelope: Envelope)

  /** `reading` is what the client makes of the lines of an EHLO reply. */
  function Perform(reading: seq<text> -> Capabilities, c: Client, call: Call): Client {
    match call
    case Exchange(line, codes) => Expect(c, line, codes).0
    case Ehlo(name) =>
      (match Expect(c, Ascii("EHLO ") + name, [250])
       case (c', Accepted(_, lines)) => c'.(capabilities := reading(lines))
       case (c', Failed(_)) => c')
    case Greeting => ReadReply(c).0
    case Message(e) => Send(c, e).client
  }

  function Session(reading: seq<text> -> Capabilities, c: Client, calls: seq<Call>): Client
    decreases |calls|
  {
    if calls == [] then c else Session(reading, Perform(reading, c, calls[0]), calls[1..])
  }

  lemma PerformExtends(reading: seq<text> -> Capabilities, c: Client, call: Call)
    ensures Extends(c, Perform(reading, c, call))
  {
    hide Send, Expect;
    match call
    case Exchange(line, codes) => ExpectExtends(c, line, codes);
    case Ehlo(name) => ExpectExtends(c, Ascii("EHLO ") + name, [250]);
    case Greeting =>
    case Message(e) =>
      var at := SendParts(c, e);
      SendBodyOut(at, e.data);
  }

  lemma {:induction false} SessionExtends(reading: seq<text> -> Capabilities, c: Client, calls: seq<Call>)
    ensures Extends(c, Session(reading, c, calls))
    decreases |calls|
  {
    hide Perform;
    if calls != [] {
      PerformExtends(reading, c, calls[0]);
      SessionExtends(reading, Perform(reading, c, calls[0]), calls[1..]);
    }
  }

  /**
   Once a message may or may not have been taken, or broke off inside, nothing more is ever written:
   no later call, QUIT included, adds an octet.
   */
  lemma NothingAfterDoubt(reading: seq<text> -> Capabilities, c: Client, e: Envelope, calls: seq<Call>)
    requires var sent := Send(c, e); sent.answer == Failed(Unconfirmed) || (!sent.ended && BodyOut(sent) != [])
    ensures Session(reading, Send(c, e).client, calls).wire == Send(c, e).client.wire
  {
    hide Send, SendBody, Session;
    var at := SendParts(c, e);
    SendBodyAnswers(at, e.data);
    SessionExtends(reading, Send(c, e).client, calls);
  }

  // ----- a command is one line

  lemma {:induction false} EncodeOneLine(s: text)
    requires IsOneLine(s)
    ensures IsOneLine(Utf8.Encode(s))
    decreases |s|
  {
    if s != [] {
      var (p, n) := Utf8.FirstPoint(s);
      assert p !in {CR, LF};
      EncodeOneLine(s[n..]);
    }
  }

  /** A safe address cannot end its command early: each of the two lines has its only line end last. */
  lemma SafeLinesAreOne(c: Capabilities, e: Envelope, to: text)
    requires IsCommandSafe(e.from) && IsCommandSafe(to)
    ensures IsOneLine(Utf8.Encode(MailLine(c, e))) && IsOneLine(Utf8.Encode(RecipientLine(to)))
  {
    hide Utf8.Encode, Ascii, IsOneLine, Decimal;
    SafeIsOneLine(e.from);
    SafeIsOneLine(to);
    DigitsAreOneLine(Decimal(|e.data|));
    var size := if Ascii("SIZE") in c.keywords then Ascii(" SIZE=") + Decimal(|e.data|) else [];
    var mime := if Ascii("8BITMIME") in c.keywords then Ascii(" BODY=8BITMIME") else [];
    AsciiIsOneLine(" SIZE=");
    AsciiIsOneLine(" BODY=8BITMIME");
    AsciiIsOneLine("MAIL FROM:<");
    AsciiIsOneLine("RCPT TO:<");
    AsciiIsOneLine(">");
    assert IsOneLine([]) by { DigitsAreOneLine([]); }
    OneLineConcat(Ascii(" SIZE="), Decimal(|e.data|));
    OneLineConcat(Ascii("MAIL FROM:<"), e.from);
    OneLineConcat(Ascii("MAIL FROM:<") + e.from, Ascii(">"));
    OneLineConcat(Ascii("MAIL FROM:<") + e.from + Ascii(">"), size);
    OneLineConcat(Ascii("MAIL FROM:<") + e.from + Ascii(">") + size, mime);
    OneLineConcat(Ascii("RCPT TO:<"), to);
    OneLineConcat(Ascii("RCPT TO:<") + to, Ascii(">"));
    EncodeOneLine(MailLine(c, e));
    EncodeOneLine(RecipientLine(to));
  }

  lemma OneLineConcat(a: text, b: text)
    requires IsOneLine(a) && IsOneLine(b)
    ensures IsOneLine(a + b)
  {
  }

  lemma AsciiIsOneLine(s: string)
    requires forall i | 0 <= i < |s| :: ' ' <= s[i] < 128 as char
    ensures IsOneLine(Ascii(s))
  {
  }

  lemma DigitsAreOneLine(digits: bytes)
    requires AllDigits(digits)
    ensures IsOneLine(digits)
  {
  }

  lemma SafeIsOneLine(address: text)
    requires IsCommandSafe(address)
    ensures IsOneLine(address)
  {
  }
}
