/**
 `read` over all a server may send once the handshake is over: data, empty records, tickets,
 KeyUpdates that ask for an answer or do not, `user_canceled`, messages split over records or sharing
 one; and at the end nothing, a close, another alert, or what may not come. Said of what the peer sent.
 */
module PeerReading {
  import opened Bytes
  import opened HandshakeCodec
  import opened HandshakeMessages
  import opened TlsRecord
  import opened TlsSealing
  import opened TlsReading
  import opened TlsStream

  // ----- what a peer sends

  /** One record. A fragment says which messages it completes, and what it holds of the next one. */
  datatype Item =
    | Text(payload: bytes)
    | Canceled(isFatal: bool)
    | Fragment(payload: bytes, completes: seq<Message>, carry: bytes)

  /**
   How the peer's stream ends: at a record's end; with an alert that is not `user_canceled`; or, for the
   reason given, with octets that are no sealed record, a record that may not stand there, or a message
   that may not come, behind some that may.
   */
  datatype Ending =
    | Stops
    | Alert(isFatal: bool, code: byte)
    | Raw(octets: bytes, why: ReadFailure)
    | Stray(content: ContentType, payload: bytes, description: AlertDescription)
    | Foreign(payload: bytes, completes: seq<Message>, message: bytes, rest: bytes, description: AlertDescription)

  /** A message a server may send now, of a size the reader takes. */
  predicate IsPost(m: Message) {
    && (m.KeyUpdate? || m.NewSessionTicket?) && MessageProper(m)
    && EncodeMessage(m).Some? && |MessageBody(m)| <= 65536
  }

  function Octets(m: Message): bytes
    requires IsPost(m)
  {
    EncodeMessage(m).value
  }

  predicate AllPost(ms: seq<Message>) {
    forall k | 0 <= k < |ms| :: IsPost(ms[k])
  }

  function AllOctets(ms: seq<Message>): bytes
    requires AllPost(ms)
  {
    if ms == [] then [] else Octets(ms[0]) + AllOctets(ms[1..])
  }

  /** Part of a message whose length, if it is there already, is one the reader takes. */
  predicate Begins(carry: bytes) {
    |carry| < 4 || (Announced(carry) <= 65536 && |carry| < 4 + Announced(carry))
  }

  /** The length in a message's header. */
  function Announced(message: bytes): nat
    requires |message| >= 4
  {
    message[1] as nat * 0x10000 + message[2] as nat * 0x100 + message[3] as nat
  }

  /**
   The records fit together: behind `carry`, each fragment makes up its messages and its own carry, and
   nothing but a fragment comes behind one that completes none.
   */
  ghost predicate Fits(carry: bytes, isInside: bool, items: seq<Item>)
    decreases |items|
  {
    items != [] ==>
      match items[0]
      case Text(payload) => !isInside && |payload| <= MAX_RECORD_PLAINTEXT && Fits(carry, false, items[1..])
      case Canceled(_) => !isInside && Fits(carry, false, items[1..])
      case Fragment(payload, completes, carry') =>
        && |payload| <= MAX_RECORD_PLAINTEXT && AllPost(completes) && Begins(carry')
        && carry + payload == AllOctets(completes) + carry'
        && Fits(carry', completes == [], items[1..])
  }

  /** What is left of a message behind the last record, and whether only a fragment may come there. */
  function CarryBehind(carry: bytes, items: seq<Item>): bytes
    decreases |items|
  {
    if items == [] then carry
    else CarryBehind(if items[0].Fragment? then items[0].carry else carry, items[1..])
  }

  function InsideBehind(isInside: bool, items: seq<Item>): bool
    decreases |items|
  {
    if items == [] then isInside
    else InsideBehind(items[0].Fragment? && items[0].completes == [], items[1..])
  }

  // ----- what may not come

  /** Octets at a record's place that cannot be read, and why. */
  ghost predicate IsUnreadable(suite: Suite, first: bytes, p: Position, octets: bytes, why: ReadFailure) {
    if |octets| < 5 then why == StreamTruncated
    else
      var length := octets[3] as nat * 0x100 + octets[4] as nat;
      if length > 16640 then why == AlertSent(RecordOverflow)
      else if |octets| < 5 + length then why == StreamTruncated
      else if octets[0] != 0x17 then why == AlertSent(UnexpectedMessage)
      else if octets[1] != 3 || octets[2] != 3 then why == AlertSent(DecodeError)
      else if length < 17 then why == AlertSent(BadRecordMac)
      else
        var keys := KeysAt(suite, first, p.generation);
        var inner := suite.aead.open(keys.key, NonceOf(keys.iv, p.seqNo), octets[..5], octets[5..5 + length]);
        match inner
        case None => why == AlertSent(BadRecordMac)
        case Some(plain) =>
          if |plain| > 16385 then why == AlertSent(RecordOverflow)
          else why == AlertSent(UnexpectedMessage) && exists end :: IsUntyped(plain, end)
  }

  /** Zeros from `end` on, and no content type in front of them. */
  predicate IsUntyped(plain: bytes, end: nat) {
    && end <= |plain| && (forall k | end <= k < |plain| :: plain[k] == 0)
    && (end > 0 ==> plain[end - 1] !in {0, 0x14, 0x15, 0x16, 0x17})
  }

  /** A record that is sealed and may not stand there: between the fragments of a message, or at all. */
  predicate IsStray(isInside: bool, content: ContentType, payload: bytes, description: AlertDescription) {
    && |payload| <= MAX_RECORD_PLAINTEXT
    && if content == ChangeCipherSpec || (isInside && content != HandshakeContent) then description == UnexpectedMessage
       else
         && content == AlertContent
         && if |payload| != 2 then description == DecodeError
            else payload[0] !in {1, 2} && description == IllegalParameter
  }

  /** Too long, not a message at all, or not one that comes behind a handshake. */
  predicate IsForeign(message: bytes, description: AlertDescription) {
    && |message| >= 4
    && if Announced(message) > 65536 then description == DecodeError
       else
         && |message| == 4 + Announced(message)
         && match DecodeMessage(message)
            case Bad(why) => description == why
            case Ok(m) => !m.KeyUpdate? && !m.NewSessionTicket? && description == UnexpectedMessage
  }

  ghost predicate EndFits(suite: Suite, first: bytes, p: Position, carry: bytes, isInside: bool, ending: Ending) {
    match ending
    case Stops => true
    case Alert(_, code) => !isInside && code != 90
    case Raw(octets, why) => IsUnreadable(suite, first, p, octets, why)
    case Stray(content, payload, description) => IsStray(isInside, content, payload, description)
    case Foreign(payload, completes, message, rest, description) =>
      && |payload| <= MAX_RECORD_PLAINTEXT && AllPost(completes) && IsForeign(message, description)
      && carry + payload == AllOctets(completes) + (message + rest)
  }

  // ----- what it means

  function Updates(ms: seq<Message>): nat {
    if ms == [] then 0 else (if ms[0].KeyUpdate? then 1 else 0) + Updates(ms[1..])
  }

  function Tickets(ms: seq<Message>): nat {
    if ms == [] then 0 else (if ms[0].NewSessionTicket? then 1 else 0) + Tickets(ms[1..])
  }

  predicate Asks(ms: seq<Message>) {
    KeyUpdate(true) in ms
  }

  /** What is counted since the last data, and whether an answer is owed. */
  datatype Tally = Tally(empties: nat, warnings: nat, keyUpdates: nat, tickets: nat, owed: bool)

  function TallyOf(rx: Rx): Tally {
    Tally(rx.empties, rx.warnings, rx.keyUpdates, rx.tickets, rx.owed)
  }

  function Counted(t: Tally, item: Item): Tally {
    match item
    case Text(payload) => if payload == [] then t.(empties := t.empties + 1) else Tally(0, 0, 0, 0, t.owed)
    case Canceled(_) => t.(warnings := t.warnings + 1)
    case Fragment(_, ms, _) =>
      t.(keyUpdates := t.keyUpdates + Updates(ms), tickets := t.tickets + Tickets(ms), owed := t.owed || Asks(ms))
  }

  function CountedAll(t: Tally, items: seq<Item>): Tally
    decreases |items|
  {
    if items == [] then t else CountedAll(Counted(t, items[0]), items[1..])
  }

  predicate IsWithin(t: Tally) {
    t.empties <= 32 && t.warnings <= 4 && t.keyUpdates <= 32 && t.tickets <= 32
  }

  predicate IsTolerated(t: Tally, items: seq<Item>)
    decreases |items|
  {
    items != [] ==> IsWithin(Counted(t, items[0])) && IsTolerated(Counted(t, items[0]), items[1..])
  }

  function Texts(items: seq<Item>): seq<bytes> {
    if items == [] then []
    else (if items[0].Text? && items[0].payload != [] then [items[0].payload] else []) + Texts(items[1..])
  }

  /** The keys move at each KeyUpdate, when the record that completes it is over. */
  function Moved(p: Position, item: Item): Position {
    if item.Fragment? && Updates(item.completes) > 0 then At(p.generation + Updates(item.completes), 0)
    else p.(seqNo := p.seqNo + 1)
  }

  function MovedAll(p: Position, items: seq<Item>): Position
    decreases |items|
  {
    if items == [] then p else MovedAll(Moved(p, items[0]), items[1..])
  }

  function RecordAt(p: Position, item: Item): Sealed {
    match item
    case Text(payload) => Sealed(p.generation, p.seqNo, ApplicationData, payload)
    case Canceled(isFatal) => Sealed(p.generation, p.seqNo, AlertContent, AlertBytes(isFatal, 90))
    case Fragment(payload, _, _) => Sealed(p.generation, p.seqNo, HandshakeContent, payload)
  }

  function Records(p: Position, items: seq<Item>): seq<Sealed>
    decreases |items|
  {
    if items == [] then [] else [RecordAt(p, items[0])] + Records(Moved(p, items[0]), items[1..])
  }

  function EndOctets(suite: Suite, first: bytes, p: Position, ending: Ending): bytes {
    match ending
    case Stops => []
    case Alert(isFatal, code) => RecordOf(suite, first, Sealed(p.generation, p.seqNo, AlertContent, AlertBytes(isFatal, code)))
    case Raw(octets, _) => octets
    case Stray(content, payload, _) => RecordOf(suite, first, Sealed(p.generation, p.seqNo, content, payload))
    case Foreign(payload, _, _, _, _) => RecordOf(suite, first, Sealed(p.generation, p.seqNo, HandshakeContent, payload))
  }

  /** What comes in the last record, in front of the message that may not, is counted too. */
  predicate EndTolerated(t: Tally, ending: Ending) {
    ending.Foreign? ==>
      t.keyUpdates + Updates(ending.completes) <= 32 && t.tickets + Tickets(ending.completes) <= 32
  }

  /** A close is a close whatever its level; any other alert is reported as itself. */
  function Answer(ending: Ending): ReadResult {
    match ending
    case Stops => Failed(StreamTruncated)
    case Alert(isFatal, code) =>
      if code == 0 then PeerClosed
      else if IsKnownDescription(code) then Failed(AlertReceived(isFatal, code))
      else Failed(AlertReceivedUnknown(code))
    case Raw(_, why) => Failed(why)
    case Stray(_, _, description) => Failed(AlertSent(description))
    case Foreign(_, _, _, _, description) => Failed(AlertSent(description))
  }

  // ----- one record

  ghost predicate StandsAt(rx: Rx, p: Position, carry: bytes) {
    rx.buffer == carry && Begins(carry) && !rx.peerClosed && At(rx.generation, rx.seqNo) == p
  }

  lemma OctetsExtract(m: Message, rest: bytes)
    requires IsPost(m)
    ensures Extract(Octets(m) + rest) == Whole(Octets(m), rest)
    ensures DecodeMessage(Octets(m)) == Ok(m)
  {
    hide MessageEncodable, MessageProper, MessageBody, DecodeMessage, Get24, Put24, MessageTypeOf;
    MessageRoundTrip(m);
    var octets := Octets(m);
    BodyLength(m);
    var both := octets + rest;
    SameLength(octets, both);
    assert both[..|octets|] == octets && both[|octets|..] == rest;
  }

  lemma BodyLength(m: Message)
    requires IsPost(m)
    ensures |Octets(m)| == 4 + |MessageBody(m)| && Get24(Octets(m)[1..]) == |MessageBody(m)|
  {
    hide MessageEncodable, MessageProper, MessageBody, Get24, Put24, MessageTypeOf;
    var body := MessageBody(m);
    PutLengths(|body|);
    PutLengths(MessageTypeOf(m));
    GetPut(|body|, body);
    assert Octets(m)[1..] == Put24(|body|) + body;
  }

  lemma SameLength(a: bytes, b: bytes)
    requires a <= b && |a| >= 4
    ensures Get24(a[1..]) == Get24(b[1..])
  {
    assert a == b[..|a|];
  }

  lemma CarryWaits(carry: bytes)
    requires Begins(carry)
    ensures Extract(carry) == NeedMore
  {
  }

  lemma ItemTurn(suite: Suite, first: bytes, isInside: bool, rx: Rx, p: Position, carry: bytes, s: Sealed, tail: bytes)
    requires Lawful(suite.aead) && |s.payload| <= MAX_RECORD_PLAINTEXT && StandsAt(rx, p, carry)
    requires p == At(s.generation, s.seqNo)
    ensures TurnOf(suite, first, isInside, rx, RecordOf(suite, first, s) + tail)
         == OpenedTurn(isInside, rx.(seqNo := rx.seqNo + 1), s.content, s.payload, tail)
  {
    hide FrameRecord, OpenAead, OpenedTurn, RecordOf, KeysAt, Extract, Begins;
    CarryWaits(carry);
    RecordArrives(suite, first, s, tail);
  }

  /** A run of reads whose first one may stand inside a message. */
  ghost function ReadOn(suite: Suite, first: bytes, isInside: bool, rx: Rx, stream: bytes, n: nat): Reads {
    if n == 0 then Reads([], None, rx, stream)
    else
      var out := Read(suite, first, isInside, rx, stream);
      if !out.result.Data? then Reads([], Some(out.result), out.rx, out.rest)
      else
        var more := ReadMany(suite, first, out.rx, out.rest, n - 1);
        more.(data := out.result.payload + more.data)
  }

  lemma ReadOnOutside(suite: Suite, first: bytes, rx: Rx, stream: bytes, n: nat)
    ensures ReadOn(suite, first, false, rx, stream, n) == ReadMany(suite, first, rx, stream, n)
  {
    hide Read;
  }

  lemma ReadOnSame(suite: Suite, first: bytes, isInside: bool, rx: Rx, stream: bytes, isInside': bool, rx': Rx, stream': bytes, n: nat)
    requires n > 0
    requires SameAnswer(Read(suite, first, isInside, rx, stream), Read(suite, first, isInside', rx', stream'))
    ensures ReadOn(suite, first, isInside, rx, stream, n) == ReadOn(suite, first, isInside', rx', stream', n)
  {
    hide Read;
  }

  /** The messages that are whole, one after the other, move what they move and leave the carry. */
  function Handled(rx: Rx, ms: seq<Message>, carry: bytes): Rx {
    rx.(buffer := carry,
        generation := rx.generation + Updates(ms),
        seqNo := if Updates(ms) > 0 then 0 else rx.seqNo,
        keyUpdates := rx.keyUpdates + Updates(ms),
        tickets := rx.tickets + Tickets(ms),
        owed := rx.owed || Asks(ms))
  }

  /** One message alone. */
  lemma HandledOne(rx: Rx, m: Message, rest: bytes)
    ensures m.KeyUpdate? ==>
              Handled(rx, [m], rest)
              == rx.(buffer := rest, generation := rx.generation + 1, seqNo := 0, keyUpdates := rx.keyUpdates + 1,
                     owed := rx.owed || m.requestUpdate)
    ensures m.NewSessionTicket? ==> Handled(rx, [m], rest) == rx.(buffer := rest, tickets := rx.tickets + 1)
  {
    assert [m][1..] == [];
    assert Updates([]) == 0 && Tickets([]) == 0;
    assert m.KeyUpdate? ==> (Asks([m]) <==> m.requestUpdate);
  }

  lemma MessageTurn(suite: Suite, first: bytes, isInside: bool, rx: Rx, m: Message, rest: bytes, tail: bytes)
    requires IsPost(m) && rx.buffer == Octets(m) + rest && !rx.peerClosed
    requires rx.keyUpdates <= 32 && rx.tickets <= 32
    ensures var rx' := Handled(rx, [m], rest);
            var t := TurnOf(suite, first, isInside, rx, tail);
            if rx'.keyUpdates <= 32 && rx'.tickets <= 32
            then t == Again(false, rx', tail, 0, 0)
            else t.Stop? && t.result == REFUSED
  {
    hide IsPost, Octets, Extract, DecodeMessage, RecordTurn, Handled;
    OctetsExtract(m, rest);
    PostKind(m);
    HandledOne(rx, m, rest);
  }

  lemma PostKind(m: Message)
    requires IsPost(m)
    ensures m.KeyUpdate? || m.NewSessionTicket?
  {
  }

  lemma HandledMore(rx: Rx, m: Message, ms: seq<Message>, rest: bytes, carry: bytes)
    ensures Handled(Handled(rx, [m], rest), ms, carry) == Handled(rx, [m] + ms, carry)
    ensures Updates([m] + ms) == Updates([m]) + Updates(ms) && Tickets([m] + ms) == Tickets([m]) + Tickets(ms)
  {
    assert ([m] + ms)[1..] == ms && [m][1..] == [];
    assert Updates([]) == 0 && Tickets([]) == 0;
    assert Asks([m] + ms) <==> Asks([m]) || Asks(ms);
  }

  lemma {:induction false} MessagesDrain(suite: Suite, first: bytes, isInside: bool, rx: Rx, ms: seq<Message>, carry: bytes, tail: bytes)
    requires AllPost(ms) && rx.buffer == AllOctets(ms) + carry && !rx.peerClosed
    requires rx.keyUpdates <= 32 && rx.tickets <= 32
    ensures var rx' := Handled(rx, ms, carry);
            var out := Read(suite, first, isInside, rx, tail);
            if rx'.keyUpdates <= 32 && rx'.tickets <= 32
            then SameAnswer(out, Read(suite, first, isInside && ms == [], rx', tail))
            else out.result == REFUSED
    decreases |ms|
  {
    hide TurnOf, Octets, IsPost, Handled;
    if ms == [] {
      HandledNothing(rx, carry);
    } else {
      var m, later := ms[0], ms[1..];
      var rest := AllOctets(later) + carry;
      assert rx.buffer == Octets(m) + rest;
      MessageTurn(suite, first, isInside, rx, m, rest, tail);
      HandledMore(rx, m, later, rest, carry);
      assert [m] + later == ms;
      HandledIs(rx, [m], rest);
      HandledIs(rx, ms, carry);
      if TurnOf(suite, first, isInside, rx, tail).Again? {
        MessagesDrain(suite, first, false, Handled(rx, [m], rest), later, carry, tail);
      }
    }
  }

  lemma HandledNothing(rx: Rx, carry: bytes)
    requires rx.buffer == [] + carry
    ensures Handled(rx, [], carry) == rx
  {
  }

  lemma HandledIs(rx: Rx, ms: seq<Message>, carry: bytes)
    ensures var rx' := Handled(rx, ms, carry);
            && rx'.buffer == carry && rx'.peerClosed == rx.peerClosed
            && rx'.keyUpdates == rx.keyUpdates + Updates(ms) && rx'.tickets == rx.tickets + Tickets(ms)
            && rx'.empties == rx.empties && rx'.warnings == rx.warnings
  {
  }

  // ----- one record read

  /** The state behind a record. */
  function Behind(rx: Rx, item: Item): Rx {
    var rx' := rx.(seqNo := rx.seqNo + 1);
    match item
    case Text(payload) => if payload == [] then rx'.(empties := rx.empties + 1) else Delivered(rx')
    case Canceled(_) => rx'.(warnings := rx.warnings + 1)
    case Fragment(_, completes, carry) => Handled(rx', completes, carry)
  }

  lemma BehindIs(rx: Rx, p: Position, carry: bytes, isInside: bool, items: seq<Item>)
    requires StandsAt(rx, p, carry) && items != [] && Fits(carry, isInside, items)
    ensures var item, rx' := items[0], Behind(rx, items[0]);
            var carry' := if item.Fragment? then item.carry else carry;
            && TallyOf(rx') == Counted(TallyOf(rx), item)
            && StandsAt(rx', Moved(p, item), carry')
            && Fits(carry', item.Fragment? && item.completes == [], items[1..])
            && |RecordAt(p, item).payload| <= MAX_RECORD_PLAINTEXT
            && p == At(RecordAt(p, item).generation, RecordAt(p, item).seqNo)
            && (item.Fragment? || !isInside)
  {
    hide Begins;
  }

  lemma FragmentMakes(carry: bytes, isInside: bool, items: seq<Item>)
    requires items != [] && items[0].Fragment? && Fits(carry, isInside, items)
    ensures AllPost(items[0].completes) && carry + items[0].payload == AllOctets(items[0].completes) + items[0].carry
  {
    hide Begins, AllOctets;
  }

  /** Taken within the ceilings, refused past them; only data answers a read. */
  lemma ItemRead(suite: Suite, first: bytes, isInside: bool, rx: Rx, p: Position, carry: bytes, items: seq<Item>, tail: bytes)
    requires Lawful(suite.aead) && StandsAt(rx, p, carry) && items != [] && Fits(carry, isInside, items)
    requires IsWithin(TallyOf(rx))
    ensures var item, rx' := items[0], Behind(rx, items[0]);
            var out := Read(suite, first, isInside, rx, RecordOf(suite, first, RecordAt(p, item)) + tail);
            if !IsWithin(Counted(TallyOf(rx), item)) then out.result == REFUSED
            else if item.Text? && item.payload != [] then
              out.result == Data(item.payload) && out.rx == rx' && out.rest == tail
            else SameAnswer(out, Read(suite, first, item.Fragment? && item.completes == [], rx', tail))
  {
    hide TurnOf, RecordOf, Fits, StandsAt, Handled, Updates, Tickets, Asks;
    var item := items[0];
    var s := RecordAt(p, item);
    BehindIs(rx, p, carry, isInside, items);
    ItemTurn(suite, first, isInside, rx, p, carry, s, tail);
    match item
    case Text(payload) =>
    case Canceled(isFatal) =>
    case Fragment(payload, completes, carry') =>
      FragmentMakes(carry, isInside, items);
      StandsCarry(rx, p, carry);
      var rx1 := rx.(seqNo := rx.seqNo + 1, buffer := rx.buffer + payload);
      MessagesDrain(suite, first, true, rx1, completes, carry', tail);
      HandledFrom(rx.(seqNo := rx.seqNo + 1), rx.buffer + payload, completes, carry');
      HandledIs(rx1, completes, carry');
  }

  lemma StandsCarry(rx: Rx, p: Position, carry: bytes)
    requires StandsAt(rx, p, carry)
    ensures rx.buffer == carry && !rx.peerClosed
  {
  }

  lemma HandledFrom(rx: Rx, buffer: bytes, ms: seq<Message>, carry: bytes)
    ensures Handled(rx.(buffer := buffer), ms, carry) == Handled(rx, ms, carry)
  {
  }

  // ----- the end

  lemma RawRead(suite: Suite, first: bytes, isInside: bool, rx: Rx, p: Position, carry: bytes, octets: bytes, why: ReadFailure)
    requires StandsAt(rx, p, carry) && IsUnreadable(suite, first, p, octets, why)
    ensures Read(suite, first, isInside, rx, octets).result == Failed(why)
  {
    hide Extract, Begins, KeysAt, NonceOf, Read;
    CarryWaits(carry);
    RawTurn(suite, first, isInside, rx, p, octets, why);
    ReadStop(suite, first, isInside, rx, octets);
  }

  lemma ReadStop(suite: Suite, first: bytes, isInside: bool, rx: Rx, stream: bytes)
    ensures var t := TurnOf(suite, first, isInside, rx, stream);
            t.Stop? ==> Read(suite, first, isInside, rx, stream) == ReadOut(t.result, t.rx, t.rest, t.used, 0)
  {
    hide TurnOf;
  }

  lemma UntypedInner()
    ensures forall plain, end | |plain| <= 16385 && IsUntyped(plain, end) :: OpenInner(plain) == Unopened(UnexpectedMessage)
    ensures forall plain: bytes | |plain| > 16385 :: OpenInner(plain) == Unopened(RecordOverflow)
  {
    forall plain, end | |plain| <= 16385 && IsUntyped(plain, end)
      ensures OpenInner(plain) == Unopened(UnexpectedMessage)
    {
      ContentEndIs(plain, end, |plain|);
    }
  }

  lemma RawTurn(suite: Suite, first: bytes, isInside: bool, rx: Rx, p: Position, octets: bytes, why: ReadFailure)
    requires At(rx.generation, rx.seqNo) == p && IsUnreadable(suite, first, p, octets, why)
    ensures var t := RecordTurn(suite, first, isInside, rx, octets); t.Stop? && t.result == Failed(why)
  {
    hide KeysAt, NonceOf, OpenInner, IsUntyped;
    if |octets| >= 5 {
      var length := octets[3] as nat * 0x100 + octets[4] as nat;
      assert Get16(octets[3..]) == length;
      if |octets| >= 5 + length {
        var record := octets[..5 + length];
        assert Get16(record[3..]) == length && Get16(record[1..]) == record[1] as nat * 0x100 + record[2] as nat;
        assert record[..5] == octets[..5] && record[5..] == octets[5..5 + length];
        UntypedInner();
      }
    }
  }

  lemma AlertRead(suite: Suite, first: bytes, rx: Rx, p: Position, carry: bytes, isFatal: bool, code: byte)
    requires Lawful(suite.aead) && StandsAt(rx, p, carry) && code != 90
    ensures var s := Sealed(p.generation, p.seqNo, AlertContent, AlertBytes(isFatal, code));
            Read(suite, first, false, rx, RecordOf(suite, first, s))
            == ReadOut(Answer(Alert(isFatal, code)), rx.(seqNo := rx.seqNo + 1, peerClosed := code == 0), [], 1, 0)
  {
    hide TurnOf, RecordOf, IsKnownDescription, StandsAt;
    var s := Sealed(p.generation, p.seqNo, AlertContent, AlertBytes(isFatal, code));
    StandsCarry(rx, p, carry);
    ItemTurn(suite, first, false, rx, p, carry, s, []);
    assert RecordOf(suite, first, s) + [] == RecordOf(suite, first, s);
    CloseIsKnown();
  }

  lemma CloseIsKnown()
    ensures IsKnownDescription(0)
  {
  }

  lemma StrayRead(suite: Suite, first: bytes, isInside: bool, rx: Rx, p: Position, carry: bytes, s: Sealed, description: AlertDescription)
    requires Lawful(suite.aead) && StandsAt(rx, p, carry) && p == At(s.generation, s.seqNo)
    requires IsStray(isInside, s.content, s.payload, description)
    ensures Read(suite, first, isInside, rx, RecordOf(suite, first, s)).result == Failed(AlertSent(description))
  {
    hide TurnOf, RecordOf, IsKnownDescription, StandsAt;
    ItemTurn(suite, first, isInside, rx, p, carry, s, []);
    assert RecordOf(suite, first, s) + [] == RecordOf(suite, first, s);
  }

  /** A message that may not come, once it stands in front of the buffer. */
  lemma ForeignTurn(suite: Suite, first: bytes, isInside: bool, rx: Rx, message: bytes, rest: bytes, description: AlertDescription, tail: bytes)
    requires IsForeign(message, description) && rx.buffer == message + rest && !rx.peerClosed
    ensures var t := TurnOf(suite, first, isInside, rx, tail); t.Stop? && t.result == Failed(AlertSent(description))
  {
    hide DecodeMessage, RecordTurn;
    var buffer := rx.buffer;
    assert Get24(buffer[1..]) == Announced(message) by {
      assert buffer[1..][0] == message[1] && buffer[1..][1] == message[2] && buffer[1..][2] == message[3];
    }
    if Announced(message) <= 65536 {
      assert buffer[..4 + Announced(message)] == message;
    }
  }

  lemma ForeignRead(suite: Suite, first: bytes, isInside: bool, rx: Rx, p: Position, carry: bytes, ending: Ending)
    requires Lawful(suite.aead) && StandsAt(rx, p, carry) && IsWithin(TallyOf(rx))
    requires ending.Foreign? && EndFits(suite, first, p, carry, isInside, ending)
    ensures Read(suite, first, isInside, rx, EndOctets(suite, first, p, ending)).result
         == if EndTolerated(TallyOf(rx), ending) then Answer(ending) else REFUSED
  {
    hide TurnOf, RecordOf, StandsAt, Handled, Updates, Tickets, Asks, AllOctets, IsForeign;
    var s := Sealed(p.generation, p.seqNo, HandshakeContent, ending.payload);
    ItemTurn(suite, first, isInside, rx, p, carry, s, []);
    assert RecordOf(suite, first, s) + [] == RecordOf(suite, first, s);
    StandsCarry(rx, p, carry);
    var rx1 := rx.(seqNo := rx.seqNo + 1, buffer := rx.buffer + ending.payload);
    var front := ending.message + ending.rest;
    MessagesDrain(suite, first, true, rx1, ending.completes, front, []);
    HandledIs(rx1, ending.completes, front);
    var rx2 := Handled(rx1, ending.completes, front);
    ForeignTurn(suite, first, ending.completes == [], rx2, ending.message, ending.rest, ending.description, []);
  }

  /** What many reads over the whole of a peer's stream come to. */
  ghost predicate IsRead(p: Position, rx: Rx, items: seq<Item>, ending: Ending, r: Reads) {
    if IsTolerated(TallyOf(rx), items) then
      && r.data == Flatten(Texts(items))
      && r.last == Some(if EndTolerated(CountedAll(TallyOf(rx), items), ending) then Answer(ending) else REFUSED)
      && (ending.Stops? || ending.Alert? ==>
            && r.rest == [] && TallyOf(r.rx) == CountedAll(TallyOf(rx), items)
            && At(r.rx.generation, r.rx.seqNo) == (if ending.Stops? then MovedAll(p, items) else Past(MovedAll(p, items)))
            && r.rx.peerClosed == (ending.Alert? && ending.code == 0))
    else r.last == Some(REFUSED)
  }

  lemma EndRead(suite: Suite, first: bytes, isInside: bool, rx: Rx, p: Position, carry: bytes, ending: Ending, n: nat)
    requires Lawful(suite.aead) && StandsAt(rx, p, carry) && IsWithin(TallyOf(rx)) && n > 0
    requires EndFits(suite, first, p, carry, isInside, ending)
    ensures IsRead(p, rx, [], ending, ReadOn(suite, first, isInside, rx, EndOctets(suite, first, p, ending), n))
  {
    hide Read, RecordOf, IsKnownDescription, Begins, IsUnreadable, IsStray, IsForeign, AllOctets, Updates, Tickets;
    match ending
    case Stops => StopRead(suite, first, isInside, rx, p, carry);
    case Alert(isFatal, code) => AlertRead(suite, first, rx, p, carry, isFatal, code);
    case Raw(octets, why) => RawRead(suite, first, isInside, rx, p, carry, octets, why);
    case Stray(content, payload, description) =>
      StrayRead(suite, first, isInside, rx, p, carry, Sealed(p.generation, p.seqNo, content, payload), description);
    case Foreign(_, _, _, _, _) => ForeignRead(suite, first, isInside, rx, p, carry, ending);
  }

  lemma StopRead(suite: Suite, first: bytes, isInside: bool, rx: Rx, p: Position, carry: bytes)
    requires StandsAt(rx, p, carry)
    ensures Read(suite, first, isInside, rx, []) == ReadOut(Failed(StreamTruncated), rx, [], 0, 0)
  {
    hide FrameRecord, Extract, Begins;
    CarryWaits(carry);
    NoRecord();
  }

  function StreamOf(suite: Suite, first: bytes, p: Position, items: seq<Item>, ending: Ending): bytes {
    WireOf(suite, first, Records(p, items)) + EndOctets(suite, first, MovedAll(p, items), ending)
  }

  lemma StreamFirst(suite: Suite, first: bytes, p: Position, items: seq<Item>, ending: Ending)
    ensures items == [] ==> StreamOf(suite, first, p, items, ending) == EndOctets(suite, first, p, ending)
    ensures items != [] ==>
              StreamOf(suite, first, p, items, ending)
              == RecordOf(suite, first, RecordAt(p, items[0])) + StreamOf(suite, first, Moved(p, items[0]), items[1..], ending)
  {
    hide RecordOf, RecordAt, Moved, EndOctets;
    var ends := EndOctets(suite, first, MovedAll(p, items), ending);
    if items == [] {
      assert [] + ends == ends;
    } else {
      var more := Records(Moved(p, items[0]), items[1..]);
      assert ([RecordAt(p, items[0])] + more)[1..] == more;
      ConcatAssoc(RecordOf(suite, first, RecordAt(p, items[0])), WireOf(suite, first, more), ends);
    }
  }

  lemma {:induction false} PeerReadOn(
    suite: Suite, first: bytes, isInside: bool, rx: Rx, p: Position, carry: bytes, items: seq<Item>, ending: Ending, n: nat)
    requires Lawful(suite.aead) && StandsAt(rx, p, carry) && Fits(carry, isInside, items)
    requires IsWithin(TallyOf(rx)) && n > |Texts(items)|
    requires EndFits(suite, first, MovedAll(p, items), CarryBehind(carry, items), InsideBehind(isInside, items), ending)
    ensures IsRead(p, rx, items, ending, ReadOn(suite, first, isInside, rx, StreamOf(suite, first, p, items, ending), n))
    decreases |items|
  {
    hide Lawful, Read, ReadOn, StreamOf, RecordOf, Fits, StandsAt, Counted, Moved, Behind, RecordAt, IsWithin, WireOf, IsRead,
         EndFits, EndOctets;
    StreamFirst(suite, first, p, items, ending);
    if items == [] {
      EndRead(suite, first, isInside, rx, p, carry, ending, n);
    } else {
      var item, later := items[0], items[1..];
      var rx', p' := Behind(rx, item), Moved(p, item);
      var carry' := if item.Fragment? then item.carry else carry;
      var inside := item.Fragment? && item.completes == [];
      var tail := StreamOf(suite, first, p', later, ending);
      var stream := RecordOf(suite, first, RecordAt(p, item)) + tail;
      ItemRead(suite, first, isInside, rx, p, carry, items, tail);
      BehindIs(rx, p, carry, isInside, items);
      if !IsWithin(Counted(TallyOf(rx), item)) {
        RefusedRead(suite, first, isInside, rx, p, items, ending, stream, n);
      } else {
        var isText := item.Text? && item.payload != [];
        PeerReadOn(suite, first, inside, rx', p', carry', later, ending, if isText then n - 1 else n);
        if isText {
          ReadOnOutside(suite, first, rx', tail, n - 1);
          TextRead(suite, first, isInside, rx, p, items, ending, stream, n);
        } else {
          ReadOnSame(suite, first, isInside, rx, stream, inside, rx', tail, n);
          SilentRead(rx, rx', p, items, ending, ReadOn(suite, first, inside, rx', tail, n));
        }
      }
    }
  }

  lemma RefusedRead(suite: Suite, first: bytes, isInside: bool, rx: Rx, p: Position, items: seq<Item>, ending: Ending, stream: bytes, n: nat)
    requires items != [] && n > 0 && !IsWithin(Counted(TallyOf(rx), items[0]))
    requires Read(suite, first, isInside, rx, stream).result == REFUSED
    ensures IsRead(p, rx, items, ending, ReadOn(suite, first, isInside, rx, stream, n))
  {
    hide Read, Counted, IsWithin;
  }

  lemma TextRead(suite: Suite, first: bytes, isInside: bool, rx: Rx, p: Position, items: seq<Item>, ending: Ending, stream: bytes, n: nat)
    requires items != [] && n > 0 && items[0].Text? && items[0].payload != [] && IsWithin(Counted(TallyOf(rx), items[0]))
    requires var out := Read(suite, first, isInside, rx, stream);
             && out.result == Data(items[0].payload) && TallyOf(out.rx) == Counted(TallyOf(rx), items[0])
             && IsRead(Moved(p, items[0]), out.rx, items[1..], ending, ReadMany(suite, first, out.rx, out.rest, n - 1))
    ensures IsRead(p, rx, items, ending, ReadOn(suite, first, isInside, rx, stream, n))
  {
    hide Read, Counted, Moved, ReadMany, IsWithin;
    assert Texts(items) == [items[0].payload] + Texts(items[1..]);
  }

  lemma SilentRead(rx: Rx, rx': Rx, p: Position, items: seq<Item>, ending: Ending, r: Reads)
    requires items != [] && !(items[0].Text? && items[0].payload != []) && IsWithin(Counted(TallyOf(rx), items[0]))
    requires TallyOf(rx') == Counted(TallyOf(rx), items[0])
    requires IsRead(Moved(p, items[0]), rx', items[1..], ending, r)
    ensures IsRead(p, rx, items, ending, r)
  {
    hide Counted, Moved, IsWithin;
    assert Texts(items) == [] + Texts(items[1..]) == Texts(items[1..]);
  }

  // ----- many reads

  /**
   Whatever of this a server sends, enough reads deliver just the data, in order, and then answer the
   end of the stream: a close as a close, another alert as itself, what may not come with its own alert.
   Each record moves its own counter and the keys; past a ceiling the reads end in a refusal.
   */
  lemma PeerRead(suite: Suite, first: bytes, rx: Rx, p: Position, carry: bytes, items: seq<Item>, ending: Ending, n: nat)
    requires Lawful(suite.aead) && StandsAt(rx, p, carry) && Fits(carry, false, items)
    requires IsWithin(TallyOf(rx)) && n > |Texts(items)|
    requires EndFits(suite, first, MovedAll(p, items), CarryBehind(carry, items), InsideBehind(false, items), ending)
    ensures IsRead(p, rx, items, ending, ReadMany(suite, first, rx, StreamOf(suite, first, p, items, ending), n))
  {
    hide ReadMany, StreamOf, Fits, IsRead;
    PeerReadOn(suite, first, false, rx, p, carry, items, ending, n);
    ReadOnOutside(suite, first, rx, StreamOf(suite, first, p, items, ending), n);
  }

  /** The same from a fresh connection. */
  lemma FreshRead(suite: Suite, secret: bytes, items: seq<Item>, ending: Ending, n: nat)
    requires Lawful(suite.aead) && Fits([], false, items) && n > |Texts(items)|
    requires EndFits(suite, secret, MovedAll(At(0, 0), items), CarryBehind([], items), InsideBehind(false, items), ending)
    ensures var r := ReadMany(suite, secret, RX_FRESH, StreamOf(suite, secret, At(0, 0), items, ending), n);
            if IsTolerated(Tally(0, 0, 0, 0, false), items)
            then
              && r.data == Flatten(Texts(items))
              && r.last == Some(if EndTolerated(CountedAll(Tally(0, 0, 0, 0, false), items), ending) then Answer(ending) else REFUSED)
              && (ending.Stops? || ending.Alert? ==> (r.rx.owed <==> AsksAny(items)))
            else r.last == Some(REFUSED)
  {
    hide Fits, ReadMany, StreamOf, IsTolerated, Answer;
    PeerRead(suite, secret, RX_FRESH, At(0, 0), [], items, ending, n);
    OwedExactly(Tally(0, 0, 0, 0, false), items);
  }

  /** Some KeyUpdate that was sent asks for an answer. */
  predicate AsksAny(items: seq<Item>) {
    exists k | 0 <= k < |items| :: items[k].Fragment? && Asks(items[k].completes)
  }

  /** An answer is owed if and only if it was before, or was asked for. */
  lemma {:induction false} OwedExactly(t: Tally, items: seq<Item>)
    ensures CountedAll(t, items).owed <==> t.owed || AsksAny(items)
    decreases |items|
  {
    if items != [] {
      OwedExactly(Counted(t, items[0]), items[1..]);
      assert forall k | 1 <= k < |items| :: items[k] == items[1..][k - 1];
      assert AsksAny(items) <==> (items[0].Fragment? && Asks(items[0].completes)) || AsksAny(items[1..]) by {
        if k :| 0 <= k < |items[1..]| && items[1..][k].Fragment? && Asks(items[1..][k].completes) {
          assert items[k + 1].Fragment? && Asks(items[k + 1].completes);
        }
      }
    }
  }
}
