/**
 `read` of an established TLS 1.3 connection (`packages/tls/src/handshake.ts`): records off the
 stream, handshake messages put together across them, KeyUpdates, tickets, alerts, and the ceilings
 that bound what it takes without delivering data.
 */
module TlsReading {
  import opened Bytes
  import opened HandshakeCodec
  import opened HandshakeMessages
  import opened TlsRecord
  import opened TlsSealing

  const MAX_HANDSHAKE_MESSAGE_BODY := 65536
  const MAX_CONSECUTIVE_EMPTY_RECORDS := 32
  const MAX_WARNING_ALERTS := 4
  const MAX_KEY_UPDATES := 32
  const MAX_CONSECUTIVE_SESSION_TICKETS := 32

  // ----- alerts

  datatype AlertReading = Malformed(description: AlertDescription) | UnknownAlert(code: byte) | KnownAlert(fatal: bool, code: byte)

  predicate IsKnownDescription(code: byte) {
    code in {0, 10, 20, 22, 40, 42, 43, 44, 45, 46, 47, 48, 49, 50, 51, 70, 71, 80, 86, 90,
             109, 110, 112, 113, 115, 116, 117, 120}
  }

  function DecodeAlert(payload: bytes): AlertReading {
    if |payload| != 2 then Malformed(DecodeError)
    else if payload[0] != 1 && payload[0] != 2 then Malformed(IllegalParameter)
    else if !IsKnownDescription(payload[1]) then UnknownAlert(payload[1])
    else KnownAlert(payload[0] == 2, payload[1])
  }

  const CLOSE_NOTIFY: byte := 0
  const USER_CANCELED: byte := 90

  // ----- handshake messages out of fragments

  datatype Extracted = Whole(message: bytes, rest: bytes) | NeedMore | Overflow

  function Extract(buffer: bytes): (r: Extracted)
    ensures r.Whole? ==> |r.message| >= 4 && |r.message| <= 4 + MAX_HANDSHAKE_MESSAGE_BODY && buffer == r.message + r.rest
    ensures r.NeedMore? ==> |buffer| < 4 + MAX_HANDSHAKE_MESSAGE_BODY
  {
    if |buffer| < 4 then NeedMore
    else
      var length := Get24(buffer[1..]);
      if length > MAX_HANDSHAKE_MESSAGE_BODY then Overflow
      else if |buffer| < 4 + length then NeedMore
      else Whole(buffer[..4 + length], buffer[4 + length..])
  }

  // ----- reading

  datatype Rx = Rx(
    generation: nat, seqNo: nat, buffer: bytes,
    empties: nat, warnings: nat, keyUpdates: nat, tickets: nat,
    peerClosed: bool, owed: bool)

  const RX_FRESH := Rx(0, 0, [], 0, 0, 0, 0, false, false)

  datatype ReadFailure =
    | AlertSent(description: AlertDescription)
    | AlertReceived(fatal: bool, code: byte)
    | AlertReceivedUnknown(code: byte)
    | StreamTruncated

  datatype ReadResult = Data(payload: bytes) | PeerClosed | Failed(reason: ReadFailure)

  /** The answer of one `read`; how many records it took, and how many were handshake fragments without content. */
  datatype ReadOut = ReadOut(result: ReadResult, rx: Rx, rest: bytes, used: nat, hollow: nat)

  /**
   One turn of the loop. `isInside` is the inner loop of the source: it waits for the rest of a
   fragmented message, and only handshake records may come.
   */
  datatype Turn =
    | Stop(result: ReadResult, rx: Rx, rest: bytes, used: nat)
    | Again(isInside: bool, rx: Rx, rest: bytes, used: nat, hollow: nat)

  function Abort(description: AlertDescription, rx: Rx, rest: bytes, used: nat): Turn {
    Stop(Failed(AlertSent(description)), rx, rest, used)
  }

  /** Delivered data clears every ceiling. */
  function Delivered(rx: Rx): Rx {
    rx.(empties := 0, warnings := 0, keyUpdates := 0, tickets := 0)
  }

  function OpenNext(suite: Suite, first: bytes, rx: Rx, record: bytes): OpenResult {
    OpenAead(suite.aead, KeysAt(suite, first, rx.generation), rx.seqNo, record)
  }

  /** Tickets and KeyUpdates are taken, within their ceilings; nothing else may come after the handshake. */
  function HandleTurn(rx: Rx, message: bytes, stream: bytes): Turn {
    match DecodeMessage(message)
    case Bad(description) => Abort(description, rx, stream, 0)
    case Ok(NewSessionTicket(_, _, _, _, _)) =>
      var rx' := rx.(tickets := rx.tickets + 1);
      if rx'.tickets > MAX_CONSECUTIVE_SESSION_TICKETS then Abort(UnexpectedMessage, rx', stream, 0)
      else Again(false, rx', stream, 0, 0)
    case Ok(KeyUpdate(requested)) =>
      var rx' := rx.(keyUpdates := rx.keyUpdates + 1);
      if rx'.keyUpdates > MAX_KEY_UPDATES then Abort(UnexpectedMessage, rx', stream, 0)
      else
        Again(false, rx'.(generation := rx.generation + 1, seqNo := 0, owed := rx.owed || requested), stream, 0, 0)
    case Ok(_) => Abort(UnexpectedMessage, rx, stream, 0)
  }

  function AlertTurn(rx: Rx, payload: bytes, rest: bytes): Turn {
    match DecodeAlert(payload)
    case Malformed(description) => Abort(description, rx, rest, 1)
    case UnknownAlert(code) => Stop(Failed(AlertReceivedUnknown(code)), rx, rest, 1)
    case KnownAlert(fatal, code) =>
      if code == CLOSE_NOTIFY then Stop(PeerClosed, rx.(peerClosed := true), rest, 1)
      else if code == USER_CANCELED then
        var rx' := rx.(warnings := rx.warnings + 1);
        if rx'.warnings > MAX_WARNING_ALERTS then Abort(UnexpectedMessage, rx', rest, 1)
        else Again(false, rx', rest, 1, 0)
      else Stop(Failed(AlertReceived(fatal, code)), rx, rest, 1)
  }

  function DataTurn(rx: Rx, payload: bytes, rest: bytes): Turn {
    if payload != [] then Stop(Data(payload), Delivered(rx), rest, 1)
    else
      var rx' := rx.(empties := rx.empties + 1);
      if rx'.empties > MAX_CONSECUTIVE_EMPTY_RECORDS then Abort(UnexpectedMessage, rx', rest, 1)
      else Again(false, rx', rest, 1, 0)
  }

  /** What an opened record does; `rx` has counted it already. */
  function OpenedTurn(isInside: bool, rx: Rx, content: ContentType, payload: bytes, rest: bytes): Turn {
    if content == HandshakeContent then
      Again(true, rx.(buffer := rx.buffer + payload), rest, 1, if payload == [] then 1 else 0)
    else if isInside || content == ChangeCipherSpec then Abort(UnexpectedMessage, rx, rest, 1)
    else if content == ApplicationData then DataTurn(rx, payload, rest)
    else AlertTurn(rx, payload, rest)
  }

  function RecordTurn(suite: Suite, first: bytes, isInside: bool, rx: Rx, stream: bytes): (t: Turn)
    ensures t.Again? ==> t.used == 1 && |t.rest| < |stream|
  {
    match FrameRecord(stream)
    case EndOfStream => Stop(Failed(StreamTruncated), rx, stream, 0)
    case Truncated => Stop(Failed(StreamTruncated), rx, stream, 0)
    case TooLong => Abort(RecordOverflow, rx, stream, 0)
    case Record(record) =>
      var rest := stream[|record|..];
      if record[0] != 0x17 then Abort(UnexpectedMessage, rx, rest, 1)
      else
        var rx' := rx.(seqNo := rx.seqNo + 1);
        match OpenNext(suite, first, rx, record)
        case Unopened(description) => Abort(description, rx', rest, 1)
        case Opened(content, payload) => OpenedTurn(isInside, rx', content, payload, rest)
  }

  function TurnOf(suite: Suite, first: bytes, isInside: bool, rx: Rx, stream: bytes): (t: Turn)
    ensures t.Again? ==> |t.rest| < |stream| || (t.rest == stream && |t.rx.buffer| < |rx.buffer|)
  {
    if !isInside && rx.peerClosed then Stop(PeerClosed, rx, stream, 0)
    else
      match Extract(rx.buffer)
      case Overflow => Abort(DecodeError, rx, stream, 0)
      case Whole(message, rest) => HandleTurn(rx.(buffer := rest), message, stream)
      case NeedMore => RecordTurn(suite, first, isInside, rx, stream)
  }

  function Read(suite: Suite, first: bytes, isInside: bool, rx: Rx, stream: bytes): ReadOut
    decreases |stream|, |rx.buffer|
  {
    match TurnOf(suite, first, isInside, rx, stream)
    case Stop(result, rx', rest, used) => ReadOut(result, rx', rest, used, 0)
    case Again(isInside', rx', rest, used, hollow) =>
      var out := Read(suite, first, isInside', rx', rest);
      out.(used := used + out.used, hollow := hollow + out.hollow)
  }

  // ----- the bound on records

  /** The counters stay within their ceilings between turns, and the buffer within a message and a record. */
  predicate Proper(rx: Rx) {
    && rx.empties <= MAX_CONSECUTIVE_EMPTY_RECORDS
    && rx.warnings <= MAX_WARNING_ALERTS
    && rx.keyUpdates <= MAX_KEY_UPDATES
    && rx.tickets <= MAX_CONSECUTIVE_SESSION_TICKETS
    && |rx.buffer| <= MAX_HANDSHAKE_MESSAGE_BODY + 3 + MAX_RECORD_PLAINTEXT
  }

  const MESSAGE_ROOM := MAX_HANDSHAKE_MESSAGE_BODY + 4

  /** What is left before some ceiling ends the read. */
  function Allowance(rx: Rx): int {
    (MAX_CONSECUTIVE_EMPTY_RECORDS + 1 - rx.empties)
    + (MAX_WARNING_ALERTS + 1 - rx.warnings)
    + (MAX_KEY_UPDATES + 1 - rx.keyUpdates + (MAX_CONSECUTIVE_SESSION_TICKETS + 1 - rx.tickets)) * MESSAGE_ROOM
    - |rx.buffer|
  }

  lemma OpenedIsShort(suite: Suite, first: bytes, rx: Rx, record: bytes)
    ensures var r := OpenNext(suite, first, rx, record); r.Opened? ==> |r.payload| <= MAX_RECORD_PLAINTEXT
  {
  }

  /** A turn that left `rx` in hand is paid for. */
  predicate IsPaid(t: Turn, rx: Rx) {
    && (t.Stop? ==> t.used <= 1 && (!t.result.Failed? ==> Proper(t.rx)))
    && (t.Again? ==> Proper(t.rx) && Allowance(t.rx) + t.used <= Allowance(rx) + t.hollow)
  }

  lemma MessageIsPaid(rx: Rx, message: bytes, rest: bytes, stream: bytes)
    requires Proper(rx) && rx.buffer == message + rest && |message| <= MESSAGE_ROOM
    ensures IsPaid(HandleTurn(rx.(buffer := rest), message, stream), rx)
  {
    hide DecodeMessage;
  }

  lemma OpenedIsPaid(isInside: bool, rx: Rx, content: ContentType, payload: bytes, rest: bytes)
    requires Proper(rx) && |rx.buffer| < MESSAGE_ROOM && |payload| <= MAX_RECORD_PLAINTEXT
    ensures IsPaid(OpenedTurn(isInside, rx.(seqNo := rx.seqNo + 1), content, payload, rest), rx)
  {
    hide DecodeAlert;
  }

  lemma RecordIsPaid(suite: Suite, first: bytes, isInside: bool, rx: Rx, stream: bytes)
    requires Proper(rx) && |rx.buffer| < MESSAGE_ROOM
    ensures IsPaid(RecordTurn(suite, first, isInside, rx, stream), rx)
  {
    hide OpenNext, OpenedTurn, Allowance, Proper;
    match FrameRecord(stream)
    case Record(record) =>
      OpenedIsShort(suite, first, rx, record);
      var r := OpenNext(suite, first, rx, record);
      if r.Opened? {
        OpenedIsPaid(isInside, rx, r.content, r.payload, stream[|record|..]);
      }
    case _ =>
  }

  lemma SomethingIsLeft(rx: Rx)
    requires Proper(rx)
    ensures Allowance(rx) >= 1
  {
  }

  /** Each turn is paid for: by a ceiling, by an octet of a message under way, or it was hollow. */
  lemma TurnIsPaid(suite: Suite, first: bytes, isInside: bool, rx: Rx, stream: bytes)
    requires Proper(rx)
    ensures Allowance(rx) >= 1 && IsPaid(TurnOf(suite, first, isInside, rx, stream), rx)
  {
    hide Allowance, HandleTurn, RecordTurn, Extract;
    SomethingIsLeft(rx);
    match Extract(rx.buffer)
    case NeedMore => RecordIsPaid(suite, first, isInside, rx, stream);
    case Whole(message, rest) => MessageIsPaid(rx, message, rest, stream);
    case Overflow =>
  }

  lemma {:induction false} ReadIsPaid(suite: Suite, first: bytes, isInside: bool, rx: Rx, stream: bytes)
    requires Proper(rx)
    ensures var out := Read(suite, first, isInside, rx, stream);
            && out.used <= Allowance(rx) + out.hollow
            && (!out.result.Failed? ==> Proper(out.rx))
    decreases |stream|, |rx.buffer|
  {
    hide TurnOf, Allowance, Proper;
    TurnIsPaid(suite, first, isInside, rx, stream);
    match TurnOf(suite, first, isInside, rx, stream)
    case Stop(_, _, _, _) =>
    case Again(isInside', rx', rest, _, _) => ReadIsPaid(suite, first, isInside', rx', rest);
  }

  const MOST_RECORDS := 4325678

  lemma AllowanceIsBounded(rx: Rx)
    ensures Allowance(rx) <= MOST_RECORDS
  {
    assert (MAX_KEY_UPDATES + 1 - rx.keyUpdates + (MAX_CONSECUTIVE_SESSION_TICKETS + 1 - rx.tickets)) <= 66;
  }

  /**
   `read` cannot be kept busy: whatever the peer sends, one call takes at most 4325678 records beside
   the handshake fragments that carry nothing, and leaves the next call the same bound.
   */
  lemma ReadIsBounded(suite: Suite, first: bytes, rx: Rx, stream: bytes)
    requires Proper(rx)
    ensures var out := Read(suite, first, false, rx, stream);
            && out.used - out.hollow <= MOST_RECORDS
            && (!out.result.Failed? ==> Proper(out.rx))
  {
    hide Read, Proper, Allowance;
    ReadIsPaid(suite, first, false, rx, stream);
    AllowanceIsBounded(rx);
  }

  // ----- the loop in its own form

  class Reader {
    const suite: Suite
    ghost const first: bytes
    const records: RecordReader
    var serverTrafficSecret: bytes
    var serverAppKeys: TrafficKeys
    var handshakeBuffer: seq<bytes>
    /** Sequence number, counters and flags; its generation and buffer are ghost copies. */
    var serverAppSeq: nat
    var emptyPostHandshakeRecords: nat
    var warningAlertsSeen: nat
    var keyUpdatesSeen: nat
    var sessionTicketsSeen: nat
    var peerSentCloseNotify: bool
    var keyUpdateResponseOwed: bool
    ghost var generation: nat

    ghost predicate Valid()
      reads this
    {
      && serverTrafficSecret == SecretAt(suite, first, generation)
      && serverAppKeys == KeysAt(suite, first, generation)
    }

    ghost function State(): Rx
      reads this
    {
      Rx(generation, serverAppSeq, Flatten(handshakeBuffer), emptyPostHandshakeRecords, warningAlertsSeen,
         keyUpdatesSeen, sessionTicketsSeen, peerSentCloseNotify, keyUpdateResponseOwed)
    }

    constructor (suite: Suite, secret: bytes, records: RecordReader)
      ensures Valid() && State() == RX_FRESH
      ensures this.suite == suite && first == secret && this.records == records
    {
      this.suite, first, this.records := suite, secret, records;
      serverTrafficSecret, serverAppKeys := secret, suite.trafficKeys(secret);
      handshakeBuffer := [];
      serverAppSeq, emptyPostHandshakeRecords, warningAlertsSeen, keyUpdatesSeen, sessionTicketsSeen := 0, 0, 0, 0, 0;
      peerSentCloseNotify, keyUpdateResponseOwed := false, false;
      generation := 0;
    }

    method ExtractNext() returns (r: Extracted)
      modifies this`handshakeBuffer
      ensures r == Extract(old(Flatten(handshakeBuffer)))
      ensures Flatten(handshakeBuffer) == if r.Whole? then r.rest else old(Flatten(handshakeBuffer))
    {
      var combined := ConcatByteArrays(handshakeBuffer);
      r := Extract(combined);
      if r.Whole? {
        handshakeBuffer := [];
        if |r.rest| > 0 {
          FlattenOne(r.rest);
          handshakeBuffer := [r.rest];
        }
      }
    }

    /** The server's keys move on. */
    method UpdateServerKeys()
      requires Valid()
      modifies this`serverTrafficSecret, this`serverAppKeys, this`serverAppSeq, this`generation
      ensures Valid() && State() == old(State()).(generation := old(generation) + 1, seqNo := 0)
    {
      serverTrafficSecret := suite.update(serverTrafficSecret);
      serverAppKeys := suite.trafficKeys(serverTrafficSecret);
      serverAppSeq := 0;
      generation := generation + 1;
    }

    /** What a turn leaves; None means the loop goes on. */
    method HandleMessage(message: bytes) returns (result: Option<ReadResult>)
      requires Valid()
      modifies this`sessionTicketsSeen, this`keyUpdatesSeen, this`keyUpdateResponseOwed,
               this`serverTrafficSecret, this`serverAppKeys, this`serverAppSeq, this`generation
      ensures Valid()
      ensures forall stream: bytes :: Outcome(HandleTurn(old(State()), message, stream), result, State())
    {
      hide DecodeMessage;
      var decoded := DecodeMessage(message);
      if decoded.Bad? {
        return Some(Failed(AlertSent(decoded.description)));
      }
      if decoded.value.NewSessionTicket? {
        sessionTicketsSeen := sessionTicketsSeen + 1;
        if sessionTicketsSeen > MAX_CONSECUTIVE_SESSION_TICKETS {
          return Some(Failed(AlertSent(UnexpectedMessage)));
        }
        return None;
      }
      if decoded.value.KeyUpdate? {
        keyUpdatesSeen := keyUpdatesSeen + 1;
        if keyUpdatesSeen > MAX_KEY_UPDATES {
          return Some(Failed(AlertSent(UnexpectedMessage)));
        }
        UpdateServerKeys();
        if decoded.value.requestUpdate {
          keyUpdateResponseOwed := true;
        }
        return None;
      }
      return Some(Failed(AlertSent(UnexpectedMessage)));
    }

    method HandleAlert(payload: bytes) returns (result: Option<ReadResult>)
      requires Valid()
      modifies this`peerSentCloseNotify, this`warningAlertsSeen
      ensures Valid()
      ensures forall stream: bytes :: Outcome(AlertTurn(old(State()), payload, stream), result, State())
    {
      match DecodeAlert(payload)
      case Malformed(description) => return Some(Failed(AlertSent(description)));
      case UnknownAlert(code) => return Some(Failed(AlertReceivedUnknown(code)));
      case KnownAlert(fatal, code) =>
        if code == CLOSE_NOTIFY {
          peerSentCloseNotify := true;
          return Some(PeerClosed);
        }
        if code == USER_CANCELED {
          warningAlertsSeen := warningAlertsSeen + 1;
          if warningAlertsSeen > MAX_WARNING_ALERTS {
            return Some(Failed(AlertSent(UnexpectedMessage)));
          }
          return None;
        }
        return Some(Failed(AlertReceived(fatal, code)));
    }

    method HandleData(payload: bytes) returns (result: Option<ReadResult>)
      requires Valid()
      modifies this`emptyPostHandshakeRecords, this`warningAlertsSeen, this`keyUpdatesSeen, this`sessionTicketsSeen
      ensures Valid()
      ensures forall stream: bytes :: Outcome(DataTurn(old(State()), payload, stream), result, State())
    {
      if |payload| == 0 {
        emptyPostHandshakeRecords := emptyPostHandshakeRecords + 1;
        if emptyPostHandshakeRecords > MAX_CONSECUTIVE_EMPTY_RECORDS {
          return Some(Failed(AlertSent(UnexpectedMessage)));
        }
        return None;
      }
      emptyPostHandshakeRecords, warningAlertsSeen, keyUpdatesSeen, sessionTicketsSeen := 0, 0, 0, 0;
      return Some(Data(payload));
    }

    /** An opened record that is not a handshake record, or a handshake fragment for the buffer. */
    method HandleOpened(isInside: bool, content: ContentType, payload: bytes) returns (result: Option<ReadResult>)
      requires Valid()
      modifies this`handshakeBuffer, this`peerSentCloseNotify, this`emptyPostHandshakeRecords,
               this`warningAlertsSeen, this`keyUpdatesSeen, this`sessionTicketsSeen
      ensures Valid()
      ensures forall stream: bytes :: Outcome(OpenedTurn(isInside, old(State()), content, payload, stream), result, State())
    {
      hide AlertTurn, DataTurn;
      if content == HandshakeContent {
        FlattenConcat(handshakeBuffer, [payload]);
        FlattenOne(payload);
        handshakeBuffer := handshakeBuffer + [payload];
        return None;
      }
      if isInside || content == ChangeCipherSpec {
        return Some(Failed(AlertSent(UnexpectedMessage)));
      }
      if content == ApplicationData {
        result := HandleData(payload);
      } else {
        result := HandleAlert(payload);
      }
    }

    /** One record of the loop: None goes on, inside a fragmented message when it was a handshake record. */
    method ReadOne(isInside: bool) returns (result: Option<ReadResult>, inside: bool)
      requires Valid()
      modifies this, records
      ensures Valid()
      ensures var t := RecordTurn(suite, first, isInside, old(State()), old(records.Remaining()));
              && Outcome(t, result, State()) && records.Remaining() == t.rest
              && (t.Again? ==> inside == t.isInside)
    {
      hide OpenedTurn, KeysAt, SecretAt;
      inside := false;
      ghost var stream := records.Remaining();
      var framed := records.ReadRecord();
      match framed
      case EndOfStream => return Some(Failed(StreamTruncated)), false;
      case Truncated => return Some(Failed(StreamTruncated)), false;
      case TooLong => return Some(Failed(AlertSent(RecordOverflow))), false;
      case Record(record) =>
        RestOfRecord(stream, record, records.Remaining());
        if record[0] != 0x17 {
          return Some(Failed(AlertSent(UnexpectedMessage))), false;
        }
        var unsealed := OpenAead(suite.aead, serverAppKeys, serverAppSeq, record);
        serverAppSeq := serverAppSeq + 1;
        if unsealed.Unopened? {
          return Some(Failed(AlertSent(unsealed.description))), false;
        }
        inside := unsealed.content == HandshakeContent;
        InsideAfter(isInside, State(), unsealed.content, unsealed.payload, records.Remaining());
        result := HandleOpened(isInside, unsealed.content, unsealed.payload);
    }

    /** One turn: a whole message of the buffer, or else a record. */
    method TakeTurn(isInside: bool) returns (result: Option<ReadResult>, inside: bool)
      requires Valid()
      modifies this, records
      ensures Valid()
      ensures var t := TurnOf(suite, first, isInside, old(State()), old(records.Remaining()));
              && Outcome(t, result, State()) && records.Remaining() == t.rest
              && (t.Again? ==> inside == t.isInside)
    {
      hide RecordTurn, HandleTurn, Extract, KeysAt, SecretAt, Flatten;
      if !isInside && peerSentCloseNotify {
        return Some(PeerClosed), false;
      }
      ghost var before := State();
      var extracted := ExtractNext();
      match extracted
      case Overflow => return Some(Failed(AlertSent(DecodeError))), false;
      case Whole(message, rest) =>
        assert State() == before.(buffer := rest);
        MessageLeavesStream(State(), message, records.Remaining());
        inside := false;
        result := HandleMessage(message);
      case NeedMore =>
        assert State() == before;
        result, inside := ReadOne(isInside);
    }

    /** `read`: turns until one answers, whatever the chunks the stream comes in. */
    method ReadNext() returns (result: ReadResult)
      requires Valid()
      modifies this, records
      ensures Valid()
      ensures var out := Read(suite, first, false, old(State()), old(records.Remaining()));
              result == out.result && State() == out.rx && records.Remaining() == out.rest
    {
      hide TurnOf, KeysAt, SecretAt, Flatten;
      ghost var out := Read(suite, first, false, State(), records.Remaining());
      var isInside := false;
      while true
        invariant Valid()
        invariant SameAnswer(out, Read(suite, first, isInside, State(), records.Remaining()))
        decreases |records.Remaining()|, |State().buffer|
      {
        var answer, inside := TakeTurn(isInside);
        if answer.Some? {
          return answer.value;
        }
        isInside := inside;
      }
    }
  }

  lemma MessageLeavesStream(rx: Rx, message: bytes, stream: bytes)
    ensures var t := HandleTurn(rx, message, stream); t.rest == stream && (t.Again? ==> !t.isInside)
  {
    hide DecodeMessage;
  }

  /** A turn's answer and state, whatever it counted. */
  predicate Outcome(t: Turn, result: Option<ReadResult>, rx: Rx) {
    match t
    case Stop(r, rx', _, _) => result == Some(r) && rx == rx'
    case Again(_, rx', _, _, _) => result == None && rx == rx'
  }

  predicate SameAnswer(a: ReadOut, b: ReadOut) {
    a.result == b.result && a.rx == b.rx && a.rest == b.rest
  }

  lemma RestOfRecord(stream: bytes, record: bytes, rest: bytes)
    requires stream == record + rest
    ensures stream[|record|..] == rest
  {
  }

  lemma InsideAfter(isInside: bool, rx: Rx, content: ContentType, payload: bytes, rest: bytes)
    ensures var t := OpenedTurn(isInside, rx, content, payload, rest);
            (t.Again? ==> t.isInside == (content == HandshakeContent)) && t.rest == rest
  {
  }
}
