/**
 Records before encryption (`packages/tls/src/record.ts`) and the fragmented ClientHello
 (`packages/tls/src/handshake.ts`): whatever its length, what goes out reads back as the one message.
 */
module PlainRecords {
  import opened Bytes
  import opened HandshakeCodec
  import opened TlsRecord

  /** None where sealing throws. */
  function SealPlain(t: ContentType, payload: bytes, version: nat): Option<bytes> {
    if |payload| > MAX_RECORD_PLAINTEXT then None
    else Some([CodeOf(t)] + Put16(version) + Put16(|payload|) + payload)
  }

  /** The version is ignored; the type has to be one of the four. */
  function OpenPlain(record: bytes): OpenResult {
    if |record| < 5 then Unopened(DecodeError)
    else
      var length := Get16(record[3..]);
      if length > MAX_RECORD_PLAINTEXT then Unopened(RecordOverflow)
      else if |record| != 5 + length then Unopened(DecodeError)
      else
        match ContentTypeOf(record[0])
        case None => Unopened(DecodeError)
        case Some(t) => Opened(t, record[5..])
  }

  lemma PlainRoundTrip(t: ContentType, payload: bytes, version: nat, tail: bytes)
    requires |payload| <= MAX_RECORD_PLAINTEXT
    ensures var record := SealPlain(t, payload, version).value;
            && OpenPlain(record) == Opened(t, payload)
            && FrameRecord(record + tail) == Framed.Record(record) && (record + tail)[|record|..] == tail
  {
    var record := SealPlain(t, payload, version).value;
    assert record[3..][0] == |payload| / 0x100 % 0x100 && record[3..][1] == |payload| % 0x100;
    assert (record + tail)[3..][0] == record[3..][0] && (record + tail)[3..][1] == record[3..][1];
    assert (record + tail)[..|record|] == record;
    assert record[5..] == payload;
  }

  /** One record for each 2^14 octets of a ClientHello. */
  function ClientHelloRecords(message: bytes, version: nat): seq<bytes>
    decreases |message|
  {
    if message == [] then []
    else
      var n := if |message| < MAX_RECORD_PLAINTEXT then |message| else MAX_RECORD_PLAINTEXT;
      [SealPlain(HandshakeContent, message[..n], version).value] + ClientHelloRecords(message[n..], version)
  }

  /** `n` handshake records off a stream, their payloads put together. */
  function ReadHandshakeRecords(stream: bytes, n: nat): Option<(bytes, bytes)> {
    if n == 0 then Some(([], stream))
    else
      match FrameRecord(stream)
      case Record(record) =>
        (match OpenPlain(record)
         case Opened(HandshakeContent, payload) =>
           (match ReadHandshakeRecords(stream[|record|..], n - 1)
            case None => None
            case Some((more, rest)) => Some((payload + more, rest)))
         case _ => None)
      case _ => None
  }

  /** A ClientHello longer than a record arrives whole. */
  lemma {:induction false} ClientHelloArrives(message: bytes, version: nat, tail: bytes)
    ensures var records := ClientHelloRecords(message, version);
            ReadHandshakeRecords(Flatten(records) + tail, |records|) == Some((message, tail))
    decreases |message|
  {
    hide SealPlain, OpenPlain, FrameRecord;
    if message == [] {
      assert [] + tail == tail;
    } else {
      var n := if |message| < MAX_RECORD_PLAINTEXT then |message| else MAX_RECORD_PLAINTEXT;
      PlainFits(message[..n], version);
      var record := SealPlain(HandshakeContent, message[..n], version).value;
      var more := ClientHelloRecords(message[n..], version);
      ClientHelloArrives(message[n..], version, tail);
      assert ([record] + more)[1..] == more;
      ConcatAssoc(record, Flatten(more), tail);
      PlainRoundTrip(HandshakeContent, message[..n], version, Flatten(more) + tail);
      assert message[..n] + message[n..] == message;
    }
  }

  lemma PlainFits(payload: bytes, version: nat)
    requires |payload| <= MAX_RECORD_PLAINTEXT
    ensures SealPlain(HandshakeContent, payload, version).Some?
  {
  }
}
