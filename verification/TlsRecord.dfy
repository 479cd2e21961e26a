/**
 The record layer of `packages/tls/src/record.ts`. The AEAD is a pair of functions with the one law
 used here: opening what was sealed, under the same key, nonce and header, gives the plaintext back,
 and a sealed text is 16 octets longer.
 */
module TlsRecord {
  import opened Bytes
  import opened HandshakeCodec

  const MAX_RECORD_PLAINTEXT := 16384
  const MAX_INNER_PLAINTEXT := 16385

  datatype ContentType = ChangeCipherSpec | AlertContent | HandshakeContent | ApplicationData

  function CodeOf(t: ContentType): byte {
    match t
    case ChangeCipherSpec => 0x14
    case AlertContent => 0x15
    case HandshakeContent => 0x16
    case ApplicationData => 0x17
  }

  function ContentTypeOf(code: byte): Option<ContentType> {
    if code == 0x14 then Some(ChangeCipherSpec)
    else if code == 0x15 then Some(AlertContent)
    else if code == 0x16 then Some(HandshakeContent)
    else if code == 0x17 then Some(ApplicationData)
    else None
  }

  /** The octet that says what a record holds (section 5.1 of RFC 8446), both ways. */
  lemma ContentCodes(t: ContentType, code: byte)
    ensures ContentTypeOf(code) == Some(t) <==> code == CodeOf(t)
    ensures CodeOf(t) == match t
                         case ChangeCipherSpec => 20
                         case AlertContent => 21
                         case HandshakeContent => 22
                         case ApplicationData => 23
  {
  }

  datatype RawKeys = Keys(key: bytes, iv: bytes)

  /** What the key schedule yields: the IV is always 12 octets. */
  type TrafficKeys = k: RawKeys | |k.iv| == 12 witness Keys([], [0, 0, 0, 0, 0, 0, 0, 0, 0, 0, 0, 0])

  datatype Aead = Aead(
    seal: (bytes, bytes, bytes, bytes) -> bytes,
    open: (bytes, bytes, bytes, bytes) -> Option<bytes>)

  ghost predicate Lawful(aead: Aead) {
    forall key: bytes, nonce: bytes, aad: bytes, plain: bytes ::
      && |aead.seal(key, nonce, aad, plain)| == |plain| + 16
      && aead.open(key, nonce, aad, aead.seal(key, nonce, aad, plain)) == Some(plain)
  }

  // ----- nonces

  /** Exclusive or of the low `n` bits. */
  function XorBits(a: nat, b: nat, n: nat): (r: nat)
    ensures r < Power2(n)
  {
    if n == 0 then 0 else (a % 2 + b % 2) % 2 + 2 * XorBits(a / 2, b / 2, n - 1)
  }

  function Power2(n: nat): nat {
    if n == 0 then 1 else 2 * Power2(n - 1)
  }

  function Xor(a: byte, b: byte): byte {
    assert Power2(8) == 256 by {
      assert Power2(4) == 16;
    }
    XorBits(a, b, 8)
  }

  lemma LowBit(a: nat, b: nat, c: nat, x: nat, y: nat)
    requires a < 2 && b < 2 && c < 2 && (a + b) % 2 + 2 * x == (a + c) % 2 + 2 * y
    ensures b == c && x == y
  {
  }

  lemma {:induction false} XorBitsInjective(a: nat, b: nat, c: nat, n: nat)
    requires XorBits(a, b, n) == XorBits(a, c, n) && b < Power2(n) && c < Power2(n)
    ensures b == c
  {
    if n > 0 {
      var x, y := XorBits(a / 2, b / 2, n - 1), XorBits(a / 2, c / 2, n - 1);
      LowBit(a % 2, b % 2, c % 2, x, y);
      XorBitsInjective(a / 2, b / 2, c / 2, n - 1);
    }
  }

  /** The octet of a 64-bit big-endian number at index `i`. */
  function Octet(n: nat, i: nat): byte
    requires i < 8
    decreases 8 - i
  {
    if i == 7 then n % 0x100 else Octet(n / 0x100, i + 1)
  }

  /** RFC 8446 section 5.3: the sequence number, padded on the left, on top of the IV. */
  function NonceOf(iv: bytes, seqNo: nat): (nonce: bytes)
    requires |iv| == 12
    ensures |nonce| == 12
  {
    iv[..4] + seq<byte>(8, i requires 0 <= i < 8 => Xor(iv[4 + i], Octet(seqNo, i)))
  }

  method BuildNonce(iv: bytes, seqNo: nat) returns (r: Option<bytes>)
    ensures r == if |iv| == 12 then Some(NonceOf(iv, seqNo)) else None
  {
    if |iv| != 12 {
      return None;
    }
    var nonce := new byte[12](i requires 0 <= i < 12 => iv[i]);
    for i := 0 to 8
      invariant forall k | 0 <= k < 4 + i :: nonce[k] == NonceOf(iv, seqNo)[k]
      invariant forall k | 4 + i <= k < 12 :: nonce[k] == iv[k]
    {
      nonce[4 + i] := Xor(nonce[4 + i], Octet(seqNo, i));
    }
    assert nonce[..] == NonceOf(iv, seqNo);
    return Some(nonce[..]);
  }

  /** The largest number `k` octets can write, plus one. */
  function OctetRange(k: nat): nat {
    if k == 0 then 1 else 0x100 * OctetRange(k - 1)
  }

  lemma {:induction false} OctetsDetermine(m: nat, n: nat, k: nat)
    requires k <= 8 && m < OctetRange(k) && n < OctetRange(k)
    requires forall i | 8 - k <= i < 8 :: Octet(m, i) == Octet(n, i)
    ensures m == n
  {
    if k > 0 {
      assert Octet(m, 7) == Octet(n, 7);
      forall i | 8 - (k - 1) <= i < 8
        ensures Octet(m / 0x100, i) == Octet(n / 0x100, i)
      {
        assert Octet(m, i - 1) == Octet(n, i - 1);
      }
      OctetsDetermine(m / 0x100, n / 0x100, k - 1);
      assert m == m / 0x100 * 0x100 + m % 0x100 && n == n / 0x100 * 0x100 + n % 0x100;
    }
  }

  /** Under one IV, two 64-bit sequence numbers never share a nonce. */
  lemma NonceInjective(iv: bytes, m: nat, n: nat)
    requires |iv| == 12 && m < OctetRange(8) && n < OctetRange(8)
    requires NonceOf(iv, m) == NonceOf(iv, n)
    ensures m == n
  {
    forall i | 0 <= i < 8
      ensures Octet(m, i) == Octet(n, i)
    {
      assert NonceOf(iv, m)[4 + i] == Xor(iv[4 + i], Octet(m, i));
      assert NonceOf(iv, n)[4 + i] == Xor(iv[4 + i], Octet(n, i));
      assert Power2(4) == 16 && Power2(8) == 256;
      XorBitsInjective(iv[4 + i], Octet(m, i), Octet(n, i), 8);
    }
    OctetsDetermine(m, n, 8);
  }

  /** The bit of `n` that stands for two to the `k`. */
  function Bit(n: nat, k: nat): nat {
    if k == 0 then n % 2 else Bit(n / 2, k - 1)
  }

  /** The number that big-endian octets write. */
  function NumberOf(octets: bytes): nat {
    if octets == [] then 0
    else NumberOf(octets[..|octets| - 1]) * 0x100 + octets[|octets| - 1]
  }

  lemma {:induction false} XorBitsAre(a: nat, b: nat, n: nat, k: nat)
    requires k < n
    ensures Bit(XorBits(a, b, n), k) == 1 <==> Bit(a, k) != Bit(b, k)
  {
    var rest := XorBits(a / 2, b / 2, n - 1);
    assert XorBits(a, b, n) / 2 == rest;
    if k > 0 {
      XorBitsAre(a / 2, b / 2, n - 1, k - 1);
    }
  }

  lemma LowBitUndone(a: nat, b: nat, x: nat)
    requires a < 2 && b < 2
    ensures ((a + b) % 2 + 2 * x) / 2 == x
    ensures (((a + b) % 2 + 2 * x) % 2 + a) % 2 == b
  {
  }

  lemma {:induction false} XorBitsUndone(a: nat, b: nat, n: nat)
    requires b < Power2(n)
    ensures XorBits(XorBits(a, b, n), a, n) == b
  {
    if n > 0 {
      LowBitUndone(a % 2, b % 2, XorBits(a / 2, b / 2, n - 1));
      XorBitsUndone(a / 2, b / 2, n - 1);
    }
  }

  lemma {:induction false} OctetsWrite(n: nat, octets: bytes)
    requires |octets| <= 8 && n < OctetRange(|octets|)
    requires forall i | 0 <= i < |octets| :: octets[i] == Octet(n, 8 - |octets| + i)
    ensures NumberOf(octets) == n
  {
    var k := |octets|;
    if k > 0 {
      var front := octets[..k - 1];
      forall i | 0 <= i < k - 1
        ensures front[i] == Octet(n / 0x100, 8 - (k - 1) + i)
      {
        assert front[i] == Octet(n, 8 - k + i);
      }
      OctetsWrite(n / 0x100, front);
      assert octets[k - 1] == Octet(n, 7);
    }
  }

  /**
   The nonce begins as the IV does; its last eight octets, exclusive or those of the IV bit by bit,
   are the sequence number in big-endian order.
   */
  lemma NonceIs(iv: bytes, seqNo: nat)
    requires |iv| == 12 && seqNo < OctetRange(8)
    ensures NonceOf(iv, seqNo)[..4] == iv[..4]
    ensures NumberOf(seq<byte>(8, i requires 0 <= i < 8 => Xor(NonceOf(iv, seqNo)[4 + i], iv[4 + i]))) == seqNo
    ensures forall a: byte, b: byte, k | 0 <= k < 8 :: Bit(Xor(a, b), k) == 1 <==> Bit(a, k) != Bit(b, k)
  {
    var nonce := NonceOf(iv, seqNo);
    var octets := seq<byte>(8, i requires 0 <= i < 8 => Xor(nonce[4 + i], iv[4 + i]));
    forall i | 0 <= i < 8
      ensures octets[i] == Octet(seqNo, i)
    {
      assert Power2(4) == 16 && Power2(8) == 256;
      XorBitsUndone(iv[4 + i], Octet(seqNo, i), 8);
    }
    OctetsWrite(seqNo, octets);
    forall a: byte, b: byte, k | 0 <= k < 8
      ensures Bit(Xor(a, b), k) == 1 <==> Bit(a, k) != Bit(b, k)
    {
      XorBitsAre(a, b, 8, k);
    }
  }

  // ----- sealing and opening

  function Zeros(n: nat): (r: bytes)
    ensures |r| == n && forall i | 0 <= i < n :: r[i] == 0
  {
    seq<byte>(n, _ => 0)
  }

  function RecordHeader(length: nat): (r: bytes)
    ensures |r| == 5
  {
    [0x17, 0x03, 0x03, length / 0x100 % 0x100, length % 0x100]
  }

  /** None where sealing throws `record_overflow`. */
  function SealAead(aead: Aead, keys: TrafficKeys, seqNo: nat, t: ContentType, payload: bytes, padding: nat): Option<bytes> {
    if |payload| > MAX_RECORD_PLAINTEXT then None
    else
      var inner := payload + [CodeOf(t)] + Zeros(padding);
      var length := |inner| + 16;
      if length > MAX_RECORD_PLAINTEXT + 256 then None
      else
        var aad := RecordHeader(length);
        Some(aad + aead.seal(keys.key, NonceOf(keys.iv, seqNo), aad, inner))
  }

  datatype OpenResult = Opened(content: ContentType, payload: bytes) | Unopened(description: AlertDescription)

  /** Where the padding of an inner plaintext begins: past the last octet that is not zero. */
  function ContentEnd(inner: bytes, until: nat): (r: nat)
    requires until <= |inner|
    ensures r <= until
    ensures forall i | r <= i < until :: inner[i] == 0
    ensures r > 0 ==> inner[r - 1] != 0
  {
    if until == 0 || inner[until - 1] != 0 then until else ContentEnd(inner, until - 1)
  }

  function OpenInner(inner: bytes): OpenResult {
    if |inner| > MAX_INNER_PLAINTEXT then Unopened(RecordOverflow)
    else
      var end := ContentEnd(inner, |inner|);
      if end == 0 then Unopened(UnexpectedMessage)
      else
        match ContentTypeOf(inner[end - 1])
        case None => Unopened(UnexpectedMessage)
        case Some(t) => Opened(t, inner[..end - 1])
  }

  function OpenAead(aead: Aead, keys: TrafficKeys, seqNo: nat, record: bytes): OpenResult {
    if |record| < 5 || record[0] != 0x17 || Get16(record[1..]) != 0x0303 then Unopened(DecodeError)
    else
      var length := Get16(record[3..]);
      if length > MAX_RECORD_PLAINTEXT + 256 then Unopened(RecordOverflow)
      else if |record| != 5 + length then Unopened(DecodeError)
      else if length < 17 then Unopened(BadRecordMac)
      else
        match aead.open(keys.key, NonceOf(keys.iv, seqNo), record[..5], record[5..])
        case None => Unopened(BadRecordMac)
        case Some(inner) => OpenInner(inner)
  }

  method StripPadding(inner: bytes) returns (r: OpenResult)
    requires |inner| <= MAX_INNER_PLAINTEXT
    ensures r == OpenInner(inner)
  {
    var i := |inner| - 1;
    while i >= 0 && inner[i] == 0
      invariant -1 <= i < |inner|
      invariant ContentEnd(inner, |inner|) == ContentEnd(inner, i + 1)
    {
      i := i - 1;
    }
    if i < 0 {
      return Unopened(UnexpectedMessage);
    }
    var t := ContentTypeOf(inner[i]);
    if t == None {
      return Unopened(UnexpectedMessage);
    }
    return Opened(t.value, inner[..i]);
  }

  lemma ContentEndIs(inner: bytes, end: nat, until: nat)
    requires end <= until <= |inner| && (end > 0 ==> inner[end - 1] != 0)
    requires forall i | end <= i < until :: inner[i] == 0
    ensures ContentEnd(inner, until) == end
    decreases until
  {
    if until > end {
      ContentEndIs(inner, end, until - 1);
    }
  }

  /** The inner plaintext gives type and payload back while it is within 2^14 + 1 octets, padding included. */
  lemma InnerRoundTrip(t: ContentType, payload: bytes, padding: nat)
    ensures OpenInner(payload + [CodeOf(t)] + Zeros(padding))
         == if |payload| + 1 + padding <= MAX_INNER_PLAINTEXT then Opened(t, payload) else Unopened(RecordOverflow)
  {
    var inner := payload + [CodeOf(t)] + Zeros(padding);
    var end := |payload| + 1;
    assert inner[end - 1] == CodeOf(t);
    forall i | end <= i < |inner|
      ensures inner[i] == 0
    {
      assert inner[i] == Zeros(padding)[i - end];
    }
    ContentEndIs(inner, end, |inner|);
    assert inner[..end - 1] == payload;
  }

  lemma HeaderFields(length: nat, rest: bytes)
    requires length < 0x10000
    ensures var record := RecordHeader(length) + rest;
            && record[0] == 0x17 && Get16(record[1..]) == 0x0303 && Get16(record[3..]) == length
            && record[..5] == RecordHeader(length) && record[5..] == rest
  {
    var record := RecordHeader(length) + rest;
    assert record[1..][0] == 0x03 && record[1..][1] == 0x03;
    assert record[3..][0] == length / 0x100 % 0x100 && record[3..][1] == length % 0x100;
  }

  /** What one side seals, the other opens, under the same keys and sequence number. */
  lemma SealOpen(aead: Aead, keys: TrafficKeys, seqNo: nat, t: ContentType, payload: bytes, padding: nat)
    requires Lawful(aead)
    requires SealAead(aead, keys, seqNo, t, payload, padding).Some?
    ensures var record := SealAead(aead, keys, seqNo, t, payload, padding).value;
            && |record| == 22 + |payload| + padding
            && record[0] == 0x17 && Get16(record[3..]) == |record| - 5
            && |record| - 5 <= MAX_RECORD_PLAINTEXT + 256
            && OpenAead(aead, keys, seqNo, record)
               == if |payload| + 1 + padding <= MAX_INNER_PLAINTEXT then Opened(t, payload)
                  else Unopened(RecordOverflow)
  {
    hide NonceOf, OpenInner;
    var inner := payload + [CodeOf(t)] + Zeros(padding);
    var length := |inner| + 16;
    var aad := RecordHeader(length);
    var sealed := aead.seal(keys.key, NonceOf(keys.iv, seqNo), aad, inner);
    assert aead.open(keys.key, NonceOf(keys.iv, seqNo), aad, sealed) == Some(inner);
    HeaderFields(length, sealed);
    InnerRoundTrip(t, payload, padding);
  }

  // ----- records off a stream

  datatype Framed =
    | Record(record: bytes)
    | EndOfStream
    | Truncated
    | TooLong

  /** One record at the front of a stream; only a finished record is taken off. */
  function FrameRecord(stream: bytes): Framed {
    if |stream| < 5 then if stream == [] then EndOfStream else Truncated
    else
      var length := Get16(stream[3..]);
      if length > MAX_RECORD_PLAINTEXT + 256 then TooLong
      else if |stream| < 5 + length then Truncated
      else Record(stream[..5 + length])
  }

  class RecordReader {
    var buffer: bytes
    /** What the transport has yet to deliver; then it answers null. */
    var incoming: seq<bytes>

    ghost function Remaining(): bytes
      reads this
    {
      buffer + Flatten(incoming)
    }

    constructor (incoming: seq<bytes>)
      ensures Remaining() == Flatten(incoming)
    {
      buffer := [];
      this.incoming := incoming;
      new;
      assert [] + Flatten(incoming) == Flatten(incoming);
    }

    method FillTo(n: nat) returns (filled: bool)
      modifies this
      ensures Remaining() == old(Remaining())
      ensures filled <==> |old(Remaining())| >= n
      ensures filled ==> |buffer| >= n
      ensures !filled ==> buffer == old(Remaining())
    {
      while |buffer| < n
        invariant Remaining() == old(Remaining())
        decreases |incoming|
      {
        if incoming == [] {
          assert buffer + [] == buffer;
          return false;
        }
        assert buffer + Flatten(incoming) == buffer + incoming[0] + Flatten(incoming[1..]);
        buffer := buffer + incoming[0];
        incoming := incoming[1..];
      }
      return true;
    }

    /** Reads the same record however the stream was cut into chunks. */
    method ReadRecord() returns (r: Framed)
      modifies this
      ensures r == FrameRecord(old(Remaining()))
      ensures r.Record? ==> old(Remaining()) == r.record + Remaining()
      ensures !r.Record? ==> Remaining() == old(Remaining())
    {
      ghost var stream := Remaining();
      var hasHeader := FillTo(5);
      if !hasHeader {
        return if |buffer| == 0 then EndOfStream else Truncated;
      }
      assert stream[3..][0] == buffer[3] && stream[3..][1] == buffer[4];
      var length := Get16(buffer[3..]);
      if length > MAX_RECORD_PLAINTEXT + 256 {
        return TooLong;
      }
      var total := 5 + length;
      var hasBody := FillTo(total);
      if !hasBody {
        return Truncated;
      }
      var record := buffer[..total];
      assert record == stream[..total];
      buffer := buffer[total..];
      assert stream == record + Remaining();
      return Record(record);
    }
  }
}
