/**
 The TLS 1.3 handshake message codec of `packages/tls/src/handshake-messages.ts` (section 4 of
 RFC 8446 and its successor): length-prefixed lists inside length-prefixed lists. Server names are
 kept as the UTF-8 the wire carries.
 */
module HandshakeCodec {
  import opened Bytes

  datatype AlertDescription =
    | CloseNotify | UnexpectedMessage | BadRecordMac | RecordOverflow | IllegalParameter
    | DecodeError | DecryptError | ProtocolVersion | UserCanceled | MissingExtension
    | UnsupportedExtension | BadCertificate | OtherDescription(code: byte)

  datatype Decoded<+T> = Ok(value: T) | Bad(description: AlertDescription)

  datatype KeyShareEntry = KeyShareEntry(group: nat, keyExchange: bytes)
  datatype PskIdentity = PskIdentity(identity: bytes, obfuscatedTicketAge: nat)

  datatype Extension =
    | ServerName(names: seq<bytes>)
    | SupportedGroups(groups: seq<nat>)
    | SignatureAlgorithms(schemes: seq<nat>)
    | SignatureAlgorithmsCert(schemes: seq<nat>)
    | Padding(length: nat)
    | SupportedVersions(versions: seq<nat>, isServerHello: bool)
    | KeyShare(clientShares: Option<seq<KeyShareEntry>>, serverShare: Option<KeyShareEntry>, selectedGroup: Option<nat>)
    | Cookie(cookie: bytes)
    | PreSharedKey(identities: Option<seq<PskIdentity>>, binders: Option<seq<bytes>>, selectedIdentity: Option<nat>)
    | PskKeyExchangeModes(modes: bytes)
    | EarlyData(maxEarlyDataSize: Option<nat>)
    | Unknown(typeCode: nat, data: bytes)

  datatype CertificateEntry = CertificateEntry(certData: bytes, extensions: seq<Extension>, rawExtensions: Option<bytes>)

  datatype Message =
    | ClientHello(legacyVersion: nat, random: bytes, legacySessionId: bytes, cipherSuites: seq<nat>,
                  compressionMethods: bytes, extensions: seq<Extension>)
    | ServerHello(legacyVersion: nat, random: bytes, sessionIdEcho: bytes, cipherSuite: nat,
                  compressionMethod: nat, extensions: seq<Extension>)
    | EncryptedExtensions(extensions: seq<Extension>)
    | Certificate(context: bytes, certificateList: seq<CertificateEntry>)
    | CertificateRequest(context: bytes, extensions: seq<Extension>)
    | CertificateVerify(scheme: nat, signature: bytes)
    | Finished(verifyData: bytes)
    | NewSessionTicket(ticketLifetime: nat, ticketAgeAdd: nat, ticketNonce: bytes, ticket: bytes,
                       extensions: seq<Extension>)
    | KeyUpdate(requestUpdate: bool)
    | EndOfEarlyData

  /** Where an extension stands decides whether it is parsed at all. */
  datatype Context = InClientHello | InServerHello | InRetryRequest | Elsewhere
  {
    predicate IsHello() {
      this != Elsewhere
    }
  }

  const HRR_MAGIC: bytes := [
    0xcf, 0x21, 0xad, 0x74, 0xe5, 0x9a, 0x61, 0x11, 0xbe, 0x1d, 0x8c, 0x02, 0x1e, 0x65, 0xb8, 0x91,
    0xc2, 0xa2, 0x11, 0x16, 0x7a, 0xbb, 0x8c, 0x5e, 0x07, 0x9e, 0x09, 0xe2, 0xc8, 0xa8, 0x33, 0x9c]

  // ----- integers and vectors

  function Put8(n: nat): (r: bytes) {
    [n % 0x100]
  }

  function Put16(n: nat): (r: bytes) {
    [n / 0x100 % 0x100, n % 0x100]
  }

  function Put24(n: nat): (r: bytes) {
    [n / 0x10000 % 0x100, n / 0x100 % 0x100, n % 0x100]
  }

  function Put32(n: nat): (r: bytes) {
    [n / 0x1000000 % 0x100, n / 0x10000 % 0x100, n / 0x100 % 0x100, n % 0x100]
  }

  function Get8(bs: bytes): nat
    requires |bs| >= 1
  {
    bs[0]
  }

  function Get16(bs: bytes): nat
    requires |bs| >= 2
  {
    bs[0] as int * 0x100 + bs[1] as int
  }

  function Get24(bs: bytes): nat
    requires |bs| >= 3
  {
    bs[0] as int * 0x10000 + bs[1] as int * 0x100 + bs[2] as int
  }

  function Get32(bs: bytes): nat
    requires |bs| >= 4
  {
    bs[0] as int * 0x1000000 + bs[1] as int * 0x10000 + bs[2] as int * 0x100 + bs[3] as int
  }

  /** A vector in front of the rest; None when its length runs past the end. */
  function Take(n: nat, bs: bytes): Option<(bytes, bytes)> {
    if n <= |bs| then Some((bs[..n], bs[n..])) else None
  }

  function Vec8(bs: bytes): Option<(bytes, bytes)> {
    if |bs| < 1 then None else Take(Get8(bs), bs[1..])
  }

  function Vec16(bs: bytes): Option<(bytes, bytes)> {
    if |bs| < 2 then None else Take(Get16(bs), bs[2..])
  }

  function Vec24(bs: bytes): Option<(bytes, bytes)> {
    if |bs| < 3 then None else Take(Get24(bs), bs[3..])
  }

  /** A vector that must be all there is. */
  function Whole8(bs: bytes): Option<bytes> {
    match Vec8(bs)
    case Some((content, rest)) => if rest == [] then Some(content) else None
    case None => None
  }

  function Whole16(bs: bytes): Option<bytes> {
    match Vec16(bs)
    case Some((content, rest)) => if rest == [] then Some(content) else None
    case None => None
  }

  function PutVec8(content: bytes): bytes {
    Put8(|content|) + content
  }

  function PutVec16(content: bytes): bytes {
    Put16(|content|) + content
  }

  function PutVec24(content: bytes): bytes {
    Put24(|content|) + content
  }

  lemma GetPut(n: nat, rest: bytes)
    ensures n < 0x100 ==> Get8(Put8(n) + rest) == n
    ensures n < 0x10000 ==> Get16(Put16(n) + rest) == n
    ensures n < 0x1000000 ==> Get24(Put24(n) + rest) == n
    ensures n < 0x100000000 ==> Get32(Put32(n) + rest) == n
    ensures (Put8(n) + rest)[1..] == rest && (Put16(n) + rest)[2..] == rest
    ensures (Put24(n) + rest)[3..] == rest && (Put32(n) + rest)[4..] == rest
  {
    Digits256(n);
  }

  lemma Digits256(n: nat)
    ensures n < 0x10000 ==> n / 0x100 % 0x100 * 0x100 + n % 0x100 == n
    ensures n < 0x1000000 ==> n / 0x10000 % 0x100 * 0x10000 + n / 0x100 % 0x100 * 0x100 + n % 0x100 == n
    ensures n < 0x100000000 ==>
              n / 0x1000000 % 0x100 * 0x1000000 + n / 0x10000 % 0x100 * 0x10000 + n / 0x100 % 0x100 * 0x100 + n % 0x100 == n
  {
    var a, b, c := n / 0x100, n / 0x10000, n / 0x1000000;
    assert n == a * 0x100 + n % 0x100;
    assert a == b * 0x100 + a % 0x100 by { assert b == a / 0x100; }
    assert b == c * 0x100 + b % 0x100 by { assert c == b / 0x100; }
  }

  lemma TakeOf(content: bytes, rest: bytes)
    ensures Take(|content|, content + rest) == Some((content, rest))
  {
    assert (content + rest)[..|content|] == content && (content + rest)[|content|..] == rest;
  }

  lemma VecOf(content: bytes, rest: bytes)
    ensures |content| < 0x100 ==> Vec8(PutVec8(content) + rest) == Some((content, rest))
    ensures |content| < 0x10000 ==> Vec16(PutVec16(content) + rest) == Some((content, rest))
    ensures |content| < 0x1000000 ==> Vec24(PutVec24(content) + rest) == Some((content, rest))
    ensures |PutVec8(content)| == 1 + |content|
    ensures |PutVec16(content)| == 2 + |content| && |PutVec24(content)| == 3 + |content|
  {
    hide Get8, Get16, Get24, Put8, Put16, Put24, Take;
    TakeOf(content, rest);
    GetPut(|content|, content + rest);
    ConcatAssoc(Put8(|content|), content, rest);
    ConcatAssoc(Put16(|content|), content, rest);
    ConcatAssoc(Put24(|content|), content, rest);
    PutLengths(|content|);
  }

  lemma PutLengths(n: nat)
    ensures |Put8(n)| == 1 && |Put16(n)| == 2 && |Put24(n)| == 3 && |Put32(n)| == 4
  {
  }

  lemma WholeOf(content: bytes)
    ensures |content| < 0x100 ==> Whole8(PutVec8(content)) == Some(content)
    ensures |content| < 0x10000 ==> Whole16(PutVec16(content)) == Some(content)
  {
    VecOf(content, []);
    assert PutVec8(content) + [] == PutVec8(content) && PutVec16(content) + [] == PutVec16(content);
  }

  // ----- lists of fixed shape

  function PutU16s(ns: seq<nat>): (r: bytes)
    ensures |r| == 2 * |ns|
  {
    if ns == [] then [] else Put16(ns[0]) + PutU16s(ns[1..])
  }

  function GetU16s(bs: bytes): seq<nat>
    requires |bs| % 2 == 0
  {
    if bs == [] then [] else [Get16(bs)] + GetU16s(bs[2..])
  }

  predicate AllU16(ns: seq<nat>) {
    forall k | 0 <= k < |ns| :: ns[k] < 0x10000
  }

  lemma {:induction false} U16sRoundTrip(ns: seq<nat>)
    requires AllU16(ns)
    ensures GetU16s(PutU16s(ns)) == ns
  {
    if ns != [] {
      GetPut(ns[0], PutU16s(ns[1..]));
      U16sRoundTrip(ns[1..]);
    }
  }

  function PutNames(names: seq<bytes>): bytes {
    if names == [] then [] else Put8(0) + PutVec16(names[0]) + PutNames(names[1..])
  }

  /** Names of type 0; an entry of another type is skipped. */
  function GetNames(bs: bytes): Option<seq<bytes>>
    decreases |bs|
  {
    if bs == [] then Some([])
    else
      match Vec16(bs[1..])
      case None => None
      case Some((name, rest)) =>
        match GetNames(rest)
        case None => None
        case Some(names) => Some(if bs[0] == 0 then [name] + names else names)
  }

  predicate AllVec16(parts: seq<bytes>) {
    forall k | 0 <= k < |parts| :: |parts[k]| < 0x10000
  }

  lemma {:induction false} NamesRoundTrip(names: seq<bytes>)
    requires AllVec16(names)
    ensures GetNames(PutNames(names)) == Some(names)
  {
    hide Vec16, PutVec16;
    if names != [] {
      var rest := PutNames(names[1..]);
      NamesRoundTrip(names[1..]);
      VecOf(names[0], rest);
      var bs := PutNames(names);
      assert bs == [0] + (PutVec16(names[0]) + rest);
      assert bs[1..] == PutVec16(names[0]) + rest;
      assert [names[0]] + names[1..] == names;
    }
  }

  function PutShares(shares: seq<KeyShareEntry>): bytes {
    if shares == [] then []
    else Put16(shares[0].group) + PutVec16(shares[0].keyExchange) + PutShares(shares[1..])
  }

  function GetShares(bs: bytes): Option<seq<KeyShareEntry>>
    decreases |bs|
  {
    if bs == [] then Some([])
    else if |bs| < 2 then None
    else
      match Vec16(bs[2..])
      case None => None
      case Some((key, rest)) =>
        match GetShares(rest)
        case None => None
        case Some(shares) => Some([KeyShareEntry(Get16(bs), key)] + shares)
  }

  predicate ShareFits(share: KeyShareEntry) {
    share.group < 0x10000 && |share.keyExchange| < 0x10000
  }

  lemma {:induction false} SharesRoundTrip(shares: seq<KeyShareEntry>)
    requires forall k | 0 <= k < |shares| :: ShareFits(shares[k])
    ensures GetShares(PutShares(shares)) == Some(shares)
  {
    hide Vec16, PutVec16, Get16, Put16;
    if shares != [] {
      var share, rest := shares[0], PutShares(shares[1..]);
      assert ShareFits(share);
      SharesRoundTrip(shares[1..]);
      VecOf(share.keyExchange, rest);
      var tail := PutVec16(share.keyExchange) + rest;
      GetPut(share.group, tail);
      PutLengths(share.group);
      assert PutShares(shares) == Put16(share.group) + tail;
      assert [share] + shares[1..] == shares;
    }
  }

  function PutIdentities(ids: seq<PskIdentity>): bytes {
    if ids == [] then []
    else PutVec16(ids[0].identity) + Put32(ids[0].obfuscatedTicketAge) + PutIdentities(ids[1..])
  }

  function GetIdentities(bs: bytes): Option<seq<PskIdentity>>
    decreases |bs|
  {
    if bs == [] then Some([])
    else
      match Vec16(bs)
      case None => None
      case Some((identity, rest)) =>
        if |rest| < 4 then None
        else
          match GetIdentities(rest[4..])
          case None => None
          case Some(ids) => Some([PskIdentity(identity, Get32(rest))] + ids)
  }

  predicate IdentityFits(id: PskIdentity) {
    |id.identity| < 0x10000 && id.obfuscatedTicketAge < 0x100000000
  }

  lemma {:induction false} IdentitiesRoundTrip(ids: seq<PskIdentity>)
    requires forall k | 0 <= k < |ids| :: IdentityFits(ids[k])
    ensures GetIdentities(PutIdentities(ids)) == Some(ids)
  {
    hide Vec16, PutVec16, Get32, Put32;
    if ids != [] {
      var id, rest := ids[0], PutIdentities(ids[1..]);
      assert IdentityFits(id);
      IdentitiesRoundTrip(ids[1..]);
      var tail := Put32(id.obfuscatedTicketAge) + rest;
      GetPut(id.obfuscatedTicketAge, rest);
      PutLengths(id.obfuscatedTicketAge);
      VecOf(id.identity, tail);
      assert PutIdentities(ids) == PutVec16(id.identity) + tail;
      assert [id] + ids[1..] == ids;
    }
  }

  function PutBinders(binders: seq<bytes>): bytes {
    if binders == [] then [] else PutVec8(binders[0]) + PutBinders(binders[1..])
  }

  function GetBinders(bs: bytes): Option<seq<bytes>>
    decreases |bs|
  {
    if bs == [] then Some([])
    else
      match Vec8(bs)
      case None => None
      case Some((binder, rest)) =>
        match GetBinders(rest)
        case None => None
        case Some(binders) => Some([binder] + binders)
  }

  lemma {:induction false} BindersRoundTrip(binders: seq<bytes>)
    requires forall k | 0 <= k < |binders| :: |binders[k]| < 0x100
    ensures GetBinders(PutBinders(binders)) == Some(binders)
  {
    hide Vec8, PutVec8;
    if binders != [] {
      BindersRoundTrip(binders[1..]);
      VecOf(binders[0], PutBinders(binders[1..]));
      assert [binders[0]] + binders[1..] == binders;
    }
  }
}
