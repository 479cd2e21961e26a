/** Extensions and whole messages of `packages/tls/src/handshake-messages.ts`; decoding undoes encoding. */
module HandshakeMessages {
  import opened Bytes
  import opened HandshakeCodec

  // ----- one extension

  function TypeCodeOf(e: Extension): nat {
    match e
    case ServerName(_) => 0
    case SupportedGroups(_) => 10
    case SignatureAlgorithms(_) => 13
    case Padding(_) => 21
    case PreSharedKey(_, _, _) => 41
    case EarlyData(_) => 42
    case SupportedVersions(_, _) => 43
    case Cookie(_) => 44
    case PskKeyExchangeModes(_) => 45
    case SignatureAlgorithmsCert(_) => 50
    case KeyShare(_, _, _) => 51
    case Unknown(code, _) => code
  }

  function BodyOf(e: Extension): bytes {
    match e
    case ServerName(names) => if names == [] then [] else PutVec16(PutNames(names))
    case SupportedGroups(groups) => PutVec16(PutU16s(groups))
    case SignatureAlgorithms(schemes) => PutVec16(PutU16s(schemes))
    case SignatureAlgorithmsCert(schemes) => PutVec16(PutU16s(schemes))
    case Padding(length) => seq<byte>(length, _ => 0)
    case SupportedVersions(versions, isServerHello) =>
      if isServerHello then Put16(if versions == [] then 0x0304 else versions[0])
      else PutVec8(PutU16s(versions))
    case KeyShare(clientShares, serverShare, selectedGroup) =>
      if clientShares.Some? then PutVec16(PutShares(clientShares.value))
      else if serverShare.Some? then Put16(serverShare.value.group) + PutVec16(serverShare.value.keyExchange)
      else if selectedGroup.Some? then Put16(selectedGroup.value)
      else []
    case Cookie(cookie) => PutVec16(cookie)
    case PreSharedKey(identities, binders, selectedIdentity) =>
      if selectedIdentity.Some? then Put16(selectedIdentity.value)
      else if identities.None? then []
      else if binders.Some? then PutVec16(PutIdentities(identities.value)) + PutVec16(PutBinders(binders.value))
      else PutVec16(PutIdentities(identities.value))
    case PskKeyExchangeModes(modes) => PutVec8(modes)
    case EarlyData(size) => if size.Some? then Put32(size.value) else []
    case Unknown(_, data) => data
  }

  /** No integer of the body is refused by its writer. */
  predicate BodyFits(e: Extension) {
    match e
    case ServerName(names) => names != [] ==> AllVec16(names) && |PutNames(names)| < 0x10000
    case SupportedGroups(groups) => AllU16(groups) && 2 * |groups| < 0x10000
    case SignatureAlgorithms(schemes) => AllU16(schemes) && 2 * |schemes| < 0x10000
    case SignatureAlgorithmsCert(schemes) => AllU16(schemes) && 2 * |schemes| < 0x10000
    case Padding(_) => true
    case SupportedVersions(versions, isServerHello) =>
      if isServerHello then versions != [] ==> versions[0] < 0x10000
      else AllU16(versions) && 2 * |versions| < 0x100
    case KeyShare(clientShares, serverShare, selectedGroup) =>
      if clientShares.Some? then
        (forall k | 0 <= k < |clientShares.value| :: ShareFits(clientShares.value[k]))
        && |PutShares(clientShares.value)| < 0x10000
      else if serverShare.Some? then ShareFits(serverShare.value)
      else selectedGroup.Some? ==> selectedGroup.value < 0x10000
    case Cookie(cookie) => |cookie| < 0x10000
    case PreSharedKey(identities, binders, selectedIdentity) =>
      if selectedIdentity.Some? then selectedIdentity.value < 0x10000
      else identities.Some? ==>
        && (forall k | 0 <= k < |identities.value| :: |identities.value[k].identity| < 0x10000)
        && |PutIdentities(identities.value)| < 0x10000
        && (binders.Some? ==>
              && (forall k | 0 <= k < |binders.value| :: |binders.value[k]| < 0x100)
              && |PutBinders(binders.value)| < 0x10000)
    case PskKeyExchangeModes(modes) => |modes| < 0x100
    case EarlyData(_) => true
    case Unknown(code, _) => true
  }

  predicate Encodable(e: Extension) {
    TypeCodeOf(e) < 0x10000 && BodyFits(e) && |BodyOf(e)| < 0x10000
  }

  function DecodeU16List(data: bytes): Option<seq<nat>> {
    match Whole16(data)
    case None => None
    case Some(list) => if |list| % 2 == 0 then Some(GetU16s(list)) else None
  }

  function DecodeServerName(data: bytes): Option<Extension> {
    if data == [] then Some(ServerName([]))
    else
      match Whole16(data)
      case None => None
      case Some(list) =>
        match GetNames(list)
        case None => None
        case Some(names) => Some(ServerName(names))
  }

  function DecodeVersions(data: bytes, context: Context): Option<Extension> {
    if context == InServerHello || context == InRetryRequest then
      if |data| == 2 then Some(SupportedVersions([Get16(data)], true)) else None
    else
      match Whole8(data)
      case None => None
      case Some(list) => if |list| % 2 == 0 then Some(SupportedVersions(GetU16s(list), false)) else None
  }

  function DecodeKeyShare(data: bytes, context: Context): Option<Extension> {
    if context == InRetryRequest then
      if |data| == 2 then Some(KeyShare(None, None, Some(Get16(data)))) else None
    else if context == InServerHello then
      if |data| < 4 then None
      else
        match Whole16(data[2..])
        case None => None
        case Some(key) => Some(KeyShare(None, Some(KeyShareEntry(Get16(data), key)), None))
    else
      match Whole16(data)
      case None => None
      case Some(list) =>
        match GetShares(list)
        case None => None
        case Some(shares) => Some(KeyShare(Some(shares), None, None))
  }

  function DecodePreSharedKey(data: bytes, context: Context): Option<Extension> {
    if context == InServerHello || context == InRetryRequest then
      if |data| == 2 then Some(PreSharedKey(None, None, Some(Get16(data)))) else None
    else if |data| < 4 then None
    else
      match Vec16(data)
      case None => None
      case Some((idList, rest)) =>
        match GetIdentities(idList)
        case None => None
        case Some(ids) =>
          match Whole16(rest)
          case None => None
          case Some(binderList) =>
            match GetBinders(binderList)
            case None => None
            case Some(binders) => Some(PreSharedKey(Some(ids), Some(binders), None))
  }

  function DecodeCookie(data: bytes): Option<Extension> {
    match Whole16(data)
    case None => None
    case Some(cookie) => if cookie == [] then None else Some(Cookie(cookie))
  }

  function DecodeModes(data: bytes): Option<Extension> {
    if |data| < 2 then None
    else
      match Whole8(data)
      case None => None
      case Some(modes) => if modes == [] then None else Some(PskKeyExchangeModes(modes))
  }

  /** None is `decode_error`; a type not defined where it stands is kept unparsed. */
  function DecodeBody(code: nat, data: bytes, context: Context): Option<Extension> {
    if code == 0 then DecodeServerName(data)
    else if code == 10 then
      match DecodeU16List(data) case Some(groups) => Some(SupportedGroups(groups)) case None => None
    else if code == 13 then
      match DecodeU16List(data) case Some(schemes) => Some(SignatureAlgorithms(schemes)) case None => None
    else if code == 50 then
      match DecodeU16List(data) case Some(schemes) => Some(SignatureAlgorithmsCert(schemes)) case None => None
    else if code == 21 then Some(Padding(|data|))
    else if context.IsHello() && code == 43 then DecodeVersions(data, context)
    else if context.IsHello() && code == 51 then DecodeKeyShare(data, context)
    else if context.IsHello() && code == 44 then DecodeCookie(data)
    else if context.IsHello() && code == 41 then DecodePreSharedKey(data, context)
    else if context == InClientHello && code == 45 then DecodeModes(data)
    else if code == 42 then Some(EarlyData(if |data| == 4 then Some(Get32(data)) else None))
    else Some(Unknown(code, data))
  }

  /** `e` is one of the forms its type has in a message of this kind. */
  predicate DefinedIn(e: Extension, context: Context) {
    match e
    case ServerName(_) => true
    case SupportedGroups(_) => true
    case SignatureAlgorithms(_) => true
    case SignatureAlgorithmsCert(_) => true
    case Padding(_) => true
    case SupportedVersions(versions, isServerHello) =>
      if isServerHello then (context == InServerHello || context == InRetryRequest) && |versions| == 1
      else context == InClientHello
    case KeyShare(clientShares, serverShare, selectedGroup) =>
      (match context
       case InClientHello => clientShares.Some? && serverShare.None? && selectedGroup.None?
       case InServerHello => clientShares.None? && serverShare.Some? && selectedGroup.None?
       case InRetryRequest => clientShares.None? && serverShare.None? && selectedGroup.Some?
       case Elsewhere => false)
    case Cookie(cookie) => context.IsHello() && cookie != []
    case PreSharedKey(identities, binders, selectedIdentity) =>
      (match context
       case InClientHello =>
         && identities.Some? && binders.Some? && selectedIdentity.None?
         && (forall k | 0 <= k < |identities.value| :: IdentityFits(identities.value[k]))
       case InServerHello => identities.None? && binders.None? && selectedIdentity.Some?
       case InRetryRequest => identities.None? && binders.None? && selectedIdentity.Some?
       case Elsewhere => false)
    case PskKeyExchangeModes(modes) => context == InClientHello && modes != []
    case EarlyData(size) => size.Some? ==> size.value < 0x100000000
    case Unknown(code, _) =>
      && code !in {0, 10, 13, 21, 42, 50}
      && (context.IsHello() ==> code !in {41, 43, 44, 51})
      && (context == InClientHello ==> code != 45)
  }

  lemma U16ListRoundTrip(ns: seq<nat>)
    requires AllU16(ns)
    ensures 2 * |ns| < 0x10000 ==> DecodeU16List(PutVec16(PutU16s(ns))) == Some(ns)
    ensures 2 * |ns| < 0x100 ==> Whole8(PutVec8(PutU16s(ns))) == Some(PutU16s(ns)) && GetU16s(PutU16s(ns)) == ns
  {
    hide PutU16s, GetU16s, Whole8, Whole16, PutVec8, PutVec16;
    WholeOf(PutU16s(ns));
    U16sRoundTrip(ns);
  }

  lemma Put16Whole(n: nat)
    requires n < 0x10000
    ensures |Put16(n)| == 2 && Get16(Put16(n)) == n
  {
    GetPut(n, []);
    assert Put16(n) + [] == Put16(n);
  }

  lemma VersionsRoundTrip(e: Extension, context: Context)
    requires e.SupportedVersions? && DefinedIn(e, context) && Encodable(e)
    ensures DecodeVersions(BodyOf(e), context) == Some(e)
  {
    hide Put16, Get16, Whole8, PutVec8, PutU16s, GetU16s;
    if e.isServerHello {
      Put16Whole(e.versions[0]);
      assert [e.versions[0]] == e.versions;
    } else {
      U16ListRoundTrip(e.versions);
    }
  }

  lemma KeyShareRoundTrip(e: Extension, context: Context)
    requires e.KeyShare? && DefinedIn(e, context) && Encodable(e)
    ensures DecodeKeyShare(BodyOf(e), context) == Some(e)
  {
    hide Put16, Get16, Whole16, PutVec16, PutShares, GetShares;
    match context
    case InClientHello =>
      SharesRoundTrip(e.clientShares.value);
      WholeOf(PutShares(e.clientShares.value));
    case InServerHello =>
      var share := e.serverShare.value;
      GetPut(share.group, PutVec16(share.keyExchange));
      PutLengths(share.group);
      WholeOf(share.keyExchange);
      VecOf(share.keyExchange, []);
    case InRetryRequest => Put16Whole(e.selectedGroup.value);
  }

  lemma PreSharedKeyRoundTrip(e: Extension, context: Context)
    requires e.PreSharedKey? && DefinedIn(e, context) && Encodable(e)
    ensures DecodePreSharedKey(BodyOf(e), context) == Some(e)
  {
    hide Put16, Get16, Vec16, Whole16, PutVec16, PutIdentities, GetIdentities, PutBinders, GetBinders;
    if context == InClientHello {
      var ids, binders := PutIdentities(e.identities.value), PutBinders(e.binders.value);
      IdentitiesRoundTrip(e.identities.value);
      BindersRoundTrip(e.binders.value);
      VecOf(ids, PutVec16(binders));
      VecOf(binders, []);
      WholeOf(binders);
    } else {
      Put16Whole(e.selectedIdentity.value);
    }
  }

  lemma SmallBodiesRoundTrip(e: Extension, context: Context)
    requires DefinedIn(e, context) && Encodable(e)
    ensures e.ServerName? ==> DecodeServerName(BodyOf(e)) == Some(e)
    ensures e.Cookie? ==> DecodeCookie(BodyOf(e)) == Some(e)
    ensures e.PskKeyExchangeModes? ==> DecodeModes(BodyOf(e)) == Some(e)
    ensures e.EarlyData? && e.maxEarlyDataSize.Some? ==>
              |BodyOf(e)| == 4 && Get32(BodyOf(e)) == e.maxEarlyDataSize.value
  {
    hide Get32, Put32, Whole8, Whole16, PutVec8, PutVec16, PutNames, GetNames;
    match e
    case ServerName(names) =>
      if names != [] {
        NamesRoundTrip(names);
        WholeOf(PutNames(names));
        VecOf(PutNames(names), []);
      }
    case Cookie(cookie) => WholeOf(cookie);
    case PskKeyExchangeModes(modes) =>
      WholeOf(modes);
      VecOf(modes, []);
    case EarlyData(size) =>
      if size.Some? {
        GetPut(size.value, []);
        PutLengths(size.value);
        assert Put32(size.value) + [] == Put32(size.value);
      }
    case _ =>
  }

  /** One extension body, decoded under its own type where it is defined, is the extension. */
  lemma BodyRoundTrip(e: Extension, context: Context)
    requires DefinedIn(e, context) && Encodable(e)
    ensures DecodeBody(TypeCodeOf(e), BodyOf(e), context) == Some(e)
  {
    hide DecodeServerName, DecodeCookie, DecodeModes, DecodeVersions, DecodeKeyShare, DecodePreSharedKey,
         DecodeU16List, Get32, Put32, PutVec16, PutU16s;
    match e
    case SupportedGroups(groups) => U16ListRoundTrip(groups);
    case SignatureAlgorithms(schemes) => U16ListRoundTrip(schemes);
    case SignatureAlgorithmsCert(schemes) => U16ListRoundTrip(schemes);
    case SupportedVersions(_, _) => VersionsRoundTrip(e, context);
    case KeyShare(_, _, _) => KeyShareRoundTrip(e, context);
    case PreSharedKey(_, _, _) => PreSharedKeyRoundTrip(e, context);
    case _ => SmallBodiesRoundTrip(e, context);
  }

  // ----- the list of extensions

  function EncodeExtension(e: Extension): bytes {
    Put16(TypeCodeOf(e)) + PutVec16(BodyOf(e))
  }

  function EncodeList(es: seq<Extension>): bytes {
    if es == [] then [] else EncodeExtension(es[0]) + EncodeList(es[1..])
  }

  function EncodeExtensions(es: seq<Extension>): bytes {
    PutVec16(EncodeList(es))
  }

  predicate ListEncodable(es: seq<Extension>) {
    (forall k | 0 <= k < |es| :: Encodable(es[k])) && |EncodeList(es)| < 0x10000
  }

  function DecodeList(bs: bytes, seen: set<nat>, context: Context): Decoded<seq<Extension>>
    decreases |bs|
  {
    if bs == [] then Ok([])
    else if |bs| < 4 then Bad(DecodeError)
    else if Get16(bs) in seen then Bad(IllegalParameter)
    else
      match Vec16(bs[2..])
      case None => Bad(DecodeError)
      case Some((data, rest)) =>
        match DecodeBody(Get16(bs), data, context)
        case None => Bad(DecodeError)
        case Some(e) =>
          match DecodeList(rest, seen + {Get16(bs)}, context)
          case Bad(description) => Bad(description)
          case Ok(es) => Ok([e] + es)
  }

  function DecodeExtensions(bs: bytes, context: Context): Decoded<seq<Extension>> {
    match Whole16(bs)
    case None => Bad(DecodeError)
    case Some(list) => DecodeList(list, {}, context)
  }

  /** Distinct types, none of them already met, each in a form its message defines. */
  predicate Proper(es: seq<Extension>, seen: set<nat>, context: Context) {
    && (forall k | 0 <= k < |es| :: DefinedIn(es[k], context) && TypeCodeOf(es[k]) !in seen)
    && (forall j, k | 0 <= j < k < |es| :: TypeCodeOf(es[j]) != TypeCodeOf(es[k]))
  }

  ghost predicate AreDistinct(es: seq<Extension>) {
    forall j, k | 0 <= j < k < |es| :: TypeCodeOf(es[j]) != TypeCodeOf(es[k])
  }

  lemma {:induction false} ListRoundTrip(es: seq<Extension>, seen: set<nat>, context: Context)
    requires Proper(es, seen, context) && forall k | 0 <= k < |es| :: Encodable(es[k])
    ensures DecodeList(EncodeList(es), seen, context) == Ok(es)
  {
    hide Put16, Get16, Vec16, PutVec16, BodyOf, TypeCodeOf, DecodeBody, DefinedIn, BodyFits;
    if es != [] {
      var e, rest := es[0], EncodeList(es[1..]);
      var code := TypeCodeOf(e);
      var tail := PutVec16(BodyOf(e)) + rest;
      assert EncodeList(es) == Put16(code) + tail;
      GetPut(code, tail);
      PutLengths(code);
      VecOf(BodyOf(e), rest);
      BodyRoundTrip(e, context);
      ListRoundTrip(es[1..], seen + {code}, context);
      assert [e] + es[1..] == es;
    }
  }

  lemma ExtensionsRoundTrip(es: seq<Extension>, context: Context)
    requires Proper(es, {}, context) && ListEncodable(es)
    ensures DecodeExtensions(EncodeExtensions(es), context) == Ok(es)
    ensures |EncodeExtensions(es)| == 2 + |EncodeList(es)|
  {
    hide PutVec16, Whole16, EncodeList, DecodeList;
    WholeOf(EncodeList(es));
    VecOf(EncodeList(es), []);
    ListRoundTrip(es, {}, context);
  }

  // ----- messages

  function EntryBytes(entry: CertificateEntry): bytes {
    PutVec24(entry.certData)
    + (if entry.rawExtensions.Some? then entry.rawExtensions.value else EncodeExtensions(entry.extensions))
  }

  function PutEntries(entries: seq<CertificateEntry>): bytes {
    if entries == [] then [] else EntryBytes(entries[0]) + PutEntries(entries[1..])
  }

  function MessageTypeOf(m: Message): byte {
    match m
    case ClientHello(_, _, _, _, _, _) => 1
    case ServerHello(_, _, _, _, _, _) => 2
    case NewSessionTicket(_, _, _, _, _) => 4
    case EndOfEarlyData => 5
    case EncryptedExtensions(_) => 8
    case Certificate(_, _) => 11
    case CertificateRequest(_, _) => 13
    case CertificateVerify(_, _) => 15
    case Finished(_) => 20
    case KeyUpdate(_) => 24
  }

  function MessageBody(m: Message): bytes {
    match m
    case ClientHello(version, random, session, suites, compression, extensions) =>
      Put16(version) + (random + (PutVec8(session) + (PutVec16(PutU16s(suites))
        + (PutVec8(compression) + EncodeExtensions(extensions)))))
    case ServerHello(version, random, session, suite, compression, extensions) =>
      Put16(version) + (random + (PutVec8(session) + (Put16(suite) + (Put8(compression) + EncodeExtensions(extensions)))))
    case EncryptedExtensions(extensions) => EncodeExtensions(extensions)
    case Certificate(context, entries) => PutVec8(context) + PutVec24(PutEntries(entries))
    case CertificateRequest(context, extensions) => PutVec8(context) + EncodeExtensions(extensions)
    case CertificateVerify(scheme, signature) => Put16(scheme) + PutVec16(signature)
    case Finished(verifyData) => verifyData
    case NewSessionTicket(lifetime, ageAdd, nonce, ticket, extensions) =>
      Put32(lifetime) + (Put32(ageAdd) + (PutVec8(nonce) + (PutVec16(ticket) + EncodeExtensions(extensions))))
    case KeyUpdate(requestUpdate) => if requestUpdate then [1] else [0]
    case EndOfEarlyData => []
  }

  predicate EntryEncodable(entry: CertificateEntry) {
    |entry.certData| < 0x1000000 && (entry.rawExtensions.None? ==> ListEncodable(entry.extensions))
  }

  /** No integer of the message is refused by its writer. */
  predicate MessageEncodable(m: Message) {
    && |MessageBody(m)| < 0x1000000
    && match m
       case ClientHello(version, _, session, suites, compression, extensions) =>
         && version < 0x10000 && |session| < 0x100 && AllU16(suites) && 2 * |suites| < 0x10000
         && |compression| < 0x100 && ListEncodable(extensions)
       case ServerHello(version, _, session, suite, compression, extensions) =>
         && version < 0x10000 && |session| < 0x100 && suite < 0x10000 && compression < 0x100
         && ListEncodable(extensions)
       case EncryptedExtensions(extensions) => ListEncodable(extensions)
       case Certificate(context, entries) =>
         && |context| < 0x100 && |PutEntries(entries)| < 0x1000000
         && forall k | 0 <= k < |entries| :: EntryEncodable(entries[k])
       case CertificateRequest(context, extensions) => |context| < 0x100 && ListEncodable(extensions)
       case CertificateVerify(scheme, signature) => scheme < 0x10000 && |signature| < 0x10000
       case NewSessionTicket(_, _, nonce, ticket, extensions) =>
         |nonce| < 0x100 && |ticket| < 0x10000 && ListEncodable(extensions)
       case _ => true
  }

  /** None where the encoder throws. */
  function EncodeMessage(m: Message): Option<bytes> {
    if MessageEncodable(m) then Some(Put8(MessageTypeOf(m)) + PutVec24(MessageBody(m))) else None
  }

  function DecodeClientHello(body: bytes): Decoded<Message> {
    if |body| < 34 then Bad(DecodeError)
    else
      match Vec8(body[34..])
      case None => Bad(DecodeError)
      case Some((session, afterSession)) =>
        match Vec16(afterSession)
        case None => Bad(DecodeError)
        case Some((suites, afterSuites)) =>
          if |suites| % 2 != 0 then Bad(DecodeError)
          else
            match Vec8(afterSuites)
            case None => Bad(DecodeError)
            case Some((compression, rest)) =>
              match (if rest == [] then Ok([]) else DecodeExtensions(rest, InClientHello))
              case Bad(description) => Bad(description)
              case Ok(es) =>
                Ok(ClientHello(Get16(body), body[2..34], session, GetU16s(suites), compression, es))
  }

  function DecodeServerHello(body: bytes): Decoded<Message> {
    if |body| < 34 then Bad(DecodeError)
    else if Get16(body) != 0x0303 then Bad(ProtocolVersion)
    else
      match Vec8(body[34..])
      case None => Bad(DecodeError)
      case Some((session, afterSession)) =>
        if |afterSession| < 3 then Bad(DecodeError)
        else
          var random, rest := body[2..34], afterSession[3..];
          var context := if random == HRR_MAGIC then InRetryRequest else InServerHello;
          match (if rest == [] then Ok([]) else DecodeExtensions(rest, context))
          case Bad(description) => Bad(description)
          case Ok(es) =>
            Ok(ServerHello(Get16(body), random, session, Get16(afterSession), Get8(afterSession[2..]), es))
  }

  function DecodeEntries(bs: bytes): Decoded<seq<CertificateEntry>>
    decreases |bs|
  {
    if bs == [] then Ok([])
    else
      match Vec24(bs)
      case None => Bad(DecodeError)
      case Some((cert, rest)) =>
        match Vec16(rest)
        case None => Bad(DecodeError)
        case Some((_, after)) =>
          var raw := rest[..|rest| - |after|];
          match DecodeExtensions(raw, Elsewhere)
          case Bad(description) => Bad(description)
          case Ok(es) =>
            match DecodeEntries(after)
            case Bad(description) => Bad(description)
            case Ok(entries) => Ok([CertificateEntry(cert, es, Some(raw))] + entries)
  }

  function DecodeCertificate(body: bytes): Decoded<Message> {
    if |body| < 4 then Bad(DecodeError)
    else
      match Vec8(body)
      case None => Bad(DecodeError)
      case Some((context, rest)) =>
        match Vec24(rest)
        case None => Bad(DecodeError)
        case Some((list, after)) =>
          if after != [] then Bad(DecodeError)
          else
            match DecodeEntries(list)
            case Bad(description) => Bad(description)
            case Ok(entries) => Ok(Certificate(context, entries))
  }

  function DecodeCertificateRequest(body: bytes): Decoded<Message> {
    match Vec8(body)
    case None => Bad(DecodeError)
    case Some((context, rest)) =>
      match DecodeExtensions(rest, Elsewhere)
      case Bad(description) => Bad(description)
      case Ok(es) => Ok(CertificateRequest(context, es))
  }

  function DecodeCertificateVerify(body: bytes): Decoded<Message> {
    if |body| < 4 then Bad(DecodeError)
    else
      match Whole16(body[2..])
      case None => Bad(DecodeError)
      case Some(signature) => Ok(CertificateVerify(Get16(body), signature))
  }

  function DecodeTicket(body: bytes): Decoded<Message> {
    if |body| < 13 then Bad(DecodeError)
    else
      match Vec8(body[8..])
      case None => Bad(DecodeError)
      case Some((nonce, afterNonce)) =>
        match Vec16(afterNonce)
        case None => Bad(DecodeError)
        case Some((ticket, rest)) =>
          if ticket == [] then Bad(DecodeError)
          else
            match DecodeExtensions(rest, Elsewhere)
            case Bad(description) => Bad(description)
            case Ok(es) => Ok(NewSessionTicket(Get32(body), Get32(body[4..]), nonce, ticket, es))
  }

  function DecodeKeyUpdate(body: bytes): Decoded<Message> {
    if |body| != 1 then Bad(DecodeError)
    else if body[0] != 0 && body[0] != 1 then Bad(IllegalParameter)
    else Ok(KeyUpdate(body[0] == 1))
  }

  function DecodeMessageBody(code: nat, body: bytes): Decoded<Message> {
    if code == 1 then DecodeClientHello(body)
    else if code == 2 then DecodeServerHello(body)
    else if code == 8 then
      (match DecodeExtensions(body, Elsewhere)
       case Ok(es) => Ok(EncryptedExtensions(es))
       case Bad(description) => Bad(description))
    else if code == 11 then DecodeCertificate(body)
    else if code == 13 then DecodeCertificateRequest(body)
    else if code == 15 then DecodeCertificateVerify(body)
    else if code == 20 then Ok(Finished(body))
    else if code == 4 then DecodeTicket(body)
    else if code == 24 then DecodeKeyUpdate(body)
    else if code == 5 then if body == [] then Ok(EndOfEarlyData) else Bad(DecodeError)
    else Bad(UnexpectedMessage)
  }

  /** A whole message; the truncated form a binder is computed over is not read here. */
  function DecodeMessage(bs: bytes): Decoded<Message> {
    if |bs| < 4 then Bad(DecodeError)
    else
      match Vec24(bs[1..])
      case None => Bad(DecodeError)
      case Some((body, rest)) => if rest == [] then DecodeMessageBody(Get8(bs), body) else Bad(DecodeError)
  }

  // ----- messages undone

  predicate EntryProper(entry: CertificateEntry) {
    entry.rawExtensions.None? && Proper(entry.extensions, {}, Elsewhere)
  }

  /** The forms a decoder can answer: sizes fixed by the wire, extensions distinct and defined there. */
  predicate MessageProper(m: Message) {
    match m
    case ClientHello(_, random, _, _, _, extensions) => |random| == 32 && Proper(extensions, {}, InClientHello)
    case ServerHello(version, random, _, _, _, extensions) =>
      && version == 0x0303 && |random| == 32
      && Proper(extensions, {}, if random == HRR_MAGIC then InRetryRequest else InServerHello)
    case EncryptedExtensions(extensions) => Proper(extensions, {}, Elsewhere)
    case Certificate(_, entries) => forall k | 0 <= k < |entries| :: EntryProper(entries[k])
    case CertificateRequest(_, extensions) => Proper(extensions, {}, Elsewhere)
    case NewSessionTicket(lifetime, ageAdd, _, ticket, extensions) =>
      && lifetime < 0x100000000 && ageAdd < 0x100000000 && ticket != []
      && Proper(extensions, {}, Elsewhere)
    case _ => true
  }

  /** What decoding adds: each certificate entry keeps the bytes of its extensions. */
  function EntryWithRaw(entry: CertificateEntry): CertificateEntry {
    entry.(rawExtensions := Some(EncodeExtensions(entry.extensions)))
  }

  function EntriesWithRaw(entries: seq<CertificateEntry>): seq<CertificateEntry> {
    if entries == [] then [] else [EntryWithRaw(entries[0])] + EntriesWithRaw(entries[1..])
  }

  function WithRaw(m: Message): Message {
    match m
    case Certificate(context, entries) => Certificate(context, EntriesWithRaw(entries))
    case _ => m
  }

  lemma ClientHelloRoundTrip(m: Message)
    requires m.ClientHello? && MessageEncodable(m) && MessageProper(m)
    ensures DecodeClientHello(MessageBody(m)) == Ok(m)
  {
    hide Put16, Get16, PutVec8, PutVec16, Vec8, Vec16, PutU16s, GetU16s, EncodeExtensions, DecodeExtensions,
         ListEncodable, Proper;
    var es := EncodeExtensions(m.extensions);
    var afterSuites := PutVec8(m.compressionMethods) + es;
    var afterSession := PutVec16(PutU16s(m.cipherSuites)) + afterSuites;
    HelloFront(m.legacyVersion, m.random, PutVec8(m.legacySessionId) + afterSession);
    VecOf(m.legacySessionId, afterSession);
    VecOf(PutU16s(m.cipherSuites), afterSuites);
    VecOf(m.compressionMethods, es);
    U16sRoundTrip(m.cipherSuites);
    ExtensionsRoundTrip(m.extensions, InClientHello);
  }

  /** Version and random, and what is behind them. */
  lemma HelloFront(version: nat, random: bytes, rest: bytes)
    requires version < 0x10000 && |random| == 32
    ensures var body := Put16(version) + (random + rest);
            |body| >= 34 && Get16(body) == version && body[2..34] == random && body[34..] == rest
  {
    hide Put16, Get16;
    GetPut(version, random + rest);
    PutLengths(version);
    FixedField(Put16(version), random, rest);
  }

  /** A field of known length behind another one. */
  lemma FixedField(first: bytes, field: bytes, rest: bytes)
    ensures var body := first + (field + rest);
            body[|first|..|first| + |field|] == field && body[|first| + |field|..] == rest
  {
  }

  lemma ServerHelloRoundTrip(m: Message)
    requires m.ServerHello? && MessageEncodable(m) && MessageProper(m)
    ensures DecodeServerHello(MessageBody(m)) == Ok(m)
  {
    hide Put8, Get8, Put16, Get16, PutVec8, Vec8, EncodeExtensions, DecodeExtensions, ListEncodable, Proper;
    var es := EncodeExtensions(m.extensions);
    var afterSession := Put16(m.cipherSuite) + (Put8(m.compressionMethod) + es);
    HelloFront(m.legacyVersion, m.random, PutVec8(m.sessionIdEcho) + afterSession);
    VecOf(m.sessionIdEcho, afterSession);
    GetPut(m.cipherSuite, Put8(m.compressionMethod) + es);
    GetPut(m.compressionMethod, es);
    PutLengths(m.cipherSuite);
    PutLengths(m.compressionMethod);
    FixedField(Put16(m.cipherSuite), Put8(m.compressionMethod), es);
    ExtensionsRoundTrip(m.extensions, if m.random == HRR_MAGIC then InRetryRequest else InServerHello);
  }

  lemma {:induction false} EntriesRoundTrip(entries: seq<CertificateEntry>)
    requires forall k | 0 <= k < |entries| :: EntryEncodable(entries[k]) && EntryProper(entries[k])
    ensures DecodeEntries(PutEntries(entries)) == Ok(EntriesWithRaw(entries))
  {
    hide PutVec16, Vec16, PutVec24, Vec24, EncodeList, DecodeExtensions, ListEncodable, Proper;
    if entries != [] {
      var entry, after := entries[0], PutEntries(entries[1..]);
      assert EntryEncodable(entry) && EntryProper(entry);
      var raw := EncodeExtensions(entry.extensions);
      EntriesRoundTrip(entries[1..]);
      VecOf(entry.certData, raw + after);
      ConcatAssoc(PutVec24(entry.certData), raw, after);
      ListLength(entry.extensions);
      VecOf(EncodeList(entry.extensions), after);
      assert (raw + after)[..|raw + after| - |after|] == raw;
      ExtensionsRoundTrip(entry.extensions, Elsewhere);
    }
  }

  lemma ListLength(es: seq<Extension>)
    requires ListEncodable(es)
    ensures |EncodeList(es)| < 0x10000 && EncodeExtensions(es) == PutVec16(EncodeList(es))
  {
  }

  lemma CertificateRoundTrip(m: Message)
    requires m.Certificate? && MessageEncodable(m) && MessageProper(m)
    ensures DecodeCertificate(MessageBody(m)) == Ok(WithRaw(m))
  {
    hide PutVec8, Vec8, PutVec24, Vec24, PutEntries, DecodeEntries;
    var list := PutEntries(m.certificateList);
    EntriesRoundTrip(m.certificateList);
    VecOf(m.context, PutVec24(list));
    VecOf(list, []);
    assert PutVec24(list) + [] == PutVec24(list);
  }

  lemma TicketRoundTrip(m: Message)
    requires m.NewSessionTicket? && MessageEncodable(m) && MessageProper(m)
    ensures DecodeTicket(MessageBody(m)) == Ok(m)
  {
    hide Put32, Get32, PutVec8, Vec8, PutVec16, Vec16, EncodeExtensions, DecodeExtensions, ListEncodable, Proper;
    var es := EncodeExtensions(m.extensions);
    var afterNonce := PutVec16(m.ticket) + es;
    var afterAge := PutVec8(m.ticketNonce) + afterNonce;
    GetPut(m.ticketLifetime, Put32(m.ticketAgeAdd) + afterAge);
    GetPut(m.ticketAgeAdd, afterAge);
    PutLengths(m.ticketLifetime);
    PutLengths(m.ticketAgeAdd);
    FixedField(Put32(m.ticketLifetime), Put32(m.ticketAgeAdd), afterAge);
    VecOf(m.ticketNonce, afterNonce);
    VecOf(m.ticket, es);
    ExtensionsRoundTrip(m.extensions, Elsewhere);
  }

  lemma SmallMessagesRoundTrip(m: Message)
    requires MessageEncodable(m) && MessageProper(m)
    ensures m.CertificateRequest? ==> DecodeCertificateRequest(MessageBody(m)) == Ok(m)
    ensures m.CertificateVerify? ==> DecodeCertificateVerify(MessageBody(m)) == Ok(m)
    ensures m.EncryptedExtensions? ==> DecodeExtensions(MessageBody(m), Elsewhere) == Ok(m.extensions)
  {
    hide Put16, Get16, PutVec8, Vec8, PutVec16, Whole16, EncodeExtensions, DecodeExtensions, ListEncodable, Proper;
    match m
    case CertificateRequest(context, extensions) =>
      VecOf(context, EncodeExtensions(extensions));
      ExtensionsRoundTrip(extensions, Elsewhere);
    case CertificateVerify(scheme, signature) =>
      GetPut(scheme, PutVec16(signature));
      PutLengths(scheme);
      WholeOf(signature);
      VecOf(signature, []);
    case EncryptedExtensions(extensions) => ExtensionsRoundTrip(extensions, Elsewhere);
    case _ =>
  }

  lemma MessageBodyRoundTrip(m: Message)
    requires MessageEncodable(m) && MessageProper(m)
    ensures DecodeMessageBody(MessageTypeOf(m), MessageBody(m)) == Ok(WithRaw(m))
  {
    hide MessageEncodable, MessageProper, DecodeClientHello, DecodeServerHello, DecodeCertificate, DecodeTicket,
         DecodeCertificateRequest, DecodeCertificateVerify, DecodeExtensions;
    match m
    case ClientHello(_, _, _, _, _, _) => ClientHelloRoundTrip(m);
    case ServerHello(_, _, _, _, _, _) => ServerHelloRoundTrip(m);
    case Certificate(_, _) => CertificateRoundTrip(m);
    case NewSessionTicket(_, _, _, _, _) => TicketRoundTrip(m);
    case CertificateRequest(_, _) => SmallMessagesRoundTrip(m);
    case CertificateVerify(_, _) => SmallMessagesRoundTrip(m);
    case EncryptedExtensions(_) => SmallMessagesRoundTrip(m);
    case _ =>
  }

  /** Decoding undoes encoding, through every nested list, but for the kept `rawExtensions`. */
  lemma MessageRoundTrip(m: Message)
    requires MessageProper(m) && EncodeMessage(m).Some?
    ensures DecodeMessage(EncodeMessage(m).value) == Ok(WithRaw(m))
  {
    hide Put8, Get8, PutVec24, Vec24, DecodeMessageBody, MessageBody, MessageTypeOf, MessageProper;
    var body := MessageBody(m);
    assert MessageEncodable(m) && |body| < 0x1000000;
    GetPut(MessageTypeOf(m), PutVec24(body));
    PutLengths(MessageTypeOf(m));
    VecOf(body, []);
    assert PutVec24(body) + [] == PutVec24(body);
    MessageBodyRoundTrip(m);
  }
}
