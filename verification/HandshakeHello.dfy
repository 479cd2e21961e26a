/**
 The ServerHello loop of `packages/tls/src/handshake.ts`: one HelloRetryRequest at most, then a
 ServerHello. What goes into the second ClientHello, key exchange and key schedule are functions of the setup.
 */
module HandshakeHello {
  import opened Bytes
  import opened HandshakeCodec
  import opened HandshakeMessages
  import opened HandshakeFlight

  datatype Group = X25519 | P256 | P384

  function GroupCode(group: Group): nat {
    match group
    case X25519 => 0x001d
    case P256 => 0x0017
    case P384 => 0x0018
  }

  function GroupOf(code: nat): Option<Group> {
    if code == 0x001d then Some(X25519)
    else if code == 0x0017 then Some(P256)
    else if code == 0x0018 then Some(P384)
    else None
  }

  function ShareLength(group: Group): nat {
    match group
    case X25519 => 32
    case P256 => 65
    case P384 => 97
  }

  function SuiteOfCode(code: nat): Option<SuiteName> {
    if code == 0x1301 then Some(Aes128Sha256) else if code == 0x1302 then Some(Aes256Sha384) else None
  }

  /** A session of an earlier connection. The two suites have different hashes, so a suite stands for its hash. */
  datatype Session = Session(suite: SuiteName, psk: bytes, chain: Chain)

  datatype Setup = Setup(
    offer: Offer, groups: set<nat>, sessionId: bytes, clientHello: bytes, firstGroup: Group, session: Option<Session>,
    reverify: bool, checks: Checks,
    secondHello: (Group, bool, Option<bytes>, Option<Session>, seq<bytes>) -> bytes,
    sharedSecret: (Group, bytes) -> Option<bytes>,
    serverSecret: (SuiteName, Option<bytes>, bytes, bytes) -> bytes,
    clientSecret: (SuiteName, Option<bytes>, bytes, bytes) -> bytes,
    clientMac: (SuiteName, bytes, bytes) -> bytes)

  const MESSAGE_HASH: byte := 254

  /** RFC 8446 section 4.4.1: what stands for ClientHello1 behind a HelloRetryRequest. */
  function MessageHash(checks: Checks, suite: SuiteName, message: bytes): bytes {
    [MESSAGE_HASH] + PutVec24(checks.hash(suite, message))
  }

  // ----- one ServerHello or HelloRetryRequest

  const DOWNGRADE_1_2: bytes := [0x44, 0x4f, 0x57, 0x4e, 0x47, 0x52, 0x44, 0x01]
  const DOWNGRADE_1_1: bytes := [0x44, 0x4f, 0x57, 0x4e, 0x47, 0x52, 0x44, 0x00]

  const COOKIE_TYPE := 44
  const MAX_ECHOED_COOKIE := 16384
  const PERMITTED_IN_SERVER_HELLO: set<nat> := {41, 43, 51}
  const PERMITTED_IN_RETRY_REQUEST: set<nat> := {43, 44, 51}

  function FindVersions(es: seq<Extension>): Option<Extension> {
    if es == [] then None else if es[0].SupportedVersions? then Some(es[0]) else FindVersions(es[1..])
  }

  function FindKeyShare(es: seq<Extension>): (r: Option<Extension>)
    ensures r.Some? ==> r.value.KeyShare?
  {
    if es == [] then None else if es[0].KeyShare? then Some(es[0]) else FindKeyShare(es[1..])
  }

  function FindCookie(es: seq<Extension>): (r: Option<Extension>)
    ensures r.Some? ==> r.value.Cookie?
  {
    if es == [] then None else if es[0].Cookie? then Some(es[0]) else FindCookie(es[1..])
  }

  function FindPsk(es: seq<Extension>): (r: Option<Extension>)
    ensures r.Some? ==> r.value.PreSharedKey?
  {
    if es == [] then None else if es[0].PreSharedKey? then Some(es[0]) else FindPsk(es[1..])
  }

  predicate EndsInSentinel(random: bytes) {
    |random| >= 24 && random[24..] in {DOWNGRADE_1_2, DOWNGRADE_1_1}
  }

  predicate SelectsTls13(es: seq<Extension>) {
    var e := FindVersions(es);
    e.Some? && e.value.SupportedVersions? && |e.value.versions| > 0 && e.value.versions[0] == 0x0304
  }

  /** `transcript` is what the hash runs over; a session stays offered until a retry under another hash. */
  datatype Hello = Hello(transcript: seq<bytes>, seenRetry: bool, retrySuite: Option<SuiteName>, group: Group, session: Option<Session>)

  function FirstHello(setup: Setup): Hello {
    Hello([setup.clientHello], false, None, setup.firstGroup, setup.session)
  }

  datatype Agreement = Agreement(transcript: seq<bytes>, suite: SuiteName, group: Group, taken: Option<Session>, share: bytes, isRetried: bool)

  datatype HelloTurned = Denied(description: AlertDescription) | Retried(hello: Hello) | Chosen(agreement: Agreement)

  /** What both kinds must have; the suite they select. */
  function CommonChecks(setup: Setup, h: Hello, m: Message): Decoded<SuiteName> {
    if !m.ServerHello? then Bad(UnexpectedMessage)
    else if m.compressionMethod != 0 || m.sessionIdEcho != setup.sessionId || EndsInSentinel(m.random) then Bad(IllegalParameter)
    else if !SelectsTls13(m.extensions) then Bad(if h.seenRetry then IllegalParameter else ProtocolVersion)
    else
      match Misplaced(m.extensions, setup.offer.extensions + {COOKIE_TYPE},
                      if m.random == HRR_MAGIC then PERMITTED_IN_RETRY_REQUEST else PERMITTED_IN_SERVER_HELLO)
      case Some(description) => Bad(description)
      case None =>
        match SuiteOfCode(m.cipherSuite)
        case None => Bad(IllegalParameter)
        case Some(suite) =>
          if h.retrySuite.Some? && h.retrySuite.value != suite then Bad(IllegalParameter) else Ok(suite)
  }

  /** The group a retry asks for: one we offered and have not shared. */
  function RetriedGroup(setup: Setup, h: Hello, share: Option<Extension>): Option<Group>
    requires share.Some? ==> share.value.KeyShare?
  {
    if share.None? then Some(h.group)
    else if share.value.selectedGroup.None? || share.value.selectedGroup.value !in setup.groups then None
    else
      match GroupOf(share.value.selectedGroup.value)
      case None => None
      case Some(group) => if group == h.group then None else Some(group)
  }

  function TakeRetry(setup: Setup, h: Hello, m: Message, suite: SuiteName, a: Arrival): HelloTurned
    requires m.ServerHello? && h.transcript != []
  {
    var share, cookie := FindKeyShare(m.extensions), FindCookie(m.extensions);
    if h.seenRetry then Denied(UnexpectedMessage)
    else if share.None? && cookie.None? then Denied(IllegalParameter)
    else if a.rest != [] then Denied(UnexpectedMessage)
    else
      match RetriedGroup(setup, h, share)
      case None => Denied(IllegalParameter)
      case Some(group) =>
        if cookie.Some? && |cookie.value.cookie| > MAX_ECHOED_COOKIE then Denied(IllegalParameter)
        else
          var session := SessionUnder(h.session, suite);
          var rebuilt := [MessageHash(setup.checks, suite, h.transcript[0])] + h.transcript[1..] + [a.message];
          var second := SecondHello(setup, m, group, session, rebuilt);
          Retried(Hello(rebuilt + [second], true, Some(suite), group, session))
  }

  /** No session is offered under a hash that is not the selected suite's. */
  function SessionUnder(session: Option<Session>, suite: SuiteName): Option<Session> {
    if session.Some? && session.value.suite != suite then None else session
  }

  /** A fresh share if one was asked for, the cookie if one came, the binder over the rebuilt transcript. */
  function SecondHello(setup: Setup, m: Message, group: Group, session: Option<Session>, rebuilt: seq<bytes>): bytes
    requires m.ServerHello?
  {
    var cookie := FindCookie(m.extensions);
    setup.secondHello(group, FindKeyShare(m.extensions).Some?, if cookie.Some? then Some(cookie.value.cookie) else None, session, rebuilt)
  }

  /** Whether the server took the session: None is an alert. */
  function TakenSession(h: Hello, m: Message, suite: SuiteName): Decoded<Option<Session>>
    requires m.ServerHello?
  {
    match FindPsk(m.extensions)
    case None => Ok(None)
    case Some(psk) =>
      if h.session.None? then Bad(UnsupportedExtension)
      else if psk.selectedIdentity != Some(0) || h.session.value.suite != suite then Bad(IllegalParameter)
      else Ok(h.session)
  }

  function TakeServerHello(h: Hello, m: Message, suite: SuiteName, a: Arrival): HelloTurned
    requires m.ServerHello?
  {
    match TakenSession(h, m, suite)
    case Bad(description) => Denied(description)
    case Ok(taken) =>
      match FindKeyShare(m.extensions)
      case None => Denied(if taken.Some? then IllegalParameter else MissingExtension)
      case Some(e) =>
        if e.serverShare.None? || e.serverShare.value.group != GroupCode(h.group) then Denied(IllegalParameter)
        else if a.rest != [] then Denied(UnexpectedMessage)
        else
          var share := e.serverShare.value.keyExchange;
          if |share| != ShareLength(h.group) || (h.group != X25519 && share[0] != 0x04) then Denied(IllegalParameter)
          else Chosen(Agreement(h.transcript + [a.message], suite, h.group, taken, share, h.seenRetry))
  }

  function HelloTurn(setup: Setup, h: Hello, a: Arrival): (r: HelloTurned)
    requires h.transcript != []
    ensures r.Retried? ==> r.hello.transcript != []
  {
    match DecodeMessage(a.message)
    case Bad(description) => Denied(description)
    case Ok(m) =>
      match CommonChecks(setup, h, m)
      case Bad(description) => Denied(description)
      case Ok(suite) =>
        if m.random == HRR_MAGIC then TakeRetry(setup, h, m, suite, a) else TakeServerHello(h, m, suite, a)
  }

  datatype HelloEnd = Agreed(agreement: Agreement, used: nat) | HelloDenied(description: AlertDescription) | HelloStarved

  function RunHello(setup: Setup, h: Hello, arrivals: seq<Arrival>): HelloEnd
    requires h.transcript != []
    decreases |arrivals|
  {
    if arrivals == [] then HelloStarved
    else
      match HelloTurn(setup, h, arrivals[0])
      case Denied(description) => HelloDenied(description)
      case Chosen(agreement) => Agreed(agreement, 1)
      case Retried(h') =>
        var later := RunHello(setup, h', arrivals[1..]);
        if later.Agreed? then later.(used := later.used + 1) else later
  }

  // ----- what was agreed on

  predicate IsRetryRequest(message: bytes) {
    var r := DecodeMessage(message);
    r.Ok? && r.value.ServerHello? && r.value.random == HRR_MAGIC
  }

  /** A ServerHello proper, which selects the suite. */
  predicate IsServerHello(message: bytes, suite: SuiteName) {
    var r := DecodeMessage(message);
    && r.Ok? && r.value.ServerHello? && r.value.random != HRR_MAGIC
    && SuiteOfCode(r.value.cipherSuite) == Some(suite) && SelectsTls13(r.value.extensions)
  }

  predicate SelectsSuite(message: bytes, suite: SuiteName) {
    var r := DecodeMessage(message);
    r.Ok? && r.value.ServerHello? && SuiteOfCode(r.value.cipherSuite) == Some(suite)
  }

  /** The second ClientHello that answers a HelloRetryRequest. */
  function SecondHelloTo(setup: Setup, retry: bytes, group: Group, session: Option<Session>, rebuilt: seq<bytes>): bytes {
    match DecodeMessage(retry)
    case Ok(m) => if m.ServerHello? then SecondHello(setup, m, group, session, rebuilt) else []
    case Bad(_) => []
  }

  lemma RetryTurn(setup: Setup, h: Hello, a: Arrival)
    requires h.transcript != []
    ensures var turned := HelloTurn(setup, h, a);
            && (turned.Retried? ==>
                  && IsRetryRequest(a.message) && !h.seenRetry && a.rest == []
                  && turned.hello.seenRetry && turned.hello.retrySuite.Some?
                  && var suite := turned.hello.retrySuite.value;
                     var session := SessionUnder(h.session, suite);
                     var rebuilt := [MessageHash(setup.checks, suite, h.transcript[0])] + h.transcript[1..] + [a.message];
                     && SelectsSuite(a.message, suite) && turned.hello.session == session
                     && turned.hello.transcript == rebuilt + [SecondHelloTo(setup, a.message, turned.hello.group, session, rebuilt)])
            && (turned.Chosen? ==>
                  var agreement := turned.agreement;
                  && IsServerHello(a.message, agreement.suite) && a.rest == []
                  && agreement.transcript == h.transcript + [a.message] && agreement.isRetried == h.seenRetry
                  && (h.retrySuite.Some? ==> h.retrySuite == Some(agreement.suite))
                  && (agreement.taken.Some? ==> agreement.taken == h.session && h.session.value.suite == agreement.suite)
                  && agreement.group == h.group && |agreement.share| == ShareLength(h.group))
  {
    hide DecodeMessage, MessageHash, Misplaced, FindVersions, FindKeyShare, FindCookie, FindPsk;
  }

  /**
   The server's first flight is one ServerHello, or one HelloRetryRequest and then a ServerHello of the
   same suite; ClientHello1 is replaced by its hash, under the suite agreed on, in the second case and
   only in it.
   */
  ghost predicate IsAgreement(setup: Setup, ms: seq<bytes>, agreement: Agreement) {
    if !agreement.isRetried then
      |ms| == 1 && IsServerHello(ms[0], agreement.suite) && agreement.transcript == [setup.clientHello, ms[0]]
    else
      && |ms| == 2 && IsRetryRequest(ms[0]) && SelectsSuite(ms[0], agreement.suite)
      && IsServerHello(ms[1], agreement.suite)
      && var hash := MessageHash(setup.checks, agreement.suite, setup.clientHello);
         var second := SecondHelloTo(setup, ms[0], agreement.group, SessionUnder(setup.session, agreement.suite), [hash, ms[0]]);
         agreement.transcript == [hash, ms[0], second, ms[1]]
  }

  /** Behind a retry the next message ends the loop. */
  lemma AfterRetry(setup: Setup, h: Hello, arrivals: seq<Arrival>)
    requires h.transcript != [] && h.seenRetry
    ensures var end := RunHello(setup, h, arrivals);
            end.Agreed? ==>
              arrivals != [] && end.used == 1 && HelloTurn(setup, h, arrivals[0]) == Chosen(end.agreement)
  {
    hide HelloTurn;
    if arrivals != [] {
      RetryTurn(setup, h, arrivals[0]);
    }
  }

  lemma HelloIsAgreement(setup: Setup, arrivals: seq<Arrival>)
    ensures var end := RunHello(setup, FirstHello(setup), arrivals);
            end.Agreed? ==>
              && 0 < end.used <= |arrivals| && IsAgreement(setup, Messages(arrivals[..end.used]), end.agreement)
              && arrivals[end.used - 1].rest == []
              && (end.agreement.taken.Some? ==>
                    end.agreement.taken == setup.session && setup.session.value.suite == end.agreement.suite)
  {
    hide HelloTurn, RunHello, IsAgreement;
    var h := FirstHello(setup);
    HelloStep(setup, h, arrivals);
    if arrivals != [] {
      var turned := HelloTurn(setup, h, arrivals[0]);
      if turned.Chosen? {
        ChosenAgreement(setup, h, turned.agreement, arrivals);
      } else if turned.Retried? {
        RetriedStands(setup, h, arrivals[0]);
        AfterRetry(setup, turned.hello, arrivals[1..]);
        var later := RunHello(setup, turned.hello, arrivals[1..]);
        if later.Agreed? {
          assert arrivals[1..][0] == arrivals[1];
          RetriedAgreement(setup, h, turned.hello, later.agreement, arrivals);
        }
      }
    }
  }

  lemma HelloStep(setup: Setup, h: Hello, arrivals: seq<Arrival>)
    requires h.transcript != []
    ensures arrivals == [] ==> RunHello(setup, h, arrivals) == HelloStarved
    ensures arrivals != [] ==>
              var end, turned := RunHello(setup, h, arrivals), HelloTurn(setup, h, arrivals[0]);
              && (turned.Denied? ==> end == HelloDenied(turned.description))
              && (turned.Chosen? ==> end == Agreed(turned.agreement, 1))
              && (turned.Retried? ==>
                    var later := RunHello(setup, turned.hello, arrivals[1..]);
                    end == if later.Agreed? then later.(used := later.used + 1) else later)
  {
    hide HelloTurn;
  }

  lemma RetriedStands(setup: Setup, h: Hello, a: Arrival)
    requires h.transcript != []
    ensures var turned := HelloTurn(setup, h, a); turned.Retried? ==> turned.hello.seenRetry
  {
    hide HelloTurn;
    RetryTurn(setup, h, a);
  }

  lemma ChosenAgreement(setup: Setup, h: Hello, agreement: Agreement, arrivals: seq<Arrival>)
    requires arrivals != [] && h == FirstHello(setup) && HelloTurn(setup, h, arrivals[0]) == Chosen(agreement)
    ensures IsAgreement(setup, Messages(arrivals[..1]), agreement) && arrivals[0].rest == []
    ensures agreement.taken.Some? ==> agreement.taken == setup.session && setup.session.value.suite == agreement.suite
  {
    hide HelloTurn, IsServerHello;
    RetryTurn(setup, h, arrivals[0]);
  }

  lemma RetriedAgreement(setup: Setup, h: Hello, h': Hello, agreement: Agreement, arrivals: seq<Arrival>)
    requires |arrivals| > 1 && h == FirstHello(setup)
    requires HelloTurn(setup, h, arrivals[0]) == Retried(h') && h'.transcript != []
    requires HelloTurn(setup, h', arrivals[1]) == Chosen(agreement)
    ensures IsAgreement(setup, Messages(arrivals[..2]), agreement) && arrivals[1].rest == []
    ensures agreement.taken.Some? ==> agreement.taken == setup.session && setup.session.value.suite == agreement.suite
  {
    hide HelloTurn, MessageHash, IsServerHello, IsRetryRequest, SelectsSuite, SecondHelloTo;
    RetryTurn(setup, h, arrivals[0]);
    RetryTurn(setup, h', arrivals[1]);
    assert [setup.clientHello][1..] == [];
    var hash := MessageHash(setup.checks, agreement.suite, setup.clientHello);
    assert [hash] + [] + [arrivals[0].message] == [hash, arrivals[0].message];
  }
}
