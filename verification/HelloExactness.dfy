/**
 Exactly which first flights of a server the ServerHello loop of `packages/tls/src/handshake.ts`
 takes: a valid ServerHello, or a valid HelloRetryRequest and then a valid ServerHello, said of the
 decoded messages (sections 4.1.3 and 4.1.4 of RFC 8446).
 */
module HelloExactness {
  import opened Bytes
  import opened HandshakeCodec
  import opened HandshakeMessages
  import opened DecodedForms
  import opened HandshakeFlight
  import opened HandshakeHello

  // ----- what is valid

  predicate IsSuite(code: nat, suite: SuiteName) {
    match suite
    case Aes128Sha256 => code == 0x1301
    case Aes256Sha384 => code == 0x1302
  }

  predicate IsGroup(code: nat, group: Group) {
    match group
    case X25519 => code == 0x001d
    case P256 => code == 0x0017
    case P384 => code == 0x0018
  }

  /** Of the group's length, and an uncompressed point on the curves that have several forms. */
  predicate IsPublicKey(group: Group, key: bytes) {
    match group
    case X25519 => |key| == 32
    case P256 => |key| == 65 && key[0] == 0x04
    case P384 => |key| == 97 && key[0] == 0x04
  }

  /** The server says it could have agreed on an older version. */
  predicate WarnsOfDowngrade(random: bytes) {
    |random| == 32 && random[24..31] == Ascii("DOWNGRD") && random[31] in {0, 1}
  }

  /** What a ServerHello and a HelloRetryRequest have in common. */
  predicate IsTls13(setup: Setup, m: Message, suite: SuiteName) {
    && m.ServerHello? && m.compressionMethod == 0 && m.sessionIdEcho == setup.sessionId
    && !WarnsOfDowngrade(m.random)
    && SupportedVersions([0x0304], true) in m.extensions
    && IsSuite(m.cipherSuite, suite)
  }

  /** The share is for the group we shared, and a session is taken exactly when the server says so. */
  ghost predicate IsValidServerHello(
    setup: Setup, group: Group, session: Option<Session>, m: Message, suite: SuiteName, taken: Option<Session>, share: bytes)
  {
    && IsTls13(setup, m, suite) && m.random != HRR_MAGIC
    && (forall e | e in m.extensions ::
          TypeCodeOf(e) in setup.offer.extensions && (e.SupportedVersions? || e.KeyShare? || e.PreSharedKey?))
    && (exists code :: IsGroup(code, group) && KeyShare(None, Some(KeyShareEntry(code, share)), None) in m.extensions)
    && IsPublicKey(group, share)
    && match taken
       case None => forall e | e in m.extensions :: !e.PreSharedKey?
       case Some(s) => PreSharedKey(None, None, Some(0)) in m.extensions && session == Some(s) && s.suite == suite
  }

  ghost predicate AsksForShare(m: Message)
    requires m.ServerHello?
  {
    exists e :: e in m.extensions && e.KeyShare?
  }

  /** It asks for a group we offered and have not shared, or has a cookie of at most 16384 octets, or both. */
  ghost predicate IsValidRetry(setup: Setup, m: Message, suite: SuiteName, group: Group, cookie: Option<bytes>) {
    && IsTls13(setup, m, suite) && m.random == HRR_MAGIC
    && (forall e | e in m.extensions ::
          e.Cookie? || (TypeCodeOf(e) in setup.offer.extensions && (e.SupportedVersions? || e.KeyShare?)))
    && (AsksForShare(m) || cookie.Some?)
    && (match cookie
        case None => forall e | e in m.extensions :: !e.Cookie?
        case Some(c) => Cookie(c) in m.extensions && |c| <= 16384)
    && if AsksForShare(m) then
         && group != setup.firstGroup
         && exists code :: IsGroup(code, group) && code in setup.groups && KeyShare(None, None, Some(code)) in m.extensions
       else group == setup.firstGroup
  }

  /** One valid ServerHello, or a valid HelloRetryRequest and a valid ServerHello, and the transcript each leads to. */
  ghost predicate IsHelloFlight(setup: Setup, ms: seq<bytes>, agreement: Agreement) {
    if !agreement.isRetried then
      && |ms| == 1 && DecodeMessage(ms[0]).Ok? && agreement.group == setup.firstGroup
      && IsValidServerHello(setup, agreement.group, setup.session, DecodeMessage(ms[0]).value,
                            agreement.suite, agreement.taken, agreement.share)
      && agreement.transcript == [setup.clientHello, ms[0]]
    else
      |ms| == 2 && DecodeMessage(ms[0]).Ok? && DecodeMessage(ms[1]).Ok?
      && exists cookie :: IsRetriedFlight(setup, ms[0], ms[1], cookie, agreement)
  }

  ghost predicate IsRetriedFlight(setup: Setup, retry: bytes, hello: bytes, cookie: Option<bytes>, agreement: Agreement)
    requires DecodeMessage(retry).Ok? && DecodeMessage(hello).Ok?
  {
    && IsValidRetry(setup, DecodeMessage(retry).value, agreement.suite, agreement.group, cookie)
    && IsRetriedAgreement(setup, retry, hello, cookie, agreement)
  }

  /** ClientHello1 is a hash under the suite; a session stays offered under that suite's hash only. */
  ghost predicate IsRetriedAgreement(setup: Setup, retry: bytes, hello: bytes, cookie: Option<bytes>, agreement: Agreement)
    requires DecodeMessage(retry).Ok? && DecodeMessage(retry).value.ServerHello? && DecodeMessage(hello).Ok?
  {
    var session := if setup.session.Some? && setup.session.value.suite == agreement.suite then setup.session else None;
    var hash := [254] + PutVec24(setup.checks.hash(agreement.suite, setup.clientHello));
    var second := setup.secondHello(agreement.group, AsksForShare(DecodeMessage(retry).value), cookie, session, [hash, retry]);
    && IsValidServerHello(setup, agreement.group, session, DecodeMessage(hello).value, agreement.suite, agreement.taken, agreement.share)
    && agreement.transcript == [hash, retry, second, hello]
  }

  // ----- the extensions a hello holds

  lemma {:induction false} FindsAre(es: seq<Extension>)
    requires AreDistinct(es)
    ensures match FindVersions(es) { case None => true case Some(e) => e in es && e.SupportedVersions? }
    ensures match FindKeyShare(es) { case None => true case Some(e) => e in es }
    ensures match FindCookie(es) { case None => true case Some(e) => e in es }
    ensures match FindPsk(es) { case None => true case Some(e) => e in es }
    ensures forall e | e in es :: e.SupportedVersions? ==> FindVersions(es) == Some(e)
    ensures forall e | e in es :: e.KeyShare? ==> FindKeyShare(es) == Some(e)
    ensures forall e | e in es :: e.Cookie? ==> FindCookie(es) == Some(e)
    ensures forall e | e in es :: e.PreSharedKey? ==> FindPsk(es) == Some(e)
  {
    if es != [] {
      FindsAre(es[1..]);
      forall e | e in es
        ensures e == es[0] || (e in es[1..] && TypeCodeOf(e) != TypeCodeOf(es[0]))
      {
        var k :| 0 <= k < |es| && es[k] == e;
        assert k > 0 ==> es[1..][k - 1] == e;
      }
    }
  }

  /** What a decoded hello is known to be. */
  lemma HelloForm(message: bytes)
    requires DecodeMessage(message).Ok? && DecodeMessage(message).value.ServerHello?
    ensures var m := DecodeMessage(message).value;
            && |m.random| == 32 && AreDistinct(m.extensions)
            && forall e | e in m.extensions :: DefinedIn(e, if m.random == HRR_MAGIC then InRetryRequest else InServerHello)
  {
    hide DecodeMessageBody, DecodeServerHello, DefinedIn, TypeCodeOf, Vec24;
    var body := Vec24(message[1..]).value.0;
    MessageKind(Get8(message), body);
    ServerHelloDecoded(body);
    ServerHelloForm(body);
  }

  lemma ServerHelloDecoded(body: bytes)
    ensures DecodeMessageBody(2, body) == DecodeServerHello(body)
  {
    hide DecodeServerHello;
  }

  lemma SentinelWarns(random: bytes)
    requires |random| == 32
    ensures EndsInSentinel(random) <==> WarnsOfDowngrade(random)
  {
    assert Ascii("DOWNGRD") == [0x44, 0x4f, 0x57, 0x4e, 0x47, 0x52, 0x44];
    assert random[24..] == random[24..31] + [random[31]];
    assert DOWNGRADE_1_2 == Ascii("DOWNGRD") + [1] && DOWNGRADE_1_1 == Ascii("DOWNGRD") + [0];
  }

  lemma VersionSelected(m: Message, context: Context)
    requires m.ServerHello? && AreDistinct(m.extensions) && context != InClientHello
    requires forall e | e in m.extensions :: DefinedIn(e, context)
    ensures SelectsTls13(m.extensions) <==> SupportedVersions([0x0304], true) in m.extensions
  {
    hide TypeCodeOf;
    FindsAre(m.extensions);
    if SelectsTls13(m.extensions) {
      var e := FindVersions(m.extensions).value;
      assert DefinedIn(e, context);
      assert e.versions == [0x0304];
    }
  }

  /** Types and kinds are the same thing where a hello's extensions stand. */
  lemma KindOfType(e: Extension, context: Context)
    requires DefinedIn(e, context) && context.IsHello()
    ensures TypeCodeOf(e) == 43 <==> e.SupportedVersions?
    ensures TypeCodeOf(e) == 51 <==> e.KeyShare?
    ensures TypeCodeOf(e) == 41 <==> e.PreSharedKey?
    ensures TypeCodeOf(e) == 44 <==> e.Cookie?
  {
  }

  lemma InPlace(setup: Setup, m: Message)
    requires m.ServerHello?
    requires forall e | e in m.extensions :: DefinedIn(e, if m.random == HRR_MAGIC then InRetryRequest else InServerHello)
    ensures Misplaced(m.extensions, setup.offer.extensions + {COOKIE_TYPE},
                      if m.random == HRR_MAGIC then PERMITTED_IN_RETRY_REQUEST else PERMITTED_IN_SERVER_HELLO) == None
       <==> forall e | e in m.extensions ::
              if m.random == HRR_MAGIC
              then e.Cookie? || (TypeCodeOf(e) in setup.offer.extensions && (e.SupportedVersions? || e.KeyShare?))
              else TypeCodeOf(e) in setup.offer.extensions && (e.SupportedVersions? || e.KeyShare? || e.PreSharedKey?)
  {
    hide TypeCodeOf, DefinedIn, Misplaced;
    var es := m.extensions;
    var offered := setup.offer.extensions + {COOKIE_TYPE};
    var permitted := if m.random == HRR_MAGIC then PERMITTED_IN_RETRY_REQUEST else PERMITTED_IN_SERVER_HELLO;
    MisplacedIs(es, offered, permitted);
    forall e | e in es
      ensures TypeCodeOf(e) in offered * permitted
         <==> if m.random == HRR_MAGIC
              then e.Cookie? || (TypeCodeOf(e) in setup.offer.extensions && (e.SupportedVersions? || e.KeyShare?))
              else TypeCodeOf(e) in setup.offer.extensions && (e.SupportedVersions? || e.KeyShare? || e.PreSharedKey?)
    {
      KindOfType(e, if m.random == HRR_MAGIC then InRetryRequest else InServerHello);
    }
    if Misplaced(es, offered, permitted) == None {
      forall e | e in es
        ensures TypeCodeOf(e) in offered * permitted
      {
        var k :| 0 <= k < |es| && es[k] == e;
      }
    } else {
      var k :| 0 <= k < |es| && TypeCodeOf(es[k]) !in offered * permitted;
      assert es[k] in es;
    }
  }

  // ----- one message

  ghost predicate AllInPlace(setup: Setup, m: Message)
    requires m.ServerHello?
  {
    forall e | e in m.extensions ::
      if m.random == HRR_MAGIC
      then e.Cookie? || (TypeCodeOf(e) in setup.offer.extensions && (e.SupportedVersions? || e.KeyShare?))
      else TypeCodeOf(e) in setup.offer.extensions && (e.SupportedVersions? || e.KeyShare? || e.PreSharedKey?)
  }

  ghost predicate IsFormed(m: Message) {
    && m.ServerHello? && |m.random| == 32 && AreDistinct(m.extensions)
    && forall e | e in m.extensions :: DefinedIn(e, if m.random == HRR_MAGIC then InRetryRequest else InServerHello)
  }

  lemma CommonExactly(setup: Setup, h: Hello, m: Message, suite: SuiteName)
    requires IsFormed(m)
    ensures CommonChecks(setup, h, m) == Ok(suite)
       <==> IsTls13(setup, m, suite) && AllInPlace(setup, m) && (h.retrySuite.Some? ==> h.retrySuite.value == suite)
  {
    hide DefinedIn, TypeCodeOf, Misplaced, SelectsTls13, EndsInSentinel, WarnsOfDowngrade;
    SentinelWarns(m.random);
    VersionSelected(m, if m.random == HRR_MAGIC then InRetryRequest else InServerHello);
    InPlace(setup, m);
  }

  lemma GroupsAre(group: Group, code: nat, key: bytes)
    ensures IsGroup(code, group) <==> code == GroupCode(group)
    ensures GroupOf(code) == Some(group) <==> IsGroup(code, group)
    ensures |key| == ShareLength(group) && !(group != X25519 && key[0] != 0x04) <==> IsPublicKey(group, key)
  {
  }

  /** What is said of a session: taken at identity 0, or not mentioned. */
  lemma PskExactly(h: Hello, m: Message, suite: SuiteName, taken: Option<Session>)
    requires IsFormed(m) && m.random != HRR_MAGIC
    ensures TakenSession(h, m, suite) == Ok(taken)
       <==> match taken
            case None => forall e | e in m.extensions :: !e.PreSharedKey?
            case Some(s) => PreSharedKey(None, None, Some(0)) in m.extensions && h.session == Some(s) && s.suite == suite
  {
    hide TypeCodeOf, FindPsk;
    FindsAre(m.extensions);
    if FindPsk(m.extensions).Some? {
      assert DefinedIn(FindPsk(m.extensions).value, InServerHello);
    }
  }

  ghost predicate IsChosen(setup: Setup, h: Hello, a: Arrival, m: Message, agreement: Agreement) {
    && IsValidServerHello(setup, h.group, h.session, m, agreement.suite, agreement.taken, agreement.share)
    && (h.retrySuite.Some? ==> h.retrySuite.value == agreement.suite)
    && a.rest == [] && agreement.transcript == h.transcript + [a.message]
    && agreement.group == h.group && agreement.isRetried == h.seenRetry
  }

  lemma ServerHelloExactly(setup: Setup, h: Hello, a: Arrival, m: Message, suite: SuiteName, agreement: Agreement)
    requires h.transcript != [] && IsFormed(m) && m.random != HRR_MAGIC
    requires CommonChecks(setup, h, m) == Ok(suite)
    ensures TakeServerHello(h, m, suite, a) == Chosen(agreement) <==> IsChosen(setup, h, a, m, agreement)
  {
    hide DefinedIn, TypeCodeOf, FindKeyShare, TakenSession, CommonChecks, IsTls13, IsPublicKey, IsGroup;
    CommonExactly(setup, h, m, suite);
    CommonExactly(setup, h, m, agreement.suite);
    FindsAre(m.extensions);
    PskExactly(h, m, suite, agreement.taken);
    if FindKeyShare(m.extensions).Some? {
      var e := FindKeyShare(m.extensions).value;
      ShareForm(e);
      GroupsAre(h.group, e.serverShare.value.group, e.serverShare.value.keyExchange);
    }
    if IsChosen(setup, h, a, m, agreement) {
      var code :| IsGroup(code, h.group) && KeyShare(None, Some(KeyShareEntry(code, agreement.share)), None) in m.extensions;
      GroupsAre(h.group, code, agreement.share);
    }
  }

  lemma ShareForm(e: Extension)
    requires e.KeyShare?
    ensures DefinedIn(e, InServerHello) ==> e.serverShare.Some? && e == KeyShare(None, e.serverShare, None)
    ensures DefinedIn(e, InRetryRequest) ==> e.selectedGroup.Some? && e == KeyShare(None, None, e.selectedGroup)
  {
  }

  /** The state a HelloRetryRequest leaves, from the first one. */
  ghost predicate IsRetried(setup: Setup, a: Arrival, m: Message, suite: SuiteName, cookie: Option<bytes>, h: Hello)
    requires m.ServerHello?
  {
    var session := if setup.session.Some? && setup.session.value.suite == suite then setup.session else None;
    var hash := [254] + PutVec24(setup.checks.hash(suite, setup.clientHello));
    var second := setup.secondHello(h.group, AsksForShare(m), cookie, session, [hash, a.message]);
    && IsValidRetry(setup, m, suite, h.group, cookie) && a.rest == []
    && h == Hello([hash, a.message, second], true, Some(suite), h.group, session)
  }

  function CookieOf(m: Message): Option<bytes>
    requires m.ServerHello?
  {
    match FindCookie(m.extensions) case Some(e) => Some(e.cookie) case None => None
  }

  /** Which group a valid retry asks for, and with which cookie. */
  lemma RetryAsks(setup: Setup, m: Message, group: Group, cookie: Option<bytes>)
    requires IsFormed(m) && m.random == HRR_MAGIC
    ensures AsksForShare(m) <==> FindKeyShare(m.extensions).Some?
    ensures RetriedGroup(setup, FirstHello(setup), FindKeyShare(m.extensions)) == Some(group)
       <==> if AsksForShare(m) then
              && group != setup.firstGroup
              && exists code :: IsGroup(code, group) && code in setup.groups && KeyShare(None, None, Some(code)) in m.extensions
            else group == setup.firstGroup
    ensures cookie == CookieOf(m)
       <==> match cookie case None => forall e | e in m.extensions :: !e.Cookie? case Some(c) => Cookie(c) in m.extensions
  {
    hide DefinedIn, TypeCodeOf, FindKeyShare, FindCookie, IsGroup, GroupOf;
    FindsAre(m.extensions);
    if FindKeyShare(m.extensions).Some? {
      var e := FindKeyShare(m.extensions).value;
      ShareForm(e);
      GroupsAre(group, e.selectedGroup.value, []);
    }
  }

  lemma RetryExactly(setup: Setup, a: Arrival, m: Message, suite: SuiteName, cookie: Option<bytes>, h: Hello)
    requires IsFormed(m) && m.random == HRR_MAGIC && CommonChecks(setup, FirstHello(setup), m) == Ok(suite)
    ensures TakeRetry(setup, FirstHello(setup), m, suite, a) == Retried(h) && cookie == CookieOf(m)
       <==> IsRetried(setup, a, m, suite, cookie, h)
  {
    hide DefinedIn, TypeCodeOf, FindKeyShare, FindCookie, CommonChecks, IsTls13, IsGroup, GroupOf, RetriedGroup, AsksForShare;
    CommonExactly(setup, FirstHello(setup), m, suite);
    RetryAsks(setup, m, h.group, cookie);
    var first := [setup.clientHello];
    var hash := [254] + PutVec24(setup.checks.hash(suite, setup.clientHello));
    assert first[1..] == [] && [hash] + first[1..] + [a.message] == [hash, a.message];
    assert forall s: bytes :: [hash, a.message] + [s] == [hash, a.message, s];
  }

  /** Whether, and how, a message is taken behind the state `h`. */
  lemma ChosenExactly(setup: Setup, h: Hello, a: Arrival, agreement: Agreement)
    requires h.transcript != []
    ensures HelloTurn(setup, h, a) == Chosen(agreement)
       <==> DecodeMessage(a.message).Ok? && IsChosen(setup, h, a, DecodeMessage(a.message).value, agreement)
  {
    hide DecodeMessage, CommonChecks, TakeServerHello, TakeRetry, AreDistinct, DefinedIn, IsTls13;
    if DecodeMessage(a.message).Ok? {
      var m := DecodeMessage(a.message).value;
      if m.ServerHello? {
        HelloForm(a.message);
        CommonExactly(setup, h, m, agreement.suite);
        if CommonChecks(setup, h, m).Ok? && m.random != HRR_MAGIC {
          ServerHelloExactly(setup, h, a, m, CommonChecks(setup, h, m).value, agreement);
        }
        RetryIsNoChoice(setup, h, m, a);
      } else {
        NoHello(setup, h, m, agreement.suite);
      }
    }
  }

  lemma RetryIsNoChoice(setup: Setup, h: Hello, m: Message, a: Arrival)
    requires m.ServerHello? && h.transcript != []
    ensures forall suite :: !TakeRetry(setup, h, m, suite, a).Chosen?
    ensures forall suite :: !TakeServerHello(h, m, suite, a).Retried?
  {
  }

  lemma NoHello(setup: Setup, h: Hello, m: Message, suite: SuiteName)
    requires !m.ServerHello?
    ensures CommonChecks(setup, h, m).Bad? && !IsTls13(setup, m, suite)
  {
  }

  lemma RetriedExactly(setup: Setup, a: Arrival, suite: SuiteName, cookie: Option<bytes>, h: Hello)
    ensures HelloTurn(setup, FirstHello(setup), a) == Retried(h) && h.retrySuite == Some(suite)
            && DecodeMessage(a.message).Ok? && DecodeMessage(a.message).value.ServerHello?
            && cookie == CookieOf(DecodeMessage(a.message).value)
       <==> DecodeMessage(a.message).Ok? && DecodeMessage(a.message).value.ServerHello?
            && IsRetried(setup, a, DecodeMessage(a.message).value, suite, cookie, h)
  {
    hide DecodeMessage, CommonChecks, TakeServerHello, TakeRetry, AreDistinct, DefinedIn, IsTls13, CookieOf, AsksForShare;
    var first := FirstHello(setup);
    if DecodeMessage(a.message).Ok? {
      var m := DecodeMessage(a.message).value;
      if m.ServerHello? {
        HelloForm(a.message);
        CommonExactly(setup, first, m, suite);
        RetryIsNoChoice(setup, first, m, a);
        if CommonChecks(setup, first, m).Ok? && m.random == HRR_MAGIC {
          RetryExactly(setup, a, m, CommonChecks(setup, first, m).value, cookie, h);
          RetrySuite(setup, m, CommonChecks(setup, first, m).value, a);
        }
      } else {
        NoHello(setup, first, m, suite);
      }
    }
  }

  lemma RetrySuite(setup: Setup, m: Message, suite: SuiteName, a: Arrival)
    requires m.ServerHello?
    ensures var turned := TakeRetry(setup, FirstHello(setup), m, suite, a);
            turned.Retried? ==> turned.hello.retrySuite == Some(suite)
  {
  }

  // ----- the flight

  lemma FirstMessages(arrivals: seq<Arrival>)
    ensures |arrivals| > 0 ==> Messages(arrivals[..1]) == [arrivals[0].message]
    ensures |arrivals| > 1 ==> Messages(arrivals[..2]) == [arrivals[0].message, arrivals[1].message]
  {
  }

  lemma OneHello(setup: Setup, arrivals: seq<Arrival>, agreement: Agreement)
    requires arrivals != [] && !agreement.isRetried
    ensures HelloTurn(setup, FirstHello(setup), arrivals[0]) == Chosen(agreement)
       <==> IsHelloFlight(setup, Messages(arrivals[..1]), agreement) && arrivals[0].rest == []
  {
    hide HelloTurn, DecodeMessage, IsValidServerHello;
    FirstMessages(arrivals);
    ChosenExactly(setup, FirstHello(setup), arrivals[0], agreement);
    assert [setup.clientHello] + [arrivals[0].message] == [setup.clientHello, arrivals[0].message];
  }

  /** The retried state for what the flight says. */
  ghost function StateAfterRetry(setup: Setup, retry: bytes, cookie: Option<bytes>, agreement: Agreement): Hello
    requires DecodeMessage(retry).Ok? && DecodeMessage(retry).value.ServerHello?
  {
    var session := if setup.session.Some? && setup.session.value.suite == agreement.suite then setup.session else None;
    var hash := [254] + PutVec24(setup.checks.hash(agreement.suite, setup.clientHello));
    var second := setup.secondHello(agreement.group, AsksForShare(DecodeMessage(retry).value), cookie, session, [hash, retry]);
    Hello([hash, retry, second], true, Some(agreement.suite), agreement.group, session)
  }

  lemma AgreedBehindRetry(setup: Setup, retry: Arrival, hello: Arrival, cookie: Option<bytes>, agreement: Agreement)
    requires DecodeMessage(retry.message).Ok? && DecodeMessage(retry.message).value.ServerHello? && agreement.isRetried
    ensures var h := StateAfterRetry(setup, retry.message, cookie, agreement);
            HelloTurn(setup, h, hello) == Chosen(agreement)
            <==> DecodeMessage(hello.message).Ok? && hello.rest == []
                 && IsRetriedAgreement(setup, retry.message, hello.message, cookie, agreement)
  {
    hide HelloTurn, DecodeMessage, IsValidServerHello, AsksForShare;
    var h := StateAfterRetry(setup, retry.message, cookie, agreement);
    ChosenExactly(setup, h, hello, agreement);
    assert h.transcript + [hello.message] == [h.transcript[0], h.transcript[1], h.transcript[2], hello.message];
  }

  lemma TwoHellos(setup: Setup, arrivals: seq<Arrival>, agreement: Agreement)
    requires |arrivals| > 1 && agreement.isRetried
    ensures IsTwice(setup, arrivals[0], arrivals[1], agreement)
       <==> IsHelloFlight(setup, Messages(arrivals[..2]), agreement) && arrivals[0].rest == [] && arrivals[1].rest == []
  {
    hide HelloTurn, DecodeMessage, IsTwice, IsRetriedFlight;
    var a, b := arrivals[0], arrivals[1];
    FirstMessages(arrivals);
    if IsTwice(setup, a, b, agreement) {
      var cookie := TwiceIsFlight(setup, a, b, agreement);
    }
    if IsHelloFlight(setup, Messages(arrivals[..2]), agreement) && a.rest == [] && b.rest == [] {
      var cookie :| IsRetriedFlight(setup, a.message, b.message, cookie, agreement);
      FlightIsTwice(setup, a, b, agreement, cookie);
    }
  }

  /** Both turns of the loop. */
  predicate IsTwice(setup: Setup, a: Arrival, b: Arrival, agreement: Agreement) {
    var turned := HelloTurn(setup, FirstHello(setup), a);
    turned.Retried? && HelloTurn(setup, turned.hello, b) == Chosen(agreement)
  }

  lemma TwiceIsFlight(setup: Setup, a: Arrival, b: Arrival, agreement: Agreement) returns (cookie: Option<bytes>)
    requires IsTwice(setup, a, b, agreement) && agreement.isRetried
    ensures DecodeMessage(a.message).Ok? && DecodeMessage(b.message).Ok? && a.rest == [] && b.rest == []
    ensures IsRetriedFlight(setup, a.message, b.message, cookie, agreement)
  {
    hide HelloTurn, DecodeMessage, IsValidServerHello, IsValidRetry, IsRetriedAgreement, AsksForShare, CookieOf;
    var turned := HelloTurn(setup, FirstHello(setup), a);
    RetryStands(setup, a);
    var m := DecodeMessage(a.message).value;
    var suite := turned.hello.retrySuite.value;
    cookie := CookieOf(m);
    RetriedExactly(setup, a, suite, cookie, turned.hello);
    ChosenExactly(setup, turned.hello, b, agreement);
    assert turned.hello == StateAfterRetry(setup, a.message, cookie, agreement);
    AgreedBehindRetry(setup, a, b, cookie, agreement);
  }

  lemma FlightIsTwice(setup: Setup, a: Arrival, b: Arrival, agreement: Agreement, cookie: Option<bytes>)
    requires DecodeMessage(a.message).Ok? && DecodeMessage(b.message).Ok? && a.rest == [] && b.rest == []
    requires agreement.isRetried && IsRetriedFlight(setup, a.message, b.message, cookie, agreement)
    ensures IsTwice(setup, a, b, agreement)
  {
    hide HelloTurn, DecodeMessage, IsValidServerHello, IsValidRetry, IsRetriedAgreement, AsksForShare;
    ValidIsHello(setup, a.message, b.message, agreement, cookie);
    RetriedExactly(setup, a, agreement.suite, cookie, StateAfterRetry(setup, a.message, cookie, agreement));
    AgreedBehindRetry(setup, a, b, cookie, agreement);
  }

  lemma ValidIsHello(setup: Setup, retry: bytes, hello: bytes, agreement: Agreement, cookie: Option<bytes>)
    requires DecodeMessage(retry).Ok? && DecodeMessage(hello).Ok? && IsRetriedFlight(setup, retry, hello, cookie, agreement)
    ensures DecodeMessage(retry).value.ServerHello?
  {
    hide DecodeMessage;
  }

  lemma RetryStands(setup: Setup, a: Arrival)
    requires HelloTurn(setup, FirstHello(setup), a).Retried?
    ensures DecodeMessage(a.message).Ok? && DecodeMessage(a.message).value.ServerHello?
    ensures HelloTurn(setup, FirstHello(setup), a).hello.retrySuite.Some?
  {
    hide DecodeMessage;
    RetryTurn(setup, FirstHello(setup), a);
  }

  /**
   The loop ends in `agreement` behind `n` messages if and only if they are a valid ServerHello, or a
   valid HelloRetryRequest and then a valid ServerHello, nothing left behind either.
   */
  lemma HelloExactly(setup: Setup, arrivals: seq<Arrival>, n: nat, agreement: Agreement)
    ensures RunHello(setup, FirstHello(setup), arrivals) == Agreed(agreement, n)
       <==> n <= |arrivals| && IsHelloFlight(setup, Messages(arrivals[..n]), agreement)
            && forall k | 0 <= k < n :: arrivals[k].rest == []
  {
    hide HelloTurn, RunHello, IsHelloFlight;
    FlightLength(setup, arrivals, n, agreement);
    LoopLength(setup, arrivals);
    if n == 1 && !agreement.isRetried && |arrivals| > 0 {
      OneHello(setup, arrivals, agreement);
    } else if n == 2 && agreement.isRetried && |arrivals| > 1 {
      TwoHellos(setup, arrivals, agreement);
    }
  }

  lemma FlightLength(setup: Setup, arrivals: seq<Arrival>, n: nat, agreement: Agreement)
    ensures n <= |arrivals| && IsHelloFlight(setup, Messages(arrivals[..n]), agreement) ==> n == if agreement.isRetried then 2 else 1
  {
    hide DecodeMessage;
  }

  /** The loop ends at the first message, or behind a retry at the second. */
  lemma LoopLength(setup: Setup, arrivals: seq<Arrival>)
    ensures var first := FirstHello(setup);
            var end := RunHello(setup, first, arrivals);
            && (end.Agreed? ==> end.used == (if end.agreement.isRetried then 2 else 1) && end.used <= |arrivals|)
            && forall agreement: Agreement ::
              && (!agreement.isRetried ==>
                    (end == Agreed(agreement, 1) <==> arrivals != [] && HelloTurn(setup, first, arrivals[0]) == Chosen(agreement)))
              && (agreement.isRetried ==>
                    (end == Agreed(agreement, 2)
                     <==> |arrivals| > 1 && HelloTurn(setup, first, arrivals[0]).Retried?
                          && HelloTurn(setup, HelloTurn(setup, first, arrivals[0]).hello, arrivals[1]) == Chosen(agreement)))
  {
    hide HelloTurn, RunHello;
    var first := FirstHello(setup);
    HelloStep(setup, first, arrivals);
    if arrivals != [] {
      var turned := HelloTurn(setup, first, arrivals[0]);
      KnowsRetry(setup, first, arrivals[0]);
      if turned.Retried? {
        AfterRetry(setup, turned.hello, arrivals[1..]);
        HelloStep(setup, turned.hello, arrivals[1..]);
        if |arrivals| > 1 {
          KnowsRetry(setup, turned.hello, arrivals[1]);
        }
      }
    }
  }

  lemma KnowsRetry(setup: Setup, h: Hello, a: Arrival)
    requires h.transcript != []
    ensures var turned := HelloTurn(setup, h, a);
            && (turned.Chosen? ==> turned.agreement.isRetried == h.seenRetry)
            && (turned.Retried? ==> turned.hello.seenRetry && turned.hello.transcript != [])
  {
    hide DecodeMessage;
    RetryTurn(setup, h, a);
  }
}
