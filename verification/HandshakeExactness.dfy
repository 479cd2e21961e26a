/**
 Exactly which handshakes of `packages/tls/src/handshake.ts` succeed, and what the client holds and has
 sent at the end, said of the decoded messages alone (sections 4.3 and 4.4 of RFC 8446).
 */
module HandshakeExactness {
  import opened Bytes
  import opened HandshakeCodec
  import opened HandshakeMessages
  import opened TlsReading
  import opened HandshakeFlight
  import opened HandshakeHello
  import opened Handshake
  import opened DecodedForms
  import opened HelloExactness
  import CanonicalForms

  // ----- what each message must hold

  /** Answers to an offer only, of types that may stand here. */
  predicate HoldsExtensions(offer: Offer, message: bytes) {
    match DecodeMessage(message)
    case Ok(EncryptedExtensions(extensions)) =>
      forall e | e in extensions ::
        && TypeCodeOf(e) in offer.extensions
        && TypeCodeOf(e) in {0, 1, 10, 14, 15, 16, 19, 20, 28, 42}
    case _ => false
  }

  /** The first entry is the leaf, the others are the intermediates in order; status and timestamps alone may come with them. */
  predicate PresentsChain(offer: Offer, message: bytes, chain: Chain) {
    match DecodeMessage(message)
    case Ok(Certificate(_, entries)) =>
      && |entries| == 1 + |chain.intermediates|
      && chain.leaf == entries[0].certData
      && (forall k | 0 < k < |entries| :: chain.intermediates[k - 1] == entries[k].certData)
      && forall entry, e | entry in entries && e in entry.extensions ::
           TypeCodeOf(e) in offer.extensions && TypeCodeOf(e) in {5, 18}
    case _ => false
  }

  lemma {:induction false} CertDataIs(entries: seq<CertificateEntry>)
    ensures |CertData(entries)| == |entries|
    ensures forall k | 0 <= k < |entries| :: CertData(entries)[k] == entries[k].certData
  {
    if entries != [] {
      CertDataIs(entries[1..]);
    }
  }

  lemma {:induction false} PlacedInEntries(entries: seq<CertificateEntry>, offered: set<nat>)
    ensures MisplacedInEntries(entries, offered) == None
       <==> forall entry, e | entry in entries && e in entry.extensions ::
              TypeCodeOf(e) in offered && TypeCodeOf(e) in {5, 18}
  {
    hide TypeCodeOf, Misplaced;
    if entries != [] {
      PlacedInEntries(entries[1..], offered);
      MisplacedIs(entries[0].extensions, offered, PERMITTED_IN_CERTIFICATE_ENTRY);
      assert forall entry :: entry in entries <==> entry == entries[0] || entry in entries[1..];
      assert forall k | 0 <= k < |entries[0].extensions| :: entries[0].extensions[k] in entries[0].extensions;
    }
  }

  lemma CertificateExactly(offer: Offer, message: bytes, chain: Chain)
    ensures IsCertificate(offer, message) && ChainOf(message) == chain <==> PresentsChain(offer, message, chain)
  {
    hide MisplacedInEntries, TypeCodeOf, CertData;
    match DecodeMessage(message)
    case Ok(Certificate(_, entries)) =>
      PlacedInEntries(entries, offer.extensions);
      if entries != [] {
        var rest := CertData(entries[1..]);
        CertDataIs(entries[1..]);
        assert forall k | 0 < k < |entries| :: rest[k - 1] == entries[k].certData;
        if PresentsChain(offer, message, chain) {
          forall k | 0 <= k < |rest|
            ensures chain.intermediates[k] == rest[k]
          {
            assert chain.intermediates[k] == entries[k + 1].certData;
          }
          assert chain.intermediates == rest;
        }
      }
    case _ =>
  }

  // ----- the server's flight and the client's answer

  /** Signed by the leaf, in a scheme we allow, over what was exchanged before. */
  predicate IsSignedBy(setup: Setup, suite: SuiteName, leaf: bytes, before: seq<bytes>, message: bytes) {
    match DecodeMessage(message)
    case Ok(CertificateVerify(scheme, signature)) =>
      && scheme in setup.offer.schemes
      && setup.checks.verify(scheme, signature, leaf, setup.checks.hash(suite, Flatten(before))) == None
    case _ => false
  }

  predicate IsServerFinished(setup: Setup, suite: SuiteName, secret: bytes, before: seq<bytes>, message: bytes) {
    DecodeMessage(message) == Ok(Finished(setup.checks.serverMac(suite, secret, setup.checks.hash(suite, Flatten(before)))))
  }

  /** The chain shown is the peer's: it has a path, and its leaf signed. */
  predicate IsProven(setup: Setup, suite: SuiteName, chain: Chain, pin: bytes, before: seq<bytes>, message: bytes) {
    && setup.checks.validate(chain) == Path(pin) && setup.checks.decodesLeaf(chain.leaf)
    && IsSignedBy(setup, suite, chain.leaf, before, message)
  }

  ghost predicate IsPeer(setup: Setup, suite: SuiteName, certificate: bytes, pin: bytes, before: seq<bytes>, message: bytes) {
    exists chain :: PresentsChain(setup.offer, certificate, chain) && IsProven(setup, suite, chain, pin, before, message)
  }

  /**
   The messages under the server's handshake keys, with `before` what was exchanged in the clear. With a
   session: EncryptedExtensions and Finished, and the stored chain's path again unless told not to.
   Without: EncryptedExtensions, any CertificateRequests, Certificate, CertificateVerify, Finished.
   */
  ghost predicate IsServerFlight(setup: Setup, agreement: Agreement, secret: bytes, ms: seq<bytes>, pin: Option<bytes>) {
    var before, suite, n := agreement.transcript, agreement.suite, |ms|;
    && n >= 2 && HoldsExtensions(setup.offer, ms[0])
    && IsServerFinished(setup, suite, secret, before + ms[..n - 1], ms[n - 1])
    && match agreement.taken
       case Some(session) =>
         n == 2 && if setup.reverify then pin.Some? && setup.checks.validate(session.chain) == Path(pin.value) else pin == None
       case None =>
         && n >= 4 && pin.Some?
         && (forall message | message in ms[1..n - 3] :: IsRequest(message))
         && IsPeer(setup, suite, ms[n - 3], pin.value, before + ms[..n - 2], ms[n - 2])
  }

  /** The last CertificateRequest asked under this context; None when there was none. */
  ghost predicate IsAsked(ms: seq<bytes>, context: Option<bytes>) {
    if |ms| <= 4 then context == None
    else
      && context.Some?
      && exists extensions :: DecodeMessage(ms[|ms| - 4]) == Ok(CertificateRequest(context.value, extensions))
  }

  /** A Certificate without entries if we were asked for one, and a Finished over everything before it. */
  predicate IsAnswer(setup: Setup, suite: SuiteName, secret: bytes, before: seq<bytes>, context: Option<bytes>, answer: seq<bytes>) {
    var n := |answer|;
    && n == (if context.Some? then 2 else 1)
    && (context.Some? ==> answer[0] == [11] + PutVec24(PutVec8(context.value) + [0, 0, 0]))
    && answer[n - 1] == [20] + PutVec24(setup.clientMac(suite, secret, setup.checks.hash(suite, Flatten(before + answer[..n - 1]))))
  }

  /** A MAC is as long as a hash, 32 or 48 octets. */
  ghost predicate MacsFit(setup: Setup) {
    forall suite, secret: bytes, hash: bytes :: |setup.clientMac(suite, secret, hash)| < 0x1000000
  }

  /** The messages that came are a whole handshake: what it agreed on, whom it authenticated, all that was said. */
  ghost predicate IsWhole(
    setup: Setup, plain: seq<Arrival>, sealed: seq<Arrival>, agreement: Agreement, shared: bytes, context: Option<bytes>,
    answer: seq<bytes>, pin: Option<bytes>, transcript: seq<bytes>)
  {
    var psk := match agreement.taken case None => None case Some(session) => Some(session.psk);
    var hash := setup.checks.hash(agreement.suite, Flatten(agreement.transcript));
    && IsHelloFlight(setup, Messages(plain), agreement) && (forall a | a in plain :: a.rest == [])
    && setup.sharedSecret(agreement.group, agreement.share) == Some(shared)
    && IsServerFlight(setup, agreement, setup.serverSecret(agreement.suite, psk, shared, hash), Messages(sealed), pin)
    && sealed[|sealed| - 1].rest == []
    && IsAsked(Messages(sealed), context)
    && IsAnswer(setup, agreement.suite, setup.clientSecret(agreement.suite, psk, shared, hash),
                agreement.transcript + Messages(sealed), context, answer)
    && transcript == agreement.transcript + Messages(sealed) + answer
  }

  lemma ExtensionsExactly(offer: Offer, message: bytes)
    ensures HoldsExtensions(offer, message) <==> IsExtensions(offer, message)
  {
    hide TypeCodeOf;
    var r := DecodeMessage(message);
    if r.Ok? && r.value.EncryptedExtensions? {
      assert forall k | 0 <= k < |r.value.extensions| :: r.value.extensions[k] in r.value.extensions;
    }
  }

  lemma ProofExactly(setup: Setup, suite: SuiteName, certificate: bytes, pin: bytes, before: seq<bytes>, message: bytes)
    ensures && IsCertificate(setup.offer, certificate)
            && setup.checks.validate(ChainOf(certificate)) == Path(pin)
            && IsProof(setup.checks, setup.offer, ChainOf(certificate), TranscriptHash(setup.checks, suite, before), message)
       <==> IsPeer(setup, suite, certificate, pin, before, message)
  {
    hide DecodeMessage, IsCertificate, PresentsChain, ChainOf;
    CertificateExactly(setup.offer, certificate, ChainOf(certificate));
    forall chain | PresentsChain(setup.offer, certificate, chain)
      ensures chain == ChainOf(certificate)
    {
      CertificateExactly(setup.offer, certificate, chain);
    }
    assert IsCertificate(setup.offer, certificate) ==> PresentsChain(setup.offer, certificate, ChainOf(certificate));
  }

  /** Whom the flight authenticates, as the model reads it off the messages. */
  predicate PinIs(setup: Setup, agreement: Agreement, ms: seq<bytes>, pin: Option<bytes>) {
    match agreement.taken
    case Some(session) =>
      if setup.reverify then pin.Some? && setup.checks.validate(session.chain) == Path(pin.value) else pin == None
    case None => |ms| >= 4 && pin.Some? && setup.checks.validate(ChainOf(ms[|ms| - 3])) == Path(pin.value)
  }

  lemma ServerFlightExactly(setup: Setup, agreement: Agreement, shared: bytes, ms: seq<bytes>, pin: Option<bytes>)
    ensures IsFlight(setup.checks, setup.offer, TermsOf(setup, agreement, shared), agreement.transcript, ms)
            && PinIs(setup, agreement, ms, pin)
       <==> IsServerFlight(setup, agreement, TermsOf(setup, agreement, shared).secret, ms, pin)
  {
    hide DecodeMessage, IsExtensions, HoldsExtensions, IsRequest, IsCertificate, IsProof, IsPeer, ChainOf;
    var before := agreement.transcript;
    var n := |ms|;
    if n >= 2 {
      ExtensionsExactly(setup.offer, ms[0]);
      if agreement.taken.None? && n >= 4 && pin.Some? {
        var tail := ms[1..];
        assert before + ms[..1] + tail[..n - 4 + 1] == before + ms[..n - 2];
        assert before + ms[..1] + tail[..n - 4 + 2] == before + ms[..n - 1];
        assert tail[n - 4] == ms[n - 3] && tail[n - 3] == ms[n - 2] && tail[n - 2] == ms[n - 1];
        assert ms[1..n - 3] == tail[..n - 4];
        assert forall k | 0 <= k < n - 4 :: tail[k] in ms[1..n - 3];
        ProofExactly(setup, agreement.suite, ms[n - 3], pin.value, before + ms[..n - 2], ms[n - 2]);
      }
    }
  }

  lemma AnswerExactly(setup: Setup, agreement: Agreement, shared: bytes, flight: Flight, answer: seq<bytes>)
    requires MacsFit(setup) && (flight.requestContext.Some? ==> |flight.requestContext.value| < 0x100)
    ensures var psk, hash := PskOf(agreement), TranscriptHash(setup.checks, agreement.suite, agreement.transcript);
            answer == ClientFlight(setup, agreement, shared, flight)
            <==> IsAnswer(setup, agreement.suite, setup.clientSecret(agreement.suite, psk, shared, hash),
                          flight.transcript, flight.requestContext, answer)
  {
    hide PutVec8, PutVec24;
    var sent := ClientFlight(setup, agreement, shared, flight);
    var front := sent[..|sent| - 1];
    if flight.requestContext.Some? {
      EmptyCertificate(flight.requestContext.value);
      assert front == [sent[0]];
      assert |answer| == 2 ==> answer == [answer[0], answer[1]] && answer[..1] == [answer[0]];
    } else {
      assert front == [] && flight.transcript + [] == flight.transcript;
      assert |answer| == 1 ==> answer == [answer[0]] && answer[..0] == [];
    }
    var secret := setup.clientSecret(agreement.suite, PskOf(agreement), shared,
                                     TranscriptHash(setup.checks, agreement.suite, agreement.transcript));
    var mac := setup.clientMac(agreement.suite, secret, TranscriptHash(setup.checks, agreement.suite, flight.transcript + front));
    FinishedIs(mac);
  }

  lemma EmptyCertificate(context: bytes)
    requires |context| < 0x100
    ensures Encoded(Certificate(context, [])) == [11] + PutVec24(PutVec8(context) + [0, 0, 0])
  {
    assert PutEntries([]) == [] && PutVec24([]) == [0, 0, 0];
  }

  lemma FinishedIs(mac: bytes)
    requires |mac| < 0x1000000
    ensures Encoded(Finished(mac)) == [20] + PutVec24(mac)
  {
  }

  lemma RequestContext(message: bytes)
    requires IsRequest(message)
    ensures |RequestContextOf(message)| < 0x100
  {
    hide DecodeExtensions, Vec8, Vec24, DecodeClientHello, DecodeServerHello, DecodeCertificate, DecodeCertificateVerify,
         DecodeTicket, DecodeKeyUpdate;
    var body := Vec24(message[1..]).value.0;
    MessageKind(message[0], body);
    CanonicalForms.VecBack(body);
  }

  /** A context is a vector with a length of one octet. */
  lemma AskedContext(ms: seq<bytes>, context: Option<bytes>)
    requires IsAsked(ms, context)
    ensures context.Some? ==> |context.value| < 0x100
    ensures context == if |ms| > 4 then Some(RequestContextOf(ms[|ms| - 4])) else None
  {
    if |ms| > 4 {
      RequestContext(ms[|ms| - 4]);
    }
  }

  lemma RequestAsks(ms: seq<bytes>)
    requires |ms| > 4 ==> IsRequest(ms[|ms| - 4])
    ensures IsAsked(ms, if |ms| > 4 then Some(RequestContextOf(ms[|ms| - 4])) else None)
  {
    hide DecodeMessage;
    if |ms| > 4 {
      var m := DecodeMessage(ms[|ms| - 4]).value;
      assert m == CertificateRequest(RequestContextOf(ms[|ms| - 4]), m.extensions);
    }
  }

  lemma FlightRequests(setup: Setup, agreement: Agreement, secret: bytes, ms: seq<bytes>, pin: Option<bytes>)
    requires IsServerFlight(setup, agreement, secret, ms, pin)
    ensures |ms| > 4 ==> IsRequest(ms[|ms| - 4])
  {
    hide IsRequest, HoldsExtensions, IsServerFinished, IsPeer;
    if |ms| > 4 {
      assert ms[1..|ms| - 3][|ms| - 5] == ms[|ms| - 4];
    }
  }

  /** A run that ends took a flight, and noted of it what the connection is made of. */
  lemma FlightHas(setup: Setup, agreement: Agreement, shared: bytes, sealed: seq<Arrival>, pin: Option<bytes>)
    requires RunFlight(setup.checks, setup.offer, TermsOf(setup, agreement, shared), Begin(agreement.transcript), sealed).Done?
    ensures var terms := TermsOf(setup, agreement, shared);
            var end := RunFlight(setup.checks, setup.offer, terms, Begin(agreement.transcript), sealed);
            var ms := Messages(sealed[..end.used]);
            && IsFlight(setup.checks, setup.offer, terms, agreement.transcript, ms)
            && sealed[end.used - 1].rest == [] && end.flight.transcript == agreement.transcript + ms
            && end.flight.requestContext == (if |ms| > 4 then Some(RequestContextOf(ms[|ms| - 4])) else None)
            && (Reverified(setup, agreement, end.flight) == Ok(pin) <==> PinIs(setup, agreement, ms, pin))
  {
    hide RunFlight, IsAuthentication, IsExtensions, IsFinishedOver, TranscriptHash, ChainOf, SchemeOf, RequestContextOf, ProvenBy;
    var terms := TermsOf(setup, agreement, shared);
    FlightNotes(setup.checks, setup.offer, terms, agreement.transcript, sealed);
    if !terms.isResumed {
      var end := RunFlight(setup.checks, setup.offer, terms, Begin(agreement.transcript), sealed);
      FinishedFlight(setup, terms, agreement.transcript, Messages(sealed[..end.used]));
    }
  }

  ghost predicate Yields(setup: Setup, plain: seq<Arrival>, sealed: seq<Arrival>, agreement: Agreement, pin: Option<bytes>, transcript: seq<bytes>) {
    var shaken := Shake(setup, plain, sealed);
    shaken.Connected? && shaken.connection.agreement == agreement && shaken.connection.pin == pin
    && shaken.connection.transcript == transcript
  }

  /** Some messages at the front of each stream are a whole handshake. */
  ghost predicate Holds(setup: Setup, plain: seq<Arrival>, sealed: seq<Arrival>, agreement: Agreement, pin: Option<bytes>, transcript: seq<bytes>) {
    exists n, m, shared, context, answer | 0 <= n <= |plain| && 0 <= m <= |sealed| ::
      IsWhole(setup, plain[..n], sealed[..m], agreement, shared, context, answer, pin, transcript)
  }

  lemma YieldsWhole(setup: Setup, plain: seq<Arrival>, sealed: seq<Arrival>, agreement: Agreement, pin: Option<bytes>, transcript: seq<bytes>)
    requires MacsFit(setup) && Yields(setup, plain, sealed, agreement, pin, transcript)
    ensures Holds(setup, plain, sealed, agreement, pin, transcript)
  {
    hide RunHello, RunFlight, IsHelloFlight, IsServerFlight, IsFlight, IsAnswer, IsAsked, ClientFlight, Messages, ChainOf,
         RequestContextOf, Reverified, PinIs, Begin;
    var n := RunHello(setup, FirstHello(setup), plain).used;
    HelloExactly(setup, plain, n, agreement);
    var shared := setup.sharedSecret(agreement.group, agreement.share).value;
    var terms := TermsOf(setup, agreement, shared);
    var end := RunFlight(setup.checks, setup.offer, terms, Begin(agreement.transcript), sealed);
    FlightHas(setup, agreement, shared, sealed, pin);
    var ms, context := Messages(sealed[..end.used]), end.flight.requestContext;
    ServerFlightExactly(setup, agreement, shared, ms, pin);
    FlightRequests(setup, agreement, terms.secret, ms, pin);
    RequestAsks(ms);
    AskedContext(ms, context);
    var answer := ClientFlight(setup, agreement, shared, end.flight);
    AnswerExactly(setup, agreement, shared, end.flight, answer);
    assert IsWhole(setup, plain[..n], sealed[..end.used], agreement, shared, context, answer, pin, transcript);
  }

  lemma FlightEnds(setup: Setup, agreement: Agreement, shared: bytes, sealed: seq<Arrival>, m: nat)
    requires 0 < m <= |sealed| && sealed[m - 1].rest == []
    requires IsFlight(setup.checks, setup.offer, TermsOf(setup, agreement, shared), agreement.transcript, Messages(sealed[..m]))
    ensures var end := RunFlight(setup.checks, setup.offer, TermsOf(setup, agreement, shared), Begin(agreement.transcript), sealed);
            end.Done? && end.used == m
  {
    hide RunFlight, IsFlight, Messages;
    FlightExactly(setup.checks, setup.offer, TermsOf(setup, agreement, shared), agreement.transcript, sealed, m);
  }

  lemma WholeYields(
    setup: Setup, plain: seq<Arrival>, n: nat, sealed: seq<Arrival>, m: nat, agreement: Agreement, shared: bytes,
    context: Option<bytes>, answer: seq<bytes>, pin: Option<bytes>, transcript: seq<bytes>)
    requires MacsFit(setup) && n <= |plain| && m <= |sealed|
    requires IsWhole(setup, plain[..n], sealed[..m], agreement, shared, context, answer, pin, transcript)
    ensures Yields(setup, plain, sealed, agreement, pin, transcript)
  {
    hide RunHello, RunFlight, IsHelloFlight, IsFlight, IsAnswer, IsAsked, ClientFlight, Messages, ChainOf, RequestContextOf,
         Reverified, PinIs, Begin, HoldsExtensions, IsServerFinished, IsPeer, IsRequest;
    assert forall k | 0 <= k < n :: plain[k] in plain[..n];
    HelloExactly(setup, plain, n, agreement);
    var terms, ms := TermsOf(setup, agreement, shared), Messages(sealed[..m]);
    ServerFlightExactly(setup, agreement, shared, ms, pin);
    assert sealed[..m][m - 1] == sealed[m - 1];
    FlightEnds(setup, agreement, shared, sealed, m);
    FlightHas(setup, agreement, shared, sealed, pin);
    var flight := RunFlight(setup.checks, setup.offer, terms, Begin(agreement.transcript), sealed).flight;
    AskedContext(ms, context);
    AnswerExactly(setup, agreement, shared, flight, answer);
  }

  /**
   The client ends up connected to this peer, on this transcript, if and only if the messages at the
   front of the two streams are a whole handshake: the transcript is theirs in order, and the answer's.
   */
  lemma HandshakeExactly(
    setup: Setup, plain: seq<Arrival>, sealed: seq<Arrival>, agreement: Agreement, pin: Option<bytes>, transcript: seq<bytes>)
    requires MacsFit(setup)
    ensures Yields(setup, plain, sealed, agreement, pin, transcript) <==> Holds(setup, plain, sealed, agreement, pin, transcript)
  {
    hide Yields, IsWhole;
    if Yields(setup, plain, sealed, agreement, pin, transcript) {
      YieldsWhole(setup, plain, sealed, agreement, pin, transcript);
    }
    if Holds(setup, plain, sealed, agreement, pin, transcript) {
      var n, m, shared, context, answer :| 0 <= n <= |plain| && 0 <= m <= |sealed|
        && IsWhole(setup, plain[..n], sealed[..m], agreement, shared, context, answer, pin, transcript);
      WholeYields(setup, plain, n, sealed, m, agreement, shared, context, answer, pin, transcript);
    }
  }
}
