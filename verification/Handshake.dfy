/**
 A whole client handshake (`packages/tls/src/handshake.ts`, `packages/tls/src/transcript.ts`): the
 ServerHello loop, the encrypted flight, the client's Finished. First what a successful one consists
 of, then the same in the source's own form, with the transcript as an object.
 */
module Handshake {
  import opened Bytes
  import opened HandshakeCodec
  import opened HandshakeMessages
  import opened TlsReading
  import opened HandshakeFlight
  import opened HandshakeHello

  function Encoded(m: Message): bytes {
    match EncodeMessage(m)
    case None => []
    case Some(message) => message
  }

  datatype Connection = Established(
    agreement: Agreement, flight: Flight, pin: Option<bytes>,
    /** Through the server's Finished, and through the client's. */
    serverTranscript: seq<bytes>, transcript: seq<bytes>)

  datatype Shaken = Connected(connection: Connection) | Aborted(description: AlertDescription) | StreamEnded

  function PskOf(agreement: Agreement): Option<bytes> {
    match agreement.taken
    case None => None
    case Some(session) => Some(session.psk)
  }

  function TermsOf(setup: Setup, agreement: Agreement, shared: bytes): Terms {
    Terms(agreement.suite,
          setup.serverSecret(agreement.suite, PskOf(agreement), shared,
                             TranscriptHash(setup.checks, agreement.suite, agreement.transcript)),
          agreement.taken.Some?)
  }

  /** An empty Certificate, when one was asked for, and the Finished over everything before it. */
  function ClientFlight(setup: Setup, agreement: Agreement, shared: bytes, flight: Flight): seq<bytes> {
    var answer := match flight.requestContext
                  case None => []
                  case Some(context) => [Encoded(Certificate(context, []))];
    var secret := setup.clientSecret(agreement.suite, PskOf(agreement), shared,
                                     TranscriptHash(setup.checks, agreement.suite, agreement.transcript));
    var mac := setup.clientMac(agreement.suite, secret, TranscriptHash(setup.checks, agreement.suite, flight.transcript + answer));
    answer + [Encoded(Finished(mac))]
  }

  /** A resumption asks for the stored chain's path again, unless told not to. */
  function Reverified(setup: Setup, agreement: Agreement, flight: Flight): Decoded<Option<bytes>> {
    if agreement.taken.None? then Ok(if flight.verified.Some? then Some(flight.verified.value.pin) else None)
    else if !setup.reverify then Ok(None)
    else
      match setup.checks.validate(agreement.taken.value.chain)
      case NoPath(description) => Bad(description)
      case Path(pin) => Ok(Some(pin))
  }

  function Conclude(setup: Setup, agreement: Agreement, shared: bytes, flight: Flight): Shaken {
    match Reverified(setup, agreement, flight)
    case Bad(description) => Aborted(description)
    case Ok(pin) =>
      Connected(Established(agreement, flight, pin, flight.transcript,
                            flight.transcript + ClientFlight(setup, agreement, shared, flight)))
  }

  /** `plain` arrives before the server's keys are in use, `sealed` under them. */
  function Shake(setup: Setup, plain: seq<Arrival>, sealed: seq<Arrival>): Shaken {
    match RunHello(setup, FirstHello(setup), plain)
    case HelloDenied(description) => Aborted(description)
    case HelloStarved => StreamEnded
    case Agreed(agreement, _) =>
      match setup.sharedSecret(agreement.group, agreement.share)
      case None => Aborted(IllegalParameter)
      case Some(shared) =>
        match RunFlight(setup.checks, setup.offer, TermsOf(setup, agreement, shared), Begin(agreement.transcript), sealed)
        case Refused(description) => Aborted(description)
        case Starved => StreamEnded
        case Done(flight, _) => Conclude(setup, agreement, shared, flight)
  }

  /** The parts of a successful handshake, message by message. */
  ghost predicate IsHandshake(setup: Setup, hellos: seq<bytes>, flight: seq<bytes>, shared: bytes, s: Connection) {
    && IsAgreement(setup, hellos, s.agreement)
    && setup.sharedSecret(s.agreement.group, s.agreement.share) == Some(shared)
    && IsFlight(setup.checks, setup.offer, TermsOf(setup, s.agreement, shared), s.agreement.transcript, flight)
    && s.serverTranscript == s.agreement.transcript + flight
    && s.transcript == s.serverTranscript + ClientFlight(setup, s.agreement, shared, s.flight)
    && IsAuthenticated(setup, flight, s)
  }

  /** Who the peer is: the path and signature of this flight, or the session taken, re-checked if asked. */
  ghost predicate IsAuthenticated(setup: Setup, flight: seq<bytes>, s: Connection) {
    if s.agreement.taken.Some? then
      && s.agreement.taken == setup.session && setup.session.value.suite == s.agreement.suite
      && (setup.reverify ==> s.pin.Some? && setup.checks.validate(setup.session.value.chain) == Path(s.pin.value))
    else
      && |flight| >= 4
      && var chain := ChainOf(flight[|flight| - 3]);
         && s.pin.Some? && setup.checks.validate(chain) == Path(s.pin.value)
         && s.flight.verified == Some(Proven(SchemeOf(flight[|flight| - 2]), s.pin.value))
         && SchemeOf(flight[|flight| - 2]) in setup.offer.schemes
         && (s.flight.requestContext.Some? <==> |flight| > 4)
  }

  lemma FinishedFlight(setup: Setup, terms: Terms, before: seq<bytes>, flight: seq<bytes>)
    requires IsFlight(setup.checks, setup.offer, terms, before, flight) && !terms.isResumed
    ensures |flight| >= 4
    ensures var n := |flight|;
            && setup.checks.validate(ChainOf(flight[n - 3])).Path?
            && SchemeOf(flight[n - 2]) in setup.offer.schemes
            && ProvenBy(setup.checks, flight[n - 3], flight[n - 2])
               == Proven(SchemeOf(flight[n - 2]), setup.checks.validate(ChainOf(flight[n - 3])).pin)
  {
    hide DecodeMessage, TranscriptHash, ChainOf, IsFinishedOver;
    var ms, n := flight[1..], |flight|;
    assert ms[|ms| - 3] == flight[n - 3] && ms[|ms| - 2] == flight[n - 2];
  }

  /**
   Every success is a handshake: hellos as agreed, a flight in order with its signature and Finished
   over the messages so far, a peer authenticated by it or by the session; and the transcript is the
   messages exchanged, in order, with ClientHello1 as its hash if and only if there was a retry.
   */
  lemma SuccessIsHandshake(setup: Setup, plain: seq<Arrival>, sealed: seq<Arrival>)
    returns (hellos: nat, flight: nat, shared: bytes)
    requires Shake(setup, plain, sealed).Connected?
    ensures 0 < hellos <= |plain| && 0 < flight <= |sealed|
    ensures plain[hellos - 1].rest == [] && sealed[flight - 1].rest == []
    ensures IsHandshake(setup, Messages(plain[..hellos]), Messages(sealed[..flight]), shared, Shake(setup, plain, sealed).connection)
  {
    hide RunHello, RunFlight, IsAgreement, IsFlight, TranscriptHash, ClientFlight, ChainOf, SchemeOf, ProvenBy, MessageHash;
    var end := RunHello(setup, FirstHello(setup), plain);
    HelloIsAgreement(setup, plain);
    var agreement := end.agreement;
    shared := setup.sharedSecret(agreement.group, agreement.share).value;
    var terms := TermsOf(setup, agreement, shared);
    var done := RunFlight(setup.checks, setup.offer, terms, Begin(agreement.transcript), sealed);
    FlightNotes(setup.checks, setup.offer, terms, agreement.transcript, sealed);
    hellos, flight := end.used, done.used;
    if agreement.taken.None? {
      FinishedFlight(setup, terms, agreement.transcript, Messages(sealed[..flight]));
    }
  }
}
