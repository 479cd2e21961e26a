/**
 The server's encrypted flight (`packages/tls/src/handshake.ts`): which messages may come, in which
 order, and what each is checked against. Hashes, MACs, signatures and path validation are functions
 of the environment.
 */
module HandshakeFlight {
  import opened Bytes
  import opened HandshakeCodec
  import opened HandshakeMessages
  import opened TlsReading

  datatype SuiteName = Aes128Sha256 | Aes256Sha384

  datatype Chain = Chain(leaf: bytes, intermediates: seq<bytes>)

  /** A path, with the pin of the key at its end, or the alert that says why there is none. */
  datatype Validation = Path(pin: bytes) | NoPath(description: AlertDescription)

  datatype Checks = Checks(
    hash: (SuiteName, bytes) -> bytes,
    serverMac: (SuiteName, bytes, bytes) -> bytes,
    validate: Chain -> Validation,
    decodesLeaf: bytes -> bool,
    verify: (nat, bytes, bytes, bytes) -> Option<AlertDescription>)

  /** What a ClientHello offered: extension types, and the schemes the caller allows. */
  datatype Offer = Offer(extensions: set<nat>, schemes: seq<nat>)

  function TranscriptHash(checks: Checks, suite: SuiteName, transcript: seq<bytes>): bytes {
    checks.hash(suite, Flatten(transcript))
  }

  // ----- extensions in their places

  const PERMITTED_IN_ENCRYPTED_EXTENSIONS: set<nat> := {0, 1, 10, 14, 15, 16, 19, 20, 28, 42}
  const PERMITTED_IN_CERTIFICATE_ENTRY: set<nat> := {5, 18}

  /** The alert for the first extension that answers no offer, or stands where it may not. */
  function Misplaced(extensions: seq<Extension>, offered: set<nat>, permitted: set<nat>): Option<AlertDescription> {
    if extensions == [] then None
    else if TypeCodeOf(extensions[0]) !in offered then Some(UnsupportedExtension)
    else if TypeCodeOf(extensions[0]) !in permitted then Some(IllegalParameter)
    else Misplaced(extensions[1..], offered, permitted)
  }

  function MisplacedInEntries(entries: seq<CertificateEntry>, offered: set<nat>): Option<AlertDescription> {
    if entries == [] then None
    else
      match Misplaced(entries[0].extensions, offered, PERMITTED_IN_CERTIFICATE_ENTRY)
      case Some(description) => Some(description)
      case None => MisplacedInEntries(entries[1..], offered)
  }

  lemma {:induction false} MisplacedIs(extensions: seq<Extension>, offered: set<nat>, permitted: set<nat>)
    ensures Misplaced(extensions, offered, permitted) == None
       <==> forall k | 0 <= k < |extensions| :: TypeCodeOf(extensions[k]) in offered * permitted
  {
    hide TypeCodeOf;
    if extensions != [] {
      MisplacedIs(extensions[1..], offered, permitted);
      assert forall k | 1 <= k < |extensions| :: extensions[k] == extensions[1..][k - 1];
    }
  }

  function LeafAndRest(entries: seq<CertificateEntry>): Chain
    requires entries != []
  {
    Chain(entries[0].certData, CertData(entries[1..]))
  }

  function CertData(entries: seq<CertificateEntry>): seq<bytes> {
    if entries == [] then [] else [entries[0].certData] + CertData(entries[1..])
  }

  // ----- the loop

  /** What the keys and the ServerHello settled: the suite, the server's traffic secret, whether a session was taken. */
  datatype Terms = Terms(suite: SuiteName, secret: bytes, isResumed: bool)

  datatype Shown = Shown(chain: Chain, hashAtCert: bytes)

  datatype Proven = Proven(scheme: nat, pin: bytes)

  datatype Flight = Flight(
    transcript: seq<bytes>, eeReceived: bool, certificate: Option<Shown>, verified: Option<Proven>, requestContext: Option<bytes>)

  function Begin(transcript: seq<bytes>): Flight {
    Flight(transcript, false, None, None, None)
  }

  /** A whole handshake message, and what the buffer holds behind it. */
  datatype Arrival = Arrival(message: bytes, rest: bytes)

  datatype Turned = Go(flight: Flight) | Refuse(description: AlertDescription) | Complete(flight: Flight)

  function Noted(f: Flight, message: bytes): Flight {
    f.(transcript := f.transcript + [message])
  }

  function TakeExtensions(offer: Offer, f: Flight, m: Message, message: bytes): Turned {
    if !m.EncryptedExtensions? then Refuse(UnexpectedMessage)
    else
      match Misplaced(m.extensions, offer.extensions, PERMITTED_IN_ENCRYPTED_EXTENSIONS)
      case Some(description) => Refuse(description)
      case None => Go(Noted(f, message).(eeReceived := true))
  }

  function TakeCertificate(checks: Checks, offer: Offer, terms: Terms, f: Flight, m: Message, message: bytes): Turned {
    if m.CertificateRequest? then Go(Noted(f, message).(requestContext := Some(m.context)))
    else if !m.Certificate? then Refuse(UnexpectedMessage)
    else if m.certificateList == [] then Refuse(DecodeError)
    else
      match MisplacedInEntries(m.certificateList, offer.extensions)
      case Some(description) => Refuse(description)
      case None =>
        var f' := Noted(f, message);
        Go(f'.(certificate := Some(Shown(LeafAndRest(m.certificateList), TranscriptHash(checks, terms.suite, f'.transcript)))))
  }

  function TakeVerify(checks: Checks, offer: Offer, shown: Shown, f: Flight, m: Message, message: bytes): Turned {
    if !m.CertificateVerify? then Refuse(UnexpectedMessage)
    else if m.scheme !in offer.schemes then Refuse(IllegalParameter)
    else
      match checks.validate(shown.chain)
      case NoPath(description) => Refuse(description)
      case Path(pin) =>
        if !checks.decodesLeaf(shown.chain.leaf) then Refuse(BadCertificate)
        else
          match checks.verify(m.scheme, m.signature, shown.chain.leaf, shown.hashAtCert)
          case Some(description) => Refuse(description)
          case None => Go(Noted(f, message).(verified := Some(Proven(m.scheme, pin))))
  }

  function TakeFinished(checks: Checks, terms: Terms, f: Flight, m: Message, a: Arrival): Turned {
    if !m.Finished? then Refuse(UnexpectedMessage)
    else if m.verifyData != checks.serverMac(terms.suite, terms.secret, TranscriptHash(checks, terms.suite, f.transcript)) then
      Refuse(DecryptError)
    else if a.rest != [] then Refuse(UnexpectedMessage)
    else Complete(Noted(f, a.message))
  }

  function FlightTurn(checks: Checks, offer: Offer, terms: Terms, f: Flight, a: Arrival): Turned {
    match DecodeMessage(a.message)
    case Bad(description) => Refuse(description)
    case Ok(m) =>
      if !f.eeReceived then TakeExtensions(offer, f, m, a.message)
      else if !terms.isResumed && f.certificate.None? then TakeCertificate(checks, offer, terms, f, m, a.message)
      else if !terms.isResumed && f.verified.None? then TakeVerify(checks, offer, f.certificate.value, f, m, a.message)
      else TakeFinished(checks, terms, f, m, a)
  }

  /** The flight's end: every message taken, one refused, or the stream over before either. */
  datatype FlightEnd = Done(flight: Flight, used: nat) | Refused(description: AlertDescription) | Starved

  function RunFlight(checks: Checks, offer: Offer, terms: Terms, f: Flight, arrivals: seq<Arrival>): (end: FlightEnd)
    ensures end.Done? ==> 0 < end.used <= |arrivals|
    decreases |arrivals|
  {
    if arrivals == [] then Starved
    else
      match FlightTurn(checks, offer, terms, f, arrivals[0])
      case Refuse(description) => Refused(description)
      case Complete(f') => Done(f', 1)
      case Go(f') =>
        var later := RunFlight(checks, offer, terms, f', arrivals[1..]);
        if later.Done? then later.(used := later.used + 1) else later
  }

  // ----- which flights there are

  function Messages(arrivals: seq<Arrival>): (r: seq<bytes>)
    ensures |r| == |arrivals| && forall k | 0 <= k < |r| :: r[k] == arrivals[k].message
  {
    if arrivals == [] then [] else [arrivals[0].message] + Messages(arrivals[1..])
  }

  predicate IsExtensions(offer: Offer, message: bytes) {
    match DecodeMessage(message)
    case Ok(EncryptedExtensions(extensions)) =>
      forall k | 0 <= k < |extensions| :: TypeCodeOf(extensions[k]) in offer.extensions * PERMITTED_IN_ENCRYPTED_EXTENSIONS
    case _ => false
  }

  predicate IsRequest(message: bytes) {
    var r := DecodeMessage(message);
    r.Ok? && r.value.CertificateRequest?
  }

  /** A Certificate with a leaf, its extensions in their places. */
  predicate IsCertificate(offer: Offer, message: bytes) {
    match DecodeMessage(message)
    case Ok(Certificate(_, entries)) => entries != [] && MisplacedInEntries(entries, offer.extensions) == None
    case _ => false
  }

  function ChainOf(message: bytes): Chain {
    match DecodeMessage(message)
    case Ok(Certificate(_, entries)) => if entries == [] then Chain([], []) else LeafAndRest(entries)
    case _ => Chain([], [])
  }

  /** The chain has a path, and its leaf signed `hashAtCert` with an offered scheme. */
  predicate IsProof(checks: Checks, offer: Offer, chain: Chain, hashAtCert: bytes, message: bytes) {
    match DecodeMessage(message)
    case Ok(CertificateVerify(scheme, signature)) =>
      && scheme in offer.schemes
      && checks.validate(chain).Path? && checks.decodesLeaf(chain.leaf)
      && checks.verify(scheme, signature, chain.leaf, hashAtCert) == None
    case _ => false
  }

  predicate IsFinishedOver(checks: Checks, terms: Terms, transcript: seq<bytes>, message: bytes) {
    DecodeMessage(message)
    == Ok(Finished(checks.serverMac(terms.suite, terms.secret, TranscriptHash(checks, terms.suite, transcript))))
  }

  /**
   EncryptedExtensions and Finished when a session was taken. Otherwise EncryptedExtensions, any number
   of CertificateRequests, Certificate, CertificateVerify, Finished: the signature over the transcript
   up to the Certificate, the Finished over the transcript up to itself.
   */
  predicate IsFlight(checks: Checks, offer: Offer, terms: Terms, before: seq<bytes>, ms: seq<bytes>) {
    if terms.isResumed then
      && |ms| == 2 && IsExtensions(offer, ms[0])
      && IsFinishedOver(checks, terms, before + ms[..1], ms[1])
    else
      && |ms| >= 4 && IsExtensions(offer, ms[0])
      && IsAuthentication(checks, offer, terms, before + ms[..1], ms[1..])
  }

  /** CertificateRequests, Certificate, CertificateVerify, Finished. */
  predicate IsAuthentication(checks: Checks, offer: Offer, terms: Terms, before: seq<bytes>, ms: seq<bytes>) {
    && |ms| >= 3
    && var n := |ms| - 3;
       && (forall k | 0 <= k < n :: IsRequest(ms[k]))
       && IsCertificate(offer, ms[n])
       && IsProof(checks, offer, ChainOf(ms[n]), TranscriptHash(checks, terms.suite, before + ms[..n + 1]), ms[n + 1])
       && IsFinishedOver(checks, terms, before + ms[..n + 2], ms[n + 2])
  }

  // ----- the loop takes exactly those

  /** Where a run ended, and on what transcript: all that came before, and the messages it used. */
  predicate EndsAt(end: FlightEnd, f: Flight, arrivals: seq<Arrival>, n: nat) {
    && end.Done? && end.used == n && 0 < n <= |arrivals|
    && end.flight.transcript == f.transcript + Messages(arrivals[..n])
    && arrivals[n - 1].rest == []
  }

  predicate AtFinished(terms: Terms, f: Flight) {
    f.eeReceived && (terms.isResumed || (f.certificate.Some? && f.verified.Some?))
  }

  lemma FinishedStage(checks: Checks, offer: Offer, terms: Terms, f: Flight, arrivals: seq<Arrival>)
    requires AtFinished(terms, f)
    ensures var end := RunFlight(checks, offer, terms, f, arrivals);
            if arrivals != [] && IsFinishedOver(checks, terms, f.transcript, arrivals[0].message) && arrivals[0].rest == []
            then EndsAt(end, f, arrivals, 1) && end.flight == Noted(f, arrivals[0].message) else !end.Done?
  {
    hide DecodeMessage, TranscriptHash;
    if arrivals != [] {
      assert arrivals[..1] == [arrivals[0]] && Messages(arrivals[..1]) == [arrivals[0].message];
    }
  }

  lemma VerifyStage(checks: Checks, offer: Offer, terms: Terms, f: Flight, arrivals: seq<Arrival>)
    requires f.eeReceived && !terms.isResumed && f.certificate.Some? && f.verified.None?
    ensures var end := RunFlight(checks, offer, terms, f, arrivals);
            var shown := f.certificate.value;
            if && |arrivals| >= 2 && IsProof(checks, offer, shown.chain, shown.hashAtCert, arrivals[0].message)
               && IsFinishedOver(checks, terms, f.transcript + [arrivals[0].message], arrivals[1].message)
               && arrivals[1].rest == []
            then EndsAt(end, f, arrivals, 2) && end.flight.verified.Some? && end.flight.requestContext == f.requestContext
                 && checks.validate(shown.chain) == Path(end.flight.verified.value.pin)
                 && end.flight.verified.value.scheme in offer.schemes
            else !end.Done?
  {
    hide DecodeMessage, TranscriptHash, IsFinishedOver, TakeFinished;
    if arrivals != [] {
      var turned := FlightTurn(checks, offer, terms, f, arrivals[0]);
      if turned.Go? {
        FinishedStage(checks, offer, terms, turned.flight, arrivals[1..]);
        if |arrivals| >= 2 {
          assert Messages(arrivals[..2]) == [arrivals[0].message] + [arrivals[1].message];
          assert Messages(arrivals[1..][..1]) == [arrivals[1].message];
          ConcatAssoc(f.transcript, [arrivals[0].message], [arrivals[1].message]);
        }
      }
    }
  }

  /** A run one message on, seen from where it began. */
  lemma EndsShift(end: FlightEnd, f: Flight, f': Flight, arrivals: seq<Arrival>, n: nat)
    requires arrivals != [] && f'.transcript == f.transcript + [arrivals[0].message]
    requires end.Done? ==> end.used > 0
    ensures var end' := if end.Done? then end.(used := end.used + 1) else end;
            EndsAt(end', f, arrivals, n + 1) <==> EndsAt(end, f', arrivals[1..], n)
  {
    if n < |arrivals| {
      assert Messages(arrivals[..n + 1]) == [arrivals[0].message] + Messages(arrivals[1..][..n]) by {
        assert arrivals[..n + 1][1..] == arrivals[1..][..n];
      }
      ConcatAssoc(f.transcript, [arrivals[0].message], Messages(arrivals[1..][..n]));
    }
  }

  lemma RequestFirst(checks: Checks, offer: Offer, terms: Terms, before: seq<bytes>, ms: seq<bytes>)
    requires ms != [] && IsRequest(ms[0])
    ensures IsAuthentication(checks, offer, terms, before, ms)
       <==> IsAuthentication(checks, offer, terms, before + ms[..1], ms[1..])
  {
    hide DecodeMessage, TranscriptHash, IsProof, IsFinishedOver, ChainOf;
    var rest := ms[1..];
    assert !IsCertificate(offer, ms[0]);
    if |ms| > 3 {
      var n := |rest| - 3;
      assert before + ms[..1] + rest[..n + 1] == before + ms[..n + 2];
      assert before + ms[..1] + rest[..n + 2] == before + ms[..n + 3];
      assert forall k | 1 <= k < |ms| :: ms[k] == rest[k - 1];
    }
  }

  lemma CertificateFirst(checks: Checks, offer: Offer, terms: Terms, before: seq<bytes>, ms: seq<bytes>)
    requires ms != [] && IsCertificate(offer, ms[0])
    ensures IsAuthentication(checks, offer, terms, before, ms)
       <==> && |ms| == 3
            && IsProof(checks, offer, ChainOf(ms[0]), TranscriptHash(checks, terms.suite, before + ms[..1]), ms[1])
            && IsFinishedOver(checks, terms, before + ms[..1] + [ms[1]], ms[2])
  {
    hide DecodeMessage, TranscriptHash, IsProof, IsFinishedOver, ChainOf;
    assert !IsRequest(ms[0]);
    if |ms| == 3 {
      assert before + ms[..1] + [ms[1]] == before + ms[..2];
    }
  }

  lemma AuthenticationLength(checks: Checks, offer: Offer, terms: Terms, before: seq<bytes>, ms: seq<bytes>)
    ensures IsAuthentication(checks, offer, terms, before, ms) ==> |ms| >= 3
  {
    hide DecodeMessage;
  }

  lemma OtherFirst(checks: Checks, offer: Offer, terms: Terms, before: seq<bytes>, ms: seq<bytes>)
    requires ms == [] || (!IsRequest(ms[0]) && !IsCertificate(offer, ms[0]))
    ensures !IsAuthentication(checks, offer, terms, before, ms)
  {
    hide DecodeMessage;
  }

  lemma CertificateTurn(checks: Checks, offer: Offer, terms: Terms, f: Flight, a: Arrival)
    requires f.eeReceived && !terms.isResumed && f.certificate.None?
    ensures var turned := FlightTurn(checks, offer, terms, f, a);
            && !turned.Complete?
            && (turned.Go? <==> IsRequest(a.message) || IsCertificate(offer, a.message))
            && (turned.Go? ==>
                  && turned.flight.transcript == f.transcript + [a.message]
                  && turned.flight.eeReceived && turned.flight.verified == f.verified
                  && if IsRequest(a.message) then turned.flight.certificate.None?
                     else turned.flight.certificate
                          == Some(Shown(ChainOf(a.message), TranscriptHash(checks, terms.suite, f.transcript + [a.message]))))
  {
    hide DecodeMessage, TranscriptHash;
  }

  lemma RunStep(checks: Checks, offer: Offer, terms: Terms, f: Flight, arrivals: seq<Arrival>)
    ensures var end := RunFlight(checks, offer, terms, f, arrivals);
            if arrivals == [] then end == Starved
            else
              match FlightTurn(checks, offer, terms, f, arrivals[0])
              case Refuse(description) => end == Refused(description)
              case Complete(f') => end == Done(f', 1)
              case Go(f') =>
                var later := RunFlight(checks, offer, terms, f', arrivals[1..]);
                end == if later.Done? then later.(used := later.used + 1) else later
  {
    hide FlightTurn;
  }

  lemma NotEnded(end: FlightEnd, f: Flight, arrivals: seq<Arrival>, n: nat)
    requires !end.Done? || n == 0
    ensures !EndsAt(end, f, arrivals, n)
  {
  }

  lemma MessagesRest(arrivals: seq<Arrival>, n: nat)
    requires 0 < n <= |arrivals|
    ensures Messages(arrivals[..n])[1..] == Messages(arrivals[1..][..n - 1])
    ensures n > 1 ==> arrivals[1..][n - 2] == arrivals[n - 1]
  {
    assert arrivals[..n][1..] == arrivals[1..][..n - 1];
  }

  lemma VerifyEnds(checks: Checks, offer: Offer, terms: Terms, f: Flight, arrivals: seq<Arrival>, n: nat)
    requires f.eeReceived && !terms.isResumed && f.certificate.Some? && f.verified.None? && n <= |arrivals|
    ensures EndsAt(RunFlight(checks, offer, terms, f, arrivals), f, arrivals, n)
       <==> && n == 2
            && var ms, shown := Messages(arrivals[..n]), f.certificate.value;
               && IsProof(checks, offer, shown.chain, shown.hashAtCert, ms[0])
               && IsFinishedOver(checks, terms, f.transcript + [ms[0]], ms[1])
               && arrivals[n - 1].rest == []
  {
    hide RunFlight, IsProof, IsFinishedOver;
    VerifyStage(checks, offer, terms, f, arrivals);
  }

  /** From the Certificate on: a run ends exactly behind the messages of an authentication. */
  lemma {:induction false} AuthenticationStage(checks: Checks, offer: Offer, terms: Terms, f: Flight, arrivals: seq<Arrival>, n: nat)
    requires f.eeReceived && !terms.isResumed && f.certificate.None? && f.verified.None?
    requires n <= |arrivals|
    ensures EndsAt(RunFlight(checks, offer, terms, f, arrivals), f, arrivals, n)
       <==> IsAuthentication(checks, offer, terms, f.transcript, Messages(arrivals[..n])) && arrivals[n - 1].rest == []
    decreases |arrivals|
  {
    hide FlightTurn, IsRequest, IsCertificate, IsAuthentication, IsProof, IsFinishedOver, TranscriptHash, Messages, EndsAt, RunFlight;
    var ms := Messages(arrivals[..n]);
    RunStep(checks, offer, terms, f, arrivals);
    if n == 0 {
      OtherFirst(checks, offer, terms, f.transcript, ms);
      NotEnded(RunFlight(checks, offer, terms, f, arrivals), f, arrivals, n);
    } else {
      var turned := FlightTurn(checks, offer, terms, f, arrivals[0]);
      CertificateTurn(checks, offer, terms, f, arrivals[0]);
      assert ms[0] == arrivals[0].message && ms[..1] == [ms[0]];
      MessagesRest(arrivals, n);
      if turned.Go? {
        var f' := turned.flight;
        EndsShift(RunFlight(checks, offer, terms, f', arrivals[1..]), f, f', arrivals, n - 1);
        if IsRequest(ms[0]) {
          RequestFirst(checks, offer, terms, f.transcript, ms);
          AuthenticationLength(checks, offer, terms, f.transcript, ms);
          AuthenticationStage(checks, offer, terms, f', arrivals[1..], n - 1);
        } else {
          CertificateFirst(checks, offer, terms, f.transcript, ms);
          VerifyEnds(checks, offer, terms, f', arrivals[1..], n - 1);
        }
      } else {
        OtherFirst(checks, offer, terms, f.transcript, ms);
        NotEnded(RunFlight(checks, offer, terms, f, arrivals), f, arrivals, n);
      }
    }
  }

  lemma ExtensionsTurn(checks: Checks, offer: Offer, terms: Terms, f: Flight, a: Arrival)
    requires !f.eeReceived
    ensures var turned := FlightTurn(checks, offer, terms, f, a);
            && !turned.Complete?
            && (turned.Go? <==> IsExtensions(offer, a.message))
            && (turned.Go? ==> turned.flight == Noted(f, a.message).(eeReceived := true))
  {
    hide DecodeMessage;
    var r := DecodeMessage(a.message);
    if r.Ok? && r.value.EncryptedExtensions? {
      MisplacedIs(r.value.extensions, offer.extensions, PERMITTED_IN_ENCRYPTED_EXTENSIONS);
    }
  }

  lemma FinishedEnds(checks: Checks, offer: Offer, terms: Terms, f: Flight, arrivals: seq<Arrival>, n: nat)
    requires AtFinished(terms, f) && n <= |arrivals|
    ensures EndsAt(RunFlight(checks, offer, terms, f, arrivals), f, arrivals, n)
       <==> n == 1 && IsFinishedOver(checks, terms, f.transcript, Messages(arrivals[..n])[0]) && arrivals[n - 1].rest == []
  {
    hide RunFlight, IsFinishedOver;
    FinishedStage(checks, offer, terms, f, arrivals);
  }

  /**
   The loop completes a flight, on the transcript that ends with it, exactly when the messages are a
   flight and nothing is left in the buffer behind them.
   */
  lemma FlightExactly(checks: Checks, offer: Offer, terms: Terms, before: seq<bytes>, arrivals: seq<Arrival>, n: nat)
    requires n <= |arrivals|
    ensures EndsAt(RunFlight(checks, offer, terms, Begin(before), arrivals), Begin(before), arrivals, n)
       <==> IsFlight(checks, offer, terms, before, Messages(arrivals[..n])) && arrivals[n - 1].rest == []
  {
    hide FlightTurn, IsExtensions, IsAuthentication, IsFinishedOver, Messages, EndsAt, RunFlight;
    var f := Begin(before);
    RunStep(checks, offer, terms, f, arrivals);
    NotEnded(RunFlight(checks, offer, terms, f, arrivals), f, arrivals, 0);
    if n > 0 {
      var ms := Messages(arrivals[..n]);
      assert ms[0] == arrivals[0].message && ms[..1] == [ms[0]];
      MessagesRest(arrivals, n);
      ExtensionsTurn(checks, offer, terms, f, arrivals[0]);
      var turned := FlightTurn(checks, offer, terms, f, arrivals[0]);
      if turned.Go? {
        var f' := turned.flight;
        EndsShift(RunFlight(checks, offer, terms, f', arrivals[1..]), f, f', arrivals, n - 1);
        if terms.isResumed {
          FinishedEnds(checks, offer, terms, f', arrivals[1..], n - 1);
        } else {
          AuthenticationStage(checks, offer, terms, f', arrivals[1..], n - 1);
          AuthenticationLength(checks, offer, terms, f'.transcript, ms[1..]);
        }
      } else {
        NotEnded(RunFlight(checks, offer, terms, f, arrivals), f, arrivals, n);
      }
    }
  }

  function SchemeOf(message: bytes): nat {
    match DecodeMessage(message)
    case Ok(CertificateVerify(scheme, _)) => scheme
    case _ => 0
  }

  function RequestContextOf(message: bytes): bytes {
    match DecodeMessage(message)
    case Ok(CertificateRequest(context, _)) => context
    case _ => []
  }

  /** What a chain proves, when it has a path and the message is a CertificateVerify. */
  function ProvenBy(checks: Checks, certificate: bytes, verify: bytes): Proven {
    match checks.validate(ChainOf(certificate))
    case Path(pin) => Proven(SchemeOf(verify), pin)
    case NoPath(_) => Proven(SchemeOf(verify), [])
  }

  /** What a finished run noted: the scheme and pin of the Certificate and CertificateVerify, the last request's context. */
  predicate NotedRight(checks: Checks, end: FlightEnd, f: Flight, arrivals: seq<Arrival>) {
    end.Done? ==>
      && 3 <= end.used <= |arrivals|
      && end.flight.verified == Some(ProvenBy(checks, arrivals[end.used - 3].message, arrivals[end.used - 2].message))
      && end.flight.requestContext
         == if end.used > 3 then Some(RequestContextOf(arrivals[end.used - 4].message)) else f.requestContext
  }

  lemma VerifyNotes(checks: Checks, offer: Offer, terms: Terms, f: Flight, arrivals: seq<Arrival>)
    requires f.eeReceived && !terms.isResumed && f.certificate.Some? && f.verified.None?
    ensures var end := RunFlight(checks, offer, terms, f, arrivals);
            end.Done? ==>
              && end.used == 2 && end.flight.requestContext == f.requestContext
              && checks.validate(f.certificate.value.chain).Path?
              && end.flight.verified
                 == Some(Proven(SchemeOf(arrivals[0].message), checks.validate(f.certificate.value.chain).pin))
  {
    hide DecodeMessage, TranscriptHash, TakeFinished, RunFlight;
    RunStep(checks, offer, terms, f, arrivals);
    if arrivals != [] {
      var turned := FlightTurn(checks, offer, terms, f, arrivals[0]);
      if turned.Go? {
        FinishedStage(checks, offer, terms, turned.flight, arrivals[1..]);
      }
    }
  }

  lemma {:induction false} AuthenticationNotes(checks: Checks, offer: Offer, terms: Terms, f: Flight, arrivals: seq<Arrival>)
    requires f.eeReceived && !terms.isResumed && f.certificate.None? && f.verified.None?
    ensures NotedRight(checks, RunFlight(checks, offer, terms, f, arrivals), f, arrivals)
    decreases |arrivals|
  {
    hide FlightTurn, IsRequest, IsCertificate, ProvenBy, TranscriptHash, RunFlight;
    RunStep(checks, offer, terms, f, arrivals);
    if arrivals != [] {
      var turned := FlightTurn(checks, offer, terms, f, arrivals[0]);
      CertificateTurn(checks, offer, terms, f, arrivals[0]);
      TurnContext(checks, offer, terms, f, arrivals[0]);
      if turned.Go? {
        var later := RunFlight(checks, offer, terms, turned.flight, arrivals[1..]);
        if IsRequest(arrivals[0].message) {
          AuthenticationNotes(checks, offer, terms, turned.flight, arrivals[1..]);
        } else {
          VerifyNotes(checks, offer, terms, turned.flight, arrivals[1..]);
          assert later.Done? ==> arrivals[1..][0] == arrivals[1];
          ProvenIs(checks, arrivals);
        }
      }
    }
  }

  lemma ProvenIs(checks: Checks, arrivals: seq<Arrival>)
    requires arrivals != []
    ensures |arrivals| > 1 && checks.validate(ChainOf(arrivals[0].message)).Path? ==>
              ProvenBy(checks, arrivals[0].message, arrivals[1].message)
              == Proven(SchemeOf(arrivals[1].message), checks.validate(ChainOf(arrivals[0].message)).pin)
  {
    hide DecodeMessage;
  }

  lemma TurnContext(checks: Checks, offer: Offer, terms: Terms, f: Flight, a: Arrival)
    requires f.eeReceived && !terms.isResumed && f.certificate.None?
    ensures var turned := FlightTurn(checks, offer, terms, f, a);
            turned.Go? ==> turned.flight.requestContext
                           == if IsRequest(a.message) then Some(RequestContextOf(a.message)) else f.requestContext
  {
    hide DecodeMessage, TranscriptHash;
  }

  lemma TurnNotes(checks: Checks, offer: Offer, terms: Terms, f: Flight, a: Arrival)
    ensures var turned := FlightTurn(checks, offer, terms, f, a);
            && (!turned.Refuse? ==> turned.flight.transcript == f.transcript + [a.message])
            && (turned.Complete? ==> a.rest == [])
  {
    hide DecodeMessage, TranscriptHash;
  }

  lemma {:induction false} RunEnds(checks: Checks, offer: Offer, terms: Terms, f: Flight, arrivals: seq<Arrival>)
    ensures var end := RunFlight(checks, offer, terms, f, arrivals);
            end.Done? ==> EndsAt(end, f, arrivals, end.used)
    decreases |arrivals|
  {
    hide FlightTurn, RunFlight;
    RunStep(checks, offer, terms, f, arrivals);
    if arrivals != [] {
      var turned := FlightTurn(checks, offer, terms, f, arrivals[0]);
      TurnNotes(checks, offer, terms, f, arrivals[0]);
      if turned.Go? {
        var later := RunFlight(checks, offer, terms, turned.flight, arrivals[1..]);
        RunEnds(checks, offer, terms, turned.flight, arrivals[1..]);
        EndsShift(later, f, turned.flight, arrivals, if later.Done? then later.used else 0);
      } else {
        assert arrivals[..1] == [arrivals[0]] && Messages(arrivals[..1]) == [arrivals[0].message];
      }
    }
  }

  /** Every finished run, whatever state it began in, took a whole flight and noted who proved what. */
  lemma FlightNotes(checks: Checks, offer: Offer, terms: Terms, before: seq<bytes>, arrivals: seq<Arrival>)
    ensures var end := RunFlight(checks, offer, terms, Begin(before), arrivals);
            end.Done? ==>
              && IsFlight(checks, offer, terms, before, Messages(arrivals[..end.used]))
              && end.flight.transcript == before + Messages(arrivals[..end.used])
              && arrivals[end.used - 1].rest == []
              && (!terms.isResumed ==>
                    && end.used >= 4
                    && end.flight.verified == Some(ProvenBy(checks, arrivals[end.used - 3].message, arrivals[end.used - 2].message))
                    && end.flight.requestContext
                       == if end.used > 4 then Some(RequestContextOf(arrivals[end.used - 4].message)) else None)
              && (terms.isResumed ==> end.flight.requestContext == None)
  {
    hide FlightTurn, IsExtensions, IsAuthentication, IsFinishedOver, IsFlight, RunFlight, ProvenBy;
    var f := Begin(before);
    var end := RunFlight(checks, offer, terms, f, arrivals);
    RunEnds(checks, offer, terms, f, arrivals);
    if end.Done? {
      RunStep(checks, offer, terms, f, arrivals);
      FlightExactly(checks, offer, terms, before, arrivals, end.used);
      ExtensionsTurn(checks, offer, terms, f, arrivals[0]);
      var turned := FlightTurn(checks, offer, terms, f, arrivals[0]);
      if turned.Go? {
        var later := RunFlight(checks, offer, terms, turned.flight, arrivals[1..]);
        if terms.isResumed {
          FinishedStage(checks, offer, terms, turned.flight, arrivals[1..]);
        } else {
          AuthenticationNotes(checks, offer, terms, turned.flight, arrivals[1..]);
          assert arrivals[1..][later.used - 3] == arrivals[end.used - 3] && arrivals[1..][later.used - 2] == arrivals[end.used - 2];
          assert later.used > 3 ==> arrivals[1..][later.used - 4] == arrivals[end.used - 4];
        }
      }
    }
  }
}
