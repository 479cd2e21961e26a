/**
 The handshake in the form of `packages/tls/src/handshake.ts`: a transcript object, a buffer of
 handshake fragments, and two loops that take whole messages off it. Each loop does what `RunHello`
 and `RunFlight` say of the messages its fragments come to.
 */
module HandshakeRun {
  import opened Bytes
  import opened HandshakeCodec
  import opened HandshakeMessages
  import opened TlsReading
  import opened HandshakeFlight
  import opened HandshakeHello

  /** `packages/tls/src/transcript.ts`. */
  class Transcript {
    const checks: Checks
    const suite: SuiteName
    var messages: seq<bytes>
    var hasReplacedClientHello1: bool

    constructor (checks: Checks, suite: SuiteName)
      ensures this.checks == checks && this.suite == suite && messages == [] && !hasReplacedClientHello1
    {
      this.checks, this.suite, messages, hasReplacedClientHello1 := checks, suite, [], false;
    }

    method Add(message: bytes)
      modifies this`messages
      ensures messages == old(messages) + [message]
    {
      messages := messages + [message];
    }

    /** False where the source throws: a second time, or with nothing to replace. */
    method ReplaceClientHello1WithMessageHash() returns (ok: bool)
      modifies this
      ensures ok == (!old(hasReplacedClientHello1) && old(messages) != [])
      ensures messages == if ok then [MessageHash(checks, suite, old(messages)[0])] + old(messages)[1..] else old(messages)
      ensures hasReplacedClientHello1 == (ok || old(hasReplacedClientHello1))
    {
      if hasReplacedClientHello1 || |messages| == 0 {
        return false;
      }
      var hash := checks.hash(suite, messages[0]);
      messages := messages[0 := [MESSAGE_HASH] + PutVec24(hash)];
      hasReplacedClientHello1 := true;
      return true;
    }

    method Hash() returns (hash: bytes)
      ensures hash == TranscriptHash(checks, suite, messages)
    {
      hash := checks.hash(suite, Flatten(messages));
    }
  }

  /** The same messages under the suite that was negotiated. */
  method RebindTranscript(suite: SuiteName, previous: Transcript) returns (next: Transcript)
    ensures fresh(next) && next.checks == previous.checks && next.suite == suite
    ensures next.messages == previous.messages && !next.hasReplacedClientHello1
  {
    next := new Transcript(previous.checks, suite);
    for k := 0 to |previous.messages|
      invariant next.checks == previous.checks && next.suite == suite && !next.hasReplacedClientHello1
      invariant next.messages == previous.messages[..k]
    {
      next.Add(previous.messages[k]);
    }
  }

  // ----- messages out of fragments

  /** The whole messages of a buffer and the fragments to come, each with what stays behind it. */
  function Arrivals(buffer: bytes, fragments: seq<bytes>): seq<Arrival>
    decreases |fragments|, |buffer|
  {
    match Extract(buffer)
    case Whole(message, rest) => [Arrival(message, rest)] + Arrivals(rest, fragments)
    case Overflow => []
    case NeedMore => if fragments == [] then [] else Arrivals(buffer + fragments[0], fragments[1..])
  }

  class Incoming {
    var handshakeBuffer: seq<bytes>
    /** The payloads of the handshake records still to be read. */
    var fragments: seq<bytes>

    ghost function Pending(): seq<Arrival>
      reads this
    {
      Arrivals(Flatten(handshakeBuffer), fragments)
    }

    constructor (fragments: seq<bytes>)
      ensures Pending() == Arrivals([], fragments)
    {
      handshakeBuffer, this.fragments := [], fragments;
    }

    /** Extraction, reading records while there is no whole message; None when they end or a message is too long. */
    method NextMessage() returns (message: Option<bytes>)
      modifies this
      ensures message.None? ==> old(Pending()) == []
      ensures message.Some? ==>
                old(Pending()) == [Arrival(message.value, Flatten(handshakeBuffer))] + Pending()
    {
      hide Extract;
      ghost var pending := Pending();
      while true
        invariant Pending() == pending
        decreases |fragments|
      {
        var combined := ConcatByteArrays(handshakeBuffer);
        var extracted := Extract(combined);
        match extracted {
          case Whole(bytes, rest) =>
            handshakeBuffer := if |rest| > 0 then [rest] else [];
            FlattenOne(rest);
            return Some(bytes);
          case Overflow => return None;
          case NeedMore =>
            if fragments == [] {
              return None;
            }
            FlattenConcat(handshakeBuffer, [fragments[0]]);
            FlattenOne(fragments[0]);
            handshakeBuffer, fragments := handshakeBuffer + [fragments[0]], fragments[1..];
        }
      }
    }

    /** `handshakeBuffer.some(chunk => chunk.length > 0)`. */
    method HoldsMore() returns (more: bool)
      ensures more <==> Flatten(handshakeBuffer) != []
    {
      for k := 0 to |handshakeBuffer|
        invariant Flatten(handshakeBuffer[..k]) == []
      {
        assert handshakeBuffer == handshakeBuffer[..k] + handshakeBuffer[k..];
        FlattenConcat(handshakeBuffer[..k], handshakeBuffer[k..]);
        if |handshakeBuffer[k]| > 0 {
          return true;
        }
        assert handshakeBuffer[..k + 1] == handshakeBuffer[..k] + [handshakeBuffer[k]];
        FlattenConcat(handshakeBuffer[..k], [handshakeBuffer[k]]);
        FlattenOne(handshakeBuffer[k]);
      }
      assert handshakeBuffer[..|handshakeBuffer|] == handshakeBuffer;
      return false;
    }
  }

  // ----- the encrypted flight

  class ServerFlight {
    const checks: Checks
    const offer: Offer
    const terms: Terms
    const incoming: Incoming
    const transcript: Transcript
    var eeReceived: bool
    var certReceived: bool
    var cvReceived: bool
    var certRequestContext: Option<bytes>
    var leafDer: bytes
    var intermediates: seq<bytes>
    var transcriptHashAtCert: bytes
    var cvScheme: nat
    var peerPublicKeyPin: bytes

    ghost predicate Valid()
      reads this, transcript
    {
      transcript.checks == checks && transcript.suite == terms.suite
    }

    ghost function State(): Flight
      reads this, transcript
    {
      Flight(transcript.messages, eeReceived,
             if certReceived then Some(Shown(Chain(leafDer, intermediates), transcriptHashAtCert)) else None,
             if cvReceived then Some(Proven(cvScheme, peerPublicKeyPin)) else None,
             certRequestContext)
    }

    constructor (checks: Checks, offer: Offer, terms: Terms, incoming: Incoming, transcript: Transcript)
      requires transcript.checks == checks && transcript.suite == terms.suite
      ensures Valid() && State() == Begin(transcript.messages)
      ensures this.checks == checks && this.offer == offer && this.terms == terms
      ensures this.incoming == incoming && this.transcript == transcript
    {
      this.checks, this.offer, this.terms, this.incoming, this.transcript := checks, offer, terms, incoming, transcript;
      eeReceived, certReceived, cvReceived := false, false, false;
      certRequestContext := None;
      leafDer, intermediates, transcriptHashAtCert, cvScheme, peerPublicKeyPin := [], [], [], 0, [];
    }

    /** None goes on. */
    method TakeMessage(m: Message, message: bytes) returns (refused: Option<AlertDescription>)
      requires Valid() && (!eeReceived || (!terms.isResumed && (!certReceived || !cvReceived)))
      modifies this, transcript
      ensures Valid()
      ensures var f := old(State());
              var turned := if !f.eeReceived then TakeExtensions(offer, f, m, message)
                            else if f.certificate.None? then TakeCertificate(checks, offer, terms, f, m, message)
                            else TakeVerify(checks, offer, f.certificate.value, f, m, message);
              match refused {
                case Some(description) => turned == Refuse(description)
                case None => turned == Go(State())
              }
    {
      hide TranscriptHash, Misplaced, MisplacedInEntries;
      if !eeReceived {
        if !m.EncryptedExtensions? {
          return Some(UnexpectedMessage);
        }
        var misplaced := Misplaced(m.extensions, offer.extensions, PERMITTED_IN_ENCRYPTED_EXTENSIONS);
        if misplaced.Some? {
          return misplaced;
        }
        eeReceived := true;
        transcript.Add(message);
        return None;
      }
      if !certReceived {
        if m.CertificateRequest? {
          certRequestContext := Some(m.context);
          transcript.Add(message);
          return None;
        }
        if !m.Certificate? {
          return Some(UnexpectedMessage);
        }
        if |m.certificateList| == 0 {
          return Some(DecodeError);
        }
        var misplaced := MisplacedInEntries(m.certificateList, offer.extensions);
        if misplaced.Some? {
          return misplaced;
        }
        leafDer := m.certificateList[0].certData;
        intermediates := CertData(m.certificateList[1..]);
        certReceived := true;
        transcript.Add(message);
        transcriptHashAtCert := transcript.Hash();
        return None;
      }
      refused := TakeCertificateVerify(m, message);
    }

    method TakeCertificateVerify(m: Message, message: bytes) returns (refused: Option<AlertDescription>)
      requires Valid() && certReceived && !cvReceived
      modifies this, transcript
      ensures Valid()
      ensures var f := old(State());
              var turned := TakeVerify(checks, offer, f.certificate.value, f, m, message);
              match refused {
                case Some(description) => turned == Refuse(description)
                case None => turned == Go(State())
              }
    {
      if !m.CertificateVerify? {
        return Some(UnexpectedMessage);
      }
      if m.scheme !in offer.schemes {
        return Some(IllegalParameter);
      }
      var path := checks.validate(Chain(leafDer, intermediates));
      if path.NoPath? {
        return Some(path.description);
      }
      if !checks.decodesLeaf(leafDer) {
        return Some(BadCertificate);
      }
      var verified := checks.verify(m.scheme, m.signature, leafDer, transcriptHashAtCert);
      if verified.Some? {
        return verified;
      }
      cvReceived, cvScheme, peerPublicKeyPin := true, m.scheme, path.pin;
      transcript.Add(message);
      return None;
    }

    /** The loop: Some is an alert or the end of the stream, None a Finished that was good. */
    method Run() returns (done: bool, refused: Option<AlertDescription>)
      requires Valid() && State() == Begin(transcript.messages)
      modifies this, transcript, incoming
      ensures Valid()
      ensures var end := RunFlight(checks, offer, terms, old(State()), old(incoming.Pending()));
              if done then end.Done? && end.flight == State()
              else match refused { case Some(description) => end == Refused(description) case None => end == Starved }
    {
      hide DecodeMessage, TakeExtensions, TakeCertificate, TakeVerify, TranscriptHash;
      ghost var end := RunFlight(checks, offer, terms, State(), incoming.Pending());
      while true
        invariant Valid()
        invariant SameEnd(end, RunFlight(checks, offer, terms, State(), incoming.Pending()))
        decreases |incoming.Pending()|
      {
        var next := incoming.NextMessage();
        if next.None? {
          return false, None;
        }
        var decoded := DecodeMessage(next.value);
        if decoded.Bad? {
          return false, Some(decoded.description);
        }
        var m := decoded.value;
        if !eeReceived || (!terms.isResumed && (!certReceived || !cvReceived)) {
          refused := TakeMessage(m, next.value);
          if refused.Some? {
            return false, refused;
          }
        } else {
          if !m.Finished? {
            return false, Some(UnexpectedMessage);
          }
          var hash := transcript.Hash();
          if m.verifyData != checks.serverMac(terms.suite, terms.secret, hash) {
            return false, Some(DecryptError);
          }
          transcript.Add(next.value);
          var more := incoming.HoldsMore();
          if more {
            return false, Some(UnexpectedMessage);
          }
          return true, None;
        }
      }
    }
  }

  /** The same end, however many messages it took. */
  predicate SameEnd(a: FlightEnd, b: FlightEnd) {
    match a
    case Done(flight, _) => b.Done? && b.flight == flight
    case _ => a == b
  }

  // ----- the ServerHello loop

  class ClientHellos {
    const setup: Setup
    const incoming: Incoming
    var transcript: Transcript
    var hasSeenHrr: bool
    var hrrSelectedSuite: Option<SuiteName>
    var effectiveGroup: Group
    var offeredSession: Option<Session>

    ghost predicate Valid()
      reads this, transcript
    {
      && transcript.checks == setup.checks && transcript.messages != []
      && (!hasSeenHrr ==> !transcript.hasReplacedClientHello1)
    }

    ghost function State(): Hello
      reads this, transcript
    {
      Hello(transcript.messages, hasSeenHrr, hrrSelectedSuite, effectiveGroup, offeredSession)
    }

    constructor (setup: Setup, incoming: Incoming)
      ensures Valid() && State() == FirstHello(setup) && fresh(transcript)
      ensures this.setup == setup && this.incoming == incoming
    {
      this.setup, this.incoming := setup, incoming;
      var first := new Transcript(setup.checks, Aes128Sha256);
      first.Add(setup.clientHello);
      transcript := first;
      hasSeenHrr, hrrSelectedSuite := false, None;
      effectiveGroup, offeredSession := setup.firstGroup, setup.session;
    }

    /** The checks both kinds of ServerHello share. */
    method CheckServerHello(m: Message) returns (suite: Decoded<SuiteName>)
      ensures suite == CommonChecks(setup, Hello([], hasSeenHrr, hrrSelectedSuite, effectiveGroup, offeredSession), m)
    {
      hide Misplaced, SelectsTls13;
      if !m.ServerHello? {
        return Bad(UnexpectedMessage);
      }
      if m.compressionMethod != 0 {
        return Bad(IllegalParameter);
      }
      if m.sessionIdEcho != setup.sessionId {
        return Bad(IllegalParameter);
      }
      if EndsInSentinel(m.random) {
        return Bad(IllegalParameter);
      }
      if !SelectsTls13(m.extensions) {
        return Bad(if hasSeenHrr then IllegalParameter else ProtocolVersion);
      }
      var misplaced := Misplaced(m.extensions, setup.offer.extensions + {COOKIE_TYPE},
                                 if m.random == HRR_MAGIC then PERMITTED_IN_RETRY_REQUEST else PERMITTED_IN_SERVER_HELLO);
      if misplaced.Some? {
        return Bad(misplaced.value);
      }
      var selected := SuiteOfCode(m.cipherSuite);
      if selected.None? || (hrrSelectedSuite.Some? && hrrSelectedSuite != selected) {
        return Bad(IllegalParameter);
      }
      return Ok(selected.value);
    }

    /** A HelloRetryRequest: None sends the second ClientHello and goes on. */
    method AnswerRetry(m: Message, suite: SuiteName, message: bytes) returns (denied: Option<AlertDescription>)
      requires Valid() && m.ServerHello? && transcript.suite == suite
      modifies this, transcript
      ensures denied.None? ==> Valid()
      ensures transcript == old(transcript)
      ensures var turned := TakeRetry(setup, old(State()), m, suite, Arrival(message, Flatten(old(incoming.handshakeBuffer))));
              match denied {
                case Some(description) => turned == Denied(description)
                case None => turned == Retried(State())
              }
    {
      hide FindKeyShare, FindCookie, MessageHash;
      var share, cookie := FindKeyShare(m.extensions), FindCookie(m.extensions);
      if hasSeenHrr {
        return Some(UnexpectedMessage);
      }
      if share.None? && cookie.None? {
        return Some(IllegalParameter);
      }
      var more := incoming.HoldsMore();
      if more {
        return Some(UnexpectedMessage);
      }
      hasSeenHrr := true;
      hrrSelectedSuite := Some(suite);
      if offeredSession.Some? && offeredSession.value.suite != suite {
        offeredSession := None;
      }
      if share.Some? {
        var selected := share.value.selectedGroup;
        if selected.None? || selected.value !in setup.groups || GroupOf(selected.value).None?
           || GroupOf(selected.value).value == effectiveGroup {
          return Some(IllegalParameter);
        }
        effectiveGroup := GroupOf(selected.value).value;
      }
      var replaced := transcript.ReplaceClientHello1WithMessageHash();
      transcript.Add(message);
      if cookie.Some? && |cookie.value.cookie| > MAX_ECHOED_COOKIE {
        return Some(IllegalParameter);
      }
      var second := SecondHello(setup, m, effectiveGroup, offeredSession, transcript.messages);
      transcript.Add(second);
      return None;
    }

    /** A ServerHello proper. */
    method AcceptServerHello(m: Message, suite: SuiteName, message: bytes) returns (agreed: Decoded<Agreement>)
      requires Valid() && m.ServerHello?
      modifies transcript
      ensures var turned := TakeServerHello(old(State()), m, suite, Arrival(message, Flatten(old(incoming.handshakeBuffer))));
              match agreed {
                case Bad(description) => turned == Denied(description)
                case Ok(agreement) => turned == Chosen(agreement) && agreement.transcript == transcript.messages
              }
    {
      hide FindKeyShare, FindPsk;
      var psk := FindPsk(m.extensions);
      var resumed: Option<Session> := None;
      if psk.Some? {
        if offeredSession.None? {
          return Bad(UnsupportedExtension);
        }
        if psk.value.selectedIdentity != Some(0) {
          return Bad(IllegalParameter);
        }
        if offeredSession.value.suite != suite {
          return Bad(IllegalParameter);
        }
        resumed := offeredSession;
      }
      var keyShare := FindKeyShare(m.extensions);
      if keyShare.None? {
        return Bad(if resumed.Some? then IllegalParameter else MissingExtension);
      }
      if keyShare.value.serverShare.None? {
        return Bad(IllegalParameter);
      }
      if keyShare.value.serverShare.value.group != GroupCode(effectiveGroup) {
        return Bad(IllegalParameter);
      }
      var share := keyShare.value.serverShare.value.keyExchange;
      var more := incoming.HoldsMore();
      if more {
        return Bad(UnexpectedMessage);
      }
      transcript.Add(message);
      if |share| != ShareLength(effectiveGroup) || (effectiveGroup != X25519 && share[0] != 0x04) {
        return Bad(IllegalParameter);
      }
      return Ok(Agreement(transcript.messages, suite, effectiveGroup, resumed, share, hasSeenHrr));
    }

    /** The loop: an agreement, an alert, or None at the end of the stream. */
    method Run() returns (agreed: Option<Decoded<Agreement>>)
      requires Valid()
      modifies this, transcript, incoming
      ensures var end := RunHello(setup, old(State()), old(incoming.Pending()));
              match agreed {
                case None => end == HelloStarved
                case Some(Bad(description)) => end == HelloDenied(description)
                case Some(Ok(agreement)) =>
                  end.Agreed? && end.agreement == agreement && agreement.transcript == transcript.messages
              }
    {
      hide DecodeMessage, CommonChecks, TakeRetry, TakeServerHello;
      ghost var end := RunHello(setup, State(), incoming.Pending());
      while true
        invariant Valid() && (transcript == old(transcript) || fresh(transcript))
        invariant SameHelloEnd(end, RunHello(setup, State(), incoming.Pending()))
        decreases |incoming.Pending()|
      {
        ghost var h := State();
        var next := incoming.NextMessage();
        if next.None? {
          return None;
        }
        var decoded := DecodeMessage(next.value);
        if decoded.Bad? {
          return Some(Bad(decoded.description));
        }
        var suite := CheckServerHello(decoded.value);
        SameChecks(setup, h, decoded.value);
        if suite.Bad? {
          return Some(Bad(suite.description));
        }
        transcript := RebindTranscript(suite.value, transcript);
        if decoded.value.random == HRR_MAGIC {
          var denied := AnswerRetry(decoded.value, suite.value, next.value);
          if denied.Some? {
            return Some(Bad(denied.value));
          }
        } else {
          var agreement := AcceptServerHello(decoded.value, suite.value, next.value);
          return Some(agreement);
        }
      }
    }
  }

  predicate SameHelloEnd(a: HelloEnd, b: HelloEnd) {
    match a
    case Agreed(agreement, _) => b.Agreed? && b.agreement == agreement
    case _ => a == b
  }

  /** The shared checks look at the state but not at the transcript, and only a ServerHello passes them. */
  lemma SameChecks(setup: Setup, h: Hello, m: Message)
    ensures CommonChecks(setup, h, m) == CommonChecks(setup, h.(transcript := []), m)
    ensures CommonChecks(setup, h, m).Ok? ==> m.ServerHello?
  {
    hide Misplaced;
  }
}
