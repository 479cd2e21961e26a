/**
 Which alert ends a server's encrypted flight that is not one (`packages/tls/src/handshake.ts`), said of
 the messages: the first that may not come where it stands, and what is wrong with it.
 */
module FlightRefusals {
  import opened Bytes
  import opened HandshakeCodec
  import opened HandshakeMessages
  import opened HandshakeFlight
  import opened HandshakeExactness

  /** What has to come next. */
  datatype Stage = WantsExtensions | WantsCertificate | WantsProof(chain: Chain, hashAtCert: bytes) | WantsFinished

  datatype Rules = Rules(checks: Checks, offer: Offer, terms: Terms)

  /** A message may come, and what has to come behind it. */
  ghost predicate Moves(r: Rules, stage: Stage, transcript: seq<bytes>, message: bytes, next: Stage) {
    match stage
    case WantsExtensions =>
      HoldsExtensions(r.offer, message) && next == if r.terms.isResumed then WantsFinished else WantsCertificate
    case WantsCertificate =>
      || (IsRequest(message) && next == WantsCertificate)
      || (&& next.WantsProof? && PresentsChain(r.offer, message, next.chain)
          && next.hashAtCert == r.checks.hash(r.terms.suite, Flatten(transcript + [message])))
    case WantsProof(chain, hashAtCert) =>
      IsProof(r.checks, r.offer, chain, hashAtCert, message) && next == WantsFinished
    case WantsFinished => false
  }

  ghost predicate Leads(r: Rules, stage: Stage, transcript: seq<bytes>, ms: seq<bytes>, last: Stage)
    decreases |ms|
  {
    if ms == [] then last == stage
    else exists next :: Moves(r, stage, transcript, ms[0], next) && Leads(r, next, transcript + [ms[0]], ms[1..], last)
  }

  // ----- what is wrong

  predicate IsPlaced(e: Extension, offered: set<nat>, permitted: set<nat>) {
    TypeCodeOf(e) in offered && TypeCodeOf(e) in permitted
  }

  /** The first extension that was not offered, or may not stand here, and which of the two. */
  predicate IsMisplaced(es: seq<Extension>, offered: set<nat>, permitted: set<nat>, description: AlertDescription) {
    exists k | 0 <= k < |es| ::
      && (forall j | 0 <= j < k :: IsPlaced(es[j], offered, permitted)) && !IsPlaced(es[k], offered, permitted)
      && description == if TypeCodeOf(es[k]) in offered then IllegalParameter else UnsupportedExtension
  }

  predicate AllPlaced(entry: CertificateEntry, offered: set<nat>) {
    forall k | 0 <= k < |entry.extensions| :: IsPlaced(entry.extensions[k], offered, {5, 18})
  }

  predicate IsMisplacedEntry(entries: seq<CertificateEntry>, offered: set<nat>, description: AlertDescription) {
    exists k | 0 <= k < |entries| ::
      (forall j | 0 <= j < k :: AllPlaced(entries[j], offered)) && IsMisplaced(entries[k].extensions, offered, {5, 18}, description)
  }

  /** The message cannot come here, for this reason. */
  ghost predicate IsWrong(r: Rules, stage: Stage, transcript: seq<bytes>, a: Arrival, description: AlertDescription) {
    match DecodeMessage(a.message)
    case Bad(why) => description == why
    case Ok(m) =>
      match stage
      case WantsExtensions =>
        if !m.EncryptedExtensions? then description == UnexpectedMessage
        else IsMisplaced(m.extensions, r.offer.extensions, {0, 1, 10, 14, 15, 16, 19, 20, 28, 42}, description)
      case WantsCertificate =>
        if m.CertificateRequest? then false
        else if !m.Certificate? then description == UnexpectedMessage
        else if m.certificateList == [] then description == DecodeError
        else IsMisplacedEntry(m.certificateList, r.offer.extensions, description)
      case WantsProof(chain, hashAtCert) =>
        if !m.CertificateVerify? then description == UnexpectedMessage
        else if m.scheme !in r.offer.schemes then description == IllegalParameter
        else if r.checks.validate(chain).NoPath? then r.checks.validate(chain) == NoPath(description)
        else if !r.checks.decodesLeaf(chain.leaf) then description == BadCertificate
        else r.checks.verify(m.scheme, m.signature, chain.leaf, hashAtCert) == Some(description)
      case WantsFinished =>
        if !m.Finished? then description == UnexpectedMessage
        else if m.verifyData != r.checks.serverMac(r.terms.suite, r.terms.secret, r.checks.hash(r.terms.suite, Flatten(transcript)))
        then description == DecryptError
        else a.rest != [] && description == UnexpectedMessage
  }

  lemma {:induction false} MisplacedSays(es: seq<Extension>, offered: set<nat>, permitted: set<nat>, description: AlertDescription)
    ensures Misplaced(es, offered, permitted) == Some(description) <==> IsMisplaced(es, offered, permitted, description)
    ensures Misplaced(es, offered, permitted) == None <==> forall k | 0 <= k < |es| :: IsPlaced(es[k], offered, permitted)
  {
    hide TypeCodeOf;
    if es != [] {
      var later := es[1..];
      MisplacedSays(later, offered, permitted, description);
      assert forall k | 1 <= k < |es| :: es[k] == later[k - 1];
      if IsPlaced(es[0], offered, permitted) {
        if k :| 0 <= k < |later| && (forall j | 0 <= j < k :: IsPlaced(later[j], offered, permitted))
                && !IsPlaced(later[k], offered, permitted)
                && description == if TypeCodeOf(later[k]) in offered then IllegalParameter else UnsupportedExtension {
          assert forall j | 0 <= j < k + 1 :: IsPlaced(es[j], offered, permitted);
          assert !IsPlaced(es[k + 1], offered, permitted);
        }
      }
    }
  }

  lemma {:induction false} EntriesSay(entries: seq<CertificateEntry>, offered: set<nat>, description: AlertDescription)
    ensures MisplacedInEntries(entries, offered) == Some(description) <==> IsMisplacedEntry(entries, offered, description)
  {
    hide Misplaced, IsMisplaced, AllPlaced, IsMisplacedEntry;
    if entries == [] {
      NoEntry(offered, description);
    } else {
      EntriesSay(entries[1..], offered, description);
      FirstEntrySays(entries[0], offered, description);
      EntryFirst(entries[0], entries[1..], offered, description);
      assert entries == [entries[0]] + entries[1..];
    }
  }

  lemma NoEntry(offered: set<nat>, description: AlertDescription)
    ensures !IsMisplacedEntry([], offered, description)
  {
  }

  lemma EntryFirst(first: CertificateEntry, later: seq<CertificateEntry>, offered: set<nat>, description: AlertDescription)
    requires IsMisplaced(first.extensions, offered, {5, 18}, description) ==> !AllPlaced(first, offered)
    ensures IsMisplacedEntry([first] + later, offered, description)
       <==> if AllPlaced(first, offered) then IsMisplacedEntry(later, offered, description)
            else IsMisplaced(first.extensions, offered, {5, 18}, description)
  {
    hide IsMisplaced, AllPlaced;
    var entries := [first] + later;
    assert forall k | 1 <= k < |entries| :: entries[k] == later[k - 1];
    assert entries[0] == first;
    if AllPlaced(first, offered) {
      if k :| 0 <= k < |later| && (forall j | 0 <= j < k :: AllPlaced(later[j], offered))
              && IsMisplaced(later[k].extensions, offered, {5, 18}, description) {
        assert forall j | 0 <= j < k + 1 :: AllPlaced(entries[j], offered);
        assert IsMisplaced(entries[k + 1].extensions, offered, {5, 18}, description);
      }
      if k :| 0 <= k < |entries| && (forall j | 0 <= j < k :: AllPlaced(entries[j], offered))
              && IsMisplaced(entries[k].extensions, offered, {5, 18}, description) {
        assert forall j | 0 <= j < k - 1 :: later[j] == entries[j + 1];
        assert later[k - 1] == entries[k];
      }
    }
  }

  lemma FirstEntrySays(entry: CertificateEntry, offered: set<nat>, description: AlertDescription)
    ensures var misplaced := Misplaced(entry.extensions, offered, PERMITTED_IN_CERTIFICATE_ENTRY);
            && (misplaced == Some(description) <==> IsMisplaced(entry.extensions, offered, {5, 18}, description))
            && (misplaced == None <==> AllPlaced(entry, offered))
            && (IsMisplaced(entry.extensions, offered, {5, 18}, description) ==> !AllPlaced(entry, offered))
  {
    MisplacedSays(entry.extensions, offered, PERMITTED_IN_CERTIFICATE_ENTRY, description);
  }

  // ----- one message

  function StageOf(r: Rules, f: Flight): Stage {
    if !f.eeReceived then WantsExtensions
    else if !r.terms.isResumed && f.certificate.None? then WantsCertificate
    else if !r.terms.isResumed && f.verified.None? then WantsProof(f.certificate.value.chain, f.certificate.value.hashAtCert)
    else WantsFinished
  }

  /** Nothing is noted ahead of its place. */
  predicate IsStaged(f: Flight) {
    (f.certificate.Some? ==> f.eeReceived) && (f.verified.Some? ==> f.certificate.Some?)
  }

  lemma ExtensionsSay(r: Rules, f: Flight, a: Arrival, description: AlertDescription)
    requires !f.eeReceived && IsStaged(f)
    ensures var t := FlightTurn(r.checks, r.offer, r.terms, f, a);
            && (t == Refuse(description) <==> IsWrong(r, WantsExtensions, f.transcript, a, description))
            && (t.Go? <==> HoldsExtensions(r.offer, a.message))
            && (t.Go? ==> IsStaged(t.flight)
                          && StageOf(r, t.flight) == (if r.terms.isResumed then WantsFinished else WantsCertificate)
                          && t.flight.transcript == f.transcript + [a.message])
  {
    hide Misplaced, IsMisplaced, TypeCodeOf;
    ExtensionsTurn(r.checks, r.offer, r.terms, f, a);
    ExtensionsExactly(r.offer, a.message);
    match DecodeMessage(a.message)
    case Ok(EncryptedExtensions(extensions)) =>
      MisplacedSays(extensions, r.offer.extensions, PERMITTED_IN_ENCRYPTED_EXTENSIONS, description);
    case _ =>
  }

  lemma CertificateSays(r: Rules, f: Flight, a: Arrival, description: AlertDescription)
    requires f.eeReceived && !r.terms.isResumed && f.certificate.None? && IsStaged(f)
    ensures var t := FlightTurn(r.checks, r.offer, r.terms, f, a);
            && (t == Refuse(description) <==> IsWrong(r, WantsCertificate, f.transcript, a, description))
            && (forall next :: t.Go? && next == StageOf(r, t.flight) <==> Moves(r, WantsCertificate, f.transcript, a.message, next))
            && (t.Go? ==> IsStaged(t.flight) && t.flight.transcript == f.transcript + [a.message])
  {
    hide MisplacedInEntries, IsMisplacedEntry, PresentsChain, IsCertificate, ChainOf;
    CertificateTurn(r.checks, r.offer, r.terms, f, a);
    OneKind(a.message, r.offer);
    forall chain
      ensures IsCertificate(r.offer, a.message) && ChainOf(a.message) == chain <==> PresentsChain(r.offer, a.message, chain)
    {
      CertificateExactly(r.offer, a.message, chain);
    }
    match DecodeMessage(a.message)
    case Ok(Certificate(_, entries)) => EntriesSay(entries, r.offer.extensions, description);
    case _ =>
  }

  lemma OneKind(message: bytes, offer: Offer)
    ensures !(IsRequest(message) && IsCertificate(offer, message))
  {
    hide DecodeMessage, MisplacedInEntries;
  }

  lemma ProofSays(r: Rules, f: Flight, a: Arrival, description: AlertDescription)
    requires f.eeReceived && !r.terms.isResumed && f.certificate.Some? && f.verified.None? && IsStaged(f)
    ensures var t := FlightTurn(r.checks, r.offer, r.terms, f, a);
            && (t == Refuse(description) <==> IsWrong(r, StageOf(r, f), f.transcript, a, description))
            && (t.Go? <==> Moves(r, StageOf(r, f), f.transcript, a.message, WantsFinished))
            && (t.Go? ==> IsStaged(t.flight) && StageOf(r, t.flight) == WantsFinished
                          && t.flight.transcript == f.transcript + [a.message])
  {
    hide DecodeMessage;
  }

  lemma FinishedSays(r: Rules, f: Flight, a: Arrival, description: AlertDescription)
    requires StageOf(r, f) == WantsFinished
    ensures var t := FlightTurn(r.checks, r.offer, r.terms, f, a);
            && !t.Go? && (t == Refuse(description) <==> IsWrong(r, WantsFinished, f.transcript, a, description))
  {
    hide DecodeMessage;
  }

  lemma TurnSays(r: Rules, f: Flight, a: Arrival, description: AlertDescription)
    requires IsStaged(f)
    ensures var t := FlightTurn(r.checks, r.offer, r.terms, f, a);
            && (t == Refuse(description) <==> IsWrong(r, StageOf(r, f), f.transcript, a, description))
            && (forall next :: t.Go? && next == StageOf(r, t.flight) <==> Moves(r, StageOf(r, f), f.transcript, a.message, next))
            && (t.Go? ==> IsStaged(t.flight) && t.flight.transcript == f.transcript + [a.message])
  {
    hide FlightTurn, IsWrong, HoldsExtensions, IsRequest, PresentsChain, IsProof;
    match StageOf(r, f)
    case WantsExtensions => ExtensionsSay(r, f, a, description);
    case WantsCertificate => CertificateSays(r, f, a, description);
    case WantsProof(_, _) => ProofSays(r, f, a, description);
    case WantsFinished => FinishedSays(r, f, a, description);
  }

  // ----- the whole flight

  /** Behind `n` messages that may come, the next one is wrong. */
  ghost predicate FailsBehind(
    r: Rules, stage: Stage, transcript: seq<bytes>, arrivals: seq<Arrival>, n: nat, last: Stage, description: AlertDescription)
  {
    && n < |arrivals| && Leads(r, stage, transcript, Messages(arrivals[..n]), last)
    && IsWrong(r, last, transcript + Messages(arrivals[..n]), arrivals[n], description)
  }

  lemma FailsNow(r: Rules, stage: Stage, transcript: seq<bytes>, arrivals: seq<Arrival>, last: Stage, description: AlertDescription)
    ensures FailsBehind(r, stage, transcript, arrivals, 0, last, description)
       <==> arrivals != [] && last == stage && IsWrong(r, stage, transcript, arrivals[0], description)
  {
    hide IsWrong;
    assert Messages(arrivals[..0]) == [] && transcript + [] == transcript;
  }

  lemma FailsLater(
    r: Rules, stage: Stage, next: Stage, transcript: seq<bytes>, arrivals: seq<Arrival>, n: nat, last: Stage, description: AlertDescription)
    requires arrivals != []
    requires forall other :: other == next <==> Moves(r, stage, transcript, arrivals[0].message, other)
    ensures FailsBehind(r, stage, transcript, arrivals, n + 1, last, description)
       <==> FailsBehind(r, next, transcript + [arrivals[0].message], arrivals[1..], n, last, description)
  {
    hide IsWrong, Moves;
    if n + 1 < |arrivals| {
      var first := arrivals[0].message;
      MessagesRest(arrivals, n + 1);
      assert Messages(arrivals[..n + 1]) == [first] + Messages(arrivals[1..][..n]);
      ConcatAssoc(transcript, [first], Messages(arrivals[1..][..n]));
      assert arrivals[1..][n] == arrivals[n + 1];
    }
  }

  ghost predicate Fails(r: Rules, stage: Stage, transcript: seq<bytes>, arrivals: seq<Arrival>, description: AlertDescription) {
    exists n: nat, last :: FailsBehind(r, stage, transcript, arrivals, n, last, description)
  }

  lemma FirstMessage(arrivals: seq<Arrival>, n: nat)
    requires n <= |arrivals|
    ensures n > 0 ==> Messages(arrivals[..n]) != [] && Messages(arrivals[..n])[0] == arrivals[0].message
  {
  }

  lemma FailsHere(r: Rules, stage: Stage, transcript: seq<bytes>, arrivals: seq<Arrival>, description: AlertDescription)
    requires arrivals != [] ==> forall next :: !Moves(r, stage, transcript, arrivals[0].message, next)
    ensures Fails(r, stage, transcript, arrivals, description)
       <==> arrivals != [] && IsWrong(r, stage, transcript, arrivals[0], description)
  {
    hide IsWrong, Moves, Messages;
    FailsNow(r, stage, transcript, arrivals, stage, description);
    if n: nat, last :| FailsBehind(r, stage, transcript, arrivals, n, last, description) {
      FirstMessage(arrivals, n);
      assert n == 0;
      FailsNow(r, stage, transcript, arrivals, last, description);
    }
  }

  lemma FailsOn(r: Rules, stage: Stage, next: Stage, transcript: seq<bytes>, arrivals: seq<Arrival>, description: AlertDescription)
    requires arrivals != [] && !IsWrong(r, stage, transcript, arrivals[0], description)
    requires forall other :: other == next <==> Moves(r, stage, transcript, arrivals[0].message, other)
    ensures Fails(r, stage, transcript, arrivals, description)
       <==> Fails(r, next, transcript + [arrivals[0].message], arrivals[1..], description)
  {
    hide IsWrong, Moves, FailsBehind;
    if n: nat, last :| FailsBehind(r, stage, transcript, arrivals, n, last, description) {
      FailsNow(r, stage, transcript, arrivals, last, description);
      assert n > 0;
      FailsLater(r, stage, next, transcript, arrivals, n - 1, last, description);
    }
    if n: nat, last :| FailsBehind(r, next, transcript + [arrivals[0].message], arrivals[1..], n, last, description) {
      FailsLater(r, stage, next, transcript, arrivals, n, last, description);
      assert FailsBehind(r, stage, transcript, arrivals, n + 1, last, description);
    }
  }

  lemma {:induction false} RunSays(r: Rules, f: Flight, arrivals: seq<Arrival>, description: AlertDescription)
    requires IsStaged(f)
    ensures RunFlight(r.checks, r.offer, r.terms, f, arrivals) == Refused(description)
       <==> Fails(r, StageOf(r, f), f.transcript, arrivals, description)
    decreases |arrivals|
  {
    hide FlightTurn, RunFlight, IsWrong, Moves, StageOf, Fails, IsStaged;
    RunStep(r.checks, r.offer, r.terms, f, arrivals);
    if arrivals == [] {
      FailsHere(r, StageOf(r, f), f.transcript, arrivals, description);
    } else {
      var t := FlightTurn(r.checks, r.offer, r.terms, f, arrivals[0]);
      TurnSays(r, f, arrivals[0], description);
      if t.Go? {
        RunSays(r, t.flight, arrivals[1..], description);
        FailsOn(r, StageOf(r, f), StageOf(r, t.flight), f.transcript, arrivals, description);
      } else {
        FailsHere(r, StageOf(r, f), f.transcript, arrivals, description);
      }
    }
  }

  /** The flight is refused with an alert if and only if the first message that may not come is wrong for that reason. */
  lemma RefusedExactly(r: Rules, before: seq<bytes>, arrivals: seq<Arrival>, description: AlertDescription)
    ensures RunFlight(r.checks, r.offer, r.terms, Begin(before), arrivals) == Refused(description)
       <==> Fails(r, WantsExtensions, before, arrivals, description)
  {
    RunSays(r, Begin(before), arrivals, description);
  }
}
