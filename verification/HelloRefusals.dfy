/**
 Which alert ends the ServerHello loop of `packages/tls/src/handshake.ts`, said of the decoded messages:
 what is wrong with the first message that is not a valid answer, in the order it is looked at.
 */
module HelloRefusals {
  import opened Bytes
  import opened HandshakeCodec
  import opened HandshakeMessages
  import opened HandshakeFlight
  import opened HandshakeHello
  import opened HelloExactness
  import opened FlightRefusals

  function PermittedIn(m: Message): set<nat>
    requires m.ServerHello?
  {
    if m.random == HRR_MAGIC then {43, 44, 51} else {41, 43, 51}
  }

  /** No suite of ours, or not the one a retry selected. */
  ghost predicate HasNoSuite(h: Hello, m: Message)
    requires m.ServerHello?
  {
    forall suite :: IsSuite(m.cipherSuite, suite) ==> h.retrySuite.Some? && h.retrySuite.value != suite
  }

  /** What is wrong before it matters which of the two messages it is. */
  ghost predicate IsWrongStart(setup: Setup, h: Hello, m: Message, description: AlertDescription)
    requires m.ServerHello?
  {
    var offered := setup.offer.extensions + {44};
    if m.compressionMethod != 0 || m.sessionIdEcho != setup.sessionId || WarnsOfDowngrade(m.random) then
      description == IllegalParameter
    else if SupportedVersions([0x0304], true) !in m.extensions then
      description == if h.seenRetry then IllegalParameter else ProtocolVersion
    else if exists e | e in m.extensions :: !IsPlaced(e, offered, PermittedIn(m)) then
      IsMisplaced(m.extensions, offered, PermittedIn(m), description)
    else HasNoSuite(h, m) && description == IllegalParameter
  }

  /** It asks for no group we can share. */
  ghost predicate AsksInVain(setup: Setup, h: Hello, m: Message)
    requires m.ServerHello?
  {
    AsksForShare(m)
    && forall code, group | IsGroup(code, group) && KeyShare(None, None, Some(code)) in m.extensions ::
         code !in setup.groups || group == h.group
  }

  ghost predicate IsWrongRetry(setup: Setup, h: Hello, a: Arrival, m: Message, description: AlertDescription)
    requires m.ServerHello?
  {
    if h.seenRetry then description == UnexpectedMessage
    else if forall e | e in m.extensions :: !e.KeyShare? && !e.Cookie? then description == IllegalParameter
    else if a.rest != [] then description == UnexpectedMessage
    else
      && description == IllegalParameter
      && (AsksInVain(setup, h, m) || exists e | e in m.extensions :: e.Cookie? && |e.cookie| > 16384)
  }

  ghost predicate TakesSession(m: Message)
    requires m.ServerHello?
  {
    exists e | e in m.extensions :: e.PreSharedKey?
  }

  ghost predicate IsWrongChoice(h: Hello, a: Arrival, m: Message, description: AlertDescription)
    requires m.ServerHello?
  {
    if TakesSession(m) && h.session.None? then description == UnsupportedExtension
    else if TakesSession(m) && (PreSharedKey(None, None, Some(0)) !in m.extensions || !IsSuite(m.cipherSuite, h.session.value.suite)) then
      description == IllegalParameter
    else if !AsksForShare(m) then description == if TakesSession(m) then IllegalParameter else MissingExtension
    else IsWrongShare(h, a, m, description)
  }

  /** A share for another group, something behind the message, or no public key of the group. */
  ghost predicate IsWrongShare(h: Hello, a: Arrival, m: Message, description: AlertDescription)
    requires m.ServerHello?
  {
    if !exists code, share :: IsGroup(code, h.group) && KeyShare(None, Some(KeyShareEntry(code, share)), None) in m.extensions then
      description == IllegalParameter
    else if a.rest != [] then description == UnexpectedMessage
    else
      && description == IllegalParameter
      && forall code, share | KeyShare(None, Some(KeyShareEntry(code, share)), None) in m.extensions :: !IsPublicKey(h.group, share)
  }

  ghost predicate StartsWell(setup: Setup, h: Hello, m: Message) {
    exists suite ::
      IsTls13(setup, m, suite) && AllInPlace(setup, m) && (h.retrySuite.Some? ==> h.retrySuite.value == suite)
  }

  ghost predicate IsWrongHello(setup: Setup, h: Hello, a: Arrival, description: AlertDescription) {
    match DecodeMessage(a.message)
    case Bad(why) => description == why
    case Ok(m) =>
      if !m.ServerHello? then description == UnexpectedMessage
      else if !StartsWell(setup, h, m) then IsWrongStart(setup, h, m, description)
      else if m.random == HRR_MAGIC then IsWrongRetry(setup, h, a, m, description)
      else IsWrongChoice(h, a, m, description)
  }

  lemma StartSays(setup: Setup, h: Hello, m: Message, description: AlertDescription)
    requires IsFormed(m)
    ensures CommonChecks(setup, h, m) == Bad(description) <==> !StartsWell(setup, h, m) && IsWrongStart(setup, h, m, description)
  {
    hide DefinedIn, TypeCodeOf, Misplaced, SelectsTls13, EndsInSentinel, WarnsOfDowngrade, IsMisplaced, IsPlaced, AllInPlace;
    SentinelWarns(m.random);
    VersionSelected(m, if m.random == HRR_MAGIC then InRetryRequest else InServerHello);
    MisplacedSays(m.extensions, setup.offer.extensions + {COOKIE_TYPE}, PermittedIn(m), description);
    PlacedSays(m.extensions, setup.offer.extensions + {COOKIE_TYPE}, PermittedIn(m));
    SuitesAre(m.cipherSuite);
    forall suite
      ensures CommonChecks(setup, h, m) == Ok(suite)
         <==> IsTls13(setup, m, suite) && AllInPlace(setup, m) && (h.retrySuite.Some? ==> h.retrySuite.value == suite)
    {
      CommonExactly(setup, h, m, suite);
    }
  }

  lemma SuitesAre(code: nat)
    ensures forall suite :: IsSuite(code, suite) <==> SuiteOfCode(code) == Some(suite)
  {
  }

  lemma PlacedSays(es: seq<Extension>, offered: set<nat>, permitted: set<nat>)
    ensures (exists e | e in es :: !IsPlaced(e, offered, permitted)) <==> Misplaced(es, offered, permitted) != None
  {
    hide IsPlaced, IsMisplaced;
    MisplacedSays(es, offered, permitted, DecodeError);
    if Misplaced(es, offered, permitted) != None {
      var k :| 0 <= k < |es| && !IsPlaced(es[k], offered, permitted);
      assert es[k] in es;
    } else {
      forall e | e in es
        ensures IsPlaced(e, offered, permitted)
      {
        var k :| 0 <= k < |es| && es[k] == e;
      }
    }
  }

  lemma ShareIs(m: Message, context: Context)
    requires m.ServerHello? && AreDistinct(m.extensions) && (context == InServerHello || context == InRetryRequest)
    requires forall e | e in m.extensions :: DefinedIn(e, context)
    ensures AsksForShare(m) <==> FindKeyShare(m.extensions).Some?
    ensures forall e | e in m.extensions && e.KeyShare? :: FindKeyShare(m.extensions) == Some(e)
    ensures FindKeyShare(m.extensions).Some? ==>
              var e := FindKeyShare(m.extensions).value;
              && e in m.extensions
              && if context == InServerHello then e.serverShare.Some? && e == KeyShare(None, e.serverShare, None)
                 else e.selectedGroup.Some? && e == KeyShare(None, None, e.selectedGroup)
  {
    hide TypeCodeOf;
    FindsAre(m.extensions);
    if FindKeyShare(m.extensions).Some? {
      ShareForm(FindKeyShare(m.extensions).value);
    }
  }

  lemma GroupSays(setup: Setup, h: Hello, m: Message)
    requires IsFormed(m) && m.random == HRR_MAGIC
    ensures RetriedGroup(setup, h, FindKeyShare(m.extensions)) == None <==> AsksInVain(setup, h, m)
  {
    hide TypeCodeOf, DefinedIn, AreDistinct, FindKeyShare, GroupOf, IsGroup;
    ShareIs(m, InRetryRequest);
    if FindKeyShare(m.extensions).Some? {
      var code := FindKeyShare(m.extensions).value.selectedGroup.value;
      forall group
        ensures GroupOf(code) == Some(group) <==> IsGroup(code, group)
      {
        GroupsAre(group, code, []);
      }
    }
  }

  lemma RetrySays(setup: Setup, h: Hello, a: Arrival, m: Message, suite: SuiteName, description: AlertDescription)
    requires IsFormed(m) && m.random == HRR_MAGIC && h.transcript != []
    ensures TakeRetry(setup, h, m, suite, a) == Denied(description) <==> IsWrongRetry(setup, h, a, m, description)
  {
    hide TypeCodeOf, DefinedIn, FindKeyShare, FindCookie, RetriedGroup, AsksInVain, MessageHash;
    GroupSays(setup, h, m);
    ShareIs(m, InRetryRequest);
    FindsAre(m.extensions);
  }

  lemma PskSays(h: Hello, m: Message, suite: SuiteName, description: AlertDescription)
    requires IsFormed(m) && m.random != HRR_MAGIC && IsSuite(m.cipherSuite, suite)
    ensures TakenSession(h, m, suite) == Bad(description)
       <==> if !TakesSession(m) then false
            else if h.session.None? then description == UnsupportedExtension
            else (PreSharedKey(None, None, Some(0)) !in m.extensions || !IsSuite(m.cipherSuite, h.session.value.suite))
                 && description == IllegalParameter
    ensures TakenSession(h, m, suite).Ok? ==> (TakenSession(h, m, suite).value.Some? <==> TakesSession(m))
    ensures TakenSession(h, m, suite).Ok? && TakesSession(m) ==>
              && h.session.Some? && PreSharedKey(None, None, Some(0)) in m.extensions
              && IsSuite(m.cipherSuite, h.session.value.suite)
  {
    hide TypeCodeOf, FindPsk;
    FindsAre(m.extensions);
    if FindPsk(m.extensions).Some? {
      assert DefinedIn(FindPsk(m.extensions).value, InServerHello);
    }
  }

  lemma ShareSays(h: Hello, a: Arrival, m: Message, description: AlertDescription)
    requires IsFormed(m) && m.random != HRR_MAGIC && AsksForShare(m)
    ensures FindKeyShare(m.extensions).Some?
    ensures var e := FindKeyShare(m.extensions).value;
            (if e.serverShare.None? || e.serverShare.value.group != GroupCode(h.group) then description == IllegalParameter
             else if a.rest != [] then description == UnexpectedMessage
             else
               var share := e.serverShare.value.keyExchange;
               (|share| != ShareLength(h.group) || (h.group != X25519 && share[0] != 0x04)) && description == IllegalParameter)
            <==> IsWrongShare(h, a, m, description)
  {
    hide TypeCodeOf, DefinedIn, AreDistinct, FindKeyShare, IsGroup, IsPublicKey;
    ShareIs(m, InServerHello);
    var entry := FindKeyShare(m.extensions).value.serverShare.value;
    GroupsAre(h.group, entry.group, entry.keyExchange);
    assert KeyShare(None, Some(KeyShareEntry(entry.group, entry.keyExchange)), None) in m.extensions;
  }

  lemma NoShare(m: Message)
    requires IsFormed(m) && m.random != HRR_MAGIC && !AsksForShare(m)
    ensures FindKeyShare(m.extensions) == None
  {
    hide TypeCodeOf, DefinedIn, FindKeyShare;
    ShareIs(m, InServerHello);
  }

  lemma ChoiceSays(h: Hello, a: Arrival, m: Message, suite: SuiteName, description: AlertDescription)
    requires IsFormed(m) && m.random != HRR_MAGIC && IsSuite(m.cipherSuite, suite)
    ensures TakeServerHello(h, m, suite, a) == Denied(description) <==> IsWrongChoice(h, a, m, description)
  {
    hide TypeCodeOf, DefinedIn, AreDistinct, FindKeyShare, TakenSession, IsWrongShare, TakesSession, IsSuite;
    PskSays(h, m, suite, description);
    var taken := TakenSession(h, m, suite);
    if taken.Bad? {
      PskSays(h, m, suite, taken.description);
    } else if AsksForShare(m) {
      ShareSays(h, a, m, description);
    } else {
      NoShare(m);
    }
  }

  lemma TurnSays(setup: Setup, h: Hello, a: Arrival, description: AlertDescription)
    requires h.transcript != []
    ensures HelloTurn(setup, h, a) == Denied(description) <==> IsWrongHello(setup, h, a, description)
  {
    hide DecodeMessage, CommonChecks, TakeServerHello, TakeRetry, AreDistinct, DefinedIn, IsWrongStart, IsWrongRetry, IsWrongChoice;
    match DecodeMessage(a.message)
    case Bad(_) =>
    case Ok(m) =>
      if m.ServerHello? {
        HelloForm(a.message);
        StartSays(setup, h, m, description);
        if CommonChecks(setup, h, m).Ok? {
          var suite := CommonChecks(setup, h, m).value;
          CommonExactly(setup, h, m, suite);
          if m.random == HRR_MAGIC {
            RetrySays(setup, h, a, m, suite, description);
          } else {
            ChoiceSays(h, a, m, suite, description);
          }
        } else {
          StartSays(setup, h, m, CommonChecks(setup, h, m).description);
        }
      } else {
        NotAHello(setup, h, m);
      }
  }

  lemma NotAHello(setup: Setup, h: Hello, m: Message)
    requires !m.ServerHello?
    ensures CommonChecks(setup, h, m) == Bad(UnexpectedMessage)
  {
  }

  // ----- the loop

  /** The first message is wrong; or it is a valid retry and the next one is wrong behind it. */
  ghost predicate IsDenied(setup: Setup, arrivals: seq<Arrival>, description: AlertDescription) {
    && arrivals != []
    && (IsWrongHello(setup, FirstHello(setup), arrivals[0], description)
        || (|arrivals| > 1 && exists h :: LeavesRetried(setup, arrivals[0], h) && IsWrongHello(setup, h, arrivals[1], description)))
  }

  ghost predicate LeavesRetried(setup: Setup, a: Arrival, h: Hello) {
    && DecodeMessage(a.message).Ok? && DecodeMessage(a.message).value.ServerHello?
    && exists suite, cookie :: IsRetried(setup, a, DecodeMessage(a.message).value, suite, cookie, h)
  }

  lemma RetriedSays(setup: Setup, a: Arrival, h: Hello)
    ensures HelloTurn(setup, FirstHello(setup), a) == Retried(h) <==> LeavesRetried(setup, a, h)
  {
    hide DecodeMessage, HelloTurn, IsRetried, CookieOf;
    if HelloTurn(setup, FirstHello(setup), a) == Retried(h) {
      RetryStands(setup, a);
      RetriedExactly(setup, a, h.retrySuite.value, CookieOf(DecodeMessage(a.message).value), h);
    }
    if LeavesRetried(setup, a, h) {
      var suite, cookie :| IsRetried(setup, a, DecodeMessage(a.message).value, suite, cookie, h);
      RetriedExactly(setup, a, suite, cookie, h);
    }
  }

  /** The loop is ended by an alert if and only if a message is wrong for that reason. */
  lemma DeniedExactly(setup: Setup, arrivals: seq<Arrival>, description: AlertDescription)
    ensures RunHello(setup, FirstHello(setup), arrivals) == HelloDenied(description) <==> IsDenied(setup, arrivals, description)
  {
    hide HelloTurn, RunHello, IsWrongHello, LeavesRetried;
    var first := FirstHello(setup);
    HelloStep(setup, first, arrivals);
    if arrivals != [] {
      var t := HelloTurn(setup, first, arrivals[0]);
      TurnSays(setup, first, arrivals[0], description);
      forall h
        ensures t == Retried(h) <==> LeavesRetried(setup, arrivals[0], h)
      {
        RetriedSays(setup, arrivals[0], h);
      }
      if t.Retried? {
        KnowsRetry(setup, first, arrivals[0]);
        HelloStep(setup, t.hello, arrivals[1..]);
        if |arrivals| > 1 {
          TurnSays(setup, t.hello, arrivals[1], description);
          KnowsRetry(setup, t.hello, arrivals[1]);
          RetryTurn(setup, t.hello, arrivals[1]);
        }
      }
    }
  }
}
