/**
 The ClientHello a connection sends (`packages/tls/src/handshake-messages.ts`): which extensions, in
 which order, and the padding of RFC 7685 that keeps its length out of 256 to 511.
 */
module ProductionHello {
  import opened Bytes
  import opened HandshakeCodec
  import opened HandshakeMessages

  datatype PskOffer = PskOffer(identity: bytes, obfuscatedTicketAge: nat, binderLength: nat)

  datatype Options = Options(
    serverName: bytes, group: nat, keySharePublicKey: bytes, supportedGroups: seq<nat>, signatureSchemes: seq<nat>,
    random: bytes, legacySessionId: bytes, cookie: Option<bytes>, psk: Option<PskOffer>)

  const PADDING_TARGET := 512
  const PADDING_RANGE_START := 256
  const PADDING_EXTENSION_HEADER := 4

  function PaddingFor(messageLength: nat): Option<nat> {
    if messageLength < PADDING_RANGE_START || messageLength >= PADDING_TARGET then None
    else Some(Max(0, PADDING_TARGET - messageLength - PADDING_EXTENSION_HEADER))
  }

  const CERTIFICATE_SCHEMES: seq<nat> := [0x0403, 0x0503, 0x0603, 0x0401, 0x0501, 0x0601]

  function AlwaysOffered(o: Options): seq<Extension> {
    [ServerName([o.serverName]), SupportedGroups(o.supportedGroups), SignatureAlgorithms(o.signatureSchemes),
     SignatureAlgorithmsCert(CERTIFICATE_SCHEMES), SupportedVersions([0x0304], false),
     KeyShare(Some([KeyShareEntry(o.group, o.keySharePublicKey)]), None, None)]
  }

  function OfferedBeforePsk(o: Options): seq<Extension> {
    AlwaysOffered(o) + (if o.cookie.Some? then [Cookie(o.cookie.value)] else []) + [PskKeyExchangeModes([1])]
  }

  /** One identity, and a binder of zeroes that is filled in later. */
  function OfferedPsk(o: Options): seq<Extension> {
    match o.psk
    case None => []
    case Some(psk) =>
      [PreSharedKey(Some([PskIdentity(psk.identity, psk.obfuscatedTicketAge)]), Some([seq<byte>(psk.binderLength, _ => 0)]), None)]
  }

  function HelloOf(o: Options, es: seq<Extension>): Message {
    ClientHello(0x0303, o.random, o.legacySessionId, [0x1301, 0x1302], [0], es)
  }

  /** The extensions that go out: padding, if any, in front of the PSK. */
  function SentExtensions(o: Options): seq<Extension> {
    var unpadded := EncodeMessage(HelloOf(o, OfferedBeforePsk(o) + OfferedPsk(o)));
    if unpadded.None? then OfferedBeforePsk(o) + OfferedPsk(o)
    else
      match PaddingFor(|unpadded.value|)
      case None => OfferedBeforePsk(o) + OfferedPsk(o)
      case Some(n) => OfferedBeforePsk(o) + [Padding(n)] + OfferedPsk(o)
  }

  /** None where the encoder throws. */
  method EncodeProductionClientHello(o: Options) returns (message: Option<bytes>)
    ensures message == if EncodeMessage(HelloOf(o, OfferedBeforePsk(o) + OfferedPsk(o))).None? then None
                       else EncodeMessage(HelloOf(o, SentExtensions(o)))
  {
    hide EncodeMessage;
    var extensions := AlwaysOffered(o);
    if o.cookie.Some? {
      extensions := extensions + [Cookie(o.cookie.value)];
    }
    extensions := extensions + [PskKeyExchangeModes([1])];
    assert AlwaysOffered(o) + [] == AlwaysOffered(o);
    assert extensions == OfferedBeforePsk(o);
    ghost var before := extensions;
    if o.psk.Some? {
      extensions := extensions + OfferedPsk(o);
    }
    assert extensions == before + OfferedPsk(o);
    var unpadded := EncodeMessage(HelloOf(o, extensions));
    if unpadded.None? {
      return None;
    }
    var padding := PaddingFor(|unpadded.value|);
    if padding.None? {
      return unpadded;
    }
    var insertAt := if extensions[|extensions| - 1].PreSharedKey? then |extensions| - 1 else |extensions|;
    assert extensions[..insertAt] == before && extensions[insertAt..] == OfferedPsk(o) by {
      LastIsPsk(o);
    }
    message := EncodeMessage(HelloOf(o, extensions[..insertAt] + [Padding(padding.value)] + extensions[insertAt..]));
  }

  lemma LastIsPsk(o: Options)
    ensures var before, es := OfferedBeforePsk(o), OfferedBeforePsk(o) + OfferedPsk(o);
            var at := if es[|es| - 1].PreSharedKey? then |es| - 1 else |es|;
            es[..at] == before && es[at..] == OfferedPsk(o)
  {
  }

  // ----- the length

  lemma {:induction false} EncodeListConcat(a: seq<Extension>, b: seq<Extension>)
    ensures EncodeList(a + b) == EncodeList(a) + EncodeList(b)
  {
    hide EncodeExtension;
    if a == [] {
      assert a + b == b;
    } else {
      assert (a + b)[1..] == a[1..] + b;
      EncodeListConcat(a[1..], b);
      ConcatAssoc(EncodeExtension(a[0]), EncodeList(a[1..]), EncodeList(b));
    }
  }

  lemma EncodeListOne(e: Extension)
    ensures EncodeList([e]) == EncodeExtension(e)
  {
    hide EncodeExtension;
    assert [e][1..] == [];
    assert EncodeExtension(e) + [] == EncodeExtension(e);
  }

  lemma PaddingLength(n: nat)
    ensures |EncodeExtension(Padding(n))| == 4 + n
  {
    PutLengths(21);
  }

  lemma HelloLength(o: Options, es: seq<Extension>)
    ensures EncodeMessage(HelloOf(o, es)).Some? ==>
              |EncodeMessage(HelloOf(o, es)).value| == 17 + |o.random| + |o.legacySessionId| + |EncodeList(es)|
  {
    hide EncodeList, MessageEncodable, PutU16s;
    SuitesLength();
    var list := EncodeExtensions(es);
    assert |list| == 2 + |EncodeList(es)|;
    assert |PutVec8([0]) + list| == 4 + |EncodeList(es)|;
    assert |PutVec16(PutU16s([0x1301, 0x1302])) + (PutVec8([0]) + list)| == 10 + |EncodeList(es)|;
    assert |MessageBody(HelloOf(o, es))| == 13 + |o.random| + |o.legacySessionId| + |EncodeList(es)|;
  }

  lemma SuitesLength()
    ensures |PutU16s([0x1301, 0x1302])| == 4
  {
    assert [0x1301, 0x1302][1..] == [0x1302] && [0x1302][1..] == [];
  }

  /** No ClientHello has a length from 256 to 511, which some servers hang up on. */
  lemma NeverInRange(o: Options)
    ensures var sent := EncodeMessage(HelloOf(o, SentExtensions(o)));
            EncodeMessage(HelloOf(o, OfferedBeforePsk(o) + OfferedPsk(o))).Some? && sent.Some? ==>
              !(PADDING_RANGE_START <= |sent.value| < PADDING_TARGET)
  {
    hide EncodeMessage, EncodeList, EncodeExtension, OfferedBeforePsk, OfferedPsk;
    var before, psk := OfferedBeforePsk(o), OfferedPsk(o);
    var unpadded := EncodeMessage(HelloOf(o, before + psk));
    HelloLength(o, before + psk);
    if unpadded.Some? {
      var padding := PaddingFor(|unpadded.value|);
      if padding.Some? {
        var one := [Padding(padding.value)];
        HelloLength(o, before + one + psk);
        EncodeListConcat(before, psk);
        EncodeListConcat(before + one, psk);
        EncodeListConcat(before, one);
        EncodeListOne(Padding(padding.value));
        PaddingLength(padding.value);
      }
    }
  }

  lemma EndsBehind(a: bytes, s: bytes, t: bytes)
    requires EndsWith(s, t)
    ensures EndsWith(a + s, t)
  {
    assert (a + s)[|a + s| - |t|..] == s[|s| - |t|..];
  }

  /** A list of extensions ends as its last one does. */
  lemma ListEnds(es: seq<Extension>, last: Extension, t: bytes)
    requires EndsWith(BodyOf(last), t)
    ensures EndsWith(EncodeExtensions(es + [last]), t)
  {
    hide BodyOf, Put16, EndsWith;
    EndsBehind(Put16(|BodyOf(last)|), BodyOf(last), t);
    EndsBehind(Put16(TypeCodeOf(last)), PutVec16(BodyOf(last)), t);
    EncodeListConcat(es, [last]);
    EncodeListOne(last);
    EndsBehind(EncodeList(es), EncodeExtension(last), t);
    EndsBehind(Put16(|EncodeList(es + [last])|), EncodeList(es + [last]), t);
  }

  lemma HelloEnds(o: Options, es: seq<Extension>, t: bytes)
    requires EncodeMessage(HelloOf(o, es)).Some? && EndsWith(EncodeExtensions(es), t)
    ensures EndsWith(EncodeMessage(HelloOf(o, es)).value, t)
  {
    hide EndsWith, EncodeExtensions, MessageEncodable, PutU16s, PutVec8, PutVec16, Put24, Put16, Put8;
    var list := EncodeExtensions(es);
    var suites := PutVec16(PutU16s([0x1301, 0x1302]));
    EndsBehind(PutVec8([0]), list, t);
    EndsBehind(suites, PutVec8([0]) + list, t);
    EndsBehind(PutVec8(o.legacySessionId), suites + (PutVec8([0]) + list), t);
    EndsBehind(o.random, PutVec8(o.legacySessionId) + (suites + (PutVec8([0]) + list)), t);
    EndsBehind(Put16(0x0303), o.random + (PutVec8(o.legacySessionId) + (suites + (PutVec8([0]) + list))), t);
    var body := MessageBody(HelloOf(o, es));
    EndsBehind(Put24(|body|), body, t);
    EndsBehind(Put8(1), PutVec24(body), t);
  }

  /** The tail of the message when a session is offered: the binder list, whose place `bindClientHello` fills. */
  lemma BinderIsTail(o: Options)
    requires o.psk.Some? && EncodeMessage(HelloOf(o, SentExtensions(o))).Some?
    ensures EndsWith(EncodeMessage(HelloOf(o, SentExtensions(o))).value,
                     PutVec16(PutVec8(seq<byte>(o.psk.value.binderLength, _ => 0))))
  {
    hide EncodeMessage, OfferedBeforePsk, EndsWith, PutVec8, PutVec16, PutIdentities, EncodeExtensions;
    var psk := OfferedPsk(o)[0];
    var zeros := seq<byte>(o.psk.value.binderLength, _ => 0);
    var t := PutVec16(PutVec8(zeros));
    OneBinder(zeros);
    EndsItself(t);
    EndsBehind(PutVec16(PutIdentities(psk.identities.value)), t, t);
    var es := SentExtensions(o);
    assert OfferedPsk(o) == [psk];
    var before := if PaddedBy(o).None? then OfferedBeforePsk(o) else OfferedBeforePsk(o) + [Padding(PaddedBy(o).value)];
    assert es == before + [psk];
    ListEnds(before, psk, t);
    HelloEnds(o, es, t);
  }

  function PaddedBy(o: Options): Option<nat> {
    var unpadded := EncodeMessage(HelloOf(o, OfferedBeforePsk(o) + OfferedPsk(o)));
    if unpadded.None? then None else PaddingFor(|unpadded.value|)
  }

  lemma OneBinder(binder: bytes)
    ensures PutBinders([binder]) == PutVec8(binder)
  {
    hide PutVec8;
    assert [binder][1..] == [];
    assert PutVec8(binder) + [] == PutVec8(binder);
  }

  lemma EndsItself(t: bytes)
    ensures EndsWith(t, t)
  {
  }

  // ----- what a server reads

  /** What the caller hands over has the forms the wire has. */
  predicate Fits(o: Options) {
    && |o.random| == 32 && o.cookie != Some([])
    && (o.psk.Some? ==> |o.psk.value.identity| < 0x10000 && o.psk.value.obfuscatedTicketAge < 0x100000000)
  }

  lemma ProperConcat(a: seq<Extension>, e: Extension, context: Context)
    requires Proper(a, {}, context) && DefinedIn(e, context)
    requires forall k | 0 <= k < |a| :: TypeCodeOf(a[k]) != TypeCodeOf(e)
    ensures Proper(a + [e], {}, context)
  {
    hide DefinedIn, TypeCodeOf;
  }

  predicate NoneIs(es: seq<Extension>, codes: set<nat>) {
    forall k | 0 <= k < |es| :: TypeCodeOf(es[k]) !in codes
  }

  lemma AlwaysProper(o: Options)
    ensures Proper(AlwaysOffered(o), {}, InClientHello) && NoneIs(AlwaysOffered(o), {21, 41, 44, 45})
  {
  }

  lemma BeforePskProper(o: Options)
    requires Fits(o)
    ensures Proper(OfferedBeforePsk(o), {}, InClientHello) && NoneIs(OfferedBeforePsk(o), {21, 41})
  {
    hide AlwaysOffered, Proper;
    AlwaysProper(o);
    var es := AlwaysOffered(o);
    if o.cookie.Some? {
      ProperConcat(es, Cookie(o.cookie.value), InClientHello);
      es := es + [Cookie(o.cookie.value)];
    } else {
      assert es + [] == es;
    }
    assert NoneIs(es, {21, 41, 45});
    ProperConcat(es, PskKeyExchangeModes([1]), InClientHello);
  }

  lemma SentProper(o: Options)
    requires Fits(o)
    ensures Proper(SentExtensions(o), {}, InClientHello)
  {
    hide OfferedBeforePsk, Proper, EncodeMessage;
    BeforePskProper(o);
    var es, padding := OfferedBeforePsk(o), PaddedBy(o);
    if padding.Some? {
      ProperConcat(es, Padding(padding.value), InClientHello);
      es := es + [Padding(padding.value)];
    }
    assert NoneIs(es, {41});
    if o.psk.Some? {
      ProperConcat(es, OfferedPsk(o)[0], InClientHello);
      assert OfferedPsk(o) == [OfferedPsk(o)[0]];
    } else {
      assert es + [] == es;
    }
  }

  /** Everything that is always offered, and the cookie. */
  predicate HasOffers(o: Options, es: seq<Extension>) {
    && ServerName([o.serverName]) in es && SupportedGroups(o.supportedGroups) in es
    && SignatureAlgorithms(o.signatureSchemes) in es
    && SignatureAlgorithmsCert([0x0403, 0x0503, 0x0603, 0x0401, 0x0501, 0x0601]) in es
    && SupportedVersions([0x0304], false) in es
    && KeyShare(Some([KeyShareEntry(o.group, o.keySharePublicKey)]), None, None) in es
    && PskKeyExchangeModes([1]) in es
    && (o.cookie.Some? ==> Cookie(o.cookie.value) in es)
  }

  predicate HasOnlyOffers(o: Options, es: seq<Extension>) {
    forall e | e in es :: !e.EarlyData? && !e.Unknown? && (e.Cookie? ==> o.cookie.Some?)
  }

  predicate HasPskLast(o: Options, es: seq<Extension>) {
    && (o.psk.Some? ==> es != [] && IsPskOffer(o.psk.value, es[|es| - 1]))
    && forall k | 0 <= k < |es| :: es[k].PreSharedKey? <==> o.psk.Some? && k == |es| - 1
  }

  /** All of it once, the session last, and nothing else but padding. */
  ghost predicate IsMeant(o: Options, es: seq<Extension>) {
    HasOffers(o, es) && HasOnlyOffers(o, es) && AreDistinct(es) && HasPskLast(o, es)
  }

  /** One identity, and room for its binder. */
  predicate IsPskOffer(psk: PskOffer, e: Extension) {
    && e.PreSharedKey? && e.identities == Some([PskIdentity(psk.identity, psk.obfuscatedTicketAge)])
    && e.binders.Some? && |e.binders.value| == 1 && |e.binders.value[0]| == psk.binderLength
  }

  /** What goes out decodes to what was meant, and a session is the last thing it offers. */
  lemma HelloReadsBack(o: Options)
    requires Fits(o) && EncodeMessage(HelloOf(o, SentExtensions(o))).Some?
    ensures var es := SentExtensions(o);
            && DecodeMessage(EncodeMessage(HelloOf(o, es)).value)
               == Ok(ClientHello(0x0303, o.random, o.legacySessionId, [0x1301, 0x1302], [0], es))
            && IsMeant(o, es)
  {
    hide EncodeMessage, DecodeMessage, SentExtensions, Proper, IsMeant;
    SentProper(o);
    MessageRoundTrip(HelloOf(o, SentExtensions(o)));
    SentIsMeant(o);
  }

  lemma SentIsMeant(o: Options)
    requires Proper(SentExtensions(o), {}, InClientHello)
    ensures IsMeant(o, SentExtensions(o))
  {
    hide SentExtensions, Proper, OfferedBeforePsk, OfferedPsk, HasOffers, HasOnlyOffers, AreDistinct, HasPskLast;
    var es := SentExtensions(o);
    ProperDiffers(es);
    var padding := SentParts(o);
    OffersAre(o, OfferedBeforePsk(o));
    HasMore(o, OfferedBeforePsk(o), padding, OfferedPsk(o));
    OffersOnly(o, padding);
    PskIsLast(o);
  }

  lemma HasMore(o: Options, a: seq<Extension>, b: seq<Extension>, c: seq<Extension>)
    requires HasOffers(o, a)
    ensures HasOffers(o, a + b + c)
  {
    assert forall e | e in a :: e in a + b + c;
  }

  lemma ProperDiffers(es: seq<Extension>)
    requires Proper(es, {}, InClientHello)
    ensures AreDistinct(es)
  {
  }

  lemma SentParts(o: Options) returns (padding: seq<Extension>)
    ensures SentExtensions(o) == OfferedBeforePsk(o) + padding + OfferedPsk(o)
    ensures forall e | e in padding :: e.Padding?
  {
    hide EncodeMessage, OfferedBeforePsk;
    var unpadded := EncodeMessage(HelloOf(o, OfferedBeforePsk(o) + OfferedPsk(o)));
    var n := if unpadded.None? then None else PaddingFor(|unpadded.value|);
    padding := if n.None? then [] else [Padding(n.value)];
    assert OfferedBeforePsk(o) + [] == OfferedBeforePsk(o);
  }

  lemma OffersOnly(o: Options, padding: seq<Extension>)
    requires forall e | e in padding :: e.Padding?
    ensures HasOnlyOffers(o, OfferedBeforePsk(o) + padding + OfferedPsk(o))
  {
  }

  lemma OffersAre(o: Options, before: seq<Extension>)
    requires before == OfferedBeforePsk(o)
    ensures HasOffers(o, before)
  {
    var always := AlwaysOffered(o);
    assert before[..6] == always;
    assert before[0] == always[0] && before[1] == always[1] && before[2] == always[2] && before[3] == always[3];
    assert before[4] == always[4] && before[5] == always[5];
    assert before[|before| - 1] == PskKeyExchangeModes([1]);
    assert o.cookie.Some? ==> before[|before| - 2] == Cookie(o.cookie.value);
  }

  lemma PskIsLast(o: Options)
    ensures HasPskLast(o, SentExtensions(o))
  {
    hide EncodeMessage;
    var es := SentExtensions(o);
    assert o.psk.Some? ==> es[|es| - 1] == OfferedPsk(o)[0];
  }
}
