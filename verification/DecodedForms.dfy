/**
 What the decoders of `packages/tls/src/handshake-messages.ts` answer, whatever octets they read:
 distinct extensions in a form their message defines, fields of their sizes, nothing left over, and
 the octets themselves again where the form is canonical.
 */
module DecodedForms {
  import opened Bytes
  import opened HandshakeCodec
  import opened HandshakeMessages

  lemma {:induction false} IdentitiesFit(bs: bytes)
    requires GetIdentities(bs).Some?
    ensures forall k | 0 <= k < |GetIdentities(bs).value| :: IdentityFits(GetIdentities(bs).value[k])
    decreases |bs|
  {
    if bs != [] {
      IdentitiesFit(Vec16(bs).value.1[4..]);
    }
  }

  lemma PreSharedKeyForm(data: bytes, context: Context)
    requires context.IsHello() && DecodePreSharedKey(data, context).Some?
    ensures var e := DecodePreSharedKey(data, context).value; e.PreSharedKey? && DefinedIn(e, context)
  {
    hide GetIdentities, GetBinders, IdentityFits, Vec16, Whole16;
    if context == InClientHello {
      IdentitiesFit(Vec16(data).value.0);
    }
  }

  lemma KeyShareForm(data: bytes, context: Context)
    requires context.IsHello() && DecodeKeyShare(data, context).Some?
    ensures var e := DecodeKeyShare(data, context).value; e.KeyShare? && DefinedIn(e, context)
  {
    hide GetShares, Whole16;
  }

  /** A decoded extension has the type it was decoded under, in a form its message defines. */
  lemma BodyForm(code: nat, data: bytes, context: Context)
    requires DecodeBody(code, data, context).Some?
    ensures var e := DecodeBody(code, data, context).value; TypeCodeOf(e) == code && DefinedIn(e, context)
  {
    hide GetNames, GetU16s, Whole8, Whole16, Vec16, DecodeKeyShare, DecodePreSharedKey;
    if code == 41 && context.IsHello() {
      PreSharedKeyForm(data, context);
    } else if code == 51 && context.IsHello() {
      KeyShareForm(data, context);
    }
  }

  /** Types are distinct, none of them already met, each in a form its message defines. */
  lemma {:induction false} ListForm(bs: bytes, seen: set<nat>, context: Context)
    requires DecodeList(bs, seen, context).Ok?
    ensures Proper(DecodeList(bs, seen, context).value, seen, context)
    decreases |bs|
  {
    hide DecodeBody, DefinedIn, TypeCodeOf;
    if bs != [] {
      var code := Get16(bs);
      var (data, rest) := Vec16(bs[2..]).value;
      var e := DecodeBody(code, data, context).value;
      BodyForm(code, data, context);
      ListForm(rest, seen + {code}, context);
      var es := DecodeList(rest, seen + {code}, context).value;
      assert DecodeList(bs, seen, context).value == [e] + es;
      forall k | 0 < k < |[e] + es|
        ensures DefinedIn(([e] + es)[k], context) && TypeCodeOf(([e] + es)[k]) !in seen + {code}
      {
        assert ([e] + es)[k] == es[k - 1];
      }
    }
  }

  lemma ExtensionsForm(bs: bytes, context: Context)
    requires DecodeExtensions(bs, context).Ok?
    ensures Proper(DecodeExtensions(bs, context).value, {}, context)
  {
    hide DecodeList, Proper;
    ListForm(Whole16(bs).value, {}, context);
  }

  lemma NoExtensions(context: Context)
    ensures Proper([], {}, context)
  {
  }

  lemma ServerHelloForm(body: bytes)
    requires DecodeServerHello(body).Ok?
    ensures var m := DecodeServerHello(body).value;
            && m.ServerHello? && m.legacyVersion == 0x0303 && |m.random| == 32
            && Proper(m.extensions, {}, if m.random == HRR_MAGIC then InRetryRequest else InServerHello)
  {
    hide DecodeExtensions, Proper, Vec8;
    var random := body[2..34];
    var context := if random == HRR_MAGIC then InRetryRequest else InServerHello;
    var rest := Vec8(body[34..]).value.1[3..];
    NoExtensions(context);
    if rest != [] {
      ExtensionsForm(rest, context);
    }
  }

  /** A message has the type it was decoded under. */
  lemma MessageKind(code: nat, body: bytes)
    requires DecodeMessageBody(code, body).Ok?
    ensures MessageTypeOf(DecodeMessageBody(code, body).value) == code
  {
    hide DecodeExtensions, DecodeEntries, Vec8, Vec16, Vec24, Whole16, GetU16s, Get16, Get32;
  }

  /** The entries of a decoded Certificate: what was read of each, and the octets it was read from. */
  predicate EntryRead(entry: CertificateEntry) {
    && entry.rawExtensions.Some?
    && DecodeExtensions(entry.rawExtensions.value, Elsewhere) == Ok(entry.extensions)
    && Proper(entry.extensions, {}, Elsewhere)
  }

  lemma {:induction false} EntriesForm(bs: bytes)
    requires DecodeEntries(bs).Ok?
    ensures forall k | 0 <= k < |DecodeEntries(bs).value| :: EntryRead(DecodeEntries(bs).value[k])
    decreases |bs|
  {
    hide DecodeExtensions, Proper;
    if bs != [] {
      var (cert, rest) := Vec24(bs).value;
      var (_, after) := Vec16(rest).value;
      var raw := rest[..|rest| - |after|];
      ExtensionsForm(raw, Elsewhere);
      EntriesForm(after);
      var first := CertificateEntry(cert, DecodeExtensions(raw, Elsewhere).value, Some(raw));
      assert DecodeEntries(bs).value == [first] + DecodeEntries(after).value;
    }
  }

  /**
   Whatever decodes: 32 octets of random, version 0x0303 of a ServerHello, a ticket that is not empty,
   and in every list of extensions distinct types, each in a form its message defines.
   */
  lemma MessageForm(code: nat, body: bytes)
    requires DecodeMessageBody(code, body).Ok?
    ensures var m := DecodeMessageBody(code, body).value;
            MessageTypeOf(m) == code
            && if m.Certificate? then forall k | 0 <= k < |m.certificateList| :: EntryRead(m.certificateList[k])
               else MessageProper(m)
  {
    hide DecodeExtensions, DecodeEntries, EntryRead, Vec8, Vec16, Vec24, Whole16, GetU16s, Get16, Proper;
    MessageKind(code, body);
    if code == 1 {
      var block := Vec8(Vec16(Vec8(body[34..]).value.1).value.1).value.1;
      NoExtensions(InClientHello);
      if block != [] {
        ExtensionsForm(block, InClientHello);
      }
    } else if code == 2 {
      ServerHelloForm(body);
    } else if code == 4 {
      ExtensionsForm(Vec16(Vec8(body[8..]).value.1).value.1, Elsewhere);
    } else if code == 8 {
      ExtensionsForm(body, Elsewhere);
    } else if code == 11 {
      EntriesForm(Vec24(Vec8(body).value.1).value.0);
    } else if code == 13 {
      ExtensionsForm(Vec8(body).value.1, Elsewhere);
    }
  }
}
