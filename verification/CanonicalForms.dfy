/**
 Writing again what was read (`packages/tls/src/handshake-messages.ts`): which octets are the ones the
 encoder would have written, for one extension, a list of them and a whole message.
 */
module CanonicalForms {
  import opened Bytes
  import opened HandshakeCodec
  import opened HandshakeMessages
  import opened DecodedForms

  // ----- integers and vectors

  lemma PutGet(bs: bytes)
    ensures |bs| >= 1 ==> bs == Put8(Get8(bs)) + bs[1..] && Get8(bs) < 0x100
    ensures |bs| >= 2 ==> bs == Put16(Get16(bs)) + bs[2..] && Get16(bs) < 0x10000
    ensures |bs| >= 3 ==> bs == Put24(Get24(bs)) + bs[3..] && Get24(bs) < 0x1000000
    ensures |bs| >= 4 ==> bs == Put32(Get32(bs)) + bs[4..] && Get32(bs) < 0x100000000
  {
    if |bs| >= 3 {
      ThreeDigits(bs[0] as int, bs[1] as int, bs[2] as int);
      assert bs == [bs[0], bs[1], bs[2]] + bs[3..];
    }
    if |bs| >= 4 {
      FourDigits(bs[0] as int, bs[1] as int, bs[2] as int, bs[3] as int);
      assert bs == [bs[0], bs[1], bs[2], bs[3]] + bs[4..];
    }
  }

  lemma ThreeDigits(a: nat, b: nat, c: nat)
    requires a < 0x100 && b < 0x100 && c < 0x100
    ensures var n := a * 0x10000 + b * 0x100 + c;
            n / 0x10000 % 0x100 == a && n / 0x100 % 0x100 == b && n % 0x100 == c
  {
    assert (a * 0x10000 + b * 0x100 + c) / 0x100 == a * 0x100 + b;
  }

  lemma FourDigits(a: nat, b: nat, c: nat, d: nat)
    requires a < 0x100 && b < 0x100 && c < 0x100 && d < 0x100
    ensures var n := a * 0x1000000 + b * 0x10000 + c * 0x100 + d;
            && n / 0x1000000 % 0x100 == a && n / 0x10000 % 0x100 == b
            && n / 0x100 % 0x100 == c && n % 0x100 == d
  {
    var n := a * 0x1000000 + b * 0x10000 + c * 0x100 + d;
    assert n / 0x100 == a * 0x10000 + b * 0x100 + c;
    assert n / 0x10000 == a * 0x100 + b;
  }

  lemma TakenBack(n: nat, bs: bytes)
    requires Take(n, bs).Some?
    ensures var (content, rest) := Take(n, bs).value; |content| == n && bs == content + rest
  {
  }

  lemma VecBack(bs: bytes)
    ensures Vec8(bs).Some? ==>
              var (content, rest) := Vec8(bs).value; bs == PutVec8(content) + rest && |content| < 0x100
    ensures Vec16(bs).Some? ==>
              var (content, rest) := Vec16(bs).value; bs == PutVec16(content) + rest && |content| < 0x10000
    ensures Vec24(bs).Some? ==>
              var (content, rest) := Vec24(bs).value; bs == PutVec24(content) + rest && |content| < 0x1000000
  {
    hide Get8, Get16, Get24, Put8, Put16, Put24, Take;
    PutGet(bs);
    if |bs| >= 1 && Vec8(bs).Some? {
      TakenBack(Get8(bs), bs[1..]);
      ConcatAssoc(Put8(Get8(bs)), Vec8(bs).value.0, Vec8(bs).value.1);
    }
    if |bs| >= 2 && Vec16(bs).Some? {
      TakenBack(Get16(bs), bs[2..]);
      ConcatAssoc(Put16(Get16(bs)), Vec16(bs).value.0, Vec16(bs).value.1);
    }
    if |bs| >= 3 && Vec24(bs).Some? {
      TakenBack(Get24(bs), bs[3..]);
      ConcatAssoc(Put24(Get24(bs)), Vec24(bs).value.0, Vec24(bs).value.1);
    }
  }

  lemma WholeBack(bs: bytes)
    ensures Whole8(bs).Some? ==> bs == PutVec8(Whole8(bs).value) && |Whole8(bs).value| < 0x100
    ensures Whole16(bs).Some? ==> bs == PutVec16(Whole16(bs).value) && |Whole16(bs).value| < 0x10000
  {
    hide Vec8, Vec16, PutVec8, PutVec16;
    VecBack(bs);
    if Whole8(bs).Some? {
      assert PutVec8(Whole8(bs).value) + [] == PutVec8(Whole8(bs).value);
    }
    if Whole16(bs).Some? {
      assert PutVec16(Whole16(bs).value) + [] == PutVec16(Whole16(bs).value);
    }
  }

  // ----- lists

  lemma {:induction false} U16sBack(bs: bytes)
    requires |bs| % 2 == 0
    ensures PutU16s(GetU16s(bs)) == bs && AllU16(GetU16s(bs)) && 2 * |GetU16s(bs)| == |bs|
  {
    hide Get16, Put16;
    if bs != [] {
      PutGet(bs);
      U16sBack(bs[2..]);
    }
  }

  lemma {:induction false} SharesBack(bs: bytes)
    requires GetShares(bs).Some?
    ensures PutShares(GetShares(bs).value) == bs
    ensures forall share | share in GetShares(bs).value :: ShareFits(share)
    decreases |bs|
  {
    hide Get16, Put16, Vec16, PutVec16;
    if bs != [] {
      PutGet(bs);
      VecBack(bs[2..]);
      var (key, rest) := Vec16(bs[2..]).value;
      SharesBack(rest);
      var shares := GetShares(rest).value;
      assert ([KeyShareEntry(Get16(bs), key)] + shares)[1..] == shares;
      ConcatAssoc(Put16(Get16(bs)), PutVec16(key), rest);
    }
  }

  lemma {:induction false} IdentitiesBack(bs: bytes)
    requires GetIdentities(bs).Some?
    ensures PutIdentities(GetIdentities(bs).value) == bs
    ensures forall k | 0 <= k < |GetIdentities(bs).value| :: IdentityFits(GetIdentities(bs).value[k])
    decreases |bs|
  {
    hide Get32, Put32, Vec16, PutVec16;
    if bs != [] {
      VecBack(bs);
      var (identity, after) := Vec16(bs).value;
      PutGet(after);
      IdentitiesBack(after[4..]);
      var ids := GetIdentities(after[4..]).value;
      assert ([PskIdentity(identity, Get32(after))] + ids)[1..] == ids;
      ConcatAssoc(PutVec16(identity), Put32(Get32(after)), after[4..]);
    }
  }

  lemma {:induction false} BindersBack(bs: bytes)
    requires GetBinders(bs).Some?
    ensures PutBinders(GetBinders(bs).value) == bs
    ensures forall k | 0 <= k < |GetBinders(bs).value| :: |GetBinders(bs).value[k]| < 0x100
    decreases |bs|
  {
    hide Vec8, PutVec8;
    if bs != [] {
      VecBack(bs);
      var (binder, rest) := Vec8(bs).value;
      VecOf(binder, rest);
      BindersBack(rest);
      assert ([binder] + GetBinders(rest).value)[1..] == GetBinders(rest).value;
    }
  }

  /** Every entry of a list of names is a host name, type 0. */
  predicate HostNamesOnly(bs: bytes)
    decreases |bs|
  {
    if bs == [] then true
    else
      match Vec16(bs[1..])
      case None => false
      case Some((_, rest)) => bs[0] == 0 && HostNamesOnly(rest)
  }

  lemma {:induction false} NamesBack(bs: bytes)
    requires GetNames(bs).Some?
    ensures |PutNames(GetNames(bs).value)| <= |bs| && AllVec16(GetNames(bs).value)
    ensures HostNamesOnly(bs) ==> PutNames(GetNames(bs).value) == bs
    ensures !HostNamesOnly(bs) ==> |PutNames(GetNames(bs).value)| < |bs|
    decreases |bs|
  {
    hide PutVec16, Vec16;
    if bs != [] {
      VecBack(bs[1..]);
      var (name, rest) := Vec16(bs[1..]).value;
      VecOf(name, rest);
      NamesBack(rest);
      var names := GetNames(rest).value;
      assert ([name] + names)[1..] == names;
      assert bs == [bs[0]] + (PutVec16(name) + rest);
      ConcatAssoc([bs[0]], PutVec16(name), rest);
    }
  }

  // ----- one extension

  /** The octets an extension's own encoder writes for what they decode to. */
  predicate IsCanonicalBody(code: nat, data: bytes) {
    && (code == 0 && data != [] ==> |data| > 2 && HostNamesOnly(data[2..]))
    && (code == 21 ==> forall octet | octet in data :: octet == 0)
    && (code == 42 ==> |data| == 0 || |data| == 4)
  }

  lemma NoNames()
    ensures PutNames([]) == [] && GetNames([]) == Some([])
  {
  }

  lemma ServerNameBack(data: bytes)
    requires DecodeServerName(data).Some? && |data| < 0x10000
    ensures var e := DecodeServerName(data).value;
            BodyFits(e) && |BodyOf(e)| <= |data| && (BodyOf(e) == data <==> IsCanonicalBody(0, data))
  {
    hide PutNames, GetNames, Put16, Get16;
    if data != [] {
      WholeBack(data);
      var list := Whole16(data).value;
      VecOf(list, []);
      NamesBack(list);
      PutLengths(|list|);
      assert data[2..] == list;
      var names := GetNames(list).value;
      VecOf(PutNames(names), []);
      NoNames();
    }
  }

  lemma ListsBack(code: nat, data: bytes, context: Context)
    requires DecodeBody(code, data, context).Some? && code in {10, 13, 50}
    ensures BodyFits(DecodeBody(code, data, context).value) && BodyOf(DecodeBody(code, data, context).value) == data
  {
    hide PutU16s, GetU16s, Whole16, PutVec16;
    WholeBack(data);
    U16sBack(Whole16(data).value);
  }

  lemma VersionsBack(data: bytes, context: Context)
    requires DecodeVersions(data, context).Some?
    ensures BodyFits(DecodeVersions(data, context).value) && BodyOf(DecodeVersions(data, context).value) == data
  {
    hide PutU16s, GetU16s, Whole8, PutVec8, Put16, Get16;
    if context == InServerHello || context == InRetryRequest {
      PutGet(data);
      assert Put16(Get16(data)) + [] == Put16(Get16(data));
    } else {
      WholeBack(data);
      U16sBack(Whole8(data).value);
    }
  }

  lemma KeyShareBack(data: bytes, context: Context)
    requires DecodeKeyShare(data, context).Some? && |data| < 0x10000
    ensures BodyFits(DecodeKeyShare(data, context).value) && BodyOf(DecodeKeyShare(data, context).value) == data
  {
    hide PutShares, GetShares, Whole16, PutVec16, Put16, Get16;
    if context == InRetryRequest {
      PutGet(data);
      assert Put16(Get16(data)) + [] == Put16(Get16(data));
    } else if context == InServerHello {
      PutGet(data);
      WholeBack(data[2..]);
    } else {
      WholeBack(data);
      SharesBack(Whole16(data).value);
    }
  }

  lemma PreSharedKeyBack(data: bytes, context: Context)
    requires DecodePreSharedKey(data, context).Some?
    ensures BodyFits(DecodePreSharedKey(data, context).value)
    ensures BodyOf(DecodePreSharedKey(data, context).value) == data
  {
    hide PutIdentities, GetIdentities, PutBinders, GetBinders, Vec16, Whole16, PutVec16, Put16, Get16;
    if context == InServerHello || context == InRetryRequest {
      PutGet(data);
      assert Put16(Get16(data)) + [] == Put16(Get16(data));
    } else {
      VecBack(data);
      var (list, rest) := Vec16(data).value;
      IdentitiesBack(list);
      WholeBack(rest);
      BindersBack(Whole16(rest).value);
    }
  }

  lemma SmallBodiesBack(data: bytes)
    ensures DecodeCookie(data).Some? ==>
              BodyFits(DecodeCookie(data).value) && BodyOf(DecodeCookie(data).value) == data
    ensures DecodeModes(data).Some? ==>
              BodyFits(DecodeModes(data).value) && BodyOf(DecodeModes(data).value) == data
    ensures |data| == 4 ==> Put32(Get32(data)) == data
  {
    hide Whole8, Whole16, PutVec8, PutVec16, Put32, Get32;
    WholeBack(data);
    PutGet(data);
    if |data| == 4 {
      assert Put32(Get32(data)) + [] == Put32(Get32(data));
    }
  }

  lemma PaddingBack(data: bytes)
    ensures BodyOf(Padding(|data|)) == data <==> IsCanonicalBody(21, data)
  {
    var zeros := seq<byte>(|data|, _ => 0);
    assert BodyOf(Padding(|data|)) == zeros;
    if IsCanonicalBody(21, data) {
      forall k | 0 <= k < |data|
        ensures zeros[k] == data[k]
      {
        assert data[k] in data;
      }
    }
  }

  /** What an extension decodes to can be written, in no more octets, and in the same ones exactly when they were canonical. */
  lemma BodyBack(code: nat, data: bytes, context: Context)
    requires DecodeBody(code, data, context).Some? && |data| < 0x10000 && code < 0x10000
    ensures var e := DecodeBody(code, data, context).value;
            Encodable(e) && |BodyOf(e)| <= |data| && (BodyOf(e) == data <==> IsCanonicalBody(code, data))
  {
    hide DecodeServerName, DecodeCookie, DecodeModes, DecodeVersions, DecodeKeyShare, DecodePreSharedKey, DecodeU16List,
         HostNamesOnly, Get32, Put32, DefinedIn;
    BodyForm(code, data, context);
    if code == 0 {
      ServerNameBack(data);
    } else if code in {10, 13, 50} {
      ListsBack(code, data, context);
    } else if context.IsHello() && code == 43 {
      VersionsBack(data, context);
    } else if context.IsHello() && code == 51 {
      KeyShareBack(data, context);
    } else if context.IsHello() && code == 41 {
      PreSharedKeyBack(data, context);
    } else if code == 21 {
      PaddingBack(data);
    } else {
      SmallBodiesBack(data);
    }
  }

  // ----- the list of extensions

  predicate IsCanonicalList(bs: bytes)
    decreases |bs|
  {
    if |bs| < 2 then bs == []
    else
      match Vec16(bs[2..])
      case None => false
      case Some((data, rest)) => IsCanonicalBody(Get16(bs), data) && IsCanonicalList(rest)
  }

  /** Length-prefixed fields in front make no two encodings the same. */
  lemma FieldsDiffer(code: nat, data: bytes, rest: bytes, data': bytes, rest': bytes)
    requires |data| < 0x10000 && |data'| < 0x10000
    ensures Put16(code) + PutVec16(data) + rest == Put16(code) + PutVec16(data') + rest' <==> data == data' && rest == rest'
  {
    hide PutVec16, Vec16, Put16;
    VecOf(data, rest);
    VecOf(data', rest');
    PutLengths(code);
    var a, b := Put16(code) + PutVec16(data) + rest, Put16(code) + PutVec16(data') + rest';
    assert a[2..] == PutVec16(data) + rest && b[2..] == PutVec16(data') + rest';
  }

  lemma {:induction false} ListBack(bs: bytes, seen: set<nat>, context: Context)
    requires DecodeList(bs, seen, context).Ok?
    ensures var es := DecodeList(bs, seen, context).value;
            && (forall k | 0 <= k < |es| :: Encodable(es[k]))
            && |EncodeList(es)| <= |bs| && (EncodeList(es) == bs <==> IsCanonicalList(bs))
    decreases |bs|
  {
    hide DecodeBody, IsCanonicalBody, Encodable, Put16, Get16, PutVec16, Vec16, TypeCodeOf, BodyOf;
    if bs != [] {
      var code := Get16(bs);
      var (data, rest) := Vec16(bs[2..]).value;
      var e := DecodeBody(code, data, context).value;
      var es := DecodeList(rest, seen + {code}, context).value;
      PutGet(bs);
      VecBack(bs[2..]);
      VecOf(data, rest);
      BodyForm(code, data, context);
      BodyBack(code, data, context);
      ListBack(rest, seen + {code}, context);
      EncodableShort(e);
      FieldsDiffer(code, BodyOf(e), EncodeList(es), data, rest);
      ConcatAssoc(Put16(code), PutVec16(data), rest);
      VecOf(BodyOf(e), EncodeList(es));
      PutLengths(code);
      assert ([e] + es)[1..] == es;
      assert EncodeList([e] + es) == Put16(code) + PutVec16(BodyOf(e)) + EncodeList(es);
    }
  }

  lemma EncodableShort(e: Extension)
    ensures Encodable(e) ==> |BodyOf(e)| < 0x10000
  {
  }

  lemma ExtensionsBack(bs: bytes, context: Context)
    requires DecodeExtensions(bs, context).Ok?
    ensures var es := DecodeExtensions(bs, context).value;
            && ListEncodable(es) && |EncodeExtensions(es)| <= |bs| && |bs| >= 2
            && (EncodeExtensions(es) == bs <==> IsCanonicalList(bs[2..]))
  {
    hide DecodeList, EncodeList, IsCanonicalList, Encodable, Put16, PutVec16, Vec16, Whole16;
    var list := Whole16(bs).value;
    WholeBack(bs);
    VecOf(list, []);
    ListBack(list, {}, context);
    var es := DecodeExtensions(bs, context).value;
    VecOf(EncodeList(es), []);
    VecTail(list);
    WholeOf(list);
    WholeOf(EncodeList(es));
  }

  lemma VecTail(list: bytes)
    ensures PutVec16(list)[2..] == list
  {
  }

  // ----- messages

  /** Where the extensions of a message stand in its body, for the messages that have them as they are read. */
  function ExtensionBlock(code: nat, body: bytes): Option<bytes> {
    if code == 1 && |body| >= 34 && Vec8(body[34..]).Some? then
      var afterSession := Vec8(body[34..]).value.1;
      if Vec16(afterSession).None? then None
      else
        var afterSuites := Vec16(afterSession).value.1;
        if Vec8(afterSuites).None? then None else Some(Vec8(afterSuites).value.1)
    else if code == 2 && |body| >= 34 && Vec8(body[34..]).Some? && |Vec8(body[34..]).value.1| >= 3 then
      Some(Vec8(body[34..]).value.1[3..])
    else if code == 4 && |body| >= 8 && Vec8(body[8..]).Some? && Vec16(Vec8(body[8..]).value.1).Some? then
      Some(Vec16(Vec8(body[8..]).value.1).value.1)
    else if code == 8 then Some(body)
    else if code == 13 && Vec8(body).Some? then Some(Vec8(body).value.1)
    else None
  }

  /** The extensions are there, if only as an empty list, and are canonical. */
  predicate IsCanonicalMessage(code: nat, body: bytes) {
    match ExtensionBlock(code, body)
    case None => true
    case Some(block) => |block| >= 2 && IsCanonicalList(block[2..])
  }

  /** The block at the end of a hello may be missing altogether. */
  lemma OptionalBlockBack(block: bytes, context: Context)
    requires block == [] || DecodeExtensions(block, context).Ok?
    ensures var es := if block == [] then [] else DecodeExtensions(block, context).value;
            && ListEncodable(es) && |EncodeExtensions(es)| < 0x10002
            && (EncodeExtensions(es) == block <==> |block| >= 2 && IsCanonicalList(block[2..]))
  {
    hide IsCanonicalList, Encodable, PutVec16;
    if block == [] {
      VecOf([], []);
      ListLength([]);
    } else {
      ExtensionsBack(block, context);
      var es := DecodeExtensions(block, context).value;
      VecOf(EncodeList(es), []);
    }
  }

  lemma ClientHelloBack(body: bytes)
    requires DecodeClientHello(body).Ok?
    ensures var m := DecodeClientHello(body).value;
            MessageEncodable(m) && (MessageBody(m) == body <==> IsCanonicalMessage(1, body))
  {
    hide DecodeExtensions, EncodeExtensions, IsCanonicalList, ListEncodable, Vec8, Vec16, PutVec8, PutVec16,
         Put16, Get16, PutU16s, GetU16s, MessageEncodable;
    var (session, afterSession) := Vec8(body[34..]).value;
    var (suites, afterSuites) := Vec16(afterSession).value;
    var (compression, block) := Vec8(afterSuites).value;
    var m := DecodeClientHello(body).value;
    VecBack(body[34..]);
    VecBack(afterSession);
    VecBack(afterSuites);
    U16sBack(suites);
    OptionalBlockBack(block, InClientHello);
    var es := EncodeExtensions(m.extensions);
    SameOffer(session, suites, compression, es, block);
    SameHello(body, PutVec8(session) + (PutVec16(suites) + (PutVec8(compression) + es)));
    ClientHelloFits(m) by {
      PutGet(body);
    }
  }

  lemma ClientHelloFits(m: Message)
    requires m.ClientHello? && m.legacyVersion < 0x10000 && |m.random| == 32 && |m.legacySessionId| < 0x100
    requires AllU16(m.cipherSuites) && 2 * |m.cipherSuites| < 0x10000 && |m.compressionMethods| < 0x100
    requires ListEncodable(m.extensions) && |EncodeExtensions(m.extensions)| < 0x10002
    ensures MessageEncodable(m)
  {
    hide EncodeExtensions, ListEncodable, PutVec8, PutVec16, Put16;
    VecOf(m.legacySessionId, []);
    VecOf(PutU16s(m.cipherSuites), []);
    VecOf(m.compressionMethods, []);
    PutLengths(m.legacyVersion);
  }

  lemma SameOffer(session: bytes, suites: bytes, compression: bytes, es: bytes, block: bytes)
    ensures PutVec8(session) + (PutVec16(suites) + (PutVec8(compression) + es))
            == PutVec8(session) + (PutVec16(suites) + (PutVec8(compression) + block))
            <==> es == block
  {
    hide PutVec8, PutVec16;
    SameTail(PutVec8(compression), es, block);
    SameTail(PutVec16(suites), PutVec8(compression) + es, PutVec8(compression) + block);
    SameTail(PutVec8(session), PutVec16(suites) + (PutVec8(compression) + es), PutVec16(suites) + (PutVec8(compression) + block));
  }

  /** Version and random are as they were read. */
  lemma SameHello(body: bytes, rest: bytes)
    requires |body| >= 34
    ensures Put16(Get16(body)) + (body[2..34] + rest) == body <==> rest == body[34..]
  {
    hide Put16, Get16;
    PutGet(body);
    assert body == body[..2] + (body[2..34] + body[34..]) && body[..2] == Put16(Get16(body));
    SameTail(body[2..34], rest, body[34..]);
    SameTail(Put16(Get16(body)), body[2..34] + rest, body[2..34] + body[34..]);
  }

  /** Suite and compression method. */
  lemma SameChoice(after: bytes, es: bytes)
    requires |after| >= 3
    ensures Put16(Get16(after)) + (Put8(Get8(after[2..])) + es) == after <==> es == after[3..]
  {
    hide Put8, Get8, Put16, Get16;
    PutGet(after);
    PutGet(after[2..]);
    assert after[2..][1..] == after[3..];
    var last := Put8(Get8(after[2..]));
    SameTail(last, es, after[3..]);
    SameTail(Put16(Get16(after)), last + es, after[2..]);
  }

  lemma ServerHelloParts(body: bytes) returns (block: bytes, es: seq<Extension>)
    requires DecodeServerHello(body).Ok?
    ensures ExtensionBlock(2, body) == Some(block) && |body| >= 34
    ensures Vec8(body[34..]).Some? && |Vec8(body[34..]).value.1| >= 3 && block == Vec8(body[34..]).value.1[3..]
    ensures var (session, after) := Vec8(body[34..]).value;
            DecodeServerHello(body)
            == Ok(ServerHello(Get16(body), body[2..34], session, Get16(after), Get8(after[2..]), es))
    ensures ListEncodable(es) && |EncodeExtensions(es)| < 0x10002
    ensures EncodeExtensions(es) == block <==> |block| >= 2 && IsCanonicalList(block[2..])
  {
    hide DecodeExtensions, EncodeExtensions, IsCanonicalList, ListEncodable, Vec8, Get8, Get16;
    block := Vec8(body[34..]).value.1[3..];
    es := DecodeServerHello(body).value.extensions;
    OptionalBlockBack(block, if body[2..34] == HRR_MAGIC then InRetryRequest else InServerHello);
  }

  lemma ServerHelloBack(body: bytes)
    requires DecodeServerHello(body).Ok?
    ensures var m := DecodeServerHello(body).value;
            MessageEncodable(m) && (MessageBody(m) == body <==> IsCanonicalMessage(2, body))
  {
    hide DecodeServerHello, EncodeExtensions, IsCanonicalList, ListEncodable, Vec8, PutVec8, Put8, Get8, Put16, Get16,
         ExtensionBlock;
    var block, list := ServerHelloParts(body);
    var (session, after) := Vec8(body[34..]).value;
    VecBack(body[34..]);
    ServerHelloSame(body, EncodeExtensions(list));
    ServerHelloFits(Get16(body), body[2..34], session, Get16(after), Get8(after[2..]), list) by {
      PutGet(body);
      PutGet(after);
      PutGet(after[2..]);
    }
  }

  lemma ServerHelloFits(version: nat, random: bytes, session: bytes, suite: nat, compression: nat, es: seq<Extension>)
    requires version < 0x10000 && |random| == 32 && |session| < 0x100 && suite < 0x10000 && compression < 0x100
    requires ListEncodable(es) && |EncodeExtensions(es)| < 0x10002
    ensures MessageEncodable(ServerHello(version, random, session, suite, compression, es))
  {
    hide EncodeExtensions, ListEncodable, PutVec8, Put8, Put16;
    VecOf(session, []);
    PutLengths(version);
    PutLengths(suite);
    PutLengths(compression);
  }

  lemma ServerHelloSame(body: bytes, es: bytes)
    requires |body| >= 34 && Vec8(body[34..]).Some? && |Vec8(body[34..]).value.1| >= 3
    ensures var (session, after) := Vec8(body[34..]).value;
            Put16(Get16(body)) + (body[2..34] + (PutVec8(session) + (Put16(Get16(after)) + (Put8(Get8(after[2..])) + es)))) == body
            <==> es == after[3..]
  {
    hide Vec8, PutVec8, Put8, Get8, Put16, Get16;
    var (session, after) := Vec8(body[34..]).value;
    VecBack(body[34..]);
    SameChoice(after, es);
    SameTail(PutVec8(session), Put16(Get16(after)) + (Put8(Get8(after[2..])) + es), after);
    SameHello(body, PutVec8(session) + (Put16(Get16(after)) + (Put8(Get8(after[2..])) + es)));
  }

  lemma TicketBack(body: bytes)
    requires DecodeTicket(body).Ok? && |body| < 0x1000000
    ensures var m := DecodeTicket(body).value;
            MessageEncodable(m) && (MessageBody(m) == body <==> IsCanonicalMessage(4, body))
  {
    hide DecodeExtensions, EncodeExtensions, IsCanonicalList, ListEncodable, Vec8, Vec16, PutVec8, PutVec16, Put32, Get32;
    var (nonce, afterNonce) := Vec8(body[8..]).value;
    var (ticket, block) := Vec16(afterNonce).value;
    var m := DecodeTicket(body).value;
    VecBack(body[8..]);
    VecBack(afterNonce);
    VecOf(nonce, afterNonce);
    VecOf(ticket, block);
    PutGet(body);
    PutGet(body[4..]);
    PutLengths(Get32(body));
    PutLengths(Get32(body[4..]));
    ExtensionsBack(block, Elsewhere);
    var es := EncodeExtensions(m.extensions);
    SameTail(PutVec16(ticket), es, block);
    SameTail(PutVec8(nonce), PutVec16(ticket) + es, afterNonce);
    SameTicket(body, PutVec8(nonce) + (PutVec16(ticket) + es));
  }

  /** Lifetime and age are as they were read. */
  lemma SameTicket(body: bytes, rest: bytes)
    requires |body| >= 8
    ensures Put32(Get32(body)) + (Put32(Get32(body[4..])) + rest) == body <==> rest == body[8..]
  {
    hide Put32, Get32;
    PutGet(body);
    PutGet(body[4..]);
    assert body[4..][4..] == body[8..];
    SameTail(Put32(Get32(body[4..])), rest, body[8..]);
    SameTail(Put32(Get32(body)), Put32(Get32(body[4..])) + rest, body[4..]);
  }

  /** Certificates keep the octets of their extensions, so that they come out as they came in. */
  lemma {:induction false} EntriesBack(bs: bytes)
    requires DecodeEntries(bs).Ok?
    ensures var entries := DecodeEntries(bs).value;
            PutEntries(entries) == bs && forall k | 0 <= k < |entries| :: EntryEncodable(entries[k])
    decreases |bs|
  {
    hide Vec16, Vec24, PutVec16, PutVec24, DecodeExtensions, EncodeExtensions, ListEncodable;
    if bs != [] {
      var (cert, rest) := Vec24(bs).value;
      var (list, after) := Vec16(rest).value;
      VecBack(bs);
      VecBack(rest);
      VecOf(cert, rest);
      VecOf(list, after);
      var raw := rest[..|rest| - |after|];
      assert rest == raw + after;
      EntriesBack(after);
      var entries := DecodeEntries(after).value;
      var first := CertificateEntry(cert, DecodeExtensions(raw, Elsewhere).value, Some(raw));
      assert DecodeEntries(bs).value == [first] + entries;
      assert ([first] + entries)[1..] == entries;
      ConcatAssoc(PutVec24(cert), raw, after);
    }
  }

  lemma CertificateBack(body: bytes)
    requires DecodeCertificate(body).Ok? && |body| < 0x1000000
    ensures var m := DecodeCertificate(body).value; MessageEncodable(m) && MessageBody(m) == body
  {
    hide Vec8, Vec24, PutVec8, PutVec24, DecodeEntries, PutEntries, EntryEncodable;
    var (context, rest) := Vec8(body).value;
    var (list, after) := Vec24(rest).value;
    VecBack(body);
    VecBack(rest);
    EntriesBack(list);
    assert PutVec24(list) + [] == PutVec24(list);
  }

  lemma SmallMessagesBack(code: nat, body: bytes)
    requires DecodeMessageBody(code, body).Ok? && code in {8, 13, 15} && |body| < 0x1000000
    ensures var m := DecodeMessageBody(code, body).value;
            MessageEncodable(m) && (MessageBody(m) == body <==> IsCanonicalMessage(code, body))
  {
    hide DecodeExtensions, EncodeExtensions, IsCanonicalList, ListEncodable, Vec8, PutVec8, Put16, Get16, Whole16, PutVec16;
    if code == 8 {
      ExtensionsBack(body, Elsewhere);
    } else if code == 13 {
      var (context, block) := Vec8(body).value;
      VecBack(body);
      VecOf(context, block);
      ExtensionsBack(block, Elsewhere);
      SameTail(PutVec8(context), EncodeExtensions(DecodeExtensions(block, Elsewhere).value), block);
    } else {
      PutGet(body);
      WholeBack(body[2..]);
    }
  }

  lemma MessageBodyBack(code: nat, body: bytes)
    requires DecodeMessageBody(code, body).Ok? && |body| < 0x1000000
    ensures var m := DecodeMessageBody(code, body).value;
            MessageEncodable(m) && (MessageBody(m) == body <==> IsCanonicalMessage(code, body))
  {
    hide IsCanonicalList, DecodeClientHello, DecodeServerHello, DecodeTicket, DecodeCertificate, DecodeCertificateRequest,
         DecodeCertificateVerify, DecodeExtensions, ListEncodable, EncodeExtensions;
    if code == 1 {
      ClientHelloBack(body);
    } else if code == 2 {
      ServerHelloBack(body);
    } else if code == 4 {
      TicketBack(body);
    } else if code == 11 {
      CertificateBack(body);
    } else if code in {8, 13, 15} {
      SmallMessagesBack(code, body);
    }
  }

  /**
   Whatever decodes can be encoded, and comes out as the octets that were read exactly when these were
   canonical: extensions there, host names alone, padding of zeros, and nothing in an early_data but a size.
   */
  lemma MessageBack(bs: bytes)
    requires DecodeMessage(bs).Ok?
    ensures var m := DecodeMessage(bs).value;
            EncodeMessage(m).Some? && (EncodeMessage(m).value == bs <==> IsCanonicalMessage(bs[0], bs[4..]))
  {
    hide DecodeMessageBody, MessageBody, MessageEncodable, MessageTypeOf, IsCanonicalMessage, Vec24, PutVec24;
    var (body, rest) := Vec24(bs[1..]).value;
    VecBack(bs[1..]);
    VecOf(body, []);
    assert PutVec24(body) + [] == PutVec24(body);
    BodyOfVec24(body);
    assert bs[4..] == bs[1..][3..];
    MessageBodyBack(bs[0], body);
    MessageKind(bs[0], body);
    var m := DecodeMessage(bs).value;
    assert bs == Put8(bs[0]) + bs[1..];
    SameTail(Put8(bs[0]), PutVec24(MessageBody(m)), PutVec24(body));
    BodyOfVec24(MessageBody(m));
  }

  lemma BodyOfVec24(body: bytes)
    ensures |PutVec24(body)| == 3 + |body| && PutVec24(body)[3..] == body
  {
  }

  // ----- codes on the wire

  /** The first two octets of an extension, as section 4.2 of RFC 8446 assigns them (padding: RFC 7685). */
  lemma ExtensionCodes(e: Extension)
    ensures |EncodeExtension(e)| >= 4
    ensures var code := EncodeExtension(e)[..2];
            && (e.ServerName? ==> code == [0, 0]) && (e.SupportedGroups? ==> code == [0, 10])
            && (e.SignatureAlgorithms? ==> code == [0, 13]) && (e.Padding? ==> code == [0, 21])
            && (e.PreSharedKey? ==> code == [0, 41]) && (e.EarlyData? ==> code == [0, 42])
            && (e.SupportedVersions? ==> code == [0, 43]) && (e.Cookie? ==> code == [0, 44])
            && (e.PskKeyExchangeModes? ==> code == [0, 45]) && (e.SignatureAlgorithmsCert? ==> code == [0, 50])
            && (e.KeyShare? ==> code == [0, 51])
  {
    hide BodyOf;
  }

  /** The first octet of a message, as section 4 of RFC 8446 assigns them. */
  lemma MessageCodes(bs: bytes, m: Message)
    requires DecodeMessage(bs) == Ok(m) || EncodeMessage(m) == Some(bs)
    ensures |bs| >= 4
    ensures && (m.ClientHello? <==> bs[0] == 1) && (m.ServerHello? <==> bs[0] == 2) && (m.NewSessionTicket? <==> bs[0] == 4)
            && (m.EndOfEarlyData? <==> bs[0] == 5) && (m.EncryptedExtensions? <==> bs[0] == 8)
            && (m.Certificate? <==> bs[0] == 11) && (m.CertificateRequest? <==> bs[0] == 13)
            && (m.CertificateVerify? <==> bs[0] == 15) && (m.Finished? <==> bs[0] == 20)
            && (m.KeyUpdate? <==> bs[0] == 24)
  {
    hide DecodeMessageBody, MessageBody, MessageEncodable, Vec24;
    if DecodeMessage(bs) == Ok(m) {
      MessageKind(bs[0], Vec24(bs[1..]).value.0);
    } else {
      BodyOfVec24(MessageBody(m));
    }
  }
}
