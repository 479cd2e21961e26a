/**
 The decoders of `packages/tls/src/handshake-messages.ts` in their own form: an offset walks the
 bytes and entries are pushed as they are met. Each is the list its specification reads.
 */
module HandshakeLoops {
  import opened Bytes
  import opened HandshakeCodec
  import opened HandshakeMessages

  /** A length-prefixed field at an offset is the vector the suffix begins with. */
  lemma FieldAt(bs: bytes, at: nat, n: nat)
    requires at <= |bs|
    ensures Take(n, bs[at..]) == if at + n <= |bs| then Some((bs[at..at + n], bs[at + n..])) else None
  {
    if at + n <= |bs| {
      SliceOfSuffix(bs, at, at + n, at + n);
    }
  }

  lemma Vec16At(bs: bytes, at: nat)
    requires at + 2 <= |bs|
    ensures bs[at..][2..] == bs[at + 2..]
    ensures Get16(bs[at..]) == bs[at] as int * 0x100 + bs[at + 1] as int
    ensures var n := Get16(bs[at..]);
            Vec16(bs[at..]) == if at + 2 + n <= |bs| then Some((bs[at + 2..at + 2 + n], bs[at + 2 + n..])) else None
  {
    SliceOfSuffix(bs, at, at + 2, |bs|);
    FieldAt(bs, at + 2, Get16(bs[at..]));
  }

  /** Groups, signature schemes, versions and cipher suites: two octets each. */
  method ReadU16s(bs: bytes, from: nat, to: nat) returns (ns: seq<nat>)
    requires from <= to <= |bs| && (to - from) % 2 == 0
    ensures ns == GetU16s(bs[from..to])
  {
    ns := [];
    var i := from;
    while i < to
      invariant from <= i <= to && (to - i) % 2 == 0
      invariant GetU16s(bs[from..to]) == ns + GetU16s(bs[i..to])
    {
      assert bs[i..to][2..] == bs[i + 2..to];
      assert Get16(bs[i..to]) == Get16(bs[i..]);
      ns := ns + [Get16(bs[i..])];
      i := i + 2;
    }
    assert bs[to..to] == [] && ns + [] == ns;
  }

  method ReadNames(bs: bytes) returns (names: Option<seq<bytes>>)
    ensures names == GetNames(bs)
  {
    hide Vec16, Get16;
    var list: seq<bytes> := [];
    var offset := 0;
    assert bs[0..] == bs;
    PrependedNothing(GetNames(bs));
    while offset < |bs|
      invariant 0 <= offset <= |bs|
      invariant GetNames(bs) == Prepended(list, GetNames(bs[offset..]))
    {
      ghost var left := bs[offset..];
      assert left[1..] == bs[offset + 1..];
      if offset + 3 > |bs| {
        assert Vec16(left[1..]) == None by { ShortVec16(left[1..]); }
        return None;
      }
      var nameType, nameLen := bs[offset], Get16(bs[offset + 1..]);
      Vec16At(bs, offset + 1);
      if offset + 3 + nameLen > |bs| {
        return None;
      }
      var name := bs[offset + 3..offset + 3 + nameLen];
      offset := offset + 3 + nameLen;
      if nameType == 0 {
        PrependedOne(list, name, GetNames(bs[offset..]));
        list := list + [name];
      }
    }
    assert bs[offset..] == [] && list + [] == list;
    return Some(list);
  }

  lemma ShortVec16(bs: bytes)
    requires |bs| < 2
    ensures Vec16(bs) == None
  {
  }

  method ReadShares(bs: bytes) returns (shares: Option<seq<KeyShareEntry>>)
    ensures shares == GetShares(bs)
  {
    hide Vec16, Get16;
    var list: seq<KeyShareEntry> := [];
    var offset := 0;
    assert bs[0..] == bs;
    PrependedNothing(GetShares(bs));
    while offset < |bs|
      invariant 0 <= offset <= |bs|
      invariant GetShares(bs) == Prepended(list, GetShares(bs[offset..]))
    {
      ghost var left := bs[offset..];
      if offset + 4 > |bs| {
        assert |left| >= 2 ==> Vec16(left[2..]) == None by {
          if |left| >= 2 { ShortVec16(left[2..]); }
        }
        return None;
      }
      assert left[2..] == bs[offset + 2..];
      var group, keyLen := Get16(bs[offset..]), Get16(bs[offset + 2..]);
      Vec16At(bs, offset + 2);
      if offset + 4 + keyLen > |bs| {
        return None;
      }
      var share := KeyShareEntry(group, bs[offset + 4..offset + 4 + keyLen]);
      offset := offset + 4 + keyLen;
      PrependedOne(list, share, GetShares(bs[offset..]));
      list := list + [share];
    }
    assert bs[offset..] == [] && list + [] == list;
    return Some(list);
  }

  method ReadIdentities(bs: bytes) returns (ids: Option<seq<PskIdentity>>)
    ensures ids == GetIdentities(bs)
  {
    hide Vec16, Get16, Get32;
    var list: seq<PskIdentity> := [];
    var offset := 0;
    assert bs[0..] == bs;
    PrependedNothing(GetIdentities(bs));
    while offset < |bs|
      invariant 0 <= offset <= |bs|
      invariant GetIdentities(bs) == Prepended(list, GetIdentities(bs[offset..]))
    {
      ghost var left := bs[offset..];
      if offset + 6 > |bs| {
        NoRoomForIdentity(left);
        return None;
      }
      var idLen := Get16(bs[offset..]);
      Vec16At(bs, offset);
      offset := offset + 2;
      if offset + idLen + 4 > |bs| {
        return None;
      }
      var id := PskIdentity(bs[offset..offset + idLen], Get32(bs[offset + idLen..]));
      offset := offset + idLen + 4;
      assert bs[offset - 4..][4..] == bs[offset..];
      PrependedOne(list, id, GetIdentities(bs[offset..]));
      list := list + [id];
    }
    assert bs[offset..] == [] && list + [] == list;
    return Some(list);
  }

  lemma NoRoomForIdentity(bs: bytes)
    requires 0 < |bs| < 6
    ensures GetIdentities(bs) == None
  {
  }

  method ReadBinders(bs: bytes) returns (binders: Option<seq<bytes>>)
    ensures binders == GetBinders(bs)
  {
    var list: seq<bytes> := [];
    var offset := 0;
    assert bs[0..] == bs;
    PrependedNothing(GetBinders(bs));
    while offset < |bs|
      invariant 0 <= offset <= |bs|
      invariant GetBinders(bs) == Prepended(list, GetBinders(bs[offset..]))
    {
      ghost var left := bs[offset..];
      var length := Get8(bs[offset..]);
      assert left[1..] == bs[offset + 1..];
      FieldAt(bs, offset + 1, length);
      offset := offset + 1;
      if offset + length > |bs| {
        return None;
      }
      var binder := bs[offset..offset + length];
      offset := offset + length;
      PrependedOne(list, binder, GetBinders(bs[offset..]));
      list := list + [binder];
    }
    assert bs[offset..] == [] && list + [] == list;
    return Some(list);
  }

  function PrependedOk<T>(earlier: seq<T>, later: Decoded<seq<T>>): Decoded<seq<T>> {
    match later
    case Bad(description) => Bad(description)
    case Ok(list) => Ok(earlier + list)
  }

  lemma PrependedOkNothing<T>(later: Decoded<seq<T>>)
    ensures PrependedOk([], later) == later
  {
    if later.Ok? {
      assert [] + later.value == later.value;
    }
  }

  lemma PrependedOkOne<T>(earlier: seq<T>, one: T, later: Decoded<seq<T>>)
    ensures PrependedOk(earlier, PrependedOk([one], later)) == PrependedOk(earlier + [one], later)
  {
    if later.Ok? {
      ConcatAssoc(earlier, [one], later.value);
    }
  }

  /** The extension loop: no type twice, each body parsed where its type is defined. */
  method ReadExtensions(bs: bytes, context: Context) returns (r: Decoded<seq<Extension>>)
    ensures r == DecodeList(bs, {}, context)
  {
    hide Vec16, Get16, DecodeBody;
    var seen: set<nat> := {};
    var list: seq<Extension> := [];
    var offset := 0;
    assert bs[0..] == bs;
    PrependedOkNothing(DecodeList(bs, {}, context));
    while offset < |bs|
      invariant 0 <= offset <= |bs|
      invariant DecodeList(bs, {}, context) == PrependedOk(list, DecodeList(bs[offset..], seen, context))
    {
      ghost var left := bs[offset..];
      if offset + 4 > |bs| {
        return Bad(DecodeError);
      }
      assert left[2..] == bs[offset + 2..];
      var code, dataLen := Get16(bs[offset..]), Get16(bs[offset + 2..]);
      if code in seen {
        return Bad(IllegalParameter);
      }
      Vec16At(bs, offset + 2);
      if offset + 4 + dataLen > |bs| {
        return Bad(DecodeError);
      }
      var data := bs[offset + 4..offset + 4 + dataLen];
      offset := offset + 4 + dataLen;
      var e := DecodeBody(code, data, context);
      if e == None {
        return Bad(DecodeError);
      }
      PrependedOkOne(list, e.value, DecodeList(bs[offset..], seen + {code}, context));
      seen, list := seen + {code}, list + [e.value];
    }
    assert bs[offset..] == [] && list + [] == list;
    return Ok(list);
  }

  lemma Vec24At(bs: bytes, at: nat)
    requires at + 3 <= |bs|
    ensures var n := Get24(bs[at..]);
            Vec24(bs[at..]) == if at + 3 + n <= |bs| then Some((bs[at + 3..at + 3 + n], bs[at + 3 + n..])) else None
  {
    SliceOfSuffix(bs, at, at + 3, |bs|);
    FieldAt(bs, at + 3, Get24(bs[at..]));
  }

  lemma ShortVec24(bs: bytes)
    requires |bs| < 3
    ensures Vec24(bs) == None
  {
  }

  /** The certificate list: each entry keeps the bytes of its extensions beside their reading. */
  method ReadEntries(bs: bytes) returns (r: Decoded<seq<CertificateEntry>>)
    ensures r == DecodeEntries(bs)
  {
    hide Vec16, Vec24, Get16, Get24, DecodeExtensions;
    var list: seq<CertificateEntry> := [];
    var offset := 0;
    assert bs[0..] == bs;
    PrependedOkNothing(DecodeEntries(bs));
    while offset < |bs|
      invariant 0 <= offset <= |bs|
      invariant DecodeEntries(bs) == PrependedOk(list, DecodeEntries(bs[offset..]))
    {
      if offset + 3 > |bs| {
        ShortVec24(bs[offset..]);
        return Bad(DecodeError);
      }
      var certLen := Get24(bs[offset..]);
      Vec24At(bs, offset);
      if offset + 3 + certLen > |bs| {
        return Bad(DecodeError);
      }
      var cert := bs[offset + 3..offset + 3 + certLen];
      var at := offset + 3 + certLen;
      if at + 2 > |bs| {
        ShortVec16(bs[at..]);
        return Bad(DecodeError);
      }
      var extLen := Get16(bs[at..]);
      Vec16At(bs, at);
      if at + 2 + extLen > |bs| {
        return Bad(DecodeError);
      }
      var raw := bs[at..at + 2 + extLen];
      SliceOfSuffix(bs, at, at + 2 + extLen, at + 2 + extLen);
      SliceOfSuffix(bs, offset, at, |bs|);
      var es := DecodeExtensions(raw, Elsewhere);
      if es.Bad? {
        return Bad(es.description);
      }
      offset := at + 2 + extLen;
      var entry := CertificateEntry(cert, es.value, Some(raw));
      PrependedOkOne(list, entry, DecodeEntries(bs[offset..]));
      list := list + [entry];
    }
    assert bs[offset..] == [] && list + [] == list;
    return Ok(list);
  }
}
