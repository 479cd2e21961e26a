/**
 Modified UTF-7 of mailbox names (section 5.1.3 of RFC 3501), from `packages/imap/src/utf7.ts`:
 runs of non-printable code units go as UTF-16BE in base64, between `&` and `-`.
 Shifts and masks of the source are written as quotients and remainders.
 */
module Utf7 {
  import opened Bytes
  import Base64

  const AMPERSAND: codeunit := 0x26
  const DASH: codeunit := 0x2d

  // ----- base64, with `,` for `/`

  /** The character of `b64Chars` at `index`. */
  function B64Char(index: Base64.sextet): codeunit {
    if index == 63 then 0x2c else Base64.CharOf(index)
  }

  /** The octets of UTF-16BE. */
  function BigEndian(units: text): (r: bytes)
    ensures |r| == 2 * |units|
  {
    if units == [] then [] else [units[0] / 256, units[0] % 256] + BigEndian(units[1..])
  }

  function B64Chars(vs: seq<Base64.sextet>): (r: text)
    ensures |r| == |vs| && forall i | 0 <= i < |vs| :: r[i] == B64Char(vs[i])
  {
    seq<codeunit>(|vs|, i requires 0 <= i < |vs| => B64Char(vs[i]))
  }

  function ToB64(bs: bytes): text {
    B64Chars(Base64.Sextets(bs))
  }

  /** `str.replace(/,/g, '/')`. */
  function CommaToSlash(s: text): (r: text)
    ensures |r| == |s|
    ensures forall i | 0 <= i < |s| :: r[i] == if s[i] == 0x2c then 0x2f else s[i]
  {
    seq<codeunit>(|s|, i requires 0 <= i < |s| => if s[i] == 0x2c then 0x2f else s[i])
  }

  /** Code units off octets two by two; an odd last octet is dropped. */
  function FromBigEndian(bs: bytes): text {
    if |bs| < 2 then []
    else
      var unit: codeunit := (bs[0] as int) * 256 + bs[1] as int;
      [unit] + FromBigEndian(bs[2..])
  }

  function Padding(remainder: nat): text
    requires remainder < 4
  {
    if remainder == 0 then [] else if remainder == 1 then [0x3d, 0x3d, 0x3d]
    else if remainder == 2 then [0x3d, 0x3d] else [0x3d]
  }

  function DecodeRun(run: text): text {
    var standard := CommaToSlash(run);
    match Base64.Decode(standard + Padding(|standard| % 4))
    case Some(binary) => FromBigEndian(binary)
    case None => [AMPERSAND] + run + [DASH]
  }

  // ----- base64 undone

  /** What a run is written in: neither `&` nor `-`. */
  predicate IsRunChar(u: int) {
    IsPrintable(u) && u != DASH && u != AMPERSAND
  }

  lemma CharIsRun(index: Base64.sextet)
    ensures IsRunChar(B64Char(index))
    ensures (if B64Char(index) == 0x2c then 0x2f else B64Char(index)) == Base64.CharOf(index)
  {
  }

  lemma ToB64Chars(bs: bytes)
    ensures forall k | 0 <= k < |ToB64(bs)| :: IsRunChar(ToB64(bs)[k])
  {
    hide B64Char, Base64.Sextets, IsRunChar;
    forall k | 0 <= k < |ToB64(bs)|
      ensures IsRunChar(ToB64(bs)[k])
    {
      CharIsRun(Base64.Sextets(bs)[k]);
    }
  }

  /** With `/` for `,` and the padding, it is base64. */
  lemma IsPadded(bs: bytes)
    ensures var standard := CommaToSlash(ToB64(bs)); standard + Padding(|standard| % 4) == Base64.Encode(bs)
  {
    hide B64Char, Base64.CharOf, Base64.Sextets;
    var vs := Base64.Sextets(bs);
    forall k | 0 <= k < |vs|
      ensures CommaToSlash(ToB64(bs))[k] == Base64.CharOf(vs[k])
    {
      CharIsRun(vs[k]);
    }
    assert CommaToSlash(ToB64(bs)) == Base64.Chars(vs);
    Base64.SextetsLength(bs);
  }

  lemma {:induction false} FromToBigEndian(units: text)
    ensures FromBigEndian(BigEndian(units)) == units
  {
    if units != [] {
      FromToBigEndian(units[1..]);
      assert BigEndian(units)[2..] == BigEndian(units[1..]);
    }
  }

  /** A flushed run decodes to the code units it was made of. */
  lemma RunRoundTrip(units: text)
    ensures DecodeRun(ToB64(BigEndian(units))) == units
  {
    hide Base64.Encode, Base64.Decode, ToB64;
    IsPadded(BigEndian(units));
    Base64.DecodeEncode(BigEndian(units));
    FromToBigEndian(units);
  }

  // ----- encoding

  function Flushed(run: text): text {
    if run == [] then [] else [AMPERSAND] + ToB64(BigEndian(run)) + [DASH]
  }

  /** A code unit that stands for itself, and `&` as `&-`. */
  function Piece(unit: codeunit): text {
    if unit == AMPERSAND then [AMPERSAND, DASH] else [unit]
  }

  /** What the encoder still writes with `s` to come and `run` held back. */
  function EncodeRest(s: text, run: text): text {
    if s == [] then Flushed(run)
    else if s[0] == AMPERSAND then Flushed(run) + (Piece(s[0]) + EncodeRest(s[1..], []))
    else if IsPrintable(s[0]) then Flushed(run) + (Piece(s[0]) + EncodeRest(s[1..], []))
    else EncodeRest(s[1..], run + [s[0]])
  }

  function Encode(s: text): text {
    EncodeRest(s, [])
  }

  /** The octets of the run, high then low. */
  method OctetsOf(units: text) returns (bs: bytes)
    ensures bs == BigEndian(units)
  {
    bs := [];
    for k := 0 to |units|
      invariant BigEndian(units) == bs + BigEndian(units[k..])
    {
      assert units[k..][1..] == units[k + 1..];
      ConcatAssoc(bs, [units[k] / 256, units[k] % 256], BigEndian(units[k + 1..]));
      bs := bs + [units[k] / 256, units[k] % 256];
    }
    assert units[|units|..] == [] && bs + [] == bs;
  }

  lemma ToB64Groups(bs: bytes)
    requires bs != []
    ensures |bs| == 1 ==> ToB64(bs) == [B64Char(Base64.TopSix(bs[0])), B64Char(Base64.TwoFour(bs[0], 0))]
    ensures |bs| == 2 ==>
              ToB64(bs) == [B64Char(Base64.TopSix(bs[0])), B64Char(Base64.TwoFour(bs[0], bs[1])), B64Char(Base64.FourTwo(bs[1], 0))]
    ensures |bs| > 2 ==> ToB64(bs) == Group(bs[0], bs[1], bs[2]) + ToB64(bs[3..])
  {
    hide Base64.TopSix, Base64.TwoFour, Base64.FourTwo, Base64.LowSix, B64Char;
  }

  /** Three octets as four characters. */
  function Group(b0: byte, b1: byte, b2: byte): text {
    [B64Char(Base64.TopSix(b0)), B64Char(Base64.TwoFour(b0, b1)), B64Char(Base64.FourTwo(b1, b2)), B64Char(Base64.LowSix(b2))]
  }

  method EncodeModifiedBase64(units: text) returns (result: text)
    ensures result == ToB64(BigEndian(units))
  {
    hide ToB64, B64Char, BigEndian;
    var bs := OctetsOf(units);
    result := [];
    var i := 0;
    assert bs[0..] == bs && [] + ToB64(bs) == ToB64(bs);
    while i < |bs|
      invariant 0 <= i <= |bs|
      invariant ToB64(bs) == result + ToB64(bs[i..])
    {
      var group: text;
      ghost var left := bs[i..];
      var b0 := bs[i];
      ToB64Groups(left);
      assert left[0] == b0 && |left| == |bs| - i;
      if i + 2 < |bs| {
        var b1, b2 := bs[i + 1], bs[i + 2];
        assert left[1] == b1 && left[2] == b2 && left[3..] == bs[i + 3..];
        group := Group(b0, b1, b2);
        i := i + 3;
      } else if i + 1 < |bs| {
        var b1 := bs[i + 1];
        assert left[1] == b1;
        group := [B64Char(Base64.TopSix(b0)), B64Char(Base64.TwoFour(b0, b1)), B64Char(Base64.FourTwo(b1, 0))];
        i := i + 2;
        NothingLeft(group, bs, i);
      } else {
        group := [B64Char(Base64.TopSix(b0)), B64Char(Base64.TwoFour(b0, 0))];
        i := i + 1;
        NothingLeft(group, bs, i);
      }
      ConcatAssoc(result, group, ToB64(bs[i..]));
      result := result + group;
    }
    NothingLeft(result, bs, i);
  }

  lemma NothingLeft(group: text, bs: bytes, i: nat)
    requires i == |bs|
    ensures group + ToB64(bs[i..]) == group
  {
  }

  method EncodeModifiedUtf7(s: text) returns (result: text)
    ensures result == Encode(s)
  {
    result := [];
    var run: text := [];
    var i := 0;
    ghost var left := s;
    assert result + Encode(s) == Encode(s);
    while i < |s|
      invariant 0 <= i <= |s| && left == s[i..]
      invariant Encode(s) == result + EncodeRest(left, run)
    {
      var code := s[i];
      assert left[0] == code && left[1..] == s[i + 1..];
      if code == AMPERSAND || IsPrintable(code) {
        var flushed := Flush(run);
        var piece := Piece(code);
        ConcatAssoc(result, flushed, piece + EncodeRest(left[1..], []));
        ConcatAssoc(result + flushed, piece, EncodeRest(left[1..], []));
        result := result + flushed + piece;
        run := [];
      } else {
        run := run + [code];
      }
      i := i + 1;
      left := left[1..];
    }
    var flushed := Flush(run);
    result := result + flushed;
  }

  method Flush(run: text) returns (flushed: text)
    ensures flushed == Flushed(run)
  {
    if run == [] {
      return [];
    }
    var b64 := EncodeModifiedBase64(run);
    return [AMPERSAND] + b64 + [DASH];
  }

  // ----- decoding

  /** `str.indexOf('-', from)`. */
  function IndexOfDash(s: text, from: nat): (r: Option<nat>)
    ensures r.Some? ==> from <= r.value < |s| && s[r.value] == DASH
    ensures r.Some? ==> forall i | from <= i < r.value :: s[i] != DASH
    ensures r.None? ==> forall i | from <= i < |s| :: s[i] != DASH
    decreases |s| - from
  {
    if from >= |s| then None
    else if s[from] == DASH then Some(from)
    else IndexOfDash(s, from + 1)
  }

  function Decode(s: text): text {
    if s == [] then []
    else if s[0] != AMPERSAND then [s[0]] + Decode(s[1..])
    else if |s| > 1 && s[1] == DASH then [AMPERSAND] + Decode(s[2..])
    else
      match IndexOfDash(s, 1)
      case None => s
      case Some(dash) => DecodeRun(s[1..dash]) + Decode(s[dash + 1..])
  }

  /** A shifted run: everything between `&` and the next `-`. */
  lemma DecodeAtRun(run: text, rest: text)
    requires run != [] && forall k | 0 <= k < |run| :: run[k] != DASH
    ensures Decode([AMPERSAND] + run + [DASH] + rest) == DecodeRun(run) + Decode(rest)
  {
    var s := [AMPERSAND] + run + [DASH] + rest;
    forall k | 1 <= k <= |run|
      ensures s[k] != DASH
    {
      assert s[k] == run[k - 1];
    }
    var dash := |run| + 1;
    assert s[dash] == DASH;
    assert IndexOfDash(s, 1) == Some(dash);
    assert s[1..dash] == run;
    assert s[dash + 1..] == rest;
  }

  lemma DecodeUnended(s: text)
    requires s != [] && s[0] == AMPERSAND && forall k | 0 < k < |s| :: s[k] != DASH
    ensures Decode(s) == s
  {
  }

  /** `indexOf`, answering the length when there is none. */
  method FindDash(s: text, from: nat) returns (dash: nat)
    requires from <= |s|
    ensures from <= dash <= |s|
    ensures forall k | from <= k < dash :: s[k] != DASH
    ensures dash < |s| ==> s[dash] == DASH
  {
    dash := from;
    while dash < |s| && s[dash] != DASH
      invariant from <= dash <= |s|
      invariant forall k | from <= k < dash :: s[k] != DASH
    {
      dash := dash + 1;
    }
  }

  /** The piece that starts with the `&` at `i`, and where the next one starts. */
  method DecodeShift(s: text, i: nat) returns (piece: text, next: nat)
    requires i < |s| && s[i] == AMPERSAND
    ensures i < next <= |s|
    ensures Continues(s, i, piece, next)
  {
    hide *;
    if i + 1 < |s| && s[i + 1] == DASH {
      piece, next := [AMPERSAND], i + 2;
      ShiftAmpersand(s, i);
    } else {
      var dash := FindDash(s, i + 1);
      if dash == |s| {
        piece, next := s[i..], |s|;
        ShiftUnended(s, i);
      } else {
        piece, next := DecodeRun(s[i + 1..dash]), dash + 1;
        ShiftEnded(s, i, dash);
      }
    }
  }

  /** Decoding from `i` gives `piece`, then what decoding from `next` gives. */
  ghost predicate Continues(s: text, i: nat, piece: text, next: nat) {
    i <= next <= |s| && Decode(s[i..]) == piece + Decode(s[next..])
  }

  lemma ShiftAmpersand(s: text, i: nat)
    requires i + 1 < |s| && s[i] == AMPERSAND && s[i + 1] == DASH
    ensures Continues(s, i, [AMPERSAND], i + 2)
  {
    assert s[i..] == Piece(AMPERSAND) + s[i + 2..];
    DecodeLiteral(AMPERSAND, s[i + 2..]);
  }

  lemma ShiftUnended(s: text, i: nat)
    requires i < |s| && s[i] == AMPERSAND && forall k | i < k < |s| :: s[k] != DASH
    ensures Continues(s, i, s[i..], |s|)
  {
    DecodeUnended(s[i..]);
    assert s[i..] + [] == s[i..];
  }

  lemma ShiftEnded(s: text, i: nat, dash: nat)
    requires i + 1 < dash < |s| && s[i] == AMPERSAND && s[dash] == DASH
    requires forall k | i < k < dash :: s[k] != DASH
    ensures Continues(s, i, DecodeRun(s[i + 1..dash]), dash + 1)
  {
    SuffixParts(s, i, dash);
    DecodeAtRun(s[i + 1..dash], s[dash + 1..]);
  }

  method DecodeModifiedUtf7(s: text) returns (result: text)
    ensures result == Decode(s)
  {
    result := [];
    var i := 0;
    assert s[0..] == s && result + Decode(s) == Decode(s);
    while i < |s|
      invariant 0 <= i <= |s|
      invariant Decode(s) == result + Decode(s[i..])
    {
      var piece, next := [s[i]], i + 1;
      if s[i] == AMPERSAND {
        piece, next := DecodeShift(s, i);
      } else {
        assert s[i..][1..] == s[i + 1..];
      }
      ConcatAssoc(result, piece, Decode(s[next..]));
      result, i := result + piece, next;
    }
    assert s[i..] == [] && result + [] == result;
  }

  // ----- the round trip

  /** Decoding a flushed run gives the run, then what follows it. */
  lemma DecodeFlushed(run: text, rest: text)
    ensures Decode(Flushed(run) + rest) == run + Decode(rest)
  {
    if run == [] {
      assert Flushed(run) + rest == rest;
      assert run + Decode(rest) == Decode(rest);
    } else {
      var b64 := ToB64(BigEndian(run));
      ToB64Chars(BigEndian(run));
      forall k | 0 <= k < |b64|
        ensures b64[k] != DASH
      {
        assert IsRunChar(b64[k]);
      }
      DecodeAtRun(b64, rest);
      RunRoundTrip(run);
    }
  }

  lemma DecodeLiteral(unit: codeunit, rest: text)
    ensures Decode(Piece(unit) + rest) == [unit] + Decode(rest)
  {
    assert (Piece(unit) + rest)[|Piece(unit)|..] == rest;
  }

  lemma DecodePiece(unit: codeunit, rest: text, run: text)
    requires Decode(EncodeRest(rest, [])) == [] + rest
    ensures Decode(Flushed(run) + (Piece(unit) + EncodeRest(rest, []))) == run + ([unit] + rest)
  {
    DecodeFlushed(run, Piece(unit) + EncodeRest(rest, []));
    DecodeLiteral(unit, EncodeRest(rest, []));
    assert [] + rest == rest;
  }

  lemma {:induction false} EncodeDecodeRest(s: text, run: text)
    ensures Decode(EncodeRest(s, run)) == run + s
  {
    if s == [] {
      DecodeFlushed(run, []);
      assert Flushed(run) + [] == Flushed(run);
    } else if s[0] == AMPERSAND || IsPrintable(s[0]) {
      EncodeDecodeRest(s[1..], []);
      DecodePiece(s[0], s[1..], run);
      assert [s[0]] + s[1..] == s;
    } else {
      EncodeDecodeRest(s[1..], run + [s[0]]);
      ConcatAssoc(run, [s[0]], s[1..]);
      assert [s[0]] + s[1..] == s;
    }
  }

  lemma {:induction false} EncodeRestPrintable(s: text, run: text)
    ensures forall k | 0 <= k < |EncodeRest(s, run)| :: IsPrintable(EncodeRest(s, run)[k])
  {
    ToB64Chars(BigEndian(run));
    assert forall k | 0 <= k < |Flushed(run)| :: IsPrintable(Flushed(run)[k]);
    if s != [] {
      EncodeRestPrintable(s[1..], if s[0] == AMPERSAND || IsPrintable(s[0]) then [] else run + [s[0]]);
    }
  }

  /** Every string of code units survives, lone surrogates included, and goes out as printable ASCII. */
  lemma EncodeDecode(s: text)
    ensures Decode(Encode(s)) == s
    ensures forall k | 0 <= k < |Encode(s)| :: IsPrintable(Encode(s)[k])
  {
    EncodeDecodeRest(s, []);
    EncodeRestPrintable(s, []);
  }

  // ----- what is written

  function Escaped(s: text): text {
    if s == [] then [] else Piece(s[0]) + Escaped(s[1..])
  }

  lemma {:induction false} EscapedIsSame(s: text)
    requires AMPERSAND !in s
    ensures Escaped(s) == s
  {
    if s != [] {
      EscapedIsSame(s[1..]);
    }
  }

  /** Printable text goes out as it is, each `&` as `&-`. */
  lemma {:induction false} PrintableStays(s: text, rest: text)
    requires forall u | u in s :: IsPrintable(u)
    ensures Encode(s + rest) == Escaped(s) + Encode(rest)
  {
    if s == [] {
      assert s + rest == rest;
    } else {
      assert IsPrintable(s[0]) && (s + rest)[1..] == s[1..] + rest;
      PrintableStays(s[1..], rest);
      ConcatAssoc(Piece(s[0]), Escaped(s[1..]), Encode(rest));
    }
  }

  /** A printable name without `&` is written unchanged. */
  lemma PlainNameIsSame(s: text)
    requires AMPERSAND !in s && forall u | u in s :: IsPrintable(u)
    ensures Encode(s) == s
  {
    PrintableStays(s, []);
    EscapedIsSame(s);
    assert s + [] == s;
  }

  lemma RunEnds(held: text, rest: text)
    requires rest == [] || IsPrintable(rest[0])
    ensures EncodeRest(rest, held) == Flushed(held) + Encode(rest)
  {
    hide ToB64, BigEndian;
    assert rest == [] ==> Encode(rest) == [] && Flushed(held) + [] == Flushed(held);
    assert Flushed([]) == [];
    assert rest != [] ==> Encode(rest) == [] + (Piece(rest[0]) + Encode(rest[1..]));
  }

  lemma RunGrows(held: text, u: codeunit, rest: text)
    requires !IsPrintable(u)
    ensures EncodeRest([u] + rest, held) == EncodeRest(rest, held + [u])
  {
    assert ([u] + rest)[1..] == rest;
  }

  lemma {:induction false} RunIsHeld(held: text, run: text, rest: text)
    requires rest == [] || IsPrintable(rest[0])
    requires forall u | u in run :: !IsPrintable(u)
    ensures EncodeRest(run + rest, held) == Flushed(held + run) + Encode(rest)
    decreases run
  {
    hide EncodeRest, Encode, Flushed, IsPrintable;
    if run == [] {
      assert run + rest == rest && held + run == held;
      RunEnds(held, rest);
    } else {
      assert run + rest == [run[0]] + (run[1..] + rest);
      RunGrows(held, run[0], run[1..] + rest);
      RunIsHeld(held + [run[0]], run[1..], rest);
      assert held + [run[0]] + run[1..] == held + run;
    }
  }

  /** Whatever else stands between printable text goes out as one shift, however long it is. */
  lemma RunIsOneShift(run: text, rest: text)
    requires run != [] && (rest == [] || IsPrintable(rest[0]))
    requires forall u | u in run :: !IsPrintable(u)
    ensures Encode(run + rest) == [AMPERSAND] + ToB64(BigEndian(run)) + [DASH] + Encode(rest)
  {
    RunIsHeld([], run, rest);
    assert [] + run == run;
  }

  /** Text without `&` decodes to itself, in front of whatever follows. */
  lemma {:induction false} PlainDecodes(s: text, rest: text)
    requires AMPERSAND !in s
    ensures Decode(s + rest) == s + Decode(rest)
  {
    if s == [] {
      assert s + rest == rest;
    } else {
      assert (s + rest)[1..] == s[1..] + rest;
      PlainDecodes(s[1..], rest);
      assert [s[0]] + (s[1..] + Decode(rest)) == s + Decode(rest);
    }
  }

  lemma {:induction false} KeepsOther(u: codeunit, s: text)
    requires u in s && !Base64.IsAsciiSpace(u)
    ensures u in Base64.WithoutSpace(s)
  {
    if s[0] != u {
      KeepsOther(u, s[1..]);
    }
  }

  /** What is not in the alphabet, white space or padding makes no base64. */
  lemma OtherIsRefused(s: text, u: codeunit)
    requires u in s && u != Base64.PAD && !Base64.IsAsciiSpace(u) && Base64.ValueOf(u) == None
    ensures Base64.Decode(s) == None
  {
    hide Base64.Decode, Base64.CharOf, Base64.ValueOf;
    KeepsOther(u, s);
    if Base64.Decode(s).Some? {
      Base64.DecodesExactly(s, Base64.Decode(s).value);
      var vs :| Base64.IsText(Base64.WithoutSpace(s), vs);
      NotInText(Base64.WithoutSpace(s), vs, u);
      assert false;
    }
  }

  lemma NotInText(s: text, vs: seq<Base64.sextet>, u: codeunit)
    requires Base64.IsText(s, vs) && u != Base64.PAD && Base64.ValueOf(u) == None
    ensures u !in s
  {
    hide Base64.CharOf, Base64.ValueOf;
    forall k | 0 <= k < |vs|
      ensures Base64.Chars(vs)[k] != u
    {
      Base64.ValueIsChar(u, vs[k]);
    }
  }

  /** A shift with anything else than the alphabet, white space and padding in it stays as it is. */
  lemma UndecodableStays(run: text, u: codeunit, rest: text)
    requires run != [] && DASH !in run
    requires u in run && u != 0x2c && u != Base64.PAD && !Base64.IsAsciiSpace(u) && Base64.ValueOf(u) == None
    ensures Decode([AMPERSAND] + run + [DASH] + rest) == [AMPERSAND] + run + [DASH] + Decode(rest)
  {
    hide Base64.Decode, Base64.ValueOf;
    DecodeAtRun(run, rest);
    var standard := CommaToSlash(run);
    var k :| 0 <= k < |run| && run[k] == u;
    assert standard[k] == u;
    OtherIsRefused(standard + Padding(|standard| % 4), u);
  }
}
