/** Base64 (section 4 of RFC 4648): `btoa` on octets, and the forgiving `atob` that reads it back. */
module Base64 {
  import opened Bytes

  type sextet = n: nat | n < 64

  const PAD: byte := 0x3d

  function CharOf(n: sextet): byte {
    if n < 26 then 0x41 + n
    else if n < 52 then 0x61 + n - 26
    else if n < 62 then 0x30 + n - 52
    else if n == 62 then 0x2b
    else 0x2f
  }

  function ValueOf(c: codeunit): Option<sextet> {
    if 0x41 <= c <= 0x5a then Some(c - 0x41)
    else if 0x61 <= c <= 0x7a then Some(c - 0x61 + 26)
    else if 0x30 <= c <= 0x39 then Some(c - 0x30 + 52)
    else if c == 0x2b then Some(62)
    else if c == 0x2f then Some(63)
    else None
  }

  lemma CharsAreDistinct(n: sextet)
    ensures ValueOf(CharOf(n)) == Some(n)
  {
  }

  // ----- octets to sextets

  /** Two bits of one octet and four of the next. */
  function TwoFour(a: byte, b: byte): sextet {
    a % 4 * 16 + b / 16
  }

  function FourTwo(a: byte, b: byte): sextet {
    a % 16 * 4 + b / 64
  }

  function TopSix(a: byte): sextet {
    a / 4
  }

  function LowSix(a: byte): sextet {
    a % 64
  }

  /** The sextets of one to three octets, the last one filled up with zero bits. */
  function Sextets(bs: bytes): seq<sextet> {
    if bs == [] then []
    else if |bs| == 1 then [TopSix(bs[0]), TwoFour(bs[0], 0)]
    else if |bs| == 2 then [TopSix(bs[0]), TwoFour(bs[0], bs[1]), FourTwo(bs[1], 0)]
    else [TopSix(bs[0]), TwoFour(bs[0], bs[1]), FourTwo(bs[1], bs[2]), LowSix(bs[2])] + Sextets(bs[3..])
  }

  /** The octets in the first two, the middle two and the last two of four sextets. */
  function FirstOctet(v: sextet, w: sextet): byte {
    (v as int) * 4 + w / 16
  }

  function MiddleOctet(v: sextet, w: sextet): byte {
    (v as int) % 16 * 16 + w / 4
  }

  function LastOctet(v: sextet, w: sextet): byte {
    (v as int) % 4 * 64 + w
  }

  /** Back again; bits left over are dropped. */
  function Octets(vs: seq<sextet>): bytes {
    if |vs| < 2 then []
    else if |vs| == 2 then [FirstOctet(vs[0], vs[1])]
    else if |vs| == 3 then [FirstOctet(vs[0], vs[1]), MiddleOctet(vs[1], vs[2])]
    else [FirstOctet(vs[0], vs[1]), MiddleOctet(vs[1], vs[2]), LastOctet(vs[2], vs[3])] + Octets(vs[4..])
  }

  lemma OneGroup(a: byte, b: byte, c: byte)
    ensures FirstOctet(TopSix(a), TwoFour(a, b)) == a
    ensures MiddleOctet(TwoFour(a, b), FourTwo(b, c)) == b
    ensures LastOctet(FourTwo(b, c), LowSix(c)) == c
  {
  }

  lemma OctetsGroup(a: sextet, b: sextet, c: sextet, d: sextet, rest: seq<sextet>)
    ensures Octets([a, b, c, d] + rest) == [FirstOctet(a, b), MiddleOctet(b, c), LastOctet(c, d)] + Octets(rest)
  {
    assert ([a, b, c, d] + rest)[4..] == rest;
  }

  lemma OctetsOfFew(bs: bytes)
    requires |bs| < 3
    ensures Octets(Sextets(bs)) == bs
  {
    hide TwoFour, FourTwo, TopSix, LowSix, FirstOctet, MiddleOctet, LastOctet;
    if |bs| == 1 {
      OneGroup(bs[0], 0, 0);
    } else if |bs| == 2 {
      OneGroup(bs[0], bs[1], 0);
    }
  }

  lemma {:induction false} OctetsOfSextets(bs: bytes)
    ensures Octets(Sextets(bs)) == bs
  {
    hide Octets, TwoFour, FourTwo, TopSix, LowSix, FirstOctet, MiddleOctet, LastOctet;
    if |bs| < 3 {
      OctetsOfFew(bs);
    } else {
      OneGroup(bs[0], bs[1], bs[2]);
      OctetsOfSextets(bs[3..]);
      OctetsGroup(TopSix(bs[0]), TwoFour(bs[0], bs[1]), FourTwo(bs[1], bs[2]), LowSix(bs[2]), Sextets(bs[3..]));
      assert bs == [bs[0], bs[1], bs[2]] + bs[3..];
    }
  }

  // ----- the text

  function Chars(vs: seq<sextet>): (r: bytes)
    ensures |r| == |vs| && forall i | 0 <= i < |r| :: r[i] == CharOf(vs[i])
  {
    seq<byte>(|vs|, i requires 0 <= i < |vs| => CharOf(vs[i]))
  }

  function Padding(n: nat): bytes {
    if n % 3 == 1 then [PAD, PAD] else if n % 3 == 2 then [PAD] else []
  }

  /** `btoa`. */
  function Encode(bs: bytes): bytes {
    Chars(Sextets(bs)) + Padding(|bs|)
  }

  predicate IsAsciiSpace(c: codeunit) {
    c in {0x09, 0x0a, 0x0c, 0x0d, 0x20}
  }

  function WithoutSpace(s: text): text {
    if s == [] then [] else (if IsAsciiSpace(s[0]) then [] else [s[0]]) + WithoutSpace(s[1..])
  }

  function Unpadded(s: text): text {
    if |s| % 4 != 0 || s == [] || s[|s| - 1] != PAD then s
    else if s[|s| - 2] == PAD then s[..|s| - 2]
    else s[..|s| - 1]
  }

  function Values(s: text): (r: Option<seq<sextet>>)
    ensures r.Some? ==> |r.value| == |s|
  {
    if s == [] then Some([])
    else
      match ValueOf(s[0])
      case None => None
      case Some(v) => Prepended([v], Values(s[1..]))
  }

  /** `atob`: white space is skipped, padding may be left out, a stray sextet is an error. */
  function Decode(s: text): Option<bytes> {
    var bare := Unpadded(WithoutSpace(s));
    if |bare| % 4 == 1 then None
    else
      match Values(bare)
      case None => None
      case Some(vs) => Some(Octets(vs))
  }

  /** Four characters for every three octets, and those for what is left over. */
  function SextetCount(n: nat): nat {
    n / 3 * 4 + (if n % 3 == 0 then 0 else n % 3 + 1)
  }

  lemma {:induction false} SextetsCount(bs: bytes)
    ensures |Sextets(bs)| == SextetCount(|bs|)
  {
    hide TwoFour, FourTwo, TopSix, LowSix;
    if |bs| >= 3 {
      SextetsCount(bs[3..]);
    }
  }

  lemma PaddedCount(n: nat)
    ensures SextetCount(n) + |Padding(n)| == (n + 2) / 3 * 4
  {
    var q, r := n / 3, n % 3;
    assert n == 3 * q + r;
    assert (n + 2) / 3 == if r == 0 then q else q + 1;
  }

  lemma SextetsLength(bs: bytes)
    ensures |Sextets(bs)| == |bs| / 3 * 4 + (if |bs| % 3 == 0 then 0 else |bs| % 3 + 1)
    ensures |Encode(bs)| == (|bs| + 2) / 3 * 4
  {
    hide Sextets, Padding, SextetCount;
    SextetsCount(bs);
    PaddedCount(|bs|);
    SextetCountIs(|bs|);
  }

  lemma SextetCountIs(n: nat)
    ensures SextetCount(n) == n / 3 * 4 + (if n % 3 == 0 then 0 else n % 3 + 1)
  {
  }

  lemma {:induction false} ValuesOfChars(vs: seq<sextet>)
    ensures Values(Chars(vs)) == Some(vs)
  {
    if vs != [] {
      CharsAreDistinct(vs[0]);
      assert Chars(vs)[1..] == Chars(vs[1..]);
      ValuesOfChars(vs[1..]);
      assert [vs[0]] + vs[1..] == vs;
    }
  }

  lemma {:induction false} NoSpace(s: text)
    requires forall i | 0 <= i < |s| :: !IsAsciiSpace(s[i])
    ensures WithoutSpace(s) == s
  {
    if s != [] {
      NoSpace(s[1..]);
      assert [s[0]] + s[1..] == s;
    }
  }

  lemma EncodedChars(bs: bytes)
    ensures forall i | 0 <= i < |Encode(bs)| :: !IsAsciiSpace(Encode(bs)[i]) && 0x2b <= Encode(bs)[i] <= 0x7a && Encode(bs)[i] != 0x3f
  {
  }

  lemma UnpaddedEncode(bs: bytes)
    ensures Unpadded(Encode(bs)) == Chars(Sextets(bs))
  {
    hide Sextets, CharOf, Padding, Unpadded;
    SextetsLength(bs);
    var chars := Chars(Sextets(bs));
    if chars != [] {
      NotPad(Sextets(bs)[|chars| - 1]);
    }
    assert |bs| % 3 == 0 ==> |Sextets(bs)| == |bs| / 3 * 4;
    assert |bs| % 3 != 0 ==> |Sextets(bs)| == |bs| / 3 * 4 + |bs| % 3 + 1;
    UnpaddedChars(chars, |bs|);
  }

  lemma UnpaddedChars(chars: bytes, n: nat)
    requires |chars| == n / 3 * 4 + (if n % 3 == 0 then 0 else n % 3 + 1)
    requires chars != [] ==> chars[|chars| - 1] != PAD
    ensures Unpadded(chars + Padding(n)) == chars
  {
    var s := chars + Padding(n);
    assert s[..|chars|] == chars;
    assert n % 3 == 0 ==> s == chars;
    assert |s| % 4 == 0;
    assert chars != [] ==> s[|chars| - 1] == chars[|chars| - 1];
  }

  lemma NotPad(n: sextet)
    ensures CharOf(n) != PAD
  {
  }

  /** `atob` undoes `btoa`. */
  lemma DecodeEncode(bs: bytes)
    ensures Decode(Encode(bs)) == Some(bs)
  {
    hide Sextets, Octets, Unpadded, Values;
    EncodedChars(bs);
    NoSpace(Encode(bs));
    UnpaddedEncode(bs);
    SextetsLength(bs);
    ValuesOfChars(Sextets(bs));
    OctetsOfSextets(bs);
  }

  // ----- what it stands for

  /** The number that digits write in a base. */
  function Number(base: nat, digits: seq<nat>): nat {
    if digits == [] then 0 else Number(base, digits[..|digits| - 1]) * base + digits[|digits| - 1]
  }

  lemma NumberMore(base: nat, digits: seq<nat>, digit: nat)
    ensures Number(base, digits + [digit]) == Number(base, digits) * base + digit
  {
    assert (digits + [digit])[..|digits|] == digits;
  }

  lemma NumberFour(base: nat, a: nat, b: nat, c: nat, d: nat)
    ensures Number(base, [a]) == a && Number(base, [a, b]) == a * base + b
    ensures Number(base, [a, b, c]) == (a * base + b) * base + c
    ensures Number(base, [a, b, c, d]) == ((a * base + b) * base + c) * base + d
  {
    NumberMore(base, [], a);
    NumberMore(base, [a], b);
    NumberMore(base, [a, b], c);
    NumberMore(base, [a, b, c], d);
    assert [a] + [b] == [a, b] && [a, b] + [c] == [a, b, c] && [a, b, c] + [d] == [a, b, c, d];
  }

  lemma GroupIsNumber(a: byte, b: byte, c: byte)
    ensures ((TopSix(a) * 64 + TwoFour(a, b)) * 64 + FourTwo(b, c)) * 64 + LowSix(c) == (a as nat * 256 + b as nat) * 256 + c as nat
  {
    assert a == a / 4 * 4 + a % 4 && b == b / 16 * 16 + b % 16 && c == c / 64 * 64 + c % 64;
  }

  lemma FewAreNumbers(a: byte, b: byte)
    ensures TopSix(a) * 64 + TwoFour(a, 0) == a as nat * 16
    ensures (TopSix(a) * 64 + TwoFour(a, b)) * 64 + FourTwo(b, 0) == (a as nat * 256 + b as nat) * 4
  {
    assert a == a / 4 * 4 + a % 4 && b == b / 16 * 16 + b % 16;
  }

  /** Section 4 of RFC 4648: the bits of three octets, six by six; the same of fewer, with zeros behind them. */
  lemma GroupsAreNumbers(a: byte, b: byte, c: byte, rest: bytes)
    ensures Number(64, Sextets([a])) == Number(256, [a]) * 16
    ensures Number(64, Sextets([a, b])) == Number(256, [a, b]) * 4
    ensures Number(64, Sextets([a, b, c])) == Number(256, [a, b, c])
    ensures Sextets([a, b, c] + rest) == Sextets([a, b, c]) + Sextets(rest)
  {
    hide TopSix, TwoFour, FourTwo, LowSix, Number;
    FewAreNumbers(a, b);
    GroupIsNumber(a, b, c);
    NumberFour(256, a, b, c, 0);
    NumberFour(64, TopSix(a), TwoFour(a, 0), 0, 0);
    NumberFour(64, TopSix(a), TwoFour(a, b), FourTwo(b, 0), 0);
    NumberFour(64, TopSix(a), TwoFour(a, b), FourTwo(b, c), LowSix(c));
    assert [a, b, c][3..] == [] && ([a, b, c] + rest)[3..] == rest;
    var group := [TopSix(a), TwoFour(a, b), FourTwo(b, c), LowSix(c)];
    assert Sextets([a, b, c]) == group + Sextets([]) == group;
  }

  // ----- exactly what is read

  lemma ValueIsChar(c: codeunit, n: sextet)
    ensures ValueOf(c) == Some(n) <==> c == CharOf(n)
  {
  }

  lemma {:induction false} CharsOfValues(s: text)
    ensures match Values(s)
            case Some(vs) => Chars(vs) == s
            case None => forall vs :: Chars(vs) != s
  {
    if s != [] {
      CharsOfValues(s[1..]);
      match ValueOf(s[0])
      case Some(v) =>
        ValueIsChar(s[0], v);
        if Values(s[1..]).Some? {
          var vs := Values(s[1..]).value;
          assert Chars([v] + vs) == [CharOf(v)] + Chars(vs);
        } else {
          forall vs: seq<sextet>
            ensures Chars(vs) != s
          {
            assert vs != [] ==> Chars(vs)[1..] == Chars(vs[1..]);
          }
        }
      case None =>
        forall vs: seq<sextet>
          ensures Chars(vs) != s
        {
          if vs != [] {
            ValueIsChar(s[0], vs[0]);
          }
        }
    }
  }

  /** Sextets that leave no one over, and the padding of a last group, or none. */
  predicate IsText(s: text, vs: seq<sextet>) {
    && |vs| % 4 != 1
    && (s == Chars(vs) || (|vs| % 4 == 2 && s == Chars(vs) + [PAD, PAD]) || (|vs| % 4 == 3 && s == Chars(vs) + [PAD]))
  }

  lemma TextIsRead(s: text, vs: seq<sextet>)
    requires IsText(s, vs)
    ensures Unpadded(s) == Chars(vs)
  {
    hide CharOf;
    if vs != [] {
      NotPad(vs[|vs| - 1]);
      assert Chars(vs)[|vs| - 1] == CharOf(vs[|vs| - 1]);
    }
    if s != Chars(vs) {
      assert s[..|vs|] == Chars(vs);
      assert |vs| % 4 == 3 ==> s[|s| - 2] == Chars(vs)[|vs| - 1];
    }
  }

  lemma ReadIsText(s: text, vs: seq<sextet>)
    requires Unpadded(s) == Chars(vs) && |vs| % 4 != 1
    ensures IsText(s, vs)
  {
    hide CharOf;
    if |s| % 4 == 0 && s != [] && s[|s| - 1] == PAD {
      if s[|s| - 2] == PAD {
        assert s == s[..|s| - 2] + [PAD, PAD];
      } else {
        assert s == s[..|s| - 1] + [PAD];
      }
    }
  }

  /** White space aside, `atob` answers if and only if the text is base64, padded or not, and then the octets of its sextets. */
  lemma DecodesExactly(s: text, bs: bytes)
    ensures Decode(s) == Some(bs) <==> exists vs :: IsText(WithoutSpace(s), vs) && bs == Octets(vs)
  {
    hide Octets, Unpadded, Values, IsText, WithoutSpace, CharOf;
    var bare := Unpadded(WithoutSpace(s));
    CharsOfValues(bare);
    if Decode(s) == Some(bs) {
      var vs := Values(bare).value;
      ReadIsText(WithoutSpace(s), vs);
      assert bs == Octets(vs);
    }
    if vs :| IsText(WithoutSpace(s), vs) && bs == Octets(vs) {
      TextIsRead(WithoutSpace(s), vs);
      ValuesOfChars(vs);
      TextLeavesNone(WithoutSpace(s), vs);
      assert |bare| == |vs| && Values(bare) == Some(vs);
    }
  }

  lemma TextLeavesNone(s: text, vs: seq<sextet>)
    requires IsText(s, vs)
    ensures |vs| % 4 != 1
  {
  }
}
