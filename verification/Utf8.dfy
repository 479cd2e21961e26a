/** `TextEncoder`: UTF-8 of a string of UTF-16 code units, a lone surrogate as U+FFFD. */
module Utf8 {
  import opened Bytes

  predicate IsHigh(u: int) {
    0xd800 <= u < 0xdc00
  }

  predicate IsLow(u: int) {
    0xdc00 <= u < 0xe000
  }

  type codepoint = p: int | 0 <= p < 0x110000

  /** The code point a string starts with, and how many units it takes. */
  function FirstPoint(s: text): (r: (codepoint, nat))
    requires s != []
    ensures 1 <= r.1 <= |s| && r.1 <= 2
  {
    if IsHigh(s[0]) && |s| > 1 && IsLow(s[1]) then
      (0x10000 + (s[0] as int - 0xd800) * 0x400 + (s[1] as int - 0xdc00), 2)
    else if IsHigh(s[0]) || IsLow(s[0]) then (0xfffd, 1)
    else (s[0], 1)
  }

  function EncodePoint(p: codepoint): (r: bytes)
    ensures 1 <= |r| <= 4
  {
    if p < 0x80 then [p]
    else if p < 0x800 then [0xc0 + p / 0x40, 0x80 + p % 0x40]
    else if p < 0x10000 then [0xe0 + p / 0x1000, 0x80 + p / 0x40 % 0x40, 0x80 + p % 0x40]
    else [0xf0 + p / 0x40000, 0x80 + p / 0x1000 % 0x40, 0x80 + p / 0x40 % 0x40, 0x80 + p % 0x40]
  }

  function Encode(s: text): bytes {
    if s == [] then []
    else
      var (p, n) := FirstPoint(s);
      EncodePoint(p) + Encode(s[n..])
  }

  predicate IsAscii(s: text) {
    forall k | 0 <= k < |s| :: s[k] < 0x80
  }

  lemma {:induction false} EncodeAsciiFirst(a: text, b: text)
    requires IsAscii(a)
    ensures Encode(a + b) == a + Encode(b)
  {
    if a == [] {
      assert a + b == b;
      assert a + Encode(b) == Encode(b);
    } else {
      var s := a + b;
      assert s[0] == a[0];
      assert FirstPoint(s) == (a[0], 1);
      assert s[1..] == a[1..] + b;
      EncodeAsciiFirst(a[1..], b);
      assert [a[0]] + (a[1..] + Encode(b)) == a + Encode(b);
    }
  }

  /** ASCII text is its own UTF-8. */
  lemma EncodeAscii(s: text)
    requires IsAscii(s)
    ensures Encode(s) == s
  {
    EncodeAsciiFirst(s, []);
    assert s + [] == s;
  }

  /** Two texts encode apart when no surrogate pair lies across their border. */
  lemma {:induction false} EncodeConcat(a: text, b: text)
    requires a == [] || b == [] || !IsHigh(a[|a| - 1]) || !IsLow(b[0])
    ensures Encode(a + b) == Encode(a) + Encode(b)
    decreases |a|
  {
    hide EncodePoint, FirstPoint;
    if a == [] {
      assert a + b == b;
    } else if b == [] {
      assert a + b == a;
    } else {
      var (p, n) := FirstPoint(a);
      FirstOfBoth(a, b);
      assert (a + b)[n..] == a[n..] + b;
      EncodeConcat(a[n..], b);
      ConcatAssoc(EncodePoint(p), Encode(a[n..]), Encode(b));
    }
  }

  lemma FirstOfBoth(a: text, b: text)
    requires a != [] && b != [] && (!IsHigh(a[|a| - 1]) || !IsLow(b[0]))
    ensures FirstPoint(a + b) == FirstPoint(a)
  {
    var s := a + b;
    assert s[0] == a[0] && (|a| > 1 ==> s[1] == a[1]) && (|a| == 1 ==> s[1] == b[0]);
  }

  function Joined(bits: int, octet: byte): int {
    bits * 0x40 + (octet as int - 0x80)
  }

  /** Section 3 of RFC 3629: the first octet says how many there are, six bits in each other one, in the fewest octets. */
  lemma PointIs(p: codepoint)
    ensures var r := EncodePoint(p);
            && (forall k | 0 < k < |r| :: 0x80 <= r[k] < 0xc0)
            && (|r| == 1 ==> r[0] < 0x80 && p == r[0])
            && (|r| == 2 ==> 0xc0 <= r[0] < 0xe0 && 0x80 <= p < 0x800 && p == Joined(r[0] as int - 0xc0, r[1]))
            && (|r| == 3 ==> 0xe0 <= r[0] < 0xf0 && 0x800 <= p < 0x10000
                             && p == Joined(Joined(r[0] as int - 0xe0, r[1]), r[2]))
            && (|r| == 4 ==> 0xf0 <= r[0] < 0xf8 && 0x10000 <= p
                             && p == Joined(Joined(Joined(r[0] as int - 0xf0, r[1]), r[2]), r[3]))
  {
    var a, b, c := p / 0x40, p / 0x1000, p / 0x40000;
    assert b == a / 0x40 && c == b / 0x40;
  }
}
