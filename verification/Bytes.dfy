/** Octets, UTF-16 code units, and the few sequence facts every other module needs. */
module Bytes {
  /** One UTF-16 code unit: what `charCodeAt` answers and a string is made of. */
  type codeunit = u: int | 0 <= u < 65536
  type text = seq<codeunit>

  type byte = b: codeunit | b < 256
  type bytes = seq<byte>

  datatype Option<+T> = None | Some(value: T)

  const CR: byte := 0x0d
  const LF: byte := 0x0a
  const SPACE: byte := 0x20
  const TAB: byte := 0x09
  const DQUOTE: byte := 0x22
  const BACKSLASH: byte := 0x5c
  const LPAREN: byte := 0x28
  const RPAREN: byte := 0x29
  const LBRACKET: byte := 0x5b
  const RBRACKET: byte := 0x5d
  const LBRACE: byte := 0x7b
  const RBRACE: byte := 0x7d
  const PLUS: byte := 0x2b

  const MAX_UINT32: nat := 4294967295

  function Max(a: int, b: int): int {
    if a >= b then a else b
  }

  predicate IsDigit(b: int) {
    0x30 <= b <= 0x39
  }

  predicate IsPrintable(u: int) {
    0x20 <= u <= 0x7e
  }

  /** Every unit is printable ASCII. */
  predicate IsPrintableAscii(s: text) {
    forall k | 0 <= k < |s| :: IsPrintable(s[k])
  }

  predicate IsOneLine(s: text) {
    CR !in s && LF !in s
  }

  /** White space of a JavaScript regular expression, and what `trim` takes off. */
  predicate IsWhiteSpace(u: codeunit) {
    0x09 <= u <= 0x0d || u in {0x20, 0xa0, 0x1680, 0x2028, 0x2029, 0x202f, 0x205f, 0x3000, 0xfeff} || 0x2000 <= u <= 0x200a
  }

  function LowerUnit(u: codeunit): codeunit {
    if 0x41 <= u <= 0x5a then u + 0x20 else u
  }

  predicate EndsWith(s: text, t: text) {
    |t| <= |s| && s[|s| - |t|..] == t
  }

  /** The bytes of a source-code string constant. */
  function Ascii(s: string): bytes
    requires forall i | 0 <= i < |s| :: s[i] < 128 as char
  {
    seq<byte>(|s|, i requires 0 <= i < |s| => s[i] as int)
  }

  function Flatten<T>(parts: seq<seq<T>>): seq<T> {
    if parts == [] then [] else parts[0] + Flatten(parts[1..])
  }

  lemma {:induction false} FlattenConcat<T>(a: seq<seq<T>>, b: seq<seq<T>>)
    ensures Flatten(a + b) == Flatten(a) + Flatten(b)
  {
    if a == [] {
      assert a + b == b;
    } else {
      assert (a + b)[1..] == a[1..] + b;
      FlattenConcat(a[1..], b);
    }
  }

  lemma FlattenOne<T>(part: seq<T>)
    ensures Flatten([part]) == part
  {
    assert [part][1..] == [];
  }

  lemma SameTail<T>(front: seq<T>, a: seq<T>, b: seq<T>)
    ensures front + a == front + b <==> a == b
  {
    assert (front + a)[|front|..] == a && (front + b)[|front|..] == b;
  }

  /** `concatByteArrays`. */
  method ConcatByteArrays(parts: seq<bytes>) returns (whole: bytes)
    ensures whole == Flatten(parts)
  {
    whole := [];
    for k := 0 to |parts|
      invariant whole == Flatten(parts[..k])
    {
      assert parts[..k + 1] == parts[..k] + [parts[k]];
      FlattenConcat(parts[..k], [parts[k]]);
      FlattenOne(parts[k]);
      whole := whole + parts[k];
    }
    assert parts[..|parts|] == parts;
  }

  /** `earlier` in front of a list that may not exist. */
  function Prepended<T>(earlier: seq<T>, later: Option<seq<T>>): Option<seq<T>> {
    match later
    case None => None
    case Some(list) => Some(earlier + list)
  }

  lemma PrependedNothing<T>(later: Option<seq<T>>)
    ensures Prepended([], later) == later
  {
    if later.Some? {
      assert [] + later.value == later.value;
    }
  }

  lemma PrependedOne<T>(earlier: seq<T>, one: T, later: Option<seq<T>>)
    ensures Prepended(earlier, Prepended([one], later)) == Prepended(earlier + [one], later)
  {
    if later.Some? {
      ConcatAssoc(earlier, [one], later.value);
    }
  }

  lemma ConcatAssoc<T>(a: seq<T>, b: seq<T>, c: seq<T>)
    ensures (a + b) + c == a + (b + c)
  {
  }

  /** A slice of a slice is a slice of the whole. */
  lemma SliceOfSlice<T>(s: seq<T>, from: nat, to: nat, a: nat, b: nat)
    requires from <= a <= b <= to <= |s|
    ensures s[from..to][a - from..b - from] == s[a..b]
    ensures a == from ==> s[from..to][..b - from] == s[a..b]
  {
    var inner := s[from..to];
    forall i | 0 <= i < b - a
      ensures s[a..b][i] == inner[a - from..b - from][i]
    {
      assert inner[a - from..b - from][i] == inner[a - from + i] == s[from + (a - from + i)];
    }
    assert inner[a - from..b - from] == s[a..b];
  }

  /** Slices of a suffix are slices of the whole. */
  lemma SliceOfSuffix<T>(s: seq<T>, from: nat, a: nat, b: nat)
    requires from <= a <= b <= |s|
    ensures s[from..][a - from..b - from] == s[a..b]
    ensures s[from..][..b - from] == s[from..b]
    ensures s[from..][a - from..] == s[a..]
  {
    var inner := s[from..];
    assert forall i | 0 <= i < |inner| :: inner[i] == s[from + i];
    assert inner[..b - from] == s[from..b];
    assert inner[a - from..] == s[a..];
    assert inner[a - from..b - from] == s[a..b];
  }

  /** A suffix taken apart around its first element and the one at `j`. */
  lemma SuffixParts<T>(s: seq<T>, i: nat, j: nat)
    requires i < j < |s|
    ensures s[i..] == [s[i]] + s[i + 1..j] + [s[j]] + s[j + 1..]
  {
    assert s[i..] == s[i..j] + s[j..];
    assert s[i..j] == [s[i]] + s[i + 1..j];
    assert s[j..] == [s[j]] + s[j + 1..];
  }

  predicate AllDigits(digits: bytes) {
    forall i | 0 <= i < |digits| :: IsDigit(digits[i])
  }

  /** The number a run of ASCII digits writes down. */
  function DecimalValue(digits: bytes): nat
    requires AllDigits(digits)
  {
    if digits == [] then 0
    else 10 * DecimalValue(digits[..|digits| - 1]) + (digits[|digits| - 1] - 0x30)
  }

  /** `String(n)` for a non-negative integer. */
  function Decimal(n: nat): (r: bytes)
    ensures r != [] && AllDigits(r)
    ensures n > 0 ==> r[0] != 0x30
    ensures n == 0 ==> r == [0x30]
    ensures DecimalValue(r) == n
    decreases n
  {
    if n < 10 then
      var r: bytes := [0x30 + n];
      assert DecimalValue(r[..0]) == 0;
      r
    else
      var h := Decimal(n / 10);
      var r: bytes := h + [0x30 + n % 10];
      assert r[..|r| - 1] == h;
      r
  }
}
