/**
 Quoted-printable (section 6.7 of RFC 2045) as `packages/smtp/src/message.ts` writes it: lines of at
 most 76, soft breaks that split no escape, and a decoder that gives the text back.
 */
module QuotedPrintable {
  import opened Bytes
  import opened Utf8
  import Splitting

  const CRLF: bytes := [CR, LF]
  const EQUALS: byte := 0x3d

  // ----- lines

  /** `text.replace(/\r?\n/g, '\r\n')`. */
  function ToCrlf(s: text): text
    decreases |s|
  {
    if s == [] then []
    else if s[0] == CR && |s| > 1 && s[1] == LF then CRLF + ToCrlf(s[2..])
    else if s[0] == LF then CRLF + ToCrlf(s[1..])
    else [s[0]] + ToCrlf(s[1..])
  }

  /** `split('\r\n')`. */
  function SplitCrlf(s: text): (lines: seq<text>)
    ensures lines != []
    decreases |s|
  {
    if s == [] then [[]]
    else if |s| > 1 && s[0] == CR && s[1] == LF then [[]] + SplitCrlf(s[2..])
    else
      var rest := SplitCrlf(s[1..]);
      [[s[0]] + rest[0]] + rest[1..]
  }

  /** `join('\r\n')`. */
  function JoinCrlf(lines: seq<text>): text {
    if lines == [] then []
    else if |lines| == 1 then lines[0]
    else lines[0] + CRLF + JoinCrlf(lines[1..])
  }

  lemma JoinCrlfFirst(first: text, rest: seq<text>)
    ensures JoinCrlf([first] + rest) == if rest == [] then first else first + CRLF + JoinCrlf(rest)
  {
    assert ([first] + rest)[1..] == rest;
  }

  lemma UnitInFront(u: codeunit, first: text, rest: seq<text>)
    ensures JoinCrlf([[u] + first] + rest) == [u] + JoinCrlf([first] + rest)
  {
    hide JoinCrlf;
    JoinCrlfFirst([u] + first, rest);
    JoinCrlfFirst(first, rest);
    if rest != [] {
      ConcatAssoc([u], first, CRLF);
      ConcatAssoc([u], first + CRLF, JoinCrlf(rest));
    }
  }

  lemma {:induction false} JoinSplitCrlf(s: text)
    ensures JoinCrlf(SplitCrlf(s)) == s
    decreases |s|
  {
    hide JoinCrlf;
    if s == [] {
      var none: seq<text> := [];
      JoinCrlfFirst([], none);
      assert [[]] + none == [[]];
    } else if |s| > 1 && s[0] == CR && s[1] == LF {
      JoinSplitCrlf(s[2..]);
      JoinCrlfFirst([], SplitCrlf(s[2..]));
      assert [] + CRLF + s[2..] == s;
    } else {
      JoinSplitCrlf(s[1..]);
      var rest := SplitCrlf(s[1..]);
      UnitInFront(s[0], rest[0], rest[1..]);
      assert [rest[0]] + rest[1..] == rest;
      assert [s[0]] + s[1..] == s;
    }
  }

  lemma {:induction false} SplitFirstCrlf(line: text, rest: text)
    requires IsOneLine(line)
    ensures SplitCrlf(line + CRLF + rest) == [line] + SplitCrlf(rest)
    ensures SplitCrlf(line) == [line]
  {
    if line == [] {
      assert [] + CRLF + rest == CRLF + rest;
      assert (CRLF + rest)[2..] == rest;
    } else {
      var s := line + CRLF + rest;
      assert s[1..] == line[1..] + CRLF + rest;
      SplitFirstCrlf(line[1..], rest);
      assert s[0] == line[0] != CR;
      assert ([line[1..]] + SplitCrlf(rest))[1..] == SplitCrlf(rest);
      assert [line[0]] + line[1..] == line;
    }
  }

  lemma {:induction false} SplitJoinCrlf(lines: seq<text>)
    requires lines != [] && forall k | 0 <= k < |lines| :: IsOneLine(lines[k])
    ensures SplitCrlf(JoinCrlf(lines)) == lines
  {
    if |lines| == 1 {
      SplitFirstCrlf(lines[0], []);
    } else {
      SplitFirstCrlf(lines[0], JoinCrlf(lines[1..]));
      SplitJoinCrlf(lines[1..]);
    }
  }

  lemma {:induction false} JoinConcatCrlf(a: seq<text>, b: seq<text>)
    requires a != [] && b != []
    ensures JoinCrlf(a + b) == JoinCrlf(a) + CRLF + JoinCrlf(b)
  {
    assert (a + b)[1..] == a[1..] + b;
    if |a| == 1 {
      assert a[1..] + b == b;
    } else {
      JoinConcatCrlf(a[1..], b);
      ConcatAssoc(a[0] + CRLF, JoinCrlf(a[1..]), CRLF + JoinCrlf(b));
      ConcatAssoc(JoinCrlf(a[1..]), CRLF, JoinCrlf(b));
      ConcatAssoc(a[0] + CRLF + JoinCrlf(a[1..]), CRLF, JoinCrlf(b));
    }
  }

  // ----- escapes

  function HexDigit(n: nat): byte
    requires n < 16
  {
    if n < 10 then 0x30 + n else 0x37 + n
  }

  function HexValue(b: codeunit): (r: Option<nat>)
    ensures r.Some? ==> r.value < 16
  {
    if 0x30 <= b <= 0x39 then Some(b - 0x30)
    else if 0x41 <= b <= 0x46 then Some(b - 0x37)
    else None
  }

  predicate IsLiteral(b: byte, isLast: bool) {
    (0x21 <= b <= 0x7e && b != EQUALS) || ((b == SPACE || b == TAB) && !isLast)
  }

  function EscapeOne(b: byte, isLast: bool): (r: bytes)
    ensures |r| == 1 || |r| == 3
  {
    if IsLiteral(b, isLast) then [b] else [EQUALS, HexDigit(b / 16), HexDigit(b % 16)]
  }

  /** `closed`: the line ends behind these octets. */
  function Escape(bs: bytes, closed: bool): bytes {
    if bs == [] then [] else EscapeOne(bs[0], closed && |bs| == 1) + Escape(bs[1..], closed)
  }

  lemma {:induction false} EscapeConcat(a: bytes, b: bytes, closed: bool)
    requires b != []
    ensures Escape(a + b, closed) == Escape(a, false) + Escape(b, closed)
  {
    if a == [] {
      assert a + b == b;
    } else {
      assert (a + b)[1..] == a[1..] + b;
      EscapeConcat(a[1..], b, closed);
      ConcatAssoc(EscapeOne(a[0], false), Escape(a[1..], false), Escape(b, closed));
    }
  }

  /** Where a soft break goes: at 75, or before the escape it would split. */
  function CutAt(s: bytes): (cut: nat)
    requires |s| > 76
    ensures 73 <= cut <= 75
  {
    if s[74] == EQUALS then 74 else if s[73] == EQUALS then 73 else 75
  }

  function SoftLines(s: bytes): (lines: seq<bytes>)
    ensures lines != []
    decreases |s|
  {
    if |s| <= 76 then [s] else [s[..CutAt(s)] + [EQUALS]] + SoftLines(s[CutAt(s)..])
  }

  function PrintLine(line: text): text {
    JoinCrlf(SoftLines(Escape(Encode(line), true)))
  }

  function PrintLines(lines: seq<text>): seq<text> {
    if lines == [] then [] else [PrintLine(lines[0])] + PrintLines(lines[1..])
  }

  function Printed(s: text): text {
    JoinCrlf(PrintLines(SplitCrlf(ToCrlf(s))))
  }

  // ----- the loops

  method EscapeLine(bs: bytes) returns (encoded: bytes)
    ensures encoded == Escape(bs, true)
  {
    encoded := [];
    for i := 0 to |bs|
      invariant encoded + Escape(bs[i..], true) == Escape(bs, true)
    {
      var isLast := i == |bs| - 1;
      assert bs[i..][1..] == bs[i + 1..];
      ConcatAssoc(encoded, EscapeOne(bs[i], isLast), Escape(bs[i + 1..], true));
      encoded := encoded + if IsLiteral(bs[i], isLast) then [bs[i]] else [EQUALS, HexDigit(bs[i] / 16), HexDigit(bs[i] % 16)];
    }
    assert encoded + [] == encoded;
  }

  method BreakLine(encoded: bytes) returns (out: seq<bytes>)
    ensures out == SoftLines(encoded)
  {
    out := [];
    var rest := encoded;
    while |rest| > 76
      invariant out + SoftLines(rest) == SoftLines(encoded)
      decreases |rest|
    {
      var cut := 75;
      if rest[cut - 1] == EQUALS {
        cut := cut - 1;
      } else if rest[cut - 2] == EQUALS {
        cut := cut - 2;
      }
      ConcatAssoc(out, [rest[..cut] + [EQUALS]], SoftLines(rest[cut..]));
      out := out + [rest[..cut] + [EQUALS]];
      rest := rest[cut..];
    }
    out := out + [rest];
  }

  method PrintText(s: text) returns (printed: text)
    ensures printed == Printed(s)
  {
    var lines := SplitCrlf(ToCrlf(s));
    var out: seq<text> := [];
    for i := 0 to |lines|
      invariant out + PrintLines(lines[i..]) == PrintLines(lines)
    {
      var encoded := EscapeLine(Encode(lines[i]));
      var pieces := BreakLine(encoded);
      assert lines[i..][1..] == lines[i + 1..];
      ConcatAssoc(out, [JoinCrlf(pieces)], PrintLines(lines[i + 1..]));
      out := out + [JoinCrlf(pieces)];
    }
    assert out + [] == out;
    return JoinCrlf(out);
  }

  // ----- the decoder

  /** RFC 2045: soft breaks go, escapes become octets, the rest stands for itself. */
  function Decode(s: text): Option<bytes>
    decreases |s|
  {
    if s == [] then Some([])
    else if s[0] >= 0x100 then None
    else if s[0] != EQUALS then
      var octet: byte := s[0];
      Prepended([octet], Decode(s[1..]))
    else if |s| < 3 then None
    else if s[1] == CR && s[2] == LF then Decode(s[3..])
    else if HexValue(s[1]).None? || HexValue(s[2]).None? then None
    else
      var octet: byte := HexValue(s[1]).value * 16 + HexValue(s[2]).value;
      Prepended([octet], Decode(s[3..]))
  }

  lemma DecodeOne(b: byte, isLast: bool, tail: text)
    ensures Decode(EscapeOne(b, isLast) + tail) == Prepended([b], Decode(tail))
  {
    var s := EscapeOne(b, isLast) + tail;
    if IsLiteral(b, isLast) {
      assert s[1..] == tail;
    } else {
      assert s[3..] == tail;
      assert HexValue(HexDigit(b / 16)) == Some(b / 16) && HexValue(HexDigit(b % 16)) == Some(b % 16);
      assert HexDigit(b / 16) != CR;
    }
  }

  lemma {:induction false} DecodeEscape(bs: bytes, closed: bool, tail: text)
    ensures Decode(Escape(bs, closed) + tail) == Prepended(bs, Decode(tail))
  {
    hide Decode, EscapeOne;
    if bs == [] {
      assert [] + tail == tail;
      PrependedNothing(Decode(tail));
    } else {
      var one, rest := EscapeOne(bs[0], closed && |bs| == 1), Escape(bs[1..], closed);
      ConcatAssoc(one, rest, tail);
      DecodeOne(bs[0], closed && |bs| == 1, rest + tail);
      DecodeEscape(bs[1..], closed, tail);
      assert Prepended([bs[0]], Prepended(bs[1..], Decode(tail))) == Prepended(bs, Decode(tail)) by {
        if Decode(tail).Some? {
          assert [bs[0]] + (bs[1..] + Decode(tail).value) == bs + Decode(tail).value;
        }
      }
    }
  }

  // ----- soft breaks

  /** Position `k` of escaped octets is a boundary, or one or two behind the `=` of an escape at `t`. */
  predicate Boundary(s: bytes, t: nat, k: nat) {
    && t <= k < |s|
    && (t == k ==> (k >= 1 ==> s[k - 1] != EQUALS) && (k >= 2 ==> s[k - 2] != EQUALS))
    && (t < k ==> s[t] == EQUALS && k <= t + 2 && s[t + 1] != EQUALS)
  }

  /** One octet, escaped. */
  predicate IsOne(r: bytes) {
    (|r| == 1 || (|r| == 3 && r[0] == EQUALS && r[1] != EQUALS)) && r[|r| - 1] != EQUALS
  }

  lemma EscapeOneShape(b: byte, isLast: bool)
    ensures IsOne(EscapeOne(b, isLast))
  {
  }

  lemma BoundaryFirst(one: bytes, rest: bytes, k: nat)
    requires IsOne(one) && k < |one|
    ensures Boundary(one + rest, 0, k)
  {
  }

  lemma BoundaryShift(one: bytes, rest: bytes, t: nat, k: nat)
    requires IsOne(one) && Boundary(rest, t, k)
    ensures Boundary(one + rest, |one| + t, |one| + k)
  {
    var s := one + rest;
    assert k >= 1 ==> s[|one| + k - 1] == rest[k - 1];
    assert k >= 2 ==> s[|one| + k - 2] == rest[k - 2];
    assert s[|one| + t] == rest[t];
    assert t + 1 < |rest| ==> s[|one| + t + 1] == rest[t + 1];
  }

  /** Every position has the octet it falls in, or the gap between two. */
  lemma {:induction false} FindBoundary(bs: bytes, closed: bool, k: nat) returns (j: nat)
    requires k < |Escape(bs, closed)|
    ensures j < |bs| && Boundary(Escape(bs, closed), |Escape(bs[..j], false)|, k)
    decreases |bs|
  {
    hide EscapeOne, Boundary, IsOne;
    var one, rest := EscapeOne(bs[0], closed && |bs| == 1), Escape(bs[1..], closed);
    EscapeOneShape(bs[0], closed && |bs| == 1);
    j := 0;
    assert bs[..0] == [];
    if k < |one| {
      BoundaryFirst(one, rest, k);
    } else {
      var i := FindBoundary(bs[1..], closed, k - |one|);
      j := i + 1;
      FirstOpen(bs, closed, i);
      BoundaryShift(one, rest, |Escape(bs[1..][..i], false)|, k - |one|);
    }
  }

  lemma FirstOpen(bs: bytes, closed: bool, i: nat)
    requires i < |bs| - 1
    ensures |Escape(bs[..i + 1], false)| == |EscapeOne(bs[0], closed && |bs| == 1)| + |Escape(bs[1..][..i], false)|
  {
    assert bs[..i + 1][1..] == bs[1..][..i];
  }

  /** The cut falls between two octets, and leaves some of them. */
  lemma CutIsBoundary(bs: bytes, closed: bool) returns (j: nat)
    requires |Escape(bs, closed)| > 76
    ensures 0 < j < |bs|
    ensures var s := Escape(bs, closed);
            s[..CutAt(s)] == Escape(bs[..j], false) && s[CutAt(s)..] == Escape(bs[j..], closed)
  {
    hide Escape;
    j := FindBoundary(bs, closed, 75);
    assert bs == bs[..j] + bs[j..];
    EscapeConcat(bs[..j], bs[j..], closed);
    EscapeNothing();
    assert bs[..0] == [];
  }

  lemma EscapeNothing()
    ensures Escape([], false) == []
  {
  }

  /** Soft breaks vanish in decoding, so none of them split an escape. */
  lemma {:induction false} DecodeSoft(bs: bytes, tail: text)
    ensures Decode(JoinCrlf(SoftLines(Escape(bs, true))) + tail) == Prepended(bs, Decode(tail))
    decreases |bs|
  {
    hide Decode, Escape, CutAt;
    var s := Escape(bs, true);
    if |s| <= 76 {
      DecodeEscape(bs, true, tail);
    } else {
      var j := CutIsBoundary(bs, true);
      var head, rest := s[..CutAt(s)], JoinCrlf(SoftLines(s[CutAt(s)..]));
      var lines := [head + [EQUALS]] + SoftLines(s[CutAt(s)..]);
      assert lines[1..] == SoftLines(s[CutAt(s)..]);
      assert JoinCrlf(lines) + tail == head + ([EQUALS, CR, LF] + (rest + tail));
      DecodeEscape(bs[..j], false, [EQUALS, CR, LF] + (rest + tail));
      DecodeBreak(rest + tail);
      DecodeSoft(bs[j..], tail);
      assert bs == bs[..j] + bs[j..];
      PrependedTwice(bs[..j], bs[j..], Decode(tail));
    }
  }

  lemma DecodeBreak(tail: text)
    ensures Decode([EQUALS, CR, LF] + tail) == Decode(tail)
  {
    assert ([EQUALS, CR, LF] + tail)[3..] == tail;
  }

  lemma PrependedTwice(a: bytes, b: bytes, later: Option<bytes>)
    ensures Prepended(a, Prepended(b, later)) == Prepended(a + b, later)
  {
    if later.Some? {
      ConcatAssoc(a, b, later.value);
    }
  }

  // ----- the text comes back

  lemma DecodeCrlf(tail: text)
    ensures Decode(CRLF + tail) == Prepended(CRLF, Decode(tail))
  {
    assert (CRLF + tail)[1..] == [LF] + tail && ([LF] + tail)[1..] == tail;
    PrependedTwice([CR], [LF], Decode(tail));
    assert [CR] + [LF] == CRLF;
  }

  lemma EncodeLine(line: text, rest: text)
    ensures Encode(line + CRLF + rest) == Encode(line) + CRLF + Encode(rest)
  {
    hide Encode;
    assert line + CRLF + rest == line + (CRLF + rest);
    EncodeConcat(line, CRLF + rest);
    EncodeAsciiFirst(CRLF, rest);
    ConcatAssoc(Encode(line), CRLF, Encode(rest));
  }

  lemma {:induction false} DecodeLines(lines: seq<text>)
    requires lines != []
    ensures Decode(JoinCrlf(PrintLines(lines))) == Some(Encode(JoinCrlf(lines)))
  {
    hide Decode, Encode, SoftLines, Escape;
    var line, rest := PrintLine(lines[0]), JoinCrlf(PrintLines(lines[1..]));
    if |lines| == 1 {
      DecodeSoft(Encode(lines[0]), []);
      DecodeNothing();
      assert line + [] == line;
      assert Encode(lines[0]) + [] == Encode(lines[0]);
    } else {
      DecodeLines(lines[1..]);
      assert line + CRLF + rest == line + (CRLF + rest);
      DecodeSoft(Encode(lines[0]), CRLF + rest);
      DecodeCrlf(rest);
      EncodeLine(lines[0], JoinCrlf(lines[1..]));
      PrependedTwice(Encode(lines[0]), CRLF, Decode(rest));
      assert PrintLines(lines)[1..] == PrintLines(lines[1..]);
    }
  }

  lemma DecodeNothing()
    ensures Decode([]) == Some([])
  {
  }

  /** Decoding gives the UTF-8 of the text, its line ends as CRLF, for every text. */
  lemma PrintedDecodes(s: text)
    ensures Decode(Printed(s)) == Some(Encode(ToCrlf(s)))
  {
    hide Decode, Encode;
    JoinSplitCrlf(ToCrlf(s));
    DecodeLines(SplitCrlf(ToCrlf(s)));
  }

  // ----- the lines on the wire

  /** At most 76 characters, all of one line, and no white space at the end. */
  predicate IsGoodLine(line: text) {
    |line| <= 76 && IsOneLine(line) && (line != [] ==> line[|line| - 1] !in {SPACE, TAB})
  }

  predicate AreGoodLines(lines: seq<text>) {
    forall k | 0 <= k < |lines| :: IsGoodLine(lines[k])
  }

  lemma {:induction false} EscapeClean(bs: bytes, closed: bool)
    ensures IsOneLine(Escape(bs, closed))
    ensures closed && bs != [] ==> Escape(bs, closed)[|Escape(bs, closed)| - 1] !in {SPACE, TAB}
  {
    if bs != [] {
      EscapeClean(bs[1..], closed);
      OneClean(bs[0], closed && |bs| == 1);
    }
  }

  lemma OneClean(b: byte, isLast: bool)
    ensures var r := EscapeOne(b, isLast); IsOneLine(r) && (isLast ==> r[|r| - 1] !in {SPACE, TAB})
  {
  }

  lemma {:induction false} SoftLinesGood(bs: bytes)
    ensures AreGoodLines(SoftLines(Escape(bs, true)))
    decreases |bs|
  {
    hide CutAt, Escape, EscapeOne;
    var s := Escape(bs, true);
    EscapeClean(bs, true);
    if |s| <= 76 {
      EscapeEmpty(bs);
    } else {
      var j := CutIsBoundary(bs, true);
      SoftLinesGood(bs[j..]);
      StillOneLine(s, CutAt(s));
      GoodConcat([s[..CutAt(s)] + [EQUALS]], SoftLines(s[CutAt(s)..]));
    }
  }

  lemma GoodConcat(a: seq<text>, b: seq<text>)
    requires AreGoodLines(a) && AreGoodLines(b)
    ensures AreGoodLines(a + b)
  {
  }

  lemma StillOneLine(s: bytes, k: nat)
    requires IsOneLine(s) && k <= |s| && k <= 75
    ensures IsGoodLine(s[..k] + [EQUALS])
  {
  }

  lemma EscapeEmpty(bs: bytes)
    ensures bs == [] ==> Escape(bs, true) == []
  {
  }

  function Pieces(lines: seq<text>): seq<text> {
    if lines == [] then [] else SoftLines(Escape(Encode(lines[0]), true)) + Pieces(lines[1..])
  }

  lemma {:induction false} PiecesJoin(lines: seq<text>)
    requires lines != []
    ensures Pieces(lines) != [] && JoinCrlf(PrintLines(lines)) == JoinCrlf(Pieces(lines))
    ensures AreGoodLines(Pieces(lines))
  {
    hide SoftLines, Escape, Encode, AreGoodLines;
    var first := SoftLines(Escape(Encode(lines[0]), true));
    SoftLinesGood(Encode(lines[0]));
    if |lines| == 1 {
      assert first + [] == first && lines[1..] == [];
      assert PrintLines(lines) == [PrintLine(lines[0])];
    } else {
      PiecesJoin(lines[1..]);
      JoinConcatCrlf(first, Pieces(lines[1..]));
      GoodConcat(first, Pieces(lines[1..]));
      assert PrintLines(lines)[1..] == PrintLines(lines[1..]);
    }
  }

  /** No line of the output is over 76 characters or ends in white space. */
  lemma PrintedLines(s: text)
    ensures AreGoodLines(SplitCrlf(Printed(s)))
  {
    hide PrintLines, Pieces;
    var lines := SplitCrlf(ToCrlf(s));
    PiecesJoin(lines);
    SplitJoinCrlf(Pieces(lines));
  }

  // ----- line ends

  /** The parts of a text between its line feeds; one CR in front of a line feed belongs to the line end. */
  function WithoutEnds(parts: seq<text>): seq<text> {
    if |parts| <= 1 then parts else [Trimmed(parts[0])] + WithoutEnds(parts[1..])
  }

  function Trimmed(part: text): text {
    if part != [] && part[|part| - 1] == CR then part[..|part| - 1] else part
  }

  /** Every line end becomes a CRLF, and nothing else changes. */
  lemma {:induction false} LineEndsAre(s: text)
    ensures ToCrlf(s) == JoinCrlf(WithoutEnds(Splitting.Split(LF, s)))
    decreases |s|
  {
    hide JoinCrlf;
    var parts := Splitting.Split(LF, s);
    if s == [] {
      LastLine([]);
    } else if s[0] == CR && |s| > 1 && s[1] == LF {
      LineEndsAre(s[2..]);
      assert s[1..][1..] == s[2..];
      var later := Splitting.Split(LF, s[2..]);
      assert Splitting.Split(LF, s[1..]) == [[]] + later;
      assert ([[]] + later)[1..] == later && [s[0]] + [] == [CR];
      assert parts == [[CR]] + later;
      assert parts[1..] == later;
      FirstLine([], later);
      assert [] + CRLF == CRLF;
    } else if s[0] == LF {
      LineEndsAre(s[1..]);
      var later := Splitting.Split(LF, s[1..]);
      assert parts == [[]] + later;
      assert parts[1..] == later;
      FirstLine([], later);
      assert [] + CRLF == CRLF;
    } else {
      LineEndsAre(s[1..]);
      var later := Splitting.Split(LF, s[1..]);
      assert parts[1..] == later[1..];
      if |s| > 1 && later[0] == [] && |later| > 1 {
        FirstIsEmpty(s[1..]);
      }
      UnitInLine(s[0], later);
    }
  }

  lemma LastLine(line: text)
    ensures JoinCrlf(WithoutEnds([line])) == line
  {
  }

  lemma FirstLine(line: text, later: seq<text>)
    requires later != []
    ensures JoinCrlf([line] + WithoutEnds(later)) == line + CRLF + JoinCrlf(WithoutEnds(later))
  {
    JoinCrlfFirst(line, WithoutEnds(later));
    assert WithoutEnds(later) != [];
  }

  lemma FirstIsEmpty(s: text)
    requires s != [] && Splitting.Split(LF, s)[0] == []
    ensures s[0] == LF
  {
  }

  lemma UnitInLine(u: codeunit, parts: seq<text>)
    requires parts != [] && (|parts| > 1 && parts[0] == [] ==> u != CR)
    ensures JoinCrlf(WithoutEnds([[u] + parts[0]] + parts[1..])) == [u] + JoinCrlf(WithoutEnds(parts))
  {
    hide JoinCrlf, WithoutEnds, Trimmed;
    var first, later := parts[0], parts[1..];
    assert parts == [first] + later;
    if later == [] {
      LinesWithoutEnds(first, later);
      LinesWithoutEnds([u] + first, later);
      UnitInFront(u, first, []);
    } else {
      LinesWithoutEnds(first, later);
      LinesWithoutEnds([u] + first, later);
      TrimmedMore(u, first);
      UnitInFront(u, Trimmed(first), WithoutEnds(later));
    }
  }

  lemma LinesWithoutEnds(first: text, later: seq<text>)
    ensures WithoutEnds([first] + later)
         == if later == [] then [first] + [] else [Trimmed(first)] + WithoutEnds(later)
  {
    assert ([first] + later)[1..] == later;
  }

  lemma TrimmedMore(u: codeunit, part: text)
    ensures part != [] || u != CR ==> Trimmed([u] + part) == [u] + Trimmed(part)
  {
    if part != [] {
      assert ([u] + part)[|part|] == part[|part| - 1];
    }
  }

  predicate AreSoft(lines: seq<bytes>) {
    lines != [] && forall k | 0 <= k < |lines| - 1 :: 74 <= |lines[k]| <= 76
  }

  lemma SoftMore(line: bytes, later: seq<bytes>)
    requires 74 <= |line| <= 76 && AreSoft(later)
    ensures AreSoft([line] + later)
  {
  }

  /** Soft breaks are not put before they are needed. */
  lemma {:induction false} SoftLinesAreFull(s: bytes)
    ensures AreSoft(SoftLines(s))
    decreases |s|
  {
    hide AreSoft;
    if |s| > 76 {
      SoftLinesAreFull(s[CutAt(s)..]);
      SoftMore(s[..CutAt(s)] + [EQUALS], SoftLines(s[CutAt(s)..]));
    } else {
      OneSoft(s);
    }
  }

  lemma OneSoft(line: bytes)
    ensures AreSoft([line])
  {
  }
}
