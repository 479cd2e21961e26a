/**
 Commands of `packages/imap/src/commands.ts` and the bytes `executeCommand` writes for them when
 literals need no continuation (LITERAL+). The reader's own framing and tokenizing must give back
 every value that went in, whether as a quoted string or as a literal.
 */
module Commands {
  import opened Bytes
  import opened LogicalLine
  import opened Tokens

  datatype CommandLine = CommandLine(content: bytes, literal: Option<bytes>)

  // ----- quoting

  method IsSafeQuotedString(s: text) returns (safe: bool)
    ensures safe == IsPrintableAscii(s)
  {
    for i := 0 to |s|
      invariant forall k | 0 <= k < i :: IsPrintable(s[k])
    {
      if s[i] < 0x20 || s[i] > 0x7e || s[i] == 0x00 {
        return false;
      }
    }
    return true;
  }

  function ReplaceAll(s: text, unit: codeunit, put: text): text {
    if s == [] then []
    else (if s[0] == unit then put else [s[0]]) + ReplaceAll(s[1..], unit, put)
  }

  function QuoteString(s: text): text {
    [DQUOTE] + ReplaceAll(ReplaceAll(s, BACKSLASH, [BACKSLASH, BACKSLASH]), DQUOTE, [BACKSLASH, DQUOTE]) + [DQUOTE]
  }

  /** A quote or a backslash behind a backslash, anything else as it is. */
  function EscapedUnit(u: codeunit): text {
    if u == BACKSLASH || u == DQUOTE then [BACKSLASH, u] else [u]
  }

  function Escaped(s: text): text {
    if s == [] then [] else EscapedUnit(s[0]) + Escaped(s[1..])
  }

  lemma {:induction false} ReplaceAllConcat(a: text, b: text, unit: codeunit, put: text)
    ensures ReplaceAll(a + b, unit, put) == ReplaceAll(a, unit, put) + ReplaceAll(b, unit, put)
  {
    if a == [] {
      assert a + b == b;
    } else {
      assert (a + b)[1..] == a[1..] + b;
      ReplaceAllConcat(a[1..], b, unit, put);
    }
  }

  /** The two replacements one after the other escape each unit once. */
  lemma {:induction false} QuoteEscapes(s: text)
    ensures ReplaceAll(ReplaceAll(s, BACKSLASH, [BACKSLASH, BACKSLASH]), DQUOTE, [BACKSLASH, DQUOTE]) == Escaped(s)
  {
    if s != [] {
      var first := if s[0] == BACKSLASH then [BACKSLASH, BACKSLASH] else [s[0]];
      ReplaceAllConcat(first, ReplaceAll(s[1..], BACKSLASH, [BACKSLASH, BACKSLASH]), DQUOTE, [BACKSLASH, DQUOTE]);
      QuoteEscapes(s[1..]);
      assert ReplaceAll(first, DQUOTE, [BACKSLASH, DQUOTE]) == EscapedUnit(s[0]) by {
        assert first[1..] == if s[0] == BACKSLASH then [BACKSLASH] else [];
        assert s[0] == BACKSLASH ==> first[1..][1..] == [];
      }
    }
  }

  lemma {:induction false} EscapedIsSafe(s: text)
    requires IsPrintableAscii(s)
    ensures IsPrintableAscii(Escaped(s))
  {
    if s != [] {
      EscapedIsSafe(s[1..]);
    }
  }

  /** What the tokenizer reads behind an opening quote is what was escaped. */
  lemma {:induction false} QuotedOfEscaped(before: bytes, s: bytes, soFar: bytes)
    requires before != [] && IsPrintableAscii(s) && IsPrintableAscii(Escaped(s))
    ensures QuotedFrom(before + Escaped(s) + [DQUOTE], |before|, soFar)
         == Closed(soFar + s, |before| + |Escaped(s)| + 1)
    decreases |s|
  {
    var all: bytes := before + Escaped(s) + [DQUOTE];
    var i := |before|;
    if s == [] {
      assert all[i] == DQUOTE;
      assert soFar + s == soFar;
    } else {
      var unit: bytes := EscapedUnit(s[0]);
      assert Escaped(s) == unit + Escaped(s[1..]);
      assert all[i] == unit[0];
      assert |unit| == 2 ==> all[i + 1] == s[0];
      assert before + unit + Escaped(s[1..]) + [DQUOTE] == all;
      EscapedIsSafe(s[1..]);
      QuotedOfEscaped(before + unit, s[1..], soFar + [s[0]]);
      assert soFar + [s[0]] + s[1..] == soFar + s;
    }
  }

  /** A printable value, quoted, is one token that carries it. */
  lemma QuotedTokens(v: bytes)
    requires IsPrintableAscii(v)
    ensures IsPrintableAscii(QuoteString(v))
    ensures TokensFrom([SPACE] + QuoteString(v), 0) == Tokens([Quoted(v)])
  {
    QuoteEscapes(v);
    EscapedIsSafe(v);
    var q: bytes := QuoteString(v);
    var bs := [SPACE] + q;
    QuotedOfEscaped([DQUOTE], v, []);
    assert [] + v == v;
    assert QuotedFrom(q, 1, []) == Closed(v, |q|);
    TokensShift([SPACE], q, 0);
    assert TokensFrom(q, 0) == TokensFrom(q, |q|).Before([Quoted(v)]);
  }

  predicate IsWord(w: bytes) {
    w != [] && w[0] != PLUS && (forall k | 0 <= k < |w| :: !EndsAtom(w[k]) && IsPrintable(w[k]))
  }

  lemma AtomIsWhole(w: bytes, i: nat)
    requires i <= |w| && forall k | 0 <= k < |w| :: !EndsAtom(w[k])
    ensures AtomEnd(w, i) == |w|
    decreases |w| - i
  {
  }

  lemma WordTokens(w: bytes)
    requires IsWord(w)
    ensures TokensFrom(w, 0) == Tokens([AtomToken(w)])
    ensures TokensFrom([SPACE] + w, 0) == Tokens([AtomToken(w)])
  {
    AtomIsWhole(w, 0);
    assert w[0..|w|] == w;
    assert !EndsAtom(w[0]);
    assert TokensFrom(w, 0) == TokensFrom(w, |w|).Before([AtomToken(w)]);
    TokensShift([SPACE], w, 0);
  }

  lemma TokensThen(a: bytes, ts: seq<Token>, b: bytes, us: seq<Token>)
    requires TokensFrom(a, 0) == Tokens(ts) && TokensFrom(b, 0) == Tokens(us)
    requires b == [] || b[0] == SPACE
    ensures TokensFrom(a + b, 0) == Tokens(ts + us)
  {
    TokensConcat(a, b);
  }

  // ----- what goes on the wire

  function LiteralHeader(length: nat): (r: bytes) {
    [LBRACE] + Decimal(length) + [PLUS, RBRACE]
  }

  function WireOf(line: CommandLine): bytes {
    match line.literal
    case None => line.content
    case Some(literal) => line.content + LiteralHeader(|literal|) + [CR, LF] + literal
  }

  function Wire(lines: seq<CommandLine>): bytes {
    if lines == [] then [] else WireOf(lines[0]) + Wire(lines[1..])
  }

  /** A literal may follow its header at once. */
  predicate CanSynchronizeFree(hasLiteralPlus: bool, hasLiteralMinus: bool, length: nat) {
    hasLiteralPlus || (hasLiteralMinus && length <= 4096)
  }

  lemma WireAt(lines: seq<CommandLine>, k: nat)
    requires k < |lines|
    ensures Wire(lines[k..]) == WireOf(lines[k]) + Wire(lines[k + 1..])
  {
    hide WireOf;
    assert lines[k..][0] == lines[k] && lines[k..][1..] == lines[k + 1..];
  }

  lemma LineWritten(before: bytes, line: CommandLine)
    ensures before + WireOf(line)
         == match line.literal
            case None => before + line.content
            case Some(literal) => before + line.content + (LiteralHeader(|literal|) + [CR, LF]) + literal
  {
    hide LiteralHeader;
  }

  lemma AllWritten(written: bytes)
    ensures [] + written == written && written + Wire([]) == written
  {
  }

  /** The writes of `executeCommand`, up to waiting for the answer. */
  method WriteCommand(lines: seq<CommandLine>, hasLiteralPlus: bool, hasLiteralMinus: bool) returns (written: bytes)
    requires forall line <- lines :: line.literal.Some? ==>
               CanSynchronizeFree(hasLiteralPlus, hasLiteralMinus, |line.literal.value|)
    ensures written == Wire(lines)
  {
    hide Wire, WireOf, LiteralHeader;
    written := [];
    AllWritten(Wire(lines));
    assert lines[0..] == lines;
    for k := 0 to |lines|
      invariant Wire(lines) == written + Wire(lines[k..])
    {
      var line := lines[k];
      WireAt(lines, k);
      ConcatAssoc(written, WireOf(line), Wire(lines[k + 1..]));
      LineWritten(written, line);
      written := written + line.content;
      if line.literal.Some? {
        written := written + (LiteralHeader(|line.literal.value|) + [CR, LF]);
        written := written + line.literal.value;
      }
    }
    AllWritten(written);
    assert lines[|lines|..] == [];
  }

  // ----- one command is one logical line

  /** Lines that end in a literal, then one that ends the command. */
  predicate IsCommand(lines: seq<CommandLine>, limit: nat) {
    && lines != []
    && (if |lines| == 1 then
          && lines[0].literal == None
          && |lines[0].content| >= 2
          && lines[0].content[|lines[0].content| - 2..] == [CR, LF]
          && IsPrintableAscii(BodyOf(lines[0]))
          && (BodyOf(lines[0]) == [] || BodyOf(lines[0])[|BodyOf(lines[0])| - 1] != RBRACE)
        else
          && lines[0].literal.Some?
          && |lines[0].literal.value| <= limit && |lines[0].literal.value| <= MAX_UINT32
          && IsPrintableAscii(lines[0].content)
          && IsCommand(lines[1..], limit))
  }

  function BodyOf(line: CommandLine): bytes
    requires |line.content| >= 2
  {
    line.content[..|line.content| - 2]
  }

  function SegmentsOf(lines: seq<CommandLine>, limit: nat): seq<Segment>
    requires IsCommand(lines, limit)
  {
    if |lines| == 1 then [Text(BodyOf(lines[0]))]
    else TextUnlessEmpty(lines[0].content) + [Literal(lines[0].literal.value)] + SegmentsOf(lines[1..], limit)
  }

  lemma HeaderAnnounced(content: bytes, length: nat, limit: nat)
    requires length <= limit && length <= MAX_UINT32
    ensures HeaderOf(content + LiteralHeader(length), limit) == Announces(length, |content|)
  {
    var digits := Decimal(length);
    var line := content + LiteralHeader(length);
    var end := |content| + 1 + |digits|;
    assert line[end] == PLUS && line[end + 1] == RBRACE && |line| == end + 2;
    assert DigitsEnd(line) == end;
    assert line[|content|] == LBRACE;
    forall k | |content| < k < end
      ensures IsDigit(line[k])
    {
      assert line[k] == digits[k - |content| - 1];
    }
    RunOfDigits(line, |content| + 1, end);
    assert line[|content| + 1..end] == digits;
  }

  lemma RunOfDigits(line: bytes, start: nat, end: nat)
    requires 1 <= start <= end <= |line| && !IsDigit(line[start - 1])
    requires forall k | start <= k < end :: IsDigit(line[k])
    ensures DigitsStart(line, end) == start
    decreases end
  {
    if end > start {
      RunOfDigits(line, start, end - 1);
    }
  }

  /** Printable text up to a CRLF is where the next line end is found. */
  lemma NextCrlf(buf: bytes, from: nat, crlf: nat)
    requires from <= crlf && IsCrlfAt(buf, crlf)
    requires IsPrintableAscii(buf[from..crlf])
    ensures FirstCrlf(buf, from) == Some(crlf)
    ensures FirstBareLf(buf, from, crlf) == None
  {
    forall k | from <= k < crlf
      ensures !IsCrlfAt(buf, k) && !IsBareLfAt(buf, k)
    {
      assert buf[k] == buf[from..crlf][k - from];
    }
    FirstCrlfIs(buf, from, crlf);
  }

  lemma PrintableConcat(a: bytes, b: bytes)
    requires IsPrintableAscii(a) && IsPrintableAscii(b)
    ensures IsPrintableAscii(a + b)
  {
  }

  lemma LiteralHeaderIsSafe(length: nat)
    ensures IsPrintableAscii(LiteralHeader(length))
  {
    var digits := Decimal(length);
    forall k | 0 <= k < |digits|
      ensures IsPrintable(digits[k])
    {
      assert IsDigit(digits[k]);
    }
  }

  /** A line that ends in a literal is read up to the literal's end. */
  lemma LiteralRound(before: bytes, line: CommandLine, after: bytes, limit: nat, segments: seq<Segment>)
    requires line.literal.Some? && |line.literal.value| <= limit && |line.literal.value| <= MAX_UINT32
    requires IsPrintableAscii(line.content)
    ensures RoundOf(before + (WireOf(line) + after), limit, segments, |before|, |before|)
         == GoOn(segments + TextUnlessEmpty(line.content) + [Literal(line.literal.value)], |before| + |WireOf(line)|)
  {
    var literal := line.literal.value;
    var header := LiteralHeader(|literal|);
    var buf := before + (WireOf(line) + after);
    var from := |before|;
    var crlf := from + |line.content| + |header|;
    var end := crlf + 2 + |literal|;
    LiteralHeaderIsSafe(|literal|);
    PrintableConcat(line.content, header);
    assert buf == before + (line.content + header) + [CR, LF] + literal + after;
    assert buf[from..crlf] == line.content + header;
    assert buf[crlf] == CR && buf[crlf + 1] == LF;
    assert buf[crlf + 2..end] == literal;
    NextCrlf(buf, from, crlf);
    HeaderAnnounced(line.content, |literal|, limit);
    assert (line.content + header)[..|line.content|] == line.content;
  }

  lemma LastRound(before: bytes, line: CommandLine, after: bytes, limit: nat, segments: seq<Segment>)
    requires IsCommand([line], limit)
    ensures RoundOf(before + (line.content + after), limit, segments, |before|, |before|)
         == Stop(Complete(segments + [Text(BodyOf(line))], |before| + |line.content|))
  {
    hide HeaderOf, IsCommand, BodyOf, FirstCrlf, FirstBareLf, IsPrintableAscii;
    BodyLayout(line, limit);
    var body := BodyOf(line);
    LineLayout(before, body, after);
    assert before + (line.content + after) == before + body + [CR, LF] + after;
    NextCrlf(before + body + [CR, LF] + after, |before|, |before| + |body|);
    BodyIsNoHeader(line, limit);
  }

  lemma BodyLayout(line: CommandLine, limit: nat)
    requires IsCommand([line], limit)
    ensures |line.content| >= 2 && line.content == BodyOf(line) + [CR, LF] && IsPrintableAscii(BodyOf(line))
  {
  }

  lemma LineLayout(before: bytes, body: bytes, after: bytes)
    ensures var buf, crlf := before + body + [CR, LF] + after, |before| + |body|;
            buf[|before|..crlf] == body && IsCrlfAt(buf, crlf)
  {
  }

  lemma BodyIsNoHeader(line: CommandLine, limit: nat)
    requires IsCommand([line], limit)
    ensures HeaderOf(BodyOf(line), limit) == NoHeader
  {
  }

  lemma ScanStep(buf: bytes, limit: nat, segments: seq<Segment>, at: nat)
    requires at < |buf|
    ensures Scan(buf, limit, segments, at, at)
         == match RoundOf(buf, limit, segments, at, at)
            case Stop(reading) => reading
            case GoOn(segments', at') => Scan(buf, limit, segments', at', at')
  {
  }

  lemma CommandSplit(before: bytes, lines: seq<CommandLine>, after: bytes, limit: nat, segments: seq<Segment>)
    requires IsCommand(lines, limit) && |lines| > 1
    ensures Wire(lines) == WireOf(lines[0]) + Wire(lines[1..]) && |WireOf(lines[0])| > 0
    ensures before + (Wire(lines) + after) == before + (WireOf(lines[0]) + (Wire(lines[1..]) + after))
    ensures before + (Wire(lines) + after) == (before + WireOf(lines[0])) + (Wire(lines[1..]) + after)
    ensures segments + SegmentsOf(lines, limit)
         == segments + TextUnlessEmpty(lines[0].content) + [Literal(lines[0].literal.value)] + SegmentsOf(lines[1..], limit)
  {
    var first, rest := WireOf(lines[0]), Wire(lines[1..]);
    ConcatAssoc(first, rest, after);
    ConcatAssoc(before, first, rest + after);
    var a, b := TextUnlessEmpty(lines[0].content), [Literal(lines[0].literal.value)];
    ConcatAssoc(a, b, SegmentsOf(lines[1..], limit));
    ConcatAssoc(segments, a + b, SegmentsOf(lines[1..], limit));
    ConcatAssoc(segments, a, b);
  }

  lemma {:induction false} CommandScan(
    before: bytes, lines: seq<CommandLine>, after: bytes, limit: nat, segments: seq<Segment>)
    requires IsCommand(lines, limit)
    ensures Scan(before + (Wire(lines) + after), limit, segments, |before|, |before|)
         == Complete(segments + SegmentsOf(lines, limit), |before| + |Wire(lines)|)
    decreases |lines|
  {
    hide Scan, RoundOf, Wire, WireOf;
    var line := lines[0];
    if |lines| == 1 {
      OneLineWire(lines);
      LastRound(before, line, after, limit, segments);
      ScanStep(before + (line.content + after), limit, segments, |before|);
    } else {
      CommandSplit(before, lines, after, limit, segments);
      LiteralRound(before, line, Wire(lines[1..]) + after, limit, segments);
      ScanStep(before + (Wire(lines) + after), limit, segments, |before|);
      CommandScan(before + WireOf(line), lines[1..], after, limit,
                  segments + TextUnlessEmpty(line.content) + [Literal(line.literal.value)]);
    }
  }

  lemma OneLineWire(lines: seq<CommandLine>)
    requires |lines| == 1 && lines[0].literal == None
    ensures lines == [lines[0]] && Wire(lines) == lines[0].content
  {
    assert Wire(lines[1..]) == [];
    assert lines[0].content + [] == lines[0].content;
  }

  /** Whatever follows on the stream, the reader frames a command's bytes as exactly one line. */
  lemma CommandFrames(lines: seq<CommandLine>, after: bytes, limit: nat)
    requires IsCommand(lines, limit)
    ensures OneShot(Wire(lines) + after, limit) == Complete(SegmentsOf(lines, limit), |Wire(lines)|)
  {
    CommandScan([], lines, after, limit, []);
    assert [] + (Wire(lines) + after) == Wire(lines) + after;
    assert [] + SegmentsOf(lines, limit) == SegmentsOf(lines, limit);
  }
}
