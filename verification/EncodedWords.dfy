/**
 Encoded-words (RFC 2047): how `packages/smtp/src/message.ts` writes a header text that is not ASCII,
 and how `packages/imap/src/rfc2047.ts` reads any header. Charset decoding is a parameter.
 */
module EncodedWords {
  import opened Bytes
  import Utf8
  import Base64

  const QUESTION: codeunit := 0x3f
  const EQUALS: codeunit := 0x3d
  const UNDERSCORE: codeunit := 0x5f

  // ----- writing

  const ENCODED_WORD_BYTES := 45
  const UTF8_NAME: text := [0x75, 0x74, 0x66, 0x2d, 0x38]
  const OPENING: text := [EQUALS, QUESTION] + UTF8_NAME + [QUESTION, 0x42, QUESTION]
  const CLOSING: text := [QUESTION, EQUALS]
  const FOLD: text := [CR, LF, SPACE]

  /** `chunk` is under way; a character that would take its UTF-8 past 45 octets starts the next one. */
  function Chunks(chunk: text, rest: text): (r: seq<text>)
    ensures r != []
    decreases |rest|
  {
    if rest == [] then [chunk]
    else
      var n := Utf8.FirstPoint(rest).1;
      if |Utf8.Encode(chunk + rest[..n])| > ENCODED_WORD_BYTES then [chunk] + Chunks(rest[..n], rest[n..])
      else Chunks(chunk + rest[..n], rest[n..])
  }

  function WordText(chunk: text): text {
    OPENING + Base64.Encode(Utf8.Encode(chunk)) + CLOSING
  }

  function WordsText(chunks: seq<text>): text {
    if chunks == [] then []
    else if |chunks| == 1 then WordText(chunks[0])
    else WordText(chunks[0]) + FOLD + WordsText(chunks[1..])
  }

  method EncodeWords(value: text) returns (header: text)
    ensures header == WordsText(Chunks([], value))
  {
    hide WordText;
    var words: seq<text> := [];
    var chunk: text := [];
    var i := 0;
    assert value[0..] == value;
    while i < |value|
      invariant 0 <= i <= |value|
      invariant words + Chunks(chunk, value[i..]) == Chunks([], value)
    {
      var n := Utf8.FirstPoint(value[i..]).1;
      var ch := value[i..][..n];
      assert value[i..][n..] == value[i + n..];
      if |Utf8.Encode(chunk + ch)| > ENCODED_WORD_BYTES {
        ConcatAssoc(words, [chunk], Chunks(ch, value[i + n..]));
        words := words + [chunk];
        chunk := [];
        assert [] + ch == ch;
      }
      chunk := chunk + ch;
      i := i + n;
    }
    header := JoinWords(words + [chunk]);
  }

  method JoinWords(words: seq<text>) returns (header: text)
    ensures header == WordsText(words)
  {
    hide WordText;
    header := [];
    for k := 0 to |words|
      invariant header + (if k == 0 || k == |words| then [] else FOLD) + WordsText(words[k..]) == WordsText(words)
    {
      assert words[k..][1..] == words[k + 1..];
      header := header + (if k == 0 then [] else FOLD) + WordText(words[k]);
    }
    assert words[|words|..] == [];
  }

  // ----- how words split the text

  /** No lone surrogates. */
  predicate WellFormed(s: text)
    decreases |s|
  {
    s == [] ||
    var (p, n) := Utf8.FirstPoint(s);
    (n == 2 || (!Utf8.IsHigh(s[0]) && !Utf8.IsLow(s[0]))) && WellFormed(s[n..])
  }

  lemma {:induction false} WellFormedConcat(a: text, b: text)
    requires WellFormed(a) && WellFormed(b)
    ensures WellFormed(a + b)
    ensures Utf8.Encode(a + b) == Utf8.Encode(a) + Utf8.Encode(b)
    decreases |a|
  {
    hide Utf8.Encode;
    WellFormedEnd(a);
    Utf8.EncodeConcat(a, b);
    if a == [] {
      assert a + b == b;
    } else {
      var n := Utf8.FirstPoint(a).1;
      WellFormedConcat(a[n..], b);
      assert (a + b)[n..] == a[n..] + b;
      assert (a + b)[0] == a[0] && (n == 2 ==> (a + b)[1] == a[1]);
    }
  }

  lemma {:induction false} WellFormedEnd(a: text)
    requires WellFormed(a)
    ensures a != [] ==> !Utf8.IsHigh(a[|a| - 1])
    decreases |a|
  {
    if a != [] {
      var n := Utf8.FirstPoint(a).1;
      WellFormedEnd(a[n..]);
    }
  }

  /** The first character and the rest are well-formed apart; it takes four octets at most. */
  lemma FirstCharacter(s: text)
    requires WellFormed(s) && s != []
    ensures var n := Utf8.FirstPoint(s).1; WellFormed(s[..n]) && WellFormed(s[n..]) && |Utf8.Encode(s[..n])| <= 4
  {
    var n := Utf8.FirstPoint(s).1;
    var first := s[..n];
    assert Utf8.FirstPoint(first) == Utf8.FirstPoint(s);
    assert first[n..] == [];
    assert Utf8.Encode(first) == Utf8.EncodePoint(Utf8.FirstPoint(first).0) + Utf8.Encode([]);
  }

  predicate IsChunk(chunk: text) {
    WellFormed(chunk) && |Utf8.Encode(chunk)| <= ENCODED_WORD_BYTES
  }

  predicate AreChunks(chunks: seq<text>) {
    forall k | 0 <= k < |chunks| :: IsChunk(chunks[k])
  }

  /** Chunks are whole characters, within 45 octets, and together the text. */
  lemma {:induction false} ChunksSplit(chunk: text, rest: text)
    requires IsChunk(chunk) && WellFormed(rest)
    ensures AreChunks(Chunks(chunk, rest)) && Flatten(Chunks(chunk, rest)) == chunk + rest
    decreases |rest|
  {
    hide Utf8.Encode, WellFormed;
    if rest == [] {
      FlattenOne(chunk);
      assert chunk + [] == chunk;
    } else {
      var n := Utf8.FirstPoint(rest).1;
      FirstCharacter(rest);
      WellFormedConcat(chunk, rest[..n]);
      assert rest[..n] + rest[n..] == rest;
      if |Utf8.Encode(chunk + rest[..n])| > ENCODED_WORD_BYTES {
        ChunksSplit(rest[..n], rest[n..]);
      } else {
        ChunksSplit(chunk + rest[..n], rest[n..]);
        ConcatAssoc(chunk, rest[..n], rest[n..]);
      }
    }
  }

  /** Sections 2 and 6.2 of RFC 2047: no word is over 75 characters, and none splits a character. */
  lemma WordsAreShort(value: text)
    requires WellFormed(value)
    ensures var chunks := Chunks([], value);
            Flatten(chunks) == value
            && forall k | 0 <= k < |chunks| :: WellFormed(chunks[k]) && |WordText(chunks[k])| <= 75
  {
    hide Utf8.Encode;
    EmptyChunk();
    ChunksSplit([], value);
    assert [] + value == value;
    forall k | 0 <= k < |Chunks([], value)|
      ensures |WordText(Chunks([], value)[k])| <= 75
    {
      Base64.SextetsLength(Utf8.Encode(Chunks([], value)[k]));
    }
  }

  lemma EmptyChunk()
    ensures IsChunk([])
  {
  }

  function FirstCharacterOf(s: text): text {
    if s == [] then [] else s[..Utf8.FirstPoint(s).1]
  }

  lemma {:induction false} ChunkBegins(chunk: text, rest: text)
    requires chunk != [] && WellFormed(chunk) && WellFormed(rest)
    ensures FirstCharacterOf(Chunks(chunk, rest)[0]) == FirstCharacterOf(chunk)
    decreases |rest|
  {
    hide Utf8.Encode, WellFormed;
    if rest != [] {
      var n := Utf8.FirstPoint(rest).1;
      FirstCharacter(rest);
      if |Utf8.Encode(chunk + rest[..n])| <= ENCODED_WORD_BYTES {
        WellFormedConcat(chunk, rest[..n]);
        WellFormedEnd(chunk);
        ChunkBegins(chunk + rest[..n], rest[n..]);
        SameFirst(chunk, rest[..n]);
      }
    }
  }

  lemma SameFirst(a: text, b: text)
    requires a != [] && !Utf8.IsHigh(a[|a| - 1])
    ensures FirstCharacterOf(a + b) == FirstCharacterOf(a)
  {
    assert (a + b)[0] == a[0] && (|a| > 1 ==> (a + b)[1] == a[1]);
    var n := Utf8.FirstPoint(a).1;
    assert (a + b)[..n] == a[..n];
  }

  ghost predicate AreFull(chunks: seq<text>) {
    forall k | 0 < k < |chunks| :: |Utf8.Encode(chunks[k - 1] + FirstCharacterOf(chunks[k]))| > 45
  }

  lemma {:induction false} ChunksAreFull(chunk: text, rest: text)
    requires WellFormed(chunk) && WellFormed(rest)
    ensures AreFull(Chunks(chunk, rest))
    decreases |rest|
  {
    hide Utf8.Encode, WellFormed;
    if rest != [] {
      var n := Utf8.FirstPoint(rest).1;
      var first := rest[..n];
      FirstCharacter(rest);
      if |Utf8.Encode(chunk + first)| > ENCODED_WORD_BYTES {
        ChunksAreFull(first, rest[n..]);
        ChunkBegins(first, rest[n..]);
        var more := Chunks(first, rest[n..]);
        assert Utf8.FirstPoint(first) == Utf8.FirstPoint(rest);
        assert FirstCharacterOf(first) == first;
        forall k | 0 < k < |[chunk] + more|
          ensures |Utf8.Encode(([chunk] + more)[k - 1] + FirstCharacterOf(([chunk] + more)[k]))| > 45
        {
          assert k > 1 ==> |Utf8.Encode(more[k - 2] + FirstCharacterOf(more[k - 1]))| > 45;
        }
      } else {
        WellFormedConcat(chunk, first);
        ChunksAreFull(chunk + first, rest[n..]);
      }
    }
  }

  /** A word ends only where the next character would take it past 45 octets. */
  lemma WordsAreFull(value: text)
    requires WellFormed(value)
    ensures AreFull(Chunks([], value))
  {
    EmptyChunk();
    ChunksAreFull([], value);
  }

  // ----- reading: the words of a header

  /** An encoded-word at `start..end` of the header. */
  datatype Word = Word(start: nat, end: nat, charset: text, isBase64: bool, encoded: text)

  /** The next question mark, or the end. */
  function NextQuestion(h: text, p: nat): (q: nat)
    requires p <= |h|
    ensures p <= q <= |h| && (q < |h| ==> h[q] == QUESTION)
    ensures forall i | p <= i < q :: h[i] != QUESTION
    decreases |h| - p
  {
    if p == |h| || h[p] == QUESTION then p else NextQuestion(h, p + 1)
  }

  predicate IsEncodingLetter(u: codeunit) {
    u in {0x42, 0x62, 0x51, 0x71}
  }

  /** The regular expression `=\?([^?]+)\?([bBqQ])\?([^?]*)\?=` at one position. */
  function WordAt(h: text, p: nat): (r: Option<Word>)
    ensures r.Some? ==> p == r.value.start && p + 6 < r.value.end <= |h|
  {
    if p + 2 > |h| || h[p] != EQUALS || h[p + 1] != QUESTION then None
    else
      var q := NextQuestion(h, p + 2);
      if q == p + 2 || q + 3 > |h| || !IsEncodingLetter(h[q + 1]) || h[q + 2] != QUESTION then None
      else
        var e := NextQuestion(h, q + 3);
        if e + 2 > |h| || h[e + 1] != EQUALS then None
        else Some(Word(p, e + 2, h[p + 2..q], h[q + 1] in {0x42, 0x62}, h[q + 3..e]))
  }

  /** All matches, each search from the end of the one before. */
  function WordsFrom(h: text, p: nat): (r: seq<Word>)
    ensures InOrder(r, p, |h|)
    decreases |h| - p
  {
    if p >= |h| then []
    else
      match WordAt(h, p)
      case None => WordsFrom(h, p + 1)
      case Some(w) => [w] + WordsFrom(h, w.end)
  }

  predicate InOrder(ws: seq<Word>, from: nat, length: nat) {
    && (forall k | 0 <= k < |ws| :: from <= ws[k].start < ws[k].end <= length)
    && forall k | 0 < k < |ws| :: ws[k - 1].end <= ws[k].start
  }

  // ----- reading: runs of words

  predicate IsFoldingSpace(s: text) {
    s != [] && forall i | 0 <= i < |s| :: s[i] in {SPACE, TAB, CR, LF}
  }

  /** Only white space, and some, between word `k` and the one before. */
  predicate AreAdjacent(h: text, ws: seq<Word>, k: nat)
    requires 0 < k < |ws| && InOrder(ws, 0, |h|)
  {
    IsFoldingSpace(h[ws[k - 1].end..ws[k].start])
  }

  /** Behind the run of words that begins at `i` with only white space between them. */
  function RunEnd(h: text, ws: seq<Word>, i: nat): (n: nat)
    requires i < |ws| && InOrder(ws, 0, |h|)
    ensures i < n <= |ws|
    decreases |ws| - i
  {
    if i + 1 < |ws| && AreAdjacent(h, ws, i + 1) then RunEnd(h, ws, i + 1) else i + 1
  }

  predicate SameName(a: text, b: text) {
    |a| == |b| && forall i | 0 <= i < |a| :: LowerUnit(a[i]) == LowerUnit(b[i])
  }

  /** Behind the words from `j` that share its charset, within the run that ends at `n`. */
  function CharsetEnd(ws: seq<Word>, j: nat, k: nat, n: nat): (e: nat)
    requires j < k <= n <= |ws|
    ensures k <= e <= n
    decreases n - k
  {
    if k < n && SameName(ws[k].charset, ws[j].charset) then CharsetEnd(ws, j, k + 1, n) else k
  }

  // ----- reading: one group of words

  function HexOf(u: codeunit): (r: Option<nat>)
    ensures r.Some? ==> r.value < 16
  {
    if 0x30 <= u <= 0x39 then Some(u - 0x30)
    else if 0x41 <= u <= 0x46 then Some(u - 0x37)
    else if 0x61 <= u <= 0x66 then Some(u - 0x57)
    else None
  }

  /** The Q encoding at its front: `_` is a space, `=XX` an octet, anything else itself; and how much of it that took. */
  function QStep(s: text): (r: (byte, nat))
    requires s != []
    ensures 1 <= r.1 <= |s|
  {
    if s[0] == UNDERSCORE then (SPACE, 1)
    else if s[0] == EQUALS && |s| > 2 && HexOf(s[1]).Some? && HexOf(s[2]).Some? then
      (HexOf(s[1]).value * 16 + HexOf(s[2]).value, 3)
    else (s[0] % 0x100, 1)
  }

  function DecodeQ(s: text): bytes
    decreases |s|
  {
    if s == [] then [] else [QStep(s).0] + DecodeQ(s[QStep(s).1..])
  }

  function TrimStart(s: text): text {
    if s != [] && IsWhiteSpace(s[0]) then TrimStart(s[1..]) else s
  }

  function TrimEnd(s: text): text {
    if s != [] && IsWhiteSpace(s[|s| - 1]) then TrimEnd(s[..|s| - 1]) else s
  }

  function WordBytes(w: Word): Option<bytes> {
    if w.isBase64 then Base64.Decode(TrimEnd(TrimStart(w.encoded))) else Some(DecodeQ(w.encoded))
  }

  /** The octets of all of them, or None when one is not base64. */
  function GroupBytes(ws: seq<Word>): Option<bytes> {
    if ws == [] then Some([])
    else
      match WordBytes(ws[0])
      case None => None
      case Some(bs) => Prepended(bs, GroupBytes(ws[1..]))
  }

  function Raws(h: text, ws: seq<Word>): text
    requires InOrder(ws, 0, |h|)
  {
    if ws == [] then [] else h[ws[0].start..ws[0].end] + Raws(h, ws[1..])
  }

  /** `TextDecoder`: None for a charset it does not know or octets it refuses. */
  datatype Charsets = Charsets(isKnown: text -> bool, decode: (text, bytes) -> Option<text>)

  function GroupText(charsets: Charsets, h: text, ws: seq<Word>): text
    requires ws != [] && InOrder(ws, 0, |h|)
  {
    if !charsets.isKnown(ws[0].charset) then Raws(h, ws)
    else
      match GroupBytes(ws)
      case None => Raws(h, ws)
      case Some(bs) =>
        match charsets.decode(ws[0].charset, bs)
        case None => Raws(h, ws)
        case Some(t) => t
  }

  lemma SliceInOrder(ws: seq<Word>, from: nat, length: nat, i: nat, j: nat)
    requires InOrder(ws, from, length) && i <= j <= |ws|
    ensures InOrder(ws[i..j], from, length)
  {
  }

  /** The words `j..n`, group by group. */
  function RunText(charsets: Charsets, h: text, ws: seq<Word>, j: nat, n: nat): text
    requires j <= n <= |ws| && InOrder(ws, 0, |h|)
    decreases n - j
  {
    if j == n then []
    else
      var e := CharsetEnd(ws, j, j + 1, n);
      SliceInOrder(ws, 0, |h|, j, e);
      GroupText(charsets, h, ws[j..e]) + RunText(charsets, h, ws, e, n)
  }

  /** The header from `cursor` on, from its word `i` on. */
  function HeaderText(charsets: Charsets, h: text, ws: seq<Word>, i: nat, cursor: nat): text
    requires i <= |ws| && InOrder(ws, 0, |h|) && cursor <= |h| && (i < |ws| ==> cursor <= ws[i].start)
    decreases |ws| - i
  {
    if i == |ws| then h[cursor..]
    else
      var n := RunEnd(h, ws, i);
      h[cursor..ws[i].start] + RunText(charsets, h, ws, i, n) + HeaderText(charsets, h, ws, n, ws[n - 1].end)
  }

  /** `decodeRfc2047`. */
  function DecodeHeader(charsets: Charsets, h: text): text {
    HeaderText(charsets, h, WordsFrom(h, 0), 0, 0)
  }

  // ----- reading: the loops

  method FindWords(h: text) returns (ws: seq<Word>)
    ensures ws == WordsFrom(h, 0)
  {
    hide WordAt;
    ws := [];
    var p := 0;
    while p < |h|
      invariant 0 <= p <= |h|
      invariant ws + WordsFrom(h, p) == WordsFrom(h, 0)
      decreases |h| - p
    {
      var w := WordAt(h, p);
      if w.Some? {
        ConcatAssoc(ws, [w.value], WordsFrom(h, w.value.end));
        ws := ws + [w.value];
        p := w.value.end;
      } else {
        p := p + 1;
      }
    }
    assert ws + [] == ws;
  }

  method DecodeQToBytes(s: text) returns (bs: bytes)
    ensures bs == DecodeQ(s)
  {
    hide QStep, HexOf;
    bs := [];
    var i := 0;
    assert s[0..] == s;
    while i < |s|
      invariant 0 <= i <= |s|
      invariant bs + DecodeQ(s[i..]) == DecodeQ(s)
    {
      var octet: byte, taken: nat;
      if s[i] == UNDERSCORE {
        octet, taken := SPACE, 1;
      } else if s[i] == EQUALS && i + 2 < |s| && HexOf(s[i + 1]).Some? && HexOf(s[i + 2]).Some? {
        octet, taken := HexOf(s[i + 1]).value * 16 + HexOf(s[i + 2]).value, 3;
      } else {
        octet, taken := s[i] % 0x100, 1;
      }
      QStepAt(s, i);
      assert s[i..][taken..] == s[i + taken..];
      ConcatAssoc(bs, [octet], DecodeQ(s[i + taken..]));
      bs, i := bs + [octet], i + taken;
    }
    assert bs + [] == bs;
  }

  lemma QStepAt(s: text, i: nat)
    requires i < |s|
    ensures QStep(s[i..])
         == if s[i] == UNDERSCORE then (SPACE, 1)
            else if s[i] == EQUALS && i + 2 < |s| && HexOf(s[i + 1]).Some? && HexOf(s[i + 2]).Some? then
              (HexOf(s[i + 1]).value * 16 + HexOf(s[i + 2]).value, 3)
            else (s[i] % 0x100, 1)
  {
    hide HexOf;
  }

  /** A group of words in one charset. */
  method DecodeGroup(charsets: Charsets, h: text, ws: seq<Word>) returns (t: text)
    requires ws != [] && InOrder(ws, 0, |h|)
    ensures t == GroupText(charsets, h, ws)
  {
    hide WordBytes, InOrder;
    var raw := RawWords(h, ws);
    if !charsets.isKnown(ws[0].charset) {
      return raw;
    }
    var merged: bytes := [];
    PrependedNothing(GroupBytes(ws));
    assert ws[0..] == ws;
    for k := 0 to |ws|
      invariant GroupBytes(ws) == Prepended(merged, GroupBytes(ws[k..]))
    {
      assert ws[k..][1..] == ws[k + 1..];
      var chunk := WordBytes(ws[k]);
      if chunk.None? {
        return raw;
      }
      PrependedMore(merged, chunk.value, GroupBytes(ws[k + 1..]));
      merged := merged + chunk.value;
    }
    assert merged + [] == merged;
    var decoded := charsets.decode(ws[0].charset, merged);
    return if decoded.Some? then decoded.value else raw;
  }

  lemma PrependedMore(a: bytes, b: bytes, later: Option<bytes>)
    ensures Prepended(a, Prepended(b, later)) == Prepended(a + b, later)
  {
    if later.Some? {
      ConcatAssoc(a, b, later.value);
    }
  }

  method RawWords(h: text, ws: seq<Word>) returns (raw: text)
    requires InOrder(ws, 0, |h|)
    ensures raw == Raws(h, ws)
  {
    raw := [];
    assert ws[0..] == ws;
    for k := 0 to |ws|
      invariant InOrder(ws[k..], 0, |h|) && raw + Raws(h, ws[k..]) == Raws(h, ws)
    {
      assert ws[k..][1..] == ws[k + 1..];
      SliceInOrder(ws, 0, |h|, k + 1, |ws|);
      raw := raw + h[ws[k].start..ws[k].end];
    }
    assert raw + [] == raw;
  }

  method DecodeRfc2047(charsets: Charsets, h: text) returns (result: text)
    ensures result == DecodeHeader(charsets, h)
  {
    hide InOrder, GroupText, RunText, RunEnd, WordsFrom, AreAdjacent, SameName;
    var ws := FindWords(h);
    if |ws| == 0 {
      assert h[0..] == h;
      return h;
    }
    result := [];
    var cursor, i := 0, 0;
    while i < |ws|
      invariant 0 <= i <= |ws| && 0 <= cursor <= |h| && (i < |ws| ==> cursor <= ws[i].start)
      invariant result + HeaderText(charsets, h, ws, i, cursor) == DecodeHeader(charsets, h)
      decreases |ws| - i
    {
      WordBounds(ws, |h|, i);
      ghost var before := result;
      result := result + h[cursor..ws[i].start];
      var next := FindRunEnd(h, ws, i);
      var run := DecodeRun(charsets, h, ws, i, next);
      result := result + run;
      WordBounds(ws, |h|, next - 1);
      ConcatAssoc(before, h[cursor..ws[i].start], run);
      ConcatAssoc(before, h[cursor..ws[i].start] + run, HeaderText(charsets, h, ws, next, ws[next - 1].end));
      cursor := ws[next - 1].end;
      i := next;
    }
    if cursor < |h| {
      result := result + h[cursor..];
    }
  }

  method FindRunEnd(h: text, ws: seq<Word>, i: nat) returns (next: nat)
    requires i < |ws| && InOrder(ws, 0, |h|)
    ensures next == RunEnd(h, ws, i)
  {
    hide InOrder, AreAdjacent;
    next := i + 1;
    while next < |ws| && AreAdjacent(h, ws, next)
      invariant i < next <= |ws| && RunEnd(h, ws, next - 1) == RunEnd(h, ws, i)
      decreases |ws| - next
    {
      next := next + 1;
    }
  }

  /** One run of adjacent words, charset by charset. */
  method DecodeRun(charsets: Charsets, h: text, ws: seq<Word>, i: nat, n: nat) returns (result: text)
    requires i <= n <= |ws| && InOrder(ws, 0, |h|)
    ensures result == RunText(charsets, h, ws, i, n)
  {
    hide InOrder, GroupText, SameName;
    result := [];
    var j := i;
    while j < n
      invariant i <= j <= n
      invariant result + RunText(charsets, h, ws, j, n) == RunText(charsets, h, ws, i, n)
    {
      var k := j + 1;
      while k < n && SameName(ws[k].charset, ws[j].charset)
        invariant j < k <= n && CharsetEnd(ws, j, k, n) == CharsetEnd(ws, j, j + 1, n)
      {
        k := k + 1;
      }
      SliceInOrder(ws, 0, |h|, j, k);
      var group := DecodeGroup(charsets, h, ws[j..k]);
      ConcatAssoc(result, group, RunText(charsets, h, ws, k, n));
      result := result + group;
      j := k;
    }
    assert result + [] == result;
  }

  lemma WordBounds(ws: seq<Word>, length: nat, i: nat)
    requires InOrder(ws, 0, length) && i < |ws|
    ensures ws[i].start < ws[i].end <= length && (i + 1 < |ws| ==> ws[i].end <= ws[i + 1].start)
    ensures i > 0 ==> ws[i - 1].end <= ws[i].start
  {
  }
}
