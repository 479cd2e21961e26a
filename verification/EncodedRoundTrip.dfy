/** What the writer makes of a header text, the reader turns back into it. */
module EncodedRoundTrip {
  import opened Bytes
  import opened EncodedWords
  import opened HeaderFolding
  import opened HeaderReading
  import Utf8
  import Base64

  const BYTE_ORDER_MARK: codeunit := 0xfeff
  const REPLACEMENT: codeunit := 0xfffd

  /** `TextDecoder` drops one byte order mark at the front. */
  function WithoutMark(s: text): text {
    if s != [] && s[0] == BYTE_ORDER_MARK then s[1..] else s
  }

  /** `TextDecoder` on UTF-8 that is valid. */
  ghost predicate DecodesUtf8(charsets: Charsets) {
    charsets.isKnown(UTF8_NAME)
    && forall s: text :: WellFormed(s) ==> charsets.decode(UTF8_NAME, Utf8.Encode(s)) == Some(WithoutMark(s))
  }

  function CodedOf(chunk: text): Coded {
    Coded(UTF8_NAME, 0x42, Base64.Encode(Utf8.Encode(chunk)))
  }

  function CodedAll(chunks: seq<text>): (r: seq<Coded>)
    ensures |r| == |chunks| && forall k | 0 <= k < |r| :: r[k] == CodedOf(chunks[k])
  {
    if chunks == [] then [] else [CodedOf(chunks[0])] + CodedAll(chunks[1..])
  }

  function Folds(n: nat): (r: seq<text>)
    ensures |r| == n && forall k | 0 <= k < n :: r[k] == FOLD
  {
    seq<text>(n, _ => FOLD)
  }

  lemma WordIsRaw(chunk: text)
    ensures Raw(CodedOf(chunk)) == WordText(chunk) && IsCoded(CodedOf(chunk))
  {
    hide Base64.Encode, Utf8.Encode;
    var body := Base64.Encode(Utf8.Encode(chunk));
    Base64.EncodedChars(Utf8.Encode(chunk));
    assert OPENING == [EQUALS, QUESTION] + UTF8_NAME + [QUESTION, 0x42, QUESTION];
  }

  /** A written header is one run, folds between its words. */
  lemma {:induction false} WordsAreRun(chunks: seq<text>)
    requires chunks != []
    ensures RunText'(CodedAll(chunks), Folds(|chunks| - 1)) == WordsText(chunks)
    decreases |chunks|
  {
    hide WordText, Raw, CodedOf;
    var words, folds := CodedAll(chunks), Folds(|chunks| - 1);
    WordIsRaw(chunks[0]);
    RunSplit(words, folds);
    if |chunks| > 1 {
      WordsAreRun(chunks[1..]);
      assert words[1..] == CodedAll(chunks[1..]) && folds[1..] == Folds(|chunks| - 2);
      ConcatAssoc(WordText(chunks[0]), FOLD, WordsText(chunks[1..]));
    }
  }

  // ----- the bytes

  lemma {:induction false} Untrimmed(s: text)
    requires forall i | 0 <= i < |s| :: !IsWhiteSpace(s[i])
    ensures TrimStart(s) == s && TrimEnd(s) == s
  {
  }

  lemma OctetsOfChunk(chunk: text)
    ensures OctetsOf(CodedOf(chunk)) == Some(Utf8.Encode(chunk))
  {
    hide Utf8.Encode;
    var bs := Utf8.Encode(chunk);
    Base64.EncodedChars(bs);
    Untrimmed(Base64.Encode(bs));
    Base64.DecodeEncode(bs);
  }

  /** All their octets are the UTF-8 of the whole text. */
  lemma {:induction false} OctetsOfChunks(chunks: seq<text>)
    requires AreChunks(chunks)
    ensures AllOctets(CodedAll(chunks)) == Some(Utf8.Encode(Flatten(chunks))) && WellFormed(Flatten(chunks))
    decreases |chunks|
  {
    hide Utf8.Encode, OctetsOf, CodedOf, WellFormed;
    if chunks == [] {
      EncodeNothing();
    } else {
      assert CodedAll(chunks)[1..] == CodedAll(chunks[1..]);
      OctetsOfChunk(chunks[0]);
      assert IsChunk(chunks[0]);
      assert forall k | 0 <= k < |chunks[1..]| :: IsChunk(chunks[k + 1]) && chunks[1..][k] == chunks[k + 1];
      OctetsOfChunks(chunks[1..]);
      WellFormedConcat(chunks[0], Flatten(chunks[1..]));
    }
  }

  lemma EncodeNothing()
    ensures Utf8.Encode([]) == [] && WellFormed([])
  {
  }

  // ----- the round trip

  lemma OneGroup(words: seq<Coded>)
    requires words != [] && forall k | 0 <= k < |words| :: words[k].charset == UTF8_NAME
    ensures IsGrouping(words, [words])
  {
    FlattenOne(words);
    assert IsGroup(words);
  }

  lemma OneHeader(run: Run)
    requires IsRun(run) && run.plain == []
    ensures HeaderOf([run], []) == RunText'(run.words, run.folds)
    ensures HasNoOther(HeaderOf([run], []), 0, [run], [])
  {
    hide IsRun, RunText', WordAt;
    RunHasWords(run);
    var inside := RunText'(run.words, run.folds);
    assert [run][1..] == [];
    assert HeaderOf([], []) == [];
    assert Span(run) == [] + inside == inside;
    assert HeaderOf([run], []) == inside + [] == inside;
  }

  lemma ChunksAreRun(chunks: seq<text>)
    requires chunks != []
    ensures IsRun(Run([], CodedAll(chunks), Folds(|chunks| - 1), [CodedAll(chunks)]))
  {
    hide Raw, CodedOf, IsCoded, IsGrouping;
    var words := CodedAll(chunks);
    forall k | 0 <= k < |words|
      ensures IsCoded(words[k]) && words[k].charset == UTF8_NAME
    {
      WordIsRaw(chunks[k]);
      CodedCharset(chunks[k]);
    }
    assert IsFoldingSpace(FOLD);
    OneGroup(words);
  }

  lemma CodedCharset(chunk: text)
    ensures CodedOf(chunk).charset == UTF8_NAME
  {
  }

  lemma OneRun(chunks: seq<text>)
    requires chunks != []
    ensures var run := Run([], CodedAll(chunks), Folds(|chunks| - 1), [CodedAll(chunks)]);
            IsRun(run) && HeaderOf([run], []) == WordsText(chunks) && HasNoOther(HeaderOf([run], []), 0, [run], [])
  {
    hide RunText', WordsText, IsRun, HeaderOf, HasNoOther, CodedAll;
    ChunksAreRun(chunks);
    OneHeader(Run([], CodedAll(chunks), Folds(|chunks| - 1), [CodedAll(chunks)]));
    WordsAreRun(chunks);
  }

  lemma OneMeaning(charsets: Charsets, run: Run, words: seq<Coded>)
    requires IsRun(run) && run.plain == [] && run.groups == [words]
    ensures words != [] && MeaningOfRuns(charsets, [run], []) == MeaningOf(charsets, words)
  {
    hide MeaningOf;
    assert IsGroup(run.groups[0]);
    assert [run][1..] == [] && [words][1..] == [];
    assert MeaningOfRuns(charsets, [], []) == [] && MeaningOfGroups(charsets, []) == [];
    var meaning := MeaningOf(charsets, words);
    assert [] + (meaning + []) + [] == meaning;
  }

  /** Reading the encoded-words of a well-formed text gives the text back, but for a byte order mark at its front. */
  lemma WellFormedRoundTrip(charsets: Charsets, value: text)
    requires DecodesUtf8(charsets) && WellFormed(value)
    ensures DecodeHeader(charsets, WordsText(Chunks([], value))) == WithoutMark(value)
  {
    hide Utf8.Encode, WordsText, DecodeHeader, HeaderOf, HasNoOther, MeaningOfRuns, AllOctets, IsRun, WellFormed, AreChunks, WithoutMark;
    var chunks := Chunks([], value);
    EmptyChunk();
    ChunksSplit([], value);
    assert [] + value == value;
    var words := CodedAll(chunks);
    var run := Run([], words, Folds(|chunks| - 1), [words]);
    OneRun(chunks);
    HeaderDecodes(charsets, [run], []);
    OneMeaning(charsets, run, words);
    OctetsOfChunks(chunks);
  }

  // ----- lone surrogates

  predicate IsSurrogate(u: codeunit) {
    Utf8.IsHigh(u) || Utf8.IsLow(u)
  }

  /** Each lone surrogate as U+FFFD, which is what `TextEncoder` writes for it. */
  function Repaired(s: text): (r: text)
    ensures |r| == |s|
    decreases |s|
  {
    if s == [] then []
    else
      var n := Utf8.FirstPoint(s).1;
      RepairedFirst(s) + Repaired(s[n..])
  }

  function RepairedFirst(s: text): text
    requires s != []
  {
    var n := Utf8.FirstPoint(s).1;
    if n == 1 && IsSurrogate(s[0]) then [REPLACEMENT] else s[..n]
  }

  lemma OnePoint(s: text)
    requires s != [] && Utf8.FirstPoint(s).1 == |s|
    ensures Utf8.Encode(s) == Utf8.EncodePoint(Utf8.FirstPoint(s).0) && Repaired(s) == RepairedFirst(s)
    ensures WellFormed(s) <==> |s| == 2 || !IsSurrogate(s[0])
  {
    hide Utf8.EncodePoint, Utf8.FirstPoint, RepairedFirst;
    assert s[|s|..] == [];
    var first := Utf8.EncodePoint(Utf8.FirstPoint(s).0);
    assert first + [] == first && RepairedFirst(s) + [] == RepairedFirst(s);
  }

  /** The first character alone, as it is and repaired. */
  lemma FirstPoints(s: text)
    requires s != []
    ensures var n, first := Utf8.FirstPoint(s).1, RepairedFirst(s);
            && |first| == n && Utf8.FirstPoint(first) == Utf8.FirstPoint(s) == Utf8.FirstPoint(s[..n])
            && RepairedFirst(s[..n]) == first
            && (n == 2 || !IsSurrogate(first[0])) && (first == s[..n] <==> n == 2 || !IsSurrogate(s[0]))
  {
  }

  lemma EncodeFirst(s: text)
    requires s != []
    ensures Utf8.Encode(s) == Utf8.EncodePoint(Utf8.FirstPoint(s).0) + Utf8.Encode(s[Utf8.FirstPoint(s).1..])
  {
    hide Utf8.EncodePoint, Utf8.FirstPoint;
  }

  lemma FirstEnds(s: text)
    requires s != []
    ensures var n := Utf8.FirstPoint(s).1; n < |s| ==> !Utf8.IsHigh(s[n - 1]) || !Utf8.IsLow(s[n])
    ensures WellFormed(s) ==> Utf8.FirstPoint(s).1 == 2 || !IsSurrogate(s[0])
  {
    hide Utf8.Encode;
  }

  lemma FirstIsWell(s: text)
    requires s != []
    ensures var n, first := Utf8.FirstPoint(s).1, RepairedFirst(s);
            && |first| == n && WellFormed(first) && Utf8.Encode(first) == Utf8.Encode(s[..n])
            && Repaired(s[..n]) == first && Utf8.FirstPoint(first).1 == n
            && (first == s[..n] <==> WellFormed(s[..n])) && (first != s[..n] ==> !WellFormed(s))
            && Utf8.Encode(s) == Utf8.Encode(s[..n]) + Utf8.Encode(s[n..])
            && (n < |s| ==> !Utf8.IsHigh(s[n - 1]) || !Utf8.IsLow(s[n]))
  {
    hide Utf8.EncodePoint, Utf8.Encode, Utf8.FirstPoint, RepairedFirst, Repaired, WellFormed, IsSurrogate, Utf8.IsHigh, Utf8.IsLow;
    var n := Utf8.FirstPoint(s).1;
    FirstPoints(s);
    OnePoint(s[..n]);
    OnePoint(RepairedFirst(s));
    EncodeFirst(s);
    FirstEnds(s);
    assert s[..n][0] == s[0];
  }

  lemma {:induction false} RepairedIsWell(s: text)
    ensures WellFormed(Repaired(s)) && Utf8.Encode(Repaired(s)) == Utf8.Encode(s)
    ensures WellFormed(s) <==> Repaired(s) == s
    decreases |s|
  {
    hide Utf8.Encode, RepairedFirst;
    if s == [] {
      EncodeNothing();
    } else {
      var n := Utf8.FirstPoint(s).1;
      FirstIsWell(s);
      RepairedIsWell(s[n..]);
      WellFormedConcat(RepairedFirst(s), Repaired(s[n..]));
      assert s == s[..n] + s[n..];
      assert Repaired(s)[..n] == RepairedFirst(s) && Repaired(s)[n..] == Repaired(s[n..]);
    }
  }

  /** No surrogate pair lies across the border. */
  predicate Apart(a: text, b: text) {
    a == [] || b == [] || !Utf8.IsHigh(a[|a| - 1]) || !Utf8.IsLow(b[0])
  }

  lemma {:induction false} RepairedConcat(a: text, b: text)
    requires Apart(a, b)
    ensures Repaired(a + b) == Repaired(a) + Repaired(b)
    decreases |a|
  {
    if a == [] {
      assert a + b == b;
    } else if b == [] {
      assert a + b == a;
    } else {
      var n := Utf8.FirstPoint(a).1;
      Utf8.FirstOfBoth(a, b);
      assert (a + b)[n..] == a[n..] + b && (a + b)[..n] == a[..n];
      RepairedConcat(a[n..], b);
      ConcatAssoc(RepairedFirst(a), Repaired(a[n..]), Repaired(b));
    }
  }

  /** A text and its repaired form are written alike. */
  lemma {:induction false} WordsOfRepaired(chunk: text, rest: text)
    requires Apart(chunk, rest)
    ensures WordsText(Chunks(Repaired(chunk), Repaired(rest))) == WordsText(Chunks(chunk, rest))
    decreases |rest|
  {
    hide Utf8.Encode, RepairedFirst, Repaired, WordsText, Chunks, WellFormed;
    RepairedIsWell(chunk);
    if rest == [] {
      RepairedNothing();
      ChunksEnd(chunk);
      ChunksEnd(Repaired(chunk));
    } else {
      var n := Utf8.FirstPoint(rest).1;
      var ch, later := rest[..n], rest[n..];
      FirstIsWell(rest);
      RepairedStep(rest);
      RepairedConcat(chunk, ch);
      RepairedIsWell(chunk + ch);
      Utf8.EncodeConcat(chunk, ch);
      assert (chunk + ch)[|chunk + ch| - 1] == rest[n - 1];
      assert ch[n - 1] == rest[n - 1];
      WordsOfRepaired(ch, later);
      WordsOfRepaired(chunk + ch, later);
      ChunksNext(chunk, rest);
      ChunksNext(Repaired(chunk), Repaired(rest));
    }
  }

  lemma RepairedNothing()
    ensures Repaired([]) == []
  {
  }

  lemma RepairedStep(rest: text)
    requires rest != []
    ensures var n, r := Utf8.FirstPoint(rest).1, Repaired(rest);
            && r != [] && Utf8.FirstPoint(r).1 == n
            && r[..n] == Repaired(rest[..n]) && r[n..] == Repaired(rest[n..])
  {
    hide Utf8.Encode, RepairedFirst;
    FirstIsWell(rest);
    RepairedIsWell(rest[Utf8.FirstPoint(rest).1..]);
    var first, later := RepairedFirst(rest), Repaired(rest[Utf8.FirstPoint(rest).1..]);
    assert Repaired(rest) == first + later;
    WellFormedEnd(first);
    if later != [] {
      Utf8.FirstOfBoth(first, later);
    } else {
      assert first + later == first;
    }
  }

  lemma ChunksEnd(chunk: text)
    ensures WordsText(Chunks(chunk, [])) == OPENING + Base64.Encode(Utf8.Encode(chunk)) + CLOSING
  {
    hide Base64.Encode, Utf8.Encode;
  }

  lemma ChunksNext(chunk: text, rest: text)
    requires rest != []
    ensures var n := Utf8.FirstPoint(rest).1;
            WordsText(Chunks(chunk, rest))
            == if |Utf8.Encode(chunk + rest[..n])| > ENCODED_WORD_BYTES
               then OPENING + Base64.Encode(Utf8.Encode(chunk)) + CLOSING + FOLD + WordsText(Chunks(rest[..n], rest[n..]))
               else WordsText(Chunks(chunk + rest[..n], rest[n..]))
  {
    hide Base64.Encode, Utf8.Encode;
    var n := Utf8.FirstPoint(rest).1;
    assert ([chunk] + Chunks(rest[..n], rest[n..]))[1..] == Chunks(rest[..n], rest[n..]);
  }

  /**
   For every string of code units, reading the encoded-words gives the text back with its lone
   surrogates as U+FFFD and without a byte order mark at its front: so the text itself if and only if
   it has neither.
   */
  lemma EncodedWordsRoundTrip(charsets: Charsets, value: text)
    requires DecodesUtf8(charsets)
    ensures DecodeHeader(charsets, WordsText(Chunks([], value))) == WithoutMark(Repaired(value))
    ensures DecodeHeader(charsets, WordsText(Chunks([], value))) == value
       <==> WellFormed(value) && (value == [] || value[0] != BYTE_ORDER_MARK)
  {
    hide Utf8.Encode, WordsText, Chunks, DecodeHeader, DecodesUtf8;
    RepairedNothing();
    RepairedIsWell(value);
    WordsOfRepaired([], value);
    WellFormedRoundTrip(charsets, Repaired(value));
  }

  /** What `encodeHeaderText` makes of a text that is not printable ASCII reads back, and folding keeps one that is. */
  lemma HeaderTextRoundTrip(charsets: Charsets, value: text)
    requires DecodesUtf8(charsets)
    ensures !IsPrintableAscii(value) ==> DecodeHeader(charsets, EncodeHeaderText(value)) == WithoutMark(Repaired(value))
    ensures IsPrintableAscii(value) ==> (Unfolded(EncodeHeaderText(value)) == value <==> KeepsSpaces(value))
  {
    hide DecodeHeader, WordsText, Chunks, DecodesUtf8, FoldAscii, KeepsSpaces;
    EncodedWordsRoundTrip(charsets, value);
    if IsPrintableAscii(value) {
      FoldingKeepsText(value);
    }
  }
}
