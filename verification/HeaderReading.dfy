/**
 `decodeRfc2047` of `packages/imap/src/rfc2047.ts` on any header: plain stretches stay as they are,
 runs of encoded-words become their text, white space between the words of a run goes, and words that
 cannot be decoded stay as they are (section 6.2 of RFC 2047).
 */
module HeaderReading {
  import opened Bytes
  import opened EncodedWords
  import Base64

  // ----- encoded-words

  datatype Coded = Coded(charset: text, letter: codeunit, encoded: text)

  /** Section 2: no question mark but those that delimit, B or Q in either case. */
  predicate IsCoded(w: Coded) {
    w.charset != [] && QUESTION !in w.charset && QUESTION !in w.encoded && w.letter in {0x42, 0x62, 0x51, 0x71}
  }

  function Raw(w: Coded): text {
    [EQUALS, QUESTION] + w.charset + [QUESTION, w.letter, QUESTION] + w.encoded + [QUESTION, EQUALS]
  }

  function WordFor(p: nat, w: Coded): Word {
    Word(p, p + |Raw(w)|, w.charset, w.letter in {0x42, 0x62}, w.encoded)
  }

  lemma {:induction false} QuestionAt(h: text, p: nat, q: nat)
    requires p <= q <= |h| && (forall i | p <= i < q :: h[i] != QUESTION) && (q < |h| ==> h[q] == QUESTION)
    ensures NextQuestion(h, p) == q
    decreases q - p
  {
    if p < q {
      QuestionAt(h, p + 1, q);
    }
  }

  lemma RawLayout(h: text, p: nat, w: Coded)
    requires p + |Raw(w)| <= |h| && h[p..p + |Raw(w)|] == Raw(w)
    ensures var q := p + 2 + |w.charset|;
            var e := q + 3 + |w.encoded|;
            && h[p] == EQUALS && h[p + 1] == QUESTION && h[p + 2..q] == w.charset && h[q] == QUESTION
            && h[q + 1] == w.letter && h[q + 2] == QUESTION && h[q + 3..e] == w.encoded
            && h[e] == QUESTION && h[e + 1] == EQUALS && e + 2 == p + |Raw(w)|
  {
    var raw := Raw(w);
    var q := 2 + |w.charset|;
    var e := q + 3 + |w.encoded|;
    RawOwn(w);
    SliceOfSlice(h, p, p + |raw|, p + 2, p + q);
    SliceOfSlice(h, p, p + |raw|, p + q + 3, p + e);
    assert h[p] == raw[0] && h[p + 1] == raw[1] && h[p + q] == raw[q] && h[p + q + 1] == raw[q + 1] && h[p + q + 2] == raw[q + 2];
    assert h[p + e] == raw[e] && h[p + e + 1] == raw[e + 1];
  }

  lemma RawOwn(w: Coded)
    ensures var raw, q, e := Raw(w), 2 + |w.charset|, 5 + |w.charset| + |w.encoded|;
            && |raw| == e + 2 && raw[0] == EQUALS && raw[1] == QUESTION && raw[2..q] == w.charset
            && raw[q] == QUESTION && raw[q + 1] == w.letter && raw[q + 2] == QUESTION && raw[q + 3..e] == w.encoded
            && raw[e] == QUESTION && raw[e + 1] == EQUALS
  {
  }

  lemma WordIsThere(h: text, p: nat, w: Coded)
    requires IsCoded(w) && p + |Raw(w)| <= |h| && h[p..p + |Raw(w)|] == Raw(w)
    ensures WordAt(h, p) == Some(WordFor(p, w))
  {
    hide NextQuestion;
    RawLayout(h, p, w);
    var q := p + 2 + |w.charset|;
    var e := q + 3 + |w.encoded|;
    assert forall i | p + 2 <= i < q :: h[i] == h[p + 2..q][i - p - 2];
    assert forall i | q + 3 <= i < e :: h[i] == h[q + 3..e][i - q - 3];
    QuestionAt(h, p + 2, q);
    QuestionAt(h, q + 3, e);
  }

  lemma RawParts(h: text, p: nat, q: nat, e: nat)
    requires p + 2 <= q && q + 3 <= e && e + 2 <= |h|
    requires h[p] == EQUALS && h[p + 1] == QUESTION && h[q] == QUESTION && h[q + 2] == QUESTION
    requires h[e] == QUESTION && h[e + 1] == EQUALS
    ensures h[p..e + 2] == Raw(Coded(h[p + 2..q], h[q + 1], h[q + 3..e]))
  {
    assert h[p..e + 2] == h[p..p + 2] + h[p + 2..q] + h[q..q + 3] + h[q + 3..e] + h[e..e + 2];
    assert h[p..p + 2] == [EQUALS, QUESTION] && h[q..q + 3] == [QUESTION, h[q + 1], QUESTION] && h[e..e + 2] == [QUESTION, EQUALS];
  }

  lemma FoundIsWord(h: text, p: nat) returns (w: Coded)
    requires p <= |h| && WordAt(h, p).Some?
    ensures IsCoded(w) && p + |Raw(w)| <= |h| && h[p..p + |Raw(w)|] == Raw(w)
  {
    hide NextQuestion, Raw;
    var q := NextQuestion(h, p + 2);
    var e := NextQuestion(h, q + 3);
    w := Coded(h[p + 2..q], h[q + 1], h[q + 3..e]);
    RawParts(h, p, q, e);
    assert |h[p..e + 2]| == e + 2 - p;
  }

  /** The search finds a word at a position if and only if one stands there. */
  lemma WordsExactly(h: text, p: nat)
    requires p <= |h|
    ensures WordAt(h, p).Some? <==> exists w :: IsCoded(w) && p + |Raw(w)| <= |h| && h[p..p + |Raw(w)|] == Raw(w)
  {
    if WordAt(h, p).Some? {
      var w := FoundIsWord(h, p);
    }
    forall w | IsCoded(w) && p + |Raw(w)| <= |h| && h[p..p + |Raw(w)|] == Raw(w)
      ensures WordAt(h, p).Some?
    {
      WordIsThere(h, p, w);
    }
  }

  /** No word begins between the two positions. */
  ghost predicate IsPlain(h: text, from: nat, end: nat)
    requires end <= |h|
  {
    forall p | from <= p < end :: WordAt(h, p) == None
  }

  lemma {:induction false} PlainIsSkipped(h: text, p: nat, q: nat)
    requires p <= q <= |h| && IsPlain(h, p, q)
    ensures WordsFrom(h, p) == WordsFrom(h, q)
    decreases q - p
  {
    hide WordAt;
    if p < q {
      PlainIsSkipped(h, p + 1, q);
    }
  }

  /** A header without an encoded-word decodes to itself. */
  lemma PlainDecodes(charsets: Charsets, h: text)
    requires IsPlain(h, 0, |h|)
    ensures DecodeHeader(charsets, h) == h
  {
    hide WordAt;
    PlainIsSkipped(h, 0, |h|);
    assert h[0..] == h;
  }

  // ----- Q

  /** Section 4.2 of RFC 2047, for one octet: itself, `_` for a space, or its two digits in either case. */
  predicate IsQ(b: byte, s: text) {
    || (s == [b] && 0x21 <= b <= 0x7e && b !in {EQUALS, QUESTION, UNDERSCORE})
    || (s == [UNDERSCORE] && b == SPACE)
    || (|s| == 3 && s[0] == EQUALS && IsDigitOf(b / 16, s[1]) && IsDigitOf(b % 16, s[2]))
  }

  predicate IsDigitOf(n: nat, u: codeunit) {
    n < 16 && (u == Ascii("0123456789ABCDEF")[n] || u == Ascii("0123456789abcdef")[n])
  }

  lemma DigitIs(n: nat, u: codeunit)
    requires IsDigitOf(n, u)
    ensures HexOf(u) == Some(n)
  {
    assert Ascii("0123456789ABCDEF") == [0x30, 0x31, 0x32, 0x33, 0x34, 0x35, 0x36, 0x37, 0x38, 0x39, 0x41, 0x42, 0x43, 0x44, 0x45, 0x46];
    assert Ascii("0123456789abcdef") == [0x30, 0x31, 0x32, 0x33, 0x34, 0x35, 0x36, 0x37, 0x38, 0x39, 0x61, 0x62, 0x63, 0x64, 0x65, 0x66];
  }

  lemma OneQ(b: byte, s: text, rest: text)
    requires IsQ(b, s)
    ensures s + rest != [] && QStep(s + rest) == (b, |s|) && (s + rest)[|s|..] == rest
  {
    hide HexOf, IsDigitOf;
    if |s| == 3 && s[0] == EQUALS {
      DigitIs(b / 16, s[1]);
      DigitIs(b % 16, s[2]);
    }
  }

  /** Decoding undoes every encoding of section 4.2. */
  lemma {:induction false} QUndone(bs: bytes, pieces: seq<text>)
    requires |pieces| == |bs| && forall k | 0 <= k < |bs| :: IsQ(bs[k], pieces[k])
    ensures DecodeQ(Flatten(pieces)) == bs
    decreases |bs|
  {
    hide QStep, IsQ;
    if bs != [] {
      OneQ(bs[0], pieces[0], Flatten(pieces[1..]));
      QUndone(bs[1..], pieces[1..]);
      assert [bs[0]] + bs[1..] == bs;
    }
  }

  // ----- headers

  /**
   A plain stretch, then a run of words with a fold between each and the next. The groups are the
   run's words again, those of one charset together.
   */
  datatype Run = Run(plain: text, words: seq<Coded>, folds: seq<text>, groups: seq<seq<Coded>>)

  function RunText'(words: seq<Coded>, folds: seq<text>): text
    requires words != [] && |folds| == |words| - 1
    decreases |words|
  {
    if |words| == 1 then Raw(words[0]) else Raw(words[0]) + (folds[0] + RunText'(words[1..], folds[1..]))
  }

  /** One charset within a group, another one in the next. */
  predicate IsGrouping(words: seq<Coded>, groups: seq<seq<Coded>>) {
    && Flatten(groups) == words
    && (forall group | group in groups :: IsGroup(group))
    && forall k | 0 < k < |groups| :: DiffersAt(groups, k)
  }

  predicate DiffersAt(groups: seq<seq<Coded>>, k: nat)
    requires 0 < k < |groups|
  {
    groups[k] != [] && groups[k - 1] != [] && !SameName(groups[k][0].charset, groups[k - 1][0].charset)
  }

  predicate IsGroup(group: seq<Coded>) {
    group != [] && forall k | 0 < k < |group| :: SameName(group[k].charset, group[0].charset)
  }

  predicate IsRun(run: Run) {
    && run.words != [] && |run.folds| == |run.words| - 1
    && (forall k | 0 <= k < |run.words| :: IsCoded(run.words[k]))
    && (forall k | 0 <= k < |run.folds| :: IsFoldingSpace(run.folds[k]))
    && IsGrouping(run.words, run.groups)
  }

  /** More than white space, or nothing at all, between two runs. */
  predicate AreRuns(runs: seq<Run>) {
    && (forall run | run in runs :: IsRun(run))
    && forall k | 0 < k < |runs| :: !IsFoldingSpace(runs[k].plain)
  }

  function Span(run: Run): text
    requires IsRun(run)
  {
    run.plain + RunText'(run.words, run.folds)
  }

  function HeaderOf(runs: seq<Run>, tail: text): text
    requires forall run | run in runs :: IsRun(run)
  {
    if runs == [] then tail else Span(runs[0]) + HeaderOf(runs[1..], tail)
  }

  /** What a word's octets are: base64 around which white space may stand, or Q. */
  function OctetsOf(w: Coded): Option<bytes> {
    if w.letter in {0x42, 0x62} then Base64.Decode(TrimEnd(TrimStart(w.encoded))) else Some(DecodeQ(w.encoded))
  }

  function AllOctets(ws: seq<Coded>): Option<bytes> {
    if ws == [] then Some([])
    else
      match OctetsOf(ws[0])
      case None => None
      case Some(bs) => Prepended(bs, AllOctets(ws[1..]))
  }

  function AllRaw(ws: seq<Coded>): text {
    if ws == [] then [] else Raw(ws[0]) + AllRaw(ws[1..])
  }

  /** The octets of a group are one text; where the charset, a word or the octets are not good, the words stay. */
  function MeaningOf(charsets: Charsets, group: seq<Coded>): text
    requires group != []
  {
    if !charsets.isKnown(group[0].charset) || AllOctets(group) == None then AllRaw(group)
    else
      match charsets.decode(group[0].charset, AllOctets(group).value)
      case Some(t) => t
      case None => AllRaw(group)
  }

  function MeaningOfGroups(charsets: Charsets, groups: seq<seq<Coded>>): text
    requires forall group | group in groups :: IsGroup(group)
  {
    if groups == [] then [] else assert IsGroup(groups[0]); MeaningOf(charsets, groups[0]) + MeaningOfGroups(charsets, groups[1..])
  }

  function MeaningOfRuns(charsets: Charsets, runs: seq<Run>, tail: text): text
    requires forall run | run in runs :: IsRun(run)
  {
    if runs == [] then tail
    else
      assert IsRun(runs[0]);
      runs[0].plain + MeaningOfGroups(charsets, runs[0].groups) + MeaningOfRuns(charsets, runs[1..], tail)
  }

  /** No word begins in a plain stretch or in the tail; `p` is where the runs begin. */
  ghost predicate HasNoOther(h: text, p: nat, runs: seq<Run>, tail: text)
    requires forall run | run in runs :: IsRun(run)
    requires p + |HeaderOf(runs, tail)| == |h|
    decreases |runs|
  {
    if runs == [] then IsPlain(h, p, |h|)
    else IsPlain(h, p, p + |runs[0].plain|) && HasNoOther(h, p + |Span(runs[0])|, runs[1..], tail)
  }

  // ----- reading finds the words

  /** The words of a run that begins at `p`. */
  function WordsOfRun(p: nat, words: seq<Coded>, folds: seq<text>): seq<Word>
    requires words != [] && |folds| == |words| - 1
    decreases |words|
  {
    if |words| == 1 then [WordFor(p, words[0])]
    else [WordFor(p, words[0])] + WordsOfRun(p + |Raw(words[0])| + |folds[0]|, words[1..], folds[1..])
  }

  function WordsOfRuns(p: nat, runs: seq<Run>): seq<Word>
    requires forall run | run in runs :: IsRun(run)
    decreases |runs|
  {
    if runs == [] then []
    else
      assert IsRun(runs[0]);
      WordsOfRun(p + |runs[0].plain|, runs[0].words, runs[0].folds) + WordsOfRuns(p + |Span(runs[0])|, runs[1..])
  }

  lemma FoldIsPlain(h: text, p: nat, q: nat)
    requires p <= q <= |h| && IsFoldingSpace(h[p..q])
    ensures IsPlain(h, p, q)
  {
    forall i | p <= i < q
      ensures WordAt(h, i) == None
    {
      assert h[i] == h[p..q][i - p];
    }
  }

  lemma FirstFound(h: text, p: nat, w: Coded)
    requires IsCoded(w) && p + |Raw(w)| <= |h| && h[p..p + |Raw(w)|] == Raw(w)
    ensures WordsFrom(h, p) == [WordFor(p, w)] + WordsFrom(h, p + |Raw(w)|)
  {
    hide WordAt;
    WordIsThere(h, p, w);
  }

  lemma RunSplit(words: seq<Coded>, folds: seq<text>)
    requires words != [] && |folds| == |words| - 1
    ensures RunText'(words, folds)
         == if |words| == 1 then Raw(words[0]) else Raw(words[0]) + (folds[0] + RunText'(words[1..], folds[1..]))
  {
    hide Raw;
  }

  lemma ThreeParts(a: text, b: text, c: text)
    ensures var whole := a + (b + c);
            whole[..|a|] == a && whole[|a|..|a| + |b|] == b && whole[|a| + |b|..] == c && |whole| == |a| + |b| + |c|
  {
  }

  lemma RunLayout(h: text, p: nat, words: seq<Coded>, folds: seq<text>)
    requires words != [] && |folds| == |words| - 1
    requires p + |RunText'(words, folds)| <= |h| && h[p..p + |RunText'(words, folds)|] == RunText'(words, folds)
    ensures var n := |Raw(words[0])|;
            && p + n <= |h| && h[p..p + n] == Raw(words[0]) && (|words| == 1 ==> |RunText'(words, folds)| == n)
            && (|words| > 1 ==>
                  var m := n + |folds[0]|;
                  && p + m <= |h| && h[p + n..p + m] == folds[0]
                  && m + |RunText'(words[1..], folds[1..])| == |RunText'(words, folds)|
                  && h[p + m..p + |RunText'(words, folds)|] == RunText'(words[1..], folds[1..]))
  {
    hide Raw, RunText';
    var whole := RunText'(words, folds);
    RunSplit(words, folds);
    if |words| > 1 {
      var n := |Raw(words[0])|;
      var m := n + |folds[0]|;
      ThreeParts(Raw(words[0]), folds[0], RunText'(words[1..], folds[1..]));
      SliceOfSlice(h, p, p + |whole|, p, p + n);
      SliceOfSlice(h, p, p + |whole|, p + n, p + m);
      SliceOfSlice(h, p, p + |whole|, p + m, p + |whole|);
    }
  }

  lemma {:induction false} RunFound(h: text, p: nat, words: seq<Coded>, folds: seq<text>)
    requires words != [] && |folds| == |words| - 1
    requires (forall k | 0 <= k < |words| :: IsCoded(words[k])) && forall k | 0 <= k < |folds| :: IsFoldingSpace(folds[k])
    requires p + |RunText'(words, folds)| <= |h| && h[p..p + |RunText'(words, folds)|] == RunText'(words, folds)
    ensures WordsFrom(h, p) == WordsOfRun(p, words, folds) + WordsFrom(h, p + |RunText'(words, folds)|)
    decreases |words|
  {
    hide Raw, WordsFrom, IsPlain, IsFoldingSpace, IsCoded;
    RunLayout(h, p, words, folds);
    var n := |Raw(words[0])|;
    FirstFound(h, p, words[0]);
    if |words| > 1 {
      var m := n + |folds[0]|;
      FoldIsPlain(h, p + n, p + m);
      PlainIsSkipped(h, p + n, p + m);
      RunFound(h, p + m, words[1..], folds[1..]);
      ConcatAssoc([WordFor(p, words[0])], WordsOfRun(p + m, words[1..], folds[1..]),
                  WordsFrom(h, p + |RunText'(words, folds)|));
    }
  }

  lemma SpanLayout(h: text, p: nat, runs: seq<Run>, tail: text)
    requires runs != [] && (forall run | run in runs :: IsRun(run)) && p <= |h| && h[p..] == HeaderOf(runs, tail)
    ensures var run := runs[0];
            var a, b := p + |run.plain|, p + |Span(run)|;
            && IsRun(run) && a <= b <= |h| && b - a == |RunText'(run.words, run.folds)|
            && h[p..a] == run.plain && h[a..b] == RunText'(run.words, run.folds) && h[b..] == HeaderOf(runs[1..], tail)
  {
    hide IsRun, RunText';
    var run := runs[0];
    assert run in runs;
    RunHasWords(run);
    var inside := RunText'(run.words, run.folds);
    var later := HeaderOf(runs[1..], tail);
    var a, b := p + |run.plain|, p + |Span(run)|;
    assert h[p..] == run.plain + inside + later;
    SliceOfSuffix(h, p, p, a);
    SliceOfSuffix(h, p, a, b);
    SliceOfSuffix(h, p, b, |h|);
    assert (run.plain + inside + later)[..|run.plain|] == run.plain;
    assert (run.plain + inside + later)[|run.plain|..|run.plain + inside|] == inside;
    assert (run.plain + inside + later)[|run.plain + inside|..] == later;
  }

  lemma RunHasWords(run: Run)
    requires IsRun(run)
    ensures run.words != [] && |run.folds| == |run.words| - 1
  {
  }

  lemma {:induction false} RunsFound(h: text, p: nat, runs: seq<Run>, tail: text)
    requires (forall run | run in runs :: IsRun(run)) && p <= |h| && h[p..] == HeaderOf(runs, tail)
    requires HasNoOther(h, p, runs, tail)
    ensures WordsFrom(h, p) == WordsOfRuns(p, runs)
    decreases |runs|
  {
    hide WordsFrom, IsPlain, RunText', WordsOfRun;
    if runs == [] {
      PlainIsSkipped(h, p, |h|);
      EndOfWords(h);
    } else {
      var run := runs[0];
      SpanLayout(h, p, runs, tail);
      PlainIsSkipped(h, p, p + |run.plain|);
      RunFound(h, p + |run.plain|, run.words, run.folds);
      RunsFound(h, p + |Span(run)|, runs[1..], tail);
    }
  }

  lemma EndOfWords(h: text)
    ensures WordsFrom(h, |h|) == []
  {
  }

  // ----- what the words come to

  /** The word of the header is that coded word. */
  predicate Stands(h: text, w: Word, c: Coded) {
    w.start <= w.end <= |h| && w == WordFor(w.start, c) && h[w.start..w.end] == Raw(c)
  }

  predicate AllStand(h: text, ws: seq<Word>, cs: seq<Coded>) {
    |ws| == |cs| && forall k | 0 <= k < |ws| :: Stands(h, ws[k], cs[k])
  }

  lemma {:induction false} GroupParts(h: text, ws: seq<Word>, cs: seq<Coded>)
    requires AllStand(h, ws, cs) && InOrder(ws, 0, |h|)
    ensures GroupBytes(ws) == AllOctets(cs) && Raws(h, ws) == AllRaw(cs)
    decreases |ws|
  {
    hide Raw;
    if ws != [] {
      assert Stands(h, ws[0], cs[0]);
      assert forall k | 0 <= k < |ws[1..]| :: Stands(h, ws[k + 1], cs[k + 1]) && ws[1..][k] == ws[k + 1] && cs[1..][k] == cs[k + 1];
      GroupParts(h, ws[1..], cs[1..]);
    }
  }

  lemma GroupMeans(charsets: Charsets, h: text, ws: seq<Word>, cs: seq<Coded>)
    requires ws != [] && AllStand(h, ws, cs) && InOrder(ws, 0, |h|)
    ensures GroupText(charsets, h, ws) == MeaningOf(charsets, cs)
  {
    hide Raw, InOrder;
    GroupParts(h, ws, cs);
    assert Stands(h, ws[0], cs[0]);
  }

  lemma {:induction false} CharsetEndIs(ws: seq<Word>, j: nat, k: nat, n: nat, e: nat)
    requires j < k <= e <= n <= |ws|
    requires forall i | k <= i < e :: SameName(ws[i].charset, ws[j].charset)
    requires e < n ==> !SameName(ws[e].charset, ws[j].charset)
    ensures CharsetEnd(ws, j, k, n) == e
    decreases e - k
  {
    hide SameName;
    if k < e {
      CharsetEndIs(ws, j, k + 1, n, e);
    }
  }

  lemma {:induction false} GroupsMean(charsets: Charsets, h: text, ws: seq<Word>, j: nat, n: nat, cs: seq<Coded>, groups: seq<seq<Coded>>)
    requires j <= n <= |ws| && InOrder(ws, 0, |h|) && IsGrouping(cs, groups) && AllStand(h, ws[j..n], cs)
    ensures RunText(charsets, h, ws, j, n) == MeaningOfGroups(charsets, groups)
    decreases |groups|
  {
    hide InOrder, SameName, Raw, MeaningOf, GroupText, Stands;
    if groups != [] {
      var group, later := groups[0], groups[1..];
      assert IsGroup(group);
      var e := j + |group|;
      assert cs == group + Flatten(later);
      assert forall k | 0 <= k < |cs| :: Stands(h, ws[j..n][k], cs[k]) && ws[j..n][k] == ws[j + k];
      StandingCharsets(h, ws, j, n, cs);
      if later != [] {
        assert DiffersAt(groups, 1);
        assert Flatten(later)[0] == later[0][0];
      }
      CharsetEndIs(ws, j, j + 1, n, e);
      SliceInOrder(ws, 0, |h|, j, e);
      SubStand(h, ws, j, n, cs, 0, |group|);
      SubStand(h, ws, j, n, cs, |group|, |cs|);
      GroupMeans(charsets, h, ws[j..e], group);
      GroupingLater(cs, groups);
      GroupsMean(charsets, h, ws, e, n, Flatten(later), later);
    }
  }

  lemma StandingCharsets(h: text, ws: seq<Word>, j: nat, n: nat, cs: seq<Coded>)
    requires j <= n <= |ws| && AllStand(h, ws[j..n], cs)
    ensures |cs| == n - j && forall i | j <= i < n :: ws[i].charset == cs[i - j].charset
  {
    forall i | j <= i < n
      ensures ws[i].charset == cs[i - j].charset
    {
      assert Stands(h, ws[j..n][i - j], cs[i - j]);
    }
  }

  lemma SubStand(h: text, ws: seq<Word>, j: nat, n: nat, cs: seq<Coded>, a: nat, b: nat)
    requires j <= n <= |ws| && AllStand(h, ws[j..n], cs) && a <= b <= |cs|
    ensures AllStand(h, ws[j + a..j + b], cs[a..b])
  {
    hide Stands;
    forall k | 0 <= k < b - a
      ensures Stands(h, ws[j + a..j + b][k], cs[a..b][k])
    {
      assert Stands(h, ws[j..n][a + k], cs[a + k]);
    }
  }

  lemma GroupingLater(cs: seq<Coded>, groups: seq<seq<Coded>>)
    requires groups != [] && IsGrouping(cs, groups)
    ensures IsGrouping(Flatten(groups[1..]), groups[1..])
  {
    hide IsGroup, SameName;
    var later := groups[1..];
    forall k | 0 < k < |later|
      ensures DiffersAt(later, k)
    {
      assert DiffersAt(groups, k + 1);
    }
  }

  lemma {:induction false} RunEndIs(h: text, ws: seq<Word>, i: nat, n: nat)
    requires i < n <= |ws| && InOrder(ws, 0, |h|)
    requires forall k | i < k < n :: AreAdjacent(h, ws, k)
    requires n < |ws| ==> !AreAdjacent(h, ws, n)
    ensures RunEnd(h, ws, i) == n
    decreases n - i
  {
    hide AreAdjacent, InOrder;
    if i + 1 < n {
      RunEndIs(h, ws, i + 1, n);
    }
  }

  /** Where a run's words stand, and what lies between them. */
  ghost predicate RunStands(h: text, ws: seq<Word>, p: nat, end: nat, cs: seq<Coded>) {
    && AllStand(h, ws, cs) && ws != [] && ws[0].start == p && ws[|ws| - 1].end == end
    && forall k | 0 < k < |ws| :: FoldAt(h, ws, k)
  }

  predicate FoldAt(h: text, ws: seq<Word>, k: nat)
    requires 0 < k < |ws|
  {
    ws[k - 1].end <= ws[k].start <= |h| && IsFoldingSpace(h[ws[k - 1].end..ws[k].start])
  }

  lemma {:induction false} RunIsThere(h: text, p: nat, words: seq<Coded>, folds: seq<text>)
    requires words != [] && |folds| == |words| - 1 && forall k | 0 <= k < |folds| :: IsFoldingSpace(folds[k])
    requires p + |RunText'(words, folds)| <= |h| && h[p..p + |RunText'(words, folds)|] == RunText'(words, folds)
    ensures RunStands(h, WordsOfRun(p, words, folds), p, p + |RunText'(words, folds)|, words)
    decreases |words|
  {
    hide Raw, IsFoldingSpace, RunText', FoldAt;
    RunLayout(h, p, words, folds);
    var first := WordFor(p, words[0]);
    assert Stands(h, first, words[0]);
    if |words| > 1 {
      var m := p + |Raw(words[0])| + |folds[0]|;
      var later := WordsOfRun(m, words[1..], folds[1..]);
      RunIsThere(h, m, words[1..], folds[1..]);
      RunLonger(h, first, later, words);
    }
  }

  lemma RunLonger(h: text, first: Word, later: seq<Word>, cs: seq<Coded>)
    requires |cs| > 1 && Stands(h, first, cs[0]) && AllStand(h, later, cs[1..])
    requires first.end <= later[0].start <= |h| && IsFoldingSpace(h[first.end..later[0].start])
    requires forall k | 0 < k < |later| :: FoldAt(h, later, k)
    ensures var ws := [first] + later; AllStand(h, ws, cs) && forall k | 0 < k < |ws| :: FoldAt(h, ws, k)
  {
    hide Stands, IsFoldingSpace;
    var ws := [first] + later;
    forall k | 0 <= k < |ws|
      ensures Stands(h, ws[k], cs[k])
    {
      if k > 0 {
        assert Stands(h, later[k - 1], cs[1..][k - 1]);
      }
    }
    forall k | 0 < k < |ws|
      ensures FoldAt(h, ws, k)
    {
      if k > 1 {
        assert FoldAt(h, later, k - 1);
      }
    }
  }

  /** The first run of the rest: where it ends, and that its words are the next ones. */
  lemma RunNext(h: text, ws: seq<Word>, i: nat, cursor: nat, runs: seq<Run>, tail: text)
    requires AreRuns(runs) && runs != [] && InOrder(ws, 0, |h|) && i <= |ws| && cursor <= |h|
    requires ws[i..] == WordsOfRuns(cursor, runs) && h[cursor..] == HeaderOf(runs, tail)
    ensures var run, b := runs[0], cursor + |Span(runs[0])|;
            var a, n := cursor + |run.plain|, i + |run.words|;
            && i < n <= |ws| && a <= b <= |h| && ws[i].start == a && ws[n - 1].end == b
            && h[cursor..a] == run.plain && h[b..] == HeaderOf(runs[1..], tail) && ws[n..] == WordsOfRuns(b, runs[1..])
            && RunStands(h, ws[i..n], a, b, run.words)
  {
    hide InOrder, IsRun, RunText', WordsOfRun, IsFoldingSpace, AllStand;
    var run, later := runs[0], runs[1..];
    assert IsRun(run);
    SpanLayout(h, cursor, runs, tail);
    RunHasWords(run);
    RunFolds(run);
    var a, b := cursor + |run.plain|, cursor + |Span(run)|;
    var mine := WordsOfRun(a, run.words, run.folds);
    RunIsThere(h, a, run.words, run.folds);
    var n := i + |run.words|;
    StandLength(h, mine, run.words);
    assert ws[i..] == mine + WordsOfRuns(b, later);
    assert ws[i..n] == ws[i..][..|mine|] == mine;
    assert ws[n..] == ws[i..][|mine|..] == WordsOfRuns(b, later);
    assert ws[i] == ws[i..n][0] && ws[n - 1] == ws[i..n][n - i - 1];
  }

  lemma StandLength(h: text, ws: seq<Word>, cs: seq<Coded>)
    requires AllStand(h, ws, cs)
    ensures |ws| == |cs|
  {
  }

  lemma {:induction false} RunsMean(charsets: Charsets, h: text, ws: seq<Word>, i: nat, cursor: nat, runs: seq<Run>, tail: text)
    requires AreRuns(runs) && InOrder(ws, 0, |h|) && i <= |ws| && cursor <= |h|
    requires ws[i..] == WordsOfRuns(cursor, runs) && h[cursor..] == HeaderOf(runs, tail)
    requires i < |ws| ==> cursor <= ws[i].start
    ensures HeaderText(charsets, h, ws, i, cursor) == MeaningOfRuns(charsets, runs, tail)
    decreases |runs|
  {
    hide InOrder, IsRun, RunText', WordsOfRun, WordsOfRuns, HeaderOf, RunText, RunEnd, MeaningOfGroups, Span, IsFoldingSpace, AreRuns, AllStand;
    if runs == [] {
      NextBegins(h, cursor, runs, tail);
      NothingRuns(tail);
    } else {
      var run, later := runs[0], runs[1..];
      RunsAre(runs);
      RunNext(h, ws, i, cursor, runs, tail);
      RunFolds(run);
      var b, n := cursor + |Span(run)|, i + |run.words|;
      NextBegins(h, b, later, tail);
      RunEnds(h, ws, i, n, run, later, b, tail);
      GroupsMean(charsets, h, ws, i, n, run.words, run.groups);
      assert n < |ws| ==> ws[n] == ws[n..][0];
      RunsMean(charsets, h, ws, n, b, later, tail);
    }
  }

  lemma NothingRuns(tail: text)
    ensures HeaderOf([], tail) == tail
  {
  }

  lemma RunsAre(runs: seq<Run>)
    requires runs != [] && AreRuns(runs)
    ensures (forall run | run in runs :: IsRun(run)) && IsRun(runs[0]) && AreRuns(runs[1..])
    ensures (forall run | run in runs[1..] :: IsRun(run)) && (|runs| > 1 ==> !IsFoldingSpace(runs[1].plain))
  {
    hide IsRun, IsFoldingSpace;
    RunsLater(runs);
  }

  lemma RunFolds(run: Run)
    requires IsRun(run)
    ensures (forall k | 0 <= k < |run.folds| :: IsFoldingSpace(run.folds[k])) && IsGrouping(run.words, run.groups)
  {
  }

  lemma RunsLater(runs: seq<Run>)
    requires runs != [] && AreRuns(runs)
    ensures AreRuns(runs[1..])
  {
    hide IsRun, IsFoldingSpace;
    forall k | 0 < k < |runs[1..]|
      ensures !IsFoldingSpace(runs[1..][k].plain)
    {
      assert runs[1..][k] == runs[k + 1];
    }
  }

  /** Where the next run's first word begins. */
  lemma NextBegins(h: text, p: nat, runs: seq<Run>, tail: text)
    requires (forall run | run in runs :: IsRun(run)) && p <= |h| && h[p..] == HeaderOf(runs, tail)
    ensures runs != [] ==>
              && WordsOfRuns(p, runs) != [] && WordsOfRuns(p, runs)[0].start == p + |runs[0].plain| <= |h|
              && h[p..p + |runs[0].plain|] == runs[0].plain
    ensures runs == [] ==> WordsOfRuns(p, runs) == []
  {
    hide IsRun, RunText', WordsOfRun, Span;
    if runs != [] {
      assert IsRun(runs[0]);
      SpanLayout(h, p, runs, tail);
      RunHasWords(runs[0]);
      FirstOfRun(p + |runs[0].plain|, runs[0].words, runs[0].folds);
    }
  }

  lemma FirstOfRun(p: nat, words: seq<Coded>, folds: seq<text>)
    requires words != [] && |folds| == |words| - 1
    ensures WordsOfRun(p, words, folds) != [] && WordsOfRun(p, words, folds)[0].start == p
  {
  }

  lemma RunEnds(h: text, ws: seq<Word>, i: nat, n: nat, run: Run, later: seq<Run>, b: nat, tail: text)
    requires i < n <= |ws| && InOrder(ws, 0, |h|) && b <= |h| && (forall r | r in later :: IsRun(r))
    requires RunStands(h, ws[i..n], ws[i].start, b, run.words)
    requires ws[n..] == WordsOfRuns(b, later) && h[b..] == HeaderOf(later, tail)
    requires later != [] ==> !IsFoldingSpace(later[0].plain)
    ensures RunEnd(h, ws, i) == n
  {
    hide InOrder, IsRun, IsFoldingSpace, Span, RunText', WordsOfRun, AllStand;
    NextBegins(h, b, later, tail);
    forall k | i < k < n
      ensures AreAdjacent(h, ws, k)
    {
      assert FoldAt(h, ws[i..n], k - i);
    }
    assert ws[i..n][n - i - 1] == ws[n - 1];
    if n < |ws| {
      assert ws[n] == ws[n..][0];
    }
    RunEndIs(h, ws, i, n);
  }

  /**
   A header of plain stretches and encoded-words, in any charsets, decodes to the stretches as they are
   and, for each run, the text of its groups one behind the other.
   */
  lemma HeaderDecodes(charsets: Charsets, runs: seq<Run>, tail: text)
    requires AreRuns(runs) && HasNoOther(HeaderOf(runs, tail), 0, runs, tail)
    ensures DecodeHeader(charsets, HeaderOf(runs, tail)) == MeaningOfRuns(charsets, runs, tail)
  {
    hide IsRun, HasNoOther, WordsFrom, WordsOfRuns, MeaningOfRuns, HeaderText, InOrder;
    var h := HeaderOf(runs, tail);
    assert h[0..] == h;
    RunsFound(h, 0, runs, tail);
    var ws := WordsFrom(h, 0);
    assert ws[0..] == ws;
    RunsMean(charsets, h, ws, 0, 0, runs, tail);
  }
}
