/**
 `encodeHeaderText` of `packages/smtp/src/message.ts`: printable ASCII is folded at its spaces, any
 other text goes as encoded-words.
 */
module HeaderFolding {
  import opened Bytes
  import opened Splitting
  import opened EncodedWords

  const MAX_FOLDED := 76

  predicate Overflows(line: text, word: text) {
    line != [] && |line| + 1 + |word| > MAX_FOLDED
  }

  function Extended(line: text, word: text): text {
    if line == [] then word else line + [SPACE] + word
  }

  /** `line` is under way; a word that would take it past 76 characters starts the next one. */
  function FoldLines(line: text, words: seq<text>): (r: seq<text>)
    ensures r != []
    decreases |words|
  {
    if words == [] then [line]
    else if Overflows(line, words[0]) then [line] + FoldLines(words[0], words[1..])
    else FoldLines(Extended(line, words[0]), words[1..])
  }

  function Folded(lines: seq<text>): text {
    if lines == [] then []
    else if |lines| == 1 then lines[0]
    else lines[0] + FOLD + Folded(lines[1..])
  }

  function FoldAscii(value: text): text {
    Folded(FoldLines([], Split(SPACE, value)))
  }

  function EncodeHeaderText(value: text): text {
    if IsPrintableAscii(value) then FoldAscii(value) else WordsText(Chunks([], value))
  }

  method FoldHeader(value: text) returns (header: text)
    ensures header == FoldAscii(value)
  {
    var words := Split(SPACE, value);
    var lines: seq<text> := [];
    var line: text := [];
    assert words[0..] == words;
    for k := 0 to |words|
      invariant lines + FoldLines(line, words[k..]) == FoldLines([], words)
    {
      var word := words[k];
      assert words[k..][1..] == words[k + 1..];
      if line != [] && |line| + 1 + |word| > MAX_FOLDED {
        ConcatAssoc(lines, [line], FoldLines(word, words[k + 1..]));
        lines := lines + [line];
        line := word;
      } else {
        line := if line == [] then word else line + [SPACE] + word;
      }
    }
    header := JoinFolded(lines + [line]);
  }

  method JoinFolded(lines: seq<text>) returns (header: text)
    ensures header == Folded(lines)
  {
    header := [];
    for k := 0 to |lines|
      invariant header + (if k == 0 || k == |lines| then [] else FOLD) + Folded(lines[k..]) == Folded(lines)
    {
      assert lines[k..][1..] == lines[k + 1..];
      header := header + (if k == 0 then [] else FOLD) + lines[k];
    }
    assert lines[|lines|..] == [];
  }

  method EncodeHeader(value: text) returns (header: text)
    ensures header == EncodeHeaderText(value)
  {
    hide FoldAscii, WordsText, Chunks;
    if IsPrintableAscii(value) {
      header := FoldHeader(value);
    } else {
      header := EncodeWords(value);
    }
  }

  // ----- lines are short

  /** Every line is at most 76 characters, or one word. */
  lemma {:induction false} FoldedLinesAreShort(line: text, words: seq<text>)
    requires |line| <= MAX_FOLDED || SPACE !in line
    requires forall k | 0 <= k < |words| :: SPACE !in words[k]
    ensures forall k | 0 <= k < |FoldLines(line, words)| ::
              |FoldLines(line, words)[k]| <= MAX_FOLDED || SPACE !in FoldLines(line, words)[k]
    decreases |words|
  {
    if words != [] {
      if Overflows(line, words[0]) {
        FoldedLinesAreShort(words[0], words[1..]);
      } else {
        FoldedLinesAreShort(Extended(line, words[0]), words[1..]);
      }
    }
  }

  /** No line of a folded text is over 76 characters, unless it is one word. */
  lemma FoldedIsShort(value: text)
    ensures forall k | 0 <= k < |FoldLines([], Split(SPACE, value))| ::
              var line := FoldLines([], Split(SPACE, value))[k]; |line| <= MAX_FOLDED || SPACE !in line
  {
    JoinSplit(SPACE, value);
    FoldedLinesAreShort([], Split(SPACE, value));
  }

  // ----- unfolding gives the text back

  /** Section 2.2.3 of RFC 5322: a line end in front of white space goes. */
  function Unfolded(s: text): text
    decreases |s|
  {
    if s == [] then []
    else if |s| > 2 && s[0] == CR && s[1] == LF && s[2] in {SPACE, TAB} then Unfolded(s[2..])
    else [s[0]] + Unfolded(s[1..])
  }

  lemma {:induction false} UnfoldedLine(line: text, rest: text)
    requires IsOneLine(line)
    ensures Unfolded(line + rest) == line + Unfolded(rest)
    decreases |line|
  {
    if line == [] {
      assert line + rest == rest;
    } else {
      assert (line + rest)[1..] == line[1..] + rest;
      UnfoldedLine(line[1..], rest);
      assert (line + rest)[0] in line;
      assert [line[0]] + line[1..] == line;
    }
  }

  lemma UnfoldedFold(rest: text)
    ensures Unfolded(FOLD + rest) == [SPACE] + Unfolded(rest)
  {
    assert (FOLD + rest)[2..] == [SPACE] + rest;
    assert ([SPACE] + rest)[1..] == rest;
  }

  lemma {:induction false} UnfoldedFolded(lines: seq<text>)
    requires lines != [] && forall k | 0 <= k < |lines| :: IsOneLine(lines[k])
    ensures Unfolded(Folded(lines)) == Join(SPACE, lines)
    decreases |lines|
  {
    if |lines| == 1 {
      UnfoldedLine(lines[0], []);
      assert lines[0] + [] == lines[0];
    } else {
      UnfoldedFolded(lines[1..]);
      UnfoldedFold(Folded(lines[1..]));
      UnfoldedLine(lines[0], FOLD + Folded(lines[1..]));
      ConcatAssoc(lines[0], FOLD, Folded(lines[1..]));
    }
  }

  /** No word is put on an empty line but the first: the space in front of one that is gets lost. */
  predicate Keeps(line: text, words: seq<text>)
    decreases |words|
  {
    words == [] ||
    (line != [] && Keeps(if Overflows(line, words[0]) then words[0] else Extended(line, words[0]), words[1..]))
  }

  /** The text does not begin with a space, and no fold falls between two spaces. */
  predicate KeepsSpaces(value: text) {
    var words := Split(SPACE, value);
    Keeps(words[0], words[1..])
  }

  lemma JoinMore(line: text, words: seq<text>)
    requires words != []
    ensures Join(SPACE, [line] + words) == line + [SPACE] + Join(SPACE, words)
    ensures Join(SPACE, [line] + words) == Join(SPACE, [line + [SPACE] + words[0]] + words[1..])
  {
    hide Join;
    var word, later := words[0], words[1..];
    assert words == [word] + later;
    JoinFirst(line, words);
    JoinFirst(word, later);
    JoinFirst(line + [SPACE] + word, later);
    if later != [] {
      ConcatAssoc(line + [SPACE], word, [SPACE]);
      ConcatAssoc(line + [SPACE], word + [SPACE], Join(SPACE, later));
    }
  }

  lemma JoinFirst(line: text, words: seq<text>)
    ensures Join(SPACE, [line] + words) == if words == [] then line else line + [SPACE] + Join(SPACE, words)
  {
    assert ([line] + words)[1..] == words;
  }

  /** Folding never adds to the text, and loses nothing exactly where no space is lost. */
  lemma {:induction false} JoinFolds(line: text, words: seq<text>)
    ensures |Join(SPACE, FoldLines(line, words))| <= |Join(SPACE, [line] + words)|
    ensures Join(SPACE, FoldLines(line, words)) == Join(SPACE, [line] + words) <==> Keeps(line, words)
    decreases |words|
  {
    hide Join;
    if words == [] {
      assert [line] + words == [line];
    } else {
      JoinMore(line, words);
      assert [words[0]] + words[1..] == words;
      if Overflows(line, words[0]) {
        var more := FoldLines(words[0], words[1..]);
        JoinFolds(words[0], words[1..]);
        JoinMore(line, more);
        SameTail(line + [SPACE], Join(SPACE, more), Join(SPACE, words));
      } else {
        JoinFolds(Extended(line, words[0]), words[1..]);
      }
    }
  }

  lemma {:induction false} FoldLinesAreLines(line: text, words: seq<text>)
    requires IsOneLine(line) && forall k | 0 <= k < |words| :: IsOneLine(words[k])
    ensures forall k | 0 <= k < |FoldLines(line, words)| :: IsOneLine(FoldLines(line, words)[k])
    decreases |words|
  {
    if words != [] {
      if Overflows(line, words[0]) {
        FoldLinesAreLines(words[0], words[1..]);
      } else {
        FoldLinesAreLines(Extended(line, words[0]), words[1..]);
      }
    }
  }

  lemma {:induction false} WordsAreLines(value: text)
    requires IsPrintableAscii(value)
    ensures forall k | 0 <= k < |Split(SPACE, value)| :: IsOneLine(Split(SPACE, value)[k])
  {
    if value != [] {
      WordsAreLines(value[1..]);
      assert IsPrintable(value[0]);
    }
  }

  /** Unfolding a folded text gives it back if and only if no fold lost a space. */
  lemma FoldingKeepsText(value: text)
    requires IsPrintableAscii(value)
    ensures Unfolded(FoldAscii(value)) == value <==> KeepsSpaces(value)
  {
    hide Join, Unfolded, Folded;
    var words := Split(SPACE, value);
    JoinSplit(SPACE, value);
    WordsAreLines(value);
    assert [words[0]] + words[1..] == words;
    FoldLinesAreLines(words[0], words[1..]);
    UnfoldedFolded(FoldLines(words[0], words[1..]));
    JoinFolds(words[0], words[1..]);
  }

  function FirstWord(line: text): text {
    if line == [] || line[0] == SPACE then [] else [line[0]] + FirstWord(line[1..])
  }

  lemma {:induction false} FirstWordIs(word: text, rest: text)
    requires SPACE !in word && (rest == [] || rest[0] == SPACE)
    ensures FirstWord(word + rest) == word
  {
    if word == [] {
      assert word + rest == rest;
    } else {
      assert (word + rest)[1..] == word[1..] + rest;
      FirstWordIs(word[1..], rest);
    }
  }

  lemma {:induction false} FirstWordKeeps(line: text, more: text)
    requires line != []
    ensures FirstWord(line + [SPACE] + more) == FirstWord(line)
  {
    var all := line + [SPACE] + more;
    assert all[1..] == line[1..] + [SPACE] + more;
    if line[0] != SPACE && |line| > 1 {
      FirstWordKeeps(line[1..], more);
    }
  }

  lemma {:induction false} FoldsBegin(line: text, words: seq<text>)
    requires line != []
    ensures FirstWord(FoldLines(line, words)[0]) == FirstWord(line)
    decreases |words|
  {
    if words != [] && !Overflows(line, words[0]) {
      FirstWordKeeps(line, words[0]);
      FoldsBegin(Extended(line, words[0]), words[1..]);
    }
  }

  ghost predicate AreFull(lines: seq<text>) {
    forall k | 0 < k < |lines| :: |lines[k - 1]| + 1 + |FirstWord(lines[k])| > 76
  }

  lemma {:induction false} FoldsAreFull(line: text, words: seq<text>)
    requires forall k | 0 <= k < |words| :: SPACE !in words[k]
    ensures AreFull(FoldLines(line, words))
    decreases |words|
  {
    if words != [] {
      var word := words[0];
      if Overflows(line, word) {
        FoldsAreFull(word, words[1..]);
        if word != [] {
          FoldsBegin(word, words[1..]);
          FirstWordIs(word, []);
          assert word + [] == word;
        }
        var more := FoldLines(word, words[1..]);
        assert forall k | 0 < k < |more| :: more[k] == ([line] + more)[k + 1];
        forall k | 0 < k < |[line] + more|
          ensures |([line] + more)[k - 1]| + 1 + |FirstWord(([line] + more)[k])| > 76
        {
          assert k > 1 ==> |more[k - 2]| + 1 + |FirstWord(more[k - 1])| > 76;
        }
      } else {
        FoldsAreFull(Extended(line, word), words[1..]);
      }
    }
  }

  /** A text is folded only where the next word would take the line past 76 characters. */
  lemma FoldsOnlyWhenFull(value: text)
    ensures AreFull(FoldLines([], Split(SPACE, value)))
  {
    JoinSplit(SPACE, value);
    FoldsAreFull([], Split(SPACE, value));
  }
}
