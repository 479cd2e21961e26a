/** UID SEARCH of `packages/imap/src/commands.ts`: keys, dates and values, any value as a literal if it must. */
module SearchCommand {
  import opened Bytes
  import opened LogicalLine
  import opened Tokens
  import opened Commands
  import opened MailCommands
  import Utf7
  import Utf8

  datatype SearchKey = Subject | From | To | Cc | Bcc | AnyText
  datatype HeaderName = MessageId | ReplyTo
  datatype SearchDate = SearchDate(year: nat, month: nat, day: nat)
  datatype Criterion =
    | OnValue(key: SearchKey, value: text)
    | OnHeader(header: HeaderName, value: text)
    | Unseen
    | Flagged
    | Before(date: SearchDate)
    | Since(date: SearchDate)

  function KeyWord(key: SearchKey): bytes {
    match key
    case Subject => Word("SUBJECT")
    case From => Word("FROM")
    case To => Word("TO")
    case Cc => Word("CC")
    case Bcc => Word("BCC")
    case AnyText => Word("TEXT")
  }

  function HeaderText(header: HeaderName): bytes {
    match header
    case MessageId => Word("Message-ID")
    case ReplyTo => Word("Reply-To")
  }

  /** A month that is not one of the twelve is the text a missing array element turns into. */
  function MonthText(month: nat): bytes {
    match month
    case 1 => Word("Jan")
    case 2 => Word("Feb")
    case 3 => Word("Mar")
    case 4 => Word("Apr")
    case 5 => Word("May")
    case 6 => Word("Jun")
    case 7 => Word("Jul")
    case 8 => Word("Aug")
    case 9 => Word("Sep")
    case 10 => Word("Oct")
    case 11 => Word("Nov")
    case 12 => Word("Dec")
    case _ => Word("undefined")
  }

  function DateText(date: SearchDate): bytes {
    Decimal(date.day) + [Utf7.DASH] + MonthText(date.month) + [Utf7.DASH] + PadZeros(Decimal(date.year), 4)
  }

  function SearchPieceOf(c: Criterion): Piece {
    match c
    case Unseen => Piece(Word("UNSEEN"), None)
    case Flagged => Piece(Word("FLAGGED"), None)
    case Before(date) => Piece(Word("BEFORE") + ([SPACE] + DateText(date)), None)
    case Since(date) => Piece(Word("SINCE") + ([SPACE] + DateText(date)), None)
    case OnValue(key, value) => KeyedPiece(KeyWord(key), value)
    case OnHeader(header, value) =>
      KeyedPiece(Word("HEADER") + ([SPACE] + QuoteString(HeaderText(header))), value)
  }

  /** What a server must read for one criterion. */
  function CriterionTokens(c: Criterion): seq<Token> {
    match c
    case Unseen => [Atom(Word("UNSEEN"))]
    case Flagged => [Atom(Word("FLAGGED"))]
    case Before(date) => [Atom(Word("BEFORE")), Atom(DateText(date))]
    case Since(date) => [Atom(Word("SINCE")), Atom(DateText(date))]
    case OnValue(key, value) => [Atom(KeyWord(key)), ValueToken(value)]
    case OnHeader(header, value) => [Atom(Word("HEADER")), Quoted(HeaderText(header)), ValueToken(value)]
  }

  function PiecesOf(criteria: seq<Criterion>): seq<Piece> {
    seq(|criteria|, k requires 0 <= k < |criteria| => SearchPieceOf(criteria[k]))
  }

  function TokensOfAll(criteria: seq<Criterion>): seq<seq<Token>> {
    seq(|criteria|, k requires 0 <= k < |criteria| => CriterionTokens(criteria[k]))
  }

  predicate IsUtf8(criteria: seq<Criterion>) {
    exists k | 0 <= k < |criteria| :: SearchPieceOf(criteria[k]).literal.Some?
  }

  function SearchHead(tag: bytes, criteria: seq<Criterion>): bytes {
    var head := tag + ([SPACE] + Word("UID")) + ([SPACE] + Word("SEARCH"));
    var charset := if IsUtf8(criteria) then head + ([SPACE] + Word("CHARSET")) + ([SPACE] + Word("UTF-8")) else head;
    if criteria == [] then charset + ([SPACE] + Word("ALL")) else charset
  }

  function SearchHeadTokens(tag: bytes, criteria: seq<Criterion>): seq<Token> {
    [Atom(tag), Atom(Word("UID")), Atom(Word("SEARCH"))]
    + (if IsUtf8(criteria) then [Atom(Word("CHARSET")), Atom(Word("UTF-8"))] else [])
    + (if criteria == [] then [Atom(Word("ALL"))] else [])
  }

  /** The text grows over pieces without a literal and is flushed by one that has it. */
  method BuildUidSearchCommand(tag: bytes, criteria: seq<Criterion>) returns (lines: seq<CommandLine>)
    ensures lines == Assemble(SearchHead(tag, criteria), PiecesOf(criteria))
  {
    var pieces := PiecesOf(criteria);
    var t: text := SearchHead(tag, criteria);
    lines := [];
    for k := 0 to |pieces|
      invariant Assemble(SearchHead(tag, criteria), pieces) == lines + Assemble(t, pieces[k..])
    {
      var piece := pieces[k];
      assert pieces[k..][0] == piece && pieces[k..][1..] == pieces[k + 1..];
      t := t + ([SPACE] + piece.content);
      if piece.literal == None {
        continue;
      }
      ConcatAssoc(lines, [CommandLine(Utf8.Encode(t), piece.literal)], Assemble([], pieces[k + 1..]));
      lines := lines + [CommandLine(Utf8.Encode(t), piece.literal)];
      t := [];
    }
    assert pieces[|pieces|..] == [];
    lines := lines + [CommandLine(Utf8.Encode(t + [CR, LF]), None)];
  }

  // ----- the words are words

  /** A letter first keeps a word from being a number; another letter than N keeps it from being NIL. */
  lemma LetterWord(w: bytes)
    requires w != [] && forall k | 0 <= k < |w| :: 0x41 <= w[k] <= 0x5a || 0x61 <= w[k] <= 0x7a || w[k] == 0x2d || IsDigit(w[k])
    requires !IsDigit(w[0]) && Upper(w[0]) != 0x4e
    ensures IsWord(w) && AtomToken(w) == Atom(w) && w[|w| - 1] != RBRACE
  {
  }

  lemma KeyWordIsWord(key: SearchKey)
    ensures IsWord(KeyWord(key)) && AtomToken(KeyWord(key)) == Atom(KeyWord(key))
    ensures KeyWord(key)[|KeyWord(key)| - 1] != RBRACE
  {
    LetterWord(KeyWord(key));
  }

  lemma MonthLetters(month: nat)
    ensures |MonthText(month)| >= 3
    ensures forall k | 0 <= k < |MonthText(month)| :: 0x41 <= MonthText(month)[k] <= 0x7a && !EndsAtom(MonthText(month)[k])
  {
  }

  /** A date is an atom: the dashes keep it from being a number. */
  lemma DateIsAtom(date: SearchDate)
    ensures IsWord(DateText(date)) && AtomToken(DateText(date)) == Atom(DateText(date))
    ensures DateText(date)[|DateText(date)| - 1] != RBRACE
  {
    var day, month, year := Decimal(date.day), MonthText(date.month), PadZeros(Decimal(date.year), 4);
    var w := DateText(date);
    MonthLetters(date.month);
    forall k | 0 <= k < |w|
      ensures !EndsAtom(w[k]) && IsPrintable(w[k])
    {
      if k < |day| {
        assert w[k] == day[k] && IsDigit(day[k]);
      } else if |day| < k < |day| + 1 + |month| {
        assert w[k] == month[k - |day| - 1];
      } else if k > |day| + 1 + |month| {
        assert w[k] == year[k - |day| - |month| - 2] && IsDigit(year[k - |day| - |month| - 2]);
      }
    }
    assert w[0] == day[0] && IsDigit(day[0]);
    assert w[|day|] == Utf7.DASH;
    assert w[|w| - 1] == year[|year| - 1] && IsDigit(year[|year| - 1]);
  }

  lemma KeyReads(w: bytes)
    requires IsWord(w) && AtomToken(w) == Atom(w) && w[|w| - 1] != RBRACE
    ensures HeadReads([SPACE] + w, [Atom(w)])
  {
    WordTokens(w);
  }

  lemma TwoWordsRead(a: bytes, b: bytes)
    requires IsWord(a) && AtomToken(a) == Atom(a) && a[|a| - 1] != RBRACE
    requires IsWord(b) && AtomToken(b) == Atom(b) && b[|b| - 1] != RBRACE
    ensures Reads(Piece(a + ([SPACE] + b), None), [Atom(a), Atom(b)])
  {
    KeyReads(a);
    HeadThenWord([SPACE] + a, [Atom(a)], b);
    ConcatAssoc([SPACE], a, [SPACE] + b);
    assert [Atom(a)] + [Atom(b)] == [Atom(a), Atom(b)];
  }

  lemma FlagReads(w: bytes)
    requires w == Word("UNSEEN") || w == Word("FLAGGED")
    ensures Reads(Piece(w, None), [Atom(w)])
  {
    LetterWord(w);
    WordReads(w);
  }

  lemma DateReads(w: bytes, date: SearchDate)
    requires w == Word("BEFORE") || w == Word("SINCE")
    ensures Reads(Piece(w + ([SPACE] + DateText(date)), None), [Atom(w), Atom(DateText(date))])
  {
    hide TokensFrom, DateText;
    LetterWord(w);
    DateIsAtom(date);
    TwoWordsRead(w, DateText(date));
  }

  lemma ValueCriterionReads(key: SearchKey, value: text)
    ensures Reads(KeyedPiece(KeyWord(key), value), [Atom(KeyWord(key)), ValueToken(value)])
  {
    hide KeyWord, KeyedPiece;
    KeyWordIsWord(key);
    KeyReads(KeyWord(key));
    KeyedReads(KeyWord(key), [Atom(KeyWord(key))], value);
    assert [Atom(KeyWord(key))] + [ValueToken(value)] == [Atom(KeyWord(key)), ValueToken(value)];
  }

  lemma HeaderCriterionReads(header: HeaderName, value: text)
    ensures Reads(KeyedPiece(Word("HEADER") + ([SPACE] + QuoteString(HeaderText(header))), value),
                  [Atom(Word("HEADER")), Quoted(HeaderText(header)), ValueToken(value)])
  {
    hide TokensFrom, KeyedPiece, QuoteString, HeaderText;
    HeaderKeyReads(header);
    var ts := [Atom(Word("HEADER")), Quoted(HeaderText(header))];
    KeyedReads(Word("HEADER") + ([SPACE] + QuoteString(HeaderText(header))), ts, value);
    assert ts + [ValueToken(value)] == [Atom(Word("HEADER")), Quoted(HeaderText(header)), ValueToken(value)];
  }

  lemma CriterionReads(c: Criterion)
    ensures Reads(SearchPieceOf(c), CriterionTokens(c))
  {
    hide Reads, KeyedPiece, ValueToken, DateText, QuoteString;
    match c
    case Unseen => FlagReads(Word("UNSEEN"));
    case Flagged => FlagReads(Word("FLAGGED"));
    case Before(date) => DateReads(Word("BEFORE"), date);
    case Since(date) => DateReads(Word("SINCE"), date);
    case OnValue(key, value) => ValueCriterionReads(key, value);
    case OnHeader(header, value) => HeaderCriterionReads(header, value);
  }

  lemma HeaderTextIsWord(header: HeaderName)
    ensures IsPrintableAscii(HeaderText(header))
  {
    LetterWord(Word("Reply-To"));
    LetterWord(Word("Message-ID"));
  }

  lemma HeaderWordReads()
    ensures IsPrintableAscii(Word("HEADER")) && TokensFrom([SPACE] + Word("HEADER"), 0) == Tokens([Atom(Word("HEADER"))])
  {
    hide TokensFrom;
    LetterWord(Word("HEADER"));
    KeyReads(Word("HEADER"));
  }

  lemma HeaderKeyReads(header: HeaderName)
    ensures var key := Word("HEADER") + ([SPACE] + QuoteString(HeaderText(header)));
            IsPrintableAscii(key) && TokensFrom([SPACE] + key, 0) == Tokens([Atom(Word("HEADER")), Quoted(HeaderText(header))])
  {
    hide TokensFrom, QuoteString, HeaderText, Word;
    HeaderWordReads();
    HeaderTextIsWord(header);
    QuotedTokens(HeaderText(header));
    ConcatAssoc([SPACE], Word("HEADER"), [SPACE] + QuoteString(HeaderText(header)));
    TokensThen([SPACE] + Word("HEADER"), [Atom(Word("HEADER"))],
               [SPACE] + QuoteString(HeaderText(header)), [Quoted(HeaderText(header))]);
  }

  lemma HeadThenLetters(head: bytes, ts: seq<Token>, w: bytes)
    requires HeadReads(head, ts) && IsWord(w) && AtomToken(w) == Atom(w) && w[|w| - 1] != RBRACE
    ensures HeadReads(head + ([SPACE] + w), ts + [Atom(w)])
  {
    HeadThenWord(head, ts, w);
  }

  lemma UidSearchReads(tag: bytes)
    requires IsTag(tag)
    ensures HeadReads(tag + ([SPACE] + Word("UID")) + ([SPACE] + Word("SEARCH")),
                      [Atom(tag), Atom(Word("UID")), Atom(Word("SEARCH"))])
  {
    hide HeadReads;
    TagReads(tag);
    LetterWord(Word("UID"));
    HeadThenLetters(tag, [Atom(tag)], Word("UID"));
    LetterWord(Word("SEARCH"));
    HeadThenLetters(tag + ([SPACE] + Word("UID")), [Atom(tag)] + [Atom(Word("UID"))], Word("SEARCH"));
    assert [Atom(tag)] + [Atom(Word("UID"))] + [Atom(Word("SEARCH"))]
        == [Atom(tag), Atom(Word("UID")), Atom(Word("SEARCH"))];
  }

  lemma CharsetReads(head: bytes, ts: seq<Token>)
    requires HeadReads(head, ts)
    ensures HeadReads(head + ([SPACE] + Word("CHARSET")) + ([SPACE] + Word("UTF-8")),
                      ts + [Atom(Word("CHARSET")), Atom(Word("UTF-8"))])
  {
    hide HeadReads;
    LetterWord(Word("CHARSET"));
    HeadThenLetters(head, ts, Word("CHARSET"));
    LetterWord(Word("UTF-8"));
    HeadThenLetters(head + ([SPACE] + Word("CHARSET")), ts + [Atom(Word("CHARSET"))], Word("UTF-8"));
    assert ts + [Atom(Word("CHARSET"))] + [Atom(Word("UTF-8"))] == ts + [Atom(Word("CHARSET")), Atom(Word("UTF-8"))];
  }

  lemma HeadReadsOf(tag: bytes, criteria: seq<Criterion>)
    requires IsTag(tag)
    ensures HeadReads(SearchHead(tag, criteria), SearchHeadTokens(tag, criteria))
  {
    hide HeadReads, IsUtf8, Ascii;
    UidSearchReads(tag);
    var head := tag + ([SPACE] + Word("UID")) + ([SPACE] + Word("SEARCH"));
    var ts := [Atom(tag), Atom(Word("UID")), Atom(Word("SEARCH"))];
    var charset := if IsUtf8(criteria) then head + ([SPACE] + Word("CHARSET")) + ([SPACE] + Word("UTF-8")) else head;
    var us := ts + (if IsUtf8(criteria) then [Atom(Word("CHARSET")), Atom(Word("UTF-8"))] else []);
    CharsetReads(head, ts);
    assert HeadReads(charset, us) by {
      assert ts + [] == ts;
    }
    AllWord();
    HeadThenLetters(charset, us, Word("ALL"));
    assert us + [] == us;
  }

  lemma AllWord()
    ensures IsWord(Word("ALL")) && AtomToken(Word("ALL")) == Atom(Word("ALL"))
    ensures Word("ALL")[|Word("ALL")| - 1] != RBRACE
  {
    LetterWord(Word("ALL"));
  }

  predicate CriterionFits(c: Criterion, limit: nat) {
    (c.OnValue? || c.OnHeader?) ==> Fits(c.value, limit)
  }

  /**
   UID SEARCH: for every list of criteria, the bytes written are one logical line, whatever follows
   it, whose tokens are the tag, the verb, the charset exactly when some value needs it, and each
   criterion's key and value in order.
   */
  lemma SearchReadsBack(tag: bytes, criteria: seq<Criterion>, after: bytes, limit: nat)
    requires IsTag(tag) && forall k | 0 <= k < |criteria| :: CriterionFits(criteria[k], limit)
    ensures var lines := Assemble(SearchHead(tag, criteria), PiecesOf(criteria));
            IsCommand(lines, limit)
            && OneShot(Wire(lines) + after, limit) == Complete(SegmentsOf(lines, limit), |Wire(lines)|)
            && TokensOf(SegmentsOf(lines, limit))
               == Tokens(SearchHeadTokens(tag, criteria) + Flatten(TokensOfAll(criteria)))
  {
    hide TokensFrom, TokensOf, SegmentsOf, IsCommand, Utf8.Encode, QuoteString, Wire, OneShot, Assemble;
    HeadReadsOf(tag, criteria);
    forall k | 0 <= k < |criteria|
      ensures Reads(PiecesOf(criteria)[k], TokensOfAll(criteria)[k]) && LiteralFits(PiecesOf(criteria)[k], limit)
    {
      CriterionReads(criteria[k]);
      assert CriterionFits(criteria[k], limit);
    }
    AssembledReads(SearchHead(tag, criteria), SearchHeadTokens(tag, criteria), PiecesOf(criteria),
                   TokensOfAll(criteria), limit);
    CommandFrames(Assemble(SearchHead(tag, criteria), PiecesOf(criteria)), after, limit);
  }

  // ----- mailbox names

  datatype MailboxVerb = Select | Examine | Create

  function VerbWord(verb: MailboxVerb): bytes {
    match verb
    case Select => Word("SELECT")
    case Examine => Word("EXAMINE")
    case Create => Word("CREATE")
  }

  function MailboxCommand(tag: bytes, verb: MailboxVerb, mailbox: text): seq<CommandLine> {
    [CommandLine(
       Utf8.Encode(tag + ([SPACE] + VerbWord(verb)) + ([SPACE] + QuoteString(Utf7.Encode(mailbox))) + [CR, LF]), None)]
  }

  /**
   Mailbox names survive the wire: SELECT, EXAMINE and CREATE are one line each, and decoding the
   quoted token that is read back gives the name, whatever code units it is made of.
   */
  lemma MailboxReadsBack(tag: bytes, verb: MailboxVerb, mailbox: text, after: bytes, limit: nat)
    requires IsTag(tag)
    ensures var lines := MailboxCommand(tag, verb, mailbox);
            IsCommand(lines, limit)
            && OneShot(Wire(lines) + after, limit) == Complete(SegmentsOf(lines, limit), |Wire(lines)|)
            && IsPrintableAscii(Utf7.Encode(mailbox))
            && TokensOf(SegmentsOf(lines, limit))
               == Tokens([Atom(tag), Atom(VerbWord(verb)), Quoted(Utf7.Encode(mailbox))])
            && Utf7.Decode(Utf7.Encode(mailbox)) == mailbox
  {
    hide TokensFrom, TokensOf, SegmentsOf, IsCommand, Utf8.Encode, Utf7.Encode, Utf7.Decode, QuoteString, Wire, OneShot;
    Utf7.EncodeDecode(mailbox);
    var name := Utf7.Encode(mailbox);
    var head := tag + ([SPACE] + VerbWord(verb));
    TagReads(tag);
    LetterWord(VerbWord(verb));
    HeadThenWord(tag, [Atom(tag)], VerbWord(verb));
    ArgumentReads(name);
    AssembleOne(head, ArgumentPiece(name));
    AssembledReads(head, [Atom(tag)] + [Atom(VerbWord(verb))], [ArgumentPiece(name)], [[ValueToken(name)]], limit);
    FlattenOne([ValueToken(name)]);
    assert [Atom(tag)] + [Atom(VerbWord(verb))] + [ValueToken(name)]
        == [Atom(tag), Atom(VerbWord(verb)), Quoted(name)];
    CommandFrames(MailboxCommand(tag, verb, mailbox), after, limit);
  }

  // ----- dates

  lemma {:induction false} PaddedNumber(digits: bytes, width: nat)
    requires AllDigits(digits)
    ensures DecimalValue(PadZeros(digits, width)) == DecimalValue(digits)
    ensures |PadZeros(digits, width)| >= width
    decreases width - |digits|
  {
    if |digits| < width {
      ZeroInFront(digits);
      PaddedNumber([0x30] + digits, width);
    }
  }

  lemma {:induction false} ZeroInFront(digits: bytes)
    requires AllDigits(digits)
    ensures AllDigits([0x30] + digits) && DecimalValue([0x30] + digits) == DecimalValue(digits)
  {
    var all := [0x30] + digits;
    assert AllDigits(all);
    if digits != [] {
      assert all[..|all| - 1] == [0x30] + digits[..|digits| - 1];
      ZeroInFront(digits[..|digits| - 1]);
    } else {
      assert all[..0] == [];
    }
  }

  /** Section 9 of RFC 9051: the day, the name of the month, and the year in four digits or more. */
  lemma DatesAre(date: SearchDate) returns (day: bytes, year: bytes)
    ensures AllDigits(day) && DecimalValue(day) == date.day && (date.day > 0 ==> day[0] != 0x30)
    ensures AllDigits(year) && DecimalValue(year) == date.year && |year| >= 4
    ensures DateText(date) == day + Word("-") + MonthText(date.month) + Word("-") + year
  {
    day, year := Decimal(date.day), PadZeros(Decimal(date.year), 4);
    PaddedNumber(Decimal(date.year), 4);
  }
}
