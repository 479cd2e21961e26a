/**
 LOGIN, UID SEARCH and the mailbox commands of `packages/imap/src/commands.ts`. Each is assembled
 from words, quoted strings and literals; the tokens a server reads carry the values back.
 */
module MailCommands {
  import opened Bytes
  import opened LogicalLine
  import opened Tokens
  import opened Commands
  import Utf8

  /** Command text, which stops at its literal when it has one. */
  datatype Piece = Piece(content: text, literal: Option<bytes>)

  /** Pieces behind `head`, a space before each, a new line of output after each literal. */
  function Assemble(head: text, pieces: seq<Piece>): seq<CommandLine>
    decreases |pieces|
  {
    if pieces == [] then [CommandLine(Utf8.Encode(head + [CR, LF]), None)]
    else
      var t := head + ([SPACE] + pieces[0].content);
      if pieces[0].literal == None then Assemble(t, pieces[1..])
      else [CommandLine(Utf8.Encode(t), pieces[0].literal)] + Assemble([], pieces[1..])
  }

  /** A value as a quoted string when it is printable ASCII, else as a literal of its UTF-8. */
  function ArgumentPiece(value: text): Piece {
    if IsPrintableAscii(value) then Piece(QuoteString(value), None) else Piece([], Some(Utf8.Encode(value)))
  }

  function KeyedPiece(key: text, value: text): Piece {
    if IsPrintableAscii(value) then Piece(key + ([SPACE] + QuoteString(value)), None)
    else Piece(key + [SPACE], Some(Utf8.Encode(value)))
  }

  /** The token that must carry the value. */
  function ValueToken(value: text): Token {
    if IsPrintableAscii(value) then Quoted(value) else LiteralValue(Utf8.Encode(value))
  }

  predicate Fits(value: text, limit: nat) {
    !IsPrintableAscii(value) ==> |Utf8.Encode(value)| <= limit && |Utf8.Encode(value)| <= MAX_UINT32
  }

  // ----- tags

  /** `A` and a number, as `nextTag` mints them. */
  predicate IsTag(tag: bytes) {
    |tag| >= 2 && tag[0] == 0x41 && AllDigits(tag[1..])
  }

  function PadZeros(digits: bytes, width: nat): (r: bytes)
    requires AllDigits(digits)
    ensures AllDigits(r) && |r| >= |digits|
    decreases width - |digits|
  {
    if |digits| >= width then digits else PadZeros([0x30] + digits, width)
  }

  function TagOf(counter: nat): (r: bytes)
    ensures IsTag(r)
  {
    [0x41] + PadZeros(Decimal(counter), 4)
  }

  lemma TagIsWord(tag: bytes)
    requires IsTag(tag)
    ensures IsWord(tag) && AtomToken(tag) == Atom(tag) && tag[|tag| - 1] != RBRACE
  {
    forall k | 1 <= k < |tag|
      ensures IsDigit(tag[k])
    {
      assert tag[k] == tag[1..][k - 1];
    }
    assert Upper(tag[0]) != 0x4e;
    assert !IsDigit(tag[0]);
  }

  // ----- reading an assembled command back

  /** `piece` is read as `tokens`, its literal included, and does not look like a literal header. */
  ghost predicate Reads(piece: Piece, tokens: seq<Token>) {
    && IsPrintableAscii(piece.content)
    && (match piece.literal
        case None =>
          && piece.content != [] && piece.content[|piece.content| - 1] != RBRACE
          && TokensFrom([SPACE] + piece.content, 0) == Tokens(tokens)
        case Some(literal) =>
          && tokens != [] && tokens[|tokens| - 1] == LiteralValue(literal)
          && TokensFrom([SPACE] + piece.content, 0) == Tokens(tokens[..|tokens| - 1]))
  }

  predicate LiteralFits(piece: Piece, limit: nat) {
    piece.literal.Some? ==> |piece.literal.value| <= limit && |piece.literal.value| <= MAX_UINT32
  }

  ghost predicate HeadReads(head: text, tokens: seq<Token>) {
    IsPrintableAscii(head) && (head == [] || head[|head| - 1] != RBRACE) && TokensFrom(head, 0) == Tokens(tokens)
  }

  lemma HeadThenPiece(head: text, ts: seq<Token>, piece: Piece, us: seq<Token>)
    requires HeadReads(head, ts) && Reads(piece, us)
    ensures var t := head + ([SPACE] + piece.content);
            && IsPrintableAscii(t) && t != []
            && (piece.literal == None ==> HeadReads(t, ts + us))
            && (piece.literal.Some? ==> TokensFrom(t, 0) == Tokens(ts + us[..|us| - 1]))
  {
    var us' := if piece.literal == None then us else us[..|us| - 1];
    TokensThen(head, ts, [SPACE] + piece.content, us');
  }

  lemma LastLine(body: bytes, limit: nat)
    requires IsPrintableAscii(body) && (body == [] || body[|body| - 1] != RBRACE)
    ensures IsCommand([CommandLine(body + [CR, LF], None)], limit)
    ensures SegmentsOf([CommandLine(body + [CR, LF], None)], limit) == [Text(body)]
  {
    var line := CommandLine(body + [CR, LF], None);
    LineEnd(body);
    assert [line][0] == line;
    assert BodyOf(line) == body;
  }

  lemma LineEnd(body: bytes)
    ensures (body + [CR, LF])[..|body|] == body && (body + [CR, LF])[|body|..] == [CR, LF]
  {
  }

  lemma OneLineCommand(head: bytes, ts: seq<Token>, limit: nat)
    requires HeadReads(head, ts)
    ensures IsCommand(Assemble(head, []), limit)
    ensures TokensOf(SegmentsOf(Assemble(head, []), limit)) == Tokens(ts)
  {
    hide TokensFrom, TokensOf, SegmentsOf, IsCommand, Utf8.Encode;
    AssembleNone(head);
    LastLine(head, limit);
    OneTextTokens(head, ts);
  }

  lemma AssembleNone(head: bytes)
    requires IsPrintableAscii(head)
    ensures Assemble(head, []) == [CommandLine(head + [CR, LF], None)]
  {
    Utf8.EncodeAscii(head + [CR, LF]);
  }

  lemma OneTextTokens(content: bytes, ts: seq<Token>)
    requires TokensFrom(content, 0) == Tokens(ts)
    ensures TokensOf([Text(content)]) == Tokens(ts)
  {
    assert [Text(content)][1..] == [];
    assert ts + [] == ts;
  }

  lemma SegmentTokens(content: bytes, ts: seq<Token>, literal: bytes, rest: seq<Segment>, us: seq<Token>)
    requires content != [] && TokensFrom(content, 0) == Tokens(ts) && TokensOf(rest) == Tokens(us)
    ensures TokensOf(TextUnlessEmpty(content) + [Literal(literal)] + rest) == Tokens(ts + [LiteralValue(literal)] + us)
  {
    var segments := TextUnlessEmpty(content) + [Literal(literal)] + rest;
    assert segments[0] == Text(content) && segments[1..] == [Literal(literal)] + rest;
    assert segments[1..][0] == Literal(literal) && segments[1..][1..] == rest;
    ConcatAssoc(ts, [LiteralValue(literal)], us);
  }

  /** One line that ends in a literal, in front of a command already read. */
  lemma LiteralInFront(
    t: text, ts: seq<Token>, literal: bytes, later: seq<CommandLine>, us: seq<Token>, limit: nat)
    requires IsPrintableAscii(t) && t != [] && TokensFrom(t, 0) == Tokens(ts)
    requires |literal| <= limit && |literal| <= MAX_UINT32
    requires IsCommand(later, limit) && TokensOf(SegmentsOf(later, limit)) == Tokens(us)
    ensures var lines := [CommandLine(Utf8.Encode(t), Some(literal))] + later;
            IsCommand(lines, limit)
            && TokensOf(SegmentsOf(lines, limit)) == Tokens(ts + [LiteralValue(literal)] + us)
  {
    Utf8.EncodeAscii(t);
    hide Utf8.Encode, TokensFrom, TokensOf;
    var lines := [CommandLine(t, Some(literal))] + later;
    assert lines[1..] == later;
    SegmentTokens(t, ts, literal, SegmentsOf(later, limit), us);
  }

  /** An assembled command is one logical line that tokenizes to its pieces' tokens in order. */
  lemma {:induction false} AssembledReads(
    head: text, ts: seq<Token>, pieces: seq<Piece>, tss: seq<seq<Token>>, limit: nat)
    requires HeadReads(head, ts) && |pieces| == |tss|
    requires forall k | 0 <= k < |pieces| :: Reads(pieces[k], tss[k]) && LiteralFits(pieces[k], limit)
    ensures IsCommand(Assemble(head, pieces), limit)
    ensures TokensOf(SegmentsOf(Assemble(head, pieces), limit)) == Tokens(ts + Flatten(tss))
    decreases |pieces|
  {
    hide TokensFrom, TokensOf, SegmentsOf, IsCommand, Utf8.Encode;
    if pieces == [] {
      OneLineCommand(head, ts, limit);
      assert ts + Flatten(tss) == ts;
    } else {
      var piece, us := pieces[0], tss[0];
      var t := head + ([SPACE] + piece.content);
      HeadThenPiece(head, ts, piece, us);
      ConcatAssoc(ts, us, Flatten(tss[1..]));
      if piece.literal == None {
        AssembledReads(t, ts + us, pieces[1..], tss[1..], limit);
      } else {
        NothingReads();
        AssembledReads([], [], pieces[1..], tss[1..], limit);
        assert [] + Flatten(tss[1..]) == Flatten(tss[1..]);
        var init, last := us[..|us| - 1], [LiteralValue(piece.literal.value)];
        assert us == init + last;
        ConcatAssoc(ts, init, last);
        LiteralInFront(t, ts + init, piece.literal.value, Assemble([], pieces[1..]), Flatten(tss[1..]), limit);
      }
    }
  }

  lemma NothingReads()
    ensures HeadReads([], [])
  {
  }

  lemma WordReads(w: bytes)
    requires IsWord(w) && w[|w| - 1] != RBRACE
    ensures Reads(Piece(w, None), [AtomToken(w)])
  {
    WordTokens(w);
  }

  lemma HeadThenWord(head: bytes, ts: seq<Token>, w: bytes)
    requires HeadReads(head, ts) && IsWord(w) && w[|w| - 1] != RBRACE
    ensures HeadReads(head + ([SPACE] + w), ts + [AtomToken(w)])
  {
    WordReads(w);
    HeadThenPiece(head, ts, Piece(w, None), [AtomToken(w)]);
  }

  lemma ArgumentReads(value: text)
    ensures Reads(ArgumentPiece(value), [ValueToken(value)])
  {
    if IsPrintableAscii(value) {
      QuotedTokens(value);
    } else {
      assert [SPACE] + [] == [SPACE];
      assert [ValueToken(value)][..0] == [];
      assert TokensFrom([SPACE], 0) == TokensFrom([SPACE], 1);
    }
  }

  /** A key that reads as `ts`, then a value: quoted or literal, its token carries it. */
  lemma KeyedReads(key: text, ts: seq<Token>, value: text)
    requires IsPrintableAscii(key) && TokensFrom([SPACE] + key, 0) == Tokens(ts)
    ensures Reads(KeyedPiece(key, value), ts + [ValueToken(value)])
  {
    if IsPrintableAscii(value) {
      QuotedTokens(value);
      var q := QuoteString(value);
      ConcatAssoc([SPACE], key, [SPACE] + q);
      TokensThen([SPACE] + key, ts, [SPACE] + q, [Quoted(value)]);
    } else {
      assert TokensFrom([SPACE], 0) == TokensFrom([SPACE], 1);
      ConcatAssoc([SPACE], key, [SPACE]);
      TokensThen([SPACE] + key, ts, [SPACE], []);
      assert ts + [] == ts;
      assert (ts + [ValueToken(value)])[..|ts|] == ts;
    }
  }

  // ----- LOGIN

  function Word(s: string): bytes
    requires forall i | 0 <= i < |s| :: s[i] < 128 as char
  {
    Ascii(s)
  }

  function LoginHead(tag: bytes): text {
    tag + ([SPACE] + Word("LOGIN"))
  }

  /** The four cases of `buildLoginCommand`. */
  function LoginCommand(tag: bytes, user: text, pass: text): seq<CommandLine> {
    var head := LoginHead(tag);
    if IsPrintableAscii(user) && IsPrintableAscii(pass) then
      [CommandLine(
         Utf8.Encode(head + ([SPACE] + QuoteString(user)) + ([SPACE] + QuoteString(pass)) + [CR, LF]), None)]
    else if !IsPrintableAscii(user) && IsPrintableAscii(pass) then
      [CommandLine(Utf8.Encode(head + [SPACE]), Some(Utf8.Encode(user))),
       CommandLine(Utf8.Encode([SPACE] + QuoteString(pass) + [CR, LF]), None)]
    else if IsPrintableAscii(user) && !IsPrintableAscii(pass) then
      [CommandLine(Utf8.Encode(head + ([SPACE] + QuoteString(user)) + [SPACE]), Some(Utf8.Encode(pass))),
       CommandLine(Utf8.Encode([CR, LF]), None)]
    else
      [CommandLine(Utf8.Encode(head + [SPACE]), Some(Utf8.Encode(user))),
       CommandLine(Utf8.Encode([SPACE]), Some(Utf8.Encode(pass))),
       CommandLine(Utf8.Encode([CR, LF]), None)]
  }

  lemma AssembleOne(head: text, piece: Piece)
    ensures var t := head + ([SPACE] + piece.content);
            Assemble(head, [piece]) == (
              if piece.literal == None then [CommandLine(Utf8.Encode(t + [CR, LF]), None)]
              else [CommandLine(Utf8.Encode(t), piece.literal), CommandLine(Utf8.Encode([CR, LF]), None)])
  {
    assert [piece][1..] == [];
    assert [] + [CR, LF] == [CR, LF];
  }

  lemma LoginIsAssembled(tag: bytes, user: text, pass: text)
    ensures LoginCommand(tag, user, pass)
         == Assemble(LoginHead(tag), [ArgumentPiece(user), ArgumentPiece(pass)])
  {
    hide Utf8.Encode, QuoteString, IsPrintableAscii;
    var head := LoginHead(tag);
    var p, q := ArgumentPiece(user), ArgumentPiece(pass);
    assert [p, q][1..] == [q];
    assert [SPACE] + [] == [SPACE];
    AssembleOne(if p.literal == None then head + ([SPACE] + p.content) else [], q);
    assert [] + ([SPACE] + q.content) == [SPACE] + q.content;
  }

  /**
   LOGIN: for every user name and password, the bytes written are one logical line whose tokens are
   the tag, the verb and the two values, whichever of them had to go as a literal.
   */
  lemma LoginReadsBack(tag: bytes, user: text, pass: text, after: bytes, limit: nat)
    requires IsTag(tag) && Fits(user, limit) && Fits(pass, limit)
    ensures var lines := LoginCommand(tag, user, pass);
            IsCommand(lines, limit)
            && OneShot(Wire(lines) + after, limit) == Complete(SegmentsOf(lines, limit), |Wire(lines)|)
            && TokensOf(SegmentsOf(lines, limit))
               == Tokens([Atom(tag), Atom(Word("LOGIN")), ValueToken(user), ValueToken(pass)])
  {
    hide TokensFrom, TokensOf, SegmentsOf, IsCommand, Utf8.Encode, QuoteString, Wire, OneShot;
    LoginIsAssembled(tag, user, pass);
    TagReads(tag);
    LoginWord();
    HeadThenWord(tag, [Atom(tag)], Word("LOGIN"));
    ArgumentReads(user);
    ArgumentReads(pass);
    var tss := [[ValueToken(user)], [ValueToken(pass)]];
    AssembledReads(LoginHead(tag), [Atom(tag)] + [Atom(Word("LOGIN"))],
                   [ArgumentPiece(user), ArgumentPiece(pass)], tss, limit);
    assert tss[1..] == [[ValueToken(pass)]];
    FlattenOne([ValueToken(pass)]);
    assert Flatten(tss) == [ValueToken(user)] + [ValueToken(pass)];
    assert [Atom(tag)] + [Atom(Word("LOGIN"))] + Flatten(tss)
        == [Atom(tag), Atom(Word("LOGIN")), ValueToken(user), ValueToken(pass)];
    CommandFrames(LoginCommand(tag, user, pass), after, limit);
  }

  lemma TagReads(tag: bytes)
    requires IsTag(tag)
    ensures HeadReads(tag, [Atom(tag)])
  {
    TagIsWord(tag);
    WordTokens(tag);
  }

  lemma LoginWord()
    ensures IsWord(Word("LOGIN")) && AtomToken(Word("LOGIN")) == Atom(Word("LOGIN"))
    ensures Word("LOGIN")[4] != RBRACE
  {
    assert !IsDigit(Word("LOGIN")[0]);
  }
}
