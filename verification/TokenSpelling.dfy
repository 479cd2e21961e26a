/**
 What a text tokenizes to in `packages/imap/src/tokenizer.ts`, said of the octets: exactly the tokens it
 spells, one behind the other, or the failure of the quoted string that does not end.
 */
module TokenSpelling {
  import opened Bytes
  import opened LogicalLine
  import opened Tokens

  /** A token, the white space in front of it, and how it is spelled. */
  datatype Written = Written(token: Token, space: bytes, spelling: bytes)

  predicate IsAtomText(s: bytes) {
    s != [] && forall k | 0 <= k < |s| :: s[k] !in {SPACE, TAB, CR, LF, LPAREN, RPAREN, LBRACKET, RBRACKET, DQUOTE}
  }

  /** NIL in any letter case. */
  predicate SpellsNil(s: bytes) {
    |s| == 3 && s[0] in {0x4e, 0x6e} && s[1] in {0x49, 0x69} && s[2] in {0x4c, 0x6c}
  }

  predicate SpellsNumber(s: bytes) {
    s != [] && AllDigits(s) && DecimalValue(s) < 0x100000000
  }

  /** Between `i` and `j` of a quoted string stands `value`: a backslash takes the next octet as it is, a LF is behind a CR. */
  predicate SpellsInside(s: bytes, i: nat, j: nat, value: bytes)
    requires j <= |s|
    decreases |s| - i
  {
    if i >= j then i == j && value == []
    else if s[i] == BACKSLASH then i + 2 <= j && value != [] && value[0] == s[i + 1] && SpellsInside(s, i + 2, j, value[1..])
    else
      && s[i] != DQUOTE && (s[i] == LF ==> i > 0 && s[i - 1] == CR)
      && value != [] && value[0] == s[i] && SpellsInside(s, i + 1, j, value[1..])
  }

  /** The octets `s` are a way to write the token; a literal is not written in text. */
  predicate Spells(token: Token, s: bytes) {
    match token
    case Atom(value) => s == value && IsAtomText(s) && !SpellsNil(s) && !SpellsNumber(s)
    case Number(n) => SpellsNumber(s) && DecimalValue(s) == n
    case Quoted(value) => |s| >= 2 && s[0] == 0x22 && s[|s| - 1] == 0x22 && SpellsInside(s, 1, |s| - 1, value)
    case LiteralValue(_) => false
    case LeftParen => s == [0x28]
    case RightParen => s == [0x29]
    case LeftBracket => s == [0x5b]
    case RightBracket => s == [0x5d]
    case PlusSign => s == [0x2b]
    case Nil => SpellsNil(s)
  }

  /**
   Atoms, numbers and NIL end at white space, a bracket or a quote. A `+` is a token of its own at the
   end, or at white space, a bracket or a NUL; elsewhere it begins an atom.
   */
  predicate MayPrecede(token: Token, s: bytes, rest: bytes) {
    match token
    case Atom(_) =>
      && (rest == [] || EndsAtom(rest[0]))
      && (s != [] && s[0] == PLUS ==> if |s| > 1 then s[1] != 0 else rest != [] && rest[0] == DQUOTE)
    case Number(_) => rest == [] || EndsAtom(rest[0])
    case Nil => rest == [] || EndsAtom(rest[0])
    case PlusSign => rest == [] || rest[0] == 0 || IsSpace(rest[0]) || IsBracket(rest[0])
    case _ => true
  }

  predicate IsWhite(s: bytes) {
    forall k | 0 <= k < |s| :: IsSpace(s[k])
  }

  /** The tokens, and what is behind the last one. */
  function LineOf(ws: seq<Written>, tail: bytes): bytes {
    if ws == [] then tail else ws[0].space + (ws[0].spelling + LineOf(ws[1..], tail))
  }

  predicate IsWritten(ws: seq<Written>, tail: bytes) {
    ws != [] ==>
      && IsWhite(ws[0].space) && Spells(ws[0].token, ws[0].spelling)
      && MayPrecede(ws[0].token, ws[0].spelling, LineOf(ws[1..], tail)) && IsWritten(ws[1..], tail)
  }

  function TokensIn(ws: seq<Written>): seq<Token> {
    if ws == [] then [] else [ws[0].token] + TokensIn(ws[1..])
  }

  ghost predicate IsInside(s: bytes, i: nat)
    requires i <= |s|
  {
    exists value :: SpellsInside(s, 1, i, value)
  }

  /** The quoted string that `s` begins goes on to the end, to a backslash there, or to a bare LF. */
  ghost predicate IsUnclosed(s: bytes, error: TokenError) {
    && s != [] && s[0] == 0x22
    && match error
       case UnterminatedQuoted => IsInside(s, |s|)
       case UnterminatedEscape => s[|s| - 1] == BACKSLASH && IsInside(s, |s| - 1)
       case BareLfInQuoted => exists i | 1 <= i < |s| :: IsInside(s, i) && s[i] == LF && s[i - 1] != CR
  }

  /** The octets are a row of tokens, with white space behind it, or with a quoted string that has no end. */
  ghost predicate IsLine(bs: bytes, r: TokenResult) {
    match r
    case Tokens(ts) =>
      exists ws, tail :: IsWritten(ws, tail) && IsWhite(tail) && bs == LineOf(ws, tail) && ts == TokensIn(ws)
    case Untokenizable(error) =>
      exists ws, space, s :: IsWritten(ws, space + s) && IsWhite(space) && IsUnclosed(s, error) && bs == LineOf(ws, space + s)
  }

  // ----- quoted strings

  lemma {:induction false} InsideReads(s: bytes, i: nat, j: nat, value: bytes, soFar: bytes)
    requires 0 < i <= j <= |s| && SpellsInside(s, i, j, value)
    ensures QuotedFrom(s, i, soFar) == QuotedFrom(s, j, soFar + value)
    decreases j - i
  {
    if i == j {
      assert soFar + value == soFar;
    } else {
      InsideReads(s, if s[i] == BACKSLASH then i + 2 else i + 1, j, value[1..], soFar + [value[0]]);
      assert soFar + [value[0]] + value[1..] == soFar + value;
    }
  }

  /** Where the reading of a quoted string stops. */
  function StopOf(s: bytes, r: QuotedRest, j: nat): bool
    requires j <= |s|
  {
    match r
    case Closed(_, next) => j + 1 == next <= |s| && s[j] == DQUOTE
    case Unclosed(UnterminatedQuoted) => j == |s|
    case Unclosed(UnterminatedEscape) => j + 1 == |s| && s[j] == BACKSLASH
    case Unclosed(BareLfInQuoted) => 0 < j < |s| && s[j] == LF && s[j - 1] != CR
  }

  lemma {:induction false} ReadsInside(s: bytes, i: nat, soFar: bytes) returns (j: nat, value: bytes)
    requires 0 < i <= |s|
    ensures i <= j <= |s| && SpellsInside(s, i, j, value) && StopOf(s, QuotedFrom(s, i, soFar), j)
    ensures QuotedFrom(s, i, soFar).Closed? ==> QuotedFrom(s, i, soFar).value == soFar + value
    decreases |s| - i
  {
    j, value := i, [];
    assert soFar + [] == soFar;
    if i < |s| && !IsBareLfAt(s, i) && s[i] != DQUOTE && !(s[i] == BACKSLASH && i + 1 == |s|) {
      var k := if s[i] == BACKSLASH then i + 1 else i;
      var later: bytes;
      j, later := ReadsInside(s, k + 1, soFar + [s[k]]);
      value := [s[k]] + later;
      assert soFar + [s[k]] + later == soFar + value;
    }
  }

  lemma {:induction false} InsidePrefix(s: bytes, n: nat, i: nat, j: nat, value: bytes)
    requires j <= n <= |s|
    ensures SpellsInside(s[..n], i, j, value) <==> SpellsInside(s, i, j, value)
    decreases |s| - i
  {
    if i < j {
      if s[i] == BACKSLASH {
        if i + 2 <= j && value != [] {
          InsidePrefix(s, n, i + 2, j, value[1..]);
        }
      } else if value != [] {
        InsidePrefix(s, n, i + 1, j, value[1..]);
      }
    }
  }

  lemma QuotedFirst(value: bytes, s: bytes, rest: bytes)
    requires Spells(Quoted(value), s)
    ensures TokensFrom(s + rest, 0) == TokensFrom(rest, 0).Before([Quoted(value)])
  {
    hide IsLonePlus;
    InsideReads(s, 1, |s| - 1, value, []);
    assert [] + value == value;
    QuotedExtends(s, rest, 1, []);
    TokensShift(s, rest, 0);
    assert (s + rest)[0] == DQUOTE;
  }

  lemma UnclosedFails(s: bytes, error: TokenError)
    requires IsUnclosed(s, error)
    ensures TokensFrom(s, 0) == Untokenizable(error)
  {
    var i := match error
             case UnterminatedQuoted => |s|
             case UnterminatedEscape => |s| - 1
             case BareLfInQuoted => var i :| 1 <= i < |s| && IsInside(s, i) && s[i] == LF && s[i - 1] != CR; i;
    var value :| SpellsInside(s, 1, i, value);
    assert i >= 1;
    InsideReads(s, 1, i, value, []);
  }

  // ----- atoms and marks

  lemma {:induction false} SpaceIsSkipped(space: bytes, rest: bytes)
    requires IsWhite(space)
    ensures TokensFrom(space + rest, 0) == TokensFrom(rest, 0)
    decreases |space|
  {
    if space == [] {
      assert space + rest == rest;
    } else {
      SpaceIsSkipped(space[1..], rest);
      var all := space + rest;
      assert all == [space[0]] + (space[1..] + rest);
      TokensShift([space[0]], space[1..] + rest, 0);
      assert all[0] == space[0];
    }
  }

  lemma {:induction false} AtomRuns(s: bytes, rest: bytes, i: nat)
    requires i <= |s| && IsAtomText(s) && (rest == [] || EndsAtom(rest[0]))
    ensures AtomEnd(s + rest, i) == |s|
    decreases |s| - i
  {
    var all := s + rest;
    if i < |s| {
      assert all[i] == s[i];
      AtomRuns(s, rest, i + 1);
    } else if rest != [] {
      assert all[i] == rest[0];
    }
  }

  predicate IsAtomic(token: Token) {
    token.Atom? || token.Number? || token.Nil?
  }

  /** An atom, a number or NIL in front of the rest. */
  lemma AtomFirst(token: Token, s: bytes, rest: bytes)
    requires IsAtomic(token) && Spells(token, s) && MayPrecede(token, s, rest)
    ensures TokensFrom(s + rest, 0) == TokensFrom(rest, 0).Before([token])
  {
    hide DecimalValue;
    var all := s + rest;
    AtomText(token, s);
    AtomRuns(s, rest, 0);
    assert all[0] == s[0] && all[..|s|] == s;
    assert !EndsAtom(all[0]);
    NotLonePlus(token, s, rest);
    TokensShift(s, rest, 0);
    AtomReads(token, s);
    assert all[0..|s|] == s;
  }

  lemma AtomText(token: Token, s: bytes)
    requires IsAtomic(token) && Spells(token, s)
    ensures IsAtomText(s)
  {
    hide DecimalValue;
    assert SpellsNumber(s) ==> forall k | 0 <= k < |s| :: IsDigit(s[k]);
  }

  lemma NotLonePlus(token: Token, s: bytes, rest: bytes)
    requires IsAtomic(token) && Spells(token, s) && IsAtomText(s) && MayPrecede(token, s, rest)
    ensures !IsLonePlus(s + rest, 0)
  {
    hide DecimalValue;
    var all := s + rest;
    assert all[0] == s[0];
    assert |s| > 1 ==> all[1] == s[1];
    assert |s| == 1 && rest != [] ==> all[1] == rest[0];
    assert SpellsNumber(s) ==> IsDigit(s[0]);
  }

  lemma AtomReads(token: Token, s: bytes)
    requires IsAtomic(token) && Spells(token, s)
    ensures AtomToken(s) == token
  {
    hide DecimalValue;
    assert IsNil(s) <==> SpellsNil(s);
    assert SpellsNumber(s) ==> IsDigit(s[0]);
  }

  lemma MarkFirst(token: Token, s: bytes, rest: bytes)
    requires (token.LeftParen? || token.RightParen? || token.LeftBracket? || token.RightBracket? || token.PlusSign?)
    requires Spells(token, s) && MayPrecede(token, s, rest)
    ensures TokensFrom(s + rest, 0) == TokensFrom(rest, 0).Before([token])
  {
    assert (s + rest)[0] == s[0];
    assert rest != [] ==> (s + rest)[1] == rest[0];
    TokensShift(s, rest, 0);
  }

  lemma TokenFirst(token: Token, s: bytes, rest: bytes)
    requires Spells(token, s) && MayPrecede(token, s, rest)
    ensures TokensFrom(s + rest, 0) == TokensFrom(rest, 0).Before([token])
  {
    hide TokensFrom, MayPrecede, SpellsInside;
    match token
    case Quoted(value) => QuotedFirst(value, s, rest);
    case Atom(_) => AtomFirst(token, s, rest);
    case Number(_) => AtomFirst(token, s, rest);
    case Nil => AtomFirst(token, s, rest);
    case LiteralValue(_) =>
    case _ => MarkFirst(token, s, rest);
  }

  // ----- every text

  /** The first token of a text and the octets it takes; none where a quoted string does not end. */
  lemma TokenBegins(bs: bytes) returns (token: Token, n: nat)
    requires bs != [] && !IsSpace(bs[0])
    ensures (0 < n <= |bs| && Spells(token, bs[..n]) && MayPrecede(token, bs[..n], bs[n..]))
            || exists error :: IsUnclosed(bs, error)
  {
    hide DecimalValue;
    n := 1;
    var b := bs[0];
    if IsBracket(b) {
      token := BracketToken(b);
      assert bs[..1] == [b];
    } else if b == DQUOTE {
      token, n := QuoteBegins(bs);
    } else if IsLonePlus(bs, 0) {
      token := PlusSign;
      assert bs[..1] == [b];
      assert |bs| > 1 ==> bs[1..][0] == bs[1];
    } else {
      n := AtomEnd(bs, 0);
      token := AtomToken(bs[..n]);
      AtomBegins(bs, n);
    }
  }

  lemma AtomBegins(bs: bytes, n: nat)
    requires bs != [] && !EndsAtom(bs[0]) && !IsLonePlus(bs, 0) && n == AtomEnd(bs, 0)
    ensures 0 < n <= |bs| && Spells(AtomToken(bs[..n]), bs[..n]) && MayPrecede(AtomToken(bs[..n]), bs[..n], bs[n..])
  {
    hide AtomToken, Spells, AtomEnd;
    AtomEndMoves(bs);
    var s := bs[..n];
    assert forall k | 0 <= k < n :: s[k] == bs[k];
    AtomSpells(s);
    assert n < |bs| ==> bs[n..][0] == bs[n];
    assert |s| > 1 ==> s[1] == bs[1];
  }

  lemma AtomSpells(s: bytes)
    requires IsAtomText(s)
    ensures Spells(AtomToken(s), s) && IsAtomic(AtomToken(s))
  {
    hide DecimalValue;
    assert IsNil(s) <==> SpellsNil(s);
  }

  lemma AtomEndMoves(bs: bytes)
    requires bs != [] && !EndsAtom(bs[0])
    ensures AtomEnd(bs, 0) > 0
  {
  }

  /** A text that begins with a quote is a quoted string and the rest, or does not end. */
  lemma QuoteBegins(bs: bytes) returns (token: Token, n: nat)
    requires bs != [] && bs[0] == DQUOTE
    ensures token.Quoted?
    ensures (0 < n <= |bs| && Spells(token, bs[..n])) || exists error :: IsUnclosed(bs, error)
  {
    var j, value := ReadsInside(bs, 1, []);
    token, n := Quoted(value), j + 1;
    match QuotedFrom(bs, 1, [])
    case Closed(v, next) => InsidePrefix(bs, n, 1, n - 1, value);
    case Unclosed(error) =>
      assert IsInside(bs, j);
      assert IsUnclosed(bs, error);
  }

  lemma {:induction false} WrittenReads(ws: seq<Written>, tail: bytes)
    requires IsWritten(ws, tail)
    ensures TokensFrom(LineOf(ws, tail), 0) == TokensFrom(tail, 0).Before(TokensIn(ws))
    decreases |ws|
  {
    hide Spells, MayPrecede, IsWhite, TokensFrom;
    if ws == [] {
      BeforeNothing(TokensFrom(tail, 0));
    } else {
      var w, rest := ws[0], LineOf(ws[1..], tail);
      WrittenReads(ws[1..], tail);
      SpaceIsSkipped(w.space, w.spelling + rest);
      TokenFirst(w.token, w.spelling, rest);
      BeforeTwice(TokensFrom(tail, 0), [w.token], TokensIn(ws[1..]));
    }
  }

  lemma BeforeNothing(r: TokenResult)
    ensures r.Before([]) == r
  {
    if r.Tokens? {
      assert [] + r.tokens == r.tokens;
    }
  }

  lemma LineReads(bs: bytes, r: TokenResult)
    requires IsLine(bs, r)
    ensures TokensFrom(bs, 0) == r
  {
    hide IsWritten, IsWhite, IsUnclosed, TokensFrom;
    match r
    case Tokens(ts) =>
      var ws, tail :| IsWritten(ws, tail) && IsWhite(tail) && bs == LineOf(ws, tail) && ts == TokensIn(ws);
      WrittenReads(ws, tail);
      SpaceIsSkipped(tail, []);
      assert tail + [] == tail;
      NothingReads(ts);
    case Untokenizable(error) =>
      var ws, space, s :| IsWritten(ws, space + s) && IsWhite(space) && IsUnclosed(s, error) && bs == LineOf(ws, space + s);
      WrittenReads(ws, space + s);
      SpaceIsSkipped(space, s);
      UnclosedFails(s, error);
  }

  lemma NothingReads(ts: seq<Token>)
    ensures TokensFrom([], 0).Before(ts) == Tokens(ts)
  {
    assert ts + [] == ts;
  }

  /** White space in front goes to the first token, or to what is behind the last. */
  lemma SpaceMore(b: byte, rest: bytes, r: TokenResult)
    requires IsSpace(b) && IsLine(rest, r)
    ensures IsLine([b] + rest, r)
  {
    hide Spells, MayPrecede, IsUnclosed;
    match r
    case Tokens(ts) =>
      var ws, tail :| IsWritten(ws, tail) && IsWhite(tail) && rest == LineOf(ws, tail) && ts == TokensIn(ws);
      if ws == [] {
        assert IsWritten([], [b] + tail) && [b] + rest == LineOf([], [b] + tail);
      } else {
        Spaced(b, ws, tail);
        assert ts == TokensIn(Space(b, ws));
      }
    case Untokenizable(error) =>
      var ws, space, s :| IsWritten(ws, space + s) && IsWhite(space) && IsUnclosed(s, error) && rest == LineOf(ws, space + s);
      if ws == [] {
        var space' := [b] + space;
        assert IsWhite(space') && [b] + rest == LineOf([], space' + s) && IsWritten([], space' + s);
      } else {
        Spaced(b, ws, space + s);
      }
  }

  function Space(b: byte, ws: seq<Written>): seq<Written>
    requires ws != []
  {
    [ws[0].(space := [b] + ws[0].space)] + ws[1..]
  }

  lemma Spaced(b: byte, ws: seq<Written>, tail: bytes)
    requires IsSpace(b) && ws != [] && IsWritten(ws, tail)
    ensures IsWritten(Space(b, ws), tail) && LineOf(Space(b, ws), tail) == [b] + LineOf(ws, tail)
    ensures TokensIn(Space(b, ws)) == TokensIn(ws)
  {
    hide Spells, MayPrecede;
    assert Space(b, ws)[1..] == ws[1..];
    ConcatAssoc([b], ws[0].space, ws[0].spelling + LineOf(ws[1..], tail));
  }

  lemma TokenMore(token: Token, s: bytes, rest: bytes, r: TokenResult)
    requires Spells(token, s) && MayPrecede(token, s, rest) && IsLine(rest, r)
    ensures IsLine(s + rest, r.Before([token]))
  {
    hide Spells, MayPrecede, IsUnclosed;
    var w := Written(token, [], s);
    match r
    case Tokens(ts) =>
      var ws, tail :| IsWritten(ws, tail) && IsWhite(tail) && rest == LineOf(ws, tail) && ts == TokensIn(ws);
      var ws' := [w] + ws;
      assert ws'[1..] == ws && IsWritten(ws', tail) && s + rest == LineOf(ws', tail);
    case Untokenizable(error) =>
      var ws, space, t :| IsWritten(ws, space + t) && IsWhite(space) && IsUnclosed(t, error) && rest == LineOf(ws, space + t);
      var ws' := [w] + ws;
      assert ws'[1..] == ws && IsWritten(ws', space + t) && s + rest == LineOf(ws', space + t);
  }

  lemma {:induction false} ReadsLine(bs: bytes)
    ensures IsLine(bs, TokensFrom(bs, 0))
    decreases |bs|
  {
    hide TokensFrom, Spells, MayPrecede, IsUnclosed, IsLine;
    if bs == [] {
      EmptyLine();
    } else if IsSpace(bs[0]) {
      ReadsLine(bs[1..]);
      SpaceMore(bs[0], bs[1..], TokensFrom(bs[1..], 0));
      SpaceIsSkipped([bs[0]], bs[1..]);
      assert bs == [bs[0]] + bs[1..];
    } else {
      var token, n := TokenBegins(bs);
      if 0 < n <= |bs| && Spells(token, bs[..n]) && MayPrecede(token, bs[..n], bs[n..]) {
        ReadsLine(bs[n..]);
        TokenMore(token, bs[..n], bs[n..], TokensFrom(bs[n..], 0));
        TokenFirst(token, bs[..n], bs[n..]);
        assert bs == bs[..n] + bs[n..];
      } else {
        var error :| IsUnclosed(bs, error);
        UnclosedFails(bs, error);
        UnclosedLine(bs, error);
      }
    }
  }

  lemma EmptyLine()
    ensures IsLine([], TokensFrom([], 0))
  {
    assert IsWritten([], []) && LineOf([], []) == [] && TokensIn([]) == [];
  }

  lemma UnclosedLine(bs: bytes, error: TokenError)
    requires IsUnclosed(bs, error)
    ensures IsLine(bs, Untokenizable(error))
  {
    hide IsUnclosed;
    assert [] + bs == bs;
    assert IsWritten([], [] + bs) && LineOf([], [] + bs) == bs && IsWhite([]);
  }

  /**
   A text has these tokens if and only if it spells them one behind the other, and fails this way if and
   only if a quoted string without an end comes behind tokens that are spelled.
   */
  lemma TextsExactly(bs: bytes, r: TokenResult)
    ensures TokensFrom(bs, 0) == r <==> IsLine(bs, r)
  {
    hide TokensFrom, IsLine;
    ReadsLine(bs);
    if IsLine(bs, r) {
      LineReads(bs, r);
    }
  }
}
