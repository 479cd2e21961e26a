/** Tokens of a logical line, as `packages/imap/src/tokenizer.ts` cuts them. Values are bytes. */
module Tokens {
  import opened Bytes
  import opened LogicalLine

  datatype Token =
    | Atom(value: bytes)
    | Number(n: nat)
    | Quoted(value: bytes)
    | LiteralValue(value: bytes)
    | LeftParen | RightParen | LeftBracket | RightBracket | PlusSign | Nil

  datatype TokenError = BareLfInQuoted | UnterminatedEscape | UnterminatedQuoted

  datatype TokenResult = Tokens(tokens: seq<Token>) | Untokenizable(error: TokenError)
  {
    function Before(earlier: seq<Token>): TokenResult {
      match this
      case Tokens(ts) => Tokens(earlier + ts)
      case Untokenizable(e) => Untokenizable(e)
    }
  }

  predicate IsSpace(b: byte) {
    b == SPACE || b == TAB || b == CR || b == LF
  }

  predicate IsBracket(b: byte) {
    b == LPAREN || b == RPAREN || b == LBRACKET || b == RBRACKET
  }

  predicate EndsAtom(b: byte) {
    IsSpace(b) || IsBracket(b) || b == DQUOTE
  }

  function BracketToken(b: byte): Token
    requires IsBracket(b)
  {
    if b == LPAREN then LeftParen
    else if b == RPAREN then RightParen
    else if b == LBRACKET then LeftBracket
    else RightBracket
  }

  /** A `+` stands alone before the end, white space or a bracket; elsewhere it begins an atom. */
  predicate IsLonePlus(bs: bytes, i: nat)
    requires i < |bs|
  {
    bs[i] == PLUS && (i + 1 == |bs| || bs[i + 1] == 0 || IsSpace(bs[i + 1]) || IsBracket(bs[i + 1]))
  }

  datatype QuotedRest = Closed(value: bytes, next: nat) | Unclosed(error: TokenError)

  /** The rest of a quoted string whose opening quote is left of `i`. */
  function QuotedFrom(bs: bytes, i: nat, soFar: bytes): (r: QuotedRest)
    requires i <= |bs|
    ensures r.Closed? ==> i < r.next <= |bs|
    decreases |bs| - i
  {
    if i == |bs| then Unclosed(UnterminatedQuoted)
    else if IsBareLfAt(bs, i) then Unclosed(BareLfInQuoted)
    else if bs[i] == BACKSLASH then
      if i + 1 == |bs| then Unclosed(UnterminatedEscape) else QuotedFrom(bs, i + 2, soFar + [bs[i + 1]])
    else if bs[i] == DQUOTE then Closed(soFar, i + 1)
    else QuotedFrom(bs, i + 1, soFar + [bs[i]])
  }

  function AtomEnd(bs: bytes, i: nat): (r: nat)
    requires i <= |bs|
    ensures i <= r <= |bs|
    ensures forall k | i <= k < r :: !EndsAtom(bs[k])
    ensures r < |bs| ==> EndsAtom(bs[r])
    decreases |bs| - i
  {
    if i == |bs| || EndsAtom(bs[i]) then i else AtomEnd(bs, i + 1)
  }

  function Upper(b: byte): byte {
    if 0x61 <= b <= 0x7a then b - 0x20 else b
  }

  predicate IsNil(atom: bytes) {
    |atom| == 3 && Upper(atom[0]) == 0x4e && Upper(atom[1]) == 0x49 && Upper(atom[2]) == 0x4c
  }

  /** A run of digits past 32 bits stays an atom: Gmail's thread ids are 64-bit. */
  function AtomToken(atom: bytes): Token {
    if IsNil(atom) then Nil
    else if atom != [] && AllDigits(atom) then
      if DecimalValue(atom) > MAX_UINT32 then Atom(atom) else Number(DecimalValue(atom))
    else Atom(atom)
  }

  function TokensFrom(bs: bytes, i: nat): TokenResult
    requires i <= |bs|
    decreases |bs| - i
  {
    if i == |bs| then Tokens([])
    else if IsSpace(bs[i]) then TokensFrom(bs, i + 1)
    else if IsBracket(bs[i]) then TokensFrom(bs, i + 1).Before([BracketToken(bs[i])])
    else if bs[i] == DQUOTE then
      match QuotedFrom(bs, i + 1, [])
      case Closed(value, next) => TokensFrom(bs, next).Before([Quoted(value)])
      case Unclosed(error) => Untokenizable(error)
    else if IsLonePlus(bs, i) then TokensFrom(bs, i + 1).Before([PlusSign])
    else
      var end := AtomEnd(bs, i);
      assert !EndsAtom(bs[i]);
      TokensFrom(bs, end).Before([AtomToken(bs[i..end])])
  }

  function TokensOf(segments: seq<Segment>): TokenResult {
    if segments == [] then Tokens([])
    else
      match segments[0]
      case Literal(content) => TokensOf(segments[1..]).Before([LiteralValue(content)])
      case Text(content) =>
        match TokensFrom(content, 0)
        case Tokens(ts) => TokensOf(segments[1..]).Before(ts)
        case Untokenizable(e) => Untokenizable(e)
  }

  lemma BeforeTwice(r: TokenResult, a: seq<Token>, b: seq<Token>)
    ensures r.Before(b).Before(a) == r.Before(a + b)
  {
    if r.Tokens? {
      assert a + (b + r.tokens) == a + b + r.tokens;
    }
  }

  method ReadQuoted(bs: bytes, start: nat) returns (r: QuotedRest)
    requires start <= |bs|
    ensures r == QuotedFrom(bs, start, [])
  {
    var i := start;
    var value: bytes := [];
    while i < |bs|
      invariant start <= i <= |bs|
      invariant QuotedFrom(bs, start, []) == QuotedFrom(bs, i, value)
    {
      if bs[i] == LF && (i == 0 || bs[i - 1] != CR) {
        return Unclosed(BareLfInQuoted);
      }
      if bs[i] == BACKSLASH {
        i := i + 1;
        if i >= |bs| {
          return Unclosed(UnterminatedEscape);
        }
        value := value + [bs[i]];
        i := i + 1;
      } else if bs[i] == DQUOTE {
        return Closed(value, i + 1);
      } else {
        value := value + [bs[i]];
        i := i + 1;
      }
    }
    return Unclosed(UnterminatedQuoted);
  }

  method ReadAtom(bs: bytes, start: nat) returns (end: nat)
    requires start <= |bs|
    ensures end == AtomEnd(bs, start)
  {
    end := start;
    while end < |bs| && !EndsAtom(bs[end])
      invariant start <= end <= |bs|
      invariant AtomEnd(bs, start) == AtomEnd(bs, end)
    {
      end := end + 1;
    }
  }

  /** Appends the tokens of one text segment to `earlier`. */
  method TokenizeTextSegment(bs: bytes, earlier: seq<Token>) returns (r: TokenResult)
    ensures r == TokensFrom(bs, 0).Before(earlier)
  {
    var tokens := earlier;
    var i := 0;
    while i < |bs|
      invariant 0 <= i <= |bs|
      invariant TokensFrom(bs, 0).Before(earlier) == TokensFrom(bs, i).Before(tokens)
    {
      var b := bs[i];
      if IsSpace(b) {
        i := i + 1;
        continue;
      }
      if IsBracket(b) {
        BeforeTwice(TokensFrom(bs, i + 1), tokens, [BracketToken(b)]);
        tokens := tokens + [BracketToken(b)];
        i := i + 1;
        continue;
      }
      if b == DQUOTE {
        var quoted := ReadQuoted(bs, i + 1);
        if quoted.Unclosed? {
          return Untokenizable(quoted.error);
        }
        BeforeTwice(TokensFrom(bs, quoted.next), tokens, [Quoted(quoted.value)]);
        tokens := tokens + [Quoted(quoted.value)];
        i := quoted.next;
        continue;
      }
      if IsLonePlus(bs, i) {
        BeforeTwice(TokensFrom(bs, i + 1), tokens, [PlusSign]);
        tokens := tokens + [PlusSign];
        i := i + 1;
        continue;
      }
      var end := ReadAtom(bs, i);
      BeforeTwice(TokensFrom(bs, end), tokens, [AtomToken(bs[i..end])]);
      tokens := tokens + [AtomToken(bs[i..end])];
      i := end;
    }
    assert tokens + [] == tokens;
    return Tokens(tokens);
  }

  method TokenizeLogicalLine(segments: seq<Segment>) returns (r: TokenResult)
    ensures r == TokensOf(segments)
  {
    var tokens: seq<Token> := [];
    assert TokensOf(segments).Before([]) == TokensOf(segments);
    for k := 0 to |segments|
      invariant TokensOf(segments) == TokensOf(segments[k..]).Before(tokens)
    {
      ghost var rest := segments[k..];
      assert rest[0] == segments[k] && rest[1..] == segments[k + 1..];
      match segments[k]
      case Literal(content) =>
        BeforeTwice(TokensOf(rest[1..]), tokens, [LiteralValue(content)]);
        tokens := tokens + [LiteralValue(content)];
      case Text(content) =>
        var result := TokenizeTextSegment(content, tokens);
        if result.Untokenizable? {
          return result;
        }
        ghost var ts := TokensFrom(content, 0).tokens;
        BeforeTwice(TokensOf(rest[1..]), tokens, ts);
        tokens := result.tokens;
    }
    assert segments[|segments|..] == [] && tokens + [] == tokens;
    return Tokens(tokens);
  }

  // ----- tokens of texts put side by side

  lemma {:induction false} QuotedShift(before: bytes, bs: bytes, i: nat, soFar: bytes)
    requires 1 <= i <= |bs|
    ensures QuotedFrom(before + bs, |before| + i, soFar)
         == match QuotedFrom(bs, i, soFar)
            case Closed(value, next) => Closed(value, |before| + next)
            case Unclosed(e) => Unclosed(e)
    decreases |bs| - i
  {
    var all := before + bs;
    if i < |bs| {
      assert all[|before| + i] == bs[i] && all[|before| + i - 1] == bs[i - 1];
      if !IsBareLfAt(bs, i) {
        if bs[i] == BACKSLASH {
          if i + 1 < |bs| {
            assert all[|before| + i + 1] == bs[i + 1];
            QuotedShift(before, bs, i + 2, soFar + [bs[i + 1]]);
          }
        } else if bs[i] != DQUOTE {
          QuotedShift(before, bs, i + 1, soFar + [bs[i]]);
        }
      }
    }
  }

  lemma {:induction false} AtomShift(before: bytes, bs: bytes, i: nat)
    requires i <= |bs|
    ensures AtomEnd(before + bs, |before| + i) == |before| + AtomEnd(bs, i)
    decreases |bs| - i
  {
    if i < |bs| {
      assert (before + bs)[|before| + i] == bs[i];
      if !EndsAtom(bs[i]) {
        AtomShift(before, bs, i + 1);
      }
    }
  }

  lemma LonePlusShift(before: bytes, bs: bytes, i: nat)
    requires i < |bs|
    ensures IsLonePlus(before + bs, |before| + i) == IsLonePlus(bs, i)
  {
    assert i + 1 < |bs| ==> (before + bs)[|before| + i + 1] == bs[i + 1];
  }

  /** Only the text from `i` on matters to a tokenizer that stands there. */
  lemma {:induction false} TokensShift(before: bytes, bs: bytes, i: nat)
    requires i <= |bs|
    ensures TokensFrom(before + bs, |before| + i) == TokensFrom(bs, i)
    decreases |bs| - i
  {
    hide QuotedFrom, AtomEnd, AtomToken, IsLonePlus;
    var all := before + bs;
    var at := |before| + i;
    if i < |bs| {
      assert all[at] == bs[i];
      LonePlusShift(before, bs, i);
      if bs[i] == DQUOTE {
        QuotedShift(before, bs, i + 1, []);
        match QuotedFrom(bs, i + 1, []) {
          case Closed(value, next) => TokensShift(before, bs, next);
          case Unclosed(_) =>
        }
      } else if IsSpace(bs[i]) || IsBracket(bs[i]) || IsLonePlus(bs, i) {
        TokensShift(before, bs, i + 1);
      } else {
        var end := AtomEnd(bs, i);
        AtomShift(before, bs, i);
        assert all[at..|before| + end] == bs[i..end];
        assert end > i by { assert !EndsAtom(bs[i]); }
        TokensShift(before, bs, end);
      }
    }
  }

  lemma {:induction false} QuotedExtends(a: bytes, b: bytes, i: nat, soFar: bytes)
    requires i <= |a| && QuotedFrom(a, i, soFar).Closed?
    ensures QuotedFrom(a + b, i, soFar) == QuotedFrom(a, i, soFar)
    decreases |a| - i
  {
    var all := a + b;
    assert all[i] == a[i] && (i > 0 ==> all[i - 1] == a[i - 1]);
    if a[i] == BACKSLASH {
      assert all[i + 1] == a[i + 1];
      QuotedExtends(a, b, i + 2, soFar + [a[i + 1]]);
    } else if a[i] != DQUOTE {
      QuotedExtends(a, b, i + 1, soFar + [a[i]]);
    }
  }

  lemma {:induction false} AtomExtends(a: bytes, b: bytes, i: nat)
    requires i <= |a| && (b == [] || EndsAtom(b[0]))
    ensures AtomEnd(a + b, i) == AtomEnd(a, i)
    decreases |a| - i
  {
    if i < |a| {
      assert (a + b)[i] == a[i];
      if !EndsAtom(a[i]) {
        AtomExtends(a, b, i + 1);
      }
    } else if b != [] {
      assert (a + b)[i] == b[0];
    }
  }

  lemma {:induction false} TokensConcatFrom(a: bytes, b: bytes, i: nat)
    requires i <= |a| && (b == [] || b[0] == SPACE)
    requires TokensFrom(a, i).Tokens?
    ensures TokensFrom(a + b, i) == TokensFrom(b, 0).Before(TokensFrom(a, i).tokens)
    decreases |a| - i
  {
    var all := a + b;
    if i == |a| {
      TokensShift(a, b, 0);
      assert TokensFrom(b, 0).Tokens? ==> [] + TokensFrom(b, 0).tokens == TokensFrom(b, 0).tokens;
    } else {
      assert all[i] == a[i];
      assert i + 1 < |a| ==> all[i + 1] == a[i + 1];
      assert i + 1 == |a| && b != [] ==> all[i + 1] == SPACE;
      assert IsLonePlus(all, i) == IsLonePlus(a, i);
      if a[i] == DQUOTE {
        var q := QuotedFrom(a, i + 1, []);
        QuotedExtends(a, b, i + 1, []);
        TokensConcatFrom(a, b, q.next);
        BeforeTwice(TokensFrom(b, 0), [Quoted(q.value)], TokensFrom(a, q.next).tokens);
      } else if IsSpace(a[i]) {
        TokensConcatFrom(a, b, i + 1);
      } else if IsBracket(a[i]) {
        TokensConcatFrom(a, b, i + 1);
        BeforeTwice(TokensFrom(b, 0), [BracketToken(a[i])], TokensFrom(a, i + 1).tokens);
      } else if IsLonePlus(a, i) {
        TokensConcatFrom(a, b, i + 1);
        BeforeTwice(TokensFrom(b, 0), [PlusSign], TokensFrom(a, i + 1).tokens);
      } else {
        var end := AtomEnd(a, i);
        AtomExtends(a, b, i);
        assert all[i..end] == a[i..end];
        assert end > i by { assert !EndsAtom(a[i]); }
        TokensConcatFrom(a, b, end);
        BeforeTwice(TokensFrom(b, 0), [AtomToken(a[i..end])], TokensFrom(a, end).tokens);
      }
    }
  }

  /** Where a space separates them, texts have their tokens one after the other. */
  lemma TokensConcat(a: bytes, b: bytes)
    requires b == [] || b[0] == SPACE
    requires TokensFrom(a, 0).Tokens?
    ensures TokensFrom(a + b, 0) == TokensFrom(b, 0).Before(TokensFrom(a, 0).tokens)
  {
    TokensConcatFrom(a, b, 0);
  }
}
