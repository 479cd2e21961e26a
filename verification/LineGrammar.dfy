/**
 What a logical line is (section 4.3 of RFC 9051), said of the octets: texts that end in `{n}` or `{n+}`
 and a CRLF, the literal of that length behind each, and a last text that announces none. A reading
 completes on exactly these, and fails on exactly the first octets that cannot be one.
 */
module LineGrammar {
  import opened Bytes
  import opened LogicalLine

  // ----- texts and their line ends

  /** The octet in front is a CR, as at the end of a literal that ends in one. */
  predicate IsBehindCr(buf: bytes, at: nat) {
    0 < at <= |buf| && buf[at - 1] == CR
  }

  /** No LF but, behind a CR that is not the text's own, in front. */
  predicate IsRun(run: bytes, isBehindCr: bool) {
    forall k | 0 <= k < |run| :: run[k] == LF ==> k == 0 && isBehindCr
  }

  /** The text from `at` up to a CRLF. */
  predicate EndsRun(buf: bytes, at: nat, run: bytes) {
    var crlf := at + |run|;
    && crlf + 2 <= |buf| && buf[at..crlf] == run && buf[crlf] == CR && buf[crlf + 1] == LF
    && IsRun(run, IsBehindCr(buf, at))
  }

  lemma RunIsFound(buf: bytes, at: nat, run: bytes)
    requires EndsRun(buf, at, run)
    ensures FirstCrlf(buf, at) == Some(at + |run|) && FirstBareLf(buf, at, at + |run|) == None
  {
    var crlf := at + |run|;
    assert forall i | at <= i < crlf :: buf[i] == run[i - at];
    FirstCrlfIs(buf, at, crlf);
  }

  lemma FoundIsRun(buf: bytes, at: nat, crlf: nat)
    requires FirstCrlf(buf, at) == Some(crlf) && FirstBareLf(buf, at, crlf) == None
    ensures EndsRun(buf, at, buf[at..crlf])
  {
    var run := buf[at..crlf];
    forall k | 0 <= k < |run|
      ensures run[k] == LF ==> k == 0 && IsBehindCr(buf, at)
    {
      assert !IsBareLfAt(buf, at + k);
      assert k > 0 ==> !IsCrlfAt(buf, at + k - 1);
    }
  }

  // ----- headers

  function Mark(digits: bytes, hasPlus: bool): bytes {
    [LBRACE] + digits + (if hasPlus then [PLUS] else []) + [RBRACE]
  }

  predicate IsMarked(run: bytes, text: bytes, digits: bytes, hasPlus: bool) {
    AllDigits(digits) && run == text + Mark(digits, hasPlus)
  }

  /** A brace that closes, and one that opens. */
  predicate HasBraces(run: bytes) {
    run != [] && run[|run| - 1] == RBRACE && LBRACE in run
  }

  ghost predicate IsAnyMarked(run: bytes) {
    exists text, digits, hasPlus :: IsMarked(run, text, digits, hasPlus)
  }

  lemma MarkedHeader(run: bytes, text: bytes, digits: bytes, hasPlus: bool, limit: nat)
    requires IsMarked(run, text, digits, hasPlus)
    ensures HeaderOf(run, limit) == LengthHeader(digits, |text|, limit) && HasBraces(run)
  {
    var start, end := |text| + 1, |text| + 1 + |digits|;
    assert run[|text|] == LBRACE;
    forall k | start <= k < end
      ensures IsDigit(run[k])
    {
      assert run[k] == digits[k - start];
    }
    assert DigitsEnd(run) == end;
    DigitsFrom(run, start, end);
    assert run[start..end] == digits;
  }

  lemma {:induction false} DigitsFrom(line: bytes, start: nat, end: nat)
    requires 1 <= start <= end <= |line| && !IsDigit(line[start - 1])
    requires forall k | start <= k < end :: IsDigit(line[k])
    ensures DigitsStart(line, end) == start
    decreases end
  {
    if end > start {
      DigitsFrom(line, start, end - 1);
    }
  }

  lemma UnmarkedHeader(run: bytes, limit: nat)
    requires !IsAnyMarked(run)
    ensures HeaderOf(run, limit) == if HasBraces(run) then BadHeader(HeaderSyntax) else NoHeader
  {
    if run != [] && run[|run| - 1] == RBRACE {
      var end := DigitsEnd(run);
      var start := DigitsStart(run, end);
      if start > 0 && run[start - 1] == LBRACE {
        var hasPlus := end < |run| - 1;
        assert run == run[..start - 1] + Mark(run[start..end], hasPlus);
        assert IsMarked(run, run[..start - 1], run[start..end], hasPlus);
      }
      assert LBRACE in run <==> LBRACE in run[..|run| - 1];
    }
  }

  // ----- parts of a line

  /** A text, the length behind it, and the literal of that length. */
  datatype Part = Part(text: bytes, digits: bytes, hasPlus: bool, literal: bytes)

  function SizeOf(p: Part): nat {
    |p.text| + |Mark(p.digits, p.hasPlus)| + 2 + |p.literal|
  }

  predicate PartAt(buf: bytes, at: nat, limit: nat, p: Part) {
    var run := p.text + Mark(p.digits, p.hasPlus);
    && EndsRun(buf, at, run)
    && p.digits != [] && AllDigits(p.digits) && DecimalValue(p.digits) == |p.literal|
    && |p.literal| <= limit && |p.literal| <= 0xffffffff
    && at + SizeOf(p) <= |buf| && buf[at + |run| + 2..at + SizeOf(p)] == p.literal
  }

  predicate PartsAt(buf: bytes, at: nat, limit: nat, ps: seq<Part>)
    decreases |ps|
  {
    if ps == [] then at <= |buf| else PartAt(buf, at, limit, ps[0]) && PartsAt(buf, at + SizeOf(ps[0]), limit, ps[1..])
  }

  function PartsEnd(at: nat, ps: seq<Part>): nat
    decreases |ps|
  {
    if ps == [] then at else PartsEnd(at + SizeOf(ps[0]), ps[1..])
  }

  function PartSegments(ps: seq<Part>): seq<Segment> {
    if ps == [] then []
    else (if ps[0].text == [] then [] else [Text(ps[0].text)]) + [Literal(ps[0].literal)] + PartSegments(ps[1..])
  }

  /** A last text, which announces no literal. */
  predicate LastAt(buf: bytes, at: nat, last: bytes) {
    EndsRun(buf, at, last) && !HasBraces(last)
  }

  /** Why a text that ends in a closing brace cannot end there. */
  ghost predicate IsBadRun(run: bytes, limit: nat, why: Failure) {
    match why
    case BareLf(_) => false
    case HeaderSyntax => HasBraces(run) && !IsAnyMarked(run)
    case EmptyLength => exists text, hasPlus :: IsMarked(run, text, [], hasPlus)
    case LengthNotUint32(digits) =>
      && digits != [] && AllDigits(digits) && DecimalValue(digits) > 0xffffffff
      && exists text, hasPlus :: IsMarked(run, text, digits, hasPlus)
    case LiteralTooLong(length, most) =>
      && most == limit < length <= 0xffffffff
      && exists text, digits, hasPlus ::
           IsMarked(run, text, digits, hasPlus) && digits != [] && DecimalValue(digits) == length
  }

  /** The first LF that no CR precedes, with no line end before it. */
  predicate IsFirstBareLf(buf: bytes, at: nat, i: nat) {
    && at <= i < |buf| && buf[i] == LF && !IsBehindCr(buf, i)
    && IsRun(buf[at..i], IsBehindCr(buf, at))
  }

  ghost predicate FailsAt(buf: bytes, at: nat, limit: nat, why: Failure) {
    match why
    case BareLf(i) => IsFirstBareLf(buf, at, i)
    case _ => exists run :: EndsRun(buf, at, run) && IsBadRun(run, limit, why)
  }

  // ----- one round

  lemma RunRound(buf: bytes, limit: nat, segments: seq<Segment>, at: nat, run: bytes)
    requires EndsRun(buf, at, run)
    ensures (HeaderOf(run, limit).Announces? ==> HeaderOf(run, limit).brace < |run|)
         && RoundOf(buf, limit, segments, at, at) == AtCrlf(buf, segments, run, at + |run|, HeaderOf(run, limit))
  {
    hide HeaderOf, AtCrlf;
    RunIsFound(buf, at, run);
    HeaderBraceInside(run, limit);
  }

  lemma PartRound(buf: bytes, limit: nat, segments: seq<Segment>, at: nat, p: Part)
    requires PartAt(buf, at, limit, p)
    ensures at < |buf|
    ensures RoundOf(buf, limit, segments, at, at) == GoOn(segments + PartSegments([p]), at + SizeOf(p))
  {
    hide HeaderOf, Mark, RoundOf, EndsRun;
    var run := p.text + Mark(p.digits, p.hasPlus);
    assert IsMarked(run, p.text, p.digits, p.hasPlus);
    MarkedHeader(run, p.text, p.digits, p.hasPlus, limit);
    RunRound(buf, limit, segments, at, run);
    assert at < |buf| by { RunWithin(buf, at, run); }
    assert [p][1..] == [];
    assert segments + PartSegments([p]) == segments + TextUnlessEmpty(p.text) + [Literal(p.literal)];
  }

  lemma RunWithin(buf: bytes, at: nat, run: bytes)
    requires EndsRun(buf, at, run)
    ensures at + |run| + 2 <= |buf|
  {
  }

  /** A header says no more than the octets do. */
  lemma HeaderSays(run: bytes, limit: nat)
    ensures match HeaderOf(run, limit)
            case NoHeader => !HasBraces(run)
            case BadHeader(why) => IsBadRun(run, limit, why)
            case Announces(length, brace) =>
              exists digits, hasPlus ::
                && brace <= |run| && IsMarked(run, run[..brace], digits, hasPlus)
                && digits != [] && DecimalValue(digits) == length && length <= limit && length <= 0xffffffff
  {
    if text, digits, hasPlus :| IsMarked(run, text, digits, hasPlus) {
      MarkedHeader(run, text, digits, hasPlus, limit);
      assert run[..|text|] == text;
    } else {
      UnmarkedHeader(run, limit);
    }
  }

  lemma BadRunFails(run: bytes, limit: nat, why: Failure)
    requires IsBadRun(run, limit, why)
    ensures HeaderOf(run, limit) == BadHeader(why)
  {
    hide HeaderOf;
    match why
    case HeaderSyntax => UnmarkedHeader(run, limit);
    case EmptyLength =>
      var text, hasPlus :| IsMarked(run, text, [], hasPlus);
      MarkedHeader(run, text, [], hasPlus, limit);
    case LengthNotUint32(digits) =>
      var text, hasPlus :| IsMarked(run, text, digits, hasPlus);
      MarkedHeader(run, text, digits, hasPlus, limit);
    case LiteralTooLong(length, _) =>
      var text, digits, hasPlus :| IsMarked(run, text, digits, hasPlus) && digits != [] && DecimalValue(digits) == length;
      MarkedHeader(run, text, digits, hasPlus, limit);
  }

  lemma LastFits(run: bytes, limit: nat)
    requires !HasBraces(run)
    ensures HeaderOf(run, limit) == NoHeader
  {
    if text, digits, hasPlus :| IsMarked(run, text, digits, hasPlus) {
      MarkedHeader(run, text, digits, hasPlus, limit);
    } else {
      UnmarkedHeader(run, limit);
    }
  }

  /** What a round answers is there in the octets. */
  ghost predicate RoundSays(buf: bytes, limit: nat, segments: seq<Segment>, at: nat, round: Round) {
    match round
    case GoOn(segments', at') =>
      exists p :: PartAt(buf, at, limit, p) && segments' == segments + PartSegments([p]) && at' == at + SizeOf(p)
    case Stop(Complete(segments', consumed)) =>
      exists last :: LastAt(buf, at, last) && segments' == segments + [Text(last)] && consumed == at + |last| + 2
    case Stop(Failed(why)) => FailsAt(buf, at, limit, why)
    case Stop(Incomplete(_)) => true
  }

  lemma RoundIsTrue(buf: bytes, limit: nat, segments: seq<Segment>, at: nat)
    requires at < |buf|
    ensures RoundSays(buf, limit, segments, at, RoundOf(buf, limit, segments, at, at))
  {
    hide HeaderOf, IsBadRun, HasBraces, Mark;
    match FirstCrlf(buf, at)
    case None =>
      if FirstBareLf(buf, at, |buf|).Some? {
        BareLfIsFirst(buf, at, |buf|, FirstBareLf(buf, at, |buf|).value);
      }
    case Some(crlf) =>
      if FirstBareLf(buf, at, crlf).Some? {
        BareLfIsFirst(buf, at, crlf, FirstBareLf(buf, at, crlf).value);
      } else {
        var run := buf[at..crlf];
        FoundIsRun(buf, at, crlf);
        HeaderSays(run, limit);
        HeaderBraceInside(run, limit);
        match HeaderOf(run, limit)
        case NoHeader => assert LastAt(buf, at, run);
        case BadHeader(why) =>
        case Announces(length, brace) =>
          AnnouncedPart(buf, limit, segments, at, crlf, length, brace);
      }
  }

  lemma AnnouncedPart(buf: bytes, limit: nat, segments: seq<Segment>, at: nat, crlf: nat, length: nat, brace: nat)
    requires at <= crlf <= |buf| && EndsRun(buf, at, buf[at..crlf])
    requires HeaderOf(buf[at..crlf], limit) == Announces(length, brace) && brace < crlf - at
    ensures var round := AtCrlf(buf, segments, buf[at..crlf], crlf, HeaderOf(buf[at..crlf], limit));
            RoundSays(buf, limit, segments, at, round)
  {
    hide HeaderOf, Mark, EndsRun;
    var run := buf[at..crlf];
    RunWithin(buf, at, run);
    HeaderSays(run, limit);
    var digits, hasPlus :| IsMarked(run, run[..brace], digits, hasPlus) && digits != [] && DecimalValue(digits) == length;
    var round := AtCrlf(buf, segments, run, crlf, HeaderOf(run, limit));
    if round.GoOn? {
      var p := Part(run[..brace], digits, hasPlus, buf[crlf + 2..crlf + 2 + length]);
      assert PartAt(buf, at, limit, p);
      assert [p][1..] == [];
      assert segments + PartSegments([p]) == round.segments;
    }
  }

  lemma BareLfIsFirst(buf: bytes, at: nat, to: nat, i: nat)
    requires to <= |buf| && FirstBareLf(buf, at, to) == Some(i)
    requires forall k | at <= k < i :: !IsCrlfAt(buf, k)
    ensures IsFirstBareLf(buf, at, i)
  {
    var run := buf[at..i];
    forall k | 0 <= k < |run|
      ensures run[k] == LF ==> k == 0 && IsBehindCr(buf, at)
    {
      assert !IsBareLfAt(buf, at + k);
      assert k > 0 ==> !IsCrlfAt(buf, at + k - 1);
    }
  }

  /** And what is there is answered. */
  lemma FailRound(buf: bytes, limit: nat, segments: seq<Segment>, at: nat, why: Failure)
    requires FailsAt(buf, at, limit, why)
    ensures at < |buf| && RoundOf(buf, limit, segments, at, at) == Stop(Failed(why))
  {
    if why.BareLf? {
      FirstBareLfFails(buf, limit, segments, at, why.index);
    } else {
      hide HeaderOf, RoundOf, IsBadRun;
      var run :| EndsRun(buf, at, run) && IsBadRun(run, limit, why);
      RunWithin(buf, at, run);
      RunRound(buf, limit, segments, at, run);
      BadRunFails(run, limit, why);
    }
  }

  lemma FirstBareLfFails(buf: bytes, limit: nat, segments: seq<Segment>, at: nat, i: nat)
    requires IsFirstBareLf(buf, at, i)
    ensures RoundOf(buf, limit, segments, at, at) == Stop(Failed(BareLf(i)))
  {
    hide HeaderOf;
    assert forall k | at <= k < i :: buf[k] == buf[at..i][k - at];
    var to := match FirstCrlf(buf, at) case None => |buf| case Some(crlf) => crlf;
    assert i < to;
    FirstBareLfIs(buf, at, to, i);
  }

  lemma LastRound(buf: bytes, limit: nat, segments: seq<Segment>, at: nat, last: bytes)
    requires LastAt(buf, at, last)
    ensures at < |buf|
    ensures RoundOf(buf, limit, segments, at, at) == Stop(Complete(segments + [Text(last)], at + |last| + 2))
  {
    hide HeaderOf, RoundOf, EndsRun, HasBraces;
    RunWithin(buf, at, last);
    RunRound(buf, limit, segments, at, last);
    LastFits(last, limit);
  }

  // ----- the whole reading

  lemma {:induction false} PartsScan(buf: bytes, limit: nat, segments: seq<Segment>, at: nat, ps: seq<Part>)
    requires PartsAt(buf, at, limit, ps)
    ensures PartsEnd(at, ps) <= |buf|
    ensures Scan(buf, limit, segments, at, at)
         == Scan(buf, limit, segments + PartSegments(ps), PartsEnd(at, ps), PartsEnd(at, ps))
    decreases |ps|
  {
    hide PartAt, RoundOf;
    if ps == [] {
      assert segments + [] == segments;
    } else {
      var p := ps[0];
      PartRound(buf, limit, segments, at, p);
      PartsScan(buf, limit, segments + PartSegments([p]), at + SizeOf(p), ps[1..]);
      PartSegmentsFirst(ps);
      ConcatAssoc(segments, PartSegments([p]), PartSegments(ps[1..]));
    }
  }

  lemma PartSegmentsFirst(ps: seq<Part>)
    requires ps != []
    ensures PartSegments(ps) == PartSegments([ps[0]]) + PartSegments(ps[1..])
  {
    assert [ps[0]][1..] == [];
    assert PartSegments([]) == [];
  }

  /** The parts a reading took, and what ended it behind them. */
  ghost predicate EndsBehind(buf: bytes, at: nat, limit: nat, segments: seq<Segment>, ps: seq<Part>, end: Reading) {
    && PartsAt(buf, at, limit, ps)
    && var from := PartsEnd(at, ps);
       match end
       case Complete(segments', consumed) =>
         exists last :: LastAt(buf, from, last) && segments' == segments + PartSegments(ps) + [Text(last)]
                        && consumed == from + |last| + 2
       case Failed(why) => FailsAt(buf, from, limit, why)
       case Incomplete(_) => true
  }

  lemma {:induction false} ScanEnds(buf: bytes, limit: nat, segments: seq<Segment>, at: nat) returns (ps: seq<Part>)
    requires at <= |buf|
    ensures EndsBehind(buf, at, limit, segments, ps, Scan(buf, limit, segments, at, at))
    decreases |buf| - at
  {
    hide RoundOf, PartAt, LastAt, FailsAt;
    ps := [];
    assert segments + PartSegments([]) == segments;
    if at < |buf| {
      RoundIsTrue(buf, limit, segments, at);
      var round := RoundOf(buf, limit, segments, at, at);
      if round.GoOn? {
        var p :| PartAt(buf, at, limit, p) && round.segments == segments + PartSegments([p]) && round.at == at + SizeOf(p);
        var later := ScanEnds(buf, limit, round.segments, round.at);
        ps := [p] + later;
        assert ps[1..] == later;
        PartSegmentsFirst(ps);
        ConcatAssoc(segments, PartSegments([p]), PartSegments(later));
      }
    }
  }

  lemma EndsScan(buf: bytes, limit: nat, segments: seq<Segment>, at: nat, ps: seq<Part>, end: Reading)
    requires EndsBehind(buf, at, limit, segments, ps, end) && !end.Incomplete?
    ensures Scan(buf, limit, segments, at, at) == end
  {
    hide RoundOf, PartAt, LastAt, FailsAt, PartSegments;
    PartsScan(buf, limit, segments, at, ps);
    var from := PartsEnd(at, ps);
    match end
    case Complete(_, consumed) =>
      var last :| LastAt(buf, from, last) && end.segments == segments + PartSegments(ps) + [Text(last)]
                  && consumed == from + |last| + 2;
      LastRound(buf, limit, segments + PartSegments(ps), from, last);
    case Failed(why) => FailRound(buf, limit, segments + PartSegments(ps), from, why);
  }

  /**
   A reading from the start completes, with these segments, exactly on a line of parts and a last text
   that are those segments, and fails exactly where parts are followed by what no line can have there;
   in every other case it asks for more.
   */
  lemma LinesExactly(buf: bytes, limit: nat, end: Reading)
    requires !end.Incomplete?
    ensures OneShot(buf, limit) == end <==> exists ps :: EndsBehind(buf, 0, limit, [], ps, end)
  {
    hide Scan, EndsBehind;
    if OneShot(buf, limit) == end {
      var ps := ScanEnds(buf, limit, [], 0);
    }
    if ps :| EndsBehind(buf, 0, limit, [], ps, end) {
      EndsScan(buf, limit, [], 0, ps, end);
    }
  }
}
