/**
 Framing of the IMAP byte stream into logical lines (RFC 9051 section 4): text runs and literals
 up to a CRLF that announces no literal. `Scan` is the one-shot reading of a whole buffer; the
 reader of `packages/imap/src/tokenizer.ts` stops in the middle and resumes on a longer buffer.
 */
module LogicalLine {
  import opened Bytes

  datatype Segment = Text(content: bytes) | Literal(content: bytes)

  datatype Failure =
    | BareLf(index: nat)
    | HeaderSyntax
    | EmptyLength
    | LengthNotUint32(digits: bytes)
    | LiteralTooLong(length: nat, limit: nat)

  /** What an unfinished reading keeps, so that the next one need not start over. */
  datatype Resume = Resume(
    resumeAt: nat,
    needBytes: nat,
    segments: seq<Segment>,
    textStart: nat,
    pending: Option<(nat, nat)>)

  datatype Reading =
    | Complete(segments: seq<Segment>, consumed: nat)
    | Incomplete(resume: Resume)
    | Failed(failure: Failure)

  // ----- the two searches

  predicate IsCrlfAt(buf: bytes, i: int) {
    0 <= i && i + 1 < |buf| && buf[i] == CR && buf[i + 1] == LF
  }

  predicate IsBareLfAt(buf: bytes, i: int) {
    0 <= i < |buf| && buf[i] == LF && (i == 0 || buf[i - 1] != CR)
  }

  /** The first CRLF at or after `from`. */
  function FirstCrlf(buf: bytes, from: nat): (r: Option<nat>)
    ensures r.Some? ==> from <= r.value && IsCrlfAt(buf, r.value)
    ensures r.Some? ==> forall i | from <= i < r.value :: !IsCrlfAt(buf, i)
    ensures r.None? ==> forall i | from <= i :: !IsCrlfAt(buf, i)
    decreases |buf| - from
  {
    if from >= |buf| then None
    else if IsCrlfAt(buf, from) then Some(from)
    else FirstCrlf(buf, from + 1)
  }

  /** The first bare LF in `from..to`. */
  function FirstBareLf(buf: bytes, from: nat, to: nat): (r: Option<nat>)
    requires to <= |buf|
    ensures r.Some? ==> from <= r.value < to && IsBareLfAt(buf, r.value)
    ensures r.Some? ==> forall i | from <= i < r.value :: !IsBareLfAt(buf, i)
    ensures r.None? ==> (forall i | from <= i < to :: !IsBareLfAt(buf, i))
    decreases (to as int) - from
  {
    if from >= to then None
    else if IsBareLfAt(buf, from) then Some(from)
    else FirstBareLf(buf, from + 1, to)
  }

  /** A first position is determined by what it is the first of. */
  lemma FirstCrlfIs(buf: bytes, from: nat, at: nat)
    requires from <= at && IsCrlfAt(buf, at)
    requires forall i | from <= i < at :: !IsCrlfAt(buf, i)
    ensures FirstCrlf(buf, from) == Some(at)
  {
  }

  lemma FirstBareLfIs(buf: bytes, from: nat, to: nat, at: nat)
    requires from <= at < to <= |buf| && IsBareLfAt(buf, at)
    requires forall i | from <= i < at :: !IsBareLfAt(buf, i)
    ensures FirstBareLf(buf, from, to) == Some(at)
  {
  }

  // ----- literal headers

  datatype Header = NoHeader | BadHeader(why: Failure) | Announces(length: nat, brace: nat)

  /** Where the run of digits that ends at `end` begins. */
  function DigitsStart(line: bytes, end: nat): (r: nat)
    requires end <= |line|
    ensures r <= end && AllDigits(line[r..end])
    ensures r == 0 || !IsDigit(line[r - 1])
  {
    if end == 0 || !IsDigit(line[end - 1]) then end
    else
      var r := DigitsStart(line, end - 1);
      assert line[r..end] == line[r..end - 1] + [line[end - 1]];
      r
  }

  /** The length between the braces, within 32 bits and the caller's limit. */
  function LengthHeader(digits: bytes, brace: nat, limit: nat): Header
    requires AllDigits(digits)
  {
    if digits == [] then BadHeader(EmptyLength)
    else
      var n := DecimalValue(digits);
      if n > MAX_UINT32 then BadHeader(LengthNotUint32(digits))
      else if n > limit then BadHeader(LiteralTooLong(n, limit))
      else Announces(n, brace)
  }

  /** Left of the closing brace, and of a `+` before it. */
  function DigitsEnd(line: bytes): (r: nat)
    requires line != []
    ensures r < |line|
  {
    var close := |line| - 1;
    if close > 0 && line[close - 1] == PLUS then close - 1 else close
  }

  /** What the text before a CRLF says about a literal: `{n}` or `{n+}` at its end announces one. */
  function HeaderOf(line: bytes, limit: nat): Header {
    if line == [] || line[|line| - 1] != RBRACE then NoHeader
    else
      var digitsEnd := DigitsEnd(line);
      var digitsStart := DigitsStart(line, digitsEnd);
      if digitsStart == 0 || line[digitsStart - 1] != LBRACE then
        if LBRACE in line[..|line| - 1] then BadHeader(HeaderSyntax) else NoHeader
      else LengthHeader(line[digitsStart..digitsEnd], digitsStart - 1, limit)
  }

  lemma HeaderBraceInside(line: bytes, limit: nat)
    ensures HeaderOf(line, limit).Announces? ==> HeaderOf(line, limit).brace < |line|
  {
  }

  // ----- one-shot reading

  function TextUnlessEmpty(content: bytes): seq<Segment> {
    if content == [] then [] else [Text(content)]
  }

  function Waiting(buf: bytes, segments: seq<Segment>, textStart: nat): Reading {
    Incomplete(Resume(Max(textStart, |buf| - 1), |buf| + 1, segments, textStart, None))
  }

  /** One round: the reading ends here, or goes on after a literal. */
  datatype Round = Stop(reading: Reading) | GoOn(segments: seq<Segment>, at: nat)

  /** The text run `line` ended at `crlf` and its header says `h`: a line ends, or a literal follows. */
  function AtCrlf(buf: bytes, segments: seq<Segment>, line: bytes, crlf: nat, h: Header): (r: Round)
    requires crlf + 2 <= |buf|
    requires h.Announces? ==> h.brace < |line|
    ensures r.GoOn? ==> crlf + 2 <= r.at <= |buf|
  {
    match h
    case NoHeader => Stop(Complete(segments + [Text(line)], crlf + 2))
    case BadHeader(why) => Stop(Failed(why))
    case Announces(length, brace) =>
      var segments' := segments + TextUnlessEmpty(line[..brace]);
      var start, end := crlf + 2, crlf + 2 + length;
      if |buf| < end then Stop(Incomplete(Resume(crlf, end, segments', end, Some((start, end)))))
      else GoOn(segments' + [Literal(buf[start..end])], end)
  }

  function RoundOf(buf: bytes, limit: nat, segments: seq<Segment>, scan: nat, textStart: nat): (r: Round)
    requires textStart <= scan < |buf|
    ensures r.GoOn? ==> scan < r.at <= |buf|
  {
    match FirstCrlf(buf, scan)
    case None =>
      (match FirstBareLf(buf, scan, |buf|)
       case Some(i) => Stop(Failed(BareLf(i)))
       case None => Stop(Waiting(buf, segments, textStart)))
    case Some(crlf) =>
      match FirstBareLf(buf, scan, crlf)
      case Some(i) => Stop(Failed(BareLf(i)))
      case None =>
        var line := buf[textStart..crlf];
        HeaderBraceInside(line, limit);
        AtCrlf(buf, segments, line, crlf, HeaderOf(line, limit))
  }

  /** Reads on from `scan`; the text run under way began at `textStart`. */
  function Scan(buf: bytes, limit: nat, segments: seq<Segment>, scan: nat, textStart: nat): Reading
    requires textStart <= scan
    decreases |buf| - scan
  {
    if scan >= |buf| then Waiting(buf, segments, textStart)
    else
      match RoundOf(buf, limit, segments, scan, textStart)
      case Stop(reading) => reading
      case GoOn(segments', at) => Scan(buf, limit, segments', at, at)
  }

  function After(buf: bytes, limit: nat, round: Round): Reading {
    match round
    case Stop(reading) => reading
    case GoOn(segments, at) => Scan(buf, limit, segments, at, at)
  }

  /** The whole buffer read afresh, as when nothing was kept. */
  function OneShot(buf: bytes, limit: nat): Reading {
    Scan(buf, limit, [], 0, 0)
  }

  predicate WellFormed(r: Resume) {
    match r.pending
    case None => r.textStart <= r.resumeAt
    case Some(p) => p.0 <= p.1 && r.needBytes == p.1
  }

  /** The reading of `buf` when `r` was kept from a shorter one. */
  function Resumed(buf: bytes, limit: nat, r: Resume): Reading
    requires WellFormed(r)
  {
    match r.pending
    case None => Scan(buf, limit, r.segments, r.resumeAt, r.textStart)
    case Some(p) =>
      if |buf| < p.1 then Incomplete(r)
      else Scan(buf, limit, r.segments + [Literal(buf[p.0..p.1])], p.1, p.1)
  }

  // ----- the reader of the source, in its own form

  method CheckBareLf(buf: bytes, start: nat, end: nat) returns (failure: Option<Failure>)
    requires end <= |buf|
    ensures failure == match FirstBareLf(buf, start, end)
                       case None => None
                       case Some(i) => Some(BareLf(i))
  {
    var i := start;
    while i < end
      invariant start <= i
      invariant FirstBareLf(buf, start, end) == FirstBareLf(buf, i, end)
      decreases end - i
    {
      if buf[i] == LF && (i == 0 || buf[i - 1] != CR) {
        return Some(BareLf(i));
      }
      i := i + 1;
    }
    return None;
  }

  function AbsoluteHeader(h: Header, textStart: nat): Header {
    match h
    case Announces(length, brace) => Announces(length, textStart + brace)
    case _ => h
  }

  /** Walks left from `from` over digits; `textStart - 1` when the text run holds nothing else. */
  method SkipDigitsLeft(buf: bytes, textStart: nat, from: int) returns (i: int)
    requires textStart <= |buf| && from < |buf|
    ensures from < textStart ==> i == from
    ensures from >= textStart ==> textStart - 1 <= i <= from
    ensures from >= textStart - 1 ==>
              DigitsStart(buf[textStart..from + 1], from + 1 - textStart) == i + 1 - textStart
  {
    ghost var line := if from >= textStart then buf[textStart..from + 1] else [];
    i := from;
    while i >= textStart && IsDigit(buf[i])
      invariant from < textStart ==> i == from
      invariant from >= textStart ==> textStart - 1 <= i <= from
      invariant from >= textStart ==> DigitsStart(line, |line|) == DigitsStart(line, i + 1 - textStart)
    {
      assert line[i - textStart] == buf[i];
      i := i - 1;
    }
    assert i >= textStart ==> line[i - textStart] == buf[i];
  }

  method HasOpenBrace(buf: bytes, textStart: nat, last: int) returns (found: bool)
    requires textStart <= |buf| && last < |buf|
    ensures found <==> last >= textStart && LBRACE in buf[textStart..last + 1]
  {
    var j := last;
    while j >= textStart
      invariant last < textStart ==> j == last
      invariant last >= textStart ==> textStart - 1 <= j <= last
      invariant last >= textStart ==> LBRACE !in buf[j + 1..last + 1]
    {
      if buf[j] == LBRACE {
        assert buf[textStart..last + 1][j - textStart] == LBRACE;
        return true;
      }
      assert buf[j..last + 1] == [buf[j]] + buf[j + 1..last + 1];
      j := j - 1;
    }
    return false;
  }

  lemma DigitsStartPrefix(line: bytes, end: nat)
    requires end <= |line|
    ensures DigitsStart(line[..end], end) == DigitsStart(line, end)
    decreases end
  {
    if end > 0 && IsDigit(line[end - 1]) {
      DigitsStartPrefix(line, end - 1);
      DigitsStartPrefix(line[..end], end - 1);
      assert line[..end][..end - 1] == line[..end - 1];
    }
  }

  lemma DigitsStartWithin(buf: bytes, from: nat, to: nat, end: nat)
    requires from <= end <= to <= |buf|
    ensures DigitsStart(buf[from..end], end - from) == DigitsStart(buf[from..to], end - from)
  {
    assert buf[from..end] == buf[from..to][..end - from];
    DigitsStartPrefix(buf[from..to], end - from);
  }

  /** The digits left of the brace at `crlf - 1`: they end before `digitsEnd` and begin after `i`. */
  method FindDigits(buf: bytes, textStart: nat, crlf: nat, ghost line: bytes) returns (i: int, digitsEnd: int)
    requires textStart <= crlf <= |buf| && crlf > 0
    requires line == buf[textStart..crlf]
    ensures textStart == crlf ==> i < textStart
    ensures textStart < crlf ==>
              && textStart <= i + 1 <= digitsEnd < crlf
              && digitsEnd == textStart + DigitsEnd(line)
              && i + 1 == textStart + DigitsStart(line, DigitsEnd(line))
  {
    i := crlf - 2;
    assert crlf - 2 >= textStart ==> line[|line| - 2] == buf[crlf - 2];
    if i >= textStart && buf[i] == PLUS {
      i := i - 1;
    }
    digitsEnd := i + 1;
    assert textStart < crlf ==> digitsEnd == textStart + DigitsEnd(line);
    i := SkipDigitsLeft(buf, textStart, i);
    if textStart < crlf {
      DigitsStartWithin(buf, textStart, crlf, digitsEnd);
    }
  }

  method ParseLiteralHeader(buf: bytes, textStart: nat, crlf: nat, limit: nat) returns (h: Header)
    requires textStart <= crlf <= |buf|
    ensures h == AbsoluteHeader(HeaderOf(buf[textStart..crlf], limit), textStart)
  {
    ghost var line := buf[textStart..crlf];
    if crlf == 0 || buf[crlf - 1] != RBRACE {
      return NoHeader;
    }
    var i, digitsEnd := FindDigits(buf, textStart, crlf, line);
    if i < textStart || buf[i] != LBRACE {
      assert textStart < crlf && i >= textStart ==> line[i - textStart] == buf[i];
      var found := HasOpenBrace(buf, textStart, crlf - 2);
      assert textStart < crlf ==> buf[textStart..crlf - 1] == line[..|line| - 1];
      return if found then BadHeader(HeaderSyntax) else NoHeader;
    }
    assert line[i - textStart] == LBRACE;
    SliceOfSlice(buf, textStart, crlf, i + 1, digitsEnd);
    return LengthHeader(buf[i + 1..digitsEnd], i, limit);
  }

  method FindCrlf(buf: bytes, from: nat) returns (crlf: int)
    ensures crlf == -1 ==> FirstCrlf(buf, from) == None
    ensures crlf != -1 ==> 0 <= crlf && FirstCrlf(buf, from) == Some(crlf)
  {
    var i := from;
    while i < |buf| - 1
      invariant from <= i
      invariant forall k | from <= k < i :: !IsCrlfAt(buf, k)
    {
      if buf[i] == CR && buf[i + 1] == LF {
        FirstCrlfIs(buf, from, i);
        return i;
      }
      i := i + 1;
    }
    return -1;
  }

  method EndText(buf: bytes, segments: seq<Segment>, textStart: nat, crlf: nat, header: Header, ghost h: Header)
    returns (r: Round)
    requires textStart <= crlf && crlf + 2 <= |buf|
    requires h.Announces? ==> h.brace < crlf - textStart
    requires header == AbsoluteHeader(h, textStart)
    ensures r == AtCrlf(buf, segments, buf[textStart..crlf], crlf, h)
  {
    match header
    case BadHeader(why) =>
      return Stop(Failed(why));
    case Announces(length, brace) =>
      SliceOfSlice(buf, textStart, crlf, textStart, brace);
      var before := segments;
      if brace > textStart {
        before := segments + [Text(buf[textStart..brace])];
      }
      assert before == segments + TextUnlessEmpty(buf[textStart..crlf][..h.brace]);
      var start := crlf + 2;
      var end := start + length;
      if |buf| < end {
        return Stop(Incomplete(Resume(crlf, end, before, end, Some((start, end)))));
      }
      return GoOn(before + [Literal(buf[start..end])], end);
    case NoHeader =>
      return Stop(Complete(segments + [Text(buf[textStart..crlf])], crlf + 2));
  }

  /** One turn of the reader's loop. */
  method ReadRound(buf: bytes, limit: nat, segments: seq<Segment>, scan: nat, textStart: nat)
    returns (r: Round)
    requires textStart <= scan < |buf|
    ensures r == RoundOf(buf, limit, segments, scan, textStart)
  {
    var crlf := FindCrlf(buf, scan);
    if crlf == -1 {
      var bare := CheckBareLf(buf, scan, |buf|);
      if bare.Some? {
        return Stop(Failed(bare.value));
      }
      return Stop(Incomplete(Resume(Max(textStart, |buf| - 1), |buf| + 1, segments, textStart, None)));
    }
    var bare := CheckBareLf(buf, scan, crlf);
    if bare.Some? {
      return Stop(Failed(bare.value));
    }
    var header := ParseLiteralHeader(buf, textStart, crlf, limit);
    ghost var line := buf[textStart..crlf];
    HeaderBraceInside(line, limit);
    r := EndText(buf, segments, textStart, crlf, header, HeaderOf(line, limit));
  }

  method ReadLogicalLine(buf: bytes, limit: nat, resume: Option<Resume>) returns (r: Reading)
    requires resume.Some? ==> WellFormed(resume.value)
    ensures r == match resume
                 case None => OneShot(buf, limit)
                 case Some(kept) => Resumed(buf, limit, kept)
  {
    var segments := if resume.Some? then resume.value.segments else [];
    var scan: nat := if resume.Some? then resume.value.resumeAt else 0;
    var textStart: nat := if resume.Some? then resume.value.textStart else 0;
    ghost var answer := if resume.Some? then Resumed(buf, limit, resume.value) else OneShot(buf, limit);
    if resume.Some? && resume.value.pending.Some? {
      var (start, end) := resume.value.pending.value;
      if |buf| < end {
        return Incomplete(Resume(scan, end, segments, textStart, resume.value.pending));
      }
      segments := segments + [Literal(buf[start..end])];
      scan, textStart := end, end;
    }
    while scan < |buf|
      invariant textStart <= scan
      invariant answer == Scan(buf, limit, segments, scan, textStart)
      decreases |buf| - scan
    {
      var round := ReadRound(buf, limit, segments, scan, textStart);
      if round.Stop? {
        return round.reading;
      }
      segments, scan, textStart := round.segments, round.at, round.at;
    }
    return Incomplete(Resume(Max(textStart, |buf| - 1), |buf| + 1, segments, textStart, None));
  }

  // ----- resuming refines reading afresh

  /** A CRLF or a bare LF stays one when bytes follow; only the last byte's CR is undecided. */
  lemma SearchesExtend(buf: bytes, more: bytes)
    ensures forall i | i < |buf| - 1 :: IsCrlfAt(buf + more, i) == IsCrlfAt(buf, i)
    ensures forall i | i < |buf| :: IsBareLfAt(buf + more, i) == IsBareLfAt(buf, i)
  {
  }

  lemma AtCrlfExtends(
    buf: bytes, more: bytes, limit: nat, segments: seq<Segment>, line: bytes, crlf: nat, h: Header)
    requires crlf + 2 <= |buf|
    requires h.Announces? ==> h.brace < |line|
    ensures var r := AtCrlf(buf, segments, line, crlf, h);
            var r' := AtCrlf(buf + more, segments, line, crlf, h);
            && (r.GoOn? || !r.reading.Incomplete? ==> r' == r)
            && (r.Stop? && r.reading.Incomplete? ==>
                  && WellFormed(r.reading.resume) && |buf| < r.reading.resume.needBytes
                  && Resumed(buf + more, limit, r.reading.resume) == After(buf + more, limit, r'))
  {
    if h.Announces? {
      var end := crlf + 2 + h.length;
      if end <= |buf| {
        assert (buf + more)[crlf + 2..end] == buf[crlf + 2..end];
      }
    }
  }

  lemma LineExtends(
    buf: bytes, more: bytes, limit: nat, segments: seq<Segment>, textStart: nat, crlf: nat)
    requires textStart <= crlf && crlf + 2 <= |buf|
    ensures var line := buf[textStart..crlf];
            && (buf + more)[textStart..crlf] == line
            && (HeaderOf(line, limit).Announces? ==> HeaderOf(line, limit).brace < |line|)
            && var r := AtCrlf(buf, segments, line, crlf, HeaderOf(line, limit));
            var r' := AtCrlf(buf + more, segments, line, crlf, HeaderOf(line, limit));
            && (r.GoOn? || !r.reading.Incomplete? ==> r' == r)
            && (r.Stop? && r.reading.Incomplete? ==>
                  && WellFormed(r.reading.resume) && |buf| < r.reading.resume.needBytes
                  && Resumed(buf + more, limit, r.reading.resume) == After(buf + more, limit, r'))
  {
    var line := buf[textStart..crlf];
    HeaderBraceInside(line, limit);
    AtCrlfExtends(buf, more, limit, segments, line, crlf, HeaderOf(line, limit));
  }

  /** A round that ends the reading, or finds a literal whole, is the same on a longer buffer. */
  lemma RoundIsStable(
    buf: bytes, more: bytes, limit: nat, segments: seq<Segment>, scan: nat, textStart: nat)
    requires textStart <= scan < |buf|
    requires var r := RoundOf(buf, limit, segments, scan, textStart); r.GoOn? || !r.reading.Incomplete?
    ensures RoundOf(buf + more, limit, segments, scan, textStart) == RoundOf(buf, limit, segments, scan, textStart)
  {
    var all := buf + more;
    SearchesExtend(buf, more);
    match FirstCrlf(buf, scan)
    case None =>
      var i := FirstBareLf(buf, scan, |buf|).value;
      match FirstCrlf(all, scan) {
        case None => FirstBareLfIs(all, scan, |all|, i);
        case Some(crlf) => FirstBareLfIs(all, scan, crlf, i);
      }
    case Some(crlf) =>
      FirstCrlfIs(all, scan, crlf);
      match FirstBareLf(buf, scan, crlf) {
        case Some(i) => FirstBareLfIs(all, scan, crlf, i);
        case None =>
          assert FirstBareLf(all, scan, crlf) == None;
          LineExtends(buf, more, limit, segments, textStart, crlf);
      }
  }

  /** Bytes that arrive later change neither a finished line nor a failure. */
  lemma {:induction false} ScanIsStable(
    buf: bytes, more: bytes, limit: nat, segments: seq<Segment>, scan: nat, textStart: nat)
    requires textStart <= scan
    requires !Scan(buf, limit, segments, scan, textStart).Incomplete?
    ensures Scan(buf + more, limit, segments, scan, textStart) == Scan(buf, limit, segments, scan, textStart)
    decreases |buf| - scan
  {
    RoundIsStable(buf, more, limit, segments, scan, textStart);
    match RoundOf(buf, limit, segments, scan, textStart)
    case Stop(_) =>
    case GoOn(segments', at) => ScanIsStable(buf, more, limit, segments', at, at);
  }

  /** Where no line end was found, the search may go on from the last byte seen. */
  lemma ResumeSearch(
    buf: bytes, more: bytes, limit: nat, segments: seq<Segment>, scan: nat, textStart: nat)
    requires textStart <= scan < |buf| || textStart == scan == |buf|
    requires FirstCrlf(buf, scan) == None && FirstBareLf(buf, scan, |buf|) == None
    ensures Scan(buf + more, limit, segments, Max(textStart, |buf| - 1), textStart)
         == Scan(buf + more, limit, segments, scan, textStart)
  {
    var all := buf + more;
    SearchesExtend(buf, more);
    var again: nat := Max(textStart, |buf| - 1);
    if again < |all| && scan < |all| {
      match FirstCrlf(all, again) {
        case None =>
          assert FirstCrlf(all, scan) == None;
          SameFirstBareLf(all, scan, again, |all|);
        case Some(crlf) =>
          FirstCrlfIs(all, scan, crlf);
          SameFirstBareLf(all, scan, again, crlf);
      }
    }
  }

  lemma SameFirstBareLf(buf: bytes, from: nat, from': nat, to: nat)
    requires from <= to <= |buf| && from' <= to
    requires forall i | from <= i < from' || from' <= i < from :: !IsBareLfAt(buf, i)
    ensures FirstBareLf(buf, from, to) == FirstBareLf(buf, from', to)
  {
    match FirstBareLf(buf, from, to)
    case Some(i) => FirstBareLfIs(buf, from', to, i);
    case None => assert FirstBareLf(buf, from', to) == None;
  }

  /** An unfinished reading, taken up again on a longer buffer, is the reading of that buffer. */
  lemma {:induction false} ScanResumes(
    buf: bytes, more: bytes, limit: nat, segments: seq<Segment>, scan: nat, textStart: nat)
    requires textStart <= scan < |buf| || textStart == scan == |buf|
    requires Scan(buf, limit, segments, scan, textStart).Incomplete?
    ensures var kept := Scan(buf, limit, segments, scan, textStart).resume;
            && WellFormed(kept) && |buf| < kept.needBytes
            && Resumed(buf + more, limit, kept) == Scan(buf + more, limit, segments, scan, textStart)
    decreases |buf| - scan
  {
    if scan == |buf| {
      ResumeSearch(buf, more, limit, segments, scan, textStart);
    } else {
      match RoundOf(buf, limit, segments, scan, textStart)
      case GoOn(segments', at) =>
        RoundIsStable(buf, more, limit, segments, scan, textStart);
        ScanResumes(buf, more, limit, segments', at, at);
      case Stop(_) =>
        match FirstCrlf(buf, scan)
        case None => ResumeSearch(buf, more, limit, segments, scan, textStart);
        case Some(crlf) =>
          SearchesExtend(buf, more);
          FirstCrlfIs(buf + more, scan, crlf);
          assert FirstBareLf(buf + more, scan, crlf) == None;
          LineExtends(buf, more, limit, segments, textStart, crlf);
    }
  }
}
