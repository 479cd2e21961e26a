/**
 `readNextResponse` of `packages/imap/src/client.ts`: chunks come off a transport, wait in a list,
 and are parsed only once enough of them are there. What it answers is a function of the bytes still
 to be read, whatever their cutting: `NextResponse` on their concatenation.
 */
module ResponseReader {
  import opened Bytes
  import opened LogicalLine
  import opened Tokens

  datatype ReadFailure<E> =
    | ConnectionClosed
    | BadFrame(failure: Failure)
    | BadTokens(error: TokenError)
    | BadResponse(reason: E)

  datatype Parsed<R, E> = Parsed(response: R) | NotParsed(reason: E)

  datatype Answer<R, E> = Answer(response: R) | Refused(failure: ReadFailure<E>)

  /** One response off a stream of bytes, and the bytes after it. */
  datatype Next<R, E> = Next(answer: Answer<R, E>, rest: bytes)

  function NextResponse<R, E>(stream: bytes, limit: nat, parse: seq<Token> -> Parsed<R, E>): Next<R, E> {
    match OneShot(stream, limit)
    case Incomplete(_) => Next(Refused(ConnectionClosed), [])
    case Failed(why) => Next(Refused(BadFrame(why)), stream)
    case Complete(segments, consumed) =>
      OneShotConsumes(stream, limit);
      Next(AnswerTo(segments, parse), stream[consumed..])
  }

  /** What a framed line says: its tokens, then the response they make. */
  function AnswerTo<R, E>(segments: seq<Segment>, parse: seq<Token> -> Parsed<R, E>): Answer<R, E> {
    match TokensOf(segments)
    case Untokenizable(error) => Refused(BadTokens(error))
    case Tokens(tokens) =>
      match parse(tokens)
      case NotParsed(reason) => Refused(BadResponse(reason))
      case Parsed(response) => Answer(response)
  }

  lemma {:induction false} ScanConsumes(buf: bytes, limit: nat, segments: seq<Segment>, scan: nat, textStart: nat)
    requires textStart <= scan
    ensures var r := Scan(buf, limit, segments, scan, textStart);
            r.Complete? ==> scan + 2 <= r.consumed <= |buf|
    decreases |buf| - scan
  {
    if scan < |buf| {
      match RoundOf(buf, limit, segments, scan, textStart)
      case Stop(_) =>
      case GoOn(segments', at) => ScanConsumes(buf, limit, segments', at, at);
    }
  }

  lemma OneShotConsumes(buf: bytes, limit: nat)
    ensures OneShot(buf, limit).Complete? ==> 2 <= OneShot(buf, limit).consumed <= |buf|
  {
    ScanConsumes(buf, limit, [], 0, 0);
  }

  /** On the longer buffer `buf`, taking `kept` up again is reading afresh, and skippable below `needBytes`. */
  ghost predicate ResumesOn(kept: Resume, buf: bytes, limit: nat)
    requires WellFormed(kept)
  {
    && Resumed(buf, limit, kept) == OneShot(buf, limit)
    && (|buf| < kept.needBytes ==> OneShot(buf, limit).Incomplete?)
  }

  /** `kept` stands for the bytes of `buf`, whatever follows them. */
  ghost predicate Keeps(kept: Resume, buf: bytes, limit: nat) {
    WellFormed(kept) && forall more: bytes :: ResumesOn(kept, buf + more, limit)
  }

  lemma KeepsLonger(kept: Resume, buf: bytes, chunk: bytes, limit: nat)
    requires Keeps(kept, buf, limit)
    ensures Keeps(kept, buf + chunk, limit)
  {
    forall more: bytes
      ensures ResumesOn(kept, (buf + chunk) + more, limit)
    {
      var tail := chunk + more;
      assert ResumesOn(kept, buf + tail, limit);
      ConcatAssoc(buf, chunk, more);
    }
  }

  lemma KeepsNow(kept: Resume, buf: bytes, limit: nat)
    requires Keeps(kept, buf, limit)
    ensures ResumesOn(kept, buf, limit)
  {
    assert buf + [] == buf;
    assert ResumesOn(kept, buf + [], limit);
  }

  lemma UnfinishedKeeps(buf: bytes, limit: nat)
    requires OneShot(buf, limit).Incomplete?
    ensures Keeps(OneShot(buf, limit).resume, buf, limit)
    ensures |buf| < OneShot(buf, limit).resume.needBytes
  {
    var kept := OneShot(buf, limit).resume;
    ScanResumes(buf, [], limit, [], 0, 0);
    forall more: bytes
      ensures ResumesOn(kept, buf + more, limit)
    {
      ScanResumes(buf, more, limit, [], 0, 0);
      if |buf + more| < kept.needBytes {
        NeedIsNeeded(buf, more, limit, [], 0, 0);
      }
    }
  }

  /** Below `needBytes` no line can end: the parse that is skipped would have stayed unfinished. */
  lemma {:induction false} NeedIsNeeded(
    buf: bytes, more: bytes, limit: nat, segments: seq<Segment>, scan: nat, textStart: nat)
    requires textStart <= scan < |buf| || textStart == scan == |buf|
    requires Scan(buf, limit, segments, scan, textStart).Incomplete?
    requires |buf + more| < Scan(buf, limit, segments, scan, textStart).resume.needBytes
    ensures Scan(buf + more, limit, segments, scan, textStart).Incomplete?
    decreases |buf| - scan
  {
    var kept := Scan(buf, limit, segments, scan, textStart).resume;
    if kept.pending == None {
      PlainNeed(buf, limit, segments, scan, textStart);
      assert buf + more == buf;
    } else {
      ScanResumes(buf, more, limit, segments, scan, textStart);
    }
  }

  lemma {:induction false} PlainNeed(buf: bytes, limit: nat, segments: seq<Segment>, scan: nat, textStart: nat)
    requires textStart <= scan
    requires Scan(buf, limit, segments, scan, textStart).Incomplete?
    requires Scan(buf, limit, segments, scan, textStart).resume.pending == None
    ensures Scan(buf, limit, segments, scan, textStart).resume.needBytes == |buf| + 1
    decreases |buf| - scan
  {
    if scan < |buf| {
      match RoundOf(buf, limit, segments, scan, textStart)
      case Stop(_) =>
      case GoOn(segments', at) => PlainNeed(buf, limit, segments', at, at);
    }
  }

  class ResponseReader<R, E> {
    const limit: nat
    const parseResponse: seq<Token> -> Parsed<R, E>
    /** What the transport has yet to deliver; after the last chunk it answers null or throws. */
    var incoming: seq<bytes>
    var chunks: seq<bytes>
    var totalBufferedBytes: nat
    var resumeState: Option<Resume>
    var isClosed: bool
    var failureReason: Option<ReadFailure<E>>

    ghost predicate Valid()
      reads this
    {
      && totalBufferedBytes == |Flatten(chunks)|
      && (resumeState.Some? ==> Keeps(resumeState.value, Flatten(chunks), limit))
    }

    /** Every byte not yet answered: buffered, then to come. */
    ghost function Remaining(): bytes
      reads this
    {
      Flatten(chunks) + Flatten(incoming)
    }

    constructor (limit: nat, parseResponse: seq<Token> -> Parsed<R, E>, incoming: seq<bytes>)
      ensures Valid() && Remaining() == Flatten(incoming)
      ensures this.limit == limit && this.parseResponse == parseResponse
      ensures !isClosed && failureReason == None
    {
      this.limit := limit;
      this.parseResponse := parseResponse;
      this.incoming := incoming;
      chunks := [];
      totalBufferedBytes := 0;
      resumeState := None;
      isClosed := false;
      failureReason := None;
      new;
      assert [] + Flatten(incoming) == Flatten(incoming);
    }

    method ReadNextResponse() returns (answer: Answer<R, E>)
      requires Valid()
      modifies this
      ensures Valid()
      ensures old(failureReason.Some?) ==>
                answer == Refused(old(failureReason.value)) && failureReason == old(failureReason)
      ensures old(failureReason.None? && isClosed) ==> answer == Refused(ConnectionClosed)
      ensures old(failureReason.None? && !isClosed) ==>
                var next := NextResponse(old(Remaining()), limit, parseResponse);
                && answer == next.answer
                && (answer.Answer? ==> Remaining() == next.rest && !isClosed && failureReason == None)
                && (answer.Refused? ==> isClosed && failureReason == Some(answer.failure))
      ensures old(isClosed || failureReason.Some?) ==>
                Remaining() == old(Remaining()) && isClosed == old(isClosed)
    {
      if failureReason.Some? {
        return Refused(failureReason.value);
      }
      if isClosed {
        return Refused(ConnectionClosed);
      }
      ghost var stream := Remaining();
      while true
        invariant Valid() && !isClosed && failureReason == None
        invariant Remaining() == stream
        decreases |incoming|
      {
        if resumeState.None? || totalBufferedBytes >= resumeState.value.needBytes {
          var parsed := ParseBuffer();
          if parsed.Some? {
            return parsed.value;
          }
        }
        if incoming == [] {
          KeepsNow(resumeState.value, Flatten(chunks), limit);
          assert Flatten(chunks) + [] == stream;
          isClosed := true;
          failureReason := Some(ConnectionClosed);
          return Refused(ConnectionClosed);
        }
        Grow(incoming[0]);
      }
    }

    /** One parse of what is buffered; None when the line there is unfinished. */
    method ParseBuffer() returns (answer: Option<Answer<R, E>>)
      requires Valid() && !isClosed && failureReason == None
      modifies this`chunks, this`totalBufferedBytes, this`resumeState, this`isClosed, this`failureReason
      ensures Valid()
      ensures answer == None ==>
                && !isClosed && failureReason == None
                && Remaining() == old(Remaining())
                && resumeState.Some? && totalBufferedBytes < resumeState.value.needBytes
      ensures answer.Some? ==>
                var next := NextResponse(old(Remaining()), limit, parseResponse);
                && answer.value == next.answer
                && (answer.value.Answer? ==> Remaining() == next.rest && !isClosed && failureReason == None)
                && (answer.value.Refused? ==> isClosed && failureReason == Some(answer.value.failure))
    {
      var buffer: bytes;
      if |chunks| == 1 {
        FlattenOne(chunks[0]);
        buffer := chunks[0];
      } else {
        buffer := ConcatByteArrays(chunks);
      }
      var reading := ReadLogicalLine(buffer, limit, resumeState);
      if resumeState.Some? {
        KeepsNow(resumeState.value, buffer, limit);
      }
      assert reading == OneShot(buffer, limit);
      if reading.Incomplete? {
        UnfinishedKeeps(buffer, limit);
        resumeState := Some(reading.resume);
        return None;
      }
      ScanIsStable(buffer, Flatten(incoming), limit, [], 0, 0);
      assert OneShot(Remaining(), limit) == reading;
      if reading.Failed? {
        isClosed := true;
        failureReason := Some(BadFrame(reading.failure));
        return Some(Refused(BadFrame(reading.failure)));
      }
      OneShotConsumes(buffer, limit);
      Consume(buffer, reading.consumed);
      var said := Interpret(reading.segments);
      return Some(said);
    }

    /** The line just framed is taken off the front of the buffer. */
    method Consume(buffer: bytes, consumed: nat)
      requires Valid() && buffer == Flatten(chunks) && consumed <= |buffer|
      modifies this`chunks, this`totalBufferedBytes, this`resumeState
      ensures Valid() && Remaining() == old(Remaining())[consumed..]
    {
      var remaining := |buffer| - consumed;
      if remaining > 0 {
        chunks := [buffer[consumed..]];
        FlattenOne(buffer[consumed..]);
        totalBufferedBytes := remaining;
      } else {
        chunks := [];
        totalBufferedBytes := 0;
      }
      resumeState := None;
      assert Flatten(chunks) == buffer[consumed..];
    }

    /** Tokens, then the response they make; a failure of either closes the client. */
    method Interpret(segments: seq<Segment>) returns (answer: Answer<R, E>)
      requires Valid() && !isClosed && failureReason == None
      modifies this`isClosed, this`failureReason
      ensures answer == AnswerTo(segments, parseResponse)
      ensures answer.Answer? ==> !isClosed && failureReason == None
      ensures answer.Refused? ==> isClosed && failureReason == Some(answer.failure)
    {
      var tokens := TokenizeLogicalLine(segments);
      if tokens.Untokenizable? {
        isClosed := true;
        failureReason := Some(BadTokens(tokens.error));
        return Refused(BadTokens(tokens.error));
      }
      var parsed := parseResponse(tokens.tokens);
      if parsed.NotParsed? {
        isClosed := true;
        failureReason := Some(BadResponse(parsed.reason));
        return Refused(BadResponse(parsed.reason));
      }
      return Answer(parsed.response);
    }

    /** The next chunk joins the list. */
    method Grow(chunk: bytes)
      requires Valid() && incoming != [] && chunk == incoming[0]
      modifies this`chunks, this`totalBufferedBytes, this`incoming
      ensures Valid() && Remaining() == old(Remaining())
      ensures incoming == old(incoming)[1..] && chunks == old(chunks) + [chunk]
    {
      ghost var before := Flatten(chunks);
      FlattenConcat(chunks, [chunk]);
      FlattenOne(chunk);
      if resumeState.Some? {
        KeepsLonger(resumeState.value, before, chunk, limit);
      }
      assert before + Flatten(incoming) == before + chunk + Flatten(incoming[1..]);
      incoming := incoming[1..];
      chunks := chunks + [chunk];
      totalBufferedBytes := totalBufferedBytes + |chunk|;
    }
  }

  /** Everything a stream of bytes answers, up to and with the refusal that ends it. */
  function AllResponses<R, E>(stream: bytes, limit: nat, parse: seq<Token> -> Parsed<R, E>): seq<Answer<R, E>>
    decreases |stream|
  {
    var next := NextResponse(stream, limit, parse);
    if next.answer.Refused? then [next.answer]
    else
      OneShotConsumes(stream, limit);
      [next.answer] + AllResponses(next.rest, limit, parse)
  }

  /** Reading to the end: the answers depend on the bytes alone, however they were cut into chunks. */
  method Drain<R, E>(reader: ResponseReader<R, E>) returns (answers: seq<Answer<R, E>>)
    requires reader.Valid() && !reader.isClosed && reader.failureReason == None
    modifies reader
    ensures answers == AllResponses(old(reader.Remaining()), reader.limit, reader.parseResponse)
  {
    answers := [];
    ghost var all := AllResponses(reader.Remaining(), reader.limit, reader.parseResponse);
    ghost var left := all;
    while true
      invariant reader.Valid() && !reader.isClosed && reader.failureReason == None
      invariant left == AllResponses(reader.Remaining(), reader.limit, reader.parseResponse)
      invariant all == answers + left
      decreases |reader.Remaining()|
    {
      FirstResponse(reader.Remaining(), reader.limit, reader.parseResponse);
      var answer := reader.ReadNextResponse();
      if answer.Refused? {
        return answers + [answer];
      }
      answers, left := answers + [answer], left[1..];
    }
  }

  lemma FirstResponse<R, E>(stream: bytes, limit: nat, parse: seq<Token> -> Parsed<R, E>)
    ensures var all := AllResponses(stream, limit, parse);
            var next := NextResponse(stream, limit, parse);
            && |all| > 0 && all[0] == next.answer
            && (next.answer.Refused? ==> all == [next.answer])
            && (next.answer.Answer? ==> |next.rest| < |stream| && all[1..] == AllResponses(next.rest, limit, parse))
  {
    OneShotConsumes(stream, limit);
  }
}
