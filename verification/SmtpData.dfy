/**
 Dot-stuffing of a message for DATA (`packages/smtp/src/client.ts`) against a server that takes it
 off the wire: a strict one ends lines at CRLF alone, a lenient one at any LF (sections 4.1.1.4 and
 4.5.2 of RFC 5321).
 */
module SmtpData {
  import opened Bytes

  const PERIOD: byte := 0x2e
  const TERMINATOR: bytes := [PERIOD, CR, LF]

  // ----- the sender

  /** The stuffed data; `start` says whether a line begins here. */
  function Stuff(start: bool, data: bytes): bytes
    decreases |data|
  {
    if data == [] then []
    else (if start && data[0] == PERIOD then [PERIOD] else []) + [data[0]] + Stuff(data[0] == LF, data[1..])
  }

  predicate EndsLine(data: bytes) {
    data == [] || data[|data| - 1] == LF
  }

  function LineEnd(data: bytes): bytes {
    if EndsLine(data) then [] else [CR, LF]
  }

  /** The data as a whole number of lines. */
  function Completed(data: bytes): bytes {
    data + LineEnd(data)
  }

  /** What DATA carries before its terminator. */
  function Body(data: bytes): bytes {
    Stuff(true, data) + LineEnd(data)
  }

  function StartAfter(start: bool, data: bytes): bool {
    if data == [] then start else data[|data| - 1] == LF
  }

  lemma {:induction false} StuffConcat(start: bool, a: bytes, b: bytes)
    ensures Stuff(start, a + b) == Stuff(start, a) + Stuff(StartAfter(start, a), b)
    decreases |a|
  {
    if a == [] {
      assert a + b == b;
    } else {
      assert (a + b)[1..] == a[1..] + b;
      StuffConcat(a[0] == LF, a[1..], b);
    }
  }

  lemma StuffNext(data: bytes, i: nat)
    requires i < |data|
    ensures var doubled := data[i] == PERIOD && (i == 0 || data[i - 1] == LF);
            && Stuff(true, data[..i + 1]) == Stuff(true, data[..i]) + (if doubled then [PERIOD, data[i]] else [data[i]])
            && |Stuff(true, data[..i + 1])| <= |Stuff(true, data)|
  {
    assert data[..i + 1] == data[..i] + [data[i]];
    StuffConcat(true, data[..i], [data[i]]);
    assert [data[i]][1..] == [];
    assert data == data[..i + 1] + data[i + 1..];
    StuffConcat(true, data[..i + 1], data[i + 1..]);
  }

  lemma StuffNothing()
    ensures Stuff(true, []) == []
  {
  }

  /** Sized first and written once: the buffer is filled to its last octet. */
  method DotStuff(data: bytes) returns (stuffed: bytes)
    ensures stuffed == Body(data) + TERMINATOR
  {
    hide Stuff;
    StuffNothing();
    var stuffedDots := 0;
    for i := 0 to |data|
      invariant i + stuffedDots == |Stuff(true, data[..i])|
    {
      StuffNext(data, i);
      if data[i] == PERIOD && (i == 0 || data[i - 1] == LF) {
        stuffedDots := stuffedDots + 1;
      }
    }
    assert data[..|data|] == data;
    var endsLine := |data| == 0 || data[|data| - 1] == LF;
    var out := new byte[|data| + stuffedDots + (if endsLine then 0 else 2) + |TERMINATOR|];
    var at := 0;
    for i := 0 to |data|
      invariant at == |Stuff(true, data[..i])| <= |Stuff(true, data)|
      invariant out[..at] == Stuff(true, data[..i])
    {
      StuffNext(data, i);
      if data[i] == PERIOD && (i == 0 || data[i - 1] == LF) {
        out[at] := PERIOD;
        at := at + 1;
      }
      out[at] := data[i];
      at := at + 1;
    }
    if !endsLine {
      out[at] := CR;
      out[at + 1] := LF;
      at := at + 2;
    }
    assert out[..at] == Body(data);
    out[at], out[at + 1], out[at + 2] := PERIOD, CR, LF;
    assert out[..] == Body(data) + TERMINATOR;
    return out[..];
  }

  // ----- the server

  /** Where a server is within a line. */
  datatype Line = Line(start: bool, afterCr: bool)

  const FIRST := Line(true, false)

  function Next(strict: bool, line: Line, b: byte): Line {
    Line(b == LF && (!strict || line.afterCr), b == CR)
  }

  datatype Received = Ended(message: bytes, rest: bytes) | Unfinished

  function Preceded(head: bytes, r: Received): Received {
    match r
    case Unfinished => Unfinished
    case Ended(message, rest) => Ended(head + message, rest)
  }

  /** The message up to the line that is one dot; other lines lose their first dot. */
  function Receive(strict: bool, line: Line, s: bytes): Received
    decreases |s|
  {
    if s == [] then Unfinished
    else if line.start && s[0] == PERIOD then
      if |s| >= 3 && s[1] == CR && s[2] == LF then Ended([], s[3..])
      else if !strict && |s| >= 2 && s[1] == LF then Ended([], s[2..])
      else Receive(strict, Line(false, false), s[1..])
    else
      Preceded([s[0]], Receive(strict, Next(strict, line, s[0]), s[1..]))
  }

  /** What that server makes of stuffed data: where it sees no line begin, the second dot stays. */
  function Seen(strict: bool, line: Line, start: bool, data: bytes): bytes
    decreases |data|
  {
    if data == [] then []
    else
      (if start && data[0] == PERIOD && !line.start then [PERIOD] else [])
      + [data[0]] + Seen(strict, Next(strict, line, data[0]), data[0] == LF, data[1..])
  }

  function LineAfter(strict: bool, line: Line, data: bytes): Line
    decreases |data|
  {
    if data == [] then line else LineAfter(strict, Next(strict, line, data[0]), data[1..])
  }

  lemma PrecededTwice(a: bytes, b: bytes, r: Received)
    ensures Preceded(a, Preceded(b, r)) == Preceded(a + b, r)
  {
    if r.Ended? {
      ConcatAssoc(a, b, r.message);
    }
  }

  lemma PrecededByNothing(r: Received)
    ensures Preceded([], r) == r
  {
    if r.Ended? {
      assert [] + r.message == r.message;
    }
  }

  /** Stuffed data never ends the message, and reaches the server as `Seen`. */
  lemma {:induction false} StuffReceived(strict: bool, line: Line, start: bool, data: bytes, tail: bytes)
    requires line.start ==> start
    ensures Receive(strict, line, Stuff(start, data) + tail)
         == Preceded(Seen(strict, line, start, data), Receive(strict, LineAfter(strict, line, data), tail))
    decreases |data|
  {
    hide Preceded;
    if data == [] {
      assert [] + tail == tail;
      PrecededByNothing(Receive(strict, line, tail));
    } else {
      var b := data[0];
      var line' := Next(strict, line, b);
      StuffReceived(strict, line', b == LF, data[1..], tail);
      var more := Stuff(b == LF, data[1..]) + tail;
      var later := Receive(strict, LineAfter(strict, line, data), tail);
      var seen := Seen(strict, line', b == LF, data[1..]);
      assert Receive(strict, line', more) == Preceded(seen, later);
      assert ([b] + more)[1..] == more;
      PrecededTwice([b], seen, later);
      if start && b == PERIOD {
        var s := [b] + ([b] + more);
        assert Stuff(start, data) + tail == s;
        assert s[1..] == [b] + more;
        assert Receive(strict, Line(false, false), [b] + more) == Preceded([b] + seen, later);
        if !line.start {
          PrecededTwice([b], [b] + seen, later);
          assert [b] + [b] + seen == [b] + ([b] + seen);
        } else {
          assert [] + [b] + seen == [b] + seen;
        }
      } else {
        assert Stuff(start, data) + tail == [b] + more;
        assert [] + [b] + seen == [b] + seen;
      }
    }
  }

  // ----- when the server has the data back

  /** Whether a server sees a line begin at index `i`. */
  predicate LineStartsAt(strict: bool, data: bytes, i: nat)
    requires i <= |data|
  {
    i == 0 || (data[i - 1] == LF && (!strict || (i >= 2 && data[i - 2] == CR)))
  }

  function LineAt(strict: bool, data: bytes, i: nat): Line
    requires i <= |data|
  {
    Line(LineStartsAt(strict, data, i), i > 0 && data[i - 1] == CR)
  }

  /** A dot behind a line feed that the server does not take for a line end. */
  predicate IsStrayDot(strict: bool, data: bytes, i: nat)
    requires i < |data|
  {
    data[i] == PERIOD && i > 0 && data[i - 1] == LF && !LineStartsAt(strict, data, i)
  }

  lemma {:induction false} SeenExactly(strict: bool, data: bytes, i: nat)
    requires i <= |data|
    ensures var line, start := LineAt(strict, data, i), i == 0 || data[i - 1] == LF;
            var seen := Seen(strict, line, start, data[i..]);
            && |seen| >= |data| - i
            && (seen == data[i..] <==> forall k | i <= k < |data| :: !IsStrayDot(strict, data, k))
            && LineAfter(strict, line, data[i..]) == LineAt(strict, data, |data|)
    decreases |data| - i
  {
    hide IsStrayDot, LineStartsAt, Seen, Next;
    SeenNothing(strict, LineAt(strict, data, i), i == 0 || data[i - 1] == LF);
    if i < |data| {
      assert data[i..] == [data[i]] + data[i + 1..] && data[i..][1..] == data[i + 1..];
      SeenExactly(strict, data, i + 1);
      SeenStep(strict, data, i);
      StrayStep(strict, data, i);
      SameBehind(data[i], Seen(strict, LineAt(strict, data, i + 1), data[i] == LF, data[i + 1..]), data[i + 1..]);
    } else {
      assert data[i..] == [];
    }
  }

  lemma SameBehind(b: byte, s: bytes, t: bytes)
    ensures [] + [b] + s == [b] + t <==> s == t
  {
    assert ([] + [b] + s)[1..] == s && ([b] + t)[1..] == t;
  }

  lemma SeenNothing(strict: bool, line: Line, start: bool)
    ensures Seen(strict, line, start, []) == []
  {
  }

  lemma StrayStep(strict: bool, data: bytes, i: nat)
    requires i < |data|
    ensures IsStrayDot(strict, data, i) <==> ((i == 0 || data[i - 1] == LF) && data[i] == PERIOD && !LineStartsAt(strict, data, i))
    ensures (forall k | i <= k < |data| :: !IsStrayDot(strict, data, k))
       <==> !IsStrayDot(strict, data, i) && forall k | i + 1 <= k < |data| :: !IsStrayDot(strict, data, k)
  {
  }

  lemma SeenStep(strict: bool, data: bytes, i: nat)
    requires i < |data|
    ensures var line, start := LineAt(strict, data, i), i == 0 || data[i - 1] == LF;
            var line', start' := LineAt(strict, data, i + 1), data[i] == LF;
            && Next(strict, line, data[i]) == line'
            && Seen(strict, line, start, data[i..])
               == (if start && data[i] == PERIOD && !line.start then [PERIOD] else [])
                  + [data[i]] + Seen(strict, line', start', data[i + 1..])
  {
    assert data[i..][1..] == data[i + 1..];
  }

  /** The data ends as the server ends lines, or the sender ends its last line. */
  predicate EndsWell(strict: bool, data: bytes) {
    EndsLine(data) ==> LineStartsAt(strict, data, |data|)
  }

  lemma EndReceived(strict: bool, data: bytes, tail: bytes)
    ensures var r := Receive(strict, LineAt(strict, data, |data|), LineEnd(data) + TERMINATOR + tail);
            if EndsWell(strict, data) then r == Ended(LineEnd(data), tail) else r.Ended? ==> r.message != []
  {
    var line := LineAt(strict, data, |data|);
    if !EndsLine(data) {
      var s := LineEnd(data) + TERMINATOR + tail;
      assert s[1..] == [LF] + TERMINATOR + tail && s[1..][1..] == TERMINATOR + tail;
      assert (TERMINATOR + tail)[3..] == tail;
      assert Receive(strict, Line(true, false), TERMINATOR + tail) == Ended([], tail);
      assert Next(strict, Next(strict, line, CR), LF) == Line(true, false);
      assert [LF] + [] == [LF] && [CR] + [LF] == [CR, LF];
    } else {
      assert [] + TERMINATOR + tail == TERMINATOR + tail;
      assert (TERMINATOR + tail)[3..] == tail;
    }
  }

  /**
   The server gets the data back, as whole lines and at the terminator: always when it ends lines at
   any LF, and when it is strict exactly if no dot stands behind a bare LF and the data does not end
   in one.
   */
  lemma DataArrives(strict: bool, data: bytes, tail: bytes)
    ensures Receive(strict, FIRST, Body(data) + TERMINATOR + tail) == Ended(Completed(data), tail)
       <==> EndsWell(strict, data) && forall k | 0 <= k < |data| :: !IsStrayDot(strict, data, k)
  {
    hide Receive, Seen, IsStrayDot, EndsWell, Stuff, LineAfter;
    var end := LineEnd(data) + TERMINATOR + tail;
    assert Body(data) + TERMINATOR + tail == Stuff(true, data) + end;
    StuffReceived(strict, FIRST, true, data, end);
    assert data[0..] == data;
    SeenExactly(strict, data, 0);
    EndReceived(strict, data, tail);
    var seen, r := Seen(strict, FIRST, true, data), Receive(strict, LineAt(strict, data, |data|), end);
    if !EndsWell(strict, data) {
      BadEnd(strict, data);
    } else if seen != data {
      assert |seen| >= |data|;
      if |seen| == |data| {
        assert (seen + LineEnd(data))[..|data|] == seen && (data + LineEnd(data))[..|data|] == data;
      }
    }
  }

  lemma BadEnd(strict: bool, data: bytes)
    requires !EndsWell(strict, data)
    ensures Completed(data) == data
  {
  }

  /** A lenient server always has it. */
  lemma LenientAlways(data: bytes)
    ensures EndsWell(false, data) && forall k | 0 <= k < |data| :: !IsStrayDot(false, data, k)
  {
  }

  /** So does a strict one when every LF has its CR, which is what `send` asks of its caller. */
  lemma CrlfData(data: bytes)
    requires forall i | 0 <= i < |data| :: data[i] == LF ==> i > 0 && data[i - 1] == CR
    ensures EndsWell(true, data) && forall k | 0 <= k < |data| :: !IsStrayDot(true, data, k)
  {
  }

  // ----- no end of message before the terminator

  lemma {:induction false} UnfinishedPrefix(strict: bool, line: Line, s: bytes, k: nat)
    requires k <= |s| && Receive(strict, line, s).Unfinished?
    ensures Receive(strict, line, s[..k]).Unfinished?
    decreases |s|
  {
    if k > 0 {
      assert s[..k][1..] == s[1..][..k - 1];
      if line.start && s[0] == PERIOD {
        UnfinishedPrefix(strict, Line(false, false), s[1..], k - 1);
      } else {
        UnfinishedPrefix(strict, Next(strict, line, s[0]), s[1..], k - 1);
      }
    }
  }

  lemma AlmostEnd(strict: bool, data: bytes)
    ensures Receive(strict, LineAt(strict, data, |data|), LineEnd(data) + [PERIOD, CR]).Unfinished?
  {
    var line := LineAt(strict, data, |data|);
    var s := LineEnd(data) + [PERIOD, CR];
    if EndsLine(data) {
      assert s == [PERIOD, CR];
      DotCr(strict, line);
    } else {
      assert s[1..] == [LF, PERIOD, CR] && s[1..][1..] == [PERIOD, CR];
      DotCr(strict, Next(strict, Next(strict, line, CR), LF));
    }
  }

  lemma DotCr(strict: bool, line: Line)
    ensures Receive(strict, line, [PERIOD, CR]).Unfinished?
  {
    assert [PERIOD, CR][1..] == [CR] && [CR][1..] == [];
    assert forall l: Line :: Receive(strict, l, [CR]).Unfinished?;
  }

  /** Whatever part of the stuffed message got out, a server that lacks its last octet has no end of message. */
  lemma NothingEndsEarly(strict: bool, data: bytes, sent: bytes)
    requires sent <= Body(data) + TERMINATOR && sent != Body(data) + TERMINATOR
    ensures Receive(strict, FIRST, sent).Unfinished?
  {
    hide Receive, Seen, Stuff, LineAfter;
    var most := Body(data) + [PERIOD, CR];
    var end := LineEnd(data) + [PERIOD, CR];
    assert most == Stuff(true, data) + end;
    StuffReceived(strict, FIRST, true, data, end);
    assert data[0..] == data;
    SeenExactly(strict, data, 0);
    AlmostEnd(strict, data);
    assert Body(data) + TERMINATOR == most + [LF];
    assert sent == most[..|sent|];
    UnfinishedPrefix(strict, FIRST, most, |sent|);
  }
}
