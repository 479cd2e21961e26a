/**
 What an orderly log of the command queue says, entry by entry: who writes when, in which order, and
 what comes behind what.
 */
module QueueLogs {
  import opened Bytes
  import opened CommandQueue

  ghost predicate IsOrderly(log: seq<Event>) {
    JudgeAll(QUIET, log).Some?
  }

  /** The monitor before entry `i`. */
  ghost function MonitorAt(log: seq<Event>, i: nat): Monitor
    requires i <= |log|
  {
    match JudgeAll(QUIET, log[..i])
    case None => QUIET
    case Some(m) => m
  }

  lemma {:induction false} OrderlyPrefix(log: seq<Event>, i: nat)
    requires IsOrderly(log) && i <= |log|
    ensures IsOrderly(log[..i])
    decreases |log| - i
  {
    if i == |log| {
      assert log[..i] == log;
    } else {
      OrderlyPrefix(log, i + 1);
      assert log[..i + 1] == log[..i] + [log[i]];
      JudgeMore(QUIET, log[..i], log[i]);
    }
  }

  lemma StepAt(log: seq<Event>, i: nat)
    requires IsOrderly(log) && i < |log|
    ensures Judge(MonitorAt(log, i), log[i]) == Some(MonitorAt(log, i + 1))
  {
    hide Judge;
    OrderlyPrefix(log, i);
    OrderlyPrefix(log, i + 1);
    assert log[..i + 1] == log[..i] + [log[i]];
    JudgeMore(QUIET, log[..i], log[i]);
  }

  predicate Begins(e: Event, tag: nat) {
    e.Line? && e.tag == tag
  }

  predicate Ends(e: Event, tag: nat) {
    e.Finished? && e.tag == tag
  }

  /** A tag is in flight until its end, on the plan it began with. */
  lemma {:induction false} StaysInFlight(log: seq<Event>, i: nat, j: nat, tag: nat)
    requires IsOrderly(log) && i < j <= |log| && Begins(log[i], tag)
    requires forall k | i < k < j :: !Ends(log[k], tag)
    ensures MonitorAt(log, j).inFlight == Some(tag) && MonitorAt(log, j).last == tag && MonitorAt(log, j).plan == log[i].plan
    decreases j
  {
    hide MonitorAt, IsOrderly;
    StepAt(log, j - 1);
    if j - 1 > i {
      StaysInFlight(log, i, j - 1, tag);
    }
  }

  /** Until a command or IDLE is over, nothing goes out but what is its own, and no other one begins. */
  lemma OneAtATime(log: seq<Event>, i: nat, j: nat, tag: nat)
    requires IsOrderly(log) && i < j < |log| && Begins(log[i], tag)
    requires forall k | i < k < j :: !Ends(log[k], tag)
    ensures !log[j].Line?
    ensures log[j].More? || log[j].Answer? || log[j].Done? || log[j].Plus? || log[j].Finished? ==> log[j].tag == tag
  {
    hide MonitorAt, IsOrderly;
    StaysInFlight(log, i, j, tag);
    StepAt(log, j);
  }

  lemma {:induction false} DoneStays(log: seq<Event>, i: nat, j: nat, tag: nat)
    requires IsOrderly(log) && i < j <= |log| && log[i] == Done(tag)
    ensures var m := MonitorAt(log, j); m.last > tag || (m.last == tag && m.done)
    decreases j
  {
    hide MonitorAt, IsOrderly;
    StepAt(log, j - 1);
    if j - 1 > i {
      DoneStays(log, i, j - 1, tag);
    }
  }

  lemma {:induction false} PlusWasSeen(log: seq<Event>, j: nat) returns (i: nat)
    requires IsOrderly(log) && j <= |log| && MonitorAt(log, j).plus
    ensures i < j && log[i] == Plus(MonitorAt(log, j).last)
    decreases j
  {
    hide MonitorAt, IsOrderly;
    Quiet(log);
    i := j;
    if j > 0 {
      StepAt(log, j - 1);
      i := j - 1;
      if log[j - 1] != Plus(MonitorAt(log, j).last) {
        i := PlusWasSeen(log, j - 1);
      }
    }
  }

  lemma Quiet(log: seq<Event>)
    requires IsOrderly(log)
    ensures MonitorAt(log, 0) == QUIET
  {
  }

  /** DONE goes out once for an IDLE at most, and only behind that IDLE's `+`. */
  lemma DoneOnceAfterPlus(log: seq<Event>, j: nat, tag: nat) returns (i: nat)
    requires IsOrderly(log) && j < |log| && log[j] == Done(tag)
    ensures i < j && log[i] == Plus(tag)
    ensures forall k | 0 <= k < j :: log[k] != Done(tag)
  {
    hide MonitorAt, IsOrderly;
    StepAt(log, j);
    i := PlusWasSeen(log, j);
    forall k | 0 <= k < j
      ensures log[k] != Done(tag)
    {
      if log[k] == Done(tag) {
        DoneStays(log, k, j, tag);
      }
    }
  }

  lemma {:induction false} StaysClosed(log: seq<Event>, i: nat, j: nat)
    requires IsOrderly(log) && i < j <= |log| && log[i] == ClosedByTask
    ensures MonitorAt(log, j).closed && !MonitorAt(log, j).spare
    decreases j
  {
    hide MonitorAt, IsOrderly;
    StepAt(log, j - 1);
    if j - 1 > i {
      StaysClosed(log, i, j - 1);
    }
  }

  /** Once a task closed the client, as a foreign tag does, no command begins. */
  lemma NothingAfterClose(log: seq<Event>, i: nat, j: nat)
    requires IsOrderly(log) && i < j < |log| && log[i] == ClosedByTask
    ensures !log[j].Line?
  {
    hide MonitorAt, IsOrderly;
    StaysClosed(log, i, j);
    StepAt(log, j);
  }

  lemma {:induction false} SpareIsQuiet(log: seq<Event>, j: nat)
    requires IsOrderly(log) && j <= |log|
    ensures MonitorAt(log, j).spare ==> MonitorAt(log, j).closed && MonitorAt(log, j).inFlight == None
    decreases j
  {
    hide MonitorAt, IsOrderly;
    Quiet(log);
    if j > 0 {
      SpareIsQuiet(log, j - 1);
      StepAt(log, j - 1);
    }
  }

  lemma {:induction false} StaysSpent(log: seq<Event>, i: nat, j: nat)
    requires IsOrderly(log) && i <= j <= |log| && MonitorAt(log, i).closed && !MonitorAt(log, i).spare
    ensures MonitorAt(log, j).closed && !MonitorAt(log, j).spare
    decreases j
  {
    hide MonitorAt, IsOrderly;
    if j > i {
      StaysSpent(log, i, j - 1);
      StepAt(log, j - 1);
    }
  }

  lemma {:induction false} ClosedForGood(log: seq<Event>, i: nat, j: nat)
    requires IsOrderly(log) && i <= j <= |log| && MonitorAt(log, i).closed
    ensures MonitorAt(log, j).closed
    decreases j
  {
    hide MonitorAt, IsOrderly;
    if j > i {
      ClosedForGood(log, i, j - 1);
      StepAt(log, j - 1);
    }
  }

  /** Behind a close by DONE no second line begins. */
  lemma OneLineBehindDone(log: seq<Event>, i: nat, j: nat, k: nat)
    requires IsOrderly(log) && i < j < k < |log| && log[i] == ClosedByDone && log[j].Line?
    ensures !log[k].Line?
  {
    hide MonitorAt, IsOrderly;
    StepAt(log, i);
    ClosedForGood(log, i + 1, j);
    StepAt(log, j);
    StaysSpent(log, j + 1, k);
    StepAt(log, k);
  }

  /** Nor does a first one, when something was in flight. */
  lemma NoLineBehindFlight(log: seq<Event>, h: nat, i: nat, k: nat, tag: nat)
    requires IsOrderly(log) && h < i < k < |log| && Begins(log[h], tag) && log[i] == ClosedByDone
    requires forall n | h < n < i :: !Ends(log[n], tag)
    ensures !log[k].Line?
  {
    hide MonitorAt, IsOrderly;
    StaysInFlight(log, h, i, tag);
    SpareIsQuiet(log, i);
    StepAt(log, i);
    StaysSpent(log, i + 1, k);
    StepAt(log, k);
  }

  // ----- commands whole and in order

  /** The latest piece of the command in flight, and what went before it. */
  lemma {:induction false} LastPiece(log: seq<Event>, j: nat) returns (i: nat)
    requires IsOrderly(log) && j <= |log| && MonitorAt(log, j).inFlight.Some? && MonitorAt(log, j).plan.CommandPlan?
    ensures var m := MonitorAt(log, j);
            && i < j
            && if log[i].Line? then Begins(log[i], m.inFlight.value) && log[i].plan == m.plan && m.at == Text(0)
               else log[i] == More(m.inFlight.value, m.at)
                    && MonitorAt(log, i).inFlight == m.inFlight && MonitorAt(log, i).plan == m.plan
    decreases j
  {
    hide MonitorAt, IsOrderly;
    Quiet(log);
    if j > 0 {
      StepAt(log, j - 1);
      i := j - 1;
      if !log[i].Line? && !log[i].More? {
        i := LastPiece(log, j - 1);
      }
    }
  }

  /**
   A literal goes out behind its header, which is behind the command's first line; and unless the
   server had said it takes one of that length, behind a `+` that came in between.
   */
  lemma LiteralWaits(log: seq<Event>, j: nat, tag: nat, k: nat) returns (h: nat, q: nat)
    requires IsOrderly(log) && j < |log| && log[j] == More(tag, Literal(k))
    ensures h < j && log[h] == More(tag, Header(k)) && MonitorAt(log, h).plan == MonitorAt(log, j).plan
    ensures var plan := MonitorAt(log, j).plan;
            && plan.CommandPlan? && k < |plan.literals| && plan.literals[k].Some?
            && (Covers(plan.caps, plan.literals[k].value) || (h < q < j && log[q] == More(tag, Prompt(k))))
  {
    hide MonitorAt, IsOrderly;
    StepAt(log, j);
    q := LastPiece(log, j);
    h := q;
    StepAt(log, q);
    if MonitorAt(log, j).at.Prompt? {
      h := LastPiece(log, q);
      StepAt(log, h);
    }
  }

  /** The pieces a stretch of the log has. */
  function PiecesIn(log: seq<Event>): seq<Piece> {
    if log == [] then []
    else PiecesIn(log[..|log| - 1]) + if log[|log| - 1].More? then [log[|log| - 1].piece] else []
  }

  /** Each piece is the one that may come next. */
  ghost predicate IsChain(plan: Plan, ps: seq<Piece>)
    requires plan.CommandPlan?
  {
    forall n | 0 <= n < |ps| - 1 :: IsNext(plan.literals, plan.caps, ps[n], ps[n + 1])
  }

  lemma PiecesMore(log: seq<Event>, e: Event)
    ensures PiecesIn(log + [e]) == PiecesIn(log) + if e.More? then [e.piece] else []
  {
    assert (log + [e])[..|log|] == log;
  }

  lemma ChainMore(plan: Plan, ps: seq<Piece>, p: Piece)
    requires plan.CommandPlan? && IsChain(plan, ps)
    requires ps != [] ==> IsNext(plan.literals, plan.caps, ps[|ps| - 1], p)
    ensures IsChain(plan, ps + [p])
  {
    hide IsNext;
  }

  /** Nothing but a piece moves on in a command that is in flight. */
  lemma StaysThere(log: seq<Event>, j: nat, tag: nat)
    requires IsOrderly(log) && j < |log| && MonitorAt(log, j).inFlight == Some(tag) && MonitorAt(log, j).plan.CommandPlan?
    requires !log[j].More? && !Ends(log[j], tag)
    ensures MonitorAt(log, j + 1).at == MonitorAt(log, j).at
  {
    hide MonitorAt, IsOrderly;
    StepAt(log, j);
  }

  lemma {:induction false} PiecesChain(log: seq<Event>, i: nat, j: nat, tag: nat)
    requires IsOrderly(log) && i < j <= |log| && Begins(log[i], tag) && log[i].plan.CommandPlan?
    requires forall k | i < k < j :: !Ends(log[k], tag)
    ensures var ps := [Text(0)] + PiecesIn(log[i + 1..j]);
            && IsChain(log[i].plan, ps) && ps[|ps| - 1] == MonitorAt(log, j).at
    decreases j
  {
    hide MonitorAt, IsOrderly, IsNext, IsChain, PiecesIn;
    if j - 1 > i {
      StaysInFlight(log, i, j - 1, tag);
      PiecesChain(log, i, j - 1, tag);
      var before := log[i + 1..j - 1];
      var e := log[j - 1];
      var ps := [Text(0)] + PiecesIn(before);
      assert log[i + 1..j] == before + [e];
      PiecesMore(before, e);
      if e.More? {
        NextOfLast(log, j - 1, tag);
        ChainMore(log[i].plan, ps, e.piece);
        ConcatAssoc([Text(0)], PiecesIn(before), [e.piece]);
      } else {
        StaysThere(log, j - 1, tag);
        assert PiecesIn(before) + [] == PiecesIn(before);
      }
    } else {
      StepAt(log, i);
      NoPieces(log[i].plan);
      assert log[i + 1..j] == [] && [Text(0)] + [] == [Text(0)];
    }
  }

  lemma NoPieces(plan: Plan)
    requires plan.CommandPlan?
    ensures PiecesIn([]) == [] && IsChain(plan, [Text(0)])
  {
  }

  lemma NextOfLast(log: seq<Event>, j: nat, tag: nat)
    requires IsOrderly(log) && j < |log| && log[j].More? && MonitorAt(log, j).inFlight == Some(tag)
    ensures var m := MonitorAt(log, j);
            && m.plan.CommandPlan? && IsNext(m.plan.literals, m.plan.caps, m.at, log[j].piece)
            && MonitorAt(log, j + 1).at == log[j].piece
  {
    hide MonitorAt, IsOrderly;
    StepAt(log, j);
  }

  /** What a line of the command has put out: its text, its literal's header, the `+` it needs, its literal. */
  predicate HasLine(plan: Plan, ps: seq<Piece>, k: nat)
    requires plan.CommandPlan? && k < |plan.literals|
  {
    && Text(k) in ps
    && (plan.literals[k].Some? ==>
          Header(k) in ps && Literal(k) in ps && (Covers(plan.caps, plan.literals[k].value) || Prompt(k) in ps))
  }

  /** What is behind a piece that a chain has come to. */
  predicate IsBehind(plan: Plan, ps: seq<Piece>, at: Piece)
    requires plan.CommandPlan? && at.line < |plan.literals|
  {
    var k := at.line;
    && Text(k) in ps
    && (at.Header? || at.Prompt? || at.Literal? ==> plan.literals[k].Some? && Header(k) in ps)
    && (at.Prompt? ==> Prompt(k) in ps)
    && (at.Literal? ==> HasLine(plan, ps, k))
  }

  lemma HasMore(plan: Plan, a: seq<Piece>, b: seq<Piece>)
    requires plan.CommandPlan? && forall p | p in a :: p in b
    ensures forall k | 0 <= k < |plan.literals| :: HasLine(plan, a, k) ==> HasLine(plan, b, k)
    ensures forall at: Piece | at.line < |plan.literals| :: IsBehind(plan, a, at) ==> IsBehind(plan, b, at)
  {
  }

  lemma NextBehind(plan: Plan, ps: seq<Piece>, at: Piece, next: Piece)
    requires plan.CommandPlan? && at.line < |plan.literals| && IsBehind(plan, ps, at)
    requires IsNext(plan.literals, plan.caps, at, next) && next in ps
    ensures next.line < |plan.literals| && IsBehind(plan, ps, next)
    ensures next.line == at.line || (next.line == at.line + 1 && HasLine(plan, ps, at.line))
  {
  }

  lemma {:induction false} ChainHas(plan: Plan, ps: seq<Piece>)
    requires plan.CommandPlan? && plan.literals != [] && ps != [] && ps[0] == Text(0) && IsChain(plan, ps)
    ensures var at := ps[|ps| - 1];
            && at.line < |plan.literals| && IsBehind(plan, ps, at)
            && forall k | 0 <= k < at.line :: HasLine(plan, ps, k)
    decreases |ps|
  {
    hide HasLine, IsNext;
    if |ps| > 1 {
      var before, at, next := ps[..|ps| - 1], ps[|ps| - 2], ps[|ps| - 1];
      ChainHas(plan, before);
      assert ps == before + [next];
      HasMore(plan, before, ps);
      NextBehind(plan, ps, at, next);
    }
  }

  /**
   A command that ended well has put out its pieces one behind the other, from its first text to its
   last line's end, and so every line and every literal of it.
   */
  lemma CommandIsWhole(log: seq<Event>, i: nat, j: nat, tag: nat)
    requires IsOrderly(log) && i < j < |log| && Begins(log[i], tag) && log[i].plan.CommandPlan? && log[i].plan.literals != []
    requires log[j] == Finished(tag, true) && forall k | i < k < j :: !Ends(log[k], tag)
    ensures var plan, ps := log[i].plan, [Text(0)] + PiecesIn(log[i + 1..j]);
            IsChain(plan, ps) && forall k | 0 <= k < |plan.literals| :: HasLine(plan, ps, k)
  {
    hide MonitorAt, IsOrderly, IsChain, IsBehind, HasLine, PiecesIn;
    PiecesChain(log, i, j, tag);
    StaysInFlight(log, i, j, tag);
    StepAt(log, j);
    var plan, ps := log[i].plan, [Text(0)] + PiecesIn(log[i + 1..j]);
    ChainHas(plan, ps);
    LastBehind(plan, ps, ps[|ps| - 1]);
  }

  lemma LastBehind(plan: Plan, ps: seq<Piece>, at: Piece)
    requires plan.CommandPlan? && at.line < |plan.literals| && IsBehind(plan, ps, at) && IsLast(plan.literals, at)
    ensures HasLine(plan, ps, at.line)
  {
  }

  /** Lines begin in the order of their calls, and within a call in its order. */
  lemma {:induction false} LinesInOrder(log: seq<Event>, i: nat, j: nat)
    requires IsOrderly(log) && i < j < |log| && log[i].Line? && log[j].Line?
    ensures log[i].call < log[j].call || (log[i].call == log[j].call && log[i].nth < log[j].nth)
  {
    hide MonitorAt, IsOrderly;
    TurnsRise(log, i, j);
    StepAt(log, j);
  }

  lemma {:induction false} TurnsRise(log: seq<Event>, i: nat, j: nat)
    requires IsOrderly(log) && i < j <= |log| && log[i].Line?
    ensures var m := MonitorAt(log, j); log[i].call < m.call || (log[i].call == m.call && log[i].nth <= m.nth)
    decreases j
  {
    hide MonitorAt, IsOrderly;
    StepAt(log, j - 1);
    if j - 1 > i {
      TurnsRise(log, i, j - 1);
    }
  }

  /** A further command of a call begins only behind the good end of the one before. */
  lemma FurtherNeedsOk(log: seq<Event>, j: nat) returns (i: nat)
    requires IsOrderly(log) && j < |log| && log[j].Line? && log[j].nth > 0
    ensures i < j && log[i].Finished? && log[i].ok && MonitorAt(log, i).call == log[j].call && MonitorAt(log, i).nth + 1 == log[j].nth
  {
    hide MonitorAt, IsOrderly;
    StepAt(log, j);
    i := OkWasSeen(log, j);
  }

  lemma {:induction false} OkWasSeen(log: seq<Event>, j: nat) returns (i: nat)
    requires IsOrderly(log) && j <= |log| && MonitorAt(log, j).ok
    ensures i < j && log[i].Finished? && log[i].ok
    ensures MonitorAt(log, i).call == MonitorAt(log, j).call && MonitorAt(log, i).nth == MonitorAt(log, j).nth
    decreases j
  {
    hide MonitorAt, IsOrderly;
    Quiet(log);
    i := 0;
    if j > 0 {
      StepAt(log, j - 1);
      i := j - 1;
      if !log[i].Finished? {
        i := OkWasSeen(log, j - 1);
      }
    }
  }

  /** An IDLE ends well only behind its DONE. */
  lemma IdleNeedsDone(log: seq<Event>, i: nat, j: nat, tag: nat) returns (d: nat)
    requires IsOrderly(log) && i < j < |log| && Begins(log[i], tag) && log[i].plan.IdlePlan?
    requires log[j] == Finished(tag, true) && forall k | i < k < j :: !Ends(log[k], tag)
    ensures i < d < j && log[d] == Done(tag)
  {
    hide MonitorAt, IsOrderly;
    StaysInFlight(log, i, j, tag);
    StepAt(log, j);
    d := DoneWasSeen(log, i, j, tag);
  }

  lemma {:induction false} DoneWasSeen(log: seq<Event>, i: nat, j: nat, tag: nat) returns (d: nat)
    requires IsOrderly(log) && i < j < |log| && Begins(log[i], tag)
    requires MonitorAt(log, j).done && forall k | i < k < j :: !Ends(log[k], tag)
    ensures i < d < j && log[d] == Done(tag)
    decreases j
  {
    hide MonitorAt, IsOrderly;
    StaysInFlight(log, i, j, tag);
    StepAt(log, j - 1);
    d := j - 1;
    if j - 1 > i {
      StaysInFlight(log, i, j - 1, tag);
      if !log[j - 1].Done? {
        d := DoneWasSeen(log, i, j - 1, tag);
      }
    }
  }
}
