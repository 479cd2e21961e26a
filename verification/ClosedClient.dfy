/** What closes a client of the command queue, and what a closed one still does. */
module ClosedClient {
  import opened Bytes
  import opened CommandQueue

  /** A reply with another command's tag closes the client and ends the command. */
  lemma ForeignTagCloses(s: State, tag: nat, status: Status, caps: Option<Caps>)
    requires s.phase.AtPlus? || s.phase.AtReply? || s.phase.IdleAtPlus? || s.phase.Idling?
    requires (s.phase.IdleAtPlus? || s.phase.Idling? ==> HasHandle(s, s.phase.task)) && tag != s.phase.tag
    ensures var s' := Next(s, Arrives(Tagged(tag, status, caps)));
            && s'.closed && s'.phase == Free
            && s.log + [ClosedByTask, Finished(s.phase.tag, false)] <= s'.log
  {
    var s' := Next(s, Arrives(Tagged(tag, status, caps)));
    assert s.log + [ClosedByTask] + [Finished(s.phase.tag, false)] == s.log + [ClosedByTask, Finished(s.phase.tag, false)];
  }

  // ----- what closes a client

  /** The response ends the session for whoever is waiting: the stream, a BYE, a tag or a `+` that has no place here. */
  predicate IsFatal(s: State, response: Response)
    requires s.phase.AtPlus? || s.phase.AtReply? || s.phase.IdleAtPlus? || s.phase.Idling?
  {
    match response
    case ReadFails => true
    case Untagged(isBye, _) => isBye && !((s.phase.AtPlus? || s.phase.AtReply?) && AllowsBye(s.phase.task))
    case Continuation => s.phase.Idling? || (s.phase.AtReply? && !AnswersPlus(s.phase.task))
    case Tagged(tag, status, _) =>
      || tag != s.phase.tag
      || (s.phase.IdleAtPlus? && status == OK)
      || (s.phase.Idling? && HasHandle(s, s.phase.task) && !s.handles[s.phase.task.id].doneSent)
  }

  /** The response ends the task, and the task closes behind itself, as LOGOUT does. */
  predicate EndsLast(s: State, response: Response)
    requires s.phase.AtPlus? || s.phase.AtReply?
  {
    && s.phase.task.Commands? && s.phase.task.closesAfter
    && response.Tagged? && response.tag == s.phase.tag
    && (response.status != OK || (s.phase.AtReply? && |s.phase.task.list| <= 1))
  }

  /** An open client is closed by a response if and only if it is fatal, or the last of a task that closes. */
  lemma ClosesExactly(s: State, response: Response)
    requires !s.closed && s.reading && (s.phase.AtPlus? || s.phase.AtReply? || s.phase.IdleAtPlus? || s.phase.Idling?)
    requires s.phase.IdleAtPlus? || s.phase.Idling? ==> HasHandle(s, s.phase.task)
    ensures Next(s, Arrives(response)).closed
       <==> IsFatal(s, response) || ((s.phase.AtPlus? || s.phase.AtReply?) && EndsLast(s, response))
  {
    hide PiecesFrom, WithFinished;
  }

  // ----- what a closed client still does

  /** A read begun on an open client waits for a response. */
  predicate Hears(s: State) {
    && s.reading
    && (s.phase.AtPlus? || s.phase.AtReply? || ((s.phase.IdleAtPlus? || s.phase.Idling?) && HasHandle(s, s.phase.task)))
  }

  /** How many commands and IDLEs began. */
  ghost function Lines(log: seq<Event>): nat {
    if log == [] then 0 else Lines(log[..|log| - 1]) + if log[|log| - 1].Line? then 1 else 0
  }

  lemma LogLines(s: State, e: Event)
    ensures Lines(Log(s, e).log) == Lines(s.log) + if e.Line? then 1 else 0
  {
    assert Log(s, e).log[..|s.log|] == s.log;
  }

  /** A task that has found the client open and has yet to see a greeting it can use. */
  predicate HasLooked(s: State) {
    s.phase.AtGreeting? && s.greeting != Bad
  }

  lemma EndBeginsNone(s: State, task: Task)
    ensures Lines(EndTask(s, task).log) == Lines(s.log) && EndTask(s, task).phase == Free
    ensures s.closed ==> EndTask(s, task).closed
  {
    hide Lines;
    LogLines(s.(phase := Free), ClosedByTask);
  }

  lemma FailBeginsNone(s: State, tag: nat, task: Task)
    ensures Lines(Fail(s, tag, task).log) == Lines(s.log) && Fail(s, tag, task).phase == Free
    ensures Lines(FailClosed(s, tag, task).log) == Lines(s.log) && FailClosed(s, tag, task).phase == Free
    ensures s.closed ==> Fail(s, tag, task).closed
    ensures FailClosed(s, tag, task).closed
  {
    hide Lines, EndTask;
    LogLines(s, Finished(tag, false));
    LogLines(s.(closed := true), ClosedByTask);
    LogLines(CloseByTask(s), Finished(tag, false));
    EndBeginsNone(Log(s, Finished(tag, false)), task);
    EndBeginsNone(Log(CloseByTask(s), Finished(tag, false)), task);
  }

  lemma SucceedBeginsNone(s: State, tag: nat, task: Task)
    requires s.closed
    ensures Lines(Succeed(s, tag, task).log) == Lines(s.log) && Succeed(s, tag, task).phase == Free
    ensures Succeed(s, tag, task).closed
  {
    hide Lines, EndTask;
    LogLines(s, Finished(tag, true));
    EndBeginsNone(Log(s, Finished(tag, true)), task);
    if task.Commands? {
      EndBeginsNone(Log(s, Finished(tag, true)),
                    Commands(task.call, task.nth + 1, if task.list == [] then [] else task.list[1..], task.closesAfter));
    }
  }

  lemma ContinueBeginsNone(s: State, tag: nat, left: seq<Piece>, task: Task)
    ensures Lines(Continue(s, tag, left, task).log) == Lines(s.log) && !Continue(s, tag, left, task).phase.AtGreeting?
    ensures Continue(s, tag, left, task).closed == s.closed
    ensures s.closed ==> !Hears(Continue(s, tag, left, task))
  {
    hide Lines;
    if left != [] {
      LogLines(s, More(tag, left[0]));
    }
  }

  lemma SendDoneBeginsNone(s: State, id: nat, isPending: bool)
    requires id < |s.handles|
    ensures Lines(SendDone(s, id, isPending).log) == Lines(s.log)
    ensures SendDone(s, id, isPending).phase == s.phase && SendDone(s, id, isPending).closed == s.closed
    ensures SendDone(s, id, isPending).greeting == s.greeting && SendDone(s, id, isPending).reading == s.reading
    ensures |SendDone(s, id, isPending).handles| == |s.handles|
  {
    hide Lines;
    var h := s.handles[id];
    LogLines(s.(handles := s.handles[id := h.(doneSent := true, isPending := isPending)]), Done(h.tag));
  }

  lemma CommandReceivesNone(s: State, tag: nat, task: Task, response: Response)
    requires s.closed && (s.phase.AtPlus? || s.phase.AtReply?)
    ensures var s' := CommandReceives(s, tag, task, response);
            Lines(s'.log) == Lines(s.log) && !s'.phase.AtGreeting? && s'.closed && !Hears(s')
  {
    hide Lines, Succeed, Fail, FailClosed, Continue;
    FailBeginsNone(s, tag, task);
    match response
    case Continuation =>
      if s.phase.AtPlus? && s.phase.left != [] {
        LogLines(s, More(tag, s.phase.left[0]));
        ContinueBeginsNone(Log(s, More(tag, s.phase.left[0])), tag, s.phase.left[1..], task);
      }
      LogLines(s, Answer(tag));
    case Untagged(_, caps) => FailBeginsNone(Learn(s, caps), tag, task);
    case Tagged(_, _, caps) =>
      var s' := if s.phase.AtReply? then Learn(s, caps) else s;
      FailBeginsNone(s', tag, task);
      SucceedBeginsNone(s', tag, task);
    case ReadFails =>
  }

  lemma IdleReceivesNone(s: State, tag: nat, task: Task, response: Response)
    requires s.closed && HasHandle(s, task) && (s.phase.IdleAtPlus? || s.phase.Idling?)
    ensures var s' := IdleReceives(s, tag, task, response);
            Lines(s'.log) == Lines(s.log) && !s'.phase.AtGreeting? && s'.closed && !Hears(s')
  {
    hide Lines, Fail, FailClosed, Succeed, SendDone;
    FailBeginsNone(s, tag, task);
    SucceedBeginsNone(s, tag, task);
    if response.Continuation? && s.phase.IdleAtPlus? {
      LogLines(s, Plus(tag));
      var h := s.handles[task.id].(isIdling := true, tag := tag);
      SendDoneBeginsNone(Await(Log(s, Plus(tag)).(handles := s.handles[task.id := h]), Idling(tag, task)), task.id, false);
    }
  }

  lemma SettleBeginsNone(s: State, ok: bool)
    requires s.closed
    ensures Lines(Settle(s, ok).log) == Lines(s.log) && Settle(s, ok).closed
    ensures (HasLooked(Settle(s, ok)) ==> HasLooked(s)) && (Hears(Settle(s, ok)) ==> Hears(s))
  {
    hide Lines, FailClosed, Continue;
    match s.phase
    case Writing(tag, left, task) =>
      ContinueBeginsNone(s, tag, left, task);
      FailBeginsNone(s, tag, task);
    case Answering(tag, task) => FailBeginsNone(s, tag, task);
    case IdleWriting(tag, task) => FailBeginsNone(s, tag, task);
    case IdleWritingDone(tag, task) => FailBeginsNone(s, tag, task);
    case _ =>
  }

  lemma FirstBegins(s: State, task: Task)
    ensures var s' := SendFirst(s, task);
            Lines(s'.log) == Lines(s.log) + 1 && s'.closed == s.closed && (s'.phase.Writing? || s'.phase.IdleWriting?)
  {
    hide Lines, PiecesFrom;
    var literals: seq<Option<nat>> := if task.IdleTask? || task.list == [] then [None] else task.list[0].literals;
    if task.Commands? {
      LogLines(s, Line(s.nextTag, task.call, task.nth, CommandPlan(literals, s.caps)));
    } else {
      LogLines(s, Line(s.nextTag, task.call, 0, IdlePlan));
    }
  }

  /** On a closed client a line is begun by the task that has looked, and a response taken by the read under way. */
  lemma NextBeginsNone(s: State, step: Step)
    requires s.closed
    ensures Next(s, step).closed
    ensures !HasLooked(s) ==> Lines(Next(s, step).log) == Lines(s.log) && !HasLooked(Next(s, step))
    ensures HasLooked(s) ==>
              || Lines(Next(s, step).log) == Lines(s.log)
              || (Lines(Next(s, step).log) == Lines(s.log) + 1 && !HasLooked(Next(s, step)))
    ensures Hears(Next(s, step)) ==> Hears(s) && !step.Arrives?
  {
    hide Lines, EndTask, SendFirst, Settle, CommandReceives, IdleReceives, SendDone;
    match step
    case CallDone(id) =>
      if id < |s.handles| {
        SendDoneBeginsNone(s.(handles := s.handles[id := s.handles[id].(doneRequested := true)]), id, true);
      }
    case StartNext =>
      if s.phase == Free && s.queue != [] {
        EndBeginsNone(s.(queue := s.queue[1..]), s.queue[0]);
      }
    case GreetingArrives(_, _, _) => LogLines(s.(greeting := Bad, closed := true), ClosedByTask);
    case GreetingSeen =>
      if s.phase.AtGreeting? {
        EndBeginsNone(s, s.phase.task);
        FirstBegins(s, s.phase.task);
      }
    case WriteSettles(ok) => SettleBeginsNone(s, ok);
    case DoneRejects(id) =>
      if id < |s.handles| {
        LogLines(s.(handles := s.handles[id := s.handles[id].(isPending := false)]), ClosedByDone);
      }
    case Arrives(response) =>
      var r := if s.reading then response else ReadFails;
      if s.phase.AtPlus? || s.phase.AtReply? {
        CommandReceivesNone(s, s.phase.tag, s.phase.task, r);
      } else if (s.phase.IdleAtPlus? || s.phase.Idling?) && HasHandle(s, s.phase.task) {
        IdleReceivesNone(s, s.phase.tag, s.phase.task, r);
      }
    case _ =>
  }

  /** A closed client begins one more line at most, and none unless a task has looked. */
  lemma {:induction false} ClosedBegins(s: State, steps: seq<Step>)
    requires s.closed
    ensures Lines(s.log) <= Lines(Run(s, steps).log) <= Lines(s.log) + if HasLooked(s) then 1 else 0
    decreases |steps|
  {
    hide Next, Lines, HasLooked;
    if steps != [] {
      NextBeginsNone(s, steps[0]);
      ClosedBegins(Next(s, steps[0]), steps[1..]);
    }
  }

  /** The responses that reads deliver in a run. */
  ghost function Delivered(s: State, steps: seq<Step>): nat
    decreases |steps|
  {
    if steps == [] then 0
    else (if steps[0].Arrives? && Hears(s) then 1 else 0) + Delivered(Next(s, steps[0]), steps[1..])
  }

  /** A closed client takes one response at most: the one its read was waiting for. */
  lemma {:induction false} ClosedHearsOnce(s: State, steps: seq<Step>)
    requires s.closed
    ensures Delivered(s, steps) <= if Hears(s) then 1 else 0
    decreases |steps|
  {
    hide Next, Hears, Lines, HasLooked;
    if steps != [] {
      NextBeginsNone(s, steps[0]);
      ClosedHearsOnce(Next(s, steps[0]), steps[1..]);
    }
  }

  /** Whatever comes after the state, does a command or an IDLE begin? */
  ghost predicate MayBegin(s: State) {
    exists steps :: Lines(Run(s, steps).log) > Lines(s.log)
  }

  /**
   When the write of a DONE rejects and closes the client, a line may still begin if and only if a
   task has looked at the client and waits at the greeting; then there is that one and no other.
   */
  lemma SpareLineExactly(s: State, id: nat)
    requires id < |s.handles| && s.handles[id].isPending
    ensures var s' := Next(s, DoneRejects(id));
            && (MayBegin(s') <==> HasLooked(s))
            && forall steps :: Lines(Run(s', steps).log) <= Lines(s'.log) + 1
  {
    hide Lines, Run;
    var s' := Next(s, DoneRejects(id));
    forall steps
      ensures Lines(s'.log) <= Lines(Run(s', steps).log) <= Lines(s'.log) + if HasLooked(s') then 1 else 0
    {
      ClosedBegins(s', steps);
    }
    if HasLooked(s') {
      LookedBegins(s');
    }
  }

  lemma LookedBegins(s: State)
    requires HasLooked(s)
    ensures MayBegin(s)
  {
    hide Lines, Next;
    var steps := [GreetingArrives(true, None, false), GreetingSeen];
    var s1 := Next(s, GreetingArrives(true, None, false));
    assert steps[1..] == [GreetingSeen] && [GreetingSeen][1..] == [];
    assert Run(s, steps) == Run(s1, [GreetingSeen]) == Next(s1, GreetingSeen);
    GreetingBegins(s);
  }

  lemma GreetingBegins(s: State)
    requires HasLooked(s)
    ensures Lines(Next(Next(s, GreetingArrives(true, None, false)), GreetingSeen).log) == Lines(s.log) + 1
  {
    hide Lines, SendFirst;
    FirstBegins(s.(greeting := Good), s.phase.task);
    FirstBegins(s, s.phase.task);
  }

  lemma RunThree(s: State, a: Step, b: Step, c: Step, rest: seq<Step>)
    ensures Run(s, [a, b, c] + rest) == Run(Next(Next(Next(s, a), b), c), rest)
  {
    hide Next;
    assert ([a, b, c] + rest)[1..] == [b, c] + rest;
    assert ([b, c] + rest)[1..] == [c] + rest;
    assert ([c] + rest)[1..] == rest;
    assert Run(Next(s, a), [b, c] + rest) == Run(Next(Next(s, a), b), [c] + rest);
  }

  /**
   The exception is real: a client whose IDLE is answered, and whose DONE write rejects only then,
   begins one more command although it is closed.
   */
  lemma SpareLineHappens() returns (steps: seq<Step>)
    ensures Run(START, steps).log
         == [Line(1, 1, 0, IdlePlan), Plus(1), Done(1), Finished(1, true), ClosedByDone, Line(2, 2, 0, CommandPlan([None], NO_CAPS))]
  {
    hide Run, Next;
    var noop: CommandSpec := Spec([None], false, false);
    var last := [StartNext, DoneRejects(0), GreetingSeen] + [];
    var later := [CallDone(0), CallCommands([noop], false), Arrives(Tagged(1, OK, None))] + last;
    var early := [GreetingSeen, WriteSettles(true), Arrives(Continuation)] + later;
    steps := [GreetingArrives(true, None, false), CallIdle, StartNext] + early;

    RunThree(START, GreetingArrives(true, None, false), CallIdle, StartNext, early);
    StageOne();
    RunThree(AT_GREETING, GreetingSeen, WriteSettles(true), Arrives(Continuation), later);
    StageTwo();
    RunThree(IDLING, CallDone(0), CallCommands([noop], false), Arrives(Tagged(1, OK, None)), last);
    StageThree(noop);
    RunThree(Answered(noop), StartNext, DoneRejects(0), GreetingSeen, []);
    StageFour(noop);
    RunNothing(Next(Next(Next(Answered(noop), StartNext), DoneRejects(0)), GreetingSeen));
  }

  const NO_CAPS := Caps(false, false)
  const PLUS_HANDLE := NewHandle(1).(isIdling := true, tag := 1)
  const AT_GREETING := State(false, false, Good, NO_CAPS, 1, 2, [], AtGreeting(IdleTask(1, 0)), [NewHandle(1)], [])
  const IDLING :=
    State(false, true, Good, NO_CAPS, 2, 2, [], Idling(1, IdleTask(1, 0)), [PLUS_HANDLE], [Line(1, 1, 0, IdlePlan), Plus(1)])

  function Answered(spec: CommandSpec): State {
    State(false, true, Good, NO_CAPS, 2, 3, [Commands(2, 0, [spec], false)], Free,
          [PLUS_HANDLE.(doneRequested := true, doneSent := true, isPending := true, isFinished := true)],
          [Line(1, 1, 0, IdlePlan), Plus(1), Done(1), Finished(1, true)])
  }

  lemma StageOne()
    ensures Next(Next(Next(START, GreetingArrives(true, None, false)), CallIdle), StartNext) == AT_GREETING
  {
  }

  lemma StageTwo()
    ensures Next(Next(Next(AT_GREETING, GreetingSeen), WriteSettles(true)), Arrives(Continuation)) == IDLING
  {
  }

  lemma StageThree(spec: CommandSpec)
    ensures Next(Next(Next(IDLING, CallDone(0)), CallCommands([spec], false)), Arrives(Tagged(1, OK, None))) == Answered(spec)
  {
  }

  lemma StageFour(spec: CommandSpec)
    ensures Next(Next(Next(Answered(spec), StartNext), DoneRejects(0)), GreetingSeen).log
         == [Line(1, 1, 0, IdlePlan), Plus(1), Done(1), Finished(1, true), ClosedByDone, Line(2, 2, 0, CommandPlan(spec.literals, NO_CAPS))]
  {
  }

  lemma RunNothing(s: State)
    ensures Run(s, []) == s
  {
  }
}
