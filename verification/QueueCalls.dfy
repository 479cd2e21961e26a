/** What goes out on the queue of `packages/imap/src/client.ts` is what was called for: the lines and literals of each call's commands, in their place. */
module QueueCalls {
  import opened Bytes
  import opened CommandQueue

  /** By its number, what a call asked for: commands, or None for an IDLE. */
  type Calls = map<nat, Option<seq<CommandSpec>>>

  /** A call gets the next number; an IDLE on a closed client is refused and gets none. */
  function Made(s: State, step: Step, calls: Calls): Calls {
    match step
    case CallCommands(list, _) => calls[s.nextCall := Some(list)]
    case CallIdle => if s.closed then calls else calls[s.nextCall := None]
    case _ => calls
  }

  function AllMade(s: State, steps: seq<Step>, calls: Calls): Calls
    decreases |steps|
  {
    if steps == [] then calls else AllMade(Next(s, steps[0]), steps[1..], Made(s, steps[0], calls))
  }

  /** The line begins the call's own command of that place, or its IDLE. */
  predicate IsOwnLine(e: Event, calls: Calls)
    requires e.Line?
  {
    && e.call in calls
    && match e.plan
       case CommandPlan(literals, _) =>
         calls[e.call].Some? && e.nth < |calls[e.call].value| && literals == calls[e.call].value[e.nth].literals
       case IdlePlan => calls[e.call] == None && e.nth == 0
  }

  predicate IsOwnTask(task: Task, calls: Calls) {
    task.call in calls
    && match task
       case Commands(call, nth, list, _) => calls[call].Some? && nth <= |calls[call].value| && list == calls[call].value[nth..]
       case IdleTask(call, _) => calls[call] == None
  }

  function TaskAt(phase: Phase): Option<Task> {
    if phase.Free? then None else Some(phase.task)
  }

  predicate HasOwnTask(phase: Phase, calls: Calls) {
    match TaskAt(phase)
    case None => true
    case Some(task) => IsOwnTask(task, calls) && (task.Commands? ==> task.list != [])
  }

  predicate OwnLines(log: seq<Event>, calls: Calls) {
    forall e | e in log :: e.Line? ==> IsOwnLine(e, calls)
  }

  predicate OwnQueue(queue: seq<Task>, calls: Calls) {
    forall task | task in queue :: IsOwnTask(task, calls)
  }

  predicate Owns(s: State, calls: Calls) {
    && (forall call | call in calls :: call < s.nextCall)
    && OwnQueue(s.queue, calls) && HasOwnTask(s.phase, calls) && OwnLines(s.log, calls)
  }

  /** All but the task on the wire stays, and no line begins. */
  predicate AddsNoLine(s: State, s': State) {
    && s'.nextCall == s.nextCall && s'.queue == s.queue
    && forall e | e in s'.log :: e in s.log || !e.Line?
  }

  lemma StillOwns(s: State, s': State, calls: Calls)
    requires Owns(s, calls) && AddsNoLine(s, s') && HasOwnTask(s'.phase, calls)
    ensures Owns(s', calls)
  {
    hide HasOwnTask, IsOwnTask, IsOwnLine;
  }

  lemma EndOwns(s: State, task: Task, calls: Calls)
    requires Owns(s, calls)
    ensures Owns(EndTask(s, task), calls)
  {
    hide Owns, OwnLines, OwnQueue, IsOwnTask;
    NoTaskOwns(calls);
    StillOwns(s, EndTask(s, task), calls);
  }

  lemma NoTaskOwns(calls: Calls)
    ensures HasOwnTask(Free, calls)
  {
  }

  lemma FailOwns(s: State, tag: nat, task: Task, calls: Calls)
    requires Owns(s, calls)
    ensures Owns(Fail(s, tag, task), calls) && Owns(FailClosed(s, tag, task), calls)
  {
    hide EndTask, Owns;
    PhaseOwns(s, calls);
    var failed := Log(s, Finished(tag, false));
    StillOwns(s, failed, calls);
    EndOwns(failed, task, calls);
    var closed := Log(CloseByTask(s), Finished(tag, false));
    StillOwns(s, closed, calls);
    EndOwns(closed, task, calls);
  }

  lemma PhaseOwns(s: State, calls: Calls)
    requires Owns(s, calls)
    ensures HasOwnTask(s.phase, calls)
  {
  }

  lemma BeginOwns(s: State, task: Task, calls: Calls)
    requires Owns(s, calls) && IsOwnTask(task, calls)
    ensures Owns(BeginTask(s, task), calls)
  {
    hide EndTask, Owns, IsOwnTask;
    EndOwns(s, task, calls);
    if !(s.closed || (task.Commands? && task.list == [])) {
      StillOwns(s, s.(phase := AtGreeting(task)), calls);
    }
  }

  /** The next command of the call comes into its place. */
  lemma SucceedOwns(s: State, tag: nat, task: Task, calls: Calls)
    requires Owns(s, calls) && IsOwnTask(task, calls) && (task.Commands? ==> task.list != [])
    ensures Owns(Succeed(s, tag, task), calls)
  {
    hide EndTask, BeginTask, Owns;
    PhaseOwns(s, calls);
    var done := Log(s, Finished(tag, true));
    StillOwns(s, done, calls);
    EndOwns(done, task, calls);
    match task
    case Commands(call, nth, list, closesAfter) =>
      assert list[1..] == calls[call].value[nth + 1..];
      BeginOwns(done, Commands(call, nth + 1, list[1..], closesAfter), calls);
    case IdleTask(_, _) =>
  }

  lemma SendFirstOwns(s: State, task: Task, calls: Calls)
    requires Owns(s, calls) && s.phase == AtGreeting(task)
    ensures Owns(SendFirst(s, task), calls)
  {
    hide PiecesFrom;
    var s' := SendFirst(s, task);
    var line := s'.log[|s.log|];
    assert s'.log == s.log + [line];
    assert task.Commands? ==> task.list[0] == calls[task.call].value[task.nth];
    assert IsOwnLine(line, calls);
  }

  /** The same task on the wire, in another phase. */
  lemma MovesOn(s: State, s': State, calls: Calls)
    requires Owns(s, calls) && AddsNoLine(s, s') && !s.phase.Free? && !s'.phase.Free? && s'.phase.task == s.phase.task
    ensures Owns(s', calls)
  {
    hide OwnLines, OwnQueue, IsOwnTask, AddsNoLine;
    StillOwns(s, s', calls);
  }

  lemma CommandReceivesOwns(s: State, tag: nat, task: Task, response: Response, calls: Calls)
    requires Owns(s, calls) && (s.phase.AtPlus? || s.phase.AtReply?) && s.phase.task == task
    ensures Owns(CommandReceives(s, tag, task, response), calls)
  {
    hide Owns, FailClosed, Fail, Succeed;
    FailOwns(s, tag, task, calls);
    var s' := CommandReceives(s, tag, task, response);
    match response
    case ReadFails =>
    case Untagged(isBye, caps) =>
      MovesOn(s, Learn(s, caps), calls);
      FailOwns(Learn(s, caps), tag, task, calls);
      MovesOn(s, Await(Learn(s, caps), s.phase), calls);
    case Continuation =>
      if s.phase.AtPlus? || AnswersPlus(task) {
        MovesOn(s, s', calls);
      }
    case Tagged(t, status, caps) =>
      var learned := if s.phase.AtReply? then Learn(s, caps) else s;
      MovesOn(s, learned, calls);
      FailOwns(learned, tag, task, calls);
      OwnsTask(s, calls);
      SucceedOwns(learned, tag, task, calls);
      MovesOn(s, Await(learned, s.phase), calls);
  }

  lemma OwnsTask(s: State, calls: Calls)
    requires Owns(s, calls) && !s.phase.Free?
    ensures IsOwnTask(s.phase.task, calls) && (s.phase.task.Commands? ==> s.phase.task.list != [])
  {
  }

  lemma SendDoneOwns(s: State, id: nat, isPending: bool, calls: Calls)
    requires Owns(s, calls) && id < |s.handles|
    ensures Owns(SendDone(s, id, isPending), calls) && SendDone(s, id, isPending).phase == s.phase
  {
    hide Owns;
    PhaseOwns(s, calls);
    StillOwns(s, SendDone(s, id, isPending), calls);
  }

  lemma IdleReceivesOwns(s: State, tag: nat, task: Task, response: Response, calls: Calls)
    requires Owns(s, calls) && (s.phase.IdleAtPlus? || s.phase.Idling?) && s.phase.task == task
    requires task.IdleTask? && task.id < |s.handles|
    ensures Owns(IdleReceives(s, tag, task, response), calls)
  {
    hide Owns, FailClosed, Fail, Succeed;
    FailOwns(s, tag, task, calls);
    OwnsTask(s, calls);
    SucceedOwns(s, tag, task, calls);
    var s' := IdleReceives(s, tag, task, response);
    if response.Untagged? && !response.isBye {
      MovesOn(s, s', calls);
    } else if response.Continuation? && s.phase.IdleAtPlus? {
      MovesOn(s, s', calls);
    }
  }

  lemma ReceiveOwns(s: State, response: Response, calls: Calls)
    requires Owns(s, calls)
    ensures Owns(Receive(s, response), calls)
  {
    hide Owns, CommandReceives, IdleReceives;
    var r := if s.reading then response else ReadFails;
    match s.phase
    case AtPlus(tag, _, task) => CommandReceivesOwns(s, tag, task, r, calls);
    case AtReply(tag, task) => CommandReceivesOwns(s, tag, task, r, calls);
    case IdleAtPlus(tag, task) => if HasHandle(s, task) { IdleReceivesOwns(s, tag, task, r, calls); }
    case Idling(tag, task) => if HasHandle(s, task) { IdleReceivesOwns(s, tag, task, r, calls); }
    case _ =>
  }

  lemma SettleOwns(s: State, ok: bool, calls: Calls)
    requires Owns(s, calls)
    ensures Owns(Settle(s, ok), calls)
  {
    hide Owns, FailClosed;
    if s.phase.Writing? || s.phase.Answering? || s.phase.IdleWriting? || s.phase.IdleWritingDone? {
      FailOwns(s, s.phase.tag, s.phase.task, calls);
      if ok {
        MovesOn(s, Settle(s, ok), calls);
      }
    }
  }

  /** A new call goes to the end of the queue, under a number of its own. */
  lemma CallOwns(s: State, step: Step, calls: Calls)
    requires Owns(s, calls) && (step.CallCommands? || (step.CallIdle? && !s.closed))
    ensures Owns(Next(s, step), Made(s, step, calls))
  {
    var s', calls' := Next(s, step), Made(s, step, calls);
    assert s.nextCall !in calls;
    assert s'.queue == s.queue + [s'.queue[|s.queue|]];
    forall task | task in s'.queue
      ensures IsOwnTask(task, calls')
    {
      if task !in s.queue && step.CallCommands? {
        assert step.list[0..] == step.list;
      }
    }
    assert forall e | e in s.log && e.Line? :: IsOwnLine(e, calls);
  }

  lemma StartOwns(s: State, calls: Calls)
    requires Owns(s, calls) && s.phase == Free && s.queue != []
    ensures Owns(s.(queue := s.queue[1..]), calls) && IsOwnTask(s.queue[0], calls)
  {
    hide IsOwnTask;
  }

  lemma NextOwns(s: State, step: Step, calls: Calls)
    requires Owns(s, calls)
    ensures Owns(Next(s, step), Made(s, step, calls))
  {
    hide Owns, BeginTask, SendFirst, EndTask, Settle, Receive, SendDone;
    PhaseOwns(s, calls);
    match step
    case CallCommands(_, _) => CallOwns(s, step, calls);
    case CallIdle => if !s.closed { CallOwns(s, step, calls); }
    case CallDone(id) =>
      if id < |s.handles| {
        var asked := s.(handles := s.handles[id := s.handles[id].(doneRequested := true)]);
        StillOwns(s, asked, calls);
        SendDoneOwns(asked, id, true, calls);
      }
    case StartNext =>
      if s.phase == Free && s.queue != [] {
        StartOwns(s, calls);
        BeginOwns(s.(queue := s.queue[1..]), s.queue[0], calls);
      }
    case GreetingArrives(_, _, _) => StillOwns(s, Next(s, step), calls);
    case GreetingSeen =>
      if s.phase.AtGreeting? {
        EndOwns(s, s.phase.task, calls);
        SendFirstOwns(s, s.phase.task, calls);
      }
    case WriteSettles(ok) => SettleOwns(s, ok, calls);
    case DoneRejects(_) => StillOwns(s, Next(s, step), calls);
    case Arrives(response) => ReceiveOwns(s, response, calls);
    case Finally(_) => StillOwns(s, Next(s, step), calls);
  }

  lemma {:induction false} RunOwns(s: State, steps: seq<Step>, calls: Calls)
    requires Owns(s, calls)
    ensures Owns(Run(s, steps), AllMade(s, steps, calls))
    decreases |steps|
  {
    hide Owns, Next, Made;
    if steps != [] {
      NextOwns(s, steps[0], calls);
      RunOwns(Next(s, steps[0]), steps[1..], Made(s, steps[0], calls));
    }
  }

  /** In every run each line on the wire is a command of some call, of the place and with the literals the call gave it, or a call's IDLE. */
  lemma LinesAreCalled(steps: seq<Step>)
    ensures OwnLines(Run(START, steps).log, AllMade(START, steps, map[]))
  {
    hide Run, AllMade;
    RunOwns(START, steps, map[]);
  }

  // ----- what the client knows of the server

  /** A step tells capabilities: a good greeting, what comes while a command waits, and the reply that ends it. */
  function Tells(s: State, step: Step): Option<Caps> {
    match step
    case GreetingArrives(isGood, caps, _) => if s.greeting == Pending && isGood then caps else None
    case Arrives(Untagged(_, caps)) => if s.reading && (s.phase.AtPlus? || s.phase.AtReply?) then caps else None
    case Arrives(Tagged(tag, _, caps)) => if s.reading && s.phase.AtReply? && tag == s.phase.tag then caps else None
    case _ => None
  }

  predicate KnowsOnly(s: State, s': State) {
    s'.caps == s.caps && forall e | e in s'.log :: e in s.log || (e.Line? && e.plan.CommandPlan? ==> e.plan.caps == s.caps)
  }

  lemma EndKnows(s: State, task: Task)
    ensures KnowsOnly(s, EndTask(s, task)) && KnowsOnly(s, BeginTask(s, task))
  {
    hide WithFinished;
  }

  /** No line begins, and the client knows what it knew. */
  predicate IsSilent(s: State, s': State) {
    s'.caps == s.caps && forall e | e in s'.log :: e in s.log || !e.Line?
  }

  lemma EndIsSilent(s: State, tag: nat, task: Task)
    ensures IsSilent(s, EndTask(s, task))
    ensures IsSilent(s, Fail(s, tag, task)) && IsSilent(s, FailClosed(s, tag, task)) && IsSilent(s, Succeed(s, tag, task))
  {
    hide WithFinished;
  }

  lemma CommandIsSilent(s: State, tag: nat, task: Task, response: Response)
    requires (s.phase.AtPlus? || s.phase.AtReply?) && s.phase.tag == tag
    ensures var s' := CommandReceives(s, tag, task, response);
            && (forall e | e in s'.log :: e in s.log || !e.Line?)
            && s'.caps == match response
                          case Untagged(_, Some(caps)) => caps
                          case Tagged(t, _, Some(caps)) => if s.phase.AtReply? && t == tag then caps else s.caps
                          case _ => s.caps
  {
    hide EndTask, Fail, FailClosed, Succeed;
    EndIsSilent(s, tag, task);
    match response
    case Untagged(_, caps) => EndIsSilent(Learn(s, caps), tag, task);
    case Tagged(_, _, caps) => EndIsSilent(Learn(s, caps), tag, task);
    case _ =>
  }

  lemma IdleIsSilent(s: State, tag: nat, task: Task, response: Response)
    requires task.IdleTask? && task.id < |s.handles| && (s.phase.IdleAtPlus? || s.phase.Idling?)
    ensures IsSilent(s, IdleReceives(s, tag, task, response))
  {
    hide EndTask, Fail, FailClosed, Succeed;
    EndIsSilent(s, tag, task);
  }

  lemma ReceiveKnows(s: State, response: Response)
    ensures Receive(s, response).caps == (if Tells(s, Arrives(response)).Some? then Tells(s, Arrives(response)).value else s.caps)
    ensures forall e | e in Receive(s, response).log :: e in s.log || !e.Line?
  {
    hide CommandReceives, IdleReceives;
    var r := if s.reading then response else ReadFails;
    match s.phase
    case AtPlus(tag, _, task) => CommandIsSilent(s, tag, task, r);
    case AtReply(tag, task) => CommandIsSilent(s, tag, task, r);
    case IdleAtPlus(tag, task) => if HasHandle(s, task) { IdleIsSilent(s, tag, task, r); }
    case Idling(tag, task) => if HasHandle(s, task) { IdleIsSilent(s, tag, task, r); }
    case _ =>
  }

  lemma SettleKnows(s: State, ok: bool)
    ensures KnowsOnly(s, Settle(s, ok))
  {
    hide WithFinished;
  }

  /** The client knows what it was told last, and a command begins by what it knows. */
  lemma NextKnows(s: State, step: Step)
    ensures var s' := Next(s, step);
            && s'.caps == (if Tells(s, step).Some? then Tells(s, step).value else s.caps)
            && forall e | e in s'.log :: e in s.log || (e.Line? && e.plan.CommandPlan? ==> e.plan.caps == s'.caps)
  {
    hide WithFinished, PiecesFrom, EndTask, BeginTask, Settle, Receive;
    match step
    case Arrives(response) => ReceiveKnows(s, response);
    case WriteSettles(ok) => SettleKnows(s, ok);
    case StartNext => if s.queue != [] { EndKnows(s.(queue := s.queue[1..]), s.queue[0]); }
    case GreetingSeen => if s.phase.AtGreeting? { EndKnows(s, s.phase.task); }
    case _ =>
  }
}
