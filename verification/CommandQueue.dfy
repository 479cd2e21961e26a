/**
 The command queue and IDLE (RFC 2177) of `packages/imap/src/client.ts`, as a state machine whose
 steps are what may happen between two `await`s: a caller's call, a write that settles, a response
 that arrives. Every list of steps is a run; a step that cannot happen changes nothing. The log
 records what went on the wire and what decided about it, and a monitor that knows nothing of the
 client says which logs are orderly.
 */
module CommandQueue {
  import opened Bytes
  import Commands

  // ----- commands

  /** A command line at a time: the length of the literal behind it, if any. */
  datatype AnySpec = Spec(literals: seq<Option<nat>>, answersPlus: bool, allowsBye: bool)

  /** Every command has a line. */
  type CommandSpec = c: AnySpec | c.literals != [] witness Spec([None], false, false)

  /**
   What a queue entry runs: commands, each after the success of the one before, or one IDLE. `call` is
   the number of the caller's call, `nth` that of the next command in it.
   */
  datatype Task =
    | Commands(call: nat, nth: nat, list: seq<CommandSpec>, closesAfter: bool)
    | IdleTask(call: nat, id: nat)

  datatype Caps = Caps(literalPlus: bool, literalMinus: bool)

  /** The text of a line, the header of its literal, the `+` that is waited for, the literal. */
  datatype Piece = Text(line: nat) | Header(line: nat) | Prompt(line: nat) | Literal(line: nat)

  function LiteralPieces(literal: Option<nat>, caps: Caps, k: nat): seq<Piece> {
    match literal
    case None => []
    case Some(n) =>
      if Commands.CanSynchronizeFree(caps.literalPlus, caps.literalMinus, n) then [Header(k), Literal(k)]
      else [Header(k), Prompt(k), Literal(k)]
  }

  /** The writes and waits of a command from its line `k` on. */
  function PiecesFrom(literals: seq<Option<nat>>, caps: Caps, k: nat): seq<Piece>
    requires k <= |literals|
    decreases |literals| - k
  {
    if k == |literals| then []
    else [Text(k)] + (LiteralPieces(literals[k], caps, k) + PiecesFrom(literals, caps, k + 1))
  }

  // ----- the state

  datatype Phase =
    | Free
    | AtGreeting(task: Task)
    | Writing(tag: nat, left: seq<Piece>, task: Task)
    | AtPlus(tag: nat, left: seq<Piece>, task: Task)
    | AtReply(tag: nat, task: Task)
    | Answering(tag: nat, task: Task)
    | IdleWriting(tag: nat, task: Task)
    | IdleAtPlus(tag: nat, task: Task)
    | IdleWritingDone(tag: nat, task: Task)
    | Idling(tag: nat, task: Task)

  /** The tag of the command or IDLE on the wire without an end. */
  function TagOf(phase: Phase): Option<nat> {
    match phase
    case Free => None
    case AtGreeting(_) => None
    case _ => Some(phase.tag)
  }

  /** One `idle()`: its flags, and whether a DONE written by `done()` has yet to settle. */
  datatype Handle = Handle(
    call: nat, doneRequested: bool, doneSent: bool, isIdling: bool, isFinished: bool, isEnded: bool, isPending: bool, tag: nat)

  function NewHandle(call: nat): Handle {
    Handle(call, false, false, false, false, false, false, 0)
  }

  /** What a line begins: a command of these literals, by what the client knew of the server, or an IDLE. */
  datatype Plan = CommandPlan(literals: seq<Option<nat>>, caps: Caps) | IdlePlan

  /** `More` is a piece that went out or, for a prompt, came; `Answer` what answers a `+` behind a whole command. */
  datatype Event =
    | Line(tag: nat, call: nat, nth: nat, plan: Plan)
    | More(tag: nat, piece: Piece)
    | Answer(tag: nat)
    | Plus(tag: nat)
    | Done(tag: nat)
    | Finished(tag: nat, ok: bool)
    | ClosedByTask
    | ClosedByDone

  datatype GreetingState = Pending | Good | Bad

  /** `reading`: the read under way, if any, was begun on an open client. */
  datatype State = State(
    closed: bool, reading: bool, greeting: GreetingState, caps: Caps, nextTag: nat, nextCall: nat,
    queue: seq<Task>, phase: Phase, handles: seq<Handle>, log: seq<Event>)

  const START := State(false, false, Pending, Caps(false, false), 1, 1, [], Free, [], [])

  datatype Status = OK | NO | BAD

  datatype Response =
    | Untagged(isBye: bool, caps: Option<Caps>)
    | Continuation
    | Tagged(tag: nat, status: Status, caps: Option<Caps>)
    | ReadFails

  datatype Step =
    | CallCommands(list: seq<CommandSpec>, closesAfter: bool)
    | CallIdle
    | CallDone(id: nat)
    | StartNext
    | GreetingArrives(isGood: bool, caps: Option<Caps>, closes: bool)
    | GreetingSeen
    | WriteSettles(ok: bool)
    | DoneRejects(id: nat)
    | Arrives(response: Response)
    | Finally(id: nat)

  // ----- the transitions

  function Log(s: State, e: Event): State {
    s.(log := s.log + [e])
  }

  function CloseByTask(s: State): State {
    Log(s.(closed := true), ClosedByTask)
  }

  function Learn(s: State, caps: Option<Caps>): State {
    match caps
    case None => s
    case Some(c) => s.(caps := c)
  }

  /** The queue entry is over. */
  function EndTask(s: State, task: Task): State {
    match task
    case Commands(_, _, _, closesAfter) =>
      var s' := s.(phase := Free);
      if closesAfter then CloseByTask(s') else s'
    case IdleTask(_, id) => s.(phase := Free, handles := WithFinished(s.handles, id))
  }

  function WithFinished(handles: seq<Handle>, id: nat): (r: seq<Handle>)
    ensures |r| == |handles|
  {
    if id < |handles| then handles[id := handles[id].(isFinished := true)] else handles
  }

  /** `executeCommand` looks at the client once, then waits for the greeting; so does IDLE. */
  function BeginTask(s: State, task: Task): State {
    if s.closed || (task.Commands? && task.list == []) then EndTask(s, task) else s.(phase := AtGreeting(task))
  }

  /** The command on the wire failed: so did its task. */
  function Fail(s: State, tag: nat, task: Task): State {
    EndTask(Log(s, Finished(tag, false)), task)
  }

  function FailClosed(s: State, tag: nat, task: Task): State {
    EndTask(Log(CloseByTask(s), Finished(tag, false)), task)
  }

  /** The command on the wire was answered OK: the task's next one, if any. */
  function Succeed(s: State, tag: nat, task: Task): State {
    match task
    case Commands(call, nth, list, closesAfter) =>
      BeginTask(Log(s, Finished(tag, true)), Commands(call, nth + 1, if list == [] then [] else list[1..], closesAfter))
    case IdleTask(_, _) => EndTask(Log(s, Finished(tag, true)), task)
  }

  /** The first octets of a command or of an IDLE. */
  function SendFirst(s: State, task: Task): State {
    var tag := s.nextTag;
    match task
    case Commands(call, nth, list, _) =>
      var literals: seq<Option<nat>> := if list == [] then [None] else list[0].literals;
      Log(s, Line(tag, call, nth, CommandPlan(literals, s.caps)))
        .(nextTag := tag + 1, phase := Writing(tag, PiecesFrom(literals, s.caps, 0)[1..], task))
    case IdleTask(call, _) =>
      Log(s, Line(tag, call, 0, IdlePlan)).(nextTag := tag + 1, phase := IdleWriting(tag, task))
  }

  /**
   The client waits for a response. `readNextResponse` looks at `isClosed` here, and not again when
   the octets arrive.
   */
  function Await(s: State, phase: Phase): State {
    s.(phase := phase, reading := !s.closed)
  }

  /** After a write that was taken, or a `+` that came, the next piece. */
  function Continue(s: State, tag: nat, left: seq<Piece>, task: Task): State {
    if left == [] then Await(s, AtReply(tag, task))
    else if left[0].Prompt? then Await(s, AtPlus(tag, left, task))
    else Log(s, More(tag, left[0])).(phase := Writing(tag, left[1..], task))
  }

  /** `sendDone`: once, only after the `+`, and not once `finally` has run. */
  function SendDone(s: State, id: nat, isPending: bool): State
    requires id < |s.handles|
  {
    var h := s.handles[id];
    if h.doneSent || !h.isIdling || h.isEnded then s
    else Log(s.(handles := s.handles[id := h.(doneSent := true, isPending := isPending)]), Done(h.tag))
  }

  function AllowsBye(task: Task): bool {
    task.Commands? && task.list != [] && task.list[0].allowsBye
  }

  function AnswersPlus(task: Task): bool {
    task.Commands? && task.list != [] && task.list[0].answersPlus
  }

  /** A response while a command is on the wire. */
  function CommandReceives(s: State, tag: nat, task: Task, response: Response): State
    requires s.phase.AtPlus? || s.phase.AtReply?
  {
    match response
    case ReadFails => FailClosed(s, tag, task)
    case Untagged(isBye, caps) =>
      var s' := Learn(s, caps);
      if isBye && !AllowsBye(task) then FailClosed(s', tag, task) else Await(s', s.phase)
    case Continuation =>
      if s.phase.AtPlus? then
        if s.phase.left == [] then Await(s, AtReply(tag, task))
        else Continue(Log(s, More(tag, s.phase.left[0])), tag, s.phase.left[1..], task)
      else if AnswersPlus(task) then Log(s, Answer(tag)).(phase := Answering(tag, task))
      else FailClosed(s, tag, task)
    case Tagged(t, status, caps) =>
      if t != tag then FailClosed(s, tag, task)
      else
        var s' := if s.phase.AtReply? then Learn(s, caps) else s;
        match status
        case OK => if s.phase.AtReply? then Succeed(s', tag, task) else Await(s', s.phase)
        case _ => Fail(s', tag, task)
  }

  /** A response while an IDLE is on the wire. */
  function IdleReceives(s: State, tag: nat, task: Task, response: Response): State
    requires task.IdleTask? && task.id < |s.handles| && (s.phase.IdleAtPlus? || s.phase.Idling?)
  {
    var id := task.id;
    match response
    case ReadFails => FailClosed(s, tag, task)
    case Untagged(isBye, _) => if isBye then FailClosed(s, tag, task) else Await(s, s.phase)
    case Continuation =>
      if s.phase.Idling? then FailClosed(s, tag, task)
      else
        var h := s.handles[id].(isIdling := true, tag := tag);
        var s' := Await(Log(s, Plus(tag)).(handles := s.handles[id := h]), Idling(tag, task));
        if h.doneRequested && !h.doneSent && !h.isEnded
        then SendDone(s', id, false).(phase := IdleWritingDone(tag, task))
        else s'
    case Tagged(t, status, _) =>
      if t != tag then FailClosed(s, tag, task)
      else if s.phase.IdleAtPlus? then
        if status == OK then FailClosed(s, tag, task) else Fail(s, tag, task)
      else if !s.handles[id].doneSent then FailClosed(s, tag, task)
      else if status == OK then Succeed(s, tag, task)
      else Fail(s, tag, task)
  }

  predicate HasHandle(s: State, task: Task) {
    task.IdleTask? && task.id < |s.handles|
  }

  function Receive(s: State, response: Response): State {
    // A read begun on a closed client fails at once; one already under way delivers what it gets.
    var r := if s.reading then response else ReadFails;
    match s.phase
    case AtPlus(tag, _, task) => CommandReceives(s, tag, task, r)
    case AtReply(tag, task) => CommandReceives(s, tag, task, r)
    case IdleAtPlus(tag, task) => if HasHandle(s, task) then IdleReceives(s, tag, task, r) else s
    case Idling(tag, task) => if HasHandle(s, task) then IdleReceives(s, tag, task, r) else s
    case _ => s
  }

  function Settle(s: State, ok: bool): State {
    match s.phase
    case Writing(tag, left, task) => if ok then Continue(s, tag, left, task) else FailClosed(s, tag, task)
    case Answering(tag, task) => if ok then Await(s, AtReply(tag, task)) else FailClosed(s, tag, task)
    case IdleWriting(tag, task) => if ok then Await(s, IdleAtPlus(tag, task)) else FailClosed(s, tag, task)
    case IdleWritingDone(tag, task) => if ok then Await(s, Idling(tag, task)) else FailClosed(s, tag, task)
    case _ => s
  }

  function Next(s: State, step: Step): State {
    match step
    case CallCommands(list, closesAfter) =>
      s.(queue := s.queue + [Commands(s.nextCall, 0, list, closesAfter)], nextCall := s.nextCall + 1)
    case CallIdle =>
      if s.closed then s
      else
        s.(queue := s.queue + [IdleTask(s.nextCall, |s.handles|)], handles := s.handles + [NewHandle(s.nextCall)],
           nextCall := s.nextCall + 1)
    case CallDone(id) =>
      if id >= |s.handles| then s
      else SendDone(s.(handles := s.handles[id := s.handles[id].(doneRequested := true)]), id, true)
    case StartNext =>
      if s.phase != Free || s.queue == [] then s
      else BeginTask(s.(queue := s.queue[1..]), s.queue[0])
    case GreetingArrives(isGood, caps, closes) =>
      if s.greeting != Pending then s
      else if isGood then Learn(s.(greeting := Good), caps)
      else if closes then CloseByTask(s.(greeting := Bad))
      else s.(greeting := Bad)
    case GreetingSeen =>
      if !s.phase.AtGreeting? || s.greeting == Pending then s
      else if s.greeting == Bad then EndTask(s, s.phase.task)
      else SendFirst(s, s.phase.task)
    case WriteSettles(ok) => Settle(s, ok)
    case DoneRejects(id) =>
      if id >= |s.handles| || !s.handles[id].isPending then s
      else
        Log(s.(closed := true, handles := s.handles[id := s.handles[id].(isPending := false)]), ClosedByDone)
    case Arrives(response) => Receive(s, response)
    case Finally(id) =>
      if id >= |s.handles| || !s.handles[id].isFinished then s
      else s.(handles := s.handles[id := s.handles[id].(isEnded := true)])
  }

  function Run(s: State, steps: seq<Step>): State
    decreases |steps|
  {
    if steps == [] then s else Run(Next(s, steps[0]), steps[1..])
  }

  // ----- what an orderly log is

  /** The server takes a literal of this length without a `+`. */
  predicate Covers(caps: Caps, length: nat) {
    caps.literalPlus || (caps.literalMinus && length <= 4096)
  }

  /** A literal comes behind its header, and behind a prompt between the two unless it is covered. */
  predicate IsNext(literals: seq<Option<nat>>, caps: Caps, at: Piece, piece: Piece) {
    at.line < |literals| &&
    match at
    case Text(k) => if literals[k].Some? then piece == Header(k) else piece == Text(k + 1) && k + 1 < |literals|
    case Header(k) => literals[k].Some? && piece == if Covers(caps, literals[k].value) then Literal(k) else Prompt(k)
    case Prompt(k) => piece == Literal(k)
    case Literal(k) => piece == Text(k + 1) && k + 1 < |literals|
  }

  /** The last line is out, its literal included. */
  predicate IsLast(literals: seq<Option<nat>>, at: Piece) {
    at.line + 1 == |literals| && (at.Literal? || (at.Text? && literals[at.line] == None))
  }

  /**
   `last` is the latest tag, `inFlight` the tag without an end, `plan` and `at` what it is to write and
   how far it is, `call` and `nth` whose it is, `ok` whether the command before ended well; `plus` and
   `done` what the latest IDLE had of each; `spare` is one line a closed client may still begin.
   */
  datatype Monitor = Monitor(
    last: nat, inFlight: Option<nat>, plan: Plan, at: Piece, call: nat, nth: nat, ok: bool,
    plus: bool, done: bool, closed: bool, spare: bool)

  const QUIET := Monitor(0, None, IdlePlan, Text(0), 0, 0, false, false, false, false, false)

  /** Calls take their turns in the order they were made, commands of one call in theirs. */
  predicate IsTurn(m: Monitor, call: nat, nth: nat) {
    if call == m.call then nth == m.nth + 1 && m.ok else call > m.call && nth == 0
  }

  /** None: not orderly. */
  function Judge(m: Monitor, e: Event): Option<Monitor> {
    match e
    case Line(tag, call, nth, plan) =>
      if m.inFlight == None && tag > m.last && (!m.closed || m.spare) && IsTurn(m, call, nth)
      then Some(Monitor(tag, Some(tag), plan, Text(0), call, nth, false, false, false, m.closed, false))
      else None
    case More(tag, piece) =>
      if m.inFlight == Some(tag) && m.plan.CommandPlan? && IsNext(m.plan.literals, m.plan.caps, m.at, piece)
      then Some(m.(at := piece))
      else None
    case Answer(tag) =>
      if m.inFlight == Some(tag) && m.plan.CommandPlan? && IsLast(m.plan.literals, m.at) then Some(m) else None
    case Plus(tag) =>
      if m.inFlight == Some(tag) && tag == m.last && m.plan.IdlePlan? && !m.plus then Some(m.(plus := true)) else None
    case Done(tag) =>
      if tag == m.last && m.plus && !m.done && (m.inFlight == Some(tag) || m.closed)
      then Some(m.(done := true))
      else None
    case Finished(tag, ok) =>
      if m.inFlight == Some(tag) && (ok ==> if m.plan.IdlePlan? then m.done else IsLast(m.plan.literals, m.at))
      then Some(m.(inFlight := None, ok := ok))
      else None
    case ClosedByTask => Some(m.(closed := true, spare := false))
    case ClosedByDone => Some(m.(closed := true, spare := if m.closed then m.spare else m.inFlight == None))
  }

  function JudgeAll(m: Monitor, log: seq<Event>): Option<Monitor>
    decreases |log|
  {
    if log == [] then Some(m)
    else
      match Judge(m, log[0])
      case None => None
      case Some(m') => JudgeAll(m', log[1..])
  }

  lemma {:induction false} JudgeMore(m: Monitor, log: seq<Event>, e: Event)
    ensures JudgeAll(m, log + [e])
         == match JudgeAll(m, log) { case None => None case Some(m') => Judge(m', e) }
    decreases |log|
  {
    hide Judge;
    if log == [] {
      assert [e][1..] == [] && [] + [e] == [e];
    } else {
      assert (log + [e])[1..] == log[1..] + [e];
      match Judge(m, log[0])
      case None =>
      case Some(m') => JudgeMore(m', log[1..], e);
    }
  }

  // ----- every run is orderly

  /** A `done()` on this handle would write DONE. */
  predicate IsArmed(h: Handle) {
    h.isIdling && !h.doneSent && !h.isEnded
  }

  /** Agreement apart from where the running task is. */
  ghost predicate AgreeApart(s: State, m: Monitor) {
    && JudgeAll(QUIET, s.log) == Some(m)
    && m.closed == s.closed && m.last < s.nextTag && (m.spare ==> m.closed)
  }

  ghost predicate OneArmed(handles: seq<Handle>) {
    forall j, k | 0 <= j < k < |handles| :: !IsArmed(handles[j]) || !IsArmed(handles[k])
  }

  /** The one armed handle, if any, is that of the IDLE on the wire, or the client is closed. */
  ghost predicate AgreeArmed(s: State, m: Monitor) {
    OneArmed(s.handles) && forall k | 0 <= k < |s.handles| && IsArmed(s.handles[k]) ::
      && s.handles[k].tag == m.last && m.plus && !m.done && !m.spare
      && (m.closed || ((s.phase.Idling? || s.phase.IdleWritingDone?) && s.phase.task.IdleTask? && s.phase.task.id == k))
  }

  ghost predicate NoneArmed(s: State) {
    forall k | 0 <= k < |s.handles| :: !IsArmed(s.handles[k])
  }

  /** An IDLE that has not begun has its own handle, untouched but for requests. */
  predicate IsFresh(handles: seq<Handle>, task: Task) {
    task.IdleTask? ==>
      task.id < |handles| && handles[task.id].call == task.call && !handles[task.id].isIdling && !handles[task.id].doneSent
  }

  function NthOf(task: Task): nat {
    if task.Commands? then task.nth else 0
  }

  /** What waits was called later than what has begun, in the order it waits. */
  ghost predicate AgreeQueue(s: State, call: nat) {
    && call < s.nextCall
    && (forall k | 0 <= k < |s.queue| ::
          call < s.queue[k].call < s.nextCall && NthOf(s.queue[k]) == 0 && IsFresh(s.handles, s.queue[k]))
    && forall j, k | 0 <= j < k < |s.queue| :: s.queue[j].call < s.queue[k].call
  }

  /** What is left to write behind `at`. */
  ghost function Remaining(plan: Plan, at: Piece): seq<Piece>
    requires plan.CommandPlan? && at.line < |plan.literals|
  {
    var k := at.line;
    var literal := LiteralPieces(plan.literals[k], plan.caps, k);
    var later := PiecesFrom(plan.literals, plan.caps, k + 1);
    match at
    case Text(_) => literal + later
    case Header(_) => (if literal == [] then [] else literal[1..]) + later
    case Prompt(_) => [Literal(k)] + later
    case Literal(_) => later
  }

  /** How far the command is that the task has on the wire. */
  ghost predicate AgreeCommand(task: Task, m: Monitor, left: seq<Piece>) {
    && m.plan.CommandPlan? && m.at.line < |m.plan.literals| && left == Remaining(m.plan, m.at)
    && (m.at.Header? || m.at.Prompt? ==> m.plan.literals[m.at.line].Some?)
    && task.Commands? && task.call == m.call && task.nth == m.nth
  }

  /** The IDLE on the wire and its handle. */
  ghost predicate AgreeIdle(s: State, task: Task, m: Monitor) {
    && m.plan.IdlePlan? && task.IdleTask? && task.call == m.call
    && task.id < |s.handles| && s.handles[task.id].call == m.call
  }

  ghost predicate AgreePhase(s: State, m: Monitor) {
    match s.phase
    case Free => true
    case AtGreeting(task) =>
      && IsTurn(m, task.call, NthOf(task)) && AgreeQueue(s, task.call) && IsFresh(s.handles, task)
      && (s.closed && s.greeting != Bad ==> m.spare)
    case Writing(_, left, task) => AgreeCommand(task, m, left)
    case AtPlus(_, left, task) => AgreeCommand(task, m, left) && left != [] && left[0].Prompt?
    case AtReply(_, task) => AgreeCommand(task, m, [])
    case Answering(_, task) => AgreeCommand(task, m, [])
    case IdleWriting(_, task) => AgreeIdle(s, task, m) && IsFresh(s.handles, task) && !m.plus && !m.done
    case IdleAtPlus(_, task) => AgreeIdle(s, task, m) && IsFresh(s.handles, task) && !m.plus && !m.done
    case IdleWritingDone(_, task) => AgreeIdle(s, task, m) && (s.handles[task.id].doneSent ==> m.done)
    case Idling(_, task) => AgreeIdle(s, task, m) && (s.handles[task.id].doneSent ==> m.done)
  }

  /** How the client and the monitor agree. */
  ghost predicate Agree(s: State, m: Monitor) {
    && AgreeApart(s, m) && AgreeArmed(s, m) && AgreeQueue(s, m.call) && AgreePhase(s, m)
    && m.inFlight == TagOf(s.phase)
    && (m.inFlight.Some? ==> m.inFlight.value == m.last && !m.spare)
  }

  lemma LogJudged(s: State, m: Monitor, e: Event)
    requires JudgeAll(QUIET, s.log) == Some(m)
    ensures JudgeAll(QUIET, Log(s, e).log) == Judge(m, e)
  {
    JudgeMore(QUIET, s.log, e);
  }

  /** Between two tasks nothing is in flight, and a handle still armed belongs to a closed client. */
  ghost predicate AgreeBetween(s: State, m: Monitor) {
    && AgreeApart(s, m) && m.inFlight == None && AgreeQueue(s, m.call)
    && (NoneArmed(s) || (m.closed && AgreeArmed(s, m)))
  }

  lemma EndTaskAgrees(s: State, m: Monitor, task: Task) returns (m': Monitor)
    requires AgreeBetween(s, m)
    ensures Agree(EndTask(s, task), m')
  {
    hide JudgeAll;
    m' := m;
    if task.Commands? && task.closesAfter {
      LogJudged(s.(phase := Free), m, ClosedByTask);
      m' := m.(closed := true, spare := false);
    }
  }

  lemma BeginTaskAgrees(s: State, m: Monitor, task: Task) returns (m': Monitor)
    requires AgreeBetween(s, m)
    requires IsTurn(m, task.call, NthOf(task)) && AgreeQueue(s, task.call) && IsFresh(s.handles, task)
    ensures Agree(BeginTask(s, task), m')
  {
    hide JudgeAll;
    m' := EndTaskAgrees(s, m, task);
    if !(s.closed || (task.Commands? && task.list == [])) {
      m' := m;
    }
  }

  lemma FailAgrees(s: State, m: Monitor, tag: nat, task: Task) returns (m': Monitor)
    requires AgreeApart(s, m) && AgreeQueue(s, m.call) && m.inFlight == Some(tag)
    requires NoneArmed(s) || (m.closed && AgreeArmed(s, m))
    ensures Agree(Fail(s, tag, task), m')
  {
    hide JudgeAll;
    LogJudged(s, m, Finished(tag, false));
    m' := EndTaskAgrees(Log(s, Finished(tag, false)), m.(inFlight := None, ok := false), task);
  }

  lemma FailClosedAgrees(s: State, m: Monitor, tag: nat, task: Task) returns (m': Monitor)
    requires AgreeApart(s, m) && AgreeArmed(s, m) && AgreeQueue(s, m.call) && m.inFlight == Some(tag)
    ensures Agree(FailClosed(s, tag, task), m')
  {
    hide JudgeAll;
    LogJudged(s.(closed := true), m, ClosedByTask);
    m' := FailAgrees(CloseByTask(s), m.(closed := true, spare := false), tag, task);
  }

  lemma SucceedAgrees(s: State, m: Monitor, tag: nat, task: Task) returns (m': Monitor)
    requires AgreeApart(s, m) && AgreeQueue(s, m.call) && m.inFlight == Some(tag)
    requires NoneArmed(s) || (m.closed && AgreeArmed(s, m))
    requires if task.IdleTask? then m.plan.IdlePlan? && m.done else AgreeCommand(task, m, [])
    ensures Agree(Succeed(s, tag, task), m')
  {
    hide JudgeAll, Remaining;
    if task.Commands? {
      NothingRemains(m.plan, m.at);
    }
    LogJudged(s, m, Finished(tag, true));
    var s', m1 := Log(s, Finished(tag, true)), m.(inFlight := None, ok := true);
    if task.Commands? {
      m' := BeginTaskAgrees(s', m1, Commands(task.call, task.nth + 1, if task.list == [] then [] else task.list[1..], task.closesAfter));
    } else {
      m' := EndTaskAgrees(s', m1, task);
    }
  }

  /** Behind the last piece the command is whole; before it, the next piece is the one that may go. */
  lemma NothingRemains(plan: Plan, at: Piece)
    requires plan.CommandPlan? && at.line < |plan.literals|
    requires at.Header? || at.Prompt? ==> plan.literals[at.line].Some?
    ensures Remaining(plan, at) == [] ==> IsLast(plan.literals, at)
  {
  }

  lemma LaterFirst(plan: Plan, k: nat)
    requires plan.CommandPlan? && k + 1 <= |plan.literals|
    ensures var later := PiecesFrom(plan.literals, plan.caps, k + 1);
            if k + 1 == |plan.literals| then later == []
            else later != [] && later[0] == Text(k + 1) && later[1..] == Remaining(plan, Text(k + 1))
  {
    hide LiteralPieces;
  }

  lemma LiteralNext(plan: Plan, at: Piece)
    requires plan.CommandPlan? && at.line < |plan.literals| && plan.literals[at.line].Some?
    ensures var k, n := at.line, plan.literals[at.line].value;
            var later := PiecesFrom(plan.literals, plan.caps, k + 1);
            && Remaining(plan, Text(k)) == [Header(k)] + Remaining(plan, Header(k))
            && Remaining(plan, Header(k))
               == (if Covers(plan.caps, n) then [] else [Prompt(k)]) + ([Literal(k)] + later)
            && Remaining(plan, Prompt(k)) == [Literal(k)] + later && Remaining(plan, Literal(k)) == later
  {
    hide PiecesFrom;
    var k, n := at.line, plan.literals[at.line].value;
    var later := PiecesFrom(plan.literals, plan.caps, k + 1);
    var literal := LiteralPieces(plan.literals[k], plan.caps, k);
    assert literal == [Header(k)] + literal[1..];
    ConcatAssoc([Header(k)], literal[1..], later);
    assert literal[1..] == (if Covers(plan.caps, n) then [] else [Prompt(k)]) + [Literal(k)];
    ConcatAssoc(if Covers(plan.caps, n) then [] else [Prompt(k)], [Literal(k)], later);
  }

  /** The next piece may go, and leaves what is behind it. */
  predicate GoesNext(plan: Plan, at: Piece, left: seq<Piece>)
    requires plan.CommandPlan? && left != []
  {
    && left[0].line < |plan.literals| && IsNext(plan.literals, plan.caps, at, left[0])
    && (left[0].Header? || left[0].Prompt? ==> plan.literals[left[0].line].Some?)
  }

  lemma NextText(plan: Plan, at: Piece)
    requires plan.CommandPlan? && at.line < |plan.literals| && Remaining(plan, at) != []
    requires at.Literal? || (at.Text? && plan.literals[at.line] == None)
    ensures var left := Remaining(plan, at); GoesNext(plan, at, left) && Remaining(plan, left[0]) == left[1..]
  {
    hide *;
    TextRemains(plan, at);
    LaterFirst(plan, at.line);
    TextGoes(plan, at);
  }

  lemma TextGoes(plan: Plan, at: Piece)
    requires plan.CommandPlan? && at.line + 1 < |plan.literals|
    requires at.Literal? || (at.Text? && plan.literals[at.line] == None)
    ensures forall left: seq<Piece> | left != [] && left[0] == Text(at.line + 1) :: GoesNext(plan, at, left)
  {
  }

  lemma NextLiteral(plan: Plan, at: Piece)
    requires plan.CommandPlan? && at.line < |plan.literals| && !at.Literal? && plan.literals[at.line].Some?
    ensures var left := Remaining(plan, at); left != [] && GoesNext(plan, at, left) && Remaining(plan, left[0]) == left[1..]
  {
    var k := at.line;
    var later := PiecesFrom(plan.literals, plan.caps, k + 1);
    hide Remaining, LiteralPieces, PiecesFrom, Covers;
    LiteralNext(plan, at);
    if at.Text? {
      assert ([Header(k)] + Remaining(plan, Header(k)))[1..] == Remaining(plan, Header(k));
    } else if at.Header? && !Covers(plan.caps, plan.literals[k].value) {
      assert ([Prompt(k)] + ([Literal(k)] + later))[1..] == [Literal(k)] + later;
    } else {
      assert [] + ([Literal(k)] + later) == [Literal(k)] + later;
      assert ([Literal(k)] + later)[1..] == later;
    }
  }

  lemma NextRemains(plan: Plan, at: Piece)
    requires plan.CommandPlan? && at.line < |plan.literals| && Remaining(plan, at) != []
    requires at.Header? || at.Prompt? ==> plan.literals[at.line].Some?
    ensures var left := Remaining(plan, at); GoesNext(plan, at, left) && Remaining(plan, left[0]) == left[1..]
  {
    hide Remaining, GoesNext;
    if at.Literal? || plan.literals[at.line] == None {
      NextText(plan, at);
    } else {
      NextLiteral(plan, at);
    }
  }

  lemma TextRemains(plan: Plan, at: Piece)
    requires plan.CommandPlan? && at.line < |plan.literals|
    ensures at.Literal? || (at.Text? && plan.literals[at.line] == None) ==>
              Remaining(plan, at) == PiecesFrom(plan.literals, plan.caps, at.line + 1)
  {
    hide PiecesFrom;
    var later := PiecesFrom(plan.literals, plan.caps, at.line + 1);
    assert [] + later == later;
  }

  lemma SendFirstAgrees(s: State, m: Monitor) returns (m': Monitor)
    requires Agree(s, m) && s.phase.AtGreeting? && s.greeting == Good
    ensures Agree(SendFirst(s, s.phase.task), m')
  {
    hide JudgeAll, LiteralPieces, PiecesFrom;
    var task, tag := s.phase.task, s.nextTag;
    match task
    case Commands(call, nth, list, _) =>
      var literals: seq<Option<nat>> := if list == [] then [None] else list[0].literals;
      var plan := CommandPlan(literals, s.caps);
      LogJudged(s, m, Line(tag, call, nth, plan));
      m' := Monitor(tag, Some(tag), plan, Text(0), call, nth, false, false, false, m.closed, false);
      FirstRemains(plan);
    case IdleTask(call, _) =>
      LogJudged(s, m, Line(tag, call, 0, IdlePlan));
      m' := Monitor(tag, Some(tag), IdlePlan, Text(0), call, 0, false, false, false, m.closed, false);
  }

  lemma FirstRemains(plan: Plan)
    requires plan.CommandPlan? && plan.literals != []
    ensures PiecesFrom(plan.literals, plan.caps, 0) != []
    ensures PiecesFrom(plan.literals, plan.caps, 0)[1..] == Remaining(plan, Text(0))
  {
  }

  lemma ContinueAgrees(s: State, m: Monitor, tag: nat, left: seq<Piece>, task: Task) returns (m': Monitor)
    requires AgreeApart(s, m) && AgreeArmed(s, m) && AgreeQueue(s, m.call) && AgreeCommand(task, m, left)
    requires m.inFlight == Some(tag) && tag == m.last && !m.spare && !(s.phase.Idling? || s.phase.IdleWritingDone?)
    ensures Agree(Continue(s, tag, left, task), m')
  {
    hide JudgeAll, Remaining;
    m' := m;
    if left != [] {
      NextRemains(m.plan, m.at);
      if !left[0].Prompt? {
        LogJudged(s, m, More(tag, left[0]));
        m' := m.(at := left[0]);
      }
    }
  }

  lemma SendDoneAgrees(s: State, m: Monitor, id: nat, isPending: bool) returns (m': Monitor)
    requires Agree(s, m) && id < |s.handles|
    ensures Agree(SendDone(s, id, isPending), m')
    ensures SendDone(s, id, isPending).phase == s.phase
  {
    hide JudgeAll;
    m' := m;
    var h := s.handles[id];
    if IsArmed(h) {
      LogJudged(s.(handles := s.handles[id := h.(doneSent := true, isPending := isPending)]), m, Done(h.tag));
      m' := m.(done := true);
    }
  }

  lemma PromptAgrees(s: State, m: Monitor) returns (m': Monitor)
    requires Agree(s, m) && s.phase.AtPlus?
    ensures Agree(CommandReceives(s, s.phase.tag, s.phase.task, Continuation), m')
  {
    hide JudgeAll, Continue, Remaining, IsNext;
    var tag, task, left := s.phase.tag, s.phase.task, s.phase.left;
    NextRemains(m.plan, m.at);
    LogJudged(s, m, More(tag, left[0]));
    m' := ContinueAgrees(Log(s, More(tag, left[0])), m.(at := left[0]), tag, left[1..], task);
  }

  lemma AnswerAgrees(s: State, m: Monitor) returns (m': Monitor)
    requires Agree(s, m) && s.phase.AtReply?
    ensures Agree(CommandReceives(s, s.phase.tag, s.phase.task, Continuation), m')
  {
    hide JudgeAll, FailClosed, Remaining;
    var tag, task := s.phase.tag, s.phase.task;
    m' := m;
    if AnswersPlus(task) {
      NothingRemains(m.plan, m.at);
      LogJudged(s, m, Answer(tag));
    } else {
      m' := FailClosedAgrees(s, m, tag, task);
    }
  }

  lemma CommandReceivesAgrees(s: State, m: Monitor, response: Response) returns (m': Monitor)
    requires Agree(s, m) && (s.phase.AtPlus? || s.phase.AtReply?)
    ensures Agree(CommandReceives(s, s.phase.tag, s.phase.task, response), m')
  {
    hide JudgeAll, Succeed, Fail, FailClosed, Continue, Remaining, IsFresh, IsTurn, IsArmed;
    var tag, task := s.phase.tag, s.phase.task;
    m' := m;
    match response
    case ReadFails => m' := FailClosedAgrees(s, m, tag, task);
    case Untagged(isBye, caps) =>
      LearnAgrees(s, m, caps);
      if isBye && !AllowsBye(task) {
        m' := FailClosedAgrees(Learn(s, caps), m, tag, task);
      }
    case Continuation =>
      if s.phase.AtPlus? {
        m' := PromptAgrees(s, m);
      } else {
        m' := AnswerAgrees(s, m);
      }
    case Tagged(t, status, caps) =>
      if t != tag {
        m' := FailClosedAgrees(s, m, tag, task);
      } else {
        LearnAgrees(s, m, caps);
        NoneIsArmed(s, m);
        var s' := if s.phase.AtReply? then Learn(s, caps) else s;
        if status != OK {
          m' := FailAgrees(s', m, tag, task);
        } else if s.phase.AtReply? {
          m' := SucceedAgrees(s', m, tag, task);
        }
      }
  }

  /** What the client learns, and where its read stands, is no matter of the log. */
  lemma LearnAgrees(s: State, m: Monitor, caps: Option<Caps>)
    requires Agree(s, m)
    ensures Agree(Learn(s, caps), m) && Agree(Await(Learn(s, caps), s.phase), m) && Agree(Await(s, s.phase), m)
    ensures NoneArmed(Learn(s, caps)) <==> NoneArmed(s)
  {
    SameAgrees(s, Learn(s, caps), m);
    SameAgrees(s, Await(Learn(s, caps), s.phase), m);
    SameAgrees(s, Await(s, s.phase), m);
  }

  /** What the client knows of the server, and whether it reads, is nothing to the monitor. */
  lemma SameAgrees(s: State, s': State, m: Monitor)
    requires Agree(s, m) && s'.(caps := s.caps, reading := s.reading) == s
    ensures Agree(s', m) && (NoneArmed(s') <==> NoneArmed(s))
  {
    hide JudgeAll, Remaining, IsFresh, AgreeQueue, AgreePhase, AgreeArmed, IsArmed;
    assert s'.log == s.log && s'.closed == s.closed && s'.nextTag == s.nextTag && s'.phase == s.phase && s'.handles == s.handles;
    SameQueue(s, s', m.call);
    SamePhase(s, s', m);
    SameArmed(s, s', m);
  }

  lemma SameQueue(s: State, s': State, call: nat)
    requires s'.(caps := s.caps, reading := s.reading) == s
    ensures AgreeQueue(s', call) <==> AgreeQueue(s, call)
  {
    hide IsFresh;
    assert s'.queue == s.queue && s'.nextCall == s.nextCall && s'.handles == s.handles;
  }

  lemma SamePhase(s: State, s': State, m: Monitor)
    requires AgreePhase(s, m) && s'.(caps := s.caps, reading := s.reading) == s
    ensures AgreePhase(s', m)
  {
    hide Remaining, AgreeQueue, IsFresh, AgreeCommand;
    assert s'.handles == s.handles && s'.phase == s.phase && s'.greeting == s.greeting && s'.closed == s.closed;
    if s.phase.AtGreeting? {
      SameQueue(s, s', s.phase.task.call);
    }
  }

  lemma NoneIsArmed(s: State, m: Monitor)
    requires Agree(s, m) && !(s.phase.Idling? || s.phase.IdleWritingDone?)
    ensures NoneArmed(s) || (m.closed && AgreeArmed(s, m))
  {
    hide JudgeAll, Remaining;
  }

  lemma PlusAgrees(s: State, m: Monitor) returns (m': Monitor)
    requires Agree(s, m) && s.phase.IdleAtPlus?
    ensures Agree(IdleReceives(s, s.phase.tag, s.phase.task, Continuation), m')
  {
    hide JudgeAll, SendDone;
    var tag, task := s.phase.tag, s.phase.task;
    var id := task.id;
    var h := s.handles[id].(isIdling := true, tag := tag);
    var s' := Await(Log(s, Plus(tag)).(handles := s.handles[id := h]), Idling(tag, task));
    LogJudged(s, m, Plus(tag));
    m' := m.(plus := true);
    if h.doneRequested && !h.doneSent && !h.isEnded {
      var m1 := SendDoneAgrees(s', m', id, false);
      DoneIsWritten(s', id);
      m' := m1;
    }
  }

  lemma DoneIsWritten(s: State, id: nat)
    requires id < |s.handles| && IsArmed(s.handles[id])
    ensures SendDone(s, id, false)
         == Log(s.(handles := s.handles[id := s.handles[id].(doneSent := true, isPending := false)]), Done(s.handles[id].tag))
  {
  }

  lemma IdleReceivesAgrees(s: State, m: Monitor, response: Response) returns (m': Monitor)
    requires Agree(s, m) && (s.phase.IdleAtPlus? || s.phase.Idling?)
    ensures Agree(IdleReceives(s, s.phase.tag, s.phase.task, response), m')
  {
    hide JudgeAll, Fail, FailClosed, Succeed, SendDone;
    var tag, task := s.phase.tag, s.phase.task;
    m' := m;
    match response
    case ReadFails => m' := FailClosedAgrees(s, m, tag, task);
    case Untagged(isBye, _) =>
      if isBye {
        m' := FailClosedAgrees(s, m, tag, task);
      }
    case Continuation =>
      if s.phase.Idling? {
        m' := FailClosedAgrees(s, m, tag, task);
      } else {
        m' := PlusAgrees(s, m);
      }
    case Tagged(t, status, _) =>
      if t != tag || (if s.phase.IdleAtPlus? then status == OK else !s.handles[task.id].doneSent) {
        m' := FailClosedAgrees(s, m, tag, task);
      } else if status == OK {
        m' := SucceedAgrees(s, m, tag, task);
      } else {
        m' := FailAgrees(s, m, tag, task);
      }
  }

  lemma SettleAgrees(s: State, m: Monitor, ok: bool) returns (m': Monitor)
    requires Agree(s, m)
    ensures Agree(Settle(s, ok), m')
  {
    hide JudgeAll, Continue, FailClosed, Remaining;
    m' := m;
    match s.phase
    case Writing(tag, left, task) =>
      if ok {
        m' := ContinueAgrees(s, m, tag, left, task);
      } else {
        m' := FailClosedAgrees(s, m, tag, task);
      }
    case Answering(tag, task) =>
      if !ok {
        m' := FailClosedAgrees(s, m, tag, task);
      }
    case IdleWriting(tag, task) =>
      if !ok {
        m' := FailClosedAgrees(s, m, tag, task);
      }
    case IdleWritingDone(tag, task) =>
      if !ok {
        m' := FailClosedAgrees(s, m, tag, task);
      }
    case _ =>
  }

  lemma ReceiveAgrees(s: State, m: Monitor, response: Response) returns (m': Monitor)
    requires Agree(s, m)
    ensures Agree(Receive(s, response), m')
  {
    hide JudgeAll, CommandReceives, IdleReceives, Remaining;
    var r := if s.reading then response else ReadFails;
    m' := m;
    if s.phase.AtPlus? || s.phase.AtReply? {
      m' := CommandReceivesAgrees(s, m, r);
    } else if s.phase.IdleAtPlus? || s.phase.Idling? {
      m' := IdleReceivesAgrees(s, m, r);
    }
  }

  lemma CallsAgree(s: State, m: Monitor, step: Step)
    requires Agree(s, m) && (step.CallIdle? || step.CallCommands?)
    ensures Agree(Next(s, step), m)
  {
    hide JudgeAll, Remaining;
  }

  lemma CallDoneAgrees(s: State, m: Monitor, id: nat) returns (m': Monitor)
    requires Agree(s, m)
    ensures Agree(Next(s, CallDone(id)), m')
  {
    hide JudgeAll, SendDone, Remaining;
    m' := m;
    if id < |s.handles| {
      m' := SendDoneAgrees(s.(handles := s.handles[id := s.handles[id].(doneRequested := true)]), m, id, true);
    }
  }

  lemma StartAgrees(s: State, m: Monitor) returns (m': Monitor)
    requires Agree(s, m) && s.phase == Free && s.queue != []
    ensures Agree(BeginTask(s.(queue := s.queue[1..]), s.queue[0]), m')
  {
    hide JudgeAll, BeginTask;
    m' := BeginTaskAgrees(s.(queue := s.queue[1..]), m, s.queue[0]);
  }

  /** Closing moves neither the task nor the queue. */
  predicate SameButClosed(s: State, s': State) {
    && s'.phase == s.phase && s'.queue == s.queue && s'.nextCall == s.nextCall && |s'.handles| == |s.handles|
    && forall k | 0 <= k < |s.handles| ::
         s'.handles[k] == s.handles[k].(isPending := s'.handles[k].isPending)
  }

  lemma CloseKeepsQueue(s: State, s': State, call: nat)
    requires SameButClosed(s, s') && AgreeQueue(s, call)
    ensures AgreeQueue(s', call)
  {
  }

  lemma CloseKeepsPhase(s: State, s': State, m: Monitor, m': Monitor)
    requires SameButClosed(s, s') && AgreePhase(s, m) && m' == m.(closed := m'.closed, spare := m'.spare)
    requires s.phase.AtGreeting? && s'.closed && s'.greeting != Bad ==> m'.spare
    ensures AgreePhase(s', m')
  {
    hide Remaining, AgreeQueue;
    if s.phase.AtGreeting? {
      CloseKeepsQueue(s, s', s.phase.task.call);
    }
  }

  lemma CloseKeepsArmed(s: State, s': State, m: Monitor, m': Monitor)
    requires SameButClosed(s, s') && AgreeArmed(s, m) && m' == m.(closed := true, spare := m'.spare)
    requires m'.spare ==> m.spare || (m.inFlight == None && !m.closed)
    requires !m.closed && m.inFlight == None ==> TagOf(s.phase) == None
    ensures AgreeArmed(s', m')
  {
    assert forall k | 0 <= k < |s.handles| :: IsArmed(s'.handles[k]) == IsArmed(s.handles[k]);
  }

  lemma DoneRejectsAgrees(s: State, m: Monitor, id: nat) returns (m': Monitor)
    requires Agree(s, m)
    ensures Agree(Next(s, DoneRejects(id)), m')
  {
    hide JudgeAll, AgreeQueue, AgreePhase, AgreeArmed, Judge;
    m' := m;
    if id < |s.handles| && s.handles[id].isPending {
      var closed := s.(closed := true, handles := s.handles[id := s.handles[id].(isPending := false)]);
      m' := m.(closed := true, spare := if m.closed then m.spare else m.inFlight == None);
      LogJudged(closed, m, ClosedByDone);
      DoneJudged(m);
      var s' := Log(closed, ClosedByDone);
      CloseKeepsQueue(s, s', m.call);
      GreetingSpared(s, m);
      CloseKeepsPhase(s, s', m, m');
      CloseKeepsArmed(s, s', m, m');
    }
  }

  lemma DoneJudged(m: Monitor)
    ensures Judge(m, ClosedByDone) == Some(m.(closed := true, spare := if m.closed then m.spare else m.inFlight == None))
    ensures Judge(m, ClosedByTask) == Some(m.(closed := true, spare := false))
  {
  }

  lemma GreetingSpared(s: State, m: Monitor)
    requires AgreePhase(s, m)
    ensures s.phase.AtGreeting? && s.closed && s.greeting != Bad ==> m.spare
  {
    hide Remaining, AgreeQueue;
  }

  lemma GreetingAgrees(s: State, m: Monitor, isGood: bool, caps: Option<Caps>, closes: bool) returns (m': Monitor)
    requires Agree(s, m)
    ensures Agree(Next(s, GreetingArrives(isGood, caps, closes)), m')
  {
    hide JudgeAll, AgreeQueue, AgreePhase, AgreeArmed, Judge;
    m' := m;
    if s.greeting == Pending {
      var s' := Next(s, GreetingArrives(isGood, caps, closes));
      GreetingSpared(s, m);
      CloseKeepsQueue(s, s', m.call);
      if !isGood && closes {
        LogJudged(s.(greeting := Bad, closed := true), m, ClosedByTask);
        DoneJudged(m);
        m' := m.(closed := true, spare := false);
        CloseKeepsArmed(s, s', m, m');
      } else {
        SameArmed(s, s', m);
      }
      CloseKeepsPhase(s, s', m, m');
    }
  }

  lemma SameArmed(s: State, s': State, m: Monitor)
    requires AgreeArmed(s, m) && s'.handles == s.handles && s'.phase == s.phase
    ensures AgreeArmed(s', m)
  {
  }

  lemma GreetingSeenAgrees(s: State, m: Monitor) returns (m': Monitor)
    requires Agree(s, m)
    ensures Agree(Next(s, GreetingSeen), m')
  {
    hide JudgeAll, EndTask, SendFirst, Remaining;
    m' := m;
    if s.phase.AtGreeting? && s.greeting == Bad {
      m' := EndTaskAgrees(s, m, s.phase.task);
    } else if s.phase.AtGreeting? && s.greeting == Good {
      m' := SendFirstAgrees(s, m);
    }
  }

  lemma FinallyAgrees(s: State, m: Monitor, id: nat)
    requires Agree(s, m)
    ensures Agree(Next(s, Finally(id)), m)
  {
    hide JudgeAll, Remaining;
  }

  lemma NextAgrees(s: State, m: Monitor, step: Step) returns (m': Monitor)
    requires Agree(s, m)
    ensures Agree(Next(s, step), m')
  {
    hide JudgeAll, Agree, BeginTask, EndTask, SendFirst, Settle, Receive, SendDone;
    m' := m;
    match step
    case CallCommands(_, _) => CallsAgree(s, m, step);
    case CallIdle => CallsAgree(s, m, step);
    case CallDone(id) => m' := CallDoneAgrees(s, m, id);
    case StartNext =>
      if s.phase == Free && s.queue != [] {
        m' := StartAgrees(s, m);
      }
    case GreetingArrives(isGood, caps, closes) => m' := GreetingAgrees(s, m, isGood, caps, closes);
    case GreetingSeen => m' := GreetingSeenAgrees(s, m);
    case WriteSettles(ok) => m' := SettleAgrees(s, m, ok);
    case DoneRejects(id) => m' := DoneRejectsAgrees(s, m, id);
    case Arrives(response) => m' := ReceiveAgrees(s, m, response);
    case Finally(id) => FinallyAgrees(s, m, id);
  }

  lemma {:induction false} RunAgrees(s: State, m: Monitor, steps: seq<Step>) returns (m': Monitor)
    requires Agree(s, m)
    ensures Agree(Run(s, steps), m')
    decreases |steps|
  {
    hide Agree, Next;
    m' := m;
    if steps != [] {
      var m1 := NextAgrees(s, m, steps[0]);
      m' := RunAgrees(Next(s, steps[0]), m1, steps[1..]);
    }
  }

  /**
   Every interleaving is orderly: one tagged command in flight at a time and nothing of another
   between its line and its end, calls in their order, each command's pieces in theirs, a literal
   behind the `+` it needs; DONE once an IDLE at most, only behind that IDLE's `+`, and behind its end
   only on a closed client; tags that rise; and no line begun after the client closed, but for the one
   whose task had already looked when a DONE's own write failed.
   */
  lemma RunsAreOrderly(steps: seq<Step>)
    ensures JudgeAll(QUIET, Run(START, steps).log).Some?
  {
    hide Run;
    var m := RunAgrees(START, QUIET, steps);
  }
}
