/**
 What a server that answers gets from the command queue: each command whole, one after the other, to
 the last one called.
 */
module QueueProgress {
  import opened Bytes
  import opened CommandQueue

  lemma {:induction false} RunBoth(s: State, a: seq<Step>, b: seq<Step>)
    ensures Run(s, a + b) == Run(Run(s, a), b)
    decreases |a|
  {
    hide Next;
    if a == [] {
      assert a + b == b;
    } else {
      assert (a + b)[1..] == a[1..] + b;
      RunBoth(Next(s, a[0]), a[1..], b);
    }
  }

  lemma RunOne(s: State, step: Step)
    ensures Run(s, [step]) == Next(s, step) && Run(s, []) == s
  {
    hide Next;
    assert [step][1..] == [];
  }

  function Mores(tag: nat, pieces: seq<Piece>): seq<Event> {
    if pieces == [] then [] else [More(tag, pieces[0])] + Mores(tag, pieces[1..])
  }

  /** Where a command stands when all of it is out. */
  function Sent(s: State, tag: nat, left: seq<Piece>, task: Task): State {
    Await(s.(log := s.log + Mores(tag, left)), AtReply(tag, task))
  }

  /** Writes that are taken and prompts that come bring all the pieces out. */
  lemma {:induction false} PiecesGoOut(s: State, tag: nat, left: seq<Piece>, task: Task) returns (steps: seq<Step>)
    requires !s.closed
    ensures Run(Continue(s, tag, left, task), steps) == Sent(s, tag, left, task)
    decreases |left|
  {
    hide Run;
    steps := [];
    if left == [] {
      RunOne(Continue(s, tag, left, task), GreetingSeen);
      assert s.log + [] == s.log;
    } else {
      var step := if left[0].Prompt? then Arrives(Continuation) else WriteSettles(true);
      var s' := (if left[0].Prompt? then Await(s, AtPlus(tag, left, task)) else s.(phase := Writing(tag, left[1..], task)))
                  .(log := s.log + [More(tag, left[0])]);
      var more := PiecesGoOut(s', tag, left[1..], task);
      steps := [step] + more;
      RunBoth(Continue(s, tag, left, task), [step], more);
      RunOne(Continue(s, tag, left, task), step);
      PieceStep(s, tag, left, task);
      ConcatAssoc(s.log, [More(tag, left[0])], Mores(tag, left[1..]));
    }
  }

  lemma PieceStep(s: State, tag: nat, left: seq<Piece>, task: Task)
    requires !s.closed && left != []
    ensures var step := if left[0].Prompt? then Arrives(Continuation) else WriteSettles(true);
            var s' := (if left[0].Prompt? then Await(s, AtPlus(tag, left, task)) else s.(phase := Writing(tag, left[1..], task)))
                        .(log := s.log + [More(tag, left[0])]);
            Next(Continue(s, tag, left, task), step) == Continue(s', tag, left[1..], task)
  {
  }

  /** How many commands ended well. */
  ghost function Goods(log: seq<Event>): nat {
    if log == [] then 0
    else Goods(log[..|log| - 1]) + if log[|log| - 1].Finished? && log[|log| - 1].ok then 1 else 0
  }

  lemma GoodsMore(log: seq<Event>, e: Event)
    ensures Goods(log + [e]) == Goods(log) + if e.Finished? && e.ok then 1 else 0
  {
    assert (log + [e])[..|log|] == log;
  }

  lemma {:induction false} GoodsOfMores(log: seq<Event>, tag: nat, pieces: seq<Piece>)
    ensures Goods(log + Mores(tag, pieces)) == Goods(log)
    decreases |pieces|
  {
    if pieces == [] {
      assert log + [] == log;
    } else {
      GoodsMore(log, More(tag, pieces[0]));
      GoodsOfMores(log + [More(tag, pieces[0])], tag, pieces[1..]);
      ConcatAssoc(log, [More(tag, pieces[0])], Mores(tag, pieces[1..]));
    }
  }

  /** An open client past a good greeting. */
  predicate IsReady(s: State) {
    !s.closed && s.greeting == Good
  }

  /** A task that does not close keeps what waits behind it. */
  lemma {:induction false} TaskCompletes(s: State, task: Task) returns (steps: seq<Step>)
    requires IsReady(s) && task.Commands? && !task.closesAfter
    ensures var s' := Run(BeginTask(s, task), steps);
            IsReady(s') && s'.phase == Free && s'.queue == s.queue && Goods(s'.log) == Goods(s.log) + |task.list|
    decreases |task.list|
  {
    hide Run, Goods;
    steps := [];
    RunOne(BeginTask(s, task), GreetingSeen);
    if task.list != [] {
      var tag := s.nextTag;
      var literals: seq<Option<nat>> := task.list[0].literals;
      var line := Line(tag, task.call, task.nth, CommandPlan(literals, s.caps));
      var left := PiecesFrom(literals, s.caps, 0)[1..];
      var s1 := Log(s, line).(nextTag := tag + 1, phase := Writing(tag, left, task));
      var out := PiecesGoOut(s1, tag, left, task);
      var s2 := Sent(s1, tag, left, task);
      var later := task.(nth := task.nth + 1, list := task.list[1..]);
      var s3 := Log(s2, Finished(tag, true));
      var more := TaskCompletes(s3, later);
      var last := [Arrives(Tagged(tag, OK, None))];
      var start := [GreetingSeen] + [WriteSettles(true)];
      steps := start + (out + (last + more));
      RunStart(s, task);
      RunBoth(BeginTask(s, task), start, out + (last + more));
      RunBoth(Continue(s1, tag, left, task), out, last + more);
      RunBoth(s2, last, more);
      RunOne(s2, last[0]);
      OkGoesOn(s2, tag, task);
      GoodsMore(s.log, line);
      GoodsOfMores(s1.log, tag, left);
      GoodsMore(s2.log, Finished(tag, true));
    }
  }

  lemma RunStart(s: State, task: Task)
    requires IsReady(s) && task.Commands? && task.list != []
    ensures var left := PiecesFrom(task.list[0].literals, s.caps, 0)[1..];
            var s1 := Log(s, Line(s.nextTag, task.call, task.nth, CommandPlan(task.list[0].literals, s.caps)))
                        .(nextTag := s.nextTag + 1, phase := Writing(s.nextTag, left, task));
            Run(BeginTask(s, task), [GreetingSeen] + [WriteSettles(true)]) == Continue(s1, s.nextTag, left, task)
  {
    hide Run;
    var at := BeginTask(s, task);
    RunBoth(at, [GreetingSeen], [WriteSettles(true)]);
    RunOne(at, GreetingSeen);
    RunOne(Next(at, GreetingSeen), WriteSettles(true));
    hide PiecesFrom;
  }

  lemma OkGoesOn(s: State, tag: nat, task: Task)
    requires !s.closed && s.reading && s.phase == AtReply(tag, task) && task.Commands? && task.list != []
    ensures Next(s, Arrives(Tagged(tag, OK, None)))
         == BeginTask(Log(s, Finished(tag, true)), task.(nth := task.nth + 1, list := task.list[1..]))
  {
  }

  function Waiting(queue: seq<Task>): nat
    requires forall k | 0 <= k < |queue| :: queue[k].Commands?
  {
    if queue == [] then 0 else |queue[0].list| + Waiting(queue[1..])
  }

  /** Every command that waits is run and ends well, when each is answered OK and none closes. */
  lemma {:induction false} QueueDrains(s: State) returns (steps: seq<Step>)
    requires IsReady(s) && s.phase == Free
    requires forall k | 0 <= k < |s.queue| :: s.queue[k].Commands? && !s.queue[k].closesAfter
    ensures var s' := Run(s, steps);
            IsReady(s') && s'.phase == Free && s'.queue == [] && Goods(s'.log) == Goods(s.log) + Waiting(s.queue)
    decreases |s.queue|
  {
    hide Run, Goods;
    steps := [];
    RunOne(s, StartNext);
    if s.queue != [] {
      var first := s.(queue := s.queue[1..]);
      var one := TaskCompletes(first, s.queue[0]);
      var s1 := Run(BeginTask(first, s.queue[0]), one);
      var more := QueueDrains(s1);
      steps := [StartNext] + (one + more);
      RunBoth(s, [StartNext], one + more);
      StartsFirst(s);
      RunBoth(BeginTask(first, s.queue[0]), one, more);
    }
  }

  lemma StartsFirst(s: State)
    requires s.phase == Free && s.queue != []
    ensures Next(s, StartNext) == BeginTask(s.(queue := s.queue[1..]), s.queue[0])
  {
  }
}
