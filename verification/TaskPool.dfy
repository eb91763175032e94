/** The pool that runs `async` tasks, one lock section or atomic operation at a time. Threads
    interleave in any order; a wait may end without cause. */
module TaskPool {

  datatype Outcome = Value(value: int) | Raised(value: int, type_: int)

  datatype Slot = Running | Done(outcome: Outcome) | Taken | Abandoned

  /** The state a task shares with the threads that run or resolve it. The counters record its
      history: times started, outcomes made, handed to a resolver, released, and the last outcome
      made; `settled` says that it is no longer counted as pending, and `inPlace` that a resolver
      took its job. */
  datatype Task = Task(slot: Slot, job: bool, freed: bool, settled: bool, inPlace: bool, started: nat, made: nat,
                       given: nat, released: nat, last: Outcome)

  /** Where a thread is. A worker of the pool: */
  datatype Pc =
    | Starting                                  // spawned, about to take its first task
    | Holding(t: nat)                           // has a task from the queue
    | Executing(t: nat)                         // runs it
    | Finished(t: nat, outcome: Outcome)        // has its outcome, not stored yet
    | Dropping(t: nat, outcome: Outcome)        // about to release it: the task is abandoned
    | Settling(t: nat)                          // about to count it as no longer pending
    | Returning                                 // about to wait for the next task
    | Waiting
    // a thread that spawns a task:
    | Submitting(t: nat)
    // a thread that resolves one:
    | Resolving(t: nat)                         // about to try to run it itself
    | InPlace(t: nat)                           // runs it
    | Produced(t: nat, outcome: Outcome)        // has its outcome, the slot not marked yet
    | Handing(t: nat, outcome: Outcome)         // about to return it
    | Blocked(t: nat)                           // about to look whether the outcome is there
    | Sleeping(t: nat)                          // waits to be told that it is
    | Answered(task: nat, answer: Outcome)      // has returned its outcome
    | Ended

  function NewTask(): Task {
    Task(Running, true, false, false, false, 0, 0, 0, 0, Value(0))
  }

  datatype State = State(queue: seq<nat>, idle: int, wakeups: int, pending: int, tasks: seq<Task>, threads: seq<Pc>)

  datatype Step =
    | Create | Enqueue(i: nat) | Start(i: nat) | Take(i: nat) | Finish(i: nat, outcome: Outcome)
    | Put(i: nat) | Drop(i: nat) | Settle(i: nat) | Wait(i: nat) | Wake(i: nat, timedOut: bool)
    | Resolve(t: nat) | TryRun(i: nat) | Mark(i: nat) | Look(i: nat) | Stir(i: nat) | Free(t: nat)

  /** The task a thread is about, or -1. */
  function TaskOf(pc: Pc): int {
    match pc
    case Starting => -1
    case Returning => -1
    case Waiting => -1
    case Answered(_, _) => -1
    case Ended => -1
    case _ => pc.t
  }

  // ── Counting threads ────────────────────────────────────────────────────────

  /** How many threads are about a task, by what they are doing; `resolves` counts those that
      resolve it, whatever they are doing. */
  datatype Crew = Crew(submits: int, holds: int, runs: int, carries: int, drops: int, settles: int, hands: int,
        resolves: int) {
    function Plus(c: Crew): Crew {
      Crew(submits + c.submits, holds + c.holds, runs + c.runs, carries + c.carries, drops + c.drops,
           settles + c.settles, hands + c.hands, resolves + c.resolves)
    }

    function Minus(c: Crew): Crew {
      Crew(submits - c.submits, holds - c.holds, runs - c.runs, carries - c.carries, drops - c.drops,
           settles - c.settles, hands - c.hands, resolves - c.resolves)
    }

    predicate AtLeast(c: Crew) {
      && submits >= c.submits && holds >= c.holds && runs >= c.runs && carries >= c.carries
      && drops >= c.drops && settles >= c.settles && hands >= c.hands && resolves >= c.resolves
    }
  }

  const NOBODY := Crew(0, 0, 0, 0, 0, 0, 0, 0)

  function Place(pc: Pc): Crew {
    match pc
    case Submitting(_) => NOBODY.(submits := 1)
    case Holding(_) => NOBODY.(holds := 1)
    case Executing(_) => NOBODY.(runs := 1)
    case Finished(_, _) => NOBODY.(carries := 1)
    case Dropping(_, _) => NOBODY.(drops := 1)
    case Settling(_) => NOBODY.(settles := 1)
    case Resolving(_) => NOBODY.(resolves := 1)
    case InPlace(_) => NOBODY.(runs := 1, resolves := 1)
    case Produced(_, _) => NOBODY.(carries := 1, resolves := 1)
    case Handing(_, _) => NOBODY.(hands := 1, resolves := 1)
    case Blocked(_) => NOBODY.(resolves := 1)
    case Sleeping(_) => NOBODY.(resolves := 1)
    case _ => NOBODY
  }

  function Share(pc: Pc, t: nat): Crew {
    if TaskOf(pc) == t then Place(pc) else NOBODY
  }

  function CrewOf(threads: seq<Pc>, t: nat): (c: Crew)
    ensures c.AtLeast(NOBODY)
  {
    if threads == [] then NOBODY else CrewOf(threads[..|threads| - 1], t).Plus(Share(threads[|threads| - 1], t))
  }

  lemma {:induction false} CrewMoves(threads: seq<Pc>, i: nat, pc: Pc, t: nat)
    requires i < |threads|
    ensures CrewOf(threads[i := pc], t) == CrewOf(threads, t).Minus(Share(threads[i], t)).Plus(Share(pc, t))
    ensures CrewOf(threads, t).AtLeast(Share(threads[i], t))
  {
    hide Share;
    var last := |threads| - 1;
    if i < last {
      CrewMoves(threads[..last], i, pc, t);
      assert threads[i := pc][..last] == threads[..last][i := pc];
      Shares(threads[last], t);
    } else {
      assert threads[i := pc][..last] == threads[..last];
    }
  }

  lemma Shares(pc: Pc, t: nat)
    ensures Share(pc, t).AtLeast(NOBODY)
  {
  }

  function One(b: bool): nat {
    if b then 1 else 0
  }

  /** Workers that are about to take their first task. */
  function Starters(threads: seq<Pc>): nat {
    if threads == [] then 0 else Starters(threads[..|threads| - 1]) + One(threads[|threads| - 1].Starting?)
  }

  /** Workers that wait for a task. */
  function Waiters(threads: seq<Pc>): nat {
    if threads == [] then 0 else Waiters(threads[..|threads| - 1]) + One(threads[|threads| - 1].Waiting?)
  }

  lemma {:induction false} PoolMoves(threads: seq<Pc>, i: nat, pc: Pc)
    requires i < |threads|
    ensures Starters(threads[i := pc]) == Starters(threads) - One(threads[i].Starting?) + One(pc.Starting?)
    ensures Waiters(threads[i := pc]) == Waiters(threads) - One(threads[i].Waiting?) + One(pc.Waiting?)
    ensures threads[i].Starting? ==> Starters(threads) > 0
    ensures threads[i].Waiting? ==> Waiters(threads) > 0
  {
    var last := |threads| - 1;
    if i < last {
      PoolMoves(threads[..last], i, pc);
      assert threads[i := pc][..last] == threads[..last][i := pc];
    } else {
      assert threads[i := pc][..last] == threads[..last];
    }
  }

  lemma Joins(threads: seq<Pc>, pc: Pc, t: nat)
    ensures CrewOf(threads + [pc], t) == CrewOf(threads, t).Plus(Share(pc, t))
    ensures Starters(threads + [pc]) == Starters(threads) + One(pc.Starting?)
    ensures Waiters(threads + [pc]) == Waiters(threads) + One(pc.Waiting?)
  {
    hide Share;
    assert (threads + [pc])[..|threads|] == threads;
  }

  /** The number of tasks counted as pending. */
  function Unsettled(tasks: seq<Task>): nat {
    if tasks == [] then 0 else Unsettled(tasks[..|tasks| - 1]) + One(!tasks[|tasks| - 1].settled)
  }

  lemma {:induction false} UnsettledSet(tasks: seq<Task>, t: nat, task: Task)
    requires t < |tasks|
    ensures Unsettled(tasks[t := task]) == Unsettled(tasks) - One(!tasks[t].settled) + One(!task.settled)
  {
    var last := |tasks| - 1;
    if t < last {
      UnsettledSet(tasks[..last], t, task);
      assert tasks[t := task][..last] == tasks[..last][t := task];
    } else {
      assert tasks[t := task][..last] == tasks[..last];
    }
  }

  lemma UnsettledAdd(tasks: seq<Task>, task: Task)
    ensures Unsettled(tasks + [task]) == Unsettled(tasks) + One(!task.settled)
  {
    assert (tasks + [task])[..|tasks|] == tasks;
  }

  // ── Steps ───────────────────────────────────────────────────────────────────

  /** Which steps a state allows. A task is freed with its last reference: a thread that
      resolves it still has one. */
  predicate Enabled(s: State, step: Step) {
    match step
    case Create => true
    case Resolve(t) => t < |s.tasks| && !s.tasks[t].freed
    case Free(t) => t < |s.tasks| && !s.tasks[t].freed && CrewOf(s.threads, t).resolves == 0
    case _ =>
      && step.i < |s.threads|
      && var pc := s.threads[step.i];
      match step
      case Enqueue(_) => pc.Submitting?
      case Start(_) => pc.Starting?
      case Take(_) => pc.Holding? && TaskOf(pc) < |s.tasks|
      case Finish(_, _) => (pc.Executing? || pc.InPlace?) && TaskOf(pc) < |s.tasks|
      case Put(_) => pc.Finished? && TaskOf(pc) < |s.tasks|
      case Drop(_) => pc.Dropping? && TaskOf(pc) < |s.tasks|
      case Settle(_) => (pc.Settling? || pc.Handing?) && TaskOf(pc) < |s.tasks|
      case Wait(_) => pc.Returning?
      case Wake(_, _) => pc.Waiting?
      case TryRun(_) => pc.Resolving? && TaskOf(pc) < |s.tasks|
      case Mark(_) => pc.Produced? && TaskOf(pc) < |s.tasks|
      case Look(_) => pc.Blocked? && TaskOf(pc) < |s.tasks|
      case Stir(_) => pc.Sleeping?
  }

  function Goto(s: State, i: nat, pc: Pc): State
    requires i < |s.threads|
  {
    s.(threads := s.threads[i := pc])
  }

  function With(s: State, t: nat, task: Task): State
    requires t < |s.tasks|
  {
    s.(tasks := s.tasks[t := task])
  }

  /** Every thread that sleeps on a task looks again. */
  function Roused(threads: seq<Pc>, t: nat): (r: seq<Pc>)
    ensures |r| == |threads|
    ensures forall i :: 0 <= i < |r| ==> r[i] == if threads[i] == Sleeping(t) then Blocked(t) else threads[i]
  {
    seq(|threads|, i requires 0 <= i < |threads| => if threads[i] == Sleeping(t) then Blocked(t) else threads[i])
  }

  function Notified(s: State, t: nat): State {
    s.(threads := Roused(s.threads, t))
  }

  /** The thread takes the front of the queue; it ends if the queue is empty. */
  function Popped(s: State, i: nat): State
    requires i < |s.threads|
  {
    if s.queue == [] then Goto(s, i, Ended) else Goto(s, i, Holding(s.queue[0])).(queue := s.queue[1..])
  }

  function Next(s: State, step: Step): State
    requires Enabled(s, step)
  {
    match step
    case Create =>
      s.(tasks := s.tasks + [NewTask()], pending := s.pending + 1,
         threads := s.threads + [Submitting(|s.tasks|)])
    case Enqueue(i) =>
      var s' := Goto(s, i, Ended).(queue := s.queue + [s.threads[i].t]);
      if s.idle > 0 then s'.(idle := s.idle - 1, wakeups := s.wakeups + 1) else s'.(threads := s'.threads + [Starting])
    case Start(i) => Popped(s, i)
    case Take(i) =>
      var t := s.threads[i].t;
      var task := s.tasks[t];
      if task.job then Goto(With(s, t, task.(job := false, started := task.started + 1)), i, Executing(t))
      else Goto(s, i, Returning)
    case Finish(i, outcome) =>
      var pc := s.threads[i];
      var task := s.tasks[pc.t];
      Goto(With(s, pc.t, task.(made := task.made + 1, last := outcome)), i,
            if pc.Executing? then Finished(pc.t, outcome) else Produced(pc.t, outcome))
    case Put(i) =>
      var pc := s.threads[i];
      var task := s.tasks[pc.t];
      if task.slot.Abandoned? then Goto(s, i, Dropping(pc.t, pc.outcome))
      else Notified(Goto(With(s, pc.t, task.(slot := Done(pc.outcome))), i, Settling(pc.t)), pc.t)
    case Drop(i) =>
      var t := s.threads[i].t;
      Goto(With(s, t, s.tasks[t].(released := s.tasks[t].released + 1)), i, Settling(t))
    case Settle(i) =>
      var pc := s.threads[i];
      var task := s.tasks[pc.t].(settled := true);
      var s' := s.(pending := s.pending - 1);
      if pc.Settling? then Goto(With(s', pc.t, task), i, Returning)
      else Goto(With(s', pc.t, task.(given := task.given + 1)), i, Answered(pc.t, pc.outcome))
    case Wait(i) => Goto(s, i, Waiting).(idle := s.idle + 1)
    case Wake(i, timedOut) =>
      if s.wakeups > 0 then Popped(s.(wakeups := s.wakeups - 1), i)
      else if timedOut then Goto(s, i, Ended).(idle := s.idle - 1)
      else s
    case Resolve(t) => s.(threads := s.threads + [Resolving(t)])
    case TryRun(i) =>
      var t := s.threads[i].t;
      var task := s.tasks[t];
      if task.job then Goto(With(s, t, task.(job := false, started := task.started + 1, inPlace := true)), i,
            InPlace(t))
      else Goto(s, i, Blocked(t))
    case Mark(i) =>
      var pc := s.threads[i];
      Goto(With(s, pc.t, s.tasks[pc.t].(slot := Taken)), i, Handing(pc.t, pc.outcome))
    case Look(i) =>
      var t := s.threads[i].t;
      var task := s.tasks[t];
      if task.slot.Running? then Goto(s, i, Sleeping(t))
      else
        Goto(With(s, t, task.(slot := Taken, given := task.given + One(task.slot.Done?))), i,
             if task.slot.Done? then Answered(t, task.slot.outcome) else Ended)
    case Stir(i) => Goto(s, i, Blocked(s.threads[i].t))
    case Free(t) =>
      var task := s.tasks[t];
      With(s, t, task.(slot := Abandoned, freed := true, released := task.released + One(task.slot.Done?)))
  }

  // ── What every step keeps ───────────────────────────────────────────────────

  /** Each task in the queue has a wakeup or a new thread coming for it; each waiting thread is
      idle or has a wakeup. */
  ghost predicate PoolBalanced(s: State) {
    && |s.queue| == s.wakeups + Starters(s.threads)
    && s.idle + s.wakeups == Waiters(s.threads)
    && s.idle >= 0 && s.wakeups >= 0
    && s.pending == Unsettled(s.tasks)
  }

  /** A task, and the queue entries and threads about it. */
  datatype Ledger = Ledger(born: bool, task: Task, queued: int, crew: Crew)

  function LedgerOf(s: State, t: nat): Ledger {
    Ledger(t < |s.tasks|, if t < |s.tasks| then s.tasks[t] else NewTask(), multiset(s.queue)[t], CrewOf(s.threads, t))
  }

  /** A task that has not started is on its way to exactly one worker. */
  predicate OnItsWay(l: Ledger) {
    var ways := l.queued + l.crew.submits + l.crew.holds;
    ways <= 1 && (l.task.job ==> ways == 1)
  }

  /** A task starts once, and its outcome is in exactly one place. */
  predicate Accounted(task: Task, crew: Crew) {
    && task.started == One(!task.job)
    && task.started == task.made + crew.runs
    && task.made == crew.carries + crew.drops + crew.hands + One(task.slot.Done?) + task.given + task.released
    && task.made == crew.carries + crew.drops + crew.hands + crew.settles + One(task.settled)
    && (task.slot.Taken? ==> task.given + crew.hands == 1)
    && (task.slot.Running? ==> task.given == task.released == crew.hands == 0)
    && (crew.drops > 0 ==> task.slot.Abandoned?)
    && (task.freed <==> task.slot.Abandoned?)
    && (task.freed ==> crew.resolves == 0)
  }

  predicate Balanced(l: Ledger) {
    && l.queued >= 0 && l.crew.AtLeast(NOBODY)
    && if l.born then OnItsWay(l) && Accounted(l.task, l.crew) else l.queued == 0 && NOBODY.AtLeast(l.crew)
  }

  ghost predicate Inv(s: State) {
    PoolBalanced(s) && forall t: nat :: Balanced(LedgerOf(s, t))
  }

  // ── Steps of one thread on its task ─────────────────────────────────────────

  /** A step that moves one thread, and may change the task that thread is about. */
  ghost function Stepped(s: State, i: nat, pc: Pc, t: nat, task: Task, settled: int): State
    requires i < |s.threads| && t < |s.tasks|
  {
    With(Goto(s, i, pc).(pending := s.pending - settled), t, task)
  }

  /** Its ledger after that. */
  function After(l: Ledger, from: Pc, to: Pc, task: Task): Ledger {
    l.(task := task, crew := l.crew.Minus(Place(from)).Plus(if TaskOf(to) == -1 then NOBODY else Place(to)))
  }

  lemma LedgerSteps(s: State, i: nat, pc: Pc, t: nat, task: Task, settled: int, u: nat)
    requires i < |s.threads| && TaskOf(s.threads[i]) == t < |s.tasks| && (TaskOf(pc) == t || TaskOf(pc) == -1)
    ensures u != t ==> LedgerOf(Stepped(s, i, pc, t, task, settled), u) == LedgerOf(s, u)
    ensures u == t ==> LedgerOf(Stepped(s, i, pc, t, task, settled), u) == After(LedgerOf(s, t), s.threads[i], pc, task)
  {
    hide CrewOf;
    CrewMoves(s.threads, i, pc, u);
  }

  lemma TaskStepKeeps(s: State, i: nat, pc: Pc, t: nat, task: Task, settled: int)
    requires Inv(s) && i < |s.threads| && TaskOf(s.threads[i]) == t < |s.tasks|
    requires (TaskOf(pc) == t || pc.Returning? || pc.Answered? || pc.Ended?)
    requires settled == One(task.settled) - One(s.tasks[t].settled)
    requires Balanced(After(LedgerOf(s, t), s.threads[i], pc, task))
    ensures Inv(Stepped(s, i, pc, t, task, settled))
  {
    hide CrewOf, Unsettled, Balanced, LedgerOf, After, Starters, Waiters;
    PoolMoves(s.threads, i, pc);
    UnsettledSet(s.tasks, t, task);
    var s' := Stepped(s, i, pc, t, task, settled);
    forall u: nat
      ensures Balanced(LedgerOf(s', u))
    {
      LedgerSteps(s, i, pc, t, task, settled, u);
    }
  }

  /** What is known of the task of a thread. */
  lemma Known(s: State, i: nat, t: nat)
    requires Inv(s) && i < |s.threads| && TaskOf(s.threads[i]) == t
    ensures t < |s.tasks| && LedgerOf(s, t).born && LedgerOf(s, t).task == s.tasks[t]
    ensures Balanced(LedgerOf(s, t)) && LedgerOf(s, t).crew.AtLeast(Place(s.threads[i]))
  {
    hide CrewOf;
    assert Balanced(LedgerOf(s, t));
    CrewMoves(s.threads, i, Ended, t);
  }

  lemma TakeKeeps(s: State, i: nat)
    requires Enabled(s, Take(i)) && Inv(s)
    ensures Inv(Next(s, Take(i)))
  {
    hide CrewOf, LedgerOf, Inv;
    var t := s.threads[i].t;
    var task := s.tasks[t];
    Known(s, i, t);
    if task.job {
      TaskStepKeeps(s, i, Executing(t), t, task.(job := false, started := task.started + 1), 0);
    } else {
      TaskStepKeeps(s, i, Returning, t, task, 0);
      assert With(s, t, task) == s;
    }
  }

  lemma FinishKeeps(s: State, i: nat, outcome: Outcome)
    requires Enabled(s, Finish(i, outcome)) && Inv(s)
    ensures Inv(Next(s, Finish(i, outcome)))
  {
    hide CrewOf, LedgerOf, Inv;
    var pc := s.threads[i];
    var t := pc.t;
    var task := s.tasks[t];
    Known(s, i, t);
    TaskStepKeeps(s, i, if pc.Executing? then Finished(t, outcome) else Produced(t, outcome), t,
          task.(made := task.made + 1, last := outcome), 0);
  }

  lemma {:induction false} RousedCounts(threads: seq<Pc>, t: nat, u: nat)
    ensures CrewOf(Roused(threads, t), u) == CrewOf(threads, u)
    ensures Starters(Roused(threads, t)) == Starters(threads) && Waiters(Roused(threads, t)) == Waiters(threads)
  {
    hide Crew.Plus;
    if threads != [] {
      var last := |threads| - 1;
      RousedCounts(threads[..last], t, u);
      assert Roused(threads, t)[..last] == Roused(threads[..last], t);
      assert Share(Roused(threads, t)[last], u) == Share(threads[last], u);
    }
  }

  /** Waking the sleepers changes no count. */
  lemma NotifiedKeeps(s: State, t: nat)
    requires Inv(s)
    ensures Inv(Notified(s, t))
  {
    hide CrewOf, Balanced, Roused, Starters, Waiters;
    RousedCounts(s.threads, t, 0);
    forall u: nat
      ensures LedgerOf(Notified(s, t), u) == LedgerOf(s, u)
    {
      RousedCounts(s.threads, t, u);
    }
  }

  lemma PutKeeps(s: State, i: nat)
    requires Enabled(s, Put(i)) && Inv(s)
    ensures Inv(Next(s, Put(i)))
  {
    hide CrewOf, LedgerOf, Inv;
    var pc := s.threads[i];
    var t := pc.t;
    var task := s.tasks[t];
    Known(s, i, t);
    if task.slot.Abandoned? {
      TaskStepKeeps(s, i, Dropping(t, pc.outcome), t, task, 0);
      assert With(s, t, task) == s;
    } else {
      TaskStepKeeps(s, i, Settling(t), t, task.(slot := Done(pc.outcome)), 0);
      NotifiedKeeps(Stepped(s, i, Settling(t), t, task.(slot := Done(pc.outcome)), 0), t);
    }
  }

  lemma DropKeeps(s: State, i: nat)
    requires Enabled(s, Drop(i)) && Inv(s)
    ensures Inv(Next(s, Drop(i)))
  {
    hide CrewOf, LedgerOf, Inv;
    var t := s.threads[i].t;
    Known(s, i, t);
    TaskStepKeeps(s, i, Settling(t), t, s.tasks[t].(released := s.tasks[t].released + 1), 0);
  }

  lemma SettleStored(s: State, i: nat)
    requires Enabled(s, Settle(i)) && Inv(s) && s.threads[i].Settling?
    ensures Inv(Next(s, Settle(i)))
  {
    hide CrewOf, LedgerOf, Inv;
    var t := s.threads[i].t;
    Known(s, i, t);
    TaskStepKeeps(s, i, Returning, t, s.tasks[t].(settled := true), 1);
  }

  lemma SettleHanded(s: State, i: nat)
    requires Enabled(s, Settle(i)) && Inv(s) && s.threads[i].Handing?
    ensures Inv(Next(s, Settle(i)))
  {
    hide CrewOf, LedgerOf, Inv;
    var pc := s.threads[i];
    var t := pc.t;
    Known(s, i, t);
    TaskStepKeeps(s, i, Answered(t, pc.outcome), t, s.tasks[t].(settled := true, given := s.tasks[t].given + 1), 1);
  }

  lemma SettleKeeps(s: State, i: nat)
    requires Enabled(s, Settle(i)) && Inv(s)
    ensures Inv(Next(s, Settle(i)))
  {
    hide Inv, Next;
    if s.threads[i].Settling? {
      SettleStored(s, i);
    } else {
      SettleHanded(s, i);
    }
  }

  lemma TryRunKeeps(s: State, i: nat)
    requires Enabled(s, TryRun(i)) && Inv(s)
    ensures Inv(Next(s, TryRun(i)))
  {
    hide CrewOf, LedgerOf, Inv;
    var t := s.threads[i].t;
    var task := s.tasks[t];
    Known(s, i, t);
    if task.job {
      TaskStepKeeps(s, i, InPlace(t), t, task.(job := false, started := task.started + 1, inPlace := true), 0);
    } else {
      TaskStepKeeps(s, i, Blocked(t), t, task, 0);
      assert With(s, t, task) == s;
    }
  }

  lemma MarkKeeps(s: State, i: nat)
    requires Enabled(s, Mark(i)) && Inv(s)
    ensures Inv(Next(s, Mark(i)))
  {
    hide CrewOf, LedgerOf, Inv;
    var pc := s.threads[i];
    var t := pc.t;
    Known(s, i, t);
    TaskStepKeeps(s, i, Handing(t, pc.outcome), t, s.tasks[t].(slot := Taken), 0);
  }

  lemma LookTakes(s: State, i: nat)
    requires Enabled(s, Look(i)) && Inv(s) && s.tasks[TaskOf(s.threads[i])].slot.Done?
    ensures Inv(Next(s, Look(i)))
  {
    hide CrewOf, LedgerOf, Inv;
    var t := s.threads[i].t;
    var task := s.tasks[t];
    Known(s, i, t);
    TaskStepKeeps(s, i, Answered(t, task.slot.outcome), t, task.(slot := Taken, given := task.given + 1), 0);
  }

  /** Another thread has taken the outcome: the resolver returns a default. */
  lemma LookDefaults(s: State, i: nat)
    requires Enabled(s, Look(i)) && Inv(s)
    requires var slot := s.tasks[TaskOf(s.threads[i])].slot; !slot.Done? && !slot.Running?
    ensures s.tasks[TaskOf(s.threads[i])].slot.Taken? && Inv(Next(s, Look(i)))
  {
    hide CrewOf, LedgerOf, Inv;
    var t := s.threads[i].t;
    Known(s, i, t);
    TaskStepKeeps(s, i, Ended, t, s.tasks[t].(slot := Taken), 0);
  }

  lemma LookKeeps(s: State, i: nat)
    requires Enabled(s, Look(i)) && Inv(s)
    ensures Inv(Next(s, Look(i)))
  {
    hide Inv, CrewOf;
    var slot := s.tasks[TaskOf(s.threads[i])].slot;
    if slot.Done? {
      LookTakes(s, i);
    } else if slot.Running? {
      RestKeeps(s, i, Sleeping(s.threads[i].t));
    } else {
      LookDefaults(s, i);
    }
  }

  /** A resolver falls asleep, or looks again. */
  lemma RestKeeps(s: State, i: nat, pc: Pc)
    requires Inv(s) && i < |s.threads|
    requires (s.threads[i].Blocked? && pc == Sleeping(s.threads[i].t)) ||
              (s.threads[i].Sleeping? && pc == Blocked(s.threads[i].t))
    ensures Inv(Goto(s, i, pc))
  {
    hide CrewOf, LedgerOf, Inv;
    var t := s.threads[i].t;
    Known(s, i, t);
    TaskStepKeeps(s, i, pc, t, s.tasks[t], 0);
    assert With(s, t, s.tasks[t]) == s;
  }

  lemma StirKeeps(s: State, i: nat)
    requires Enabled(s, Stir(i)) && Inv(s)
    ensures Inv(Next(s, Stir(i)))
  {
    hide Inv;
    RestKeeps(s, i, Blocked(s.threads[i].t));
  }

  // ── Steps on the queue and the pool ─────────────────────────────────────────

  /** A thread takes the front of the queue: a promised task is there. */
  lemma PopLedger(s: State, i: nat, t: nat)
    requires i < |s.threads| && TaskOf(s.threads[i]) == -1 && s.queue != []
    ensures var l, l' := LedgerOf(s, t), LedgerOf(Popped(s, i), t);
            if t == s.queue[0] then l.queued >= 1 &&
                  l' == l.(queued := l.queued - 1, crew := l.crew.(holds := l.crew.holds + 1))
            else l' == l
  {
    hide CrewOf;
    assert s.queue == [s.queue[0]] + s.queue[1..];
    CrewMoves(s.threads, i, Holding(s.queue[0]), t);
  }

  lemma PoppedKeeps(s: State, i: nat)
    requires i < |s.threads| && (s.threads[i].Starting? || s.threads[i].Waiting?) && s.queue != []
    requires |s.queue| - 1 == s.wakeups + Starters(s.threads) - One(s.threads[i].Starting?)
    requires s.idle + s.wakeups == Waiters(s.threads) - One(s.threads[i].Waiting?)
    requires s.idle >= 0 && s.wakeups >= 0 && s.pending == Unsettled(s.tasks)
    requires forall t: nat :: Balanced(LedgerOf(s, t))
    ensures Inv(Popped(s, i))
  {
    hide CrewOf, Unsettled, Starters, Waiters, LedgerOf;
    var s' := Popped(s, i);
    PoolMoves(s.threads, i, Holding(s.queue[0]));
    forall t: nat
      ensures Balanced(LedgerOf(s', t))
    {
      PopLedger(s, i, t);
    }
  }

  lemma StartKeeps(s: State, i: nat)
    requires Enabled(s, Start(i)) && Inv(s)
    ensures s.queue != [] && Inv(Next(s, Start(i)))
  {
    hide CrewOf, Balanced, LedgerOf, Unsettled, Starters, Waiters;
    PoolMoves(s.threads, i, Ended);
    PoppedKeeps(s, i);
  }

  lemma SameLedgers(s: State, s': State)
    requires s.tasks == s'.tasks && s.queue == s'.queue && s.threads == s'.threads
    ensures forall t: nat :: LedgerOf(s', t) == LedgerOf(s, t)
  {
  }

  lemma WakeKeeps(s: State, i: nat, timedOut: bool)
    requires Enabled(s, Wake(i, timedOut)) && Inv(s)
    ensures s.wakeups > 0 ==> s.queue != []
    ensures s.wakeups == 0 ==> s.idle > 0
    ensures Inv(Next(s, Wake(i, timedOut)))
  {
    hide CrewOf, Balanced, LedgerOf, Unsettled, Starters, Waiters;
    PoolMoves(s.threads, i, Ended);
    if s.wakeups > 0 {
      var s' := s.(wakeups := s.wakeups - 1);
      SameLedgers(s, s');
      PoppedKeeps(s', i);
    } else if timedOut {
      IdleMoveKeeps(s, i, Ended);
    }
  }

  /** A worker that is about no task starts or ends waiting. */
  lemma IdleMoveKeeps(s: State, i: nat, pc: Pc)
    requires Inv(s) && i < |s.threads|
    requires (s.threads[i].Returning? && pc.Waiting?) || (s.threads[i].Waiting? && pc.Ended? && s.idle > 0)
    ensures Inv(Goto(s, i, pc).(idle := s.idle + One(pc.Waiting?) - One(s.threads[i].Waiting?)))
  {
    hide CrewOf, Balanced, Unsettled, Starters, Waiters;
    var s' := Goto(s, i, pc).(idle := s.idle + One(pc.Waiting?) - One(s.threads[i].Waiting?));
    PoolMoves(s.threads, i, pc);
    forall t: nat
      ensures LedgerOf(s', t) == LedgerOf(s, t)
    {
      CrewMoves(s.threads, i, pc, t);
    }
  }

  lemma WaitKeeps(s: State, i: nat)
    requires Enabled(s, Wait(i)) && Inv(s)
    ensures Inv(Next(s, Wait(i)))
  {
    hide Inv;
    IdleMoveKeeps(s, i, Waiting);
  }

  lemma LedgerTask(s: State, t: nat)
    requires t < |s.tasks|
    ensures LedgerOf(s, t).born && LedgerOf(s, t).task == s.tasks[t]
  {
  }

  lemma LedgerBorn(s: State, t: nat)
    ensures LedgerOf(s, t).born == (t < |s.tasks|) && (t >= |s.tasks| ==> LedgerOf(s, t).task == NewTask())
  {
  }

  lemma JoinLedger(s: State, s': State, pc: Pc, t: nat)
    requires s'.threads == s.threads + [pc] && s'.queue == s.queue
    ensures LedgerOf(s', t).crew ==
              (if TaskOf(pc) == t then LedgerOf(s, t).crew.Plus(Place(pc)) else LedgerOf(s, t).crew)
    ensures LedgerOf(s', t).queued == LedgerOf(s, t).queued
    ensures s'.tasks == s.tasks ==>
              LedgerOf(s', t).task == LedgerOf(s, t).task && LedgerOf(s', t).born == LedgerOf(s, t).born
    ensures s'.tasks == s.tasks + [NewTask()] ==>
              LedgerOf(s', t).born == (LedgerOf(s, t).born || t == |s.tasks|) &&
                    LedgerOf(s', t).task == LedgerOf(s, t).task
  {
    hide CrewOf, Place;
    Joins(s.threads, pc, t);
  }

  lemma SameCrew(c: Crew)
    requires c.AtLeast(NOBODY) && NOBODY.AtLeast(c)
    ensures c == NOBODY
  {
  }

  lemma Unborn(s: State, t: nat)
    requires Balanced(LedgerOf(s, t))
    ensures t >= |s.tasks| ==> LedgerOf(s, t).queued == 0 && LedgerOf(s, t).crew == NOBODY
  {
    hide CrewOf;
    if t >= |s.tasks| {
      SameCrew(LedgerOf(s, t).crew);
    }
  }

  /** A new task is on its way: one thread is about to submit it. */
  lemma NewLedger(l: Ledger)
    requires l.born && l.queued == 0 && l.crew == Crew(1, 0, 0, 0, 0, 0, 0, 0)
    requires l.task.slot.Running? && l.task.job && !l.task.freed && !l.task.settled
    requires l.task.started == l.task.made == l.task.given == l.task.released == 0
    ensures Balanced(l)
  {
  }

  lemma CreateKeeps(s: State)
    requires Inv(s)
    ensures Inv(Next(s, Create))
  {
    hide CrewOf, Unsettled, Starters, Waiters, LedgerOf, Balanced, Crew.Plus;
    var s' := Next(s, Create);
    UnsettledAdd(s.tasks, NewTask());
    Joins(s.threads, Submitting(|s.tasks|), 0);
    forall t: nat
      ensures Balanced(LedgerOf(s', t))
    {
      JoinLedger(s, s', Submitting(|s.tasks|), t);
      LedgerBorn(s, t);
      Unborn(s, t);
      if t == |s.tasks| {
        PlusNobody(Place(Submitting(t)));
        NewLedger(LedgerOf(s', t));
      }
    }
  }

  lemma ResolveKeeps(s: State, t: nat)
    requires Enabled(s, Resolve(t)) && Inv(s)
    ensures Inv(Next(s, Resolve(t)))
  {
    hide CrewOf, Unsettled, Starters, Waiters, LedgerOf;
    var s' := Next(s, Resolve(t));
    LedgerTask(s, t);
    Joins(s.threads, Resolving(t), 0);
    forall u: nat
      ensures Balanced(LedgerOf(s', u))
    {
      JoinLedger(s, s', Resolving(t), u);
    }
  }

  lemma FreeKeeps(s: State, t: nat)
    requires Enabled(s, Free(t)) && Inv(s)
    ensures Inv(Next(s, Free(t)))
  {
    hide CrewOf, Unsettled, Starters, Waiters;
    var s' := Next(s, Free(t));
    UnsettledSet(s.tasks, t, s'.tasks[t]);
    forall u: nat
      ensures Balanced(LedgerOf(s', u))
    {
      assert Balanced(LedgerOf(s, u));
    }
  }

  /** The task goes to the end of the queue. */
  lemma QueuedLedger(s: State, i: nat, t: nat, u: nat)
    requires i < |s.threads| && s.threads[i] == Submitting(t)
    ensures var l, l' := LedgerOf(s, u), LedgerOf(Goto(s, i, Ended).(queue := s.queue + [t]), u);
            if u == t then l' == l.(queued := l.queued + 1, crew := l.crew.(submits := l.crew.submits - 1)) &&
                  l.crew.submits >= 1
            else l' == l
  {
    hide CrewOf;
    CrewMoves(s.threads, i, Ended, u);
  }

  lemma QueuedKeeps(s: State, i: nat, t: nat)
    requires (forall u: nat :: Balanced(LedgerOf(s, u))) && i < |s.threads| && s.threads[i] == Submitting(t)
    ensures forall u: nat :: Balanced(LedgerOf(Goto(s, i, Ended).(queue := s.queue + [t]), u))
  {
    hide CrewOf, LedgerOf;
    var s' := Goto(s, i, Ended).(queue := s.queue + [t]);
    forall u: nat
      ensures Balanced(LedgerOf(s', u))
    {
      QueuedLedger(s, i, t, u);
    }
  }

  lemma SpawnedKeeps(s: State)
    requires forall u: nat :: Balanced(LedgerOf(s, u))
    ensures forall u: nat :: Balanced(LedgerOf(s.(threads := s.threads + [Starting]), u))
  {
    hide CrewOf, Balanced;
    var s' := s.(threads := s.threads + [Starting]);
    forall u: nat
      ensures LedgerOf(s', u) == LedgerOf(s, u)
    {
      Joins(s.threads, Starting, u);
    }
  }

  lemma EnqueueKeeps(s: State, i: nat)
    requires Enabled(s, Enqueue(i)) && Inv(s)
    ensures Inv(Next(s, Enqueue(i)))
  {
    hide CrewOf, Balanced, LedgerOf, Unsettled, Starters, Waiters;
    var t := s.threads[i].t;
    var s' := Goto(s, i, Ended).(queue := s.queue + [t]);
    QueuedKeeps(s, i, t);
    PoolMoves(s.threads, i, Ended);
    if s.idle > 0 {
      SameLedgers(s', s'.(idle := s.idle - 1, wakeups := s.wakeups + 1));
    } else {
      SpawnedKeeps(s');
      Joins(s'.threads, Starting, 0);
    }
  }

  // ── What is handed over ─────────────────────────────────────────────────────

  predicate HasOutcome(pc: Pc) {
    pc.Finished? || pc.Dropping? || pc.Produced? || pc.Handing?
  }

  /** An outcome on its way, in the slot or returned is the one that the task made. */
  ghost predicate Faithful(s: State) {
    && (forall i :: 0 <= i < |s.threads| ==> FaithfulThread(s, s.threads[i]))
    && (forall t :: 0 <= t < |s.tasks| && s.tasks[t].slot.Done? ==> s.tasks[t].slot.outcome == s.tasks[t].last)
  }

  ghost predicate FaithfulThread(s: State, pc: Pc) {
    match pc
    case Finished(t, outcome) => t < |s.tasks| && outcome == s.tasks[t].last
    case Dropping(t, outcome) => t < |s.tasks| && outcome == s.tasks[t].last
    case Produced(t, outcome) => t < |s.tasks| && outcome == s.tasks[t].last
    case Handing(t, outcome) => t < |s.tasks| && outcome == s.tasks[t].last
    case Answered(t, answer) => t < |s.tasks| && s.tasks[t].given > 0 && answer == s.tasks[t].last
    case _ => true
  }

  /** A task that is running has made no outcome yet. */
  lemma NoneMade(s: State, i: nat, t: nat)
    requires Inv(s) && i < |s.threads| && TaskOf(s.threads[i]) == t
    requires (s.threads[i].Executing? || s.threads[i].InPlace?)
    ensures t < |s.tasks| && !s.tasks[t].slot.Done? && s.tasks[t].given == 0
    ensures forall j :: 0 <= j < |s.threads| && TaskOf(s.threads[j]) == t ==> !HasOutcome(s.threads[j])
  {
    hide CrewOf;
    Known(s, i, t);
    forall j | 0 <= j < |s.threads| && TaskOf(s.threads[j]) == t
      ensures !HasOutcome(s.threads[j])
    {
      Known(s, j, t);
    }
  }

  /** A step on one thread and its task that leaves what was made alone. */
  lemma FaithfulStep(s: State, s': State)
    requires Faithful(s) && |s'.tasks| >= |s.tasks|
    requires forall t :: 0 <= t < |s.tasks| ==>
              s'.tasks[t].last == s.tasks[t].last && s'.tasks[t].given >= s.tasks[t].given
    requires forall t :: 0 <= t < |s'.tasks| && s'.tasks[t].slot.Done? ==>
               t < |s.tasks| && (s'.tasks[t].slot == s.tasks[t].slot || s'.tasks[t].slot.outcome == s'.tasks[t].last)
    requires forall i :: 0 <= i < |s'.threads| ==>
              (i < |s.threads| && s'.threads[i] == s.threads[i]) || FaithfulThread(s', s'.threads[i])
    ensures Faithful(s')
  {
    forall i | 0 <= i < |s'.threads|
      ensures FaithfulThread(s', s'.threads[i])
    {
      if i < |s.threads| && s'.threads[i] == s.threads[i] {
        assert FaithfulThread(s, s.threads[i]);
      }
    }
  }

  lemma FinishFaithful(s: State, i: nat, outcome: Outcome)
    requires Enabled(s, Finish(i, outcome)) && Inv(s) && Faithful(s)
    ensures Faithful(Next(s, Finish(i, outcome)))
  {
    hide Inv;
    var t := s.threads[i].t;
    var s' := Next(s, Finish(i, outcome));
    NoneMade(s, i, t);
    forall j | 0 <= j < |s'.threads|
      ensures FaithfulThread(s', s'.threads[j])
    {
      if j != i {
        assert FaithfulThread(s, s.threads[j]);
      }
    }
  }

  predicate CarriesOn(step: Step) {
    step.Put? || step.Drop? || step.Settle? || step.Mark? || step.Look?
  }

  lemma PutFaithful(s: State, i: nat)
    requires Enabled(s, Put(i)) && Faithful(s)
    ensures Faithful(Next(s, Put(i)))
  {
    hide CrewOf;
    assert FaithfulThread(s, s.threads[i]);
    FaithfulStep(s, Next(s, Put(i)));
  }

  lemma CarryFaithful(s: State, step: Step)
    requires Enabled(s, step) && CarriesOn(step) && !step.Put? && Faithful(s)
    ensures Faithful(Next(s, step))
  {
    hide CrewOf;
    assert FaithfulThread(s, s.threads[step.i]);
    FaithfulStep(s, Next(s, step));
  }

  lemma OtherFaithful(s: State, step: Step)
    requires Enabled(s, step) && !CarriesOn(step) && !step.Finish? && Faithful(s)
    ensures Faithful(Next(s, step))
  {
    hide CrewOf;
    FaithfulStep(s, Next(s, step));
  }

  lemma StepFaithful(s: State, step: Step)
    requires Enabled(s, step) && Inv(s) && Faithful(s)
    ensures Faithful(Next(s, step))
  {
    hide Inv, CrewOf, Faithful, Next;
    if step.Finish? {
      FinishFaithful(s, step.i, step.outcome);
    } else if step.Put? {
      PutFaithful(s, step.i);
    } else if CarriesOn(step) {
      CarryFaithful(s, step);
    } else {
      OtherFaithful(s, step);
    }
  }

  // ── Every run ───────────────────────────────────────────────────────────────

  lemma StepKeeps(s: State, step: Step)
    requires Enabled(s, step) && Inv(s)
    ensures Inv(Next(s, step))
  {
    hide Enabled, Next, Inv;
    match step
    case Create => CreateKeeps(s);
    case Enqueue(i) => EnqueueKeeps(s, i);
    case Start(i) => StartKeeps(s, i);
    case Take(i) => TakeKeeps(s, i);
    case Finish(i, outcome) => FinishKeeps(s, i, outcome);
    case Put(i) => PutKeeps(s, i);
    case Drop(i) => DropKeeps(s, i);
    case Settle(i) => SettleKeeps(s, i);
    case Wait(i) => WaitKeeps(s, i);
    case Wake(i, timedOut) => WakeKeeps(s, i, timedOut);
    case Resolve(t) => ResolveKeeps(s, t);
    case TryRun(i) => TryRunKeeps(s, i);
    case Mark(i) => MarkKeeps(s, i);
    case Look(i) => LookKeeps(s, i);
    case Stir(i) => StirKeeps(s, i);
    case Free(t) => FreeKeeps(s, t);
  }

  const FRESH := State([], 0, 0, 0, [], [])

  /** A run: steps in any order, each one that its state allows. */
  function Run(steps: seq<Step>): State {
    if steps == [] then FRESH else
    var s := Run(steps[..|steps| - 1]);
    var step := steps[|steps| - 1];
    if Enabled(s, step) then Next(s, step) else s
  }

  lemma {:induction false} RunKeeps(steps: seq<Step>)
    ensures Inv(Run(steps))
  {
    hide Enabled, Next, Inv;
    if steps == [] {
      FreshKeeps();
    } else {
      var s := Run(steps[..|steps| - 1]);
      RunKeeps(steps[..|steps| - 1]);
      if Enabled(s, steps[|steps| - 1]) {
        StepKeeps(s, steps[|steps| - 1]);
      }
    }
  }

  lemma FreshLedger(t: nat)
    ensures Balanced(LedgerOf(FRESH, t))
  {
    hide Place;
    assert CrewOf([], t) == NOBODY;
  }

  lemma {:induction false} RunFaithful(steps: seq<Step>)
    ensures Faithful(Run(steps))
  {
    hide Enabled, Next, Inv, Faithful;
    if steps == [] {
      assert Faithful(FRESH) by {
        FreshFaithful();
      }
    } else {
      var s := Run(steps[..|steps| - 1]);
      RunFaithful(steps[..|steps| - 1]);
      RunKeeps(steps[..|steps| - 1]);
      if Enabled(s, steps[|steps| - 1]) {
        StepFaithful(s, steps[|steps| - 1]);
      }
    }
  }

  lemma FreshFaithful()
    ensures Faithful(FRESH)
  {
  }

  /** In every run, what a resolver returns is what the task made. */
  lemma AnswerIsOutcome(steps: seq<Step>, i: nat)
    requires i < |Run(steps).threads| && Run(steps).threads[i].Answered?
    ensures var s := Run(steps); var pc := s.threads[i];
            pc.task < |s.tasks| && s.tasks[pc.task].given == 1 && s.tasks[pc.task].released == 0 &&
                  pc.answer == s.tasks[pc.task].last
  {
    hide Run;
    var s := Run(steps);
    RunFaithful(steps);
    assert FaithfulThread(s, s.threads[i]);
    OutcomeOnce(steps, s.threads[i].task);
  }

  lemma FreshKeeps()
    ensures Inv(FRESH)
  {
    hide LedgerOf, Balanced;
    forall t: nat
      ensures Balanced(LedgerOf(FRESH, t))
    {
      FreshLedger(t);
    }
  }

  /** In every run: the queue holds one task for each promised wakeup and each new worker; every
      waiting worker is idle or has a wakeup; no counter goes below zero, and no worker finds the
      queue empty. */
  lemma PoolConservation(steps: seq<Step>)
    ensures var s := Run(steps);
            && |s.queue| == s.wakeups + Starters(s.threads)
            && s.idle + s.wakeups == Waiters(s.threads)
            && s.idle >= 0 && s.wakeups >= 0 && s.pending == Unsettled(s.tasks)
    ensures var s := Run(steps); forall i :: Enabled(s, Start(i)) ==> s.queue != []
    ensures var s := Run(steps); forall i, b :: Enabled(s, Wake(i, b)) ==>
              if s.wakeups > 0 then s.queue != [] else s.idle > 0
  {
    hide Run, Inv;
    var s := Run(steps);
    RunKeeps(steps);
    PoolFacts(s);
    forall i | Enabled(s, Start(i))
      ensures s.queue != []
    {
      StartKeeps(s, i);
    }
    forall i, b | Enabled(s, Wake(i, b))
      ensures if s.wakeups > 0 then s.queue != [] else s.idle > 0
    {
      WakeKeeps(s, i, b);
    }
  }

  lemma PoolFacts(s: State)
    requires Inv(s)
    ensures PoolBalanced(s)
  {
  }

  /** In every run, a task starts at most once, and its outcome is handed to a resolver at most
      once, or released at most once, and never both; what is neither still waits in the slot or
      with one thread. */
  lemma OutcomeOnce(steps: seq<Step>, t: nat)
    requires t < |Run(steps).tasks|
    ensures var task := Run(steps).tasks[t];
            task.started <= 1 && task.made <= task.started && task.given + task.released <= task.made
    ensures var s := Run(steps); var task := s.tasks[t]; var crew := CrewOf(s.threads, t);
            task.made == task.given + task.released + One(task.slot.Done?) + crew.carries + crew.drops + crew.hands
  {
    hide Run, CrewOf;
    var s := Run(steps);
    RunKeeps(steps);
    assert Balanced(LedgerOf(s, t));
  }

  /** An outcome is never stored over another one, nor after the task was resolved. */
  lemma NeverOverwritten(steps: seq<Step>, i: nat)
    requires var s := Run(steps); i < |s.threads| && (s.threads[i].Finished? || s.threads[i].Produced?)
    ensures var s := Run(steps); var t := s.threads[i].t;
            t < |s.tasks| && (s.tasks[t].slot.Running? || (s.tasks[t].slot.Abandoned? && s.threads[i].Finished?))
  {
    hide Run, CrewOf;
    var s := Run(steps);
    RunKeeps(steps);
    Known(s, i, s.threads[i].t);
  }

  // ── When all is quiet ───────────────────────────────────────────────────────

  /** A worker that waits, or a thread that has nothing more to do, or nothing until it is told. */
  predicate Rests(pc: Pc) {
    pc.Waiting? || pc.Ended? || pc.Answered? || pc.Sleeping?
  }

  /** No worker of the pool is on its way to work, and no other thread is in the middle of a step. */
  ghost predicate Quiet(s: State) {
    s.wakeups == 0 && forall i :: 0 <= i < |s.threads| ==> Rests(s.threads[i])
  }

  predicate OnlyResolves(c: Crew) {
    c.submits == c.holds == c.runs == c.carries == c.drops == c.settles == c.hands == 0
  }

  lemma {:induction false} QuietCrew(threads: seq<Pc>, t: nat)
    requires forall i :: 0 <= i < |threads| ==> Rests(threads[i])
    ensures OnlyResolves(CrewOf(threads, t))
  {
    hide *;
    if threads != [] {
      var last := |threads| - 1;
      QuietCrew(threads[..last], t);
      RestShare(threads[last], t);
      OnlyPlus(threads, t);
    } else {
      NobodyResolves(t);
    }
  }

  lemma NobodyResolves(t: nat)
    ensures OnlyResolves(CrewOf([], t))
  {
  }

  lemma OnlyPlus(threads: seq<Pc>, t: nat)
    requires threads != [] && OnlyResolves(CrewOf(threads[..|threads| - 1], t))
    requires OnlyResolves(Share(threads[|threads| - 1], t))
    ensures OnlyResolves(CrewOf(threads, t))
  {
    hide Share, Place;
  }

  lemma RestShare(pc: Pc, t: nat)
    requires Rests(pc)
    ensures OnlyResolves(Share(pc, t))
  {
  }

  lemma PlusNobody(c: Crew)
    ensures c.Plus(NOBODY) == c == NOBODY.Plus(c) && NOBODY.AtLeast(NOBODY)
  {
  }

  lemma {:induction false} QuietStarters(threads: seq<Pc>)
    requires forall i :: 0 <= i < |threads| ==> Rests(threads[i])
    ensures Starters(threads) == 0
  {
    if threads != [] {
      QuietStarters(threads[..|threads| - 1]);
    }
  }

  lemma {:induction false} NonePending(tasks: seq<Task>)
    requires forall t :: 0 <= t < |tasks| ==> tasks[t].settled
    ensures Unsettled(tasks) == 0
  {
    if tasks != [] {
      NonePending(tasks[..|tasks| - 1]);
    }
  }

  /** When all is quiet no task was lost: each one has run, abandoned or not, and its outcome was
      handed over, was released, or waits in the slot of a task that can still be resolved. */
  lemma NothingLost(steps: seq<Step>)
    requires Quiet(Run(steps))
    ensures Run(steps).pending == 0 && Run(steps).queue == []
    ensures forall t :: 0 <= t < |Run(steps).tasks| ==>
              var task := Run(steps).tasks[t];
              && task.started == task.made == 1
              && task.given + task.released == (if task.slot.Done? then 0 else 1)
              && (task.freed ==> !task.slot.Done?)
  {
    hide Run, CrewOf, Unsettled, Starters, Waiters;
    var s := Run(steps);
    RunKeeps(steps);
    QuietStarters(s.threads);
    assert |s.queue| == 0;
    forall t: nat | t < |s.tasks|
      ensures var task := s.tasks[t]; task.settled && task.started == task.made == 1
      ensures var task := s.tasks[t];
        task.given + task.released == (if task.slot.Done? then 0 else 1) && (task.freed ==> !task.slot.Done?)
    {
      QuietCrew(s.threads, t);
      assert Balanced(LedgerOf(s, t));
    }
    NonePending(s.tasks);
  }

  // ── Resolvers that sleep ────────────────────────────────────────────────────

  /** A thread that resolves a task in place has taken its job. One that sleeps does so while the
      task runs, or because a resolver took the task in place: that one tells nobody. */
  ghost predicate RestfulThread(s: State, pc: Pc) {
    match pc
    case InPlace(t) => t < |s.tasks| && s.tasks[t].inPlace
    case Produced(t, _) => t < |s.tasks| && s.tasks[t].inPlace
    case Sleeping(t) => t < |s.tasks| && (s.tasks[t].slot.Running? || (s.tasks[t].slot.Taken? && s.tasks[t].inPlace))
    case _ => true
  }

  ghost predicate Restful(s: State) {
    forall i :: 0 <= i < |s.threads| ==> RestfulThread(s, s.threads[i])
  }

  /** A step that wakes nobody's sleep for nothing: slots of sleepers stay or become taken in place. */
  lemma RestfulStep(s: State, s': State)
    requires Restful(s) && |s'.tasks| >= |s.tasks|
    requires forall t :: 0 <= t < |s.tasks| && s.tasks[t].inPlace ==> s'.tasks[t].inPlace
    requires forall i :: 0 <= i < |s'.threads| ==>
               (i < |s.threads| && s'.threads[i] == s.threads[i] &&
                     (s'.threads[i].Sleeping? ==> SlotKeeps(s, s', s'.threads[i].t)))
               || RestfulThread(s', s'.threads[i])
    ensures Restful(s')
  {
    forall i | 0 <= i < |s'.threads|
      ensures RestfulThread(s', s'.threads[i])
    {
      if i < |s.threads| && s'.threads[i] == s.threads[i] {
        assert RestfulThread(s, s.threads[i]);
      }
    }
  }

  predicate SlotKeeps(s: State, s': State, t: nat) {
    t < |s.tasks| <= |s'.tasks| &&
          (s'.tasks[t].slot == s.tasks[t].slot ||
                (s'.tasks[t].slot.Taken? && (s.tasks[t].slot.Taken? || s'.tasks[t].inPlace)))
  }

  /** A sleeper still has its reference to the task. */
  lemma SleeperResolves(s: State, i: nat)
    requires Inv(s) && i < |s.threads| && s.threads[i].Sleeping?
    ensures var t := s.threads[i].t; t < |s.tasks| && CrewOf(s.threads, t).resolves > 0 && !s.tasks[t].freed
  {
    hide CrewOf;
    Known(s, i, s.threads[i].t);
  }

  lemma FreeRestful(s: State, t: nat)
    requires Enabled(s, Free(t)) && Inv(s) && Restful(s)
    ensures Restful(Next(s, Free(t)))
  {
    hide Inv, CrewOf;
    var s' := Next(s, Free(t));
    forall i | 0 <= i < |s.threads| && s.threads[i].Sleeping?
      ensures s.threads[i].t != t && SlotKeeps(s, s', s.threads[i].t)
    {
      SleeperResolves(s, i);
    }
    RestfulStep(s, s');
  }

  /** A worker that stores an outcome wakes all that sleep on it. */
  lemma PutRestful(s: State, i: nat)
    requires Enabled(s, Put(i)) && Inv(s) && Restful(s)
    ensures Restful(Next(s, Put(i)))
    ensures forall j :: 0 <= j < |s.threads| && s.threads[j] == Sleeping(s.threads[i].t) ==>
              Next(s, Put(i)).threads[j] == Blocked(s.threads[i].t)
  {
    hide Inv, CrewOf;
    var s' := Next(s, Put(i));
    var t := s.threads[i].t;
    forall j | 0 <= j < |s.threads| && s.threads[j].Sleeping?
      ensures s.threads[j].t < |s.tasks| && (s.threads[j].t == t ==> !s.tasks[t].slot.Abandoned?)
    {
      SleeperResolves(s, j);
      Unfreed(s, s.threads[j].t);
    }
    RestfulStep(s, s');
  }

  lemma Unfreed(s: State, t: nat)
    requires Inv(s) && t < |s.tasks| && !s.tasks[t].freed
    ensures !s.tasks[t].slot.Abandoned?
  {
    hide CrewOf;
    assert Balanced(LedgerOf(s, t));
  }

  lemma MarkRestful(s: State, step: Step)
    requires Enabled(s, step) && (step.Mark? || step.Look?) && Restful(s)
    ensures Restful(Next(s, step))
  {
    hide CrewOf;
    var s' := Next(s, step);
    assert RestfulThread(s, s.threads[step.i]);
    forall j | 0 <= j < |s.threads| && s.threads[j].Sleeping?
      ensures SlotKeeps(s, s', s.threads[j].t)
    {
      assert RestfulThread(s, s.threads[j]);
    }
    RestfulStep(s, s');
  }

  lemma NewRestful(s: State, step: Step)
    requires Enabled(s, step) && (step.Create? || step.Resolve?) && Restful(s)
    ensures Restful(Next(s, step))
  {
    hide CrewOf;
    SleepersKnown(s);
    RestfulStep(s, Next(s, step));
  }

  lemma SleepersKnown(s: State)
    requires Restful(s)
    ensures forall j :: 0 <= j < |s.threads| && s.threads[j].Sleeping? ==> s.threads[j].t < |s.tasks|
  {
    forall j | 0 <= j < |s.threads| && s.threads[j].Sleeping?
      ensures s.threads[j].t < |s.tasks|
    {
      assert RestfulThread(s, s.threads[j]);
    }
  }

  predicate AboutPool(step: Step) {
    step.Enqueue? || step.Start? || step.Wait? || step.Wake? || step.Stir?
  }

  lemma PoolRestful(s: State, step: Step)
    requires Enabled(s, step) && AboutPool(step) && Restful(s)
    ensures Restful(Next(s, step))
  {
    hide CrewOf;
    SleepersKnown(s);
    RestfulStep(s, Next(s, step));
  }

  lemma OtherRestful(s: State, step: Step)
    requires Enabled(s, step) && Restful(s)
    requires (step.Take? || step.Finish? || step.Drop? || step.Settle? || step.TryRun?)
    ensures Restful(Next(s, step))
  {
    hide CrewOf;
    assert RestfulThread(s, s.threads[step.i]);
    SleepersKnown(s);
    RestfulStep(s, Next(s, step));
  }

  lemma StepRestful(s: State, step: Step)
    requires Enabled(s, step) && Inv(s) && Restful(s)
    ensures Restful(Next(s, step))
  {
    hide Inv, CrewOf, Restful, Next;
    match step
    case Free(t) => FreeRestful(s, t);
    case Put(i) => PutRestful(s, i);
    case Mark(_) => MarkRestful(s, step);
    case Look(_) => MarkRestful(s, step);
    case _ =>
      if step.Create? || step.Resolve? {
        NewRestful(s, step);
      } else if AboutPool(step) {
        PoolRestful(s, step);
      } else {
        OtherRestful(s, step);
      }
  }

  lemma {:induction false} RunRestful(steps: seq<Step>)
    ensures Restful(Run(steps))
  {
    hide Enabled, Next, Inv, Restful;
    if steps == [] {
      FreshRestful();
    } else {
      var s := Run(steps[..|steps| - 1]);
      RunRestful(steps[..|steps| - 1]);
      RunKeeps(steps[..|steps| - 1]);
      if Enabled(s, steps[|steps| - 1]) {
        StepRestful(s, steps[|steps| - 1]);
      }
    }
  }

  lemma FreshRestful()
    ensures Restful(FRESH)
  {
  }

  /** In every run, a resolver sleeps on a task that no longer runs exactly when another resolver
      took that task in place and has marked it. A task that a worker runs leaves no sleeper. */
  lemma SleepsExactly(steps: seq<Step>, i: nat)
    requires i < |Run(steps).threads| && Run(steps).threads[i].Sleeping?
    ensures var s := Run(steps); var t := s.threads[i].t;
            && t < |s.tasks| && (s.tasks[t].slot.Running? || s.tasks[t].slot.Taken?)
            && (!s.tasks[t].slot.Running? <==>
                  s.tasks[t].inPlace && s.tasks[t].made == 1 && CrewOf(s.threads, t).carries == 0)
  {
    hide Run, CrewOf;
    var s := Run(steps);
    RunKeeps(steps);
    RunRestful(steps);
    assert RestfulThread(s, s.threads[i]);
    Known(s, i, s.threads[i].t);
  }

  /** Nothing but a wakeup without cause ends such a sleep. */
  lemma SleepsOn(s: State, step: Step, i: nat)
    requires Inv(s) && Enabled(s, step) && step != Stir(i)
    requires i < |s.threads| && s.threads[i].Sleeping?
    requires var t := s.threads[i].t; t < |s.tasks| && s.tasks[t].slot.Taken?
    ensures var s' := Next(s, step); var t := s.threads[i].t;
            i < |s'.threads| && s'.threads[i] == s.threads[i] && t < |s'.tasks| && s'.tasks[t].slot.Taken?
  {
    hide CrewOf, Inv;
    var t := s.threads[i].t;
    SleeperResolves(s, i);
    if step.Put? {
      Known(s, step.i, s.threads[step.i].t);
    }
  }

  lemma {:induction false} SleepsForGood(steps: seq<Step>, more: seq<Step>, i: nat)
    requires i < |Run(steps).threads| && Run(steps).threads[i].Sleeping?
    requires var s := Run(steps);
      var t := s.threads[i].t;
      t < |s.tasks| && !s.tasks[t].slot.Running?
    requires Stir(i) !in more
    ensures var s, s' := Run(steps), Run(steps + more);
            i < |s'.threads| && s'.threads[i] == s.threads[i] && s.threads[i].t < |s'.tasks| &&
                  s'.tasks[s.threads[i].t].slot.Taken?
  {
    hide Enabled, Next, Inv;
    SleepsExactly(steps, i);
    if more == [] {
      assert steps + more == steps;
    } else {
      var last := |more| - 1;
      SleepsForGood(steps, more[..last], i);
      assert (steps + more)[..|steps + more| - 1] == steps + more[..last];
      RunKeeps(steps + more[..last]);
      if Enabled(Run(steps + more[..last]), more[last]) {
        SleepsOn(Run(steps + more[..last]), more[last], i);
      }
    }
  }

  /** When all is quiet, the resolvers still asleep are those of tasks taken in place by others. */
  lemma QuietSleepers(steps: seq<Step>, i: nat)
    requires Quiet(Run(steps)) && i < |Run(steps).threads| && Run(steps).threads[i].Sleeping?
    ensures var s := Run(steps); var t := s.threads[i].t; t < |s.tasks| && s.tasks[t].slot.Taken? && s.tasks[t].inPlace
  {
    hide Run, CrewOf;
    var s := Run(steps);
    SleepsExactly(steps, i);
    NothingLost(steps);
    RunKeeps(steps);
    QuietCrew(s.threads, s.threads[i].t);
    assert Balanced(LedgerOf(s, s.threads[i].t));
  }

  // ── Two runs ────────────────────────────────────────────────────────────────

  /** One more step of a run. */
  lemma Going(steps: seq<Step>, s: State, step: Step, s': State) returns (longer: seq<Step>)
    requires Run(steps) == s && Enabled(s, step) && Next(s, step) == s'
    ensures longer == steps + [step] && Run(longer) == s'
  {
    hide Enabled, Next;
    longer := steps + [step];
    assert longer[..|steps|] == steps;
  }

  function Only(task: Task, queue: seq<nat>, idle: int, pending: int, threads: seq<Pc>): State {
    State(queue, idle, 0, pending, [task], threads)
  }

  /** A worker gets the only task. */
  lemma OneWorker() returns (steps: seq<Step>)
    ensures Run(steps) == Only(NewTask(), [], 0, 1, [Ended, Holding(0)])
  {
    var task := NewTask();
    steps := Going([], FRESH, Create, Only(task, [], 0, 1, [Submitting(0)]));
    steps := Going(steps, Only(task, [], 0, 1, [Submitting(0)]), Enqueue(0), Only(task, [0], 0, 1, [Ended, Starting]));
    steps := Going(steps, Only(task, [0], 0, 1, [Ended, Starting]), Start(1),
          Only(task, [], 0, 1, [Ended, Holding(0)]));
  }

  function Ran(o: Outcome): Task {
    NewTask().(job := false, started := 1, made := 1, last := o)
  }

  lemma WorkerRuns(o: Outcome) returns (steps: seq<Step>)
    ensures Run(steps) == Only(Ran(o), [], 0, 1, [Ended, Finished(0, o)])
  {
    var running := NewTask().(job := false, started := 1);
    steps := OneWorker();
    steps := Going(steps, Only(NewTask(), [], 0, 1, [Ended, Holding(0)]), Take(1),
          Only(running, [], 0, 1, [Ended, Executing(0)]));
    steps := Going(steps, Only(running, [], 0, 1, [Ended, Executing(0)]), Finish(1, o),
          Only(Ran(o), [], 0, 1, [Ended, Finished(0, o)]));
  }

  /** It stores the outcome. */
  lemma WorkerStores(o: Outcome) returns (steps: seq<Step>)
    ensures Run(steps) == Only(Ran(o).(slot := Done(o)), [], 0, 1, [Ended, Settling(0)])
  {
    steps := WorkerRuns(o);
    assert Roused([Ended, Settling(0)], 0) == [Ended, Settling(0)];
    steps := Going(steps, Only(Ran(o), [], 0, 1, [Ended, Finished(0, o)]), Put(1),
          Only(Ran(o).(slot := Done(o)), [], 0, 1, [Ended, Settling(0)]));
  }

  lemma WorkerWaits(o: Outcome) returns (steps: seq<Step>)
    ensures Run(steps) == Only(Ran(o).(slot := Done(o), settled := true), [], 1, 0, [Ended, Waiting])
  {
    var stored := Ran(o).(slot := Done(o));
    var settled := stored.(settled := true);
    steps := WorkerStores(o);
    steps := Going(steps, Only(stored, [], 0, 1, [Ended, Settling(0)]), Settle(1),
          Only(settled, [], 0, 0, [Ended, Returning]));
    steps := Going(steps, Only(settled, [], 0, 0, [Ended, Returning]), Wait(1),
          Only(settled, [], 1, 0, [Ended, Waiting]));
  }

  lemma ResolverComes(o: Outcome) returns (steps: seq<Step>)
    ensures Run(steps) == Only(Ran(o).(slot := Done(o), settled := true), [], 1, 0, [Ended, Waiting, Blocked(0)])
  {
    var settled := Ran(o).(slot := Done(o), settled := true);
    var s := Only(settled, [], 1, 0, [Ended, Waiting, Resolving(0)]);
    steps := WorkerWaits(o);
    steps := Going(steps, Only(settled, [], 1, 0, [Ended, Waiting]), Resolve(0), s);
    steps := Going(steps, s, TryRun(2), Only(settled, [], 1, 0, [Ended, Waiting, Blocked(0)]));
  }

  /** A resolver that comes later takes the outcome: all is quiet, and the outcome was handed over. */
  lemma HandedOver(o: Outcome) returns (steps: seq<Step>)
    ensures var s := Run(steps);
      Quiet(s) && |s.tasks| == 1 && s.tasks[0].given == 1 && s.threads == [Ended, Waiting, Answered(0, o)]
  {
    var settled := Ran(o).(slot := Done(o), settled := true);
    var s := Only(settled.(slot := Taken, given := 1), [], 1, 0, [Ended, Waiting, Answered(0, o)]);
    steps := ResolverComes(o);
    steps := Going(steps, Only(settled, [], 1, 0, [Ended, Waiting, Blocked(0)]), Look(2), s);
  }

  /** Two resolvers come before the worker runs the task. */
  lemma TwoResolvers() returns (steps: seq<Step>)
    ensures Run(steps) == Only(NewTask(), [], 0, 1, [Ended, Holding(0), Resolving(0), Resolving(0)])
  {
    var task := NewTask();
    var s := Only(task, [], 0, 1, [Ended, Holding(0), Resolving(0)]);
    steps := OneWorker();
    steps := Going(steps, Only(task, [], 0, 1, [Ended, Holding(0)]), Resolve(0), s);
    steps := Going(steps, s, Resolve(0), Only(task, [], 0, 1, [Ended, Holding(0), Resolving(0), Resolving(0)]));
  }

  function InHand(): Task {
    NewTask().(job := false, started := 1, inPlace := true)
  }

  /** The first runs it in place. */
  lemma FirstRuns() returns (steps: seq<Step>)
    ensures Run(steps) == Only(InHand(), [], 0, 1, [Ended, Holding(0), InPlace(0), Blocked(0)])
  {
    var s := Only(InHand(), [], 0, 1, [Ended, Holding(0), InPlace(0), Resolving(0)]);
    steps := TwoResolvers();
    steps := Going(steps, Only(NewTask(), [], 0, 1, [Ended, Holding(0), Resolving(0), Resolving(0)]), TryRun(2), s);
    steps := Going(steps, s, TryRun(3), Only(InHand(), [], 0, 1, [Ended, Holding(0), InPlace(0), Blocked(0)]));
  }

  /** The second falls asleep meanwhile. */
  lemma SecondSleeps() returns (steps: seq<Step>)
    ensures Run(steps) == Only(InHand(), [], 0, 1, [Ended, Returning, InPlace(0), Sleeping(0)])
  {
    var s := Only(InHand(), [], 0, 1, [Ended, Holding(0), InPlace(0), Sleeping(0)]);
    steps := FirstRuns();
    steps := Going(steps, Only(InHand(), [], 0, 1, [Ended, Holding(0), InPlace(0), Blocked(0)]), Look(3), s);
    steps := Going(steps, s, Take(1), Only(InHand(), [], 0, 1, [Ended, Returning, InPlace(0), Sleeping(0)]));
  }

  lemma FirstMakes(o: Outcome) returns (steps: seq<Step>)
    ensures Run(steps) == Only(Ran(o).(inPlace := true), [], 1, 1, [Ended, Waiting, Produced(0, o), Sleeping(0)])
  {
    var s := Only(InHand(), [], 1, 1, [Ended, Waiting, InPlace(0), Sleeping(0)]);
    steps := SecondSleeps();
    steps := Going(steps, Only(InHand(), [], 0, 1, [Ended, Returning, InPlace(0), Sleeping(0)]), Wait(1), s);
    steps := Going(steps, s, Finish(2, o),
          Only(Ran(o).(inPlace := true), [], 1, 1, [Ended, Waiting, Produced(0, o), Sleeping(0)]));
  }

  lemma FirstAnswers(o: Outcome) returns (steps: seq<Step>)
    ensures Run(steps) == Only(Ran(o).(inPlace := true, slot := Taken, settled := true, given := 1), [], 1, 0,
                               [Ended, Waiting, Answered(0, o), Sleeping(0)])
  {
    var made := Ran(o).(inPlace := true);
    var s := Only(made.(slot := Taken), [], 1, 1, [Ended, Waiting, Handing(0, o), Sleeping(0)]);
    steps := FirstMakes(o);
    steps := Going(steps, Only(made, [], 1, 1, [Ended, Waiting, Produced(0, o), Sleeping(0)]), Mark(2), s);
    steps := Going(steps, s, Settle(2),
                   Only(made.(slot := Taken, settled := true, given := 1), [], 1, 0,
                         [Ended, Waiting, Answered(0, o), Sleeping(0)]));
  }

  /** The first returns the outcome and tells nobody. All is quiet, and the second still sleeps:
      whatever happens after that, only a wakeup without cause would let it return. */
  lemma SecondSleepsOn(o: Outcome) returns (steps: seq<Step>)
    ensures var s := Run(steps);
      Quiet(s) && s.threads == [Ended, Waiting, Answered(0, o), Sleeping(0)] && |s.tasks| == 1 && s.tasks[0].slot.Taken?
    ensures forall more :: Stir(3) !in more ==>
              |Run(steps + more).threads| > 3 && Run(steps + more).threads[3] == Sleeping(0)
  {
    hide Run;
    steps := FirstAnswers(o);
    forall more | Stir(3) !in more
      ensures |Run(steps + more).threads| > 3 && Run(steps + more).threads[3] == Sleeping(0)
    {
      SleepsForGood(steps, more, 3);
    }
  }
}
