/** How threads and the collector agree: one atomic operation at a time, in any order. A thread
    that runs compiled code is counted; one that blocks in the runtime is not, and must not come
    back while one collector works alone. */
module Safepoint {

  /** Where a thread is. */
  datatype Pc =
    | Outside      // parked, foreign, or ended
    | Entering     // about to count itself
    | Raised       // counted, about to look whether a collector works alone
    | Backing      // it does: about to take itself off the count
    | Spinning     // waits for its end
    | Running      // runs compiled code
    // the stages of a collection:
    | Claimed      // the only collector, about to close the way in
    | Guarded      // about to look at the count
    | Exclusive    // works alone
    | Declined     // not alone: about to open the way in again
    | Concurrent   // works beside the others
    | Finishing    // about to let another collector in

  datatype State = State(running: int, exclusive: bool, collecting: bool, threads: seq<Pc>)

  datatype Step =
    | Appear | Spawn(i: nat) | Leave(i: nat)
    | Enter(i: nat) | Raise(i: nat) | Check(i: nat) | Lower(i: nat) | Spin(i: nat)
    | Claim(i: nat) | Guard(i: nat) | Count(i: nat) | Reopen(i: nat) | Done(i: nat) | Finish(i: nat)

  // ── Steps ───────────────────────────────────────────────────────────────────

  predicate Enabled(s: State, step: Step) {
    step.Appear? || (step.i < |s.threads| && Allows(s.threads[step.i], step))
  }

  predicate Allows(pc: Pc, step: Step) {
    match step
    case Appear => true
    case Spawn(_) => pc.Running?
    case Leave(_) => pc.Running?
    case Enter(_) => pc.Outside?
    case Raise(_) => pc.Entering?
    case Check(_) => pc.Raised?
    case Lower(_) => pc.Backing?
    case Spin(_) => pc.Spinning?
    case Claim(_) => pc.Running?
    case Guard(_) => pc.Claimed?
    case Count(_) => pc.Guarded?
    case Reopen(_) => pc.Exclusive? || pc.Declined?
    case Done(_) => pc.Concurrent?
    case Finish(_) => pc.Finishing?
  }

  function Goto(s: State, i: nat, pc: Pc): State
    requires i < |s.threads|
  {
    s.(threads := s.threads[i := pc])
  }

  function Next(s: State, step: Step): State
    requires Enabled(s, step)
  {
    match step
    case Appear => s.(threads := s.threads + [Outside])
    case Spawn(_) => s.(running := s.running + 1, threads := s.threads + [Running])
    case Leave(i) => Goto(s, i, Outside).(running := s.running - 1)
    case Enter(i) => Goto(s, i, Entering)
    case Raise(i) => Goto(s, i, Raised).(running := s.running + 1)
    case Check(i) => Goto(s, i, if s.exclusive then Backing else Running)
    case Lower(i) => Goto(s, i, Spinning).(running := s.running - 1)
    case Spin(i) => if s.exclusive then s else Goto(s, i, Entering)
    case Claim(i) => if s.collecting then s else Goto(s, i, Claimed).(collecting := true)
    case Guard(i) => Goto(s, i, Guarded).(exclusive := true)
    case Count(i) => Goto(s, i, if s.running == 1 then Exclusive else Declined)
    case Reopen(i) => Goto(s, i, if s.threads[i].Exclusive? then Finishing else Concurrent).(exclusive := false)
    case Done(i) => Goto(s, i, Finishing)
    case Finish(i) => Goto(s, i, Running).(collecting := false)
  }

  // ── Counting threads ────────────────────────────────────────────────────────

  predicate Counted(pc: Pc) {
    !pc.Outside? && !pc.Entering? && !pc.Spinning?
  }

  /** May touch the counts of values. */
  predicate Active(pc: Pc) {
    Counted(pc) && !pc.Raised? && !pc.Backing?
  }

  predicate Collects(pc: Pc) {
    Active(pc) && !pc.Running?
  }

  predicate Guards(pc: Pc) {
    pc.Guarded? || pc.Exclusive? || pc.Declined?
  }

  /** How many threads are counted, active, collecting, guarding, and collecting alone. */
  datatype Census = Census(counted: int, active: int, collectors: int, guards: int, alone: int)

  function One(b: bool): int {
    if b then 1 else 0
  }

  function CensusOf(threads: seq<Pc>): Census {
    if threads == [] then Census(0, 0, 0, 0, 0) else
    var c := CensusOf(threads[..|threads| - 1]);
    var pc := threads[|threads| - 1];
    Census(c.counted + One(Counted(pc)), c.active + One(Active(pc)), c.collectors + One(Collects(pc)),
           c.guards + One(Guards(pc)), c.alone + One(pc.Exclusive?))
  }

  /** Each kind of thread is of the kind before it. */
  predicate Nested(c: Census) {
    0 <= c.alone <= c.guards <= c.collectors <= c.active <= c.counted
  }

  lemma {:induction false} CensusMoves(threads: seq<Pc>, i: nat, pc: Pc)
    requires i < |threads|
    ensures var c, c', from := CensusOf(threads), CensusOf(threads[i := pc]), threads[i];
            && c'.counted == c.counted - One(Counted(from)) + One(Counted(pc))
            && c'.active == c.active - One(Active(from)) + One(Active(pc))
            && c'.collectors == c.collectors - One(Collects(from)) + One(Collects(pc))
            && c'.guards == c.guards - One(Guards(from)) + One(Guards(pc))
            && c'.alone == c.alone - One(from.Exclusive?) + One(pc.Exclusive?)
  {
    hide Counted, Active, Collects, Guards;
    var last := |threads| - 1;
    if i < last {
      CensusMoves(threads[..last], i, pc);
      assert threads[i := pc][..last] == threads[..last][i := pc];
    } else {
      assert threads[i := pc][..last] == threads[..last];
    }
  }

  lemma CensusJoins(threads: seq<Pc>, pc: Pc)
    ensures var c, c' := CensusOf(threads), CensusOf(threads + [pc]);
            && c'.counted == c.counted + One(Counted(pc)) && c'.active == c.active + One(Active(pc))
            && c'.collectors == c.collectors + One(Collects(pc)) && c'.guards == c.guards + One(Guards(pc))
            && c'.alone == c.alone + One(pc.Exclusive?)
  {
    assert (threads + [pc])[..|threads|] == threads;
  }

  lemma {:induction false} CensusNested(threads: seq<Pc>)
    ensures Nested(CensusOf(threads))
  {
    if threads != [] {
      CensusNested(threads[..|threads| - 1]);
    }
  }

  // ── What every step keeps ───────────────────────────────────────────────────

  /** The count is that of the counted threads; one collector at most; the way in is closed
      exactly while one guards it; and a collector that works alone is the only active thread. */
  ghost predicate Inv(s: State) {
    var c := CensusOf(s.threads);
    && s.running == c.counted
    && c.collectors == One(s.collecting)
    && c.guards == One(s.exclusive)
    && (c.alone > 0 ==> c.active == 1)
  }

  lemma StepKeeps(s: State, step: Step)
    requires Enabled(s, step) && Inv(s)
    ensures Inv(Next(s, step))
  {
    hide CensusOf;
    CensusNested(s.threads);
    if step.Appear? {
      CensusJoins(s.threads, Outside);
    } else if step.Spawn? {
      CensusMoves(s.threads, step.i, Outside);
      CensusJoins(s.threads, Running);
      CensusNested(s.threads[step.i := Outside]);
    } else {
      var s' := Next(s, step);
      var pc := s'.threads[step.i];
      assert s'.threads == s.threads[step.i := pc];
      CensusMoves(s.threads, step.i, pc);
      CensusNested(s'.threads);
      CensusMoves(s.threads, step.i, Outside);
      CensusNested(s.threads[step.i := Outside]);
    }
  }

  /** The main thread runs. */
  const START := State(1, false, false, [Running])

  /** A run: steps in any order, each one that its state allows. */
  function Run(steps: seq<Step>): State {
    if steps == [] then START else
    var s := Run(steps[..|steps| - 1]);
    var step := steps[|steps| - 1];
    if Enabled(s, step) then Next(s, step) else s
  }

  lemma {:induction false} RunKeeps(steps: seq<Step>)
    ensures Inv(Run(steps))
  {
    hide Enabled, Next, Inv;
    if steps == [] {
      StartKeeps();
    } else {
      RunKeeps(steps[..|steps| - 1]);
      if Enabled(Run(steps[..|steps| - 1]), steps[|steps| - 1]) {
        StepKeeps(Run(steps[..|steps| - 1]), steps[|steps| - 1]);
      }
    }
  }

  lemma StartKeeps()
    ensures Inv(START)
  {
    CensusJoins([], Running);
    assert [] + [Running] == START.threads;
  }

  /** In every run the count is that of the counted threads, and never negative. */
  lemma CountExact(steps: seq<Step>)
    ensures Run(steps).running == CensusOf(Run(steps).threads).counted >= 0
  {
    hide Run;
    RunKeeps(steps);
    CensusNested(Run(steps).threads);
  }

  /** In every run, while one thread collects alone, every other one is outside, or on its way in
      and held back. */
  lemma AloneIsAlone(steps: seq<Step>, i: nat, j: nat)
    requires i < |Run(steps).threads| && j < |Run(steps).threads| && i != j && Run(steps).threads[i].Exclusive?
    ensures !Active(Run(steps).threads[j]) && Run(steps).exclusive
  {
    hide Run, CensusOf;
    var threads := Run(steps).threads;
    RunKeeps(steps);
    CensusNested(threads);
    CensusMoves(threads, i, Outside);
    CensusNested(threads[i := Outside]);
    CensusMoves(threads[i := Outside], j, Outside);
    CensusNested(threads[i := Outside][j := Outside]);
  }

  /** In every run, one thread collects at a time, whether alone or beside the others. */
  lemma OneCollector(steps: seq<Step>, i: nat, j: nat)
    requires i < |Run(steps).threads| && j < |Run(steps).threads|
    requires Collects(Run(steps).threads[i]) && Collects(Run(steps).threads[j])
    ensures i == j
  {
    hide Run, CensusOf;
    var threads := Run(steps).threads;
    RunKeeps(steps);
    if i != j {
      CensusMoves(threads, i, Outside);
      CensusMoves(threads[i := Outside], j, Outside);
      CensusNested(threads[i := Outside][j := Outside]);
    }
  }

  /** The collector that looks at the count goes on alone exactly when no other thread is
      counted at that moment. */
  lemma AloneExactly(steps: seq<Step>, i: nat)
    requires Enabled(Run(steps), Count(i))
    ensures Next(Run(steps), Count(i)).threads[i].Exclusive? <==>
              forall j :: 0 <= j < |Run(steps).threads| && j != i ==> !Counted(Run(steps).threads[j])
  {
    hide Run;
    var s := Run(steps);
    RunKeeps(steps);
    var rest := s.threads[i := Outside];
    CensusMoves(s.threads, i, Outside);
    CountedNone(rest);
    forall j | 0 <= j < |rest|
      ensures Counted(rest[j]) <==> j != i && Counted(s.threads[j])
    {
    }
    if forall j :: 0 <= j < |s.threads| && j != i ==> !Counted(s.threads[j]) {
      assert forall j :: 0 <= j < |rest| ==> !Counted(rest[j]);
    }
  }

  lemma {:induction false} CountedNone(threads: seq<Pc>)
    ensures CensusOf(threads).counted == 0 <==> forall j :: 0 <= j < |threads| ==> !Counted(threads[j])
  {
    if threads != [] {
      CountedNone(threads[..|threads| - 1]);
      CensusNested(threads[..|threads| - 1]);
    }
  }

  /** A thread that comes back to run finds no collector alone. */
  lemma BackWhenOpen(steps: seq<Step>, i: nat, j: nat)
    requires Enabled(Run(steps), Check(i)) && j < |Run(steps).threads|
    requires Next(Run(steps), Check(i)).threads[i].Running?
    ensures !Run(steps).threads[j].Exclusive?
  {
    hide Run;
    if Run(steps).threads[j].Exclusive? {
      AloneIsAlone(steps, j, i);
    }
  }
}
