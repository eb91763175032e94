/** Whole programs against the heap. A program sees values and the references it holds; counts,
    colours and roots are the heap's own affair. */
module Programs {
  import opened RefGraph
  import opened TrialDeletion
  import opened CycleCollector
  import ConcurrentCollector

  /** What a program sees: the references inside each value, what kind of value it is, and how
      many references to it the program itself holds. */
  datatype World = World(kids: Graph, cyclic: seq<bool>, holder: seq<bool>, held: seq<nat>)

  datatype Op =
    | Create(canCycle: bool, mayHold: bool)
    | Share(v: nat)
    | PutInto(u: nat, v: nat)
    | TakeFrom(u: nat, i: nat)
    | Drop(v: nat)
    | Collect
    | CollectBeside

  predicate Sized(w: World) {
    |w.kids| == |w.cyclic| == |w.holder| == |w.held|
  }

  predicate Holds(w: World, v: nat) {
    v < |w.held| && w.held[v] > 0
  }

  /** A program uses only what it holds, and puts a value only into one whose kind takes it. */
  predicate Legal(w: World, op: Op) {
    && Sized(w)
    && match op
       case Create(canCycle, mayHold) => mayHold ==> canCycle
       case Share(v) => Holds(w, v)
       case PutInto(u, v) => Holds(w, v) && Holds(w.(held := w.held[v := w.held[v] - 1]), u) &&
             if w.cyclic[v] then w.holder[u] else w.cyclic[u]
       case TakeFrom(u, i) => Holds(w, u) && i < |w.kids[u]| && w.kids[u][i] < |w.held|
       case Drop(v) => Holds(w, v)
       case Collect => true
       case CollectBeside => true
  }

  /** What the program means by it. Nothing dies here. */
  function Next(w: World, op: Op): (w': World)
    requires Legal(w, op)
    ensures Sized(w')
  {
    match op
    case Create(canCycle, mayHold) => World(w.kids + [[]], w.cyclic + [canCycle], w.holder + [mayHold], w.held + [1])
    case Share(v) => w.(held := w.held[v := w.held[v] + 1])
    case PutInto(u, v) => w.(kids := w.kids[u := w.kids[u] + [v]], held := w.held[v := w.held[v] - 1])
    case TakeFrom(u, i) =>
      var v := w.kids[u][i];
      w.(kids := w.kids[u := w.kids[u][..i] + w.kids[u][i + 1..]], held := w.held[v := w.held[v] + 1])
    case Drop(v) => w.(held := w.held[v := w.held[v] - 1])
    case Collect => w
    case CollectBeside => w
  }

  /** The world after a run from `w`, in which what a program cannot do is left out. */
  function WorldFrom(w: World, ops: seq<Op>): World {
    if ops == [] then w else
    var before := WorldFrom(w, ops[..|ops| - 1]);
    if Legal(before, ops[|ops| - 1]) then Next(before, ops[|ops| - 1]) else before
  }

  /** The world after a run from the start. */
  function WorldAfter(ops: seq<Op>): World {
    WorldFrom(World([], [], [], []), ops)
  }

  /** The values that the program can still reach. */
  ghost function Reachable(w: World): set<nat> {
    Reach(w.kids, Held(w.held))
  }

  /** No operation brings a value back into reach. */
  lemma GarbageStep(w: World, op: Op, d: set<nat>)
    requires Legal(w, op) && InRange(w.kids) && (forall v :: v in d ==> v < |w.kids|) && d !! Reachable(w)
    ensures var w' := Next(w, op);
      InRange(w'.kids) && |w.kids| <= |w'.kids| && d !! Reachable(w')
  {
    hide Reach;
    var w' := Next(w, op);
    var c := Reachable(w) + (Below(|w'.kids|) - Below(|w.kids|));
    NextInRange(w, op);
    ReachClosed(w.kids, Held(w.held));
    forall v | v in Held(w.held)
      ensures v in c
    {
      ReachContains(w.kids, Held(w.held), v);
    }
    forall u, t | u in c && u < |w'.kids| && t in w'.kids[u]
      ensures t in c
    {
      if u < |w.kids| && t in w.kids[u] {
        assert t in Reachable(w);
      }
    }
    if op.TakeFrom? {
      assert w.kids[op.u][op.i] in w.kids[op.u];
    }
    ReachLeast(w'.kids, Held(w'.held), c);
  }

  lemma NextInRange(w: World, op: Op)
    requires Legal(w, op) && InRange(w.kids)
    ensures InRange(Next(w, op).kids)
  {
  }

  /** What a program cannot reach it never reaches again: a collection may free it at any later
      time. */
  lemma {:induction false} GarbageStays(w: World, ops: seq<Op>, d: set<nat>)
    requires InRange(w.kids) && (forall v :: v in d ==> v < |w.kids|) && d !! Reachable(w)
    ensures var w' := WorldFrom(w, ops);
      InRange(w'.kids) && |w.kids| <= |w'.kids| && d !! Reachable(w')
  {
    if ops != [] {
      GarbageStays(w, ops[..|ops| - 1], d);
      var before := WorldFrom(w, ops[..|ops| - 1]);
      if Legal(before, ops[|ops| - 1]) {
        GarbageStep(before, ops[|ops| - 1], d);
      }
    }
  }

  ghost predicate Matches(h: Heap, w: World)
    reads h
  {
    h.Inv() && h.Idle() && !h.collecting && h.kids == w.kids && h.cyclic == w.cyclic && h.holder == w.holder &&
          h.ext == w.held && Sized(w)
  }

  /** Nothing a program can reach is ever freed, and each count is that of the references there
      are: those the program holds and those inside values that are still there. */
  lemma Safe(h: Heap, w: World)
    requires Matches(h, w)
    ensures Reachable(w) <= h.alive
    ensures forall v :: v in h.alive ==> v < |h.count| && h.count[v] == Owed(w.kids, w.cyclic, w.held, h.alive, {}, v)
    ensures |w.cyclic| == |w.kids|
    ensures forall v :: v in h.alive && v < |w.kids| ==>
              Owed(w.kids, w.cyclic, w.held, h.alive, {}, v) == w.held[v] + In(w.kids, h.alive, v)
  {
    hide Heap.Inv, Heap.Idle, Tally, In;
    h.InvTally();
    h.IdleMeans();
    h.CountsAreNatural();
    ReachLeast(h.kids, Held(h.ext), h.alive);
    forall v | v in h.alive
      ensures h.count[v] == Owed(w.kids, w.cyclic, w.held, h.alive, {}, v)
    {
      TallyAt(h.kids, h.cyclic, h.ext, h.count, h.alive, {}, v);
    }
    forall v | v in h.alive && v < |w.kids|
      ensures Owed(w.kids, w.cyclic, w.held, h.alive, {}, v) == w.held[v] + In(w.kids, h.alive, v)
    {
      assert h.alive - {} == h.alive;
      InZero(w.kids, {}, v);
    }
  }

  /** No word that can be found where a block was given back makes a walk visit it. */
  ghost predicate Harmless(junk: (nat, nat) -> Word) {
    forall x, n :: junk(x, n) != WHITE_WORD
  }

  lemma JunkIsHarmless(h: Heap, seen: seq<Word>)
    requires h.Junk(seen)
    ensures Harmless(h.junk) ==> WHITE_WORD !in seen
  {
  }

  /** One operation. A collection of either kind leaves exactly what the program can reach, unless
      a walk mistakes a block given back for a white value (`!ok`): only in a synchronous collection two
      of whose roots hang on the same garbage, and only if such a word is found there. */
  method Perform(h: Heap, w: World, op: Op) returns (ok: bool, w': World)
    requires Matches(h, w) && Legal(w, op)
    modifies h
    ensures w' == Next(w, op) && (ok ==> Matches(h, w'))
    ensures Harmless(h.junk) ==> ok
    ensures op.Collect? && !ok ==>
              SharedGarbage(w.kids, w.cyclic, w.held, KeptRoots(w.kids, old(h.alive), old(h.roots)))
    ensures !op.Collect? && !op.Drop? ==> ok
    ensures ok && (op.Collect? || op.CollectBeside?) ==> h.alive == Reachable(w')
  {
    hide Heap.Inv, Heap.Idle, Heap.Junk, Reach, Held, SharedGarbage, KeptRoots;
    w' := Next(w, op);
    ok := true;
    AliveFacts(h, w, op);
    h.IdleMeans();
    ghost var seen;
    match op
    case Create(canCycle, mayHold) =>
      var v := h.Alloc(canCycle, mayHold);
      h.IdleMeans();
    case Share(v) =>
      h.Retain(v);
      h.IdleMeans();
    case PutInto(u, v) =>
      h.Store(u, v);
      h.IdleMeans();
    case TakeFrom(u, i) =>
      var v := h.Take(u, i);
      h.IdleMeans();
    case Drop(v) =>
      ok, seen := h.Release(v);
      JunkIsHarmless(h, seen);
    case Collect =>
      ok, seen := h.CollectCycles();
      JunkIsHarmless(h, seen);
    case CollectBeside => ConcurrentCollector.CollectConcurrent(h, 0);
  }

  /** What a program holds is there. */
  lemma AliveFacts(h: Heap, w: World, op: Op)
    requires Matches(h, w) && Legal(w, op)
    ensures forall v :: Holds(w, v) ==> v in h.alive
    ensures op.PutInto? ==> op.u in h.alive && op.v in h.alive
  {
    hide Heap.Inv, Heap.Idle;
    h.InvTally();
  }

  /** Every run of a program keeps the heap in step with what the program means, frees nothing it
      can reach, and, with one more collection at its end, frees all the rest; it goes wrong
      (`!ok`) only if a walk mistakes a block given back for a white value. */
  method Run(ops: seq<Op>, beside: bool, junk: (nat, nat) -> Word) returns (ok: bool, h: Heap, w: World)
    ensures Harmless(junk) ==> ok
    ensures ok ==> fresh(h) && Matches(h, w) && w == WorldAfter(ops)
    ensures ok ==> h.alive == Reachable(w)
  {
    hide Matches, WorldAfter, Legal, Next, Harmless, SharedGarbage, KeptRoots;
    h := new Heap(junk);
    w := World([], [], [], []);
    ok := true;
    NewMatches(h, w);
    for k := 0 to |ops|
      invariant ok && fresh(h) && Matches(h, w) && w == WorldAfter(ops[..k])
    {
      WorldStep(ops, k);
      if Legal(w, ops[k]) {
        ok, w := Perform(h, w, ops[k]);
        if !ok {
          return;
        }
      }
    }
    assert ops[..|ops|] == ops;
    var last := if beside then CollectBeside else Collect;
    CollectionIsLegal(h, w, last);
    ok, w := Perform(h, w, last);
  }

  lemma NewMatches(h: Heap, w: World)
    requires h.Inv() && h.kids == [] && h.Idle() && !h.collecting && h.cyclic == [] && h.holder == [] && h.ext == []
    requires w == World([], [], [], [])
    ensures Matches(h, w) && WorldAfter([]) == w
  {
  }

  lemma WorldStep(ops: seq<Op>, k: nat)
    requires k < |ops|
    ensures var w := WorldAfter(ops[..k]); WorldAfter(ops[..k + 1]) == if Legal(w, ops[k]) then Next(w, ops[k]) else w
  {
    assert ops[..k + 1][..k] == ops[..k];
  }

  lemma CollectionIsLegal(h: Heap, w: World, op: Op)
    requires Matches(h, w) && (op.Collect? || op.CollectBeside?)
    ensures Legal(w, op) && Next(w, op) == w
  {
  }
}
