/** The counted heap and its synchronous cycle collector. */
module CycleCollector {
  import opened RefGraph
  import opened TrialDeletion

  const ROOTS_THRESHOLD: nat := 10_000

  /** How many of the candidates `kept` are black. */
  function StillBlack(kept: seq<nat>, color: seq<Color>): nat {
    if kept == [] then 0 else
    StillBlack(kept[1..], color) + if kept[0] < |color| && color[kept[0]] == Black then 1 else 0
  }

  /** What a walk looks at in the count word of a value. */
  datatype Word = Word(color: Color, buffered: bool)

  /** A word that makes a walk visit its value. */
  const WHITE_WORD := Word(White, false)

  class Heap {
    /** `junk(x, n)`: what the read number `n` finds where the count word of `x` was, once the
        block of `x` is the allocator's. Anything at all: the word is then a link of a list of
        free blocks, or part of whatever was put there since. */
    const junk: (nat, nat) -> Word
    var clock: nat

    var kids: Graph
    var cyclic: seq<bool>
    var holder: seq<bool>
    var count: seq<int>
    var color: seq<Color>
    var buffered: seq<bool>
    var dead: seq<bool>
    var roots: seq<nat>
    var limit: nat
    var due: bool
    var collecting: bool
    var epoch: nat
    var deferred: seq<nat>
    /** The blocks given back to the allocator, in order. */
    var freed: seq<nat>

    ghost var ext: seq<nat>
    ghost var alive: set<nat>
    ghost var gone: set<nat>
    /** The values with the `BUFFERED` bit: those in `roots`, and those a concurrent collection
        took from it. */
    ghost var candidates: set<nat>
    ghost var taken: set<nat>
    /** What a concurrent collection is freeing. */
    ghost var limbo: set<nat>

    // ── Trial deletion ────────────────────────────────────────────────────────

    ghost predicate Hidden(hidden: set<nat>)
      reads `kids, `cyclic, `alive, `count, `color, `ext
    {
      && Blocks(kids, cyclic, alive) && Closed(kids, alive)
      && |count| == |color| == |kids|
      && Tally(kids, cyclic, ext, count, alive, hidden, [])
      && (forall v :: v in hidden ==> v in alive && cyclic[v])
    }

    lemma HiddenFacts(hidden: set<nat>)
      requires Hidden(hidden)
      ensures |count| == |color| == |cyclic| == |kids| && InRange(kids) && hidden <= alive
      ensures Blocks(kids, cyclic, alive) && Closed(kids, alive) && Tally(kids, cyclic, ext, count, alive, hidden, [])
      ensures (forall v :: v in hidden ==> v < |cyclic| && cyclic[v]) && forall v :: v in alive ==> v < |kids|
    {
    }

    lemma NowHidden(hidden: set<nat>)
      requires Blocks(kids, cyclic, alive) && Closed(kids, alive) && |count| == |color| == |kids|
      requires Tally(kids, cyclic, ext, count, alive, hidden, [])
      requires forall v :: v in hidden ==> v in alive && v < |cyclic| && cyclic[v]
      ensures Hidden(hidden)
    {
    }

    /** Takes the references of `x` out of the counts of its cyclic children. */
    method Subtract(x: nat, stack: seq<nat>, ghost hidden: set<nat>) returns (stack': seq<nat>)
      requires Hidden(hidden) && x in alive && cyclic[x] && x !in hidden
      modifies `count
      ensures Hidden(hidden + {x})
      ensures forall v :: 0 <= v < |kids| && v !in alive ==> count[v] == old(count[v])
      ensures forall t :: t in stack' <==> t in stack || (t in kids[x] && t < |kids| && cyclic[t])
    {
      hide *;
      HiddenFacts(hidden);
      ghost var count0 := count;
      stack' := stack;
      var ks := CyclicChildren(kids[x], cyclic);
      Start(ks);
      for i := 0 to |ks|
        invariant |count| == |kids|
        invariant forall v :: 0 <= v < |kids| ==> count[v] == count0[v] - Count(ks[..i], v)
        invariant stack' == stack + ks[..i]
      {
        var t := ks[i];
        Prefix(ks, i);
        count := count[t := count[t] - 1];
        stack' := stack' + [t];
      }
      ChildrenAlive(kids, cyclic, alive, x);
      TallyHide(kids, cyclic, ext, count0, count, alive, hidden, x);
      NowHidden(hidden + {x});
    }

    method MarkGray(root: nat)
      requires Hidden(Colored(color, Gray)) && root in alive && cyclic[root]
      requires CyclicClosed(kids, cyclic, Colored(color, Gray))
      modifies `count, `color
      ensures Hidden(Colored(color, Gray))
      ensures CyclicClosed(kids, cyclic, Colored(color, Gray))
      ensures old(Colored(color, Gray)) + {root} <= Colored(color, Gray) <= old(Colored(color, Gray)) +
                Reach(kids, {root})
      ensures forall v :: 0 <= v < |kids| && color[v] != Gray ==> color[v] == old(color[v])
      ensures forall v :: 0 <= v < |kids| && v !in alive ==> count[v] == old(count[v])
    {
      hide Tally, Count;
      var stack := [root];
      ghost var gray: set<nat> := Colored(color, Gray);
      ghost var below: set<nat> := Reach(kids, {root});
      ReachContains(kids, {root}, root);
      ReachClosed(kids, {root});
      while stack != []
        invariant Hidden(gray) && gray == Colored(color, Gray)
        invariant old(Colored(color, Gray)) <= gray <= old(Colored(color, Gray)) + below
        invariant forall v :: 0 <= v < |kids| && color[v] != Gray ==> color[v] == old(color[v])
        invariant forall v :: 0 <= v < |kids| && v !in alive ==> count[v] == old(count[v])
        invariant forall t :: t in stack ==> t in alive && cyclic[t] && t in below
        invariant Frontier(kids, cyclic, gray, stack)
        invariant root in gray || root in stack
        decreases alive - gray, |stack|
      {
        ghost var before := stack;
        var x := stack[|stack| - 1];
        Pop(stack);
        stack := stack[..|stack| - 1];
        if color[x] == Gray {
          continue;
        }
        ColorGray(color, x);
        color := color[x := Gray];
        stack := Subtract(x, stack, gray);
        FrontierStep(kids, cyclic, gray, x, before, stack);
        gray := gray + {x};
      }
    }

    /** The state between two steps of the scan of the gray subgraph `s`. */
    ghost predicate Scanning(s: set<nat>)
      reads `kids, `cyclic, `alive, `count, `color, `ext
    {
      Hidden(NotBlack(color, s)) && ScanColors(kids, cyclic, ext, alive, color, s)
    }

    /** Puts the references of `x` back into the counts of its cyclic children, which turn black. */
    method Restore(x: nat, stack: seq<nat>, ghost hidden: set<nat>) returns (stack': seq<nat>)
      requires Hidden(hidden) && x in alive && cyclic[x] && x in hidden
      modifies `count, `color
      ensures Hidden(hidden - {x})
      ensures forall v :: 0 <= v < |kids| && v !in alive ==> count[v] == old(count[v])
      ensures forall v :: 0 <= v < |kids| ==> color[v] == if cyclic[v] && v in kids[x] then Black else old(color[v])
      ensures stack' == stack + Fresh(CyclicChildren(kids[x], cyclic), old(color))
    {
      hide *;
      HiddenFacts(hidden);
      ghost var count0, color0 := count, color;
      stack' := stack;
      var ks := CyclicChildren(kids[x], cyclic);
      Start(ks);
      FreshNone(color0);
      for i := 0 to |ks|
        invariant |count| == |kids| == |color|
        invariant forall v :: 0 <= v < |kids| ==> count[v] == count0[v] + Count(ks[..i], v)
        invariant forall v :: 0 <= v < |kids| ==> color[v] == if v in ks[..i] then Black else color0[v]
        invariant stack' == stack + Fresh(ks[..i], color0)
      {
        var t := ks[i];
        Prefix(ks, i);
        FreshPrefix(ks, i, color0);
        count := count[t := count[t] + 1];
        if color[t] != Black {
          color := color[t := Black];
          stack' := stack' + [t];
        }
      }
      ChildrenAlive(kids, cyclic, alive, x);
      TallyShow(kids, cyclic, ext, count0, count, alive, hidden, x);
      NowHidden(hidden - {x});
    }

    method ScanBlack(root: nat, ghost s: set<nat>)
      requires Scanning(s) && root in Outer(kids, ext, alive, s) && color[root] == Gray
      modifies `count, `color
      ensures Scanning(s) && color[root] == Black
      ensures forall v :: 0 <= v < |kids| && v !in alive ==> count[v] == old(count[v])
      ensures forall v :: 0 <= v < |kids| ==> color[v] == old(color[v]) || color[v] == Black
    {
      hide Tally, Count, Fresh, CyclicChildren, Distinct, In, Reach, ScanColors, Blackening;
      ScanFacts(kids, cyclic, ext, alive, color, s);
      ghost var below: set<nat> := Reach(kids, Outer(kids, ext, alive, s));
      ReachClosed(kids, Outer(kids, ext, alive, s));
      BlackenStart(kids, cyclic, ext, alive, color, s, root);
      ghost var hidden: set<nat> := NotBlack(color, s);
      color := color[root := Black];
      var stack := [root];
      while stack != []
        invariant Hidden(hidden) && Blackening(kids, cyclic, color, s, hidden, stack)
        invariant s - NotBlack(color, s) <= below
        invariant forall v :: 0 <= v < |kids| ==> color[v] == old(color[v]) || color[v] == Black
        invariant forall v :: 0 <= v < |kids| && v !in alive ==> count[v] == old(count[v])
        invariant color[root] == Black
        decreases NotBlack(color, s), |stack|
      {
        ghost var color0, stack0 := color, stack;
        var x := stack[|stack| - 1];
        Pop(stack);
        BlackenFacts(kids, cyclic, color, s, hidden, stack);
        stack := stack[..|stack| - 1];
        stack := Restore(x, stack, hidden);
        BlackenStep(kids, cyclic, color0, color, s, hidden, stack0, x);
        BlackenProgress(color0, color, s, CyclicChildren(kids[x], cyclic));
        hidden := hidden - {x};
      }
      BlackenEnd(kids, cyclic, ext, alive, old(color), color, s, hidden);
    }

    method Scan(root: nat, ghost s: set<nat>)
      requires Scanning(s) && root in s && Settled(kids, cyclic, color, s, [])
      modifies `count, `color
      ensures Scanning(s) && Settled(kids, cyclic, color, s, []) && color[root] != Gray
      ensures forall v :: 0 <= v < |kids| && v !in alive ==> count[v] == old(count[v])
      ensures forall v :: 0 <= v < |kids| ==> color[v] == old(color[v]) || color[v] == Black || old(color[v]) == Gray
    {
      hide Tally, Count, CyclicChildren, In, Reach, ScanColors, Settled;
      var stack := [root];
      ScanFacts(kids, cyclic, ext, alive, color, s);
      SettledStill(kids, cyclic, color, color, s, [], stack);
      while stack != []
        invariant Scanning(s) && Settled(kids, cyclic, color, s, stack)
        invariant forall t :: t in stack ==> t in s
        invariant forall v :: 0 <= v < |kids| ==>
                  color[v] == old(color[v]) || color[v] == Black || old(color[v]) == Gray
        invariant forall v :: 0 <= v < |kids| && v !in alive ==> count[v] == old(count[v])
        invariant color[root] != Gray || root in stack
        decreases Colored(color, Gray), |stack|
      {
        ghost var color0, stack0 := color, stack;
        var x := stack[|stack| - 1];
        Pop(stack);
        stack := stack[..|stack| - 1];
        ScanFacts(kids, cyclic, ext, alive, color, s);
        if color[x] != Gray {
          SettledStill(kids, cyclic, color, color, s, stack0, stack);
          continue;
        }
        HiddenIsOutside(kids, cyclic, ext, count, alive, s, NotBlack(color, s), x);
        assert x in Colored(color, Gray);
        if count[x] > 0 {
          ScanBlack(x, s);
          SettledStill(kids, cyclic, color0, color, s, stack0, stack);
        } else {
          Whiten(kids, cyclic, ext, alive, color, s, x, stack0);
          color := color[x := White];
          stack := stack + CyclicChildren(kids[x], cyclic);
        }
        assert x !in Colored(color, Gray);
      }
    }

    // ── Blocks ────────────────────────────────────────────────────────────────

    /** Sizes, and what the kind of a value says about its children. */
    ghost predicate Shape()
      reads `kids, `cyclic, `alive, `holder, `count, `color, `buffered, `dead, `ext
    {
      && Blocks(kids, cyclic, alive) && Closed(kids, alive)
      && |holder| == |count| == |color| == |buffered| == |dead| == |ext| == |kids|
      && Kinds(kids, cyclic, holder)
    }

    /** Every block is in one place: alive, being torn down (`open`), destroyed but still listed
        as a root, or given back, now or at the end of the epoch. */
    ghost predicate Places(listed: set<nat>, open: set<nat>)
      reads `cyclic, `alive, `buffered, `dead, `gone, `freed, `deferred, `epoch
    {
      && Partition(cyclic, buffered, dead, alive, open, listed, gone)
      && Ledger(freed, deferred, gone)
      && (epoch == 0 ==> deferred == [])
    }

    /** Counts in the middle of a release: the references in `rest` are still to be given back,
        and the values in `zero` are those without any other. */
    ghost predicate Counted(all: set<nat>, hidden: set<nat>, rest: seq<nat>, zero: set<nat>)
      reads `kids, `cyclic, `alive, `count, `ext, `limbo
    {
      && Tally(kids, cyclic, ext, count, all, hidden, rest)
      && (forall v :: v in rest ==> v in alive)
      && zero <= alive <= all
      && ZeroOnly(ext, count, alive, zero, limbo)
    }

    method Dealloc(x: nat, ghost listed: set<nat>, ghost open: set<nat>)
      requires Places(listed, open) && x in open && x !in listed
      modifies `gone, `freed, `deferred
      ensures Places(listed, open - {x})
    {
      hide Distinct, Elems, Partition, Ledger;
      PartitionFree(cyclic, buffered, dead, alive, open, listed, gone, x);
      LedgerMore(freed, deferred, gone, x);
      gone := gone + {x};
      if epoch != 0 {
        deferred := deferred + [x];
      } else {
        freed := freed + [x];
      }
    }

    /** Gives back one reference to a value that holds none itself. */
    method ReleaseLeaf(t: nat, ghost listed: set<nat>, ghost open: set<nat>, ghost all: set<nat>,
          ghost hidden: set<nat>, ghost rest: seq<nat>, ghost zero: set<nat>)
      requires Shape() && Places(listed, open) && Counted(all, hidden, [t] + rest, zero)
      requires t < |kids| && !cyclic[t] && (forall v :: v in all ==> v < |kids|)
      modifies `count, `alive, `gone, `freed, `deferred
      ensures Shape() && Places(listed, open) && Counted(all - (old(alive) - alive), hidden, rest, zero)
      ensures alive == old(alive) || (alive == old(alive) - {t} && kids[t] == [])
      ensures t !in alive ==> ext[t] == 0 && In(kids, all, t) == 0
      ensures t in old(alive) && t !in zero
    {
      hide Tally, Count, In, Distinct, Partition, Ledger, Kinds, InRange;
      assert t in [t] + rest;
      LeafStep(kids, cyclic, ext, count, all, hidden, t, rest);
      InZero(kids, all, t);
      count := count[t := count[t] - 1];
      assert all - {} == all;
      if count[t] == 0 {
        PartitionOpen(cyclic, buffered, dead, alive, open, listed, gone, t);
        alive := alive - {t};
        Dealloc(t, listed, open + {t});
        assert open + {t} - {t} == open;
        assert old(alive) - alive == {t};
      } else {
        assert old(alive) - alive == {};
      }
    }

    // ── Giving references back ────────────────────────────────────────────────

    ghost predicate Colors()
      reads `alive, `color, `buffered
    {
      Tinted(alive, color, buffered)
    }

    ghost predicate Rooted(open: set<nat>)
      reads `kids, `cyclic, `alive, `holder, `count, `color, `buffered, `dead, `ext, `gone, `freed, `deferred, `epoch,
        `roots, `candidates, `limbo, `taken
    {
      && Shape() && Places(candidates, open) && Distinct(roots) && Colors()
      && candidates == Elems(roots) + taken && limbo <= open && Elems(roots) !! limbo && Elems(roots) !! taken
    }

    lemma RootedMeans(open: set<nat>)
      requires Rooted(open)
      ensures |holder| == |count| == |color| == |buffered| == |dead| == |ext| == |kids| == |cyclic|
      ensures Blocks(kids, cyclic, alive) && Closed(kids, alive) && Kinds(kids, cyclic, holder)
      ensures Partition(cyclic, buffered, dead, alive, open, candidates, gone) && Ledger(freed, deferred, gone)
      ensures (epoch == 0 ==> deferred == []) && Distinct(roots) && Tinted(alive, color, buffered)
      ensures candidates == Elems(roots) + taken && limbo <= open && Elems(roots) !! limbo && Elems(roots) !! taken
      ensures InRange(kids) && forall v :: v in alive ==> v < |kids|
    {
    }

    lemma RootedHolds(open: set<nat>)
      requires |holder| == |count| == |color| == |buffered| == |dead| == |ext| == |kids| == |cyclic|
      requires Blocks(kids, cyclic, alive) && Closed(kids, alive) && Kinds(kids, cyclic, holder)
      requires Partition(cyclic, buffered, dead, alive, open, candidates, gone) && Ledger(freed, deferred, gone)
      requires (epoch == 0 ==> deferred == []) && Distinct(roots) && Tinted(alive, color, buffered)
      requires candidates == Elems(roots) + taken && limbo <= open && Elems(roots) !! limbo && Elems(roots) !! taken
      ensures Rooted(open)
    {
    }

    lemma CountedMeans(all: set<nat>, hidden: set<nat>, rest: seq<nat>, zero: set<nat>)
      requires Counted(all, hidden, rest, zero)
      ensures Tally(kids, cyclic, ext, count, all, hidden, rest) && ZeroOnly(ext, count, alive, zero, limbo)
      ensures (forall v :: v in rest ==> v in alive) && zero <= alive <= all
    {
    }

    lemma CountedHolds(all: set<nat>, hidden: set<nat>, rest: seq<nat>, zero: set<nat>)
      requires Tally(kids, cyclic, ext, count, all, hidden, rest) && ZeroOnly(ext, count, alive, zero, limbo)
      requires (forall v :: v in rest ==> v in alive) && zero <= alive <= all
      ensures Counted(all, hidden, rest, zero)
    {
    }

    method PossibleRoot(v: nat)
      requires v < |color| && v < |buffered| && (buffered[v] ==> v in candidates)
      modifies `color, `buffered, `roots, `due, `candidates
      ensures |color| == |old(color)| && |buffered| == |old(buffered)|
      ensures color == old(color)[v := Purple] && buffered == old(buffered)[v := true]
      ensures candidates == old(candidates) + {v}
      ensures roots == if old(buffered[v]) then old(roots) else old(roots) + [v]
      ensures due == (old(due) || (!old(buffered[v]) && |roots| >= limit))
    {
      if buffered[v] && color[v] == Purple {
        return;
      }
      color := color[v := Purple];
      var previous := buffered[v];
      buffered := buffered[v := true];
      candidates := candidates + {v};
      if previous {
        return;
      }
      roots := roots + [v];
      if |roots| >= limit {
        due := true;
      }
    }

    /** Listing a value that can be part of a cycle keeps the heap in order. */
    method ListRoot(v: nat, ghost open: set<nat>)
      requires Rooted(open) && v in alive && cyclic[v]
      modifies `color, `buffered, `roots, `due, `candidates
      ensures Rooted(open)
      ensures v < |old(buffered)| && buffered == old(buffered)[v := true]
      ensures roots == if old(buffered[v]) then old(roots) else old(roots) + [v]
      ensures due == (old(due) || (!old(buffered[v]) && |roots| >= limit))
    {
      hide *;
      RootedMeans(open);
      PartitionList(cyclic, buffered, dead, alive, open, candidates, gone, v);
      TintedPurple(alive, color, buffered, v);
      ListedOnce(roots, taken, limbo, candidates, v);
      PossibleRoot(v);
      RootedHolds(open);
    }

    /** One reference to `t` less in its count. */
    method LowerCount(t: nat, ghost open: set<nat>)
      requires Rooted(open) && t < |count|
      modifies `count
      ensures Rooted(open) && |count| == |old(count)| && count == old(count)[t := old(count[t]) - 1]
    {
      hide *;
      RootedMeans(open);
      count := count[t := count[t] - 1];
      RootedHolds(open);
    }

    /** One reference to `t` less; a value still shared that can hold references is listed. */
    method Lower(t: nat, ghost open: set<nat>)
      requires Rooted(open) && t in alive && t < |count|
      modifies `count, `color, `buffered, `roots, `due, `candidates
      ensures Rooted(open) && |count| == |old(count)| && count == old(count)[t := old(count[t]) - 1]
      ensures t < |cyclic| == |holder| == |buffered| == |old(buffered)| && Keeps(old(buffered), buffered)
      ensures var lists := cyclic[t] && count[t] > 0 && holder[t];
        && (lists ==> buffered[t])
        && roots == (if lists && !old(buffered[t]) then old(roots) + [t] else old(roots))
        && due == (old(due) || (lists && !old(buffered[t]) && |roots| >= limit))
    {
      hide *;
      RootedMeans(open);
      KeepsAll(buffered);
      if cyclic[t] && count[t] > 1 && holder[t] {
        KeepsOne(buffered, t);
        ListRoot(t, open);
      }
      LowerCount(t, open);
    }

    method ReleaseCyclic(t: nat, stack: seq<nat>, ghost open: set<nat>, ghost rest: seq<nat>) returns (stack': seq<nat>)
      requires Rooted(open) && Counted(alive, {}, [t] + rest, Elems(stack)) && Distinct(stack)
      requires t < |cyclic| && cyclic[t]
      modifies `count, `color, `buffered, `roots, `due, `candidates
      ensures Rooted(open) && Counted(alive, {}, rest, Elems(stack')) && Distinct(stack')
      ensures forall v :: v in Elems(stack) ==> v in Elems(stack')
      ensures forall v :: v in Elems(stack') ==> v == t || v in Elems(stack)
      ensures t in alive && t < |ext| && t < |kids| && t < |buffered| && t < |holder|
      ensures t in Elems(stack') || buffered[t] || !holder[t]
      ensures t in Elems(stack') ==> ext[t] == 0 && In(kids, alive, t) == 0
      ensures Keeps(old(buffered), buffered)
    {
      hide *;
      stack' := stack;
      assert t in [t] + rest;
      RootedMeans(open);
      CountedMeans(alive, {}, [t] + rest, Elems(stack));
      CyclicStep(kids, cyclic, ext, count, alive, t, rest);
      Push(stack, t);
      ZeroOnlyLess(ext, count, alive, Elems(stack), limbo, t);
      Lower(t, open);
      if count[t] == 0 {
        stack' := stack + [t];
      }
      CountedHolds(alive, {}, rest, Elems(stack'));
    }

    method ReleaseChild(t: nat, stack: seq<nat>, ghost open: set<nat>, ghost rest: seq<nat>) returns (stack': seq<nat>)
      requires Rooted(open) && Counted(alive, {}, [t] + rest, Elems(stack)) && Distinct(stack)
      modifies `count, `alive, `gone, `freed, `deferred, `color, `buffered, `roots, `due, `candidates
      ensures Rooted(open) && Counted(alive, {}, rest, Elems(stack')) && Distinct(stack')
      ensures alive == old(alive) || (alive == old(alive) - {t} && kids[t] == [])
      ensures forall v :: v in Elems(stack) ==> v in Elems(stack')
      ensures forall v :: v in Elems(stack') ==> v == t || v in Elems(stack)
      ensures t in alive ==> t in Elems(stack') || buffered[t] || !holder[t]
      ensures t < |ext| && t < |kids|
      ensures t in old(alive)
      ensures t !in alive || t in Elems(stack') ==> ext[t] == 0 && In(kids, old(alive), t) == 0
      ensures Keeps(old(buffered), buffered)
    {
      hide Tally, Count, In, Distinct, Partition, Ledger, Tinted, ZeroOnly, Elems;
      stack' := stack;
      assert t in [t] + rest;
      if !cyclic[t] {
        ReleaseLeaf(t, candidates, open, alive, {}, rest, Elems(stack));
        assert old(alive) - (old(alive) - alive) == alive;
        TintedStill(old(alive), alive, color, buffered);
      } else {
        stack' := ReleaseCyclic(t, stack, open, rest);
      }
    }

    lemma Sizes(open: set<nat>)
      requires Rooted(open)
      ensures |holder| == |count| == |color| == |buffered| == |dead| == |ext| == |kids| == |cyclic|
      ensures InRange(kids) && forall v :: v in alive ==> v < |kids|
    {
    }

    lemma RootsAreBuffered(open: set<nat>)
      requires Rooted(open)
      ensures |buffered| == |kids| && forall v :: v in candidates <==> 0 <= v < |kids| && buffered[v]
    {
    }

    lemma ZeroAlive(rest: seq<nat>, zero: set<nat>)
      requires Counted(alive, {}, rest, zero)
      ensures zero <= alive
    {
    }

    /** The references of the unreferenced value `x` are from now on references to give back. */
    ghost method Detach(x: nat, stack: seq<nat>)
      requires Rooted(limbo) && Counted(alive, {}, [], Elems(stack) + {x}) && x in alive && x !in stack
      modifies `alive
      ensures alive == old(alive) - {x} && x !in limbo
      ensures Rooted(limbo + {x}) && x < |kids| && Counted(alive, {}, kids[x], Elems(stack))
    {
      hide Tally, Count, In, Distinct, Partition, Ledger;
      TallyOpen(kids, cyclic, ext, count, alive, x);
      PartitionOpen(cyclic, buffered, dead, alive, limbo, candidates, gone, x);
      alive := alive - {x};
      assert Elems(stack) + {x} - {x} == Elems(stack);
    }

    /** Marks the block of a value whose references are given back, and frees it unless it is
        listed as a root: the collector will. */
    method Bury(x: nat)
      requires Rooted(limbo + {x}) && x !in limbo
      modifies `gone, `freed, `deferred, `dead
      ensures Rooted(limbo)
    {
      hide Tally, Count, In, Distinct, Partition, Ledger;
      PartitionDead(cyclic, buffered, dead, alive, limbo + {x}, candidates, gone, x);
      assert limbo + {x} - {x} == limbo;
      if cyclic[x] {
        dead := dead[x := true];
      }
      if !cyclic[x] || !buffered[x] {
        Dealloc(x, candidates, limbo + {x});
      }
    }

    /** Tears `x` down: gives back its references, then its block unless it is listed. */
    method TearDown(x: nat, stack: seq<nat>, ghost start: set<nat>) returns (stack': seq<nat>)
      requires Rooted(limbo) && Counted(alive, {}, [], Elems(stack) + {x}) && Distinct(stack) && x in alive
      requires x !in stack
      requires alive <= start && Doomed(kids, ext, start, start - alive + Elems(stack) + {x})
      modifies `count, `alive, `gone, `freed, `deferred, `color, `buffered, `roots, `due, `candidates, `dead
      ensures Rooted(limbo) && Counted(alive, {}, [], Elems(stack')) && Distinct(stack')
      ensures alive <= old(alive) - {x} && Elems(stack) <= Elems(stack')
      ensures Doomed(kids, ext, start, start - alive + Elems(stack'))
      ensures |holder| == |kids| == |buffered| && Keeps(old(buffered), buffered)
      ensures Stranded(kids, holder, old(alive), alive, Elems(stack'), buffered)
    {
      hide Distinct, Doomed, Rooted, Counted;
      Sizes(limbo);
      stack' := stack;
      Detach(x, stack);
      assert start - alive + Elems(stack) == start - old(alive) + Elems(stack) + {x};
      var ks := kids[x];
      Start(ks);
      for i := 0 to |ks|
        invariant Rooted(limbo + {x}) && Counted(alive, {}, ks[i..], Elems(stack')) && Distinct(stack')
        invariant |buffered| == |kids|
        invariant alive <= old(alive) - {x} && Elems(stack) <= Elems(stack')
        invariant Doomed(kids, ext, start, start - alive + Elems(stack'))
        invariant forall t :: t in ks[..i] && t in alive ==> t in Elems(stack') || buffered[t] || !holder[t]
        invariant forall u :: u in old(alive) && u !in alive && u != x ==> kids[u] == []
        invariant Keeps(old(buffered), buffered)
      {
        assert ks[i..] == [ks[i]] + ks[i + 1..];
        Prefix(ks, i);
        ghost var now, stack0 := alive, stack';
        stack' := ReleaseChild(ks[i], stack', limbo + {x}, ks[i + 1..]);
        Sizes(limbo + {x});
        if ks[i] !in alive || ks[i] in Elems(stack') {
          DoomedStep(kids, ext, start, start - now + Elems(stack0), now, ks[i], start - alive + Elems(stack'));
        } else {
          assert alive == now && Elems(stack') == Elems(stack0);
        }
      }
      StrandedOne(kids, holder, old(alive), x, alive, Elems(stack'), buffered);
      Bury(x);
    }

    /** The values of `start` that are gone, and those in the stack, are all doomed; the rest is
        in order, and each survivor that lost a reference is listed as a root. */
    ghost predicate Torn(stack: seq<nat>, start: set<nat>)
      reads `kids, `cyclic, `alive, `holder, `count, `color, `buffered, `dead, `ext, `gone, `freed, `deferred, `epoch,
        `roots, `candidates, `limbo, `taken
    {
      && Rooted(limbo) && Counted(alive, {}, [], Elems(stack)) && Distinct(stack) && Elems(stack) <= alive <= start
      && |holder| == |kids| == |buffered| && Doomed(kids, ext, start, start - alive + Elems(stack))
      && Stranded(kids, holder, start, alive, Elems(stack), buffered)
    }

    /** Takes the top of the stack and tears it down. */
    method TearNext(stack: seq<nat>, ghost start: set<nat>) returns (stack': seq<nat>)
      requires stack != [] && Torn(stack, start)
      modifies `count, `alive, `gone, `freed, `deferred, `color, `buffered, `roots, `due, `candidates, `dead
      ensures Torn(stack', start) && alive < old(alive) && Keeps(old(buffered), buffered)
      ensures forall u :: u in Elems(stack) && u in alive ==> u in Elems(stack')
    {
      hide Distinct, Doomed, Rooted, Counted, Elems, Stranded, Keeps;
      ghost var alive0, zero, buffered0 := alive, Elems(stack), buffered;
      var x := stack[|stack| - 1];
      Pop(stack);
      stack' := stack[..|stack| - 1];
      assert Elems(stack') + {x} == zero;
      assert start - alive + Elems(stack') + {x} == start - alive + zero;
      stack' := TearDown(x, stack', start);
      StrandedMore(kids, holder, start, alive0, zero, buffered0, alive, Elems(stack'), buffered);
      ZeroAlive([], Elems(stack'));
    }

    /** `v` lost its last reference: destroys it and what only it kept alive. */
    method Destroy(v: nat)
      requires Rooted(limbo) && Counted(alive, {}, [], {v}) && v in alive
      requires Doomed(kids, ext, alive, {v})
      modifies `count, `alive, `gone, `freed, `deferred, `color, `buffered, `roots, `due, `candidates, `dead
      ensures Rooted(limbo) && Counted(alive, {}, [], {})
      ensures alive <= old(alive) - {v}
      ensures Doomed(kids, ext, old(alive), old(alive) - alive)
      ensures |holder| == |kids| == |buffered| && Keeps(old(buffered), buffered)
      ensures Stranded(kids, holder, old(alive), alive, {}, buffered)
    {
      hide Distinct, Doomed, Rooted, Counted, Elems, Stranded, Torn, Keeps;
      Sizes(limbo);
      var stack := [v];
      Push([], v);
      assert [] + [v] == stack && {} + {v} == {v};
      assert alive - alive + {v} == {v};
      NothingStranded(kids, holder, alive, {v}, buffered);
      StartTorn(v);
      KeepsAll(buffered);
      while stack != []
        invariant Torn(stack, old(alive)) && alive <= old(alive) && (v in alive ==> v in Elems(stack))
        invariant Keeps(old(buffered), buffered)
        decreases alive
      {
        ghost var buffered0 := buffered;
        stack := TearNext(stack, old(alive));
        KeepsTwice(old(buffered), buffered0, buffered);
      }
      EndTorn(old(alive));
    }

    lemma StartTorn(v: nat)
      requires Rooted(limbo) && Counted(alive, {}, [], {v}) && v in alive && Elems([v]) == {v} && Distinct([v])
      requires |holder| == |kids| == |buffered| && Doomed(kids, ext, alive, {v})
      requires Stranded(kids, holder, alive, alive, {v}, buffered)
      ensures Torn([v], alive) && v in Elems([v])
    {
      hide Distinct, Doomed, Rooted, Counted, Elems, Stranded;
      assert alive - alive + {v} == {v};
    }

    lemma EndTorn(start: set<nat>)
      requires Torn([], start)
      ensures Rooted(limbo) && Counted(alive, {}, [], {}) && Doomed(kids, ext, start, start - alive)
      ensures |holder| == |kids| == |buffered| && Stranded(kids, holder, start, alive, {}, buffered) && alive <= start
      ensures forall u :: u !in Elems([])
    {
      hide Distinct, Doomed, Rooted, Counted, Stranded;
      Push([], 0);
      assert start - alive + {} == start - alive;
    }

    /** What every operation keeps. */
    ghost predicate Inv()
      reads `kids, `cyclic, `alive, `holder, `count, `color, `buffered, `dead, `ext, `gone, `freed, `deferred, `epoch,
        `roots, `candidates, `limbo, `taken
    {
      Rooted(limbo) && Counted(alive, {}, [], {}) && Covered(kids, ext, alive, candidates)
    }

    lemma InvMeans()
      requires Inv()
      ensures |holder| == |count| == |color| == |buffered| == |dead| == |ext| == |kids| == |cyclic|
      ensures Blocks(kids, cyclic, alive) && Closed(kids, alive) && Kinds(kids, cyclic, holder)
      ensures Partition(cyclic, buffered, dead, alive, limbo, candidates, gone) && Ledger(freed, deferred, gone)
      ensures (epoch == 0 ==> deferred == []) && Distinct(roots) && Tinted(alive, color, buffered)
      ensures candidates == Elems(roots) + taken && limbo <= limbo && Elems(roots) !! limbo && Elems(roots) !! taken
      ensures Tally(kids, cyclic, ext, count, alive, {}, []) && ZeroOnly(ext, count, alive, {}, limbo)
      ensures Covered(kids, ext, alive, candidates)
      ensures InRange(kids) && Rooted(limbo) && forall v :: v in alive ==> v < |kids|
    {
    }

    lemma InvHolds()
      requires |holder| == |count| == |color| == |buffered| == |dead| == |ext| == |kids| == |cyclic|
      requires Blocks(kids, cyclic, alive) && Closed(kids, alive) && Kinds(kids, cyclic, holder)
      requires Partition(cyclic, buffered, dead, alive, limbo, candidates, gone) && Ledger(freed, deferred, gone)
      requires (epoch == 0 ==> deferred == []) && Distinct(roots) && Tinted(alive, color, buffered)
      requires candidates == Elems(roots) + taken && limbo <= limbo && Elems(roots) !! limbo && Elems(roots) !! taken
      requires Tally(kids, cyclic, ext, count, alive, {}, []) && ZeroOnly(ext, count, alive, {}, limbo)
      requires Covered(kids, ext, alive, candidates)
      ensures Inv()
    {
    }

    lemma CoverRelease(v: nat, ext0: seq<nat>, alive0: set<nat>, buffered0: seq<bool>, listed0: set<nat>)
      requires Rooted(limbo) && Counted(alive, {}, [], {})
      requires Blocks(kids, cyclic, alive0) && Closed(kids, alive0) && alive <= alive0
      requires |ext0| == |kids| == |buffered0|
      requires Covered(kids, ext0, alive0, listed0)
      requires v < |kids| && ext == ext0[v := ext[v]] && (v in alive ==> buffered[v] || !holder[v])
      requires forall u :: 0 <= u < |kids| && u !in alive0 ==> ext0[u] == 0
      requires |holder| == |kids| == |buffered| && Stranded(kids, holder, alive0, alive, {}, buffered)
      requires forall v :: v in listed0 && v < |kids| ==> buffered0[v]
      requires Keeps(buffered0, buffered)
      ensures Inv()
      ensures LossClosed(kids, ext, alive0, alive0 - alive)
    {
      forall u | u in alive
        ensures ext[u] > 0 || In(kids, alive, u) > 0
      {
        assert count[u] == Owed(kids, cyclic, ext, alive, {}, u) + Count([], u);
        assert alive - {} == alive;
      }
      CoverAfterLoss(kids, cyclic, holder, ext0, ext, alive0, alive, listed0, candidates);
      assert alive0 - (alive0 - alive) == alive;
    }

    /** One reference to `v` from outside the heap less. */
    ghost method GiveUp(v: nat)
      requires Rooted(limbo) && v < |ext| && ext[v] > 0
      modifies `ext
      ensures Rooted(limbo) && |ext| == |old(ext)| && ext == old(ext)[v := old(ext[v]) - 1]
    {
      hide *;
      RootedMeans(limbo);
      ext := ext[v := ext[v] - 1];
      RootedHolds(limbo);
    }

    /** Gives back a reference held from outside the heap; `v` may be left without any. */
    method Decrement(v: nat)
      requires Inv() && v < |ext| && ext[v] > 0
      modifies `count, `color, `buffered, `roots, `due, `candidates, `ext
      ensures Rooted(limbo) && v < |count| && v in alive && ext == old(ext)[v := old(ext[v]) - 1]
      ensures Counted(alive, {}, [], if count[v] == 0 then {v} else {})
      ensures Doomed(kids, ext, alive, if count[v] == 0 then {v} else {})
      ensures |holder| == |kids| == |buffered| == |old(buffered)| == |ext|
      ensures v < |kids| && (count[v] != 0 ==> buffered[v] || !holder[v])
      ensures Keeps(old(buffered), buffered)
      ensures v < |old(count)| && count[v] == old(count[v]) - 1
      ensures roots == if holder[v] && count[v] > 0 && !old(buffered[v]) then old(roots) + [v] else old(roots)
      ensures due == (old(due) || (roots != old(roots) && |roots| >= limit))
    {
      hide *;
      InvMeans();
      HeldIsAlive(v);
      ExtStep(kids, cyclic, ext, count, alive, v);
      HolderCycles(v);
      ZeroOnlyGiven(ext, count, alive, limbo, v);
      Lower(v, limbo);
      GiveUp(v);
      CountedHolds(alive, {}, [], if count[v] == 0 then {v} else {});
    }

    lemma HeldIsAlive(v: nat)
      requires Inv() && v < |ext| && ext[v] > 0
      ensures v in alive
    {
    }

    lemma HolderCycles(v: nat)
      requires Shape() && v < |kids|
      ensures holder[v] ==> cyclic[v]
    {
    }

    /** Gives back a reference held from outside the heap. Destroys exactly the least set that
        contains every value all of whose references come from it. */
    method ReleaseCounted(v: nat)
      requires Inv() && v < |ext| && ext[v] > 0
      modifies `count, `alive, `gone, `freed, `deferred, `color, `buffered, `roots, `due, `candidates, `dead, `ext
      ensures Inv() && ext == old(ext)[v := old(ext[v]) - 1] && alive <= old(alive)
      ensures LossClosed(kids, ext, old(alive), old(alive) - alive)
      ensures Doomed(kids, ext, old(alive), old(alive) - alive)
      ensures v < |old(count)| == |holder| == |old(buffered)|
      ensures old(count[v]) > 1 ==> alive == old(alive)
      ensures old(count[v]) > 1 ==> roots == if holder[v] && !old(buffered[v]) then old(roots) + [v] else old(roots)
      ensures old(count[v]) > 1 ==> due == (old(due) || (roots != old(roots) && |roots| >= limit))
    {
      hide Tally, Count, In, Distinct, Partition, Ledger, Covered, LossClosed, Doomed, Elems, Counted, Stranded, Colors,
        Places;
      RootsAreBuffered(limbo);
      NothingOutside();
      Decrement(v);
      NothingStranded(kids, holder, alive, {}, buffered);
      if count[v] == 0 {
        Destroy(v);
      } else {
        assert old(alive) - alive == {};
      }
      CoverRelease(v, old(ext), old(alive), old(buffered), old(candidates));
    }

    lemma NothingOutside()
      requires Inv()
      ensures |ext| == |kids| && forall u :: 0 <= u < |kids| && u !in alive ==> ext[u] == 0
    {
    }

    // ── Reaping ───────────────────────────────────────────────────────────────

    /** The white values are being collected; `white` are those still to visit and `garbage`
        those visited by the current walk. `start` is what was alive when reaping began. */
    ghost predicate Reaping(start: set<nat>, white: set<nat>, garbage: set<nat>, rest: seq<nat>)
      reads `kids, `cyclic, `alive, `holder, `count, `color, `buffered, `dead, `ext, `gone, `freed, `deferred, `epoch,
        `limbo
    {
      && Shape() && Places({}, white + garbage) && white !! garbage
      && Counted(alive + white, white, rest, {})
      && alive <= start && white <= start && alive !! white
      && (forall u, t :: u in white && u < |kids| && t in kids[u] && t < |kids| && !cyclic[t] ==> t in alive)
      && (forall v :: v in start ==> v < |kids| && color[v] == if v in white then White else Black)
      && (forall v :: 0 <= v < |color| && v !in start ==> color[v] == Purple || color[v] == Black)
      && (forall v :: v in white ==> cyclic[v])
    }

    method Visit(x: nat, ghost start: set<nat>, ghost white: set<nat>, ghost garbage: set<nat>)
      requires Reaping(start, white, garbage, []) && x in white
      modifies `color
      ensures x < |kids| && Reaping(start, white - {x}, garbage + {x}, Leaves(kids[x], cyclic))
    {
      hide Tally, Count, In, Distinct, Partition, Ledger, Leaves;
      TallyReap(kids, cyclic, ext, count, alive, white, x);
      color := color[x := Black];
      assert white - {x} + (garbage + {x}) == white + garbage;
    }

    lemma ReapingFacts(start: set<nat>, white: set<nat>, garbage: set<nat>, rest: seq<nat>)
      requires Reaping(start, white, garbage, rest)
      ensures Shape() && Places({}, white + garbage) && Counted(alive + white, white, rest, {}) && alive !! white
      ensures forall v :: v in alive + white ==> v < |kids|
      ensures |cyclic| == |kids| == |color| == |buffered| && InRange(kids)
      ensures forall v :: v in start ==> v < |kids| && color[v] == if v in white then White else Black
      ensures forall v :: 0 <= v < |color| && v !in start ==> color[v] == Purple || color[v] == Black
      ensures forall v :: 0 <= v < |kids| ==> !buffered[v]
    {
    }

    /** A leaf was given back; `before` is what was alive. */
    lemma ReapingLeaf(start: set<nat>, white: set<nat>, garbage: set<nat>, rest: seq<nat>, before: set<nat>, t: nat)
      requires Shape() && Places({}, white + garbage) && white !! garbage && before !! white
      requires Counted(before + white - (before - alive), white, rest, {})
      requires before <= start && white <= start
      requires forall v :: v in start ==> v < |kids| && color[v] == if v in white then White else Black
      requires forall v :: 0 <= v < |color| && v !in start ==> color[v] == Purple || color[v] == Black
      requires forall v :: v in white ==> cyclic[v]
      requires forall u, t :: u in white && u < |kids| && t in kids[u] && t < |kids| && !cyclic[t] ==> t in before
      requires alive == before || alive == before - {t}
      requires t !in alive ==> In(kids, before + white, t) == 0
      ensures Reaping(start, white, garbage, rest)
    {
      InZero(kids, before + white, t);
      assert before + white - (before - alive) == alive + white;
    }

    /** A value that the visited one referred to and that holds no reference itself loses one. */
    method ReapLeaf(t: nat, ghost rest: seq<nat>, ghost start: set<nat>, ghost white: set<nat>, ghost garbage: set<nat>)
      requires Reaping(start, white, garbage, [t] + rest) && t < |cyclic| && !cyclic[t]
      modifies `count, `alive, `gone, `freed, `deferred
      ensures Reaping(start, white, garbage, rest) && (alive == old(alive) || alive == old(alive) - {t})
    {
      hide Tally, Count, In, Distinct, Elems, Partition, Ledger, Shape, Places, Counted;
      ReapingFacts(start, white, garbage, [t] + rest);
      ReleaseLeaf(t, {}, white + garbage, alive + white, white, rest, {});
      ReapingLeaf(start, white, garbage, rest, old(alive), t);
    }

    method Reap(x: nat, stack: seq<nat>, ghost start: set<nat>, ghost white: set<nat>, ghost garbage: set<nat>)
      returns (stack': seq<nat>)
      requires Reaping(start, white, garbage, []) && x in white
      modifies `count, `alive, `gone, `freed, `deferred, `color
      ensures Reaping(start, white - {x}, garbage + {x}, [])
      ensures forall t :: t in stack' <==> t in stack || (t in kids[x] && t < |cyclic| && cyclic[t])
      ensures alive <= old(alive) && forall v :: v in old(alive) && v < |cyclic| && cyclic[v] ==> v in alive
    {
      hide *;
      ReapingFacts(start, white, garbage, []);
      Visit(x, start, white, garbage);
      var ks := kids[x];
      Start(ks);
      stack' := stack;
      ghost var white', garbage' := white - {x}, garbage + {x};
      ReapingFacts(start, white', garbage', Leaves(ks, cyclic));
      for i := 0 to |ks|
        invariant Reaping(start, white', garbage', Leaves(ks[i..], cyclic))
        invariant forall t :: t in stack' <==> t in stack || (t in ks[..i] && t < |cyclic| && cyclic[t])
        invariant alive <= old(alive) && forall v :: v in old(alive) && v < |cyclic| && cyclic[v] ==> v in alive
      {
        var t := ks[i];
        Prefix(ks, i);
        LeavesStep(ks, i, cyclic);
        if cyclic[t] {
          stack' := stack' + [t];
        } else {
          ReapLeaf(t, Leaves(ks[i + 1..], cyclic), start, white', garbage');
        }
      }
      assert ks[|ks|..] == [];
      LeavesNone(cyclic);
    }

    method Free(garbage: seq<nat>, i: nat, ghost start: set<nat>, ghost white: set<nat>)
      requires i < |garbage| && Distinct(garbage) && Reaping(start, white, Elems(garbage[i..]), [])
      modifies `gone, `freed, `deferred
      ensures Reaping(start, white, Elems(garbage[i + 1..]), [])
    {
      hide Tally, Count, In, Partition, Ledger, Shape, Counted;
      SuffixElems(garbage, i);
      assert white + Elems(garbage[i..]) - {garbage[i]} == white + Elems(garbage[i + 1..]);
      Dealloc(garbage[i], {}, white + Elems(garbage[i..]));
    }

    /** The walks of a collection go on: `first` is what was white before them all. No block is
        deferred meanwhile, and only values without references of their own die beside. */
    ghost predicate Sweeping(start: set<nat>, first: set<nat>, white: set<nat>, garbage: set<nat>)
      reads `kids, `cyclic, `alive, `holder, `count, `color, `buffered, `dead, `ext, `gone, `freed, `deferred, `epoch,
        `limbo
    {
      && Reaping(start, white, garbage, []) && Closed(kids, start) && epoch == 0
      && white <= first <= start && CyclicClosed(kids, cyclic, start - first)
      && (forall v :: v in first ==> v < |cyclic| && cyclic[v])
      && (forall v :: v in start && v < |cyclic| && cyclic[v] ==> (v in alive <==> v !in first))
    }

    lemma SweepingFacts(start: set<nat>, first: set<nat>, white: set<nat>, garbage: set<nat>)
      requires Sweeping(start, first, white, garbage)
      ensures Reaping(start, white, garbage, []) && white <= first <= start
      ensures |cyclic| == |kids| == |color| == |buffered|
      ensures Blocks(kids, cyclic, start) && Closed(kids, start) && forall v :: v in first ==> v < |cyclic| && cyclic[v]
      ensures CyclicClosed(kids, cyclic, start - first) && epoch == 0
      ensures forall v :: v in start && v < |cyclic| && cyclic[v] ==> (v in alive <==> v !in first)
    {
    }

    /** A white value was visited; `before` is what was alive. */
    lemma SweepingStill(start: set<nat>, first: set<nat>, white: set<nat>, garbage: set<nat>, before: set<nat>)
      requires Reaping(start, white, garbage, []) && |cyclic| == |kids| && Closed(kids, start) && epoch == 0
      requires white <= first <= start && CyclicClosed(kids, cyclic, start - first)
      requires forall v :: v in first ==> v < |cyclic| && cyclic[v]
      requires forall v :: v in start && v < |cyclic| && cyclic[v] ==> (v in before <==> v !in first)
      requires alive <= before && forall v :: v in before && v < |cyclic| && cyclic[v] ==> v in alive
      ensures Sweeping(start, first, white, garbage)
    {
      hide Reaping;
    }

    /** A value that a walk meets was given back exactly when an earlier walk visited it. */
    lemma FreedExactly(start: set<nat>, first: set<nat>, white: set<nat>, garbage: set<nat>, x: nat)
      requires Sweeping(start, first, white, garbage) && x in start && x < |cyclic| && cyclic[x]
      ensures x in freed <==> x in first - (white + garbage)
      ensures x < |color| && x < |buffered| && (x in white <==> Word(color[x], buffered[x]) == WHITE_WORD)
    {
      hide Tally, Count, In, Counted, Kinds;
      Push(deferred, 0);
      ElemsIn(freed);
    }

    /** The top of the stack of a walk. */
    lemma WalkTop(start: set<nat>, first: set<nat>, white: set<nat>, root: nat, white': set<nat>, garbage: seq<nat>,
          stack: seq<nat>, looked: bool)
      requires Sweeping(start, first, white', Elems(garbage)) && stack != []
      requires Walking(kids, cyclic, start, first, white, root, white', Elems(garbage), stack, looked)
      ensures var x := stack[|stack| - 1];
        && x in start && x < |kids| == |cyclic| == |color| == |buffered| && cyclic[x]
        && (x in freed ==> x !in white' && Reach(kids, {root}) * (first - white) != {})
        && (x in white' <==> Word(color[x], buffered[x]) == WHITE_WORD)
        && (x !in white' ==>
              Walking(kids, cyclic, start, first, white, root, white', Elems(garbage), stack[..|stack| - 1],
                looked || x in freed))
    {
      hide Reaping, Reach, Frontier, Elems;
      var x := stack[|stack| - 1];
      Pop(stack);
      SweepingFacts(start, first, white', Elems(garbage));
      FreedExactly(start, first, white', Elems(garbage), x);
      if x !in white' {
        WalkSkip(kids, cyclic, start, first, white, root, white', Elems(garbage), stack, looked);
      }
      if x in freed {
        assert x in Reach(kids, {root}) * (first - white);
      }
    }

    /** Looks at the count word of `x`, wherever its block is now. */
    method ReadWord(x: nat) returns (w: Word)
      requires x < |color| && x < |buffered|
      modifies `clock
      ensures w == if x in freed then junk(x, old(clock)) else Word(color[x], buffered[x])
    {
      w := if x in freed then junk(x, clock) else Word(color[x], buffered[x]);
      clock := clock + 1;
    }

    /** Words found in the place of count words that are no more. */
    ghost predicate Junk(seen: seq<Word>) {
      forall w :: w in seen ==> exists x, n :: junk(x, n) == w
    }

    lemma NoJunk()
      ensures Junk([])
    {
    }

    lemma AllFromJunk(seen: seq<Word>)
      requires Junk(seen) && seen != []
      ensures (forall x, n :: junk(x, n) == WHITE_WORD) ==> WHITE_WORD in seen
    {
      assert seen[0] in seen;
    }

    lemma IsWhite(w: Word)
      ensures w == WHITE_WORD <==> w.color == White && !w.buffered
    {
    }

    lemma JunkMore(seen: seq<Word>, x: nat, n: nat)
      requires Junk(seen)
      ensures Junk(seen + [junk(x, n)])
      ensures WHITE_WORD in seen + [junk(x, n)] <==> WHITE_WORD in seen || junk(x, n) == WHITE_WORD
    {
    }

    /** Visits the white values that references reach from `root`. On its way it looks at the
        words `seen` of values that an earlier walk gave back; when one of them shows white and
        unlisted, the walk would go through a block that is the allocator's, and stops here. */
    method Walk(root: nat, ghost start: set<nat>, ghost first: set<nat>, ghost white: set<nat>)
      returns (ok: bool, garbage: seq<nat>, ghost white': set<nat>, ghost seen: seq<Word>)
      requires Sweeping(start, first, white, {}) && CyclicClosed(kids, cyclic, start - white)
      requires root in start && root < |kids| && cyclic[root]
      modifies `count, `alive, `gone, `freed, `deferred, `color, `clock
      ensures Junk(seen) && (ok <==> WHITE_WORD !in seen)
      ensures seen != [] <==> Reach(kids, {root}) * (first - white) != {}
      ensures ok ==> Distinct(garbage) && Sweeping(start, first, white', Elems(garbage))
      ensures ok ==>
                white' == white - Reach(kids, {root}) && root !in white' && CyclicClosed(kids, cyclic, start - white')
      ensures alive <= old(alive)
    {
      hide *;
      SweepingFacts(start, first, white, {});
      ok, garbage, white', seen := true, [], white, [];
      NoJunk();
      var stack := [root];
      Push([], root);
      WalkStart(kids, cyclic, start, first, white, root);
      while stack != []
        invariant Sweeping(start, first, white', Elems(garbage)) && Distinct(garbage)
        invariant Walking(kids, cyclic, start, first, white, root, white', Elems(garbage), stack, seen != [])
        invariant Junk(seen) && WHITE_WORD !in seen
        invariant alive <= old(alive)
        decreases white', |stack|
      {
        ghost var stack0, before := stack, alive;
        var x := stack[|stack| - 1];
        stack := stack[..|stack| - 1];
        WalkTop(start, first, white, root, white', garbage, stack0, seen != []);
        ghost var now := clock;
        var w := ReadWord(x);
        IsWhite(w);
        if x in freed {
          JunkMore(seen, x, now);
          seen := seen + [w];
        }
        if w.color != White || w.buffered {
          continue;
        }
        if x in freed {
          ok := false;
          return;
        }
        SweepingFacts(start, first, white', Elems(garbage));
        stack := Reap(x, stack, start, white', Elems(garbage));
        SweepingStill(start, first, white' - {x}, Elems(garbage) + {x}, before);
        WalkVisit(kids, cyclic, start, first, white, root, white', Elems(garbage), stack0, seen != [], stack);
        Push(garbage, x);
        garbage := garbage + [x];
        white' := white' - {x};
      }
      SweepingFacts(start, first, white', Elems(garbage));
      WalkEnd(kids, cyclic, start, first, white, root, white', Elems(garbage), seen != []);
    }

    /** Gives back what hangs on `root`. */
    method CollectWhite(root: nat, ghost start: set<nat>, ghost first: set<nat>, ghost white: set<nat>)
      returns (ok: bool, ghost white': set<nat>, ghost seen: seq<Word>)
      requires Sweeping(start, first, white, {}) && CyclicClosed(kids, cyclic, start - white)
      requires root in start && root < |kids| && cyclic[root]
      modifies `count, `alive, `gone, `freed, `deferred, `color, `clock
      ensures Junk(seen) && (ok <==> WHITE_WORD !in seen)
      ensures seen != [] <==> Reach(kids, {root}) * (first - white) != {}
      ensures ok ==> Sweeping(start, first, white', {}) && CyclicClosed(kids, cyclic, start - white')
      ensures ok ==> white' == white - Reach(kids, {root}) && root !in white'
      ensures alive <= old(alive)
    {
      hide Reaping, Reach, Junk;
      var garbage;
      ok, garbage, white', seen := Walk(root, start, first, white);
      if !ok {
        return;
      }
      assert garbage[0..] == garbage;
      for i := 0 to |garbage|
        invariant Sweeping(start, first, white', Elems(garbage[i..])) && alive <= old(alive)
      {
        Free(garbage, i, start, white');
      }
      assert garbage[|garbage|..] == [];
      Push([], root);
    }

    // ── Synchronous collection ────────────────────────────────────────────────

    /** The subgraph below the kept candidates is gray; the candidates still to look at are in
        `rest`, and those listed are among both. */
    ghost predicate Marking(rest: seq<nat>, kept: seq<nat>, listed: set<nat>)
      reads `kids, `cyclic, `alive, `holder, `count, `color, `buffered, `dead, `ext, `gone, `freed, `deferred, `epoch
    {
      && Shape() && Places(listed, {})
      && Hidden(Colored(color, Gray)) && CyclicClosed(kids, cyclic, Colored(color, Gray))
      && (forall v :: v in alive ==> color[v] == Gray || (color[v] == if buffered[v] then Purple else Black))
      && (forall v :: 0 <= v < |color| && v !in alive ==> color[v] == Purple || color[v] == Black)
      && (forall v :: v in alive && color[v] != Gray ==> count[v] > 0)
      && (forall v :: 0 <= v < |count| && v !in alive ==> ext[v] == 0 && count[v] == 0)
      && (forall v :: v in listed ==> v in Elems(kept) || v in Elems(rest))
      && Elems(rest) <= listed
      && Elems(kept) <= Colored(color, Gray) <= Reach(kids, Elems(kept))
    }

    method Unbuffer(v: nat, ghost listed: set<nat>)
      requires Places(listed, {}) && v in listed
      modifies `buffered, `gone, `freed
      ensures Places(listed - {v}, {})
      ensures v < |old(buffered)| && buffered == old(buffered)[v := false]
    {
      hide Partition, Ledger;
      PartitionUnlist(cyclic, buffered, dead, alive, {}, listed, gone, v);
      buffered := buffered[v := false];
      if dead[v] {
        LedgerMore(freed, deferred, gone, v);
        gone, freed := gone + {v}, freed + [v];
      }
    }

    lemma ListedFacts(listed: set<nat>, v: nat)
      requires Places(listed, {}) && v in listed
      ensures v < |cyclic| == |buffered| && cyclic[v] && buffered[v]
    {
    }

    method MarkRoot(rs: seq<nat>, i: nat, kept: seq<nat>, ghost listed: set<nat>) returns (kept': seq<nat>,
          ghost listed': set<nat>)
      requires i < |rs| && Distinct(rs) && Marking(rs[i..], kept, listed)
      modifies `count, `color, `buffered, `gone, `freed
      ensures Marking(rs[i + 1..], kept', listed')
      ensures Colored(old(color), Gray) <= Colored(color, Gray)
      ensures rs[i] in alive ==> rs[i] in Colored(color, Gray)
      ensures kept' == if rs[i] in alive && rs[i] !in Reach(kids, Elems(kept)) then kept + [rs[i]] else kept
    {
      hide Tally, Count, In, Distinct, Partition, Ledger, Elems, Reach;
      var s := rs[i];
      SuffixElems(rs, i);
      ListedFacts(listed, s);
      CyclicInside(kids, cyclic, Colored(color, Gray), Elems(kept));
      if color[s] == Purple && count[s] > 0 {
        MarkGray(s);
        MarkKeeps(kids, cyclic, ext, old(count), count, alive, old(Colored(color, Gray)), Colored(color, Gray));
        Push(kept, s);
        ReachGrow(kids, Elems(kept), {s});
        kept', listed' := kept + [s], listed;
      } else {
        Unbuffer(s, listed);
        kept', listed' := kept, listed - {s};
      }
    }

    /** Marks gray the subgraph below the candidates that may be garbage. The others leave the
        list, and their block is freed if they were destroyed while listed. */
    method MarkRoots(rs: seq<nat>) returns (kept: seq<nat>, ghost listed: set<nat>)
      requires Distinct(rs) && Marking(rs, [], Elems(rs)) && Colored(color, Gray) == {}
      modifies `count, `color, `buffered, `gone, `freed
      ensures Marking([], kept, listed) && kept == KeptRoots(kids, alive, rs)
      ensures forall v :: v in alive && v in Elems(rs) ==> v in Colored(color, Gray)
    {
      hide Elems, Marking, KeptRoots, Reach;
      kept, listed := [], Elems(rs);
      Start(rs);
      KeptRootsNone(kids, alive);
      for i := 0 to |rs|
        invariant Marking(rs[i..], kept, listed) && kept == KeptRoots(kids, alive, rs[..i])
        invariant forall v :: v in alive && v in rs[..i] ==> v in Colored(color, Gray)
      {
        Prefix(rs, i);
        KeptRootsStep(kids, alive, rs, i);
        kept, listed := MarkRoot(rs, i, kept, listed);
      }
      assert rs[|rs|..] == [];
      ElemsIn(rs);
    }

    /** Decides, for the gray subgraph `s` of the kept candidates, what is garbage: white is
        exactly what no member of `s` with a reference from outside reaches. */
    method ScanRoots(kept: seq<nat>, ghost s: set<nat>)
      requires Scanning(s) && s <= Reach(kids, Elems(kept)) && Elems(kept) <= s
      requires forall v :: v in s ==> color[v] == Gray
      modifies `count, `color
      ensures Scanning(s) && |count| == |color| == |kids|
      ensures forall v :: v in s ==> (color[v] == White <==> v !in Reach(kids, Outer(kids, ext, alive, s)))
      ensures forall v :: v in s ==> color[v] == White || color[v] == Black
      ensures forall v :: 0 <= v < |kids| ==> color[v] == old(color[v]) || color[v] == Black || old(color[v]) == Gray
      ensures forall v :: 0 <= v < |kids| && v !in alive ==> count[v] == old(count[v])
    {
      hide Tally, Count, In, Distinct, Reach, Elems;
      for i := 0 to |kept|
        invariant Scanning(s) && Settled(kids, cyclic, color, s, [])
        invariant forall v :: v in kept[..i] ==> v in s && color[v] != Gray
        invariant forall v :: 0 <= v < |kids| ==>
                  color[v] == old(color[v]) || color[v] == Black || old(color[v]) == Gray
        invariant forall v :: 0 <= v < |kids| && v !in alive ==> count[v] == old(count[v])
      {
        Prefix(kept, i);
        ElemsIn(kept);
        Scan(kept[i], s);
      }
      Start(kept);
      ElemsIn(kept);
      AllSettled(kids, cyclic, ext, alive, color, s, Elems(kept));
    }

    /** The kept candidates leave the list. */
    method Unlist(kept: seq<nat>, ghost listed: set<nat>)
      requires Shape() && Places(listed, {}) && Elems(kept) <= alive && listed <= Elems(kept)
      modifies `buffered
      ensures Shape() && Places({}, {})
      ensures |buffered| == |old(buffered)|
      ensures forall v: nat :: v < |buffered| ==> (buffered[v] <==> old(buffered)[v] && v !in kept)
    {
      hide Tally, Count, In, Distinct, Partition, Ledger, Elems;
      ghost var left: set<nat> := listed;
      for i := 0 to |kept|
        invariant Shape() && Places(left, {})
        invariant forall v :: v in left ==> v in listed && v !in kept[..i]
        invariant |buffered| == |old(buffered)|
        invariant forall v: nat :: v < |buffered| ==> (buffered[v] <==> old(buffered)[v] && v !in kept[..i])
      {
        Prefix(kept, i);
        ElemsIn(kept);
        if kept[i] in left {
          PartitionUnlist(cyclic, buffered, dead, alive, {}, left, gone, kept[i]);
        } else {
          PartitionUnlisted(cyclic, buffered, dead, alive, {}, left, gone, kept[i]);
        }
        buffered := buffered[kept[i] := false];
        left := left - {kept[i]};
      }
      Start(kept);
      ElemsIn(kept);
      assert left == {};
    }

    /** The white part of `s` is garbage: from now on only its blocks are left to give back. */
    ghost method Condemn(kept: seq<nat>, s: set<nat>)
      requires Judged(kept, s) && forall v :: v in alive ==> v < |ext| && (ext[v] > 0 || In(kids, alive, v) > 0)
      modifies `alive
      ensures alive == old(alive) - (s - Reach(kids, Outer(kids, ext, old(alive), s)))
      ensures Reaping(old(alive), s - Reach(kids, Outer(kids, ext, old(alive), s)), {}, [])
      ensures Blocks(kids, cyclic, old(alive)) && Closed(kids, old(alive)) && CyclicClosed(kids, cyclic, alive)
      ensures s <= old(alive) && CyclicClosed(kids, cyclic, s) && forall v :: v in s ==> cyclic[v]
      ensures Elems(kept) <= s <= Reach(kids, Elems(kept)) && |cyclic| == |kids|
    {
      hide Tally, Count, In, Distinct, Partition, Ledger, Reach;
      ghost var white := s - Reach(kids, Outer(kids, ext, alive, s));
      assert white == NotBlack(color, s);
      forall v | v in alive && v !in white
        ensures count[v] > 0
      {
        TallyAt(kids, cyclic, ext, count, alive, white, v);
        if cyclic[v] {
          SurvivorHeld(kids, cyclic, ext, alive, s, white, v);
        }
      }
      forall v | v in white
        ensures ext[v] == 0 && count[v] == 0
      {
        HiddenIsOutside(kids, cyclic, ext, count, alive, s, white, v);
      }
      PartitionWhite(cyclic, buffered, dead, alive, gone, white);
      assert alive - white + white == alive && white + {} == white;
      WhiteUnreached(kids, cyclic, ext, alive, s, white);
      alive := alive - white;
    }

    /** Gives back the condemned values, each once: a walk from every kept root. The walks look at
        words of blocks given back exactly when two roots hang on the same white value. */
    method CollectRoots(kept: seq<nat>, ghost start: set<nat>, ghost s: set<nat>, ghost white: set<nat>)
      returns (ok: bool, ghost seen: seq<Word>)
      requires Sweeping(start, white, white, {})
      requires Elems(kept) <= s <= Reach(kids, Elems(kept)) && white <= s <= start && forall v :: v in s ==> cyclic[v]
      modifies `count, `alive, `gone, `freed, `deferred, `color, `clock
      ensures Junk(seen) && (ok <==> WHITE_WORD !in seen)
      ensures ok ==> Reaping(start, {}, {}, []) && (seen != [] <==> Overlap(kids, kept, white))
      ensures !ok ==> Overlap(kids, kept, white)
      ensures alive <= old(alive)
    {
      hide *;
      SweepingFacts(start, white, white, {});
      ElemsIn(kept);
      Start(kept);
      ok, seen := true, [];
      NoJunk();
      ghost var white' := white;
      NoOverlap(kids, white);
      assert kept[..0] == [];
      for i := 0 to |kept|
        invariant Sweeping(start, white, white', {}) && CyclicClosed(kids, cyclic, start - white')
        invariant white' == white - Reach(kids, Elems(kept[..i]))
        invariant Junk(seen) && WHITE_WORD !in seen && (seen != [] <==> Overlap(kids, kept[..i], white))
        invariant forall v :: v in kept[..i] ==> v !in white'
        invariant alive <= old(alive)
      {
        Prefix(kept, i);
        SweepingFacts(start, white, white', {});
        OverlapStep(kids, kept, i, white);
        assert white - white' == white * Reach(kids, Elems(kept[..i]));
        ghost var met;
        ok, white', met := CollectWhite(kept[i], start, white, white');
        JunkJoin(seen, met);
        seen := seen + met;
        if !ok {
          OverlapPrefix(kids, kept, i + 1, white);
          return;
        }
        ReachJoin(kids, kept, i);
      }
      assert kept[..|kept|] == kept;
      SweepingFacts(start, white, white', {});
      NothingWhite(kids, cyclic, start, s, Elems(kept), white');
    }

    lemma JunkJoin(seen: seq<Word>, met: seq<Word>)
      requires Junk(seen) && Junk(met)
      ensures Junk(seen + met) && (WHITE_WORD in seen + met <==> WHITE_WORD in seen || WHITE_WORD in met)
    {
    }

    lemma BeginMarking()
      requires Inv() && limbo == {} && taken == {}
      ensures candidates == Elems(roots) && Distinct(roots)
      ensures Marking(roots, [], Elems(roots)) && Colored(color, Gray) == {}
      ensures forall v :: v in alive ==> v < |kids| && v < |ext| && (ext[v] > 0 || In(kids, alive, v) > 0)
    {
      hide Partition, Ledger, Distinct, Covered;
      assert alive - {} == alive;
      forall v | v in alive
        ensures count[v] > 0 && (ext[v] > 0 || In(kids, alive, v) > 0)
      {
        TallyAt(kids, cyclic, ext, count, alive, {}, v);
      }
      var none: set<nat> := {};
      assert Colored(color, Gray) == none;
      Push([], 0);
      assert Elems([]) == none && Elems(roots) + none == Elems(roots) && candidates == Elems(roots);
    }

    lemma BeginScanning(kept: seq<nat>, listed: set<nat>)
      requires Marking([], kept, listed)
      ensures Shape() && Places(listed, {}) && Scanning(Colored(color, Gray))
      ensures listed <= Elems(kept) <= Colored(color, Gray) <= Reach(kids, Elems(kept))
      ensures forall v :: 0 <= v < |kids| && v !in alive ==>
                ext[v] == 0 && count[v] == 0 && (color[v] == Purple || color[v] == Black)
    {
      hide Tally, Count, In, Distinct, Reach;
      assert NotBlack(color, Colored(color, Gray)) == Colored(color, Gray);
    }

    /** Nothing white and no garbage is left: what a reaped heap says of its sets. */
    lemma ReapingDone(start: set<nat>)
      requires Reaping(start, {}, {}, [])
      ensures Shape() && Places({}, {}) && Counted(alive, {}, [], {}) && Tinted(alive, color, buffered)
    {
      hide Tally, Count, In, Distinct, Elems, Partition, Ledger, Shape, Counted, Places;
      var none: set<nat> := {};
      assert alive + none == alive && none + none == none;
      ReapingFacts(start, {}, {}, []);
      ReapedColors(start);
    }

    lemma ReapedColors(start: set<nat>)
      requires Reaping(start, {}, {}, [])
      ensures Tinted(alive, color, buffered)
    {
      hide Tally, Count, In, Distinct, Elems, Ledger, Shape, Counted;
    }

    lemma EndCollection(start: set<nat>)
      requires Reaping(start, {}, {}, []) && roots == [] && candidates == taken == limbo == {}
      ensures Rooted({}) && Counted(alive, {}, [], {}) && Closed(kids, alive)
      ensures forall v :: 0 <= v < |kids| && v !in alive ==> v < |ext| && ext[v] == 0
      ensures forall v :: v in alive ==> v < |ext| && v < |kids| && (ext[v] > 0 || In(kids, alive, v) > 0)
    {
      hide Tally, Count, In, Distinct, Elems, Partition, Ledger, Reaping, Kinds;
      ReapingDone(start);
      Push([], 0);
      forall v | v in alive
        ensures ext[v] > 0 || In(kids, alive, v) > 0
      {
        TallyAt(kids, cyclic, ext, count, alive, {}, v);
        assert alive - {} == alive;
      }
    }

    /** What trial deletion found out: white is what members of the subgraph `s` below `kept` that
        are held from outside it do not reach. */
    ghost predicate Judged(kept: seq<nat>, s: set<nat>)
      reads `kids, `cyclic, `alive, `holder, `count, `color, `buffered, `dead, `ext, `gone, `freed, `deferred, `epoch
    {
      && Shape() && Places({}, {}) && Scanning(s) && |color| == |kids| == |ext|
      && Elems(kept) <= s <= Reach(kids, Elems(kept))
      && (forall v :: v in s ==>
            (color[v] == White <==> v !in Reach(kids, Outer(kids, ext, alive, s))) &&
                  (color[v] == White || color[v] == Black))
      && (forall v :: 0 <= v < |kids| && v !in alive ==>
            ext[v] == 0 && count[v] == 0 && (color[v] == Purple || color[v] == Black))
    }

    /** The first half of a collection: finds out what is garbage. */
    method Judge(rs: seq<nat>) returns (kept: seq<nat>, ghost s: set<nat>)
      requires Marking(rs, [], Elems(rs)) && Distinct(rs) && Colored(color, Gray) == {}
      modifies `count, `color, `buffered, `gone, `freed
      ensures Judged(kept, s) && kept == KeptRoots(kids, alive, rs)
      ensures forall v :: v in alive && v in Elems(rs) ==> v in s
    {
      hide Tally, Count, In, Distinct, Reach, Elems, Marking, Scanning, Places, KeptRoots;
      ghost var listed;
      kept, listed := MarkRoots(rs);
      BeginScanning(kept, listed);
      s := Colored(color, Gray);
      ScanRoots(kept, s);
      ScanningFacts(s);
      Unlist(kept, listed);
    }

    lemma ScanningFacts(s: set<nat>)
      requires Scanning(s)
      ensures |count| == |color| == |kids| && s <= alive
    {
    }

    /** Trial deletion: afterwards the heap holds exactly what references from outside reach, and
        every other block was given back once. Its walks look at words of blocks given back
        exactly when two roots hang on the same garbage; unless such a word shows white and
        unlisted, when the collection goes wrong (`!ok`), that is harmless. */
    method CollectExclusive() returns (ok: bool, ghost seen: seq<Word>)
      requires Inv() && limbo == {} && taken == {} && epoch == 0
      modifies `count, `alive, `gone, `freed, `deferred, `color, `buffered, `roots, `candidates, `limit, `clock
      ensures Junk(seen) && (ok <==> WHITE_WORD !in seen)
      ensures seen != [] <==> SharedGarbage(kids, cyclic, ext, KeptRoots(kids, old(alive), old(roots)))
      ensures ok ==> Inv() && roots == [] && candidates == {} && alive <= old(alive) && limit >= ROOTS_THRESHOLD
      ensures ok ==> alive == Reach(kids, Held(ext))
      ensures ok ==> Distinct(freed) && forall v :: 0 <= v < |kids| ==> (v in freed <==> v !in Reach(kids, Held(ext)))
    {
      hide *;
      BeginMarking();
      InvTally();
      ghost var listed: set<nat> := candidates;
      var rs := roots;
      roots, candidates := [], {};
      var kept;
      ghost var s;
      kept, s := Judge(rs);
      var live := StillBlack(kept, color);
      ok, seen := CollectJudged(kept, s, listed);
      if !ok {
        return;
      }
      limit := if live * 2 > ROOTS_THRESHOLD then live * 2 else ROOTS_THRESHOLD;
      ExactlyCovered(kids, ext, alive, candidates);
      NoneListed();
    }

    /** The second half of a collection: gives the white values back. */
    method CollectJudged(kept: seq<nat>, ghost s: set<nat>, ghost listed: set<nat>)
      returns (ok: bool, ghost seen: seq<Word>)
      requires Judged(kept, s) && forall v :: v in alive ==> v < |ext| && (ext[v] > 0 || In(kids, alive, v) > 0)
      requires roots == [] && candidates == taken == limbo == {} && epoch == 0
      requires Covered(kids, ext, alive, listed) && alive * listed <= s
      requires |ext| == |kids| && forall v :: 0 <= v < |kids| && v !in alive ==> ext[v] == 0
      modifies `count, `alive, `gone, `freed, `deferred, `color, `clock
      ensures Junk(seen) && (ok <==> WHITE_WORD !in seen)
      ensures seen != [] <==> SharedGarbage(kids, cyclic, ext, kept)
      ensures ok ==> Rooted({}) && Counted(alive, {}, [], {}) && alive == Reach(kids, Held(ext))
      ensures alive <= old(alive)
    {
      hide *;
      ghost var start: set<nat> := alive;
      ghost var white: set<nat> := s - Reach(kids, Outer(kids, ext, start, s));
      Condemn(kept, s);
      BeginSweeping(start, s, white);
      SharedExactly(kids, cyclic, ext, start, listed, s, white, kept);
      ok, seen := CollectRoots(kept, start, s, white);
      if !ok {
        return;
      }
      EndCollection(start);
      CollectedExactly(kids, cyclic, ext, start, listed, s, white, alive);
    }

    lemma BeginSweeping(start: set<nat>, s: set<nat>, white: set<nat>)
      requires Reaping(start, white, {}, []) && Closed(kids, start) && epoch == 0 && alive == start - white
      requires |cyclic| == |kids| && CyclicClosed(kids, cyclic, alive) && white <= s
      requires forall v :: v in s ==> v < |cyclic| && cyclic[v]
      ensures Sweeping(start, white, white, {})
    {
      hide Shape, Places, Counted, Closed;
    }

    lemma NoneListed()
      requires Rooted({}) && Counted(alive, {}, [], {}) && Covered(kids, ext, alive, candidates)
      requires candidates == limbo == {} && epoch == 0
      ensures Inv() && Distinct(freed) && forall v :: 0 <= v < |kids| ==> (v in freed <==> v !in alive)
    {
      hide Tally, Count, In, Counted, Kinds;
      Push(deferred, 0);
      ElemsIn(freed);
    }

    // ── What compiled code does to the heap ───────────────────────────────────

    constructor (junk: (nat, nat) -> Word)
      ensures Inv() && Idle() && !collecting && kids == [] && cyclic == [] && holder == [] && ext == []
      ensures this.junk == junk && alive == {} && roots == [] && !due && limit == ROOTS_THRESHOLD
    {
      this.junk, clock := junk, 0;
      kids, cyclic, holder, count, color, buffered, dead := [], [], [], [], [], [], [];
      roots, limit, due, collecting, epoch := [], ROOTS_THRESHOLD, false, false, 0;
      deferred, freed := [], [];
      ext, alive, gone, candidates, taken, limbo := [], {}, {}, {}, {}, {};
    }

    /** A block with count 1, black, without children. */
    method NewBlock(canCycle: bool, mayHold: bool)
      modifies `kids, `cyclic, `holder, `count, `color, `buffered, `dead, `ext, `alive
      ensures kids == old(kids) + [[]] && cyclic == old(cyclic) + [canCycle] && holder == old(holder) + [mayHold]
      ensures count == old(count) + [1] && color == old(color) + [Black]
      ensures buffered == old(buffered) + [false] && dead == old(dead) + [false]
      ensures ext == old(ext) + [1] && alive == old(alive) + {old(|kids|)}
    {
      ext, alive := ext + [1], alive + {|kids|};
      kids, cyclic, holder := kids + [[]], cyclic + [canCycle], holder + [mayHold];
      count, color, buffered, dead := count + [1], color + [Black], buffered + [false], dead + [false];
    }

    /** A fresh value, with the one reference its creator holds. */
    method Alloc(canCycle: bool, mayHold: bool) returns (v: nat)
      requires Inv() && (mayHold ==> canCycle)
      modifies `kids, `cyclic, `holder, `count, `color, `buffered, `dead, `ext, `alive
      ensures Inv() && v == old(|kids|) && kids == old(kids) + [[]] && ext == old(ext) + [1]
      ensures alive == old(alive) + {v}
      ensures cyclic == old(cyclic) + [canCycle] && holder == old(holder) + [mayHold]
    {
      hide Tally, Count, In, Distinct, Covered, Partition, Ledger, Kinds, Closed, Elems, Tinted, ZeroOnly, Blocks,
        InRange;
      v := |kids|;
      GrowStep(kids, cyclic, ext, count, alive, candidates, canCycle);
      PlacesGrow(kids, cyclic, holder, buffered, dead, alive, limbo, candidates, gone, canCycle, mayHold);
      FreshValue(ext, count, alive, limbo, color, buffered);
      NewBlock(canCycle, mayHold);
    }

    method Retain(v: nat)
      requires Inv() && v in alive
      modifies `count, `ext
      ensures Inv() && v < |old(ext)| && ext == old(ext)[v := old(ext[v]) + 1]
    {
      hide Tally, Count, In, Distinct, Partition, Ledger, Covered;
      RetainStep(kids, cyclic, ext, count, alive, candidates, v);
      count := count[v := count[v] + 1];
      ext := ext[v := ext[v] + 1];
    }

    /** Moves a reference to `v` that the program holds into the container `u` it also holds. */
    method Store(u: nat, v: nat)
      requires Inv() && u in alive && v in alive && u < |kids| && v < |kids|
      requires ext[v] > 0 && ext[v := ext[v] - 1][u] > 0
      requires if cyclic[v] then holder[u] else cyclic[u]
      modifies `kids, `ext
      ensures Inv() && kids == old(kids)[u := old(kids[u]) + [v]] && ext == old(ext)[v := old(ext[v]) - 1]
    {
      hide Tally, Count, In, Distinct, Partition, Ledger, Covered;
      StoreStep(kids, cyclic, ext, count, alive, candidates, u, v);
      kids := kids[u := kids[u] + [v]];
      ext := ext[v := ext[v] - 1];
    }

    /** Moves the reference number `i` of the container `u` out of it, to the program. */
    method Take(u: nat, i: nat) returns (v: nat)
      requires Inv() && u in alive && u < |kids| && i < |kids[u]|
      modifies `kids, `ext
      ensures Inv() && v == old(kids[u][i]) && v < |old(ext)|
      ensures kids == old(kids)[u := old(kids[u])[..i] + old(kids[u])[i + 1..]] && ext == old(ext)[v := old(ext[v]) + 1]
    {
      hide Tally, Count, In, Distinct, Partition, Ledger, Covered;
      v := kids[u][i];
      TakeStep(kids, cyclic, ext, count, alive, candidates, u, i);
      kids := kids[u := kids[u][..i] + kids[u][i + 1..]];
      ext := ext[v := ext[v] + 1];
    }

    /** No collection is going on. */
    ghost predicate Idle()
      reads `taken, `limbo, `epoch, `collecting
    {
      !collecting ==> taken == {} && limbo == {} && epoch == 0
    }

    lemma IdleMeans()
      ensures Idle() <==> (!collecting ==> taken == {} && limbo == {} && epoch == 0)
    {
    }

    /** Only one collection at a time; here the caller is the only thread running. */
    method CollectCycles() returns (ok: bool, ghost seen: seq<Word>)
      requires Inv() && Idle()
      modifies `count, `alive, `gone, `freed, `deferred, `color, `buffered, `roots, `candidates, `limit, `collecting,
        `clock
      ensures Junk(seen) && (ok <==> WHITE_WORD !in seen)
      ensures seen != [] <==>
                !old(collecting) && SharedGarbage(kids, cyclic, ext, KeptRoots(kids, old(alive), old(roots)))
      ensures ok ==> Inv() && Idle() && collecting == old(collecting) && alive <= old(alive)
      ensures old(collecting) ==> alive == old(alive) && freed == old(freed)
      ensures ok && !old(collecting) ==> roots == [] && alive == Reach(kids, Held(ext))
    {
      hide *;
      IdleMeans();
      NoJunk();
      ok, seen := true, [];
      if collecting {
        return;
      }
      collecting := true;
      ok, seen := CollectExclusive();
      if !ok {
        return;
      }
      collecting := false;
      IdleMeans();
    }

    /** Gives a reference of the program back, then collects if the list of roots is full: the
        value and its dependants are destroyed, or the whole heap is cleaned. */
    method Release(v: nat) returns (ok: bool, ghost seen: seq<Word>)
      requires Inv() && Idle() && v < |ext| && ext[v] > 0
      modifies `count, `alive, `gone, `freed, `deferred, `color, `buffered, `roots, `due, `candidates, `dead, `ext,
        `limit, `collecting, `clock
      ensures Junk(seen) && (ok <==> WHITE_WORD !in seen) && (old(collecting) ==> ok)
      ensures ok ==> Inv() && Idle() && collecting == old(collecting) && !due && alive <= old(alive)
      ensures ext == old(ext)[v := old(ext[v]) - 1]
      ensures ok ==> var lost := old(alive) - alive;
        || alive == Reach(kids, Held(ext))
        || (LossClosed(kids, ext, old(alive), lost) && Doomed(kids, ext, old(alive), lost))
      ensures v < |old(count)| == |holder| == |old(buffered)|
      ensures old(count[v]) > 1 && !old(due) && |old(roots)| + 1 < old(limit) ==>
                && ok && alive == old(alive) && limit == old(limit)
                && roots == if holder[v] && !old(buffered[v]) then old(roots) + [v] else old(roots)
    {
      hide *;
      NoJunk();
      ok, seen := true, [];
      ReleaseCounted(v);
      if due {
        due := false;
        ok, seen := CollectCycles();
      }
    }

    lemma SharedAndUnlisted(v: nat)
      requires Inv() && limbo == {} && taken == {} && v in alive && v !in roots && ext[v] > 0
      requires exists u :: u in alive && u < |kids| && v in kids[u]
      ensures v < |count| == |buffered| && count[v] > 1 && !buffered[v]
    {
      hide Tally, Count, In, Covered, Distinct;
      InvTally();
      TallyAt(kids, cyclic, ext, count, alive, {}, v);
      assert alive - {} == alive;
      InZero(kids, alive, v);
      RootsAreBuffered(limbo);
      ElemsIn(roots);
    }

    // ── Hooks of the concurrent collection ────────────────────────────────────

    /** The list of roots goes to a concurrent collection, bits kept. */
    method TakeRoots() returns (rs: seq<nat>)
      requires Inv() && taken == {}
      modifies `roots, `taken
      ensures Inv() && rs == old(roots) && Distinct(rs) && roots == [] && taken == Elems(rs) == candidates
    {
      hide *;
      InvMeans();
      rs := roots;
      Push([], 0);
      roots, taken := [], Elems(rs);
      InvHolds();
    }

    /** The unreferenced subgraph `d` is about to be freed: its references to other values are
        references from outside the heap until they are given back. */
    ghost method Abandon(d: set<nat>)
      requires Inv() && limbo == {} && d <= alive && Closed(kids, alive - d) && Elems(roots) !! d
      requires forall v :: v in d ==> v < |ext| && ext[v] == 0
      modifies `alive, `limbo, `ext
      ensures Inv() && alive == old(alive) - d && limbo == d
      ensures ext == Surrender(kids, old(ext), old(alive), d)
    {
      hide Tally, Count, In, Distinct, Partition, Ledger, Covered, Surrender;
      Sizes(limbo);
      ghost var ext' := Surrender(kids, ext, alive, d);
      AbandonStep(kids, cyclic, ext, ext', count, alive, candidates, d);
      AbandonPlaces(cyclic, buffered, dead, alive, candidates, gone, d);
      alive, limbo, ext := alive - d, d, ext';
    }

    /** The block of `x` goes back to the allocator, its count word with it. */
    method Erase(x: nat)
      requires x < |buffered| && x < |count|
      modifies `gone, `freed, `limbo, `buffered, `count, `candidates, `taken
      ensures gone == old(gone) + {x} && freed == old(freed) + [x] && limbo == old(limbo) - {x}
      ensures |old(buffered)| == |buffered| && buffered == old(buffered)[x := false]
      ensures |old(count)| == |count| && count == old(count)[x := 0]
      ensures candidates == old(candidates) - {x} && taken == old(taken) - {x}
    {
      gone, freed, limbo := gone + {x}, freed + [x], limbo - {x};
      buffered, count := buffered[x := false], count[x := 0];
      candidates, taken := candidates - {x}, taken - {x};
    }

    /** Frees a block at once. */
    method FreeNow(x: nat)
      requires Inv() && x in limbo
      modifies `gone, `freed, `limbo, `buffered, `count, `candidates, `taken
      ensures Inv() && limbo == old(limbo) - {x} && gone == old(gone) + {x} && x !in old(gone)
      ensures taken == old(taken) - {x}
    {
      hide *;
      InvMeans();
      AbandonDone(cyclic, buffered, dead, alive, limbo, candidates, gone, x);
      ZeroOnlyDone(ext, count, alive, {}, limbo, x);
      TallyOther(kids, cyclic, ext, count, alive, x);
      TintedElsewhere(alive, color, buffered, x);
      assert Elems(roots) + taken - {x} == Elems(roots) + (taken - {x});
      CoverLess(kids, ext, alive, candidates, x);
      LedgerMore(freed, deferred, gone, x);
      Erase(x);
      InvHolds();
    }

    /** A destroyed value leaves the roots that the collection took; its block is freed. */
    method Forget(x: nat)
      requires Inv() && x in taken && x !in limbo && x !in alive
      modifies `gone, `freed, `buffered, `candidates, `taken
      ensures Inv() && gone == old(gone) + {x} && x !in old(gone) && taken == old(taken) - {x}
      ensures freed == old(freed) + [x]
    {
      hide Tally, Count, In, Distinct, Partition, Ledger, Covered, Tinted;
      Sizes(limbo);
      PartitionUnlist(cyclic, buffered, dead, alive, limbo, candidates, gone, x);
      TintedElsewhere(alive, color, buffered, x);
      assert Elems(roots) + taken - {x} == Elems(roots) + (taken - {x});
      CoverLess(kids, ext, alive, candidates, x);
      buffered := buffered[x := false];
      LedgerMore(freed, deferred, gone, x);
      gone, freed := gone + {x}, freed + [x];
      candidates, taken := candidates - {x}, taken - {x};
    }

    /** The roots that may still be garbage go back to the list. */
    method ReturnRoots(kept: seq<nat>)
      requires Inv() && taken == Elems(kept) && Distinct(kept) && Elems(kept) !! limbo
      modifies `roots, `taken, `limit
      ensures Inv() && taken == {} && roots == old(roots) + kept
      ensures limit >= 2 * |kept| && limit >= ROOTS_THRESHOLD && (limit == 2 * |kept| || limit == ROOTS_THRESHOLD)
    {
      hide Tally, Count, In, Partition, Ledger, Covered, Tinted;
      ElemsConcat(roots, kept);
      DistinctConcat(roots, kept);
      var none: set<nat> := {};
      assert Elems(roots) + Elems(kept) + none == Elems(roots) + Elems(kept);
      limit := if |kept| * 2 > ROOTS_THRESHOLD then |kept| * 2 else ROOTS_THRESHOLD;
      roots, taken := roots + kept, {};
    }

    lemma KidsInRange(u: nat, i: nat)
      requires Inv() && u < |kids| && i < |kids[u]|
      ensures kids[u][i] < |kids| == |ext|
    {
    }

    /** A concurrent collection begins: blocks freed from now on are kept until it ends. */
    method BeginEpoch(e: nat)
      requires Inv() && !collecting
      modifies `epoch, `collecting
      ensures Inv() && collecting && epoch == e % 255 + 1
    {
      hide Tally, Count, In, Distinct, Partition, Ledger, Covered, Tinted;
      collecting, epoch := true, e % 255 + 1;
    }

    /** Its survey is over: the blocks kept are given back, each once. */
    method EndEpoch()
      requires Inv()
      modifies `epoch, `deferred, `freed
      ensures Inv() && epoch == 0 && deferred == [] && freed == old(freed + deferred)
    {
      hide Tally, Count, In, Partition, Covered, Tinted, Ledger, Elems, Distinct;
      var kept := deferred;
      epoch, deferred := 0, [];
      for i := 0 to |kept|
        invariant freed == old(freed) + kept[..i] && epoch == 0 && deferred == []
      {
        freed := freed + [kept[i]];
      }
      assert kept[..|kept|] == kept;
      LedgerSettled(old(freed), kept, gone);
    }

    lemma LimboFacts()
      requires Inv()
      ensures forall v :: v in limbo ==> v < |kids|
    {
    }

    lemma CollectingIsIdle()
      requires collecting
      ensures Idle()
    {
    }

    lemma CountsAreNatural()
      requires Inv() && limbo == {}
      ensures InRange(kids) && |kids| == |cyclic| == |count| && forall v :: 0 <= v < |count| ==> count[v] >= 0
    {
      forall v | v in alive
        ensures count[v] >= 0
      {
        TallyAt(kids, cyclic, ext, count, alive, {}, v);
      }
    }

    lemma TakenFacts(v: nat)
      requires Inv() && limbo == {} && v in taken
      ensures v < |kids| == |dead| && cyclic[v] && (dead[v] <==> v !in alive) && v !in Elems(roots)
    {
    }

    lemma AliveCounts()
      requires Inv() && limbo == {}
      ensures |kids| == |cyclic| == |count| && forall v :: v in alive ==> v < |count| && count[v] > 0
    {
      CountsAreNatural();
    }

    lemma InvTally()
      requires Inv()
      ensures Blocks(kids, cyclic, alive) && Closed(kids, alive) && Tally(kids, cyclic, ext, count, alive, {}, [])
      ensures Covered(kids, ext, alive, candidates) && |ext| == |kids|
      ensures forall v :: 0 <= v < |kids| && v !in alive ==> ext[v] == 0
      ensures forall v :: v in alive ==> v < |kids| && (ext[v] > 0 || In(kids, alive, v) > 0)
    {
      forall v | v in alive
        ensures ext[v] > 0 || In(kids, alive, v) > 0
      {
        TallyAt(kids, cyclic, ext, count, alive, {}, v);
        assert alive - {} == alive;
      }
    }
  }

  /** Two values that hold themselves; the second holds the first as well. Both are candidates,
      and a walk from the second meets the first, which a walk of its own gave back. */
  lemma TwoLoopsShare(g: Graph, cyc: seq<bool>, ext: seq<nat>)
    requires g == [[0], [1, 0]] && cyc == [true, true] && ext == [0, 0]
    ensures SharedGarbage(g, cyc, ext, KeptRoots(g, {0, 1}, [0, 1]))
  {
    hide *;
    TwoLoopsKept(g);
    var kept := KeptRoots(g, {0, 1}, [0, 1]);
    ReachContains(g, {0}, 0);
    ReachContains(g, {1}, 1);
    ReachStep(g, {1}, 1, 0);
    NothingHeld(g, ext);
    OverlapAt(g, cyc, ext, kept, 0, 1, 0);
  }

  lemma TwoLoopsKept(g: Graph)
    requires g == [[0], [1, 0]]
    ensures KeptRoots(g, {0, 1}, [0, 1]) == [0, 1]
  {
    hide Reach, KeptRoots;
    ReachLeast(g, {0}, {0});
    KeptTwo(g, {0, 1}, 0, 1);
  }

  lemma KeptTwo(g: Graph, alive: set<nat>, a: nat, b: nat)
    requires a in alive && b in alive && b !in Reach(g, {a})
    ensures KeptRoots(g, alive, [a, b]) == [a, b]
  {
    hide Reach, KeptRoots;
    var rs: seq<nat> := [a, b];
    NoOverlap(g, {});
    KeptRootsNone(g, alive);
    assert rs[..0] == [] && rs[..1] == [a] && rs[..2] == rs;
    KeptRootsStep(g, alive, rs, 0);
    var none: seq<nat> := [];
    assert none + [a] == [a] && [a] + [b] == rs;
    assert Elems(rs[..1]) == {a};
    KeptRootsStep(g, alive, rs, 1);
  }

  lemma NothingHeld(g: Graph, ext: seq<nat>)
    requires forall v :: 0 <= v < |ext| ==> ext[v] == 0
    ensures Reach(g, Held(ext)) == {}
  {
    NoOverlap(g, {});
    assert Held(ext) == Elems([]);
  }

  lemma OverlapAt(g: Graph, cyc: seq<bool>, ext: seq<nat>, kept: seq<nat>, i: nat, j: nat, x: nat)
    requires i < j < |kept| && x < |g| && x < |cyc| && cyc[x] && x !in Reach(g, Held(ext))
    requires x in Reach(g, {kept[i]}) && x in Reach(g, {kept[j]})
    ensures SharedGarbage(g, cyc, ext, kept)
  {
    hide Reach;
    var c := set x: nat | x < |g| && x < |cyc| && cyc[x] && x !in Reach(g, Held(ext));
    assert x in c && Overlap(g, kept, c);
  }

  /** Builds the two loops, drops them the way compiled code does, the one that the other holds
      first, and collects. Whatever is in the blocks given back, the collection looks at it, and
      goes wrong if it shows white and unlisted. */
  method TwoLoops(junk: (nat, nat) -> Word) returns (h: Heap, ok: bool, ghost seen: seq<Word>)
    ensures h.junk == junk && h.Junk(seen) && seen != [] && (ok <==> WHITE_WORD !in seen)
    ensures (forall x, n :: junk(x, n) == WHITE_WORD) ==> !ok
  {
    hide *;
    h := BuildTwoLoops(junk);
    Threshold();
    h.IdleMeans();
    h.SharedAndUnlisted(0);
    ok, seen := h.Release(0);
    h.IdleMeans();
    h.SharedAndUnlisted(1);
    ok, seen := h.Release(1);
    assert h.roots == [0, 1];
    TwoLoopsShare(h.kids, h.cyclic, h.ext);
    ok, seen := h.CollectCycles();
    h.AllFromJunk(seen);
  }

  lemma Threshold()
    ensures ROOTS_THRESHOLD > 2
  {
  }

  /** A new value that holds itself, and that the program holds. */
  method SelfLoop(h: Heap) returns (v: nat)
    requires h.Inv()
    modifies h`kids, h`cyclic, h`holder, h`count, h`color, h`buffered, h`dead, h`ext, h`alive
    ensures h.Inv() && v == old(|h.kids|) && h.kids == old(h.kids) + [[v]] && h.ext == old(h.ext) + [1]
    ensures h.cyclic == old(h.cyclic) + [true] && h.holder == old(h.holder) + [true] && h.alive == old(h.alive) + {v}
  {
    hide *;
    v := h.Alloc(true, true);
    h.InvMeans();
    h.Retain(v);
    h.Store(v, v);
    var none: seq<nat> := [];
    assert none + [v] == [v];
    assert h.kids[v] == [v];
  }

  method BuildTwoLoops(junk: (nat, nat) -> Word) returns (h: Heap)
    ensures fresh(h) && h.Inv() && h.Idle() && !h.collecting && h.alive == {0, 1} && h.roots == [] && !h.due
    ensures h.kids == [[0], [1, 0]] && h.cyclic == h.holder == [true, true] && h.ext == [1, 1]
    ensures h.limit == ROOTS_THRESHOLD && h.junk == junk
  {
    hide *;
    h := new Heap(junk);
    var a := SelfLoop(h);
    var c := SelfLoop(h);
    assert h.kids == [[0], [1]] && h.ext == [1, 1];
    h.Retain(a);
    h.Store(c, a);
    assert h.kids[1] == [1, 0];
  }
}
