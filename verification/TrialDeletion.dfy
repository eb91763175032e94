/** The facts behind the synchronous cycle collection (trial deletion): what the counts mean
    while references inside a candidate subgraph are taken out of them and put back. */
module TrialDeletion {
  import opened RefGraph

  datatype Color = Black | Gray | White | Purple

  /** `cyc[v]`: the kind of `v` can be part of a cycle. The other values hold no reference. */
  ghost predicate Blocks(g: Graph, cyc: seq<bool>, alive: set<nat>) {
    && |cyc| == |g|
    && InRange(g)
    && (forall u :: u in alive ==> u < |g|)
    && (forall u :: 0 <= u < |g| && !cyc[u] ==> g[u] == [])
  }

  /** The children whose kind can be part of a cycle, in order. */
  function CyclicChildren(s: seq<nat>, cyc: seq<bool>): (r: seq<nat>)
    requires forall i :: 0 <= i < |s| ==> s[i] < |cyc|
    ensures forall t :: t in r <==> t in s && t < |cyc| && cyc[t]
    ensures forall v: nat :: v < |cyc| ==> Count(r, v) == if cyc[v] then Count(s, v) else 0
  {
    if s == [] then [] else
    var last := s[|s| - 1];
    var r := CyclicChildren(s[..|s| - 1], cyc);
    assert (r + [last])[..|r|] == r;
    assert s == s[..|s| - 1] + [last];
    if cyc[last] then r + [last] else r
  }

  /** References to `v` that its count must show: those from outside the heap and those from
      `alive` values. While the references held by `hidden` values are taken out of the counts
      of cyclic values, they do not show there. */
  ghost function Owed(g: Graph, cyc: seq<bool>, ext: seq<nat>, alive: set<nat>, hidden: set<nat>, v: nat): nat
    requires v < |g| && |cyc| == |g| && |ext| == |g|
  {
    ext[v] + In(g, if cyc[v] then alive - hidden else alive, v)
  }

  /** Every count is exact, up to the references in `rest` that are still to be given back. */
  ghost predicate Tally(g: Graph, cyc: seq<bool>, ext: seq<nat>, count: seq<int>, alive: set<nat>, hidden: set<nat>,
        rest: seq<nat>) {
    && |cyc| == |g| && |ext| == |g| && |count| == |g|
    && (forall v {:trigger Owed(g, cyc, ext, alive, hidden, v)} :: v in alive && v < |g| ==>
          count[v] == Owed(g, cyc, ext, alive, hidden, v) + Count(rest, v))
  }

  ghost predicate CyclicClosed(g: Graph, cyc: seq<bool>, c: set<nat>)
    requires |cyc| == |g|
  {
    forall u, t :: u in c && u < |g| && t in g[u] && t < |g| && cyc[t] ==> t in c
  }

  ghost function Colored(color: seq<Color>, c: Color): set<nat> {
    set v: nat | v < |color| && color[v] == c
  }

  /** The members of `s` that are not black, each once, in order of first occurrence. */
  ghost function Fresh(s: seq<nat>, color: seq<Color>): (r: seq<nat>)
    ensures Distinct(r)
    ensures forall t: nat :: t in r <==> t in s && t < |color| && color[t] != Black
  {
    if s == [] then [] else
    var last := s[|s| - 1];
    var r := Fresh(s[..|s| - 1], color);
    assert s == s[..|s| - 1] + [last];
    if last >= |color| || color[last] == Black || last in s[..|s| - 1] then r else Push(r, last); r + [last]
  }

  lemma FreshNone(color: seq<Color>)
    ensures Fresh([], color) == []
  {
  }

  lemma FreshPrefix(s: seq<nat>, i: nat, color: seq<Color>)
    requires i < |s|
    ensures Fresh(s[..i + 1], color) ==
            Fresh(s[..i], color) + if s[i] >= |color| || color[s[i]] == Black || s[i] in s[..i] then [] else [s[i]]
  {
    assert s[..i + 1][..i] == s[..i];
  }

  lemma {:induction false} DistinctConcat(s: seq<nat>, t: seq<nat>)
    requires Distinct(s) && Distinct(t) && forall v: nat :: v in s ==> v !in t
    ensures Distinct(s + t)
  {
    if t == [] {
      assert s + t == s;
    } else {
      Pop(t);
      assert (s + t)[..|s + t| - 1] == s + t[..|t| - 1];
      DistinctConcat(s, t[..|t| - 1]);
    }
  }

  /** The walk that turned `done` values still has to visit their other children: they are on
      `stack`. */
  ghost predicate Frontier(g: Graph, cyc: seq<bool>, done: set<nat>, stack: seq<nat>)
    requires |cyc| == |g|
  {
    forall u, t :: u in done && u < |g| && t in g[u] && t < |g| && cyc[t] ==> t in done || t in stack
  }

  lemma ColorGray(color: seq<Color>, x: nat)
    requires x < |color|
    ensures Colored(color[x := Gray], Gray) == Colored(color, Gray) + {x}
  {
  }

  lemma FrontierStart(g: Graph, cyc: seq<bool>, done: set<nat>, stack: seq<nat>)
    requires |cyc| == |g| && CyclicClosed(g, cyc, done)
    ensures Frontier(g, cyc, done, stack)
  {
  }

  lemma FrontierEnd(g: Graph, cyc: seq<bool>, done: set<nat>)
    requires |cyc| == |g| && Frontier(g, cyc, done, [])
    ensures CyclicClosed(g, cyc, done)
  {
  }

  lemma FrontierPop(g: Graph, cyc: seq<bool>, done: set<nat>, stack: seq<nat>)
    requires |cyc| == |g| && Frontier(g, cyc, done, stack) && stack != [] && stack[|stack| - 1] in done
    ensures Frontier(g, cyc, done, stack[..|stack| - 1])
  {
    Pop(stack);
  }

  lemma FrontierStep(g: Graph, cyc: seq<bool>, done: set<nat>, x: nat, stack: seq<nat>, stack': seq<nat>)
    requires |cyc| == |g| && x < |g| && stack != [] && stack[|stack| - 1] == x
    requires Frontier(g, cyc, done, stack)
    requires forall t :: t in stack[..|stack| - 1] ==> t in stack'
    requires forall t :: t in g[x] && t < |g| && cyc[t] ==> t in stack'
    ensures Frontier(g, cyc, done + {x}, stack')
  {
    Pop(stack);
  }

  ghost function NotBlack(color: seq<Color>, s: set<nat>): set<nat> {
    set v: nat | v in s && v < |color| && color[v] != Black
  }

  /** References to `v` from outside the subgraph `s`. */
  ghost function Outside(g: Graph, ext: seq<nat>, alive: set<nat>, s: set<nat>, v: nat): nat
    requires v < |g| && |ext| == |g|
  {
    ext[v] + In(g, alive - s, v)
  }

  /** The members of `s` that a reference from outside `s` holds. */
  ghost function Outer(g: Graph, ext: seq<nat>, alive: set<nat>, s: set<nat>): set<nat>
    requires |ext| == |g|
  {
    set v: nat | v in s && v < |g| && Outside(g, ext, alive, s, v) > 0
  }

  ghost function Held(ext: seq<nat>): set<nat> {
    set v: nat | v < |ext| && ext[v] > 0
  }

  /** Subtracting from the cyclic counts the references that `x` holds hides `x`. */
  lemma TallyHide(g: Graph, cyc: seq<bool>, ext: seq<nat>, count: seq<int>, count': seq<int>, alive: set<nat>,
        hidden: set<nat>, x: nat)
    requires Blocks(g, cyc, alive) && Tally(g, cyc, ext, count, alive, hidden, [])
    requires x in alive && x !in hidden && |count'| == |g|
    requires forall v :: 0 <= v < |g| ==> count'[v] == count[v] - if cyc[v] then Count(g[x], v) else 0
    ensures Tally(g, cyc, ext, count', alive, hidden + {x}, [])
  {
    forall v | v in alive
      ensures count'[v] == Owed(g, cyc, ext, alive, hidden + {x}, v)
    {
      assert count[v] == Owed(g, cyc, ext, alive, hidden, v);
      assert alive - (hidden + {x}) == (alive - hidden) - {x};
      InRemove(g, alive - hidden, x, v);
    }
  }

  /** What a living value refers to is alive, so counts of others do not change with its references. */
  lemma ChildrenAlive(g: Graph, cyc: seq<bool>, alive: set<nat>, x: nat)
    requires Blocks(g, cyc, alive) && Closed(g, alive) && x in alive
    ensures x < |g| && InRange(g) && |cyc| == |g|
    ensures forall v: nat :: v < |g| && v !in alive ==> Count(CyclicChildren(g[x], cyc), v) == 0
  {
    hide CyclicChildren;
    forall v: nat | v < |g| && v !in alive
      ensures Count(CyclicChildren(g[x], cyc), v) == 0
    {
      CountMember(CyclicChildren(g[x], cyc), v);
    }
  }

  lemma TallyAt(g: Graph, cyc: seq<bool>, ext: seq<nat>, count: seq<int>, alive: set<nat>, hidden: set<nat>, v: nat)
    requires Tally(g, cyc, ext, count, alive, hidden, []) && v in alive && v < |g|
    ensures count[v] == Owed(g, cyc, ext, alive, hidden, v)
  {
  }

  /** Adding them back shows `x` again. */
  lemma TallyShow(g: Graph, cyc: seq<bool>, ext: seq<nat>, count: seq<int>, count': seq<int>, alive: set<nat>,
        hidden: set<nat>, x: nat)
    requires Blocks(g, cyc, alive) && Tally(g, cyc, ext, count, alive, hidden, [])
    requires x in alive && x in hidden && |count'| == |g|
    requires forall v :: 0 <= v < |g| ==> count'[v] == count[v] + if cyc[v] then Count(g[x], v) else 0
    ensures Tally(g, cyc, ext, count', alive, hidden - {x}, [])
  {
    forall v | v in alive
      ensures count'[v] == Owed(g, cyc, ext, alive, hidden - {x}, v)
    {
      assert count[v] == Owed(g, cyc, ext, alive, hidden, v);
      assert (alive - (hidden - {x})) - {x} == alive - hidden;
      InRemove(g, alive - (hidden - {x}), x, v);
    }
  }

  /** Once the black part of `s` is closed, a count that still hides references shows exactly
      the references from outside `s`. */
  lemma HiddenIsOutside(g: Graph, cyc: seq<bool>, ext: seq<nat>, count: seq<int>, alive: set<nat>, s: set<nat>,
        hidden: set<nat>, v: nat)
    requires Blocks(g, cyc, alive) && Tally(g, cyc, ext, count, alive, hidden, [])
    requires hidden <= s <= alive && CyclicClosed(g, cyc, s - hidden)
    requires v in hidden && cyc[v]
    ensures count[v] == Outside(g, ext, alive, s, v)
  {
    assert count[v] == Owed(g, cyc, ext, alive, hidden, v);
    assert alive - hidden == (alive - s) + (s - hidden);
    InSplit(g, alive - s, s - hidden, v);
    InZero(g, s - hidden, v);
  }

  /** Marking more of the heap changes no count outside the marked part. */
  lemma MarkKeeps(g: Graph, cyc: seq<bool>, ext: seq<nat>, count: seq<int>, count': seq<int>, alive: set<nat>,
        gray: set<nat>, gray': set<nat>)
    requires Blocks(g, cyc, alive) && gray <= gray' <= alive && CyclicClosed(g, cyc, gray')
    requires Tally(g, cyc, ext, count, alive, gray, []) && Tally(g, cyc, ext, count', alive, gray', [])
    ensures forall v :: v in alive && v !in gray' ==> count'[v] == count[v]
  {
    forall v | v in alive && v !in gray'
      ensures count'[v] == count[v]
    {
      assert count[v] == Owed(g, cyc, ext, alive, gray, v);
      assert count'[v] == Owed(g, cyc, ext, alive, gray', v);
      if cyc[v] {
        assert alive - gray == (alive - gray') + (gray' - gray);
        InSplit(g, alive - gray', gray' - gray, v);
        InZero(g, gray' - gray, v);
      }
    }
  }

  /** `ScanBlack` at work: the references of the `hidden` members of `s` are still taken out
      of the counts; the black ones among them wait on `stack`. */
  ghost predicate Blackening(g: Graph, cyc: seq<bool>, color: seq<Color>, s: set<nat>, hidden: set<nat>,
          stack: seq<nat>) {
    && |cyc| == |g| == |color|
    && Distinct(stack)
    && (forall t :: t in stack ==> t in s && t < |g| && color[t] == Black)
    && (forall v :: v in hidden <==> v in NotBlack(color, s) || v in stack)
    && (forall u, t :: u in s && u !in hidden && u < |g| && t in g[u] && t < |g| && cyc[t] ==> color[t] == Black)
  }

  /** The colours between two steps of the scan of the subgraph `s`. */
  ghost predicate ScanColors(g: Graph, cyc: seq<bool>, ext: seq<nat>, alive: set<nat>, color: seq<Color>, s: set<nat>) {
    && |cyc| == |g| == |ext| == |color|
    && s <= alive && (forall v :: v in alive ==> v < |g|)
    && (forall v :: v in s ==> cyc[v] && color[v] != Purple)
    && (forall v :: v in alive - s ==> color[v] == Black)
    && CyclicClosed(g, cyc, s)
    && CyclicClosed(g, cyc, s - NotBlack(color, s))
    && (forall v :: v in s && color[v] == White ==> v !in Outer(g, ext, alive, s))
    && s - NotBlack(color, s) <= Reach(g, Outer(g, ext, alive, s))
  }

  lemma BlackenStart(g: Graph, cyc: seq<bool>, ext: seq<nat>, alive: set<nat>, color: seq<Color>, s: set<nat>,
          root: nat)
    requires InRange(g) && ScanColors(g, cyc, ext, alive, color, s) && root in Outer(g, ext, alive, s)
    requires color[root] == Gray
    ensures Blackening(g, cyc, color[root := Black], s, NotBlack(color, s), [root])
    ensures s - NotBlack(color[root := Black], s) <= Reach(g, Outer(g, ext, alive, s))
  {
    ReachContains(g, Outer(g, ext, alive, s), root);
    assert [root][..0] == [];
    assert Distinct([root]);
  }

  lemma BlackenFacts(g: Graph, cyc: seq<bool>, color: seq<Color>, s: set<nat>, hidden: set<nat>, stack: seq<nat>)
    requires Blackening(g, cyc, color, s, hidden, stack)
    ensures forall t :: t in stack ==> t in s && t in hidden && t !in NotBlack(color, s)
  {
  }

  lemma BlackenStep(g: Graph, cyc: seq<bool>, color: seq<Color>, color': seq<Color>, s: set<nat>, hidden: set<nat>,
        stack: seq<nat>, x: nat)
    requires Blackening(g, cyc, color, s, hidden, stack) && stack != []
    requires InRange(g) && CyclicClosed(g, cyc, s)
    requires forall u :: u in s ==> u < |g| && cyc[u]
    requires |color'| == |g|
    requires x == stack[|stack| - 1] && x < |g|
    requires forall v :: 0 <= v < |g| ==> color'[v] == if cyc[v] && v in g[x] then Black else color[v]
    ensures Blackening(g, cyc, color', s, hidden - {x}, stack[..|stack| - 1] + Fresh(CyclicChildren(g[x], cyc), color))
  {
    var rest := stack[..|stack| - 1];
    var more := Fresh(CyclicChildren(g[x], cyc), color);
    hide Count, CyclicChildren, Fresh, Distinct;
    Pop(stack);
    DistinctConcat(rest, more);
    forall v: nat
      ensures v in hidden - {x} <==> v in NotBlack(color', s) || v in rest + more
    {
    }
  }

  lemma BlackenEnd(g: Graph, cyc: seq<bool>, ext: seq<nat>, alive: set<nat>, color0: seq<Color>, color: seq<Color>,
        s: set<nat>, hidden: set<nat>)
    requires ScanColors(g, cyc, ext, alive, color0, s) && Blackening(g, cyc, color, s, hidden, [])
    requires forall v :: 0 <= v < |g| ==> color[v] == color0[v] || color[v] == Black
    requires s - NotBlack(color, s) <= Reach(g, Outer(g, ext, alive, s))
    ensures ScanColors(g, cyc, ext, alive, color, s) && hidden == NotBlack(color, s)
  {
  }

  /** Either a value turned black, or nothing was pushed. */
  lemma BlackenProgress(color: seq<Color>, color': seq<Color>, s: set<nat>, ks: seq<nat>)
    requires |color'| == |color|
    requires forall t :: t in ks ==> t in s && t < |color|
    requires forall v :: 0 <= v < |color| ==> color'[v] == if v in ks then Black else color[v]
    ensures NotBlack(color', s) <= NotBlack(color, s)
    ensures NotBlack(color', s) == NotBlack(color, s) ==> Fresh(ks, color) == []
    ensures s - NotBlack(color', s) <= s - NotBlack(color, s) + set t | t in ks
  {
    var more := Fresh(ks, color);
    if more != [] {
      assert more[0] in more;
      assert more[0] in NotBlack(color, s) - NotBlack(color', s);
    }
  }

  /** The children of white values are no longer gray, or wait on `stack`. */
  ghost predicate Settled(g: Graph, cyc: seq<bool>, color: seq<Color>, s: set<nat>, stack: seq<nat>) {
    && |cyc| == |g| == |color|
    && forall u, t :: u in s && u < |g| && color[u] == White && t in g[u] && t < |g| && cyc[t] ==>
          color[t] != Gray || t in stack
  }

  lemma SettledStill(g: Graph, cyc: seq<bool>, color: seq<Color>, color': seq<Color>, s: set<nat>, stack: seq<nat>,
        stack': seq<nat>)
    requires Settled(g, cyc, color, s, stack) && |color'| == |color|
    requires forall v :: 0 <= v < |color| ==> color'[v] == color[v] || color'[v] == Black
    requires forall t :: t in stack && t < |color| ==> t in stack' || color'[t] != Gray
    ensures Settled(g, cyc, color', s, stack')
  {
  }

  lemma ScanFacts(g: Graph, cyc: seq<bool>, ext: seq<nat>, alive: set<nat>, color: seq<Color>, s: set<nat>)
    requires ScanColors(g, cyc, ext, alive, color, s)
    ensures |ext| == |g| && s <= alive && (forall v :: v in s ==> v < |g| && cyc[v])
    ensures CyclicClosed(g, cyc, s) && CyclicClosed(g, cyc, s - NotBlack(color, s))
  {
  }

  lemma Whiten(g: Graph, cyc: seq<bool>, ext: seq<nat>, alive: set<nat>, color: seq<Color>, s: set<nat>, x: nat,
        stack: seq<nat>)
    requires InRange(g) && ScanColors(g, cyc, ext, alive, color, s) && x in s && color[x] == Gray
    requires x !in Outer(g, ext, alive, s)
    requires stack != [] && stack[|stack| - 1] == x && Settled(g, cyc, color, s, stack)
    ensures ScanColors(g, cyc, ext, alive, color[x := White], s)
    ensures NotBlack(color[x := White], s) == NotBlack(color, s)
    ensures Settled(g, cyc, color[x := White], s, stack[..|stack| - 1] + CyclicChildren(g[x], cyc))
  {
    Pop(stack);
    var kids := CyclicChildren(g[x], cyc);
    forall t: nat
      ensures t in stack[..|stack| - 1] + kids <==> t in stack[..|stack| - 1] || t in kids
    {
    }
  }

  lemma CountFirst(t: nat, rest: seq<nat>, v: nat)
    ensures Count([t] + rest, v) == Count(rest, v) + if t == v then 1 else 0
  {
    CountConcat([t], rest, v);
    assert [t][..0] == [];
  }

  /** Giving back one reference to a value without children; the value itself goes once its
      count is zero. */
  lemma LeafStep(g: Graph, cyc: seq<bool>, ext: seq<nat>, count: seq<int>, alive: set<nat>, hidden: set<nat>, t: nat,
        rest: seq<nat>)
    requires Blocks(g, cyc, alive) && Tally(g, cyc, ext, count, alive, hidden, [t] + rest)
    requires t in alive && !cyc[t]
    ensures count[t] > 0
    ensures Tally(g, cyc, ext, count[t := count[t] - 1], alive, hidden, rest)
    ensures count[t] == 1 ==> t !in rest && ext[t] == 0 && In(g, alive, t) == 0
    ensures count[t] == 1 ==>
              Blocks(g, cyc, alive - {t}) && Tally(g, cyc, ext, count[t := 0], alive - {t}, hidden, rest)
  {
    assert count[t] == Owed(g, cyc, ext, alive, hidden, t) + Count([t] + rest, t);
    CountFirst(t, rest, t);
    CountMember(rest, t);
    InZero(g, alive, t);
    forall v | v in alive
      ensures count[t := count[t] - 1][v] == Owed(g, cyc, ext, alive, hidden, v) + Count(rest, v)
    {
      assert count[v] == Owed(g, cyc, ext, alive, hidden, v) + Count([t] + rest, v);
      CountFirst(t, rest, v);
    }
    forall v | v in alive - {t}
      ensures Owed(g, cyc, ext, alive - {t}, hidden, v) == Owed(g, cyc, ext, alive, hidden, v)
    {
      assert Count(g[t], v) == 0;
      InRemove(g, alive, t, v);
      assert (alive - hidden) - {t} == (alive - {t}) - hidden;
      if t !in hidden {
        InRemove(g, alive - hidden, t, v);
      } else {
        assert alive - hidden == (alive - {t}) - hidden;
      }
    }
    if count[t] == 1 {
      forall v | v in alive - {t}
        ensures count[t := 0][v] == Owed(g, cyc, ext, alive - {t}, hidden, v) + Count(rest, v)
      {
        assert count[t := count[t] - 1][v] == Owed(g, cyc, ext, alive, hidden, v) + Count(rest, v);
      }
    }
  }

  /** Giving back one reference to a value that can be part of a cycle. */
  lemma CyclicStep(g: Graph, cyc: seq<bool>, ext: seq<nat>, count: seq<int>, alive: set<nat>, t: nat, rest: seq<nat>)
    requires Blocks(g, cyc, alive) && Tally(g, cyc, ext, count, alive, {}, [t] + rest)
    requires t in alive && cyc[t]
    ensures count[t] > 0
    ensures Tally(g, cyc, ext, count[t := count[t] - 1], alive, {}, rest)
    ensures count[t] == 1 ==> t !in rest && ext[t] == 0 && In(g, alive, t) == 0
  {
    assert count[t] == Owed(g, cyc, ext, alive, {}, t) + Count([t] + rest, t);
    assert alive - {} == alive;
    CountFirst(t, rest, t);
    CountMember(rest, t);
    forall v | v in alive
      ensures count[t := count[t] - 1][v] == Owed(g, cyc, ext, alive, {}, v) + Count(rest, v)
    {
      assert count[v] == Owed(g, cyc, ext, alive, {}, v) + Count([t] + rest, v);
      CountFirst(t, rest, v);
    }
  }

  /** Tearing down an unreferenced value: its references become references to give back. */
  lemma TallyOpen(g: Graph, cyc: seq<bool>, ext: seq<nat>, count: seq<int>, alive: set<nat>, x: nat)
    requires Blocks(g, cyc, alive) && Closed(g, alive) && Tally(g, cyc, ext, count, alive, {}, [])
    requires x in alive && count[x] == 0
    ensures ext[x] == 0 && x !in g[x] && Closed(g, alive - {x})
    ensures Blocks(g, cyc, alive - {x}) && Tally(g, cyc, ext, count, alive - {x}, {}, g[x])
  {
    assert count[x] == Owed(g, cyc, ext, alive, {}, x);
    assert alive - {} == alive;
    InZero(g, alive, x);
    forall v | v in alive - {x}
      ensures count[v] == Owed(g, cyc, ext, alive - {x}, {}, v) + Count(g[x], v)
    {
      assert count[v] == Owed(g, cyc, ext, alive, {}, v);
      assert alive - {x} - {} == alive - {x};
      InRemove(g, alive, x, v);
    }
  }

  /** Every block is in one place: alive, being torn down (`open`), destroyed but still listed
      as a root, or given back (`gone`). */
  ghost predicate Partition(cyc: seq<bool>, buffered: seq<bool>, dead: seq<bool>, alive: set<nat>, open: set<nat>,
        listed: set<nat>, gone: set<nat>) {
    && |buffered| == |dead| == |cyc|
    && (forall v :: 0 <= v < |dead| ==> v in alive || v in open || v in listed || v in gone)
    && (forall v :: v in open ==> v < |dead| && v !in alive)
    && (forall v :: v in gone ==> v < |dead| && v !in alive && v !in open && v !in listed)
    && (forall v :: v in listed <==> 0 <= v < |dead| && buffered[v])
    && (forall v :: v in listed ==> cyc[v] && (v in alive || v in open || dead[v]))
    && (forall v :: v in alive && v < |dead| ==> !dead[v])
  }

  /** Each block given back is in one of the two lists, once: those the allocator has already,
      and those that wait for the end of the epoch. */
  ghost predicate Ledger(freed: seq<nat>, deferred: seq<nat>, gone: set<nat>) {
    && Distinct(freed) && Distinct(deferred) && Elems(freed) !! Elems(deferred)
    && gone == Elems(freed) + Elems(deferred)
  }

  lemma LedgerMore(freed: seq<nat>, deferred: seq<nat>, gone: set<nat>, x: nat)
    requires Ledger(freed, deferred, gone) && x !in gone
    ensures Ledger(freed + [x], deferred, gone + {x}) && Ledger(freed, deferred + [x], gone + {x})
  {
    Push(freed, x);
    Push(deferred, x);
  }

  /** The blocks that waited go to the allocator. */
  lemma LedgerSettled(freed: seq<nat>, deferred: seq<nat>, gone: set<nat>)
    requires Ledger(freed, deferred, gone)
    ensures Ledger(freed + deferred, [], gone)
  {
    ElemsConcat(freed, deferred);
    DistinctConcat(freed, deferred);
  }

  /** Between collections, purple marks the listed values. */
  ghost predicate Tinted(alive: set<nat>, color: seq<Color>, buffered: seq<bool>) {
    && (forall v :: v in alive && v < |color| && v < |buffered| ==> color[v] == if buffered[v] then Purple else Black)
    && (forall v :: 0 <= v < |color| ==> color[v] == Purple || color[v] == Black)
  }

  /** The alive values without any reference are those in `zero`. A destroyed value has none;
      what a concurrent collection is about to free (`limbo`) keeps its count. */
  ghost predicate ZeroOnly(ext: seq<nat>, count: seq<int>, alive: set<nat>, zero: set<nat>, limbo: set<nat>) {
    && |ext| == |count|
    && (forall v :: 0 <= v < |count| && v in alive ==> (count[v] == 0 <==> v in zero))
    && (forall v :: 0 <= v < |count| && v !in alive ==> ext[v] == 0 && (count[v] == 0 || v in limbo))
  }

  lemma ZeroOnlyLess(ext: seq<nat>, count: seq<int>, alive: set<nat>, zero: set<nat>, limbo: set<nat>, t: nat)
    requires ZeroOnly(ext, count, alive, zero, limbo) && t in alive && t < |count| && count[t] > 0
    ensures t !in zero
    ensures ZeroOnly(ext, count[t := count[t] - 1], alive, if count[t] == 1 then zero + {t} else zero, limbo)
  {
  }

  lemma ZeroOnlyGiven(ext: seq<nat>, count: seq<int>, alive: set<nat>, limbo: set<nat>, v: nat)
    requires ZeroOnly(ext, count, alive, {}, limbo) && v in alive && v < |count| && count[v] > 0 && ext[v] > 0
    ensures ZeroOnly(ext[v := ext[v] - 1], count[v := count[v] - 1], alive, if count[v] == 1 then {v} else {}, limbo)
  {
  }

  lemma FreshValue(ext: seq<nat>, count: seq<int>, alive: set<nat>, limbo: set<nat>, color: seq<Color>,
          buffered: seq<bool>)
    requires Tinted(alive, color, buffered) && ZeroOnly(ext, count, alive, {}, limbo)
    requires |count| == |color| == |buffered|
    requires forall v :: v in alive ==> v < |count|
    ensures Tinted(alive + {|count|}, color + [Black], buffered + [false])
    ensures ZeroOnly(ext + [1], count + [1], alive + {|count|}, {}, limbo)
  {
  }

  lemma TintedPurple(alive: set<nat>, color: seq<Color>, buffered: seq<bool>, v: nat)
    requires Tinted(alive, color, buffered) && v < |color| == |buffered|
    ensures Tinted(alive, color[v := Purple], buffered[v := true])
  {
  }

  lemma TintedStill(alive0: set<nat>, alive: set<nat>, color: seq<Color>, buffered: seq<bool>)
    requires Tinted(alive0, color, buffered) && alive <= alive0
    ensures Tinted(alive, color, buffered)
  {
  }

  lemma PartitionList(cyc: seq<bool>, buffered: seq<bool>, dead: seq<bool>, alive: set<nat>, open: set<nat>,
        listed: set<nat>, gone: set<nat>, v: nat)
    requires Partition(cyc, buffered, dead, alive, open, listed, gone)
    requires v in alive && v < |cyc| && cyc[v]
    ensures Partition(cyc, buffered[v := true], dead, alive, open, listed + {v}, gone)
    ensures v !in open && (v in listed <==> buffered[v])
    ensures buffered[v] ==> listed + {v} == listed
  {
  }

  lemma ListedOnce(roots: seq<nat>, taken: set<nat>, limbo: set<nat>, listed: set<nat>, v: nat)
    requires listed == Elems(roots) + taken && Elems(roots) !! limbo && Elems(roots) !! taken && Distinct(roots)
    requires v !in limbo
    ensures var roots' := if v in listed then roots else roots + [v];
      listed + {v} == Elems(roots') + taken && Elems(roots') !! limbo && Elems(roots') !! taken && Distinct(roots')
  {
    Push(roots, v);
  }

  lemma PartitionOpen(cyc: seq<bool>, buffered: seq<bool>, dead: seq<bool>, alive: set<nat>, open: set<nat>,
        listed: set<nat>, gone: set<nat>, v: nat)
    requires Partition(cyc, buffered, dead, alive, open, listed, gone)
    requires v in alive && v < |cyc|
    ensures Partition(cyc, buffered, dead, alive - {v}, open + {v}, listed, gone)
    ensures v in listed <==> buffered[v]
    ensures !cyc[v] ==> v !in listed
    ensures v !in open
  {
  }

  lemma PartitionFree(cyc: seq<bool>, buffered: seq<bool>, dead: seq<bool>, alive: set<nat>, open: set<nat>,
        listed: set<nat>, gone: set<nat>, v: nat)
    requires Partition(cyc, buffered, dead, alive, open, listed, gone)
    requires v in open && v !in listed
    ensures Partition(cyc, buffered, dead, alive, open - {v}, listed, gone + {v})
    ensures v !in gone
  {
  }

  lemma PartitionDead(cyc: seq<bool>, buffered: seq<bool>, dead: seq<bool>, alive: set<nat>, open: set<nat>,
        listed: set<nat>, gone: set<nat>, v: nat)
    requires Partition(cyc, buffered, dead, alive, open, listed, gone)
    requires v in open
    ensures v < |cyc| && (v in listed <==> buffered[v])
    ensures !cyc[v] ==> !buffered[v]
    ensures Partition(cyc, buffered, dead[v := true], alive, open, listed, gone)
    ensures buffered[v] ==> Partition(cyc, buffered, dead[v := true], alive, open - {v}, listed, gone)
  {
  }

  // ── Reaping the white values ────────────────────────────────────────────────

  /** The children whose kind cannot be part of a cycle, in order. */
  ghost function Leaves(s: seq<nat>, cyc: seq<bool>): (r: seq<nat>)
    ensures forall t :: t in r <==> t in s && t < |cyc| && !cyc[t]
    ensures forall v: nat :: v < |cyc| ==> Count(r, v) == if cyc[v] then 0 else Count(s, v)
  {
    if s == [] then [] else
    var r := Leaves(s[1..], cyc);
    CountSuffixes(s);
    assert s == [s[0]] + s[1..];
    if s[0] < |cyc| && !cyc[s[0]] then CountFirsts(s[0], r); [s[0]] + r else r
  }

  lemma CountSuffixes(s: seq<nat>)
    requires s != []
    ensures forall v: nat :: Count(s, v) == Count(s[1..], v) + if s[0] == v then 1 else 0
  {
    assert s[0..] == s;
    forall v: nat
      ensures Count(s, v) == Count(s[1..], v) + if s[0] == v then 1 else 0
    {
      CountSuffix(s, 0, v);
    }
  }

  lemma CountFirsts(t: nat, rest: seq<nat>)
    ensures forall v: nat :: Count([t] + rest, v) == Count(rest, v) + if t == v then 1 else 0
  {
    forall v: nat {
      CountFirst(t, rest, v);
    }
  }

  lemma LeavesStep(s: seq<nat>, i: nat, cyc: seq<bool>)
    requires i < |s| && s[i] < |cyc|
    ensures Leaves(s[i..], cyc) == if cyc[s[i]] then Leaves(s[i + 1..], cyc) else [s[i]] + Leaves(s[i + 1..], cyc)
  {
    assert s[i..][1..] == s[i + 1..];
    assert s[i..] == [s[i]] + s[i + 1..];
  }

  lemma LeavesNone(cyc: seq<bool>)
    ensures Leaves([], cyc) == []
  {
  }

  /** Reaping the white value `x`: its references to other white values are dropped, those to
      values that cannot be part of a cycle are still to be given back. */
  lemma TallyReap(g: Graph, cyc: seq<bool>, ext: seq<nat>, count: seq<int>, alive: set<nat>, white: set<nat>, x: nat)
    requires Blocks(g, cyc, alive + white) && Tally(g, cyc, ext, count, alive + white, white, []) && alive !! white
    requires x in white
    ensures Tally(g, cyc, ext, count, alive + (white - {x}), white - {x}, Leaves(g[x], cyc))
  {
    forall v | v in alive + (white - {x})
      ensures count[v] == Owed(g, cyc, ext, alive + (white - {x}), white - {x}, v) + Count(Leaves(g[x], cyc), v)
    {
      assert count[v] == Owed(g, cyc, ext, alive + white, white, v);
      assert alive + white - {x} == alive + (white - {x});
      assert alive + white - white == alive == alive + (white - {x}) - (white - {x});
      InRemove(g, alive + white, x, v);
    }
  }

  lemma PartitionUnlist(cyc: seq<bool>, buffered: seq<bool>, dead: seq<bool>, alive: set<nat>, open: set<nat>,
        listed: set<nat>, gone: set<nat>, v: nat)
    requires Partition(cyc, buffered, dead, alive, open, listed, gone)
    requires v in listed && v !in open
    ensures v < |cyc| == |dead| == |buffered| && cyc[v] && buffered[v] && v !in gone && (dead[v] <==> v !in alive)
    ensures Partition(cyc, buffered[v := false], dead, alive, open, listed - {v}, if dead[v] then gone + {v} else gone)
  {
  }

  lemma PartitionUnlisted(cyc: seq<bool>, buffered: seq<bool>, dead: seq<bool>, alive: set<nat>, open: set<nat>,
        listed: set<nat>, gone: set<nat>, v: nat)
    requires Partition(cyc, buffered, dead, alive, open, listed, gone)
    requires v !in listed && v < |cyc|
    ensures buffered[v := false] == buffered && listed - {v} == listed
  {
  }

  lemma PartitionWhite(cyc: seq<bool>, buffered: seq<bool>, dead: seq<bool>, alive: set<nat>, gone: set<nat>,
        white: set<nat>)
    requires Partition(cyc, buffered, dead, alive, {}, {}, gone) && white <= alive
    requires forall v :: v in white ==> v < |cyc|
    ensures Partition(cyc, buffered, dead, alive - white, white, {}, gone)
  {
  }

  // ── Walks over the white values ─────────────────────────────────────────────

  /** What references reach from `a` stays in a set that contains `a` and is closed under
      references to values of cyclic kinds, up to values that hold no reference. */
  lemma CyclicInside(g: Graph, cyc: seq<bool>, c: set<nat>, a: set<nat>)
    requires InRange(g) && |cyc| == |g| && CyclicClosed(g, cyc, c)
    requires forall u :: 0 <= u < |g| && !cyc[u] ==> g[u] == []
    requires forall u :: u in a && u < |g| && cyc[u] ==> u in c
    ensures forall v :: v in Reach(g, a) && cyc[v] ==> v in c
  {
    ReachLeast(g, a, c + set u: nat | u < |g| && !cyc[u]);
  }

  /** The candidates that trial deletion starts from: those alive that no earlier one reaches. */
  ghost function KeptRoots(g: Graph, alive: set<nat>, rs: seq<nat>): seq<nat> {
    if rs == [] then [] else
    var kept := KeptRoots(g, alive, rs[..|rs| - 1]);
    var r := rs[|rs| - 1];
    if r in alive && r !in Reach(g, Elems(kept)) then kept + [r] else kept
  }

  lemma KeptRootsNone(g: Graph, alive: set<nat>)
    ensures KeptRoots(g, alive, []) == []
  {
  }

  lemma KeptRootsStep(g: Graph, alive: set<nat>, rs: seq<nat>, i: nat)
    requires i < |rs|
    ensures var kept := KeptRoots(g, alive, rs[..i]);
      KeptRoots(g, alive, rs[..i + 1]) ==
      if rs[i] in alive && rs[i] !in Reach(g, Elems(kept)) then kept + [rs[i]] else kept
  {
    assert rs[..i + 1][..i] == rs[..i];
  }

  /** Two of the values `kept` reach the same member of `c`. */
  ghost predicate Overlap(g: Graph, kept: seq<nat>, c: set<nat>) {
    exists i, j, x :: 0 <= i < j < |kept| && x in c && x in Reach(g, {kept[i]}) && x in Reach(g, {kept[j]})
  }

  /** Two of the values `kept` reach the same value that can be part of a cycle and that
      references from outside do not reach. */
  ghost predicate SharedGarbage(g: Graph, cyc: seq<bool>, ext: seq<nat>, kept: seq<nat>) {
    Overlap(g, kept, set x: nat | x < |g| && x < |cyc| && cyc[x] && x !in Reach(g, Held(ext)))
  }

  /** The next value overlaps those before it, or they overlap already. */
  lemma OverlapStep(g: Graph, kept: seq<nat>, i: nat, c: set<nat>)
    requires i < |kept|
    ensures Overlap(g, kept[..i + 1], c) <==>
            Overlap(g, kept[..i], c) || Reach(g, {kept[i]}) * (c * Reach(g, Elems(kept[..i]))) != {}
  {
    hide Reach;
    if Overlap(g, kept[..i + 1], c) {
      var k, j, x :| 0 <= k < j <= i && x in c && x in Reach(g, {kept[..i + 1][k]}) &&
            x in Reach(g, {kept[..i + 1][j]});
      assert kept[..i + 1][k] == kept[..i][k] && kept[..i][k] in Elems(kept[..i]);
      if j == i {
        ReachFrom(g, Elems(kept[..i]), x);
        assert x in Reach(g, {kept[i]}) * (c * Reach(g, Elems(kept[..i])));
      } else {
        assert kept[..i + 1][j] == kept[..i][j];
      }
    }
    if Reach(g, {kept[i]}) * (c * Reach(g, Elems(kept[..i]))) != {} {
      var x :| x in Reach(g, {kept[i]}) * (c * Reach(g, Elems(kept[..i])));
      ReachFrom(g, Elems(kept[..i]), x);
      var u :| u in Elems(kept[..i]) && x in Reach(g, {u});
      var k :| 0 <= k < i && kept[..i][k] == u;
      assert kept[..i + 1][k] == u && kept[..i + 1][i] == kept[i];
    }
    if Overlap(g, kept[..i], c) {
      var k, j, x :| 0 <= k < j < i && x in c && x in Reach(g, {kept[..i][k]}) && x in Reach(g, {kept[..i][j]});
      assert kept[..i + 1][k] == kept[..i][k] && kept[..i + 1][j] == kept[..i][j];
    }
  }

  lemma NoOverlap(g: Graph, c: set<nat>)
    ensures !Overlap(g, [], c) && Reach(g, Elems([])) == {}
  {
  }

  lemma OverlapPrefix(g: Graph, kept: seq<nat>, i: nat, c: set<nat>)
    requires i <= |kept| && Overlap(g, kept[..i], c)
    ensures Overlap(g, kept, c)
  {
    hide Reach;
    var k, j, x :| 0 <= k < j < i && x in c && x in Reach(g, {kept[..i][k]}) && x in Reach(g, {kept[..i][j]});
    assert kept[..i][k] == kept[k] && kept[..i][j] == kept[j];
  }

  lemma ReachJoin(g: Graph, kept: seq<nat>, i: nat)
    requires i < |kept|
    ensures Reach(g, Elems(kept[..i + 1])) == Reach(g, Elems(kept[..i])) + Reach(g, {kept[i]})
  {
    hide Reach;
    Prefix(kept, i);
    Push(kept[..i], kept[i]);
    forall v: nat
      ensures v in Reach(g, Elems(kept[..i + 1])) <==> v in Reach(g, Elems(kept[..i])) || v in Reach(g, {kept[i]})
    {
      ReachFrom(g, Elems(kept[..i + 1]), v);
      ReachFrom(g, Elems(kept[..i]), v);
    }
  }

  /** The walk from `root` in progress: `white` was white when it began and `first` when the first walk
      did; `garbage` is what it visited, `white'` what is left. `looked`: it met a value
      that an earlier walk visited. */
  ghost predicate Walking(g: Graph, cyc: seq<bool>, start: set<nat>, first: set<nat>, white: set<nat>, root: nat,
        white': set<nat>, garbage: set<nat>, stack: seq<nat>, looked: bool) {
    && |cyc| == |g| && white == white' + garbage && white' !! garbage
    && (forall t :: t in stack ==> t in start && t < |g| && cyc[t] && t in Reach(g, {root}))
    && garbage <= Reach(g, {root})
    && Frontier(g, cyc, start - white', stack)
    && (looked ==> Reach(g, {root}) * (first - white) != {})
    && (!looked ==> Frontier(g, cyc, start - first + garbage, stack))
    && (root in stack || (root !in white' && (looked || root in start - first + garbage)))
  }

  lemma WalkStart(g: Graph, cyc: seq<bool>, start: set<nat>, first: set<nat>, white: set<nat>, root: nat)
    requires |cyc| == |g| && CyclicClosed(g, cyc, start - white) && CyclicClosed(g, cyc, start - first)
    requires root in start && root < |g| && cyc[root]
    ensures Walking(g, cyc, start, first, white, root, white, {}, [root], false)
  {
    ReachContains(g, {root}, root);
    assert start - first + {} == start - first && white + {} == white;
  }

  /** The top of the stack is not white any more. */
  lemma WalkSkip(g: Graph, cyc: seq<bool>, start: set<nat>, first: set<nat>, white: set<nat>, root: nat,
        white': set<nat>, garbage: set<nat>, stack: seq<nat>, looked: bool)
    requires Walking(g, cyc, start, first, white, root, white', garbage, stack, looked)
    requires stack != [] && stack[|stack| - 1] !in white'
    ensures var x := stack[|stack| - 1];
      Walking(g, cyc, start, first, white, root, white', garbage, stack[..|stack| - 1], looked || x in first - white)
  {
    hide Reach;
    var x := stack[|stack| - 1];
    Pop(stack);
    FrontierPop(g, cyc, start - white', stack);
    if !looked && x !in first - white {
      FrontierPop(g, cyc, start - first + garbage, stack);
    }
    if x in first - white {
      assert x in Reach(g, {root}) * (first - white);
    }
  }

  /** The top of the stack is white: the walk visits it. */
  lemma WalkVisit(g: Graph, cyc: seq<bool>, start: set<nat>, first: set<nat>, white: set<nat>, root: nat,
        white': set<nat>, garbage: set<nat>, stack: seq<nat>, looked: bool, stack': seq<nat>)
    requires Walking(g, cyc, start, first, white, root, white', garbage, stack, looked) && InRange(g)
    requires Closed(g, start)
    requires stack != [] && stack[|stack| - 1] in white' && stack[|stack| - 1] < |g|
    requires forall t :: t in stack' <==>
              t in stack[..|stack| - 1] || (t in g[stack[|stack| - 1]] && t < |cyc| && cyc[t])
    ensures var x := stack[|stack| - 1];
      Walking(g, cyc, start, first, white, root, white' - {x}, garbage + {x}, stack', looked)
  {
    hide Reach;
    var x := stack[|stack| - 1];
    Pop(stack);
    ReachClosed(g, {root});
    FrontierStep(g, cyc, start - white', x, stack, stack');
    assert start - white' + {x} == start - (white' - {x});
    if !looked {
      FrontierStep(g, cyc, start - first + garbage, x, stack, stack');
      assert start - first + garbage + {x} == start - first + (garbage + {x});
    }
    assert x in stack && x in start;
    forall t | t in stack'
      ensures t in start && t < |g| && cyc[t] && t in Reach(g, {root})
    {
      if t in stack[..|stack| - 1] {
        assert t in stack;
      }
    }
  }

  /** The walk visited exactly the white values that references reach from the root, and met
      a value that an earlier walk visited exactly when they reach one. */
  lemma WalkEnd(g: Graph, cyc: seq<bool>, start: set<nat>, first: set<nat>, white: set<nat>, root: nat,
        white': set<nat>, garbage: set<nat>, looked: bool)
    requires Walking(g, cyc, start, first, white, root, white', garbage, [], looked)
    requires Blocks(g, cyc, start) && white <= first <= start && (forall v :: v in first ==> cyc[v])
    requires root in start
    ensures white' == white - Reach(g, {root}) && root !in white' && CyclicClosed(g, cyc, start - white')
    ensures looked <==> Reach(g, {root}) * (first - white) != {}
  {
    hide Reach;
    FrontierEnd(g, cyc, start - white');
    CyclicInside(g, cyc, start - white', {root});
    if !looked {
      FrontierEnd(g, cyc, start - first + garbage);
      CyclicInside(g, cyc, start - first + garbage, {root});
    }
  }

  /** What the walks find shared is what the kept candidates share of the garbage. */
  lemma SharedExactly(g: Graph, cyc: seq<bool>, ext: seq<nat>, start: set<nat>, listed: set<nat>, s: set<nat>,
        white: set<nat>, kept: seq<nat>)
    requires Blocks(g, cyc, start) && Closed(g, start) && |ext| == |g| && Covered(g, ext, start, listed)
    requires s <= start && CyclicClosed(g, cyc, s) && start * listed <= s && Elems(kept) <= s
    requires white == s - Reach(g, Outer(g, ext, start, s)) && forall v :: v in s ==> cyc[v]
    requires forall v :: 0 <= v < |g| && v !in start ==> ext[v] == 0
    ensures Overlap(g, kept, white) <==> SharedGarbage(g, cyc, ext, kept)
  {
    hide In, Count, Reach, Covered, Overlap;
    var r := Reach(g, Held(ext));
    WhiteUnreached(g, cyc, ext, start, s, white);
    forall v | v in Held(ext)
      ensures v in start - white
    {
      if v in s {
        ReachContains(g, Outer(g, ext, start, s), v);
      }
    }
    ReachLeast(g, Held(ext), start - white);
    OutsideIsReached(g, cyc, ext, start, listed, s);
    ReachClosed(g, Held(ext));
    ReachLeast(g, Outer(g, ext, start, s), r);
    SameOverlap(g, cyc, s, white, (set x: nat | x < |g| && x < |cyc| && cyc[x] && x !in r), kept);
  }

  lemma SameOverlap(g: Graph, cyc: seq<bool>, s: set<nat>, white: set<nat>, c: set<nat>, kept: seq<nat>)
    requires InRange(g) && |cyc| == |g| && CyclicClosed(g, cyc, s) && Elems(kept) <= s
    requires forall u :: 0 <= u < |g| && !cyc[u] ==> g[u] == []
    requires white <= c && (forall x :: x in c ==> x < |g| && cyc[x]) && s * c <= white
    ensures Overlap(g, kept, white) <==> Overlap(g, kept, c)
  {
    hide Reach;
    if Overlap(g, kept, c) {
      var i, j, x :| 0 <= i < j < |kept| && x in c && x in Reach(g, {kept[i]}) && x in Reach(g, {kept[j]});
      assert kept[i] in Elems(kept);
      CyclicInside(g, cyc, s, {kept[i]});
      assert x in s * c;
    }
  }

  // ── Destruction ─────────────────────────────────────────────────────────────

  /** `x` contains every alive value all of whose references come from `x`. */
  ghost predicate LossClosed(g: Graph, ext: seq<nat>, alive: set<nat>, x: set<nat>) {
    forall v :: v in alive && v < |g| && v < |ext| && ext[v] == 0 && In(g, alive - x, v) == 0 ==> v in x
  }

  /** `r` is part of every such set. */
  ghost predicate Doomed(g: Graph, ext: seq<nat>, alive: set<nat>, r: set<nat>) {
    forall x: set<nat> :: LossClosed(g, ext, alive, x) ==> r <= x
  }

  lemma DoomedStep(g: Graph, ext: seq<nat>, alive: set<nat>, r: set<nat>, now: set<nat>, t: nat, r': set<nat>)
    requires Doomed(g, ext, alive, r) && alive - r <= now && r' <= r + {t}
    requires t in alive && t < |g| && t < |ext| && ext[t] == 0 && In(g, now, t) == 0
    ensures Doomed(g, ext, alive, r')
  {
    forall x: set<nat> | LossClosed(g, ext, alive, x)
      ensures t in x
    {
      InMonotone(g, alive - x, now, t);
    }
  }

  lemma KeepsAll(bits: seq<bool>)
    ensures Keeps(bits, bits)
  {
  }

  lemma KeepsOne(bits: seq<bool>, v: nat)
    requires v < |bits|
    ensures Keeps(bits, bits[v := true])
  {
  }

  lemma KeepsTwice(a: seq<bool>, b: seq<bool>, c: seq<bool>)
    requires Keeps(a, b) && Keeps(b, c)
    ensures Keeps(a, c)
  {
  }

  /** No bit was cleared. */
  ghost predicate Keeps(bits: seq<bool>, bits': seq<bool>) {
    |bits| == |bits'| && forall v :: 0 <= v < |bits| && bits[v] ==> bits'[v]
  }

  /** What the destroyed values referred to is destroyed, waiting on the stack, listed as a
      candidate, or unable to hold references. */
  ghost predicate Stranded(g: Graph, holder: seq<bool>, before: set<nat>, alive: set<nat>, stack: set<nat>,
        buffered: seq<bool>)
    requires |holder| == |g| == |buffered|
  {
    forall u, t :: u in before && u !in alive && u < |g| && t in g[u] && t in alive && t < |g| ==>
          t in stack || buffered[t] || !holder[t]
  }

  lemma NothingStranded(g: Graph, holder: seq<bool>, alive: set<nat>, stack: set<nat>, buffered: seq<bool>)
    requires |holder| == |g| == |buffered|
    ensures Stranded(g, holder, alive, alive, stack, buffered)
  {
  }

  lemma StrandedMore(g: Graph, holder: seq<bool>, before: set<nat>, alive: set<nat>, stack: set<nat>,
        buffered: seq<bool>, alive': set<nat>, stack': set<nat>, buffered': seq<bool>)
    requires |holder| == |g| == |buffered| == |buffered'|
    requires Stranded(g, holder, before, alive, stack, buffered)
    requires Stranded(g, holder, alive, alive', stack', buffered')
    requires alive' <= alive && forall t :: t in stack ==> t in stack' || t !in alive'
    requires Keeps(buffered, buffered')
    ensures Stranded(g, holder, before, alive', stack', buffered')
  {
  }

  lemma StrandedOne(g: Graph, holder: seq<bool>, before: set<nat>, x: nat, alive: set<nat>, stack: set<nat>,
        buffered: seq<bool>)
    requires |holder| == |g| == |buffered| && x < |g|
    requires forall t :: t in g[x] && t in alive && t < |g| ==> t in stack || buffered[t] || !holder[t]
    requires forall u :: u in before && u !in alive && u != x && u < |g| ==> g[u] == []
    ensures Stranded(g, holder, before, alive, stack, buffered)
  {
  }

  /** Garbage never gets lost: what references from outside do not reach, a root listed for
      the collector reaches. */
  ghost predicate Covered(g: Graph, ext: seq<nat>, alive: set<nat>, listed: set<nat>) {
    alive <= Reach(g, Held(ext) + alive * listed)
  }

  /** What the kind of a value says about its children. */
  ghost predicate Kinds(g: Graph, cyc: seq<bool>, holder: seq<bool>) {
    && |holder| == |cyc| == |g|
    && (forall u :: 0 <= u < |g| && holder[u] ==> cyc[u])
    && (forall u, t :: 0 <= u < |g| && !holder[u] && t in g[u] && t < |g| ==> !cyc[t])
  }

  /** Values were destroyed and references given back: garbage stays covered when every value
      that lost a reference is listed, unless it cannot hold references itself. */
  lemma CoverAfterLoss(g: Graph, cyc: seq<bool>, holder: seq<bool>, ext0: seq<nat>, ext: seq<nat>, alive0: set<nat>,
        alive: set<nat>, listed0: set<nat>, listed: set<nat>)
    requires Blocks(g, cyc, alive0) && Closed(g, alive0) && Closed(g, alive) && Kinds(g, cyc, holder) && alive <= alive0
    requires |ext0| == |ext| == |g|
    requires Covered(g, ext0, alive0, listed0)
    requires forall v :: v in alive && ext0[v] > 0 ==> ext[v] > 0 || v in listed || !holder[v]
    requires forall v :: 0 <= v < |g| && v !in alive0 ==> ext0[v] == 0
    requires forall u, t :: u in alive0 && u !in alive && t in g[u] && t in alive ==> t in listed || !holder[t]
    requires forall v :: v in alive && v in listed0 ==> v in listed
    requires forall v :: v in alive ==> ext[v] > 0 || In(g, alive, v) > 0
    ensures Covered(g, ext, alive, listed)
  {
    var seeds := Held(ext) + alive * listed;
    var r := Reach(g, seeds);
    ReachClosed(g, seeds);
    forall v | v in alive && (ext[v] > 0 || v in listed)
      ensures v in r
    {
      ReachContains(g, seeds, v);
    }
    var c := r + (alive0 - alive) + set u: nat | u < |g| && !holder[u];
    assert Closed(g, c);
    ReachLeast(g, Held(ext0) + alive0 * listed0, c);
    forall v | v in alive
      ensures v in r
    {
      ReachedOrHeld(g, cyc, holder, ext, alive, r, v);
    }
  }

  /** A set that contains the held values and the alive holders contains every alive value. */
  lemma ReachedOrHeld(g: Graph, cyc: seq<bool>, holder: seq<bool>, ext: seq<nat>, alive: set<nat>, r: set<nat>, v: nat)
    requires Blocks(g, cyc, alive) && Kinds(g, cyc, holder) && |ext| == |g|
    requires Closed(g, r) && forall u :: u in alive && (ext[u] > 0 || holder[u]) ==> u in r
    requires forall u :: u in alive ==> ext[u] > 0 || In(g, alive, u) > 0
    requires v in alive
    ensures v in r
  {
    if ext[v] == 0 && !holder[v] {
      InZero(g, alive, v);
      var p :| p in alive && p < |g| && v in g[p];
      if ext[p] == 0 && !holder[p] {
        InZero(g, alive, p);
        var q :| q in alive && q < |g| && p in g[q];
        assert holder[q];
      }
    }
  }

  /** Giving back a reference held from outside. */
  lemma ExtStep(g: Graph, cyc: seq<bool>, ext: seq<nat>, count: seq<int>, alive: set<nat>, v: nat)
    requires Blocks(g, cyc, alive) && Tally(g, cyc, ext, count, alive, {}, [])
    requires v in alive && ext[v] > 0
    ensures count[v] > 0
    ensures Tally(g, cyc, ext[v := ext[v] - 1], count[v := count[v] - 1], alive, {}, [])
    ensures count[v] == 1 ==> Doomed(g, ext[v := ext[v] - 1], alive, {v})
    ensures Doomed(g, ext[v := ext[v] - 1], alive, {})
  {
    var ext', count' := ext[v := ext[v] - 1], count[v := count[v] - 1];
    assert alive - {} == alive;
    assert count[v] == Owed(g, cyc, ext, alive, {}, v);
    forall u | u in alive
      ensures count'[u] == Owed(g, cyc, ext', alive, {}, u) + Count([], u)
    {
      assert count[u] == Owed(g, cyc, ext, alive, {}, u);
    }
    if count[v] == 1 {
      assert {} + {v} == {v};
      DoomedStep(g, ext', alive, {}, alive, v, {v});
    }
  }

  // ── What a collection leaves ────────────────────────────────────────────────

  lemma ReachLast(g: Graph, a: set<nat>, v: nat)
    requires v in Reach(g, a)
    ensures v in a || exists u :: u in Reach(g, a) && v in g[u]
  {
    var p :| Path(g, a, p, v);
    if |p| > 1 {
      var u := p[|p| - 2];
      assert Path(g, a, p[..|p| - 1], u);
      assert u in Reach(g, a) && v in g[u];
    }
  }

  /** The values that stay when the unreached part of `s` goes still have a reference. */
  lemma SurvivorHeld(g: Graph, cyc: seq<bool>, ext: seq<nat>, alive: set<nat>, s: set<nat>, white: set<nat>, v: nat)
    requires Blocks(g, cyc, alive) && |ext| == |g| && s <= alive && CyclicClosed(g, cyc, s)
    requires white == s - Reach(g, Outer(g, ext, alive, s))
    requires CyclicClosed(g, cyc, s - white)
    requires v in alive && v !in white && cyc[v]
    requires ext[v] > 0 || In(g, alive, v) > 0
    ensures ext[v] > 0 || In(g, alive - white, v) > 0
  {
    if ext[v] == 0 {
      InZero(g, alive - white, v);
      InZero(g, alive - s, v);
      InZero(g, alive, v);
      if v in s {
        ReachLast(g, Outer(g, ext, alive, s), v);
      }
      if v in s && v !in Outer(g, ext, alive, s) {
        var u :| u in Reach(g, Outer(g, ext, alive, s)) && v in g[u];
        ReachInside(g, cyc, s, Outer(g, ext, alive, s), u);
        assert u in alive - white;
      }
    }
  }

  lemma ReachInside(g: Graph, cyc: seq<bool>, s: set<nat>, a: set<nat>, u: nat)
    requires InRange(g) && |cyc| == |g| && CyclicClosed(g, cyc, s) && a <= s
    requires forall u :: 0 <= u < |g| && !cyc[u] ==> g[u] == []
    requires u in Reach(g, a) && u < |g| && g[u] != []
    ensures u in s
  {
    var c := s + set u: nat | u < |g| && !cyc[u];
    ReachLeast(g, a, c);
  }

  /** Once nothing of the subgraph `s` below `kept` is gray, white is what the members of `s`
      held from outside do not reach. */
  lemma AllSettled(g: Graph, cyc: seq<bool>, ext: seq<nat>, alive: set<nat>, color: seq<Color>, s: set<nat>,
          kept: set<nat>)
    requires Blocks(g, cyc, alive) && ScanColors(g, cyc, ext, alive, color, s) && Settled(g, cyc, color, s, [])
    requires kept <= s <= Reach(g, kept) && forall v :: v in kept ==> color[v] != Gray
    ensures forall v :: v in s ==> color[v] == White || color[v] == Black
    ensures forall v :: v in s ==> (color[v] == White <==> v !in Reach(g, Outer(g, ext, alive, s)))
  {
    hide In, Count, Reach, Outside;
    var leaves := set u: nat | u < |g| && !cyc[u];
    var settled := leaves + set v | v in s && color[v] != Gray;
    assert Closed(g, settled);
    ReachLeast(g, kept, settled);
    BlackIsReached(g, cyc, ext, alive, color, s);
  }

  /** The black values of `s` contain the outer ones, so they are what those reach. */
  lemma BlackIsReached(g: Graph, cyc: seq<bool>, ext: seq<nat>, alive: set<nat>, color: seq<Color>, s: set<nat>)
    requires Blocks(g, cyc, alive) && ScanColors(g, cyc, ext, alive, color, s)
    requires forall v :: v in s ==> color[v] != Gray
    ensures forall v :: v in s ==> (color[v] == Black <==> v in Reach(g, Outer(g, ext, alive, s)))
  {
    hide In, Count, Reach, Outside;
    var black := (set u: nat | u < |g| && !cyc[u]) + (s - NotBlack(color, s));
    assert Closed(g, black);
    ReachLeast(g, Outer(g, ext, alive, s), black);
  }

  /** Every walk of the reaper is over: nothing white is left. */
  lemma NothingWhite(g: Graph, cyc: seq<bool>, start: set<nat>, s: set<nat>, kept: set<nat>, white: set<nat>)
    requires Blocks(g, cyc, start) && s <= Reach(g, kept) && white <= s && (forall v :: v in white ==> cyc[v])
    requires kept <= start - white && CyclicClosed(g, cyc, start - white)
    ensures white == {}
  {
    ReachLeast(g, kept, (start - white) + set u: nat | u < |g| && !cyc[u]);
  }

  /** What stays is exactly what references from outside reach. */
  lemma CollectedExactly(g: Graph, cyc: seq<bool>, ext: seq<nat>, start: set<nat>, listed: set<nat>, s: set<nat>,
        white: set<nat>, alive: set<nat>)
    requires Blocks(g, cyc, start) && |ext| == |g| && Covered(g, ext, start, listed)
    requires s <= start && CyclicClosed(g, cyc, s) && start * listed <= s
    requires white == s - Reach(g, Outer(g, ext, start, s))
    requires alive <= start - white && Closed(g, alive)
    requires forall v :: 0 <= v < |g| && v !in alive ==> ext[v] == 0
    requires forall v :: v in alive ==> ext[v] > 0 || In(g, alive, v) > 0
    ensures alive == Reach(g, Held(ext))
  {
    var r := Reach(g, Held(ext));
    ReachLeast(g, Held(ext), alive);
    ReachClosed(g, Held(ext));
    OutsideIsReached(g, cyc, ext, start, listed, s);
    forall v | v in alive
      ensures v in r
    {
      if ext[v] > 0 {
        ReachContains(g, Held(ext), v);
      } else if cyc[v] {
        ReachLeast(g, Outer(g, ext, start, s), r);
      } else {
        InZero(g, alive, v);
        var u :| u in alive && u < |g| && v in g[u];
        assert cyc[u];
        ReachLeast(g, Outer(g, ext, start, s), r);
      }
    }
  }

  /** Garbage that could be part of a cycle is below the candidates, so what holds a member of
      `s` from outside `s` is not garbage. */
  lemma OutsideIsReached(g: Graph, cyc: seq<bool>, ext: seq<nat>, start: set<nat>, listed: set<nat>, s: set<nat>)
    requires Blocks(g, cyc, start) && |ext| == |g| && Covered(g, ext, start, listed)
    requires s <= start && CyclicClosed(g, cyc, s) && start * listed <= s
    ensures forall v :: v in start && v !in s && cyc[v] ==> v in Reach(g, Held(ext))
    ensures Outer(g, ext, start, s) <= Reach(g, Held(ext))
  {
    var r := Reach(g, Held(ext));
    ReachClosed(g, Held(ext));
    forall v | v in Held(ext)
      ensures v in r
    {
      ReachContains(g, Held(ext), v);
    }
    ReachLeast(g, Held(ext) + start * listed, r + s + set u: nat | u < |g| && !cyc[u]);
    forall v | v in Outer(g, ext, start, s)
      ensures v in r
    {
      if ext[v] == 0 {
        InZero(g, start - s, v);
        var u :| u in start - s && u < |g| && v in g[u];
        assert cyc[u];
      }
    }
  }

  lemma WhiteUnreached(g: Graph, cyc: seq<bool>, ext: seq<nat>, alive: set<nat>, s: set<nat>, white: set<nat>)
    requires Blocks(g, cyc, alive) && Closed(g, alive) && |ext| == |g| && s <= alive
    requires white == s - Reach(g, Outer(g, ext, alive, s))
    ensures Closed(g, alive - white)
  {
    var outer := Outer(g, ext, alive, s);
    ReachClosed(g, outer);
    forall u, t | u in alive - white && u < |g| && t in g[u]
      ensures t in alive - white
    {
      if t in s {
        InZero(g, alive - s, t);
        if t in outer {
          ReachContains(g, outer, t);
        }
      }
    }
  }

  lemma ExactlyCovered(g: Graph, ext: seq<nat>, alive: set<nat>, listed: set<nat>)
    requires InRange(g) && alive == Reach(g, Held(ext))
    ensures Covered(g, ext, alive, listed)
  {
    ReachGrow(g, Held(ext), alive * listed);
  }

  // ── Steps of compiled code ──────────────────────────────────────────────────

  lemma CoverGrow(g: Graph, ext: seq<nat>, alive: set<nat>, listed: set<nat>, g': Graph, ext': seq<nat>,
          alive': set<nat>)
    requires InRange(g) && InRange(g') && |g| <= |g'| && Covered(g, ext, alive, listed)
    requires Closed(g, Reach(g', Held(ext') + alive' * listed))
    requires forall v :: v in alive * listed ==> v in alive'
    requires Held(ext) <= Reach(g', Held(ext') + alive' * listed)
    requires forall v :: v in alive' ==> v < |g'| && (v in alive || v in Held(ext'))
    requires forall v :: v in alive ==> v < |g|
    ensures Covered(g', ext', alive', listed)
  {
    var seeds := Held(ext') + alive' * listed;
    forall v | v in seeds && v < |g'|
      ensures v in Reach(g', seeds)
    {
      ReachContains(g', seeds, v);
    }
    ReachLeast(g, Held(ext) + alive * listed, Reach(g', seeds));
  }

  lemma GrowStep(g: Graph, cyc: seq<bool>, ext: seq<nat>, count: seq<int>, alive: set<nat>, listed: set<nat>,
        canCycle: bool)
    requires Blocks(g, cyc, alive) && Closed(g, alive) && Tally(g, cyc, ext, count, alive, {}, [])
    requires Covered(g, ext, alive, listed)
    ensures InRange(g) && forall v :: v in alive ==> v < |g|
    ensures var g', cyc', ext', count', alive' := g + [[]], cyc + [canCycle], ext + [1], count + [1], alive + {|g|};
      Blocks(g', cyc', alive') && Closed(g', alive') && Tally(g', cyc', ext', count', alive', {}, []) &&
            Covered(g', ext', alive', listed)
  {
    var g', cyc', ext', count', alive' := g + [[]], cyc + [canCycle], ext + [1], count + [1], alive + {|g|};
    forall v | v in alive'
      ensures count'[v] == Owed(g', cyc', ext', alive', {}, v)
    {
      assert alive - {} == alive && alive' - {} == alive' && alive' - {|g|} == alive;
      InRemove(g', alive', |g|, v);
      InGrow(g, alive, v);
      if v == |g| {
        InZero(g, alive, v);
      } else {
        assert count[v] == Owed(g, cyc, ext, alive, {}, v);
      }
    }
    var seeds := Held(ext') + alive' * listed;
    ReachClosed(g', seeds);
    forall v | v in Held(ext)
      ensures v in Reach(g', seeds)
    {
      ReachContains(g', seeds, v);
    }
    assert forall u :: 0 <= u < |g| ==> g'[u] == g[u];
    CoverGrow(g, ext, alive, listed, g', ext', alive');
  }

  lemma RetainStep(g: Graph, cyc: seq<bool>, ext: seq<nat>, count: seq<int>, alive: set<nat>, listed: set<nat>, v: nat)
    requires Blocks(g, cyc, alive) && Tally(g, cyc, ext, count, alive, {}, []) && Covered(g, ext, alive, listed)
    requires v in alive
    ensures count[v] >= 0
    ensures var ext', count' := ext[v := ext[v] + 1], count[v := count[v] + 1];
      Tally(g, cyc, ext', count', alive, {}, []) && Covered(g, ext', alive, listed)
  {
    var ext', count' := ext[v := ext[v] + 1], count[v := count[v] + 1];
    TallyAt(g, cyc, ext, count, alive, {}, v);
    forall u | u in alive
      ensures count'[u] == Owed(g, cyc, ext', alive, {}, u)
    {
      TallyAt(g, cyc, ext, count, alive, {}, u);
    }
    var seeds := Held(ext') + alive * listed;
    ReachClosed(g, seeds);
    forall u | u in Held(ext)
      ensures u in Reach(g, seeds)
    {
      ReachContains(g, seeds, u);
    }
    CoverGrow(g, ext, alive, listed, g, ext', alive);
  }

  lemma PlacesGrow(g: Graph, cyc: seq<bool>, holder: seq<bool>, buffered: seq<bool>, dead: seq<bool>, alive: set<nat>,
        limbo: set<nat>, listed: set<nat>, gone: set<nat>, canCycle: bool, mayHold: bool)
    requires Partition(cyc, buffered, dead, alive, limbo, listed, gone) && Kinds(g, cyc, holder) && InRange(g)
    requires (mayHold ==> canCycle)
    ensures Partition(cyc + [canCycle], buffered + [false], dead + [false], alive + {|cyc|}, limbo, listed, gone)
    ensures Kinds(g + [[]], cyc + [canCycle], holder + [mayHold])
  {
    var g', cyc', holder' := g + [[]], cyc + [canCycle], holder + [mayHold];
    assert forall u :: 0 <= u < |g| ==> g'[u] == g[u] && cyc'[u] == cyc[u] && holder'[u] == holder[u];
    assert forall v :: 0 <= v < |cyc| ==> (buffered + [false])[v] == buffered[v] && (dead + [false])[v] == dead[v];
    forall u, t | 0 <= u < |g'| && !holder'[u] && t in g'[u] && t < |g'|
      ensures !cyc'[t]
    {
      assert u < |g| && t in g[u];
      var i :| 0 <= i < |g[u]| && g[u][i] == t;
    }
  }

  lemma CountRemove(s: seq<nat>, i: nat, v: nat)
    requires i < |s|
    ensures Count(s[..i] + s[i + 1..], v) + (if s[i] == v then 1 else 0) == Count(s, v)
  {
    assert s == s[..i] + s[i..];
    CountConcat(s[..i], s[i..], v);
    CountConcat(s[..i], s[i + 1..], v);
    CountSuffix(s, i, v);
  }

  /** A reference to `v` held from outside moves into `u`. */
  lemma StoreStep(g: Graph, cyc: seq<bool>, ext: seq<nat>, count: seq<int>, alive: set<nat>, listed: set<nat>, u: nat,
        v: nat)
    requires Blocks(g, cyc, alive) && Closed(g, alive) && Tally(g, cyc, ext, count, alive, {}, [])
    requires Covered(g, ext, alive, listed)
    requires u in alive && v in alive && cyc[u] && ext[v] > 0
    requires ext[v := ext[v] - 1][u] > 0
    ensures var g', ext' := g[u := g[u] + [v]], ext[v := ext[v] - 1];
      Blocks(g', cyc, alive) && Closed(g', alive) && Tally(g', cyc, ext', count, alive, {}, []) &&
            Covered(g', ext', alive, listed)
  {
    var g', ext' := g[u := g[u] + [v]], ext[v := ext[v] - 1];
    forall w | w in alive
      ensures count[w] == Owed(g', cyc, ext', alive, {}, w)
    {
      TallyAt(g, cyc, ext, count, alive, {}, w);
      assert alive - {} == alive;
      InUpdate(g, alive, u, g[u] + [v], w);
      CountConcat(g[u], [v], w);
      assert [v][..0] == [];
    }
    var seeds := Held(ext') + alive * listed;
    ReachClosed(g', seeds);
    ReachContains(g', seeds, u);
    forall w | w in Held(ext)
      ensures w in Reach(g', seeds)
    {
      if w != v {
        ReachContains(g', seeds, w);
      } else {
        ReachStep(g', seeds, u, v);
      }
    }
    assert forall w, t :: 0 <= w < |g| && t in g[w] ==> t in g'[w];
    CoverGrow(g, ext, alive, listed, g', ext', alive);
  }

  /** The reference `g[u][i]` moves out of `u`. */
  lemma TakeStep(g: Graph, cyc: seq<bool>, ext: seq<nat>, count: seq<int>, alive: set<nat>, listed: set<nat>, u: nat,
        i: nat)
    requires Blocks(g, cyc, alive) && Closed(g, alive) && Tally(g, cyc, ext, count, alive, {}, [])
    requires Covered(g, ext, alive, listed)
    requires u in alive && i < |g[u]|
    ensures var v := g[u][i];
      v in alive && v < |ext|
    ensures var v := g[u][i];
      var g', ext' := g[u := g[u][..i] + g[u][i + 1..]], ext[v := ext[v] + 1];
      Blocks(g', cyc, alive) && Closed(g', alive) && Tally(g', cyc, ext', count, alive, {}, []) &&
            Covered(g', ext', alive, listed)
  {
    hide *;
    TakeClosed(g, cyc, alive, u, i);
    var v := g[u][i];
    TakeTally(g, cyc, ext, count, alive, u, i);
    Without(g[u], i);
    TakeCover(g, ext, alive, listed, u, g[u][..i] + g[u][i + 1..], v);
  }

  lemma TakeClosed(g: Graph, cyc: seq<bool>, alive: set<nat>, u: nat, i: nat)
    requires Blocks(g, cyc, alive) && Closed(g, alive) && u in alive && i < |g[u]|
    ensures u < |g| && g[u][i] in alive && g[u][i] < |g| && InRange(g)
    ensures var g' := g[u := g[u][..i] + g[u][i + 1..]]; Blocks(g', cyc, alive) && Closed(g', alive)
  {
    assert g[u][i] in g[u];
    var g' := g[u := g[u][..i] + g[u][i + 1..]];
    Without(g[u], i);
    forall w, t | w in alive && w < |g'| && t in g'[w]
      ensures t in alive
    {
      assert t in g[w];
    }
  }

  lemma Without(s: seq<nat>, i: nat)
    requires i < |s|
    ensures forall t: nat :: t in s[..i] + s[i + 1..] ==> t in s
    ensures forall t: nat :: t in s ==> t in s[..i] + s[i + 1..] || t == s[i]
  {
    assert s == s[..i] + [s[i]] + s[i + 1..];
  }

  lemma TakeTally(g: Graph, cyc: seq<bool>, ext: seq<nat>, count: seq<int>, alive: set<nat>, u: nat, i: nat)
    requires Tally(g, cyc, ext, count, alive, {}, [])
    requires u in alive && u < |g| && i < |g[u]| && g[u][i] < |g|
    ensures |ext| == |g|
    ensures var v := g[u][i];
      Tally(g[u := g[u][..i] + g[u][i + 1..]], cyc, ext[v := ext[v] + 1], count, alive, {}, [])
  {
    var v := g[u][i];
    var s := g[u][..i] + g[u][i + 1..];
    forall w | w in alive && w < |g|
      ensures count[w] == Owed(g[u := s], cyc, ext[v := ext[v] + 1], alive, {}, w)
    {
      TallyAt(g, cyc, ext, count, alive, {}, w);
      assert alive - {} == alive;
      InUpdate(g, alive, u, s, w);
      CountRemove(g[u], i, w);
    }
  }

  lemma TakeCover(g: Graph, ext: seq<nat>, alive: set<nat>, listed: set<nat>, u: nat, s: seq<nat>, v: nat)
    requires InRange(g) && Covered(g, ext, alive, listed) && |ext| == |g| && v < |g| && u < |g|
    requires forall t :: t in s ==> t in g[u]
    requires forall t :: t in g[u] ==> t in s || t == v
    requires forall w :: w in alive ==> w < |g|
    ensures InRange(g[u := s]) && Covered(g[u := s], ext[v := ext[v] + 1], alive, listed)
  {
    var g', ext' := g[u := s], ext[v := ext[v] + 1];
    forall w, i | 0 <= w < |g'| && 0 <= i < |g'[w]|
      ensures g'[w][i] < |g'|
    {
      if w == u {
        assert s[i] in s;
      }
    }
    var seeds := Held(ext') + alive * listed;
    ReachClosed(g', seeds);
    forall w | w in Held(ext) + {v}
      ensures w in Reach(g', seeds)
    {
      ReachContains(g', seeds, w);
    }
    CoverGrow(g, ext, alive, listed, g', ext', alive);
  }

  // ── Freeing beside other threads ────────────────────────────────────────────

  lemma AbandonPlaces(cyc: seq<bool>, buffered: seq<bool>, dead: seq<bool>, alive: set<nat>, listed: set<nat>,
        gone: set<nat>, d: set<nat>)
    requires Partition(cyc, buffered, dead, alive, {}, listed, gone) && d <= alive && forall v :: v in d ==> v < |cyc|
    ensures Partition(cyc, buffered, dead, alive - d, d, listed, gone)
  {
  }

  /** The external references once those held by `d` count as such. */
  ghost function Surrender(g: Graph, ext: seq<nat>, alive: set<nat>, d: set<nat>): (r: seq<nat>)
    ensures |r| == |ext| && forall v :: 0 <= v < |ext| ==> r[v] == ext[v] + if v in alive - d then In(g, d, v) else 0
  {
    seq(|ext|, (v: nat) requires v < |ext| => ext[v] + if v in alive - d then In(g, d, v) else 0)
  }

  /** An unreferenced subgraph leaves the heap; the references it held become external. */
  lemma AbandonStep(g: Graph, cyc: seq<bool>, ext: seq<nat>, ext': seq<nat>, count: seq<int>, alive: set<nat>,
        listed: set<nat>, d: set<nat>)
    requires Blocks(g, cyc, alive) && Closed(g, alive - d) && Closed(g, alive) && d <= alive
    requires Tally(g, cyc, ext, count, alive, {}, []) && Covered(g, ext, alive, listed)
    requires |ext'| == |g| && forall v :: 0 <= v < |g| ==> ext'[v] == ext[v] + if v in alive - d then In(g, d, v) else 0
    requires forall v :: v in d ==> ext[v] == 0
    requires forall v :: 0 <= v < |g| && v !in alive ==> ext[v] == 0
    ensures Tally(g, cyc, ext', count, alive - d, {}, []) && Covered(g, ext', alive - d, listed)
  {
    forall v | v in alive - d
      ensures count[v] == Owed(g, cyc, ext', alive - d, {}, v)
    {
      TallyAt(g, cyc, ext, count, alive, {}, v);
      assert alive - {} == alive && alive - d - {} == alive - d && alive == (alive - d) + d;
      InSplit(g, alive - d, d, v);
    }
    var seeds := Held(ext') + (alive - d) * listed;
    var r := Reach(g, seeds);
    ReachClosed(g, seeds);
    forall v | v in alive - d && (ext'[v] > 0 || v in listed)
      ensures v in r
    {
      ReachContains(g, seeds, v);
    }
    forall u, t | u in d && u < |g| && t in g[u]
      ensures t in r + d
    {
      InZero(g, d, t);
    }
    ReachLeast(g, Held(ext) + alive * listed, r + d);
  }

  lemma AbandonDone(cyc: seq<bool>, buffered: seq<bool>, dead: seq<bool>, alive: set<nat>, limbo: set<nat>,
        listed: set<nat>, gone: set<nat>, x: nat)
    requires Partition(cyc, buffered, dead, alive, limbo, listed, gone) && x in limbo
    ensures x < |cyc| == |buffered| && x !in alive && x !in gone
    ensures Partition(cyc, buffered[x := false], dead, alive, limbo - {x}, listed - {x}, gone + {x})
  {
  }

  lemma ZeroOnlyDone(ext: seq<nat>, count: seq<int>, alive: set<nat>, zero: set<nat>, limbo: set<nat>, x: nat)
    requires ZeroOnly(ext, count, alive, zero, limbo) && x < |count| && x !in alive
    ensures ZeroOnly(ext, count[x := 0], alive, zero, limbo - {x})
  {
  }

  lemma TallyOther(g: Graph, cyc: seq<bool>, ext: seq<nat>, count: seq<int>, alive: set<nat>, x: nat)
    requires Tally(g, cyc, ext, count, alive, {}, []) && x < |count| && x !in alive
    ensures Tally(g, cyc, ext, count[x := 0], alive, {}, [])
  {
    forall v | v in alive && v < |g|
      ensures count[x := 0][v] == Owed(g, cyc, ext, alive, {}, v)
    {
      TallyAt(g, cyc, ext, count, alive, {}, v);
    }
  }

  lemma TintedElsewhere(alive: set<nat>, color: seq<Color>, buffered: seq<bool>, x: nat)
    requires Tinted(alive, color, buffered) && x !in alive && x < |buffered|
    ensures Tinted(alive, color, buffered[x := false])
  {
  }

  lemma CoverLess(g: Graph, ext: seq<nat>, alive: set<nat>, listed: set<nat>, x: nat)
    requires Covered(g, ext, alive, listed) && x !in alive
    ensures Covered(g, ext, alive, listed - {x})
  {
    assert alive * (listed - {x}) == alive * listed;
  }
}
