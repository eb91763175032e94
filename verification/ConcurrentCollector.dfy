/** The cycle collection that runs beside other threads: it changes no count, and works from
    what it reads of the heap. */
module ConcurrentCollector {
  import opened RefGraph
  import opened TrialDeletion
  import opened CycleCollector

  /** `ns` are the nodes of the values `ks`, in order. */
  ghost predicate Nodes(val: seq<nat>, ns: seq<nat>, ks: seq<nat>) {
    |ns| == |ks| && forall k :: 0 <= k < |ks| ==> ns[k] < |val| && val[ns[k]] == ks[k]
  }

  /** The nodes in `seen` are traced: their edges are recorded. The count of a value that is
      being destroyed is zero; it is taken to be live and left alone. The node `open` is being
      traced: its edges to `now` are recorded. */
  ghost predicate Records(edges: Graph, val: seq<nat>, count: seq<nat>, children: seq<seq<nat>>, live: seq<bool>,
        seen: set<nat>, traced: set<nat>, open: int, now: seq<nat>) {
    && |val| == |count| == |children| == |live|
    && (forall i :: i in seen ==> i < |val|)
    && (forall i :: 0 <= i < |val| ==> val[i] < |edges|)
    && (forall i :: 0 <= i < |val| ==> live[i] == (i in seen && count[i] == 0))
    && (forall i :: 0 <= i < |val| ==> (val[i] in traced <==> i in seen && count[i] > 0))
    && (forall i :: 0 <= i < |val| ==>
          Nodes(val, children[i], if val[i] in traced then edges[val[i]] else if i == open then now else []))
  }

  lemma RecordsMeet(edges: Graph, val: seq<nat>, count: seq<nat>, children: seq<seq<nat>>, live: seq<bool>,
        seen: set<nat>, traced: set<nat>, open: int, now: seq<nat>, t: nat, c: nat)
    requires Records(edges, val, count, children, live, seen, traced, open, now)
    requires t < |edges| && t !in traced && open < |val|
    ensures Records(edges, val + [t], count + [c], children + [[]], live + [false], seen, traced, open, now)
  {
    hide Nodes;
    var val', count', children', live' := val + [t], count + [c], children + [[]], live + [false];
    assert forall i :: 0 <= i < |val| ==>
          val'[i] == val[i] && count'[i] == count[i] && children'[i] == children[i] && live'[i] == live[i];
    forall i | 0 <= i < |val'|
      ensures Nodes(val', children'[i], if val'[i] in traced then edges[val'[i]] else if i == open then now else [])
    {
      if i < |val| {
        NodesGrow(val, t, children[i], if val[i] in traced then edges[val[i]] else if i == open then now else []);
      } else {
        NodesGrow(val, t, [], []);
      }
    }
  }

  lemma NodesGrow(val: seq<nat>, t: nat, ns: seq<nat>, ks: seq<nat>)
    ensures Nodes(val, ns, ks) ==> Nodes(val + [t], ns, ks)
    ensures Nodes(val + [t], [], [])
  {
  }

  lemma RecordsEdge(edges: Graph, val: seq<nat>, count: seq<nat>, children: seq<seq<nat>>, live: seq<bool>,
        seen: set<nat>, traced: set<nat>, i: nat, now: seq<nat>, j: nat)
    requires Records(edges, val, count, children, live, seen, traced, i, now)
    requires i < |val| && i !in seen && j < |val|
    ensures Records(edges, val, count, children[i := children[i] + [j]], live, seen, traced, i, now + [val[j]])
  {
    var children' := children[i := children[i] + [j]];
    forall k | 0 <= k < |val|
      ensures Nodes(val, children'[k],
                if val[k] in traced then edges[val[k]] else if k == i then now + [val[j]] else [])
    {
      assert Nodes(val, children[k], if val[k] in traced then edges[val[k]] else if k == i then now else []);
    }
  }

  /** The edges of `i` are all recorded: it is traced. */
  lemma RecordsSeen(edges: Graph, val: seq<nat>, count: seq<nat>, children: seq<seq<nat>>, live: seq<bool>,
        seen: set<nat>, traced: set<nat>, i: nat)
    requires i < |val| && val[i] < |edges| && Records(edges, val, count, children, live, seen, traced, i, edges[val[i]])
    requires i !in seen && count[i] > 0 && forall k :: 0 <= k < |val| && k != i ==> val[k] != val[i]
    ensures Records(edges, val, count, children, live, seen + {i}, traced + {val[i]}, -1, [])
  {
    forall k | 0 <= k < |val|
      ensures Nodes(val, children[k], if val[k] in traced + {val[i]} then edges[val[k]] else [])
    {
      assert Nodes(val, children[k], if val[k] in traced then edges[val[k]] else if k == i then edges[val[i]] else []);
    }
  }

  lemma RecordsDying(edges: Graph, val: seq<nat>, count: seq<nat>, children: seq<seq<nat>>, live: seq<bool>,
        seen: set<nat>, traced: set<nat>, i: nat)
    requires Records(edges, val, count, children, live, seen, traced, -1, [])
    requires i < |val| && i !in seen && count[i] == 0
    ensures Records(edges, val, count, children, live[i := true], seen + {i}, traced, -1, [])
  {
  }

  ghost function LiveSet(live: seq<bool>): set<nat> {
    set i: nat | i < |live| && live[i]
  }

  /** The children of a live node are live, unless the node waits on `stack`. */
  ghost predicate Pending(children: Graph, live: seq<bool>, stack: seq<nat>) {
    && |live| == |children| && InRange(children)
    && (forall u :: u in stack ==> u < |live| && live[u])
    && (forall u, c :: 0 <= u < |live| && live[u] && c in children[u] && c < |live| ==> live[c] || u in stack)
  }

  /** `live` grew, by nodes that the edges reach from those in `seeds`. */
  ghost predicate Grown(children: Graph, live0: seq<bool>, live: seq<bool>, seeds: set<nat>) {
    && |live| == |live0| == |children|
    && (forall i :: 0 <= i < |live| && live0[i] ==> live[i])
    && (LiveSet(live0) <= Reach(children, seeds) ==> LiveSet(live) <= Reach(children, seeds))
  }

  /** The survey of one collection: the fields of its nodes, one sequence each. Other threads
      keep changing the heap, so what the survey reads is arbitrary: `edges[v]` are the cyclic
      children that `v` had when they were read, `counts[v]` its count when the survey met it,
      and `touches(t, v)` whether a count change had marked `v` at time `t` of the survey. */
  class Survey {
    const edges: Graph
    const counts: seq<nat>
    const touches: (nat, nat) -> bool
    var val: seq<nat>
    var count: seq<nat>
    var internal: seq<nat>
    var children: seq<seq<nat>>
    var live: seq<bool>
    var root: seq<bool>
    var index: map<nat, nat>
    var clock: nat
    /** The nodes below this number are the roots. */
    ghost var enrolled: nat

    constructor (edges: Graph, counts: seq<nat>, touches: (nat, nat) -> bool)
      requires InRange(edges) && |counts| == |edges|
      ensures this.edges == edges && this.counts == counts && this.touches == touches
      ensures Indexed() && val == [] && enrolled == 0
    {
      this.edges, this.counts, this.touches := edges, counts, touches;
      val, count, internal, children, live, root := [], [], [], [], [], [];
      index, clock, enrolled := map[], 0, 0;
    }

    /** One node for each value met. */
    ghost predicate Indexed()
      reads `val, `count, `internal, `children, `live, `root, `index, `enrolled
    {
      && InRange(edges) && |counts| == |edges|
      && |val| == |count| == |internal| == |children| == |live| == |root|
      && enrolled <= |val| && (forall i :: 0 <= i < |root| ==> (root[i] <==> i < enrolled))
      && (forall v :: v in index ==> index[v] < |val| && val[index[v]] == v)
      && (forall i :: 0 <= i < |val| ==>
            val[i] in index && index[val[i]] == i && val[i] < |edges| && count[i] == counts[val[i]])
    }

    method NodeOf(v: nat) returns (i: nat)
      requires Indexed() && v < |edges|
      modifies `val, `count, `internal, `children, `live, `root, `index
      ensures Indexed() && i < |val| && val[i] == v
      ensures if v in old(index) then
                val == old(val) && count == old(count) && internal == old(internal) && children == old(children) &&
                      live == old(live) && root == old(root) && index == old(index)
              else
                && val == old(val) + [v] && count == old(count) + [counts[v]] && internal == old(internal) + [0] &&
                      children == old(children) + [[]]
                && live == old(live) + [false] && root == old(root) + [false] && index == old(index)[v := i] &&
                      i == |old(val)|
    {
      if v in index {
        return index[v];
      }
      i := |val|;
      val, count, internal, children := val + [v], count + [counts[v]], internal + [0], children + [[]];
      live, root, index := live + [false], root + [false], index[v := i];
    }

    // ── Tracing ───────────────────────────────────────────────────────────────

    /** `internal` counts the edges from the values in `traced`, and those to `now`. */
    ghost predicate Counted(traced: set<nat>, now: seq<nat>)
      reads `val, `internal, `index
    {
      && |internal| == |val|
      && (forall v :: v in traced ==> v in index)
      && (forall u, t :: u in traced && u < |edges| && t in edges[u] ==> t in index)
      && (forall t :: t in now ==> t in index)
      && (forall i :: 0 <= i < |val| ==> internal[i] == In(edges, traced, val[i]) + Count(now, val[i]))
    }

    ghost predicate Recorded(seen: set<nat>, traced: set<nat>, open: int, now: seq<nat>)
      reads `val, `count, `children, `live
    {
      Records(edges, val, count, children, live, seen, traced, open, now)
    }

    method Meet(t: nat, ghost seen: set<nat>, ghost traced: set<nat>, ghost open: int,
            ghost now: seq<nat>) returns (j: nat)
      requires Indexed() && Counted(traced, now) && Recorded(seen, traced, open, now)
      requires t < |edges| && open < |val|
      modifies `val, `count, `internal, `children, `live, `root, `index
      ensures Indexed() && Counted(traced, now) && Recorded(seen, traced, open, now)
      ensures j < |val| && val[j] == t && t in index
      ensures val == old(val) || (val == old(val) + [t] && j == |old(val)|)
      ensures forall v :: v in old(index) ==> v in index
    {
      hide In, Count, Records;
      InZero(edges, traced, t);
      CountMember(now, t);
      if t !in index {
        RecordsMeet(edges, val, count, children, live, seen, traced, open, now, t, counts[t]);
      }
      j := NodeOf(t);
    }

    /** Records the edge from the node `i` to the value `t`. */
    method Record(i: nat, t: nat, ghost seen: set<nat>, ghost traced: set<nat>, ghost now: seq<nat>) returns (j: nat)
      requires Indexed() && Counted(traced, now) && Recorded(seen, traced, i, now)
      requires i < |val| && i !in seen && t < |edges|
      modifies `val, `count, `internal, `children, `live, `root, `index
      ensures Indexed() && Counted(traced, now + [t]) && Recorded(seen, traced, i, now + [t])
      ensures j < |val| && val[j] == t
      ensures val == old(val) || (val == old(val) + [t] && j == |old(val)|)
    {
      hide *;
      j := Meet(t, seen, traced, i, now);
      CountEdge(j, traced, now);
      Link(i, j, seen, traced, now);
    }

    /** Records the node `j` as the next child of the node `i`. */
    method Link(i: nat, j: nat, ghost seen: set<nat>, ghost traced: set<nat>, ghost now: seq<nat>)
      requires Indexed() && Recorded(seen, traced, i, now) && i < |val| && i !in seen && j < |val|
      modifies `children
      ensures Indexed() && Recorded(seen, traced, i, now + [val[j]])
    {
      hide In, Count, Records;
      RecordsEdge(edges, val, count, children, live, seen, traced, i, now, j);
      children := children[i := children[i] + [j]];
    }

    method CountEdge(j: nat, ghost traced: set<nat>, ghost now: seq<nat>)
      requires Indexed() && Counted(traced, now) && j < |val|
      modifies `internal
      ensures Indexed() && Counted(traced, now + [val[j]])
    {
      hide In, Count;
      Push(now, val[j]);
      CountPushes(now, val[j]);
      internal := internal[j := internal[j] + 1];
    }

    ghost predicate Surveyed(seen: set<nat>, traced: set<nat>)
      reads `val, `count, `internal, `children, `live, `root, `index, `enrolled
    {
      Indexed() && Counted(traced, []) && Recorded(seen, traced, -1, [])
    }

    lemma SurveyFacts(seen: set<nat>, traced: set<nat>)
      requires Surveyed(seen, traced)
      ensures |val| == |count| == |live| == |children| == |root| == |internal|
      ensures forall i :: 0 <= i < |val| ==> val[i] < |edges| && val[i] in index && index[val[i]] == i
      ensures forall v :: v in index ==> index[v] < |val| && val[index[v]] == v
    {
    }

    /** Reads the children of the node `i` and records the edges to them. */
    method Expand(i: nat, stack: seq<nat>, ghost seen: set<nat>, ghost traced: set<nat>, ghost within: set<nat>)
      returns (stack': seq<nat>)
      requires Closed(edges, within) && forall k :: 0 <= k < |val| ==> val[k] in within
      requires Surveyed(seen, traced) && i < |val| == |count| && i !in seen && count[i] > 0
      modifies `val, `count, `internal, `children, `live, `root, `index
      ensures Surveyed(seen + {i}, traced + {old(val[i])})
      ensures forall k :: 0 <= k < |val| ==> val[k] in within
      ensures old(val) <= val && stack <= stack'
      ensures forall k: nat :: k in stack' ==> k < |val| || k in stack
      ensures forall k :: |old(val)| <= k < |val| ==> k in stack'
    {
      hide In, Count, Records, Counted, Nodes;
      stack' := stack;
      var v := val[i];
      ExpandStart(i, seen, traced);
      Start(edges[v]);
      for k := 0 to |edges[v]|
        invariant forall k :: 0 <= k < |val| ==> val[k] in within
        invariant Indexed() && Counted(traced, edges[v][..k]) && Recorded(seen, traced, i, edges[v][..k])
        invariant old(val) <= val && stack <= stack'
        invariant forall k: nat :: k in stack' ==> k < |val| || k in stack
        invariant forall k :: |old(val)| <= k < |val| ==> k in stack'
      {
        Prefix(edges[v], k);
        var j := Record(i, edges[v][k], seen, traced, edges[v][..k]);
        Push(stack', j);
        stack' := stack' + [j];
      }
      ExpandEnd(i, seen, traced);
    }

    lemma ExpandStart(i: nat, seen: set<nat>, traced: set<nat>)
      requires Surveyed(seen, traced) && i < |val| && i !in seen
      ensures Recorded(seen, traced, i, [])
    {
      forall k | 0 <= k < |val|
        ensures Nodes(val, children[k], if val[k] in traced then edges[val[k]] else if k == i then [] else [])
      {
        assert Nodes(val, children[k], if val[k] in traced then edges[val[k]] else if k == -1 then [] else []);
      }
    }

    lemma ExpandEnd(i: nat, seen: set<nat>, traced: set<nat>)
      requires Indexed() && i < |val| && i !in seen && count[i] > 0
      requires Counted(traced, edges[val[i]]) && Recorded(seen, traced, i, edges[val[i]])
      ensures Surveyed(seen + {i}, traced + {val[i]})
    {
      var v := val[i];
      assert v !in traced;
      RecordsSeen(edges, val, count, children, live, seen, traced, i);
      forall k | 0 <= k < |val|
        ensures internal[k] == In(edges, traced + {v}, val[k]) + Count([], val[k])
      {
        assert traced + {v} - {v} == traced;
        InRemove(edges, traced + {v}, v, val[k]);
      }
    }

    method Skip(i: nat, ghost seen: set<nat>, ghost traced: set<nat>)
      requires Surveyed(seen, traced) && i < |val| == |count| && i !in seen && count[i] == 0
      modifies `live
      ensures Surveyed(seen + {i}, traced)
    {
      hide In, Count, Records, Nodes;
      RecordsDying(edges, val, count, children, live, seen, traced, i);
      live := live[i := true];
    }

    /** Reads the whole subgraph below `roots`. */
    method Trace(roots: seq<nat>, ghost within: set<nat>) returns (ghost traced: set<nat>)
      requires Closed(edges, within) && forall i :: 0 <= i < |val| ==> val[i] in within
      requires Surveyed({}, {}) && forall i :: 0 <= i < |val| <==> i in roots
      modifies `val, `count, `internal, `children, `live, `root, `index
      ensures Surveyed(Below(|val|), traced)
      ensures forall i :: 0 <= i < |val| ==> val[i] in within
      ensures old(val) <= val
    {
      hide Surveyed, Below;
      SurveyFacts({}, {});
      var stack := roots;
      var seen: set<nat> := {};
      traced := {};
      ghost var done: set<nat> := {};
      while stack != []
        invariant Surveyed(seen, traced) && |count| == |val|
        invariant forall i :: 0 <= i < |val| ==> val[i] in within
        invariant old(val) <= val
        invariant forall i :: 0 <= i < |val| ==> i in seen || i in stack
        invariant forall k: nat :: k in stack ==> k < |val|
        invariant forall i :: i in seen ==> i < |val|
        invariant forall v :: v in done ==> v in Below(|edges|) && v in index && index[v] in seen
        decreases Below(|edges|) - done, |stack|
      {
        var i := stack[|stack| - 1];
        Pop(stack);
        ghost var stack0 := stack;
        stack := stack[..|stack| - 1];
        assert forall k: nat :: k in stack ==> k in stack0;
        SurveyFacts(seen, traced);
        if i in seen {
          continue;
        }
        ghost var v := val[i];
        assert v !in done;
        if count[i] == 0 {
          Skip(i, seen, traced);
        } else {
          stack := Expand(i, stack, seen, traced, within);
          traced := traced + {v};
        }
        seen, done := seen + {i}, done + {v};
        SurveyFacts(seen, traced);
      }
      assert seen == Below(|val|);
    }

    method AddRoot(v: nat) returns (i: nat)
      requires Surveyed({}, {}) && v < |edges| && v !in Elems(val) && enrolled == |val|
      modifies `val, `count, `internal, `children, `live, `root, `index, `enrolled
      ensures Surveyed({}, {}) && val == old(val) + [v] && i == |old(val)| && enrolled == |val|
    {
      hide In, Count, Records, Nodes;
      assert v !in index;
      i := Meet(v, {}, {}, -1, []);
      root := root[i := true];
      enrolled := |val|;
    }

    // ── Liveness ──────────────────────────────────────────────────────────────

    /** Marks the children of the live node `i` live; the new ones wait on the stack. */
    method SpreadFrom(i: nat, stack: seq<nat>, ghost seeds: set<nat>) returns (stack': seq<nat>)
      requires InRange(children) && |live| == |children| && i < |live| && live[i]
      requires forall u :: u in stack ==> u < |live| && live[u]
      modifies `live
      ensures Grown(children, old(live), live, seeds)
      ensures forall c :: c in children[i] && c < |live| ==> live[c]
      ensures forall u: nat :: u < |live| && live[u] ==> old(live[u]) || u in stack'
      ensures forall u :: u in stack ==> u in stack'
      ensures forall u :: u in stack' ==> u < |live| && live[u]
      ensures live == old(live) ==> stack' == stack
      ensures LiveSet(old(live)) <= LiveSet(live)
    {
      hide Reach;
      ReachClosed(children, seeds);
      stack' := stack;
      var ks := children[i];
      Start(ks);
      for k := 0 to |ks|
        invariant |live| == |children|
        invariant forall u :: 0 <= u < |live| ==> live[u] == (old(live[u]) || u in ks[..k])
        invariant forall u: nat :: u < |live| && live[u] ==> old(live[u]) || u in stack'
        invariant forall u :: u in stack ==> u in stack'
        invariant forall u :: u in stack' ==> u < |live| && live[u]
        invariant live == old(live) ==> stack' == stack
      {
        var c := ks[k];
        Prefix(ks, k);
        if !live[c] {
          Push(stack', c);
          live := live[c := true];
          assert live[c] && !old(live[c]);
          stack' := stack' + [c];
        }
      }
    }

    /** Marks live all that the nodes of `from` reach. */
    method Spread(from: seq<nat>, ghost seeds: set<nat>)
      requires Pending(children, live, from)
      modifies `live
      ensures Pending(children, live, []) && Grown(children, old(live), live, seeds)
    {
      hide Reach;
      var stack := from;
      while stack != []
        invariant Pending(children, live, stack) && Grown(children, old(live), live, seeds)
        decreases Below(|children|) - LiveSet(live), |stack|
      {
        ghost var stack0, live0 := stack, live;
        var i := stack[|stack| - 1];
        Pop(stack);
        stack := stack[..|stack| - 1];
        assert forall u: nat :: u in stack ==> u in stack0;
        stack := SpreadFrom(i, stack, seeds);
        if live != live0 {
          var u :| 0 <= u < |live| && live[u] && !live0[u];
          assert u in Below(|children|) - LiveSet(live0) && u !in Below(|children|) - LiveSet(live);
        }
      }
    }

    /** Whether a count change has marked the value of the node `i`, read now. */
    method Touched(i: nat) returns (r: bool)
      requires i < |val|
      modifies `clock
      ensures r == touches(old(clock), val[i]) && clock == old(clock) + 1
    {
      r := touches(clock, val[i]);
      clock := clock + 1;
    }

    /** No dead node below `n` was marked when it was last read, at `since` or later. */
    ghost predicate Checked(since: nat, n: nat)
      reads `val, `live, `clock
    {
      since <= clock && |live| == |val| && n <= |val| &&
      forall i :: 0 <= i < n && !live[i] ==> exists t :: since <= t < clock && !Marked(t, val[i])
    }

    ghost predicate Marked(t: nat, v: nat) {
      touches(t, v)
    }

    /** The nodes that a reference from elsewhere holds, or that a mark of another thread
        protects from `since` until now. */
    ghost function Seeds(live0: seq<bool>, since: nat): set<nat>
      reads `val, `count, `internal, `clock
    {
      set i: nat | i < |val| && i < |count| && i < |internal| && i < |live0| &&
        (live0[i] || count[i] > internal[i] || exists t :: since <= t < clock && Marked(t, val[i]))
    }

    ghost predicate Ready()
      reads `val, `count, `internal, `children, `live
    {
      |val| == |count| == |internal| == |children| == |live| && InRange(children)
    }

    lemma SeedsGrow(live0: seq<bool>, since: nat, seeds: set<nat>)
      requires Ready() && |live0| == |val| && seeds <= Seeds(live0, since)
      ensures Reach(children, seeds) <= Reach(children, Seeds(live0, since))
    {
      ReachGrow(children, seeds, Seeds(live0, since));
      assert seeds + Seeds(live0, since) == Seeds(live0, since);
    }

    /** Marks live the nodes held from elsewhere or marked by another thread. */
    method Sources() returns (newly: seq<nat>)
      requires Ready()
      modifies `live, `clock
      ensures Ready() && old(clock) <= clock
      ensures forall i :: 0 <= i < |val| ==> (live[i] <==> i in newly)
      ensures forall i :: 0 <= i < |val| && (old(live[i]) || count[i] > internal[i]) ==> live[i]
      ensures Checked(old(clock), |val|)
      ensures forall i: nat :: i in newly ==> i in Seeds(old(live), old(clock))
    {
      newly := [];
      for i := 0 to |val|
        invariant Ready() && old(clock) <= clock
        invariant forall k: nat :: k in newly ==> k < i
        invariant forall k :: 0 <= k < i ==> (live[k] <==> k in newly)
        invariant forall k :: i <= k < |val| ==> live[k] == old(live[k])
        invariant forall k :: 0 <= k < i && (old(live[k]) || count[k] > internal[k]) ==> live[k]
        invariant Checked(old(clock), i)
        invariant forall k: nat :: k in newly ==> k in Seeds(old(live), old(clock))
      {
        var source := live[i] || count[i] > internal[i];
        if !source {
          ghost var t := clock;
          source := Touched(i);
          assert source == Marked(t, val[i]);
        }
        if source {
          live := live[i := true];
          Push(newly, i);
          newly := newly + [i];
        }
      }
    }

    /** Marks live the dead nodes that another thread has marked meanwhile. */
    method Sweep() returns (newly: seq<nat>)
      requires Ready() && Pending(children, live, [])
      modifies `live, `clock
      ensures Ready() && Pending(children, live, newly) && old(clock) <= clock
      ensures forall i :: 0 <= i < |val| && old(live[i]) ==> live[i]
      ensures forall i :: 0 <= i < |val| && live[i] ==> old(live[i]) || i in newly
      ensures newly == [] ==> live == old(live)
      ensures newly != [] ==> exists i :: 0 <= i < |val| && live[i] && !old(live[i])
      ensures Checked(old(clock), |val|)
      ensures forall i: nat :: i in newly ==> i < |val| && exists t :: old(clock) <= t < clock && Marked(t, val[i])
    {
      newly := [];
      for i := 0 to |val|
        invariant clock >= old(clock) && live == old(live)
        invariant forall k: nat :: k in newly ==> k < i && !live[k]
        invariant forall k :: 0 <= k < i && !live[k] && k !in newly ==>
                  exists t :: old(clock) <= t < clock && !Marked(t, val[k])
        invariant forall k: nat :: k in newly ==> exists t :: old(clock) <= t < clock && Marked(t, val[k])
      {
        if !live[i] {
          ghost var t := clock;
          var touched := Touched(i);
          assert touched == Marked(t, val[i]);
          if touched {
            Push(newly, i);
            newly := newly + [i];
          }
        }
      }
      Start(newly);
      ghost var now := clock;
      for k := 0 to |newly|
        invariant |live| == |val| && clock == now
        invariant forall i :: 0 <= i < |val| ==> live[i] == (old(live[i]) || i in newly[..k])
        invariant k == 0 ==> live == old(live)
      {
        Prefix(newly, k);
        live := live[newly[k] := true];
      }
      if newly != [] {
        assert newly[0] in newly;
      }
    }

    /** Decides what is live. In the end no recorded edge leads from a live node to a dead one;
        a dead node has no reference but the recorded ones, and was not marked when last read,
        at `since` or later; and what is live is reached from a node that has a reason to be. */
    method MarkLive() returns (ghost since: nat)
      requires Ready()
      modifies `live, `clock
      ensures Ready() && Closed(children, LiveSet(live))
      ensures forall i :: 0 <= i < |val| && !live[i] ==> !old(live[i]) && count[i] <= internal[i]
      ensures old(clock) <= since && Checked(since, |val|)
      ensures LiveSet(live) <= Reach(children, Seeds(old(live), old(clock)))
    {
      hide Reach;
      since := clock;
      ghost var live0, clock0 := live, clock;
      var newly := Sources();
      ghost var seeds: set<nat> := Seeds(live0, clock0);
      SeedsReach(seeds, live);
      while newly != []
        invariant Ready() && Pending(children, live, newly) && |live0| == |val|
        invariant clock0 <= since <= clock && Checked(since, |val|)
        invariant forall i :: 0 <= i < |val| && !live[i] ==> !live0[i] && count[i] <= internal[i]
        invariant seeds <= Seeds(live0, clock0) && LiveSet(live) <= Reach(children, seeds)
        decreases Below(|val|) - LiveSet(live), |newly|
      {
        ghost var before := live;
        Spread(newly, seeds);
        assert LiveSet(before) <= LiveSet(live);
        ghost var spread := live;
        since := clock;
        newly := Sweep();
        assert LiveSet(spread) <= LiveSet(live);
        if newly != [] {
          ghost var i :| 0 <= i < |val| && live[i] && !spread[i];
          assert i in Below(|val|) - LiveSet(before) && i !in Below(|val|) - LiveSet(live);
        }
        SeedsSwept(live0, clock0, seeds, spread, newly);
        seeds := Seeds(live0, clock0);
      }
      SeedsGrow(live0, clock0, seeds);
      LiveIsClosed();
    }

    lemma LiveIsClosed()
      requires Ready() && Pending(children, live, [])
      ensures Closed(children, LiveSet(live))
    {
    }

    lemma SeedsReach(seeds: set<nat>, live: seq<bool>)
      requires Ready() && |live| == |val| && forall i: nat :: i < |live| && live[i] ==> i in seeds
      ensures LiveSet(live) <= Reach(children, seeds)
    {
      forall i | i in LiveSet(live)
        ensures i in Reach(children, seeds)
      {
        ReachContains(children, seeds, i);
      }
    }

    lemma SeedsSwept(live0: seq<bool>, clock0: nat, seeds: set<nat>, spread: seq<bool>, newly: seq<nat>)
      requires Ready() && |live0| == |val| == |spread| && seeds <= Seeds(live0, clock0)
      requires LiveSet(spread) <= Reach(children, seeds)
      requires forall i :: 0 <= i < |val| && live[i] ==> spread[i] || i in newly
      requires forall i: nat :: i in newly ==> i < |val| && exists t :: clock0 <= t < clock && Marked(t, val[i])
      ensures LiveSet(live) <= Reach(children, Seeds(live0, clock0))
    {
      SeedsGrow(live0, clock0, seeds);
      forall i | i in LiveSet(live)
        ensures i in Reach(children, Seeds(live0, clock0))
      {
        if !spread[i] {
          ReachContains(children, Seeds(live0, clock0), i);
        }
      }
    }
  }

  // ── Freeing ─────────────────────────────────────────────────────────────────

  /** The references that the garbage in `left` held, and those in `rest`, are still to be given
      back to the values of `kept`; apart from them the program holds what `ext0` says. */
  ghost predicate Owing(kids: Graph, ext: seq<nat>, ext0: seq<nat>, kept: set<nat>, left: set<nat>, rest: seq<nat>) {
    && |ext| == |ext0| == |kids|
    && (forall v {:trigger ext[v]} :: 0 <= v < |ext| ==>
          ext[v] == if v in kept then ext0[v] + In(kids, left, v) + Count(rest, v) else 0)
  }

  lemma OwingOpen(kids: Graph, ext: seq<nat>, ext0: seq<nat>, kept: set<nat>, left: set<nat>, x: nat)
    requires Owing(kids, ext, ext0, kept, left, []) && x in left && x < |kids|
    ensures Owing(kids, ext, ext0, kept, left - {x}, kids[x])
  {
    forall v | 0 <= v < |ext|
      ensures ext[v] == if v in kept then ext0[v] + In(kids, left - {x}, v) + Count(kids[x], v) else 0
    {
      InRemove(kids, left, x, v);
    }
  }

  /** One reference of the garbage: dropped when it leads to garbage, else given back. */
  lemma OwingStep(kids: Graph, ext: seq<nat>, ext0: seq<nat>, kept: set<nat>, left: set<nat>, t: nat, rest: seq<nat>)
    requires Owing(kids, ext, ext0, kept, left, [t] + rest) && t < |kids|
    ensures t !in kept ==> Owing(kids, ext, ext0, kept, left, rest)
    ensures t in kept ==> ext[t] > 0 && Owing(kids, ext[t := ext[t] - 1], ext0, kept, left, rest)
  {
    CountFirsts(t, rest);
  }

  lemma OwingDone(kids: Graph, ext: seq<nat>, ext0: seq<nat>, kept: set<nat>)
    requires Owing(kids, ext, ext0, kept, {}, [])
    requires forall v :: 0 <= v < |ext0| && v !in kept ==> ext0[v] == 0
    ensures ext == ext0
  {
    forall v | 0 <= v < |ext|
      ensures ext[v] == ext0[v]
    {
      InZero(kids, {}, v);
    }
  }

  /** Gives back the references that the garbage `x` holds to values that stay. */
  method GiveBack(h: Heap, x: nat, garbage: set<nat>, ghost ext0: seq<nat>, ghost kept: set<nat>, ghost left: set<nat>)
    requires h.Inv() && h.Idle() && h.collecting && x < |h.kids| && x !in left && x in garbage
    requires Owing(h.kids, h.ext, ext0, kept, left + {x}, [])
    requires forall t :: t in h.kids[x] ==> (t in kept <==> t !in garbage)
    modifies h`count, h`alive, h`gone, h`freed, h`deferred, h`color, h`buffered, h`roots, h`due, h`candidates, h`dead,
      h`ext, h`limit, h`collecting, h`clock
    ensures h.Inv() && h.Idle() && h.collecting && h.alive <= old(h.alive)
    ensures Owing(h.kids, h.ext, ext0, kept, left, [])
  {
    hide *;
    OwingOpen(h.kids, h.ext, ext0, kept, left + {x}, x);
    assert left + {x} - {x} == left;
    var ks := h.kids[x];
    Start(ks);
    assert ks[0..] == ks;
    for i := 0 to |ks|
      invariant h.Inv() && h.Idle() && h.collecting && h.alive <= old(h.alive)
      invariant Owing(h.kids, h.ext, ext0, kept, left, ks[i..])
    {
      assert ks[i..] == [ks[i]] + ks[i + 1..];
      h.KidsInRange(x, i);
      OwingStep(h.kids, h.ext, ext0, kept, left, ks[i], ks[i + 1..]);
      assert ks[i] in ks;
      if ks[i] !in garbage {
        var _, _ := h.Release(ks[i]);
      }
    }
    assert ks[|ks|..] == [];
  }

  /** Gives back what the garbage `list` held, then frees its blocks. */
  method FreeGarbage(h: Heap, list: seq<nat>, ghost ext0: seq<nat>, ghost start: set<nat>)
    requires h.Inv() && h.Idle() && h.collecting && Distinct(list) && h.limbo == Elems(list) <= start
    requires |ext0| == |h.kids| && h.ext == Surrender(h.kids, ext0, start, Elems(list))
    requires Closed(h.kids, start) && forall v :: 0 <= v < |ext0| && v !in start - Elems(list) ==> ext0[v] == 0
    modifies h`count, h`alive, h`gone, h`freed, h`deferred, h`color, h`buffered, h`roots, h`due, h`candidates, h`dead,
      h`ext, h`limit, h`collecting, h`clock, h`limbo, h`taken
    ensures h.Inv() && h.Idle() && h.collecting && h.limbo == {} && h.ext == ext0 && h.alive <= old(h.alive)
    ensures h.taken == old(h.taken) - Elems(list)
  {
    hide *;
    ghost var dead: set<nat> := Elems(list);
    ghost var kept: set<nat> := start - dead;
    h.LimboFacts();
    ElemsIn(list);
    Owed(h.kids, h.ext, ext0, start, dead);
    assert list[0..] == list;
    var garbage := set v | v in list;
    assert garbage == dead;
    for i := 0 to |list|
      invariant h.Inv() && h.Idle() && h.collecting && h.alive <= old(h.alive)
      invariant Owing(h.kids, h.ext, ext0, kept, Elems(list[i..]), [])
      invariant h.limbo == dead && h.taken == old(h.taken)
    {
      SuffixElems(list, i);
      assert list[i] in list;
      assert Elems(list[i + 1..]) + {list[i]} == Elems(list[i..]);
      ClosedAt(h.kids, start, list[i]);
      GiveBack(h, list[i], garbage, ext0, kept, Elems(list[i + 1..]));
    }
    assert list[|list|..] == [];
    Push([], 0);
    OwingDone(h.kids, h.ext, ext0, kept);
    assert old(h.taken) - (dead - dead) == old(h.taken);
    for i := 0 to |list|
      invariant h.Inv() && h.Idle() && h.collecting && h.ext == ext0 && h.alive <= old(h.alive)
      invariant h.limbo == Elems(list[i..]) && h.taken == old(h.taken) - (dead - Elems(list[i..]))
    {
      SuffixElems(list, i);
      ghost var taken: set<nat> := h.taken;
      h.FreeNow(list[i]);
      h.CollectingIsIdle();
      assert list[i] in dead && list[i] !in Elems(list[i + 1..]);
      assert taken - {list[i]} == old(h.taken) - (dead - Elems(list[i + 1..]));
    }
  }

  lemma ClosedAt(g: Graph, c: set<nat>, u: nat)
    requires Closed(g, c) && u in c && u < |g|
    ensures forall t :: t in g[u] ==> t in c
  {
  }

  lemma Owed(kids: Graph, ext: seq<nat>, ext0: seq<nat>, start: set<nat>, dead: set<nat>)
    requires |ext0| == |kids| && ext == Surrender(kids, ext0, start, dead)
    requires forall v :: 0 <= v < |ext0| && v !in start - dead ==> ext0[v] == 0
    ensures Owing(kids, ext, ext0, start - dead, dead, [])
  {
  }

  // ── A collection while no other thread changes the heap ─────────────────────

  /** The cyclic children of every value. */
  function Edges(kids: Graph, cyc: seq<bool>): (r: Graph)
    requires InRange(kids) && |cyc| == |kids|
    ensures InRange(r) && |r| == |kids|
    ensures forall v :: 0 <= v < |kids| ==> r[v] == CyclicChildren(kids[v], cyc)
  {
    var r := seq(|kids|, v requires 0 <= v < |kids| => CyclicChildren(kids[v], cyc));
    assert forall u, i :: 0 <= u < |r| && 0 <= i < |r[u]| ==> r[u][i] in r[u];
    r
  }

  /** The values of the dead nodes below `n`, in order. */
  function DeadValues(val: seq<nat>, live: seq<bool>, n: nat): seq<nat>
    requires n <= |val| == |live|
  {
    if n == 0 then [] else
    if live[n - 1] then DeadValues(val, live, n - 1) else DeadValues(val, live, n - 1) + [val[n - 1]]
  }

  lemma {:induction false} DeadValuesAre(val: seq<nat>, live: seq<bool>, n: nat)
    requires n <= |val| == |live| && forall i, j :: 0 <= i < j < |val| ==> val[i] != val[j]
    ensures Distinct(DeadValues(val, live, n))
    ensures forall i :: 0 <= i < n && !live[i] ==> val[i] in DeadValues(val, live, n)
    ensures forall v: nat :: v in DeadValues(val, live, n) ==> exists i :: 0 <= i < n && val[i] == v && !live[i]
  {
    if n > 0 {
      DeadValuesAre(val, live, n - 1);
      Push(DeadValues(val, live, n - 1), val[n - 1]);
    }
  }

  lemma InCyclic(kids: Graph, cyc: seq<bool>, d: set<nat>, v: nat)
    requires InRange(kids) && |cyc| == |kids| && v < |cyc| && cyc[v]
    ensures In(Edges(kids, cyc), d, v) == In(kids, d, v)
  {
    InBelowSame(Edges(kids, cyc), kids, d, v, |kids|);
  }

  /** What the survey of an unchanging heap finds dead is what trial deletion finds white: the
      part of the surveyed subgraph that no reference from outside the subgraph reaches. */
  lemma SameVerdict(kids: Graph, cyc: seq<bool>, ext: seq<nat>, count: seq<int>, alive: set<nat>, val: seq<nat>,
        internal: seq<nat>, children: Graph, live: seq<bool>, s: set<nat>)
    requires Blocks(kids, cyc, alive) && Tally(kids, cyc, ext, count, alive, {}, []) && s <= alive
    requires |val| == |internal| == |live| && Mirrors(kids, cyc, val, children) && s == Elems(val)
    requires forall i, j :: 0 <= i < j < |val| ==> val[i] != val[j]
    requires forall i :: 0 <= i < |val| ==> internal[i] == In(kids, s, val[i])
    requires forall i :: 0 <= i < |val| && !live[i] ==> count[val[i]] <= internal[i]
    requires Closed(children, LiveSet(live))
    requires LiveSet(live) <= Reach(children, set i: nat | i < |val| && count[val[i]] > internal[i])
    ensures forall i :: 0 <= i < |val| ==> (live[i] <==> val[i] in Reach(kids, Outer(kids, ext, alive, s)))
  {
    hide In, Count, Nodes, Mirrors, Reach, Tally;
    OuterCounts(kids, cyc, ext, count, alive, val, internal, s);
    var outer: set<nat> := Outer(kids, ext, alive, s);
    LiveIsReached(kids, cyc, outer, val, children, live, set i: nat | i < |val| && count[val[i]] > internal[i]);
    ReachedIsLive(kids, cyc, outer, val, children, live);
    forall i | 0 <= i < |val| && LiveValue(val, live, val[i])
      ensures live[i]
    {
      var j :| 0 <= j < |val| && val[j] == val[i] && live[j];
    }
  }

  lemma OuterCounts(kids: Graph, cyc: seq<bool>, ext: seq<nat>, count: seq<int>, alive: set<nat>, val: seq<nat>,
        internal: seq<nat>, s: set<nat>)
    requires Blocks(kids, cyc, alive) && Tally(kids, cyc, ext, count, alive, {}, []) && s <= alive
    requires |val| == |internal| && s == Elems(val)
    requires forall i :: 0 <= i < |val| ==> internal[i] == In(kids, s, val[i])
    ensures |ext| == |kids| && forall i :: 0 <= i < |val| ==> val[i] in s && val[i] < |count|
    ensures forall i :: 0 <= i < |val| ==> (count[val[i]] > internal[i] <==> val[i] in Outer(kids, ext, alive, s))
  {
    forall i | 0 <= i < |val|
      ensures val[i] in s && val[i] < |count| && (count[val[i]] > internal[i] <==> val[i] in Outer(kids, ext, alive, s))
    {
      assert val[i] in val;
      TallyAt(kids, cyc, ext, count, alive, {}, val[i]);
      assert alive - {} == alive == (alive - s) + s;
      InSplit(kids, alive - s, s, val[i]);
    }
  }

  /** The nodes stand for the values `val`, their children for the cyclic children of those. */
  ghost predicate Mirrors(kids: Graph, cyc: seq<bool>, val: seq<nat>, children: Graph) {
    && InRange(kids) && |cyc| == |kids| && |val| == |children|
    && (forall i :: 0 <= i < |val| ==>
          val[i] < |kids| && cyc[val[i]] && Nodes(val, children[i], CyclicChildren(kids[val[i]], cyc)))
  }

  lemma MirrorsDown(kids: Graph, cyc: seq<bool>, val: seq<nat>, children: Graph, i: nat, j: nat)
    requires Mirrors(kids, cyc, val, children) && i < |val| && j in children[i]
    ensures j < |val| && val[j] in kids[val[i]]
  {
    var ks := CyclicChildren(kids[val[i]], cyc);
    var k :| 0 <= k < |children[i]| && children[i][k] == j;
    assert Nodes(val, children[i], ks) && ks[k] in ks;
  }

  lemma MirrorsUp(kids: Graph, cyc: seq<bool>, val: seq<nat>, children: Graph, i: nat, t: nat) returns (j: nat)
    requires Mirrors(kids, cyc, val, children) && i < |val| && t in kids[val[i]] && t < |cyc| && cyc[t]
    ensures j in children[i] && j < |val| && val[j] == t
  {
    var ks := CyclicChildren(kids[val[i]], cyc);
    assert t in ks;
    var m :| 0 <= m < |ks| && ks[m] == t;
    assert Nodes(val, children[i], ks);
    j := children[i][m];
  }

  lemma LiveIsReached(kids: Graph, cyc: seq<bool>, outer: set<nat>, val: seq<nat>, children: Graph, live: seq<bool>,
        seeds: set<nat>)
    requires Mirrors(kids, cyc, val, children) && |val| == |live|
    requires forall i :: i in seeds ==> i < |val| && val[i] in outer
    requires LiveSet(live) <= Reach(children, seeds)
    ensures forall i :: 0 <= i < |val| && live[i] ==> val[i] in Reach(kids, outer)
  {
    hide CyclicChildren, Count, Nodes;
    var c := set i: nat | i < |val| && val[i] in Reach(kids, outer);
    ReachClosed(kids, outer);
    forall i, j | i in c && i < |children| && j in children[i]
      ensures j in c
    {
      MirrorsDown(kids, cyc, val, children, i, j);
    }
    forall i | i in seeds
      ensures i in c
    {
      ReachContains(kids, outer, val[i]);
    }
    ReachLeast(children, seeds, c);
    assert forall i :: 0 <= i < |val| && live[i] ==> i in LiveSet(live);
  }

  lemma ReachedIsLive(kids: Graph, cyc: seq<bool>, outer: set<nat>, val: seq<nat>, children: Graph, live: seq<bool>)
    requires Mirrors(kids, cyc, val, children) && |val| == |live|
    requires forall u :: 0 <= u < |kids| && !cyc[u] ==> kids[u] == []
    requires forall v :: v in outer ==> v in val
    requires forall i :: 0 <= i < |val| && val[i] in outer ==> live[i]
    requires Closed(children, LiveSet(live))
    ensures forall i :: 0 <= i < |val| && val[i] in Reach(kids, outer) ==> LiveValue(val, live, val[i])
  {
    hide CyclicChildren, Count, Nodes, Reach;
    var c := set u: nat | u < |kids| && (!cyc[u] || LiveValue(val, live, u));
    forall u, t | u in c && u < |kids| && t in kids[u]
      ensures t in c
    {
      var k :| 0 <= k < |kids[u]| && kids[u][k] == t;
      if cyc[t] {
        var i :| 0 <= i < |val| && val[i] == u && live[i];
        var j := MirrorsUp(kids, cyc, val, children, i, t);
        assert i in LiveSet(live);
        assert j in LiveSet(live);
      }
    }
    forall u | u in outer && u < |kids|
      ensures u in c
    {
      var i :| 0 <= i < |val| && val[i] == u;
      assert live[i];
    }
    ReachLeast(kids, outer, c);
    assert forall i :: 0 <= i < |val| && val[i] in Reach(kids, outer) ==> val[i] in c;
  }

  /** A live node stands for `u`. */
  ghost predicate LiveValue(val: seq<nat>, live: seq<bool>, u: nat) {
    |val| == |live| && exists j :: 0 <= j < |val| && val[j] == u && live[j]
  }

  /** The survey reads the heap `h`, which no other thread changes. */
  ghost predicate Reading(h: Heap, s: Survey)
    reads h`kids, h`cyclic, h`count
  {
    && InRange(h.kids) && |h.cyclic| == |h.kids| == |h.count| == |s.counts|
    && s.edges == Edges(h.kids, h.cyclic)
    && (forall v :: 0 <= v < |h.count| ==> s.counts[v] == h.count[v])
    && (forall t, v :: !s.Marked(t, v))
  }

  method NewSurvey(h: Heap) returns (s: Survey)
    requires h.Inv() && h.limbo == {}
    ensures fresh(s) && Reading(h, s) && s.Surveyed({}, {}) && s.val == [] && s.enrolled == 0
  {
    h.CountsAreNatural();
    var count, kids, cyclic := h.count, h.kids, h.cyclic;
    var counts: seq<nat> := seq(|count|, v requires 0 <= v < |count| => if count[v] >= 0 then count[v] else 0);
    s := new Survey(Edges(kids, cyclic), counts, (t, v) => false);
  }

  ghost function CyclicPart(cyc: seq<bool>, alive: set<nat>): set<nat> {
    set v | v in alive && v < |cyc| && cyc[v]
  }

  lemma CyclicPartHas(cyc: seq<bool>, alive: set<nat>, v: nat)
    ensures v in CyclicPart(cyc, alive) <==> v in alive && v < |cyc| && cyc[v]
  {
  }

  lemma CyclicPartClosed(kids: Graph, cyc: seq<bool>, alive: set<nat>)
    requires Blocks(kids, cyc, alive) && Closed(kids, alive)
    ensures Closed(Edges(kids, cyc), CyclicPart(cyc, alive))
  {
    hide CyclicChildren, Count;
  }

  /** Starts the survey with the roots that are not destroyed; the block of a destroyed one is
      freed. */
  method Roots(h: Heap, s: Survey, rs: seq<nat>) returns (starts: seq<nat>)
    requires h.Inv() && h.limbo == {} && Distinct(rs) && h.taken == Elems(rs)
    requires Reading(h, s) && s.Surveyed({}, {}) && s.val == [] && s.enrolled == 0
    modifies h`gone, h`freed, h`buffered, h`candidates, h`taken, s
    ensures h.Inv() && h.taken == Elems(s.val) && Elems(s.val) <= CyclicPart(h.cyclic, h.alive)
    ensures Reading(h, s) && s.enrolled == |s.val|
    ensures s.Surveyed({}, {}) && forall i :: 0 <= i < |s.val| <==> i in starts
  {
    hide *;
    starts := [];
    Push([], 0);
    assert rs[0..] == rs && Elems(s.val) + Elems(rs) == Elems(rs);
    for i := 0 to |rs|
      invariant h.Inv() && Reading(h, s) && s.Surveyed({}, {}) && s.enrolled == |s.val|
      invariant h.taken == Elems(s.val) + Elems(rs[i..]) && Elems(s.val) <= CyclicPart(h.cyclic, h.alive)
      invariant Elems(s.val) !! Elems(rs[i..])
      invariant forall i :: 0 <= i < |s.val| <==> i in starts
    {
      SuffixElems(rs, i);
      h.TakenFacts(rs[i]);
      if h.dead[rs[i]] {
        h.Forget(rs[i]);
        assert h.taken == Elems(s.val) + Elems(rs[i + 1..]);
      } else {
        Push(s.val, rs[i]);
        ReadingFacts(h, s);
        CyclicPartHas(h.cyclic, h.alive, rs[i]);
        var k := s.AddRoot(rs[i]);
        Push(starts, k);
        starts := starts + [k];
        assert h.taken == Elems(s.val) + Elems(rs[i + 1..]);
      }
    }
    assert rs[|rs|..] == [];
  }

  lemma ReadingFacts(h: Heap, s: Survey)
    requires Reading(h, s)
    ensures InRange(h.kids) && |h.cyclic| == |h.kids|
    ensures |s.edges| == |h.kids| && s.edges == Edges(h.kids, h.cyclic)
  {
  }

  /** The values of the live roots among the nodes below `n`, in order. */
  function LiveRoots(val: seq<nat>, live: seq<bool>, root: seq<bool>, n: nat): seq<nat>
    requires n <= |val| == |live| == |root|
  {
    if n == 0 then [] else
    if live[n - 1] && root[n - 1]
    then LiveRoots(val, live, root, n - 1) + [val[n - 1]]
    else LiveRoots(val, live, root, n - 1)
  }

  lemma {:induction false} LiveRootsAre(val: seq<nat>, live: seq<bool>, root: seq<bool>, n: nat)
    requires n <= |val| == |live| == |root| && forall i, j :: 0 <= i < j < |val| ==> val[i] != val[j]
    ensures Distinct(LiveRoots(val, live, root, n))
    ensures forall i :: 0 <= i < n && live[i] && root[i] ==> val[i] in LiveRoots(val, live, root, n)
    ensures forall v: nat :: v in LiveRoots(val, live, root, n) ==>
              exists i :: 0 <= i < n && val[i] == v && live[i] && root[i]
  {
    if n > 0 {
      LiveRootsAre(val, live, root, n - 1);
      Push(LiveRoots(val, live, root, n - 1), val[n - 1]);
    }
  }

  /** The members of `s` that `list` has, in its order. */
  ghost function Among(list: seq<nat>, s: set<nat>): seq<nat> {
    if list == [] then [] else
    Among(list[..|list| - 1], s) + if list[|list| - 1] in s then [list[|list| - 1]] else []
  }

  lemma AmongNext(list: seq<nat>, i: nat, s: set<nat>)
    requires i < |list|
    ensures Among(list[..i + 1], s) == if list[i] in s then Among(list[..i], s) + [list[i]] else Among(list[..i], s)
  {
    assert list[..i + 1][..i] == list[..i];
  }

  /** The roots that stay listed: live, and not destroyed while the garbage was freed. */
  method KeepRoots(h: Heap, live: seq<nat>) returns (kept: seq<nat>)
    requires h.Inv() && h.limbo == {} && Distinct(live) && h.taken == Elems(live)
    modifies h`gone, h`freed, h`buffered, h`candidates, h`taken
    ensures h.Inv() && h.taken == Elems(kept) && Distinct(kept)
    ensures kept == Among(live, h.alive) && Elems(kept) == Elems(live) * h.alive
    ensures Elems(h.freed) == old(Elems(h.freed)) + (Elems(live) - h.alive)
  {
    hide *;
    kept := [];
    Push([], 0);
    assert live[0..] == live && Elems([]) + Elems(live) == Elems(live);
    AmongNone(h.alive);
    for i := 0 to |live|
      invariant h.Inv() && Distinct(kept) && Elems(kept) !! Elems(live[i..])
      invariant h.taken == Elems(kept) + Elems(live[i..])
      invariant live[..0] == [] && kept == Among(live[..i], h.alive)
      invariant Elems(kept) == (Elems(live) - Elems(live[i..])) * h.alive && Elems(live[i..]) <= Elems(live)
      invariant Elems(h.freed) == old(Elems(h.freed)) + ((Elems(live) - Elems(live[i..])) - h.alive)
    {
      SuffixElems(live, i);
      AmongNext(live, i, h.alive);
      h.TakenFacts(live[i]);
      Push(kept, live[i]);
      Push(h.freed, live[i]);
      if h.dead[live[i]] {
        h.Forget(live[i]);
        assert h.taken == Elems(kept) + Elems(live[i + 1..]);
      } else {
        kept := kept + [live[i]];
        assert h.taken == Elems(kept) + Elems(live[i + 1..]);
      }
    }
    assert live[|live|..] == [] && live[..|live|] == live;
    assert Elems(kept) + {} == Elems(kept);
  }

  lemma AmongNone(s: set<nat>)
    ensures Among([], s) == []
  {
  }

  /** The traced survey of the heap `h`: every edge between the values met is recorded and
      counted, and nothing else is. */
  ghost predicate Faithful(h: Heap, s: Survey)
    reads h`kids, h`cyclic, h`count, h`alive, s`val, s`count, s`internal, s`children, s`index, s`root, s`enrolled
  {
    && Mirrors(h.kids, h.cyclic, s.val, s.children) && InRange(s.children)
    && |s.val| == |s.count| == |s.internal| == |s.root| && |h.count| == |h.kids|
    && (forall i, j :: 0 <= i < j < |s.val| ==> s.val[i] != s.val[j])
    && Elems(s.val) <= h.alive
    && (forall i :: 0 <= i < |s.val| ==> s.val[i] in s.index && s.index[s.val[i]] == i)
    && (forall i :: 0 <= i < |s.val| ==> s.count[i] == h.count[s.val[i]])
    && (forall i :: 0 <= i < |s.val| ==> s.internal[i] == In(h.kids, Elems(s.val), s.val[i]))
    && (forall i :: 0 <= i < |s.root| ==> (s.root[i] <==> i < s.enrolled)) && s.enrolled <= |s.root|
  }

  lemma AllTraced(h: Heap, s: Survey, traced: set<nat>)
    requires h.Inv() && h.limbo == {} && Reading(h, s) && s.Surveyed(Below(|s.val|), traced)
    requires forall i :: 0 <= i < |s.val| ==> s.val[i] in h.alive && s.val[i] < |h.cyclic| && h.cyclic[s.val[i]]
    ensures |s.val| == |s.count| == |s.live| && traced == Elems(s.val)
    ensures forall i :: 0 <= i < |s.val| ==> !s.live[i] && s.count[i] == h.count[s.val[i]]
  {
    hide *;
    forall i | 0 <= i < |s.val|
      ensures i < |s.count| == |s.live| && s.val[i] < |h.count| && s.val[i] in traced && !s.live[i]
      ensures s.count[i] == h.count[s.val[i]]
    {
      TracedOne(h, s, traced, i);
    }
    TracedSizes(h, s, traced);
    forall v | v in traced
      ensures v in s.val
    {
      TracedIsNode(h, s, traced, v);
    }
    ElemsAre(s.val, traced);
  }

  lemma ElemsAre(list: seq<nat>, all: set<nat>)
    requires (forall v :: v in all ==> v in list) && forall i :: 0 <= i < |list| ==> list[i] in all
    ensures all == Elems(list)
  {
  }

  lemma TracedSizes(h: Heap, s: Survey, traced: set<nat>)
    requires s.Surveyed(Below(|s.val|), traced)
    ensures |s.val| == |s.count| == |s.live|
  {
    hide In, Count, CyclicChildren, Nodes;
  }

  lemma TracedIsNode(h: Heap, s: Survey, traced: set<nat>, v: nat)
    requires s.Surveyed(Below(|s.val|), traced) && v in traced
    ensures v in s.val
  {
    hide In, Count, CyclicChildren, Nodes;
    assert v in s.index && s.val[s.index[v]] == v;
  }

  lemma TracedOne(h: Heap, s: Survey, traced: set<nat>, i: nat)
    requires h.Inv() && h.limbo == {} && Reading(h, s) && s.Surveyed(Below(|s.val|), traced)
    requires i < |s.val| && s.val[i] in h.alive && s.val[i] < |h.cyclic| && h.cyclic[s.val[i]]
    ensures i < |s.count| == |s.live| && s.val[i] < |h.count| && s.val[i] in traced && !s.live[i]
    ensures s.count[i] == h.count[s.val[i]]
  {
    hide In, Count, CyclicChildren, Nodes, Elems;
    h.AliveCounts();
    assert i in Below(|s.val|);
  }

  lemma AllMirrored(kids: Graph, cyc: seq<bool>, val: seq<nat>, count: seq<nat>, children: Graph, live: seq<bool>,
        seen: set<nat>, traced: set<nat>)
    requires InRange(kids) && |cyc| == |kids|
    requires Records(Edges(kids, cyc), val, count, children, live, seen, traced, -1, [])
    requires forall i :: 0 <= i < |val| ==> val[i] in traced && val[i] < |cyc| && cyc[val[i]]
    ensures Mirrors(kids, cyc, val, children) && InRange(children)
  {
    hide CyclicChildren, Count, Edges;
    forall i | 0 <= i < |val|
      ensures Nodes(val, children[i], CyclicChildren(kids[val[i]], cyc))
    {
      assert Nodes(val, children[i], if val[i] in traced then Edges(kids, cyc)[val[i]] else if i == -1 then [] else []);
    }
    forall i, k | 0 <= i < |children| && 0 <= k < |children[i]|
      ensures children[i][k] < |children|
    {
      assert Nodes(val, children[i], CyclicChildren(kids[val[i]], cyc));
    }
  }

  lemma AllCounted(h: Heap, s: Survey, traced: set<nat>)
    requires Reading(h, s) && s.Counted(traced, [])
    requires forall i :: 0 <= i < |s.val| ==> s.val[i] < |h.cyclic| && h.cyclic[s.val[i]]
    ensures |s.internal| == |s.val| && forall i :: 0 <= i < |s.val| ==> s.internal[i] == In(h.kids, traced, s.val[i])
  {
    hide In, CyclicChildren;
    forall i | 0 <= i < |s.val|
      ensures s.internal[i] == In(h.kids, traced, s.val[i])
    {
      InCyclic(h.kids, h.cyclic, traced, s.val[i]);
    }
  }

  lemma IsFaithful(h: Heap, s: Survey, traced: set<nat>)
    requires h.Inv() && h.limbo == {} && Reading(h, s) && s.Surveyed(Below(|s.val|), traced)
    requires forall i :: 0 <= i < |s.val| ==> s.val[i] in h.alive && s.val[i] < |h.cyclic| && h.cyclic[s.val[i]]
    ensures Faithful(h, s) && s.Ready() && forall i :: 0 <= i < |s.live| ==> !s.live[i]
  {
    hide In, Count, CyclicChildren, Nodes, Mirrors, Records;
    AllTraced(h, s, traced);
    s.SurveyFacts(Below(|s.val|), traced);
    ElemsIn(s.val);
    h.AliveCounts();
    AllMirrored(h.kids, h.cyclic, s.val, s.count, s.children, s.live, Below(|s.val|), traced);
    AllCounted(h, s, traced);
  }

  lemma MirrorsClosed(kids: Graph, cyc: seq<bool>, val: seq<nat>, children: Graph)
    requires Mirrors(kids, cyc, val, children) && InRange(children)
    ensures CyclicClosed(kids, cyc, Elems(val))
  {
    hide CyclicChildren, Count, Nodes;
    forall u, t | u in Elems(val) && u < |kids| && t in kids[u] && t < |kids| && cyc[t]
      ensures t in Elems(val)
    {
      var i :| 0 <= i < |val| && val[i] == u;
      var j := MirrorsUp(kids, cyc, val, children, i, t);
    }
  }

  lemma QuietSeeds(h: Heap, s: Survey, since: nat)
    requires Reading(h, s) && Faithful(h, s) && s.Ready()
    ensures forall i :: 0 <= i < |s.val| ==> s.val[i] < |h.count|
    ensures s.Seeds(seq(|s.val|, _ => false), since) == set i: nat | i < |s.val| && h.count[s.val[i]] > s.internal[i]
  {
    hide In, Count, CyclicChildren, Nodes;
  }

  lemma DeadAreUnreached(val: seq<nat>, live: seq<bool>, reached: set<nat>)
    requires |val| == |live| && forall i, j :: 0 <= i < j < |val| ==> val[i] != val[j]
    requires forall i :: 0 <= i < |val| ==> (live[i] <==> val[i] in reached)
    ensures Elems(DeadValues(val, live, |val|)) == Elems(val) - reached && Distinct(DeadValues(val, live, |val|))
    ensures forall i :: 0 <= i < |val| ==> (live[i] <==> val[i] !in Elems(val) - reached)
  {
    DeadValuesAre(val, live, |val|);
  }

  /** While no other thread interferes, the verdict is that of trial deletion. */
  lemma Verdict(h: Heap, s: Survey, since: nat)
    requires h.Inv() && h.limbo == {} && Reading(h, s) && Faithful(h, s) && s.Ready() && |h.ext| == |h.kids|
    requires Closed(s.children, LiveSet(s.live))
    requires forall i :: 0 <= i < |s.val| && !s.live[i] ==> s.count[i] <= s.internal[i]
    requires LiveSet(s.live) <= Reach(s.children, s.Seeds(seq(|s.val|, _ => false), since))
    ensures Elems(DeadValues(s.val, s.live, |s.val|)) ==
              Elems(s.val) - Reach(h.kids, Outer(h.kids, h.ext, h.alive, Elems(s.val)))
    ensures Distinct(DeadValues(s.val, s.live, |s.val|)) && Elems(s.val) <= h.alive
    ensures CyclicClosed(h.kids, h.cyclic, Elems(s.val))
    ensures forall i :: 0 <= i < |s.val| ==> (s.live[i] <==> s.val[i] !in Elems(DeadValues(s.val, s.live, |s.val|)))
  {
    hide *;
    h.InvTally();
    QuietSeeds(h, s, since);
    FaithfulFacts(h, s);
    SameVerdict(h.kids, h.cyclic, h.ext, h.count, h.alive, s.val, s.internal, s.children, s.live, Elems(s.val));
    DeadAreUnreached(s.val, s.live, Reach(h.kids, Outer(h.kids, h.ext, h.alive, Elems(s.val))));
    MirrorsClosed(h.kids, h.cyclic, s.val, s.children);
  }

  lemma FaithfulFacts(h: Heap, s: Survey)
    requires Faithful(h, s) && s.Ready()
    ensures Mirrors(h.kids, h.cyclic, s.val, s.children) && InRange(s.children) && |h.count| == |h.kids|
    ensures |s.val| == |s.count| == |s.internal| == |s.root| == |s.live| && Elems(s.val) <= h.alive
    ensures forall i, j :: 0 <= i < j < |s.val| ==> s.val[i] != s.val[j]
    ensures forall i :: 0 <= i < |s.val| ==> s.val[i] < |h.count| && s.count[i] == h.count[s.val[i]]
    ensures forall i :: 0 <= i < |s.val| ==> s.internal[i] == In(h.kids, Elems(s.val), s.val[i])
    ensures (forall i :: 0 <= i < |s.root| ==> (s.root[i] <==> i < s.enrolled)) && s.enrolled <= |s.root|
  {
    hide In, Count, CyclicChildren, Nodes;
  }
  /** Surveys the heap below the roots `rs` and decides what is dead. */
  method Judge(h: Heap, rs: seq<nat>) returns (s: Survey)
    requires h.Inv() && h.limbo == {} && Distinct(rs) && h.taken == Elems(rs)
    modifies h`gone, h`freed, h`buffered, h`candidates, h`taken
    ensures fresh(s) && h.Inv() && Reading(h, s) && Faithful(h, s) && s.Ready() && |h.ext| == |h.kids|
    ensures s.enrolled <= |s.val| && h.taken == Elems(s.val[..s.enrolled])
    ensures Closed(s.children, LiveSet(s.live))
    ensures forall i :: 0 <= i < |s.val| && !s.live[i] ==> s.count[i] <= s.internal[i]
    ensures LiveSet(s.live) <= Reach(s.children, s.Seeds(seq(|s.val|, _ => false), 0))
  {
    hide *;
    s := NewSurvey(h);
    var starts := Roots(h, s, rs);
    ghost var within: set<nat> := CyclicPart(h.cyclic, h.alive);
    h.InvTally();
    ReadingFacts(h, s);
    CyclicPartClosed(h.kids, h.cyclic, h.alive);
    ElemsIn(s.val);
    ghost var n := |s.val|;
    ghost var values := s.val;
    ghost var traced := s.Trace(starts, within);
    assert s.val[..n] == values;
    forall i | 0 <= i < |s.val|
      ensures s.val[i] in h.alive && s.val[i] < |h.cyclic| && h.cyclic[s.val[i]]
    {
      CyclicPartHas(h.cyclic, h.alive, s.val[i]);
    }
    IsFaithful(h, s, traced);
    FaithfulFacts(h, s);
    ghost var live0, clock0 := s.live, s.clock;
    assert live0 == seq(|s.val|, _ => false);
    ghost var since := s.MarkLive();
    QuietSeedsAnyTime(h, s, clock0);
  }

  lemma QuietSeedsAnyTime(h: Heap, s: Survey, since: nat)
    requires Reading(h, s) && Faithful(h, s) && s.Ready()
    ensures s.Seeds(seq(|s.val|, _ => false), since) == s.Seeds(seq(|s.val|, _ => false), 0)
  {
    QuietSeeds(h, s, since);
    QuietSeeds(h, s, 0);
  }

  lemma WhiteHasNoOwner(g: Graph, ext: seq<nat>, alive: set<nat>, s: set<nat>)
    requires |ext| == |g| && forall v :: v in s ==> v < |g|
    ensures forall v :: v in s - Reach(g, Outer(g, ext, alive, s)) ==> ext[v] == 0
  {
    forall v | v in s && ext[v] > 0
      ensures v in Reach(g, Outer(g, ext, alive, s))
    {
      ReachContains(g, Outer(g, ext, alive, s), v);
    }
  }

  /** What is left of the roots once the dead are gone. */
  lemma RootsLeft(val: seq<nat>, live: seq<bool>, root: seq<bool>, n: nat, dead: set<nat>)
    requires n <= |val| == |live| == |root| && forall i, j :: 0 <= i < j < |val| ==> val[i] != val[j]
    requires forall i :: 0 <= i < |val| ==> (root[i] <==> i < n) && (live[i] <==> val[i] !in dead)
    ensures Elems(val[..n]) - dead == Elems(LiveRoots(val, live, root, |val|))
    ensures Distinct(LiveRoots(val, live, root, |val|))
  {
    LiveRootsAre(val, live, root, |val|);
    forall v: nat
      ensures v in Elems(val[..n]) - dead <==> v in Elems(LiveRoots(val, live, root, |val|))
    {
      if v in Elems(val[..n]) - dead {
        var i :| 0 <= i < n && val[..n][i] == v;
        assert val[i] == v && live[i] && root[i];
      }
      if v in LiveRoots(val, live, root, |val|) {
        var i :| 0 <= i < |val| && val[i] == v && live[i] && root[i];
        assert val[..n][i] == v;
      }
    }
  }

  /** Collects below the roots `rs`; gives those that stay candidates. When no other thread
      interferes, the heap holds afterwards exactly what references from outside reach. */
  method Collect(h: Heap, rs: seq<nat>) returns (kept: seq<nat>)
    requires h.Inv() && h.collecting && h.limbo == {} && h.roots == [] && Distinct(rs)
    requires h.taken == h.candidates == Elems(rs)
    modifies h`count, h`alive, h`gone, h`freed, h`deferred, h`color, h`buffered, h`roots, h`due, h`candidates, h`dead,
      h`ext, h`limit, h`collecting, h`clock, h`limbo, h`taken
    ensures h.Inv() && h.collecting && h.limbo == {} && Distinct(kept) && h.taken == Elems(kept)
    ensures h.ext == old(h.ext) && h.alive == Reach(h.kids, Held(h.ext))
  {
    hide *;
    Push([], 0);
    var s := Judge(h, rs);
    ghost var kids, cyclic, ext, start, listed := h.kids, h.cyclic, h.ext, h.alive, h.candidates;
    ghost var surveyed: set<nat> := Elems(s.val);
    ghost var white: set<nat> := surveyed - Reach(kids, Outer(kids, ext, start, surveyed));
    h.InvTally();
    Verdict(h, s, 0);
    FaithfulFacts(h, s);
    SurveyedRoots(h, s);
    var list := DeadValues(s.val, s.live, |s.val|);
    WhiteUnreached(kids, cyclic, ext, start, surveyed, white);
    WhiteHasNoOwner(kids, ext, start, surveyed);
    h.Abandon(white);
    h.CollectingIsIdle();
    FreeGarbage(h, list, ext, start);
    RootsLeft(s.val, s.live, s.root, s.enrolled, white);
    kept := KeepRoots(h, LiveRoots(s.val, s.live, s.root, |s.val|));
    h.InvTally();
    CollectedExactly(kids, cyclic, ext, start, listed, surveyed, white, h.alive);
  }

  lemma SurveyedRoots(h: Heap, s: Survey)
    requires h.Inv() && h.roots == [] && s.enrolled <= |s.val| && h.taken == Elems(s.val[..s.enrolled])
    ensures h.candidates == h.taken <= Elems(s.val)
  {
  }

  /** A collection that changes no count, the other threads running on. When none of them
      interferes, it cleans the heap as trial deletion does. */
  method CollectConcurrent(h: Heap, lastEpoch: nat)
    requires h.Inv() && h.Idle() && !h.collecting
    modifies h
    ensures h.Inv() && h.Idle() && !h.collecting
    ensures h.kids == old(h.kids) && h.ext == old(h.ext) && h.cyclic == old(h.cyclic) && h.holder == old(h.holder)
    ensures h.alive == Reach(h.kids, Held(h.ext))
  {
    hide *;
    h.IdleMeans();
    h.BeginEpoch(lastEpoch);
    var rs := h.TakeRoots();
    var kept := Collect(h, rs);
    h.EndEpoch();
    Push([], 0);
    h.ReturnRoots(kept);
    h.collecting := false;
    h.IdleMeans();
  }
}
