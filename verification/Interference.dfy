/** The survey of a concurrent collection beside threads that go on changing the heap: what it
    calls dead, no thread can reach. */
module Interference {
  import opened RefGraph
  import opened TrialDeletion
  import opened ConcurrentCollector

  /** All references there are at one moment, those held from outside the heap included. A value
      not made yet has none. */
  datatype Moment = Moment(kids: Graph, ext: seq<nat>)

  /** `past(t)`: the heap at the moment `t` of the epoch. The survey read the children of `v` at
      the moment `read(v)`, its count at `met(v)`, and marks for the time `n` at `at(n)`. */
  datatype Course = Course(past: nat -> Moment, at: nat -> nat, read: nat -> nat, met: nat -> nat)

  ghost predicate Sound(m: Moment, cyc: seq<bool>) {
    && |m.kids| == |m.ext| == |cyc| && InRange(m.kids)
    && forall u :: 0 <= u < |cyc| && !cyc[u] ==> m.kids[u] == []
  }

  ghost function Refs(m: Moment, v: nat): nat
    requires v < |m.ext|
  {
    m.ext[v] + In(m.kids, Below(|m.kids|), v)
  }

  /** The same references lead to `v` at both moments. */
  ghost predicate SameRefs(m: Moment, m': Moment, v: nat) {
    && |m.kids| == |m'.kids| == |m.ext| == |m'.ext|
    && (v < |m.ext| ==> m.ext[v] == m'.ext[v])
    && (forall u :: 0 <= u < |m.kids| ==> Count(m.kids[u], v) == Count(m'.kids[u], v))
  }

  /** Children and counts were read as they were at some moment before the marks. */
  ghost predicate ReadTruly(c: Course, edges: Graph, counts: seq<nat>, cyc: seq<bool>) {
    && |cyc| == |edges| == |counts| && (forall t :: Sound(c.past(t), cyc))
    && (forall v :: 0 <= v < |edges| ==> c.read(v) <= c.at(0) && c.met(v) <= c.at(0))
    && (forall v :: 0 <= v < |edges| ==> edges[v] == CyclicChildren(c.past(c.read(v)).kids[v], cyc))
    && (forall v :: 0 <= v < |edges| ==> counts[v] == Refs(c.past(c.met(v)), v))
  }

  /** Whoever gives, takes or moves a reference to a value marks it: while its mark is not seen,
      the references to it are those of the beginning of the epoch. */
  ghost predicate MarksChanges(c: Course, touches: (nat, nat) -> bool) {
    && (forall n: nat, k: nat :: n <= k ==> c.at(n) <= c.at(k))
    && (forall n: nat, v: nat, t: nat :: t <= c.at(n) && !touches(n, v) ==> SameRefs(c.past(0), c.past(t), v))
  }

  lemma RefsSame(m: Moment, m': Moment, v: nat)
    requires SameRefs(m, m', v) && v < |m.ext|
    ensures Refs(m, v) == Refs(m', v)
  {
    InBelowSame(m.kids, m'.kids, Below(|m.kids|), v, |m.kids|);
  }

  /** The recorded edges to an unchanged value are the references to it. */
  lemma EdgesAre(c: Course, edges: Graph, counts: seq<nat>, cyc: seq<bool>, d: set<nat>, v: nat, until: nat)
    requires ReadTruly(c, edges, counts, cyc) && v < |cyc| && cyc[v] && c.at(0) <= until
    requires forall t: nat :: t <= until ==> SameRefs(c.past(0), c.past(t), v)
    ensures |c.past(0).kids| == |edges| && In(edges, d, v) == In(c.past(0).kids, d, v)
    ensures forall u :: 0 <= u < |edges| ==> (v in edges[u] <==> v in c.past(0).kids[u])
  {
    hide Count, CyclicChildren, InBelow;
    var m := c.past(0);
    assert Sound(m, cyc);
    forall u: nat | u < |edges|
      ensures Count(edges[u], v) == Count(m.kids[u], v) && (v in edges[u] <==> v in m.kids[u])
    {
      EdgeIs(c, edges, counts, cyc, u, v);
      CountMember(edges[u], v);
      CountMember(m.kids[u], v);
    }
    InBelowSame(edges, m.kids, d, v, |edges|);
  }

  lemma EdgeIs(c: Course, edges: Graph, counts: seq<nat>, cyc: seq<bool>, u: nat, v: nat)
    requires ReadTruly(c, edges, counts, cyc) && v < |cyc| && cyc[v] && u < |edges|
    requires SameRefs(c.past(0), c.past(c.read(u)), v)
    ensures |c.past(0).kids| == |edges| && Count(edges[u], v) == Count(c.past(0).kids[u], v)
  {
    hide Count, CyclicChildren;
    assert Sound(c.past(0), cyc) && Sound(c.past(c.read(u)), cyc);
  }

  /** A value that is counted no more often than recorded has only the recorded references. */
  lemma OnlyRecorded(m: Moment, traced: set<nat>, v: nat)
    requires v < |m.ext| == |m.kids| && Refs(m, v) <= In(m.kids, traced, v) && forall u :: u in traced ==> u < |m.kids|
    ensures m.ext[v] == 0 && forall u :: 0 <= u < |m.kids| && v in m.kids[u] ==> u in traced
  {
    var all := Below(|m.kids|);
    assert all == traced + (all - traced);
    InSplit(m.kids, traced, all - traced, v);
    InZero(m.kids, all - traced, v);
  }

  /** The nodes of a survey once everything is traced. */
  ghost predicate Drawn(edges: Graph, counts: seq<nat>, val: seq<nat>, count: seq<nat>, internal: seq<nat>,
        children: Graph, traced: set<nat>) {
    && |val| == |count| == |internal| == |children| && InRange(children) && |counts| == |edges|
    && (forall i, j :: 0 <= i < j < |val| ==> val[i] != val[j])
    && (forall i :: 0 <= i < |val| ==> val[i] < |edges| && count[i] == counts[val[i]])
    && (forall i :: 0 <= i < |val| ==> internal[i] == In(edges, traced, val[i]))
    && (forall i :: 0 <= i < |val| && val[i] in traced ==> Nodes(val, children[i], edges[val[i]]))
    && (forall v :: v in traced ==> v in val)
  }

  /** No live traced node has an edge to the dead node `i`. */
  lemma DeadParents(edges: Graph, counts: seq<nat>, val: seq<nat>, count: seq<nat>, internal: seq<nat>, children: Graph,
        live: seq<bool>, traced: set<nat>, i: nat, u: nat)
    requires Drawn(edges, counts, val, count, internal, children, traced) && |live| == |val|
    requires Closed(children, LiveSet(live)) && i < |val| && !live[i]
    requires u in traced && u < |edges| && val[i] in edges[u]
    ensures u in DeadValues(val, live, |val|)
  {
    hide In, Closed, InRange, DeadValues;
    var j :| 0 <= j < |val| && val[j] == u;
    var k :| 0 <= k < |edges[u]| && edges[u][k] == val[i];
    assert Nodes(val, children[j], edges[u]);
    assert children[j][k] == i;
    NotFrom(children, LiveSet(live), j, k);
    DeadValuesAre(val, live, |val|);
  }

  lemma NotFrom(g: Graph, c: set<nat>, u: nat, k: nat)
    requires Closed(g, c) && u < |g| && k < |g[u]| && g[u][k] !in c
    ensures u !in c
  {
    assert g[u][k] in g[u];
  }

  /** The references to a dead value, all the epoch long, come from dead values. */
  lemma DeadUnheld(c: Course, edges: Graph, counts: seq<nat>, touches: (nat, nat) -> bool, cyc: seq<bool>,
        val: seq<nat>, count: seq<nat>, internal: seq<nat>, children: Graph, live: seq<bool>, traced: set<nat>, i: nat,
        until: nat)
    requires ReadTruly(c, edges, counts, cyc)
    requires Drawn(edges, counts, val, count, internal, children, traced) && |live| == |val|
    requires Closed(children, LiveSet(live)) && c.at(0) <= until
    requires i < |val| && !live[i] && count[i] <= internal[i] && cyc[val[i]]
    requires forall t: nat :: t <= until ==> SameRefs(c.past(0), c.past(t), val[i])
    ensures var m := c.past(until);
      && Sound(m, cyc) && m.ext[val[i]] == 0
      && forall u :: 0 <= u < |m.kids| && val[i] in m.kids[u] ==> u in DeadValues(val, live, |val|)
  {
    hide In, Count, CyclicChildren, Nodes, DeadValues, Below;
    var v := val[i];
    var m0, m := c.past(0), c.past(until);
    assert Sound(m0, cyc) && Sound(m, cyc) && SameRefs(m0, m, v);
    EdgesAre(c, edges, counts, cyc, traced, v, until);
    assert SameRefs(m0, c.past(c.met(v)), v);
    RefsSame(m0, c.past(c.met(v)), v);
    TracedBelow(val, traced, edges);
    OnlyRecorded(m0, traced, v);
    forall u | 0 <= u < |m.kids| && v in m.kids[u]
      ensures u in DeadValues(val, live, |val|)
    {
      CountMember(m.kids[u], v);
      CountMember(m0.kids[u], v);
      DeadParents(edges, counts, val, count, internal, children, live, traced, i, u);
    }
  }

  lemma TracedBelow(val: seq<nat>, traced: set<nat>, edges: Graph)
    requires (forall i :: 0 <= i < |val| ==> val[i] < |edges|) && forall v :: v in traced ==> v in val
    ensures forall v :: v in traced ==> v < |edges|
  {
  }

  /** Nothing outside `d` refers to a member of `d`. */
  ghost predicate OnlyWithin(m: Moment, d: set<nat>) {
    && (forall v :: v in d ==> v < |m.ext| && m.ext[v] == 0)
    && (forall v, u :: v in d && 0 <= u < |m.kids| && v in m.kids[u] ==> u in d)
  }

  lemma OutOfReach(m: Moment, cyc: seq<bool>, d: set<nat>)
    requires Sound(m, cyc) && OnlyWithin(m, d)
    ensures d !! Reach(m.kids, Held(m.ext))
  {
    var c := Below(|m.kids|) - d;
    assert Closed(m.kids, c);
    ReachLeast(m.kids, Held(m.ext), c);
  }

  lemma TracedIsDrawn(s: Survey, traced: set<nat>)
    requires s.Surveyed(Below(|s.val|), traced)
    ensures Drawn(s.edges, s.counts, s.val, s.count, s.internal, s.children, traced) && s.Ready()
    ensures forall i :: 0 <= i < |s.val| && !s.live[i] ==> s.val[i] in traced
  {
    hide In, Count, Nodes, Records;
    RecordsDrawn(s.edges, s.val, s.count, s.children, s.live, Below(|s.val|), traced);
    assert forall v :: v in traced ==> v in s.index && s.val[s.index[v]] == v;
    forall i | 0 <= i < |s.val|
      ensures s.internal[i] == In(s.edges, traced, s.val[i])
    {
      Start([]);
    }
  }

  lemma RecordsDrawn(edges: Graph, val: seq<nat>, count: seq<nat>, children: Graph, live: seq<bool>, seen: set<nat>,
        traced: set<nat>)
    requires Records(edges, val, count, children, live, seen, traced, -1, []) && seen == Below(|val|)
    ensures |live| == |val| == |children| && InRange(children)
    ensures forall i :: 0 <= i < |val| && val[i] in traced ==>
              val[i] < |edges| && Nodes(val, children[i], edges[val[i]])
    ensures forall i :: 0 <= i < |val| && !live[i] ==> val[i] in traced
  {
    forall i, k | 0 <= i < |children| && 0 <= k < |children[i]|
      ensures children[i][k] < |children|
    {
      assert Nodes(val, children[i], if val[i] in traced then edges[val[i]] else if i == -1 then [] else []);
    }
    forall i | 0 <= i < |val| && val[i] in traced
      ensures Nodes(val, children[i], edges[val[i]])
    {
      assert Nodes(val, children[i], if val[i] in traced then edges[val[i]] else if i == -1 then [] else []);
    }
  }

  lemma CyclicAreClosed(c: Course, edges: Graph, counts: seq<nat>, cyc: seq<bool>, within: set<nat>)
    requires ReadTruly(c, edges, counts, cyc) && forall v: nat :: v in within <==> v < |cyc| && cyc[v]
    ensures Closed(edges, within) && InRange(edges)
  {
    hide Count;
    forall u, k | 0 <= u < |edges| && 0 <= k < |edges[u]|
      ensures edges[u][k] < |edges| && cyc[edges[u][k]]
    {
      assert Sound(c.past(c.read(u)), cyc);
      assert edges[u][k] in edges[u];
    }
  }

  /** The dead nodes of a survey whose live part is closed and whose dead part was unmarked at
      the last look. */
  lemma DeadIsGarbage(s: Survey, cyc: seq<bool>, c: Course, traced: set<nat>, since: nat)
    requires ReadTruly(c, s.edges, s.counts, cyc) && MarksChanges(c, s.touches) && s.Ready()
    requires Drawn(s.edges, s.counts, s.val, s.count, s.internal, s.children, traced)
    requires Closed(s.children, LiveSet(s.live)) && s.Checked(since, |s.val|) && |s.val| == |s.live|
    requires forall i :: 0 <= i < |s.val| && !s.live[i] ==> s.count[i] <= s.internal[i]
    requires forall i :: 0 <= i < |s.val| ==> s.val[i] < |cyc| && cyc[s.val[i]]
    ensures var dead := DeadValues(s.val, s.live, |s.val|);
      var m := c.past(c.at(since));
      && Distinct(dead) && c.at(0) <= c.at(since) && Sound(m, cyc) && OnlyWithin(m, Elems(dead))
      && Elems(dead) !! Reach(m.kids, Held(m.ext))
  {
    hide In, Count, CyclicChildren, Nodes, DeadValues, Below, Reach, ReadTruly, Drawn, LiveSet, Closed;
    var dead := DeadValues(s.val, s.live, |s.val|);
    var m := c.past(c.at(since));
    DrawnOnce(s.edges, s.counts, s.val, s.count, s.internal, s.children, traced);
    DeadValuesAre(s.val, s.live, |s.val|);
    TrueMoments(c, s.edges, s.counts, cyc, c.at(since));
    forall v | v in dead
      ensures v < |m.ext| && m.ext[v] == 0 && forall u :: 0 <= u < |m.kids| && v in m.kids[u] ==> u in dead
    {
      var i :| 0 <= i < |s.val| && s.val[i] == v && !s.live[i];
      var n :| since <= n < s.clock && !s.Marked(n, v);
      UnmarkedSince(c, s.touches, v, since, n);
      DeadUnheld(c, s.edges, s.counts, s.touches, cyc, s.val, s.count, s.internal, s.children, s.live, traced, i,
            c.at(since));
    }
    ElemsIn(dead);
    OutOfReach(m, cyc, Elems(dead));
  }

  lemma DrawnOnce(edges: Graph, counts: seq<nat>, val: seq<nat>, count: seq<nat>, internal: seq<nat>, children: Graph,
        traced: set<nat>)
    requires Drawn(edges, counts, val, count, internal, children, traced)
    ensures forall i, j :: 0 <= i < j < |val| ==> val[i] != val[j]
  {
  }

  lemma TrueMoments(c: Course, edges: Graph, counts: seq<nat>, cyc: seq<bool>, t: nat)
    requires ReadTruly(c, edges, counts, cyc)
    ensures Sound(c.past(t), cyc)
  {
  }

  /** Every dead node was unmarked when last looked at, after `since`. */
  lemma UnmarkedSince(c: Course, touches: (nat, nat) -> bool, v: nat, since: nat, n: nat)
    requires MarksChanges(c, touches) && since <= n && !touches(n, v)
    ensures forall t: nat :: t <= c.at(since) ==> SameRefs(c.past(0), c.past(t), v)
  {
    assert c.at(since) <= c.at(n);
  }

  ghost function CyclicOf(cyc: seq<bool>): set<nat> {
    set v: nat | v < |cyc| && cyc[v]
  }

  lemma CyclicOfIs(cyc: seq<bool>)
    ensures forall v: nat :: v in CyclicOf(cyc) <==> v < |cyc| && cyc[v]
  {
  }

  method NewSurvey(edges: Graph, counts: seq<nat>, touches: (nat, nat) -> bool) returns (s: Survey)
    requires InRange(edges) && |counts| == |edges|
    ensures fresh(s) && s.edges == edges && s.counts == counts && s.touches == touches
    ensures s.Surveyed({}, {}) && s.val == [] && s.enrolled == 0
  {
    s := new Survey(edges, counts, touches);
  }

  /** A node for each root. */
  method Enroll(s: Survey, rs: seq<nat>) returns (starts: seq<nat>)
    requires s.Surveyed({}, {}) && s.val == [] && s.enrolled == 0 && Distinct(rs)
    requires forall r :: r in rs ==> r < |s.edges|
    modifies s
    ensures s.Surveyed({}, {}) && s.val == rs && forall i :: 0 <= i < |s.val| <==> i in starts
  {
    hide *;
    starts := [];
    for k := 0 to |rs|
      invariant s.Surveyed({}, {}) && s.val == rs[..k] && s.enrolled == |s.val|
      invariant forall i :: 0 <= i < |s.val| <==> i in starts
    {
      Prefix(rs, k);
      DistinctBefore(rs, k);
      ElemsIn(s.val);
      var i := s.AddRoot(rs[k]);
      Push(starts, i);
      starts := starts + [i];
    }
    assert rs[..|rs|] == rs;
  }

  lemma {:induction false} DistinctBefore(rs: seq<nat>, k: nat)
    requires Distinct(rs) && k < |rs|
    ensures rs[k] !in rs[..k]
  {
    if k < |rs| - 1 {
      DistinctBefore(rs[..|rs| - 1], k);
      assert rs[..|rs| - 1][..k] == rs[..k];
    }
  }

  /** One collection decides beside other threads. If reads are true and changes are marked, no
      thread can reach what it finds dead, from the moment `end` of its last look at the marks: nothing from
      outside the heap and no other value refers to it. */
  method Decide(rs: seq<nat>, edges: Graph, counts: seq<nat>, touches: (nat, nat) -> bool, ghost cyc: seq<bool>,
        ghost c: Course)
    returns (dead: seq<nat>, ghost end: nat)
    requires ReadTruly(c, edges, counts, cyc) && MarksChanges(c, touches) && InRange(edges)
    requires Distinct(rs) && forall r :: r in rs ==> r < |cyc| && cyc[r]
    ensures Distinct(dead) && c.at(0) <= end && Sound(c.past(end), cyc)
    ensures OnlyWithin(c.past(end), Elems(dead)) && Elems(dead) !! Reach(c.past(end).kids, Held(c.past(end).ext))
  {
    hide *;
    ghost var within: set<nat> := CyclicOf(cyc);
    CyclicOfIs(cyc);
    CyclicAreClosed(c, edges, counts, cyc, within);
    TrueSizes(c, edges, counts, cyc);
    var s := NewSurvey(edges, counts, touches);
    var starts := Enroll(s, rs);
    assert forall i :: 0 <= i < |s.val| ==> s.val[i] in rs;
    ghost var traced := s.Trace(starts, within);
    TracedIsDrawn(s, traced);
    ghost var since := s.MarkLive();
    ReadySizes(s);
    DeadIsGarbage(s, cyc, c, traced, since);
    dead := DeadValues(s.val, s.live, |s.val|);
    end := c.at(since);
  }

  lemma ReadySizes(s: Survey)
    requires s.Ready()
    ensures |s.val| == |s.live|
  {
  }

  lemma TrueSizes(c: Course, edges: Graph, counts: seq<nat>, cyc: seq<bool>)
    requires ReadTruly(c, edges, counts, cyc)
    ensures |cyc| == |edges| == |counts|
  {
  }
}
