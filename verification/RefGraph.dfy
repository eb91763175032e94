/** References between heap values, as a directed multigraph.

    A value is a number below `|g|`; `g[u]` lists the counted references that `u` holds, one
    element per reference, so that parallel references are kept. */
module RefGraph {

  type Graph = seq<seq<nat>>

  ghost predicate InRange(g: Graph) {
    forall u, i :: 0 <= u < |g| && 0 <= i < |g[u]| ==> g[u][i] < |g|
  }

  ghost function Below(n: nat): (s: set<nat>)
    ensures forall i: nat :: i in s <==> i < n
  {
    if n == 0 then {} else Below(n - 1) + {n - 1}
  }

  // ── Counting references ─────────────────────────────────────────────────────

  /** Occurrences of `v` in `s`. */
  ghost function Count(s: seq<nat>, v: nat): nat {
    if s == [] then 0 else Count(s[..|s| - 1], v) + if s[|s| - 1] == v then 1 else 0
  }

  /** References to `v` held by the members of `d` numbered below `n`. */
  ghost function InBelow(g: Graph, d: set<nat>, v: nat, n: nat): nat
    requires n <= |g|
  {
    if n == 0 then 0 else InBelow(g, d, v, n - 1) + if n - 1 in d then Count(g[n - 1], v) else 0
  }

  /** References to `v` held by the members of `d`. */
  ghost function In(g: Graph, d: set<nat>, v: nat): nat {
    InBelow(g, d, v, |g|)
  }

  lemma {:induction false} CountPrefix(s: seq<nat>, i: nat, v: nat)
    requires i < |s|
    ensures Count(s[..i + 1], v) == Count(s[..i], v) + if s[i] == v then 1 else 0
  {
    assert s[..i + 1][..i] == s[..i];
  }

  lemma {:induction false} CountConcat(s: seq<nat>, t: seq<nat>, v: nat)
    ensures Count(s + t, v) == Count(s, v) + Count(t, v)
  {
    if t == [] {
      assert s + t == s;
    } else {
      assert (s + t)[..|s + t| - 1] == s + t[..|t| - 1];
      CountConcat(s, t[..|t| - 1], v);
    }
  }

  lemma {:induction false} CountSuffix(s: seq<nat>, i: nat, v: nat)
    requires i < |s|
    ensures Count(s[i..], v) == Count(s[i + 1..], v) + if s[i] == v then 1 else 0
  {
    assert s[i..] == [s[i]] + s[i + 1..];
    CountConcat([s[i]], s[i + 1..], v);
    assert [s[i]][..0] == [];
  }

  lemma {:induction false} CountMember(s: seq<nat>, v: nat)
    ensures Count(s, v) > 0 <==> v in s
  {
    if s != [] {
      CountMember(s[..|s| - 1], v);
      assert s == s[..|s| - 1] + [s[|s| - 1]];
    }
  }

  lemma {:induction false} InBelowZero(g: Graph, d: set<nat>, v: nat, n: nat)
    requires n <= |g|
    ensures InBelow(g, d, v, n) == 0 <==> forall u :: u in d && u < n ==> v !in g[u]
  {
    if n > 0 {
      InBelowZero(g, d, v, n - 1);
      CountMember(g[n - 1], v);
    }
  }

  /** No member of `d` refers to `v` exactly when the count is zero. */
  lemma InZero(g: Graph, d: set<nat>, v: nat)
    ensures In(g, d, v) == 0 <==> forall u :: u in d && u < |g| ==> v !in g[u]
  {
    InBelowZero(g, d, v, |g|);
  }

  lemma {:induction false} InBelowSplit(g: Graph, d: set<nat>, e: set<nat>, v: nat, n: nat)
    requires n <= |g| && d !! e
    ensures InBelow(g, d + e, v, n) == InBelow(g, d, v, n) + InBelow(g, e, v, n)
  {
    if n > 0 {
      InBelowSplit(g, d, e, v, n - 1);
    }
  }

  /** References from a union of disjoint sets add up. */
  lemma InSplit(g: Graph, d: set<nat>, e: set<nat>, v: nat)
    requires d !! e
    ensures In(g, d + e, v) == In(g, d, v) + In(g, e, v)
  {
    InBelowSplit(g, d, e, v, |g|);
  }

  lemma {:induction false} InBelowSingle(g: Graph, u: nat, v: nat, n: nat)
    requires n <= |g|
    ensures InBelow(g, {u}, v, n) == if u < n then Count(g[u], v) else 0
  {
    if n > 0 {
      InBelowSingle(g, u, v, n - 1);
    }
  }

  /** Taking the member `u` out of `d` takes out the references `u` holds. */
  lemma InRemove(g: Graph, d: set<nat>, u: nat, v: nat)
    requires u in d && u < |g|
    ensures In(g, d, v) == In(g, d - {u}, v) + Count(g[u], v)
  {
    assert d == (d - {u}) + {u};
    InSplit(g, d - {u}, {u}, v);
    InBelowSingle(g, u, v, |g|);
  }

  lemma InMonotone(g: Graph, d: set<nat>, e: set<nat>, v: nat)
    requires d <= e
    ensures In(g, d, v) <= In(g, e, v)
  {
    assert e == d + (e - d);
    InSplit(g, d, e - d, v);
  }

  lemma {:induction false} InBelowSame(g: Graph, h: Graph, d: set<nat>, v: nat, n: nat)
    requires n <= |g| && n <= |h|
    requires forall u :: u in d && u < n ==> Count(g[u], v) == Count(h[u], v)
    ensures InBelow(g, d, v, n) == InBelow(h, d, v, n)
  {
    if n > 0 {
      InBelowSame(g, h, d, v, n - 1);
    }
  }

  /** Appending a value without references changes no count. */
  lemma InGrow(g: Graph, d: set<nat>, v: nat)
    ensures In(g + [[]], d, v) == In(g, d, v)
  {
    var h := g + [[]];
    assert h[|g|] == [];
    InBelowSame(g, h, d, v, |g|);
  }

  /** Replacing the references of one member `u` of `d` changes the count by their difference. */
  lemma InUpdate(g: Graph, d: set<nat>, u: nat, s: seq<nat>, v: nat)
    requires u in d && u < |g|
    ensures In(g[u := s], d, v) + Count(g[u], v) == In(g, d, v) + Count(s, v)
  {
    InRemove(g, d, u, v);
    InRemove(g[u := s], d, u, v);
    InBelowSame(g, g[u := s], d - {u}, v, |g|);
  }

  ghost predicate Distinct(s: seq<nat>) {
    s == [] || (s[|s| - 1] !in s[..|s| - 1] && Distinct(s[..|s| - 1]))
  }

  ghost function Elems(s: seq<nat>): set<nat> {
    set v | v in s
  }

  lemma ElemsIn(s: seq<nat>)
    ensures forall v: nat :: v in Elems(s) <==> v in s
  {
  }

  lemma ElemsConcat(s: seq<nat>, t: seq<nat>)
    ensures Elems(s + t) == Elems(s) + Elems(t)
    ensures (forall v: nat :: v in Elems(s) <==> v in s) && forall v: nat :: v in Elems(t) <==> v in t
  {
  }

  /** What a pop leaves on a stack. */
  lemma Pop(s: seq<nat>)
    requires s != []
    ensures s[|s| - 1] in s && s[|s| - 1] in Elems(s)
    ensures forall t :: t in s ==> t == s[|s| - 1] || t in s[..|s| - 1]
    ensures forall t :: t in s[..|s| - 1] ==> t in s
    ensures Distinct(s) ==> Distinct(s[..|s| - 1]) && s[|s| - 1] !in s[..|s| - 1]
    ensures Distinct(s) ==> Elems(s[..|s| - 1]) == Elems(s) - {s[|s| - 1]}
  {
    assert s == s[..|s| - 1] + [s[|s| - 1]];
  }

  lemma {:induction false} DistinctLater(s: seq<nat>, i: nat)
    requires Distinct(s) && i < |s|
    ensures s[i] !in s[i + 1..]
  {
    if i < |s| - 1 {
      assert s[..|s| - 1][i] == s[i] && s[..|s| - 1][i + 1..] == s[i + 1..|s| - 1];
      DistinctLater(s[..|s| - 1], i);
      assert s[i + 1..] == s[i + 1..|s| - 1] + [s[|s| - 1]];
      assert s[i] in s[..|s| - 1];
    }
  }

  lemma SuffixElems(s: seq<nat>, i: nat)
    requires Distinct(s) && i < |s|
    ensures s[i] in Elems(s[i..]) && Elems(s[i + 1..]) == Elems(s[i..]) - {s[i]}
  {
    DistinctLater(s, i);
    assert s[i..] == [s[i]] + s[i + 1..];
  }

  lemma Start(s: seq<nat>)
    ensures s[..0] == [] && s[..|s|] == s && forall v: nat :: Count([], v) == 0
  {
  }

  lemma Push(s: seq<nat>, t: nat)
    ensures forall v: nat :: v in s + [t] <==> v == t || v in s
    ensures Elems(s + [t]) == Elems(s) + {t} && Elems([]) == {} && (t in Elems(s) <==> t in s)
    ensures Distinct([]) && (Distinct(s) && t !in s ==> Distinct(s + [t]))
  {
    assert (s + [t])[..|s|] == s;
  }

  lemma CountPushes(s: seq<nat>, t: nat)
    ensures forall v: nat :: Count(s + [t], v) == Count(s, v) + if t == v then 1 else 0
  {
    assert (s + [t])[..|s|] == s;
  }

  lemma Prefix(s: seq<nat>, i: nat)
    requires i < |s|
    ensures s[i] in s && s[..i + 1] == s[..i] + [s[i]]
    ensures forall v: nat :: v in s[..i + 1] <==> v in s[..i] || v == s[i]
    ensures forall v: nat :: Count(s[..i + 1], v) == Count(s[..i], v) + if s[i] == v then 1 else 0
  {
    forall v: nat {
      CountPrefix(s, i, v);
    }
    assert s[..i + 1] == s[..i] + [s[i]];
  }

  // ── Reachability ────────────────────────────────────────────────────────────

  /** `p` follows references from a member of `a` to `v`. */
  ghost predicate Path(g: Graph, a: set<nat>, p: seq<nat>, v: nat) {
    && p != [] && p[0] in a && p[|p| - 1] == v
    && (forall i :: 0 <= i < |p| ==> p[i] < |g|)
    && (forall i :: 0 <= i < |p| - 1 ==> p[i + 1] in g[p[i]])
  }

  ghost predicate Reaches(g: Graph, a: set<nat>, v: nat) {
    exists p :: Path(g, a, p, v)
  }

  /** The values that references reach from the members of `a`, members included. */
  ghost function Reach(g: Graph, a: set<nat>): set<nat> {
    set v: nat | v < |g| && Reaches(g, a, v)
  }

  /** No reference leaves `c`. */
  ghost predicate Closed(g: Graph, c: set<nat>) {
    forall u, t :: u in c && u < |g| && t in g[u] ==> t in c
  }

  lemma ReachContains(g: Graph, a: set<nat>, v: nat)
    requires v in a && v < |g|
    ensures v in Reach(g, a)
  {
    assert Path(g, a, [v], v);
  }

  lemma ReachStep(g: Graph, a: set<nat>, u: nat, t: nat)
    requires u in Reach(g, a) && t in g[u] && t < |g|
    ensures t in Reach(g, a)
  {
    var p :| Path(g, a, p, u);
    assert Path(g, a, p + [t], t);
  }

  lemma ReachClosed(g: Graph, a: set<nat>)
    requires InRange(g)
    ensures Closed(g, Reach(g, a))
  {
    forall u, t | u in Reach(g, a) && u < |g| && t in g[u]
      ensures t in Reach(g, a)
    {
      ReachStep(g, a, u, t);
    }
  }

  lemma {:induction false} PathStays(g: Graph, a: set<nat>, p: seq<nat>, v: nat, c: set<nat>, i: nat)
    requires Path(g, a, p, v) && Closed(g, c) && i < |p|
    requires forall u :: u in a && u < |g| ==> u in c
    ensures p[i] in c
  {
    if i > 0 {
      PathStays(g, a, p, v, c, i - 1);
    }
  }

  /** `Reach` is the least closed set that contains `a`. */
  lemma ReachLeast(g: Graph, a: set<nat>, c: set<nat>)
    requires Closed(g, c)
    requires forall u :: u in a && u < |g| ==> u in c
    ensures Reach(g, a) <= c
  {
    forall v | v in Reach(g, a)
      ensures v in c
    {
      var p :| Path(g, a, p, v);
      PathStays(g, a, p, v, c, |p| - 1);
    }
  }

  /** What a set reaches, one of its members reaches. */
  lemma ReachFrom(g: Graph, a: set<nat>, v: nat)
    ensures v in Reach(g, a) <==> exists u :: u in a && v in Reach(g, {u})
  {
    if v in Reach(g, a) {
      var p :| Path(g, a, p, v);
      assert Path(g, {p[0]}, p, v);
    }
    forall u | u in a && v in Reach(g, {u})
      ensures v in Reach(g, a)
    {
      var p :| Path(g, {u}, p, v);
      assert Path(g, a, p, v);
    }
  }

  lemma ReachGrow(g: Graph, a: set<nat>, b: set<nat>)
    requires InRange(g)
    ensures Reach(g, a) <= Reach(g, a + b) && Reach(g, b) <= Reach(g, a + b)
  {
    ReachClosed(g, a + b);
    forall u | u in a + b && u < |g|
      ensures u in Reach(g, a + b)
    {
      ReachContains(g, a + b, u);
    }
    ReachLeast(g, a, Reach(g, a + b));
    ReachLeast(g, b, Reach(g, a + b));
  }
}
