/** The allocator of small blocks: free blocks are linked in lists, one for each thread and size
    class and one shared by all threads for each class; new blocks are carved from slabs. */
module Allocator {
  import opened Basics

  const CLASS_SIZE: nat := 16
  const CLASSES: nat := 16
  const LOCAL_MAX: nat := 256
  const BATCH: nat := 128
  const SLAB_BYTES: nat := 0x1_0000

  datatype Layout = Layout(size: nat, align: nat)

  /** The size class that serves a layout; none for the system allocator. */
  function ClassOf(layout: Layout): (r: Option<nat>)
    ensures r.Some? ==> r.value < CLASSES && ClassBytes(r.value) - CLASS_SIZE < layout.size <= ClassBytes(r.value)
    ensures r.None? <==> layout.size == 0 || layout.size > 256 || layout.align > CLASS_SIZE
  {
    if layout.size <= CLASS_SIZE * CLASSES && layout.align <= CLASS_SIZE && layout.size > 0
    then Some((layout.size - 1) / CLASS_SIZE)
    else None
  }

  function ClassBytes(class_: nat): (bytes: nat)
    ensures bytes >= CLASS_SIZE
  {
    (class_ + 1) * CLASS_SIZE
  }

  // ── Lists ───────────────────────────────────────────────────────────────────

  datatype List = Local(thread: nat, class_: nat) | Pool(class_: nat)

  /** Where a carved block is. */
  datatype Place = Free(list: List) | Held

  /** Following the links from `head` gives `chain`, and ends there. */
  ghost predicate Linked(link: map<int, int>, head: int, chain: seq<int>)
    decreases chain
  {
    if chain == [] then head == 0
    else head == chain[0] != 0 && head in link && Linked(link, link[head], chain[1..])
  }

  ghost predicate Distinct(chain: seq<int>) {
    forall i, j :: 0 <= i < j < |chain| ==> chain[i] != chain[j]
  }

  /** The blocks of a chain are those whose place is that list. */
  ghost predicate Placed(place: map<int, Place>, list: List, chain: seq<int>) {
    && Distinct(chain)
    && (forall i :: 0 <= i < |chain| ==> chain[i] in place && place[chain[i]] == Free(list))
    && (forall b :: b in place && place[b] == Free(list) ==> b in chain)
  }

  /** Blocks do not overlap. `size` gives the class of each. */
  ghost predicate Apart(size: map<int, nat>) {
    forall a, b :: a in size && b in size && a < b ==> a + ClassBytes(size[a]) <= b
  }

  lemma {:induction false} LinkedElsewhere(link: map<int, int>, head: int, chain: seq<int>, b: int, to: int)
    requires Linked(link, head, chain) && b !in chain
    ensures Linked(link[b := to], head, chain)
    decreases chain
  {
    if chain != [] {
      LinkedElsewhere(link, link[head], chain[1..], b, to);
    }
  }

  lemma LinkedPush(link: map<int, int>, head: int, chain: seq<int>, b: int)
    requires Linked(link, head, chain) && b !in chain && b != 0
    ensures Linked(link[b := head], b, [b] + chain)
  {
    LinkedElsewhere(link, head, chain, b, head);
    assert ([b] + chain)[1..] == chain;
  }

  lemma {:induction false} LinkedAfter(link: map<int, int>, head: int, chain: seq<int>, k: nat)
    requires Linked(link, head, chain) && k < |chain|
    ensures chain[k] in link && chain[k] != 0 && Linked(link, link[chain[k]], chain[k + 1..])
    ensures k + 1 < |chain| ==> link[chain[k]] == chain[k + 1]
    decreases k
  {
    if k > 0 {
      LinkedAfter(link, link[head], chain[1..], k - 1);
      assert chain[1..][k..] == chain[k + 1..];
    }
  }

  /** Cutting a chain after `n` blocks, and putting those before another one. */
  lemma {:induction false} LinkedSplice(link: map<int, int>, head: int, chain: seq<int>, n: nat, head2: int,
        chain2: seq<int>)
    requires Linked(link, head, chain) && Linked(link, head2, chain2) && Distinct(chain) && 0 < n <= |chain|
    requires forall b :: b in chain ==> b !in chain2
    ensures Linked(link[chain[n - 1] := head2], head, chain[..n] + chain2)
    decreases n
  {
    var last := chain[n - 1];
    if n == 1 {
      assert chain[..1] == [head];
      LinkedPush(link, head2, chain2, head);
    } else {
      LinkedSplice(link, link[head], chain[1..], n - 1, head2, chain2);
      assert (chain[..n] + chain2)[1..] == chain[1..][..n - 1] + chain2;
    }
  }

  // ── All the lists ───────────────────────────────────────────────────────────

  ghost predicate ListsOk(heads: map<List, int>, counts: map<List, nat>, link: map<int, int>,
        chain: map<List, seq<int>>) {
    && chain.Keys == heads.Keys == counts.Keys
    && forall l :: l in chain ==> Linked(link, heads[l], chain[l]) && counts[l] == |chain[l]|
  }

  /** Each carved block is in one list, of its class, or in the hands of a caller. */
  ghost predicate PlacesOk(chain: map<List, seq<int>>, place: map<int, Place>, size: map<int, nat>) {
    && place.Keys == size.Keys
    && (forall l :: l in chain ==> Placed(place, l, chain[l]))
    && (forall b :: b in place && place[b].Free? ==> place[b].list in chain && place[b].list.class_ == size[b])
  }

  lemma Keys(heads: map<List, int>, counts: map<List, nat>, link: map<int, int>, chain: map<List, seq<int>>)
    requires ListsOk(heads, counts, link, chain)
    ensures forall l :: l in chain ==>
              l in heads && l in counts && counts[l] == |chain[l]| && (heads[l] == 0 <==> chain[l] == [])
  {
    forall l | l in chain
      ensures l in heads.Keys && l in counts.Keys
    {
    }
  }

  lemma PushLists(heads: map<List, int>, counts: map<List, nat>, link: map<int, int>, chain: map<List, seq<int>>,
        l: List, b: int)
    requires ListsOk(heads, counts, link, chain) && l in chain && b != 0 && forall k :: k in chain ==> b !in chain[k]
    ensures ListsOk(heads[l := b], counts[l := counts[l] + 1], link[b := heads[l]], chain[l := [b] + chain[l]])
  {
    hide Linked;
    LinkedPush(link, heads[l], chain[l], b);
    forall k | k in chain
      ensures Linked(link[b := heads[l]], heads[k], chain[k])
    {
      LinkedElsewhere(link, heads[k], chain[k], b, heads[l]);
    }
  }

  lemma PushPlaces(chain: map<List, seq<int>>, place: map<int, Place>, size: map<int, nat>, l: List, b: int)
    requires PlacesOk(chain, place, size) && l in chain && b in place && place[b] == Held && size[b] == l.class_
    ensures forall k :: k in chain ==> b !in chain[k]
    ensures PlacesOk(chain[l := [b] + chain[l]], place[b := Free(l)], size)
  {
    var chain', place' := chain[l := [b] + chain[l]], place[b := Free(l)];
    assert b in size.Keys;
    forall k | k in chain
      ensures b !in chain[k] && Placed(place', k, chain'[k])
    {
      assert Placed(place, k, chain[k]);
      assert forall a :: a in place' && place'[a] == Free(k) ==> a in chain'[k];
    }
  }

  lemma PopLists(heads: map<List, int>, counts: map<List, nat>, link: map<int, int>, chain: map<List, seq<int>>,
          l: List)
    requires ListsOk(heads, counts, link, chain) && l in chain && chain[l] != []
    ensures heads[l] == chain[l][0] && heads[l] in link && counts[l] > 0
    ensures ListsOk(heads[l := link[heads[l]]], counts[l := counts[l] - 1], link, chain[l := chain[l][1..]])
  {
  }

  lemma PopPlaces(chain: map<List, seq<int>>, place: map<int, Place>, size: map<int, nat>, l: List)
    requires PlacesOk(chain, place, size) && l in chain && chain[l] != []
    ensures chain[l][0] in place && place[chain[l][0]] == Free(l)
    ensures PlacesOk(chain[l := chain[l][1..]], place[chain[l][0] := Held], size)
  {
    var b := chain[l][0];
    assert Placed(place, l, chain[l]);
    var chain', place' := chain[l := chain[l][1..]], place[b := Held];
    assert b in size.Keys;
    assert chain[l] == [b] + chain[l][1..];
    forall k | k in chain
      ensures Placed(place', k, chain'[k])
    {
      assert Placed(place, k, chain[k]);
    }
  }

  lemma DistinctAt(s: seq<int>, n: nat)
    requires Distinct(s) && 0 < n <= |s|
    ensures s[n - 1] !in s[n..] && s[n - 1] in s
  {
  }

  /** The first `n` blocks of one list go before those of another one of the same class. */
  lemma MoveLists(heads: map<List, int>, counts: map<List, nat>, link: map<int, int>, chain: map<List, seq<int>>,
        l: List, m: List, n: nat)
    requires ListsOk(heads, counts, link, chain) && l in chain && m in chain && l != m && 0 < n <= |chain[l]|
    requires Distinct(chain[l]) && forall k, b :: k in chain && k != l && b in chain[l] ==> b !in chain[k]
    ensures var last := chain[l][n - 1];
            && last in link
            && ListsOk(heads[l := link[last]][m := heads[l]], counts[l := counts[l] - n][m := counts[m] + n],
                       link[last := heads[m]], chain[l := chain[l][n..]][m := chain[l][..n] + chain[m]])
  {
    hide Linked, Distinct;
    var last := chain[l][n - 1];
    LinkedAfter(link, heads[l], chain[l], n - 1);
    LinkedSplice(link, heads[l], chain[l], n, heads[m], chain[m]);
    DistinctAt(chain[l], n);
    LinkedElsewhere(link, link[last], chain[l][n..], last, heads[m]);
    forall k | k in chain && k != l && k != m
      ensures Linked(link[last := heads[m]], heads[k], chain[k])
    {
      LinkedElsewhere(link, heads[k], chain[k], last, heads[m]);
    }
  }

  /** The places after such a move. */
  ghost function Rehomed(place: map<int, Place>, moved: seq<int>, m: List): map<int, Place> {
    map b | b in place :: if b in moved then Free(m) else place[b]
  }

  lemma MovePlaces(chain: map<List, seq<int>>, place: map<int, Place>, size: map<int, nat>, l: List, m: List, n: nat)
    requires PlacesOk(chain, place, size) && l in chain && m in chain && l != m && l.class_ == m.class_
    requires n <= |chain[l]|
    ensures Distinct(chain[l]) && forall k, b :: k in chain && k != l && b in chain[l] ==> b !in chain[k]
    ensures PlacesOk(chain[l := chain[l][n..]][m := chain[l][..n] + chain[m]], Rehomed(place, chain[l][..n], m), size)
    ensures SameHands(place, Rehomed(place, chain[l][..n], m))
  {
    var moved, rest := chain[l][..n], chain[l][n..];
    var chain', place' := chain[l := rest][m := moved + chain[m]], Rehomed(place, moved, m);
    assert Placed(place, l, chain[l]) && Placed(place, m, chain[m]);
    assert chain[l] == moved + rest;
    forall k, b | k in chain && k != l && b in chain[l]
      ensures b !in chain[k]
    {
      assert Placed(place, k, chain[k]);
    }
    forall k | k in chain'
      ensures Placed(place', k, chain'[k])
    {
      assert Placed(place, k, chain[k]);
      MovedPlaced(chain, place, l, m, n, k);
    }
    forall b | b in place' && place'[b].Free?
      ensures place'[b].list in chain' && place'[b].list.class_ == size[b]
    {
      assert b in place;
    }
  }

  lemma MovedPlaced(chain: map<List, seq<int>>, place: map<int, Place>, l: List, m: List, n: nat, k: List)
    requires l in chain && m in chain && l != m && n <= |chain[l]| && k in chain
    requires Placed(place, l, chain[l]) && Placed(place, m, chain[m]) && Placed(place, k, chain[k])
    ensures Placed(Rehomed(place, chain[l][..n], m), k, chain[l := chain[l][n..]][m := chain[l][..n] + chain[m]][k])
  {
    var moved, rest := chain[l][..n], chain[l][n..];
    assert chain[l] == moved + rest;
    var place' := Rehomed(place, moved, m);
    if k == l {
      forall i | 0 <= i < |rest|
        ensures rest[i] !in moved
      {
        assert rest[i] == chain[l][n + i];
      }
    } else if k == m {
      assert forall b :: b in moved ==> b in chain[l];
      assert forall i :: 0 <= i < |moved| ==> moved[i] == chain[l][i];
    } else {
      assert forall b :: b in moved ==> b in chain[l];
    }
  }

  lemma CountOf(heads: map<List, int>, counts: map<List, nat>, link: map<int, int>, chain: map<List, seq<int>>, l: List)
    requires ListsOk(heads, counts, link, chain) && l in chain
    ensures l in heads && l in counts && counts[l] == |chain[l]| && (heads[l] == 0 <==> chain[l] == [])
  {
    Keys(heads, counts, link, chain);
  }

  lemma HeadOf(heads: map<List, int>, counts: map<List, nat>, link: map<int, int>, chain: map<List, seq<int>>, l: List)
    requires ListsOk(heads, counts, link, chain) && l in chain && chain[l] != []
    ensures l in heads && heads[l] == chain[l][0]
  {
  }

  lemma StepOf(heads: map<List, int>, counts: map<List, nat>, link: map<int, int>, chain: map<List, seq<int>>, l: List,
        k: nat)
    requires ListsOk(heads, counts, link, chain) && l in chain && k + 1 < |chain[l]|
    ensures chain[l][k] in link && link[chain[l][k]] == chain[l][k + 1]
  {
    LinkedAfter(link, heads[l], chain[l], k);
  }

  lemma NewList(heads: map<List, int>, counts: map<List, nat>, link: map<int, int>, chain: map<List, seq<int>>,
                place: map<int, Place>, size: map<int, nat>, l: List)
    requires ListsOk(heads, counts, link, chain) && PlacesOk(chain, place, size) && l !in chain
    ensures ListsOk(heads[l := 0], counts[l := 0], link, chain[l := []]) && PlacesOk(chain[l := []], place, size)
  {
  }

  lemma SizeKeys(chain: map<List, seq<int>>, place: map<int, Place>, size: map<int, nat>)
    requires PlacesOk(chain, place, size)
    ensures forall b :: b in place <==> b in size
  {
    forall b
      ensures b in place <==> b in size
    {
      assert b in place.Keys <==> b in size.Keys;
    }
  }

  lemma FreeClass(chain: map<List, seq<int>>, place: map<int, Place>, size: map<int, nat>, l: List)
    requires PlacesOk(chain, place, size) && l in chain && chain[l] != []
    ensures chain[l][0] in size && size[chain[l][0]] == l.class_
    ensures forall b :: b in place <==> b in size
  {
    SizeKeys(chain, place, size);
    assert Placed(place, l, chain[l]);
    var b := chain[l][0];
    assert b in place && place[b] == Free(l);
  }

  lemma HeldElsewhere(heads: map<List, int>, counts: map<List, nat>, link: map<int, int>, chain: map<List, seq<int>>,
                      place: map<int, Place>, size: map<int, nat>, b: int, word: int)
    requires ListsOk(heads, counts, link, chain) && PlacesOk(chain, place, size) && b in place && place[b] == Held
    ensures ListsOk(heads, counts, link[b := word], chain)
  {
    hide Linked;
    forall l | l in chain
      ensures Linked(link[b := word], heads[l], chain[l])
    {
      assert Placed(place, l, chain[l]);
      LinkedElsewhere(link, heads[l], chain[l], b, word);
    }
  }

  /** The same blocks are in the hands of callers. */
  ghost predicate SameHands(before: map<int, Place>, after: map<int, Place>) {
    && (forall b :: b in before ==> b in after && (after[b] == Held <==> before[b] == Held))
    && (forall b :: b in after && after[b] == Held ==> b in before)
  }

  lemma SameHandsTwice(a: map<int, Place>, b: map<int, Place>, c: map<int, Place>)
    requires SameHands(a, b) && SameHands(b, c)
    ensures SameHands(a, c)
  {
  }

  lemma SameHandsAlways(a: map<int, Place>)
    ensures SameHands(a, a)
  {
  }

  ghost function Poured(chain: map<List, seq<int>>, from: List, to: List, n: nat): map<List, seq<int>>
    requires from in chain && to in chain && n <= |chain[from]|
  {
    if n == 0 then chain else chain[from := chain[from][n..]][to := chain[from][..n] + chain[to]]
  }

  /** The lists once a thread has poured those of its first `n` classes. */
  ghost function Drained(chain: map<List, seq<int>>, thread: nat, n: nat): map<List, seq<int>> {
    map l | l in chain ::
      match l
      case Local(t, c) => if t == thread && c < n then [] else chain[l]
      case Pool(c) => if c < n && Local(thread, c) in chain then chain[Local(thread, c)] + chain[l] else chain[l]
  }

  lemma NoneDrained(chain: map<List, seq<int>>, thread: nat)
    ensures Drained(chain, thread, 0) == chain
  {
  }

  lemma OneDrained(chain: map<List, seq<int>>, thread: nat, n: nat)
    requires Local(thread, n) in chain && Pool(n) in chain
    ensures var d := Drained(chain, thread, n);
            && Local(thread, n) in d && Pool(n) in d && d[Local(thread, n)] == chain[Local(thread, n)]
            && Poured(d, Local(thread, n), Pool(n), |d[Local(thread, n)]|) == Drained(chain, thread, n + 1)
    ensures Drained(chain, thread, n + 1).Keys == chain.Keys
  {
    var d, d' := Drained(chain, thread, n), Drained(chain, thread, n + 1);
    var p := Poured(d, Local(thread, n), Pool(n), |d[Local(thread, n)]|);
    forall l | l in chain
      ensures l in p && p[l] == d'[l]
    {
    }
  }

  /** A freed block is the first to serve again; a long list first pours its front. */
  ghost function Kept(chain: map<List, seq<int>>, list: List, pool: List, block: int): map<List, seq<int>>
    requires list in chain && pool in chain && list != pool
  {
    var pushed := [block] + chain[list];
    if |pushed| > LOCAL_MAX
    then chain[list := pushed[BATCH..]][pool := pushed[..BATCH] + chain[pool]]
    else chain[list := pushed]
  }

  /** What the system promises of memory it gives: it is aligned, and no carved block is there. */
  ghost predicate FreshRegion(size: map<int, nat>, start: int, bytes: nat) {
    start > 0 && start % CLASS_SIZE == 0 && forall a :: a in size ==>
          a + ClassBytes(size[a]) <= start || start + bytes <= a
  }

  ghost function Refilled(pool: nat, slab: int, class_: nat): nat {
    if pool > 0 then (if pool <= BATCH then pool else BATCH)
    else if slab == 0 then 0 else SLAB_BYTES / ClassBytes(class_)
  }

  /** A refill leaves a list longer than the size at which freeing pours it exactly when it comes
      from a new slab, for every class but the largest. */
  lemma RefillExceeds(pool: nat, slab: int, class_: nat)
    requires class_ < CLASSES
    ensures Refilled(pool, slab, class_) > LOCAL_MAX <==> pool == 0 && slab != 0 && class_ < CLASSES - 1
    ensures Refilled(0, SLAB_BYTES, 0) == 4096
  {
    SlabLength(class_);
    SlabLength(0);
  }

  lemma SlabLength(class_: nat)
    requires class_ < CLASSES
    ensures SLAB_BYTES / ClassBytes(class_) ==
              [4096, 2048, 1365, 1024, 819, 682, 585, 512, 455, 409, 372, 341, 315, 292, 273, 256][class_]
  {
  }

  lemma CarvePlaces(chain: map<List, seq<int>>, place: map<int, Place>, size: map<int, nat>, b: int, class_: nat)
    requires PlacesOk(chain, place, size) && Apart(size) && FreshRegion(size, b, ClassBytes(class_))
    ensures b !in size && PlacesOk(chain, place[b := Held], size[b := class_]) && Apart(size[b := class_])
  {
    SizeKeys(chain, place, size);
    forall l | l in chain
      ensures Placed(place[b := Held], l, chain[l])
    {
      assert Placed(place, l, chain[l]);
    }
  }

  /** The blocks of a slab from number `i` on are carved: inside it, above block `i`, of its
      class; those carved before are as they were. */
  ghost predicate Carving(before: map<int, nat>, size: map<int, nat>, slab: int, i: nat, class_: nat) {
    && (forall b :: b in before ==> b in size && size[b] == before[b])
    && (forall a :: a in size ==> a + ClassBytes(size[a]) <= slab || slab + i * ClassBytes(class_) <= a)
    && (forall b :: b in size && b !in before ==>
          size[b] == class_ && slab <= b && b + ClassBytes(class_) <= slab + SLAB_BYTES)
  }

  lemma CarvingStarts(size: map<int, nat>, slab: int, class_: nat)
    requires FreshRegion(size, slab, SLAB_BYTES)
    ensures Carving(size, size, slab, SLAB_BYTES / ClassBytes(class_), class_)
  {
    var bytes := ClassBytes(class_);
    assert SLAB_BYTES / bytes * bytes <= SLAB_BYTES;
  }

  lemma CarvingDone(before: map<int, nat>, size: map<int, nat>, slab: int, class_: nat)
    requires Carving(before, size, slab, 0, class_)
    ensures forall b :: b in before ==> b in size && size[b] == before[b]
    ensures forall b :: b in size && b !in before ==>
              size[b] == class_ && slab <= b && b + ClassBytes(class_) <= slab + SLAB_BYTES
  {
  }

  lemma Offset(i: nat, class_: nat)
    ensures (i + 1) * ClassBytes(class_) == i * ClassBytes(class_) + ClassBytes(class_)
    ensures 0 <= i * ClassBytes(class_) && i * ClassBytes(class_) == CLASS_SIZE * (i * (class_ + 1))
    ensures i < SLAB_BYTES / ClassBytes(class_) ==> i * ClassBytes(class_) + ClassBytes(class_) <= SLAB_BYTES
  {
    var bytes := ClassBytes(class_);
    assert (i + 1) * bytes == i * bytes + bytes;
    if i < SLAB_BYTES / bytes {
      assert (i + 1) * bytes <= SLAB_BYTES / bytes * bytes;
    }
  }

  /** The next block of a slab, from its end, overlaps nothing. */
  lemma CarvingStep(before: map<int, nat>, size: map<int, nat>, slab: int, i: nat, class_: nat)
    requires slab > 0 && slab % CLASS_SIZE == 0 && i < SLAB_BYTES / ClassBytes(class_)
    requires Carving(before, size, slab, i + 1, class_)
    ensures FreshRegion(size, slab + i * ClassBytes(class_), ClassBytes(class_))
    ensures Carving(before, size[slab + i * ClassBytes(class_) := class_], slab, i, class_)
  {
    hide ClassBytes;
    Offset(i, class_);
  }

  class Allocator {
    var heads: map<List, int>
    var counts: map<List, nat>
    /** The first word of each block: the next one in its list while it is free. */
    var link: map<int, int>
    var guarded: set<nat>
    ghost var chain: map<List, seq<int>>
    ghost var place: map<int, Place>
    ghost var size: map<int, nat>

    ghost predicate Valid()
      reads this
    {
      && ListsOk(heads, counts, link, chain) && PlacesOk(chain, place, size) && Apart(size)
      && (forall b :: b in size ==> b % CLASS_SIZE == 0 && b != 0)
      && (forall c :: 0 <= c < CLASSES ==> Pool(c) in chain)
    }

    constructor ()
      ensures Valid() && place == map[] && chain.Keys == (set c | 0 <= c < CLASSES :: Pool(c)) && guarded == {}
      ensures forall l :: l in chain ==> chain[l] == []
    {
      heads, counts, chain := map c | 0 <= c < CLASSES :: Pool(c) := 0, map c | 0 <= c < CLASSES :: Pool(c) := 0,
                              map c | 0 <= c < CLASSES :: Pool(c) := [];
      link, guarded, place, size := map[], {}, map[], map[];
    }

    /** The thread has its lists. */
    ghost predicate Started(thread: nat)
      reads `chain
    {
      forall c :: 0 <= c < CLASSES ==> Local(thread, c) in chain
    }

    /** A block that is in no list goes to the front of one. */
    method Push(list: List, block: int)
      requires Valid() && list in chain && block in place && place[block] == Held && size[block] == list.class_
      requires block != 0
      modifies `heads, `counts, `link, `chain, `place
      ensures Valid() && chain == old(chain)[list := [block] + old(chain)[list]]
      ensures place == old(place)[block := Free(list)]
    {
      hide ListsOk, PlacesOk, Apart;
      PushPlaces(chain, place, size, list, block);
      PushLists(heads, counts, link, chain, list, block);
      Keys(heads, counts, link, chain);
      link := link[block := heads[list]];
      heads := heads[list := block];
      counts := counts[list := counts[list] + 1];
      chain := chain[list := [block] + chain[list]];
      place := place[block := Free(list)];
    }

    /** Takes the front of a list. */
    method Pop(list: List) returns (block: int)
      requires Valid() && list in chain && chain[list] != []
      modifies `heads, `counts, `chain, `place
      ensures Valid() && block == old(chain)[list][0] && block in old(place) && old(place)[block] == Free(list)
      ensures chain == old(chain)[list := old(chain)[list][1..]] && place == old(place)[block := Held]
    {
      hide PlacesOk, Apart;
      PopLists(heads, counts, link, chain, list);
      PopPlaces(chain, place, size, list);
      block := heads[list];
      heads := heads[list := link[block]];
      counts := counts[list := counts[list] - 1];
      chain, place := chain[list := chain[list][1..]], place[block := Held];
    }

    /** Moves the first `n` blocks of a list before those of another: walks to the last of them,
        cuts the list there, and links it to the other one. */
    method MoveFront(from: List, to: List, n: nat)
      requires Valid() && from in chain && to in chain && from != to && from.class_ == to.class_
      requires 0 < n <= |chain[from]|
      modifies `heads, `counts, `link, `chain, `place
      ensures Valid()
      ensures chain == old(chain)[from := old(chain)[from][n..]][to := old(chain)[from][..n] + old(chain)[to]]
      ensures SameHands(old(place), place)
    {
      hide ListsOk, PlacesOk, Apart, Linked;
      Keys(heads, counts, link, chain);
      HeadOf(heads, counts, link, chain, from);
      var first := heads[from];
      var last := first;
      for i := 1 to n
        invariant heads == old(heads) && counts == old(counts) && link == old(link) && chain == old(chain)
        invariant place == old(place)
        invariant last == chain[from][i - 1]
      {
        StepOf(heads, counts, link, chain, from, i - 1);
        last := link[last];
      }
      MovePlaces(chain, place, size, from, to, n);
      MoveLists(heads, counts, link, chain, from, to, n);
      heads := heads[from := link[last]];
      counts := counts[from := counts[from] - n];
      link := link[last := heads[to]];
      heads := heads[to := first];
      counts := counts[to := counts[to] + n];
      place := Rehomed(place, chain[from][..n], to);
      chain := chain[from := chain[from][n..]][to := chain[from][..n] + chain[to]];
    }

    /** Pours `count` blocks of a thread's list into the shared one. */
    method Give(class_: nat, thread: nat, count: nat)
      requires Valid() && class_ < CLASSES && Local(thread, class_) in chain && count <= |chain[Local(thread, class_)]|
      modifies `heads, `counts, `link, `chain, `place
      ensures Valid() && chain.Keys == old(chain).Keys && SameHands(old(place), place)
      ensures chain == Poured(old(chain), Local(thread, class_), Pool(class_), count)
    {
      hide ListsOk, PlacesOk, Apart;
      if count > 0 {
        MoveFront(Local(thread, class_), Pool(class_), count);
      }
    }

    /** A new thread has empty lists. */
    method StartThread(thread: nat)
      requires Valid() && forall c :: Local(thread, c) !in chain
      modifies `heads, `counts, `chain
      ensures Valid() && Started(thread) && place == old(place)
      ensures forall l :: l in old(chain) ==> l in chain && chain[l] == old(chain)[l]
      ensures forall l :: l in chain ==> l in old(chain) || chain[l] == []
    {
      hide ListsOk, PlacesOk, Apart;
      for c := 0 to CLASSES
        invariant Valid() && forall b :: b >= c ==> Local(thread, b) !in chain
        invariant forall b :: 0 <= b < c ==> Local(thread, b) in chain
        invariant forall l :: l in old(chain) ==> l in chain && chain[l] == old(chain)[l]
        invariant forall l :: l in chain ==> l in old(chain) || chain[l] == []
      {
        NewList(heads, counts, link, chain, place, size, Local(thread, c));
        heads, counts, chain := heads[Local(thread, c) := 0], counts[Local(thread, c) := 0],
              chain[Local(thread, c) := []];
      }
    }

    /** A thread that ends pours all its lists into the shared ones. */
    method EndThread(thread: nat)
      requires Valid() && Started(thread)
      modifies `heads, `counts, `link, `chain, `place
      ensures Valid() && SameHands(old(place), place) && chain == Drained(old(chain), thread, CLASSES)
    {
      hide ListsOk, PlacesOk, Apart, SameHands, Poured, Drained;
      SameHandsAlways(place);
      NoneDrained(chain, thread);
      for class_ := 0 to CLASSES
        invariant Valid() && Started(thread) && SameHands(old(place), place)
        invariant chain == Drained(old(chain), thread, class_)
      {
        CountOf(heads, counts, link, chain, Local(thread, class_));
        OneDrained(old(chain), thread, class_);
        ghost var before := place;
        Give(class_, thread, counts[Local(thread, class_)]);
        SameHandsTwice(old(place), before, place);
      }
    }

    /** A carved block that nobody had. */
    ghost method Carve(block: int, class_: nat)
      requires Valid() && class_ < CLASSES && FreshRegion(size, block, ClassBytes(class_))
      modifies `place, `size
      ensures Valid() && place == old(place)[block := Held] && size == old(size)[block := class_] && block !in old(size)
    {
      hide ListsOk;
      CarvePlaces(chain, place, size, block, class_);
      size, place := size[block := class_], place[block := Held];
    }

    /** Fills the empty list of a thread: a batch from the shared list, or else a new slab, which
        the system gives at `slab`, or not when it is 0. */
    method Refill(class_: nat, thread: nat, slab: int)
      requires Valid() && class_ < CLASSES && Local(thread, class_) in chain && chain[Local(thread, class_)] == []
      requires slab != 0 ==> FreshRegion(size, slab, SLAB_BYTES)
      modifies `heads, `counts, `link, `chain, `place, `size
      ensures Valid() && chain.Keys == old(chain).Keys && SameHands(old(place), place)
      ensures forall b :: b in old(size) ==> b in size && size[b] == old(size)[b]
      ensures |chain[Local(thread, class_)]| == Refilled(|old(chain)[Pool(class_)]|, slab, class_)
      ensures slab == 0 || old(chain)[Pool(class_)] != [] ==> size == old(size)
    {
      hide ListsOk, PlacesOk, Apart;
      CountOf(heads, counts, link, chain, Pool(class_));
      if counts[Pool(class_)] > 0 {
        var take := if counts[Pool(class_)] <= BATCH then counts[Pool(class_)] else BATCH;
        MoveFront(Pool(class_), Local(thread, class_), take);
        return;
      }
      if slab == 0 {
        return;
      }
      FillFrom(class_, thread, slab);
    }

    /** Carves a slab, from its end, into the list of a thread. */
    method FillFrom(class_: nat, thread: nat, slab: int)
      requires Valid() && class_ < CLASSES && Local(thread, class_) in chain && chain[Local(thread, class_)] == []
      requires FreshRegion(size, slab, SLAB_BYTES)
      modifies `heads, `counts, `link, `chain, `place, `size
      ensures Valid() && chain.Keys == old(chain).Keys && SameHands(old(place), place)
      ensures forall b :: b in old(size) ==> b in size && size[b] == old(size)[b]
      ensures |chain[Local(thread, class_)]| == SLAB_BYTES / ClassBytes(class_)
      ensures forall b :: b in size && b !in old(size) ==>
                size[b] == class_ && slab <= b && b + ClassBytes(class_) <= slab + SLAB_BYTES
    {
      hide ListsOk, PlacesOk, Apart, SameHands, Carving, ClassBytes;
      SameHandsAlways(place);
      CarvingStarts(size, slab, class_);
      var bytes := ClassBytes(class_);
      for i := SLAB_BYTES / bytes downto 0
        invariant Valid() && chain.Keys == old(chain).Keys && SameHands(old(place), place)
        invariant Carving(old(size), size, slab, i, class_)
        invariant |chain[Local(thread, class_)]| == SLAB_BYTES / bytes - i
      {
        CarvingStep(old(size), size, slab, i, class_);
        ghost var before := place;
        PushNew(class_, thread, slab + i * bytes);
        SameHandsTwice(old(place), before, place);
      }
      CarvingDone(old(size), size, slab, class_);
    }

    method PushNew(class_: nat, thread: nat, block: int)
      requires Valid() && class_ < CLASSES && Local(thread, class_) in chain
      requires FreshRegion(size, block, ClassBytes(class_))
      modifies `heads, `counts, `link, `chain, `place, `size
      ensures Valid() && chain == old(chain)[Local(thread, class_) := [block] + old(chain)[Local(thread, class_)]]
      ensures SameHands(old(place), place) && size == old(size)[block := class_] && block !in old(size)
    {
      hide ListsOk, PlacesOk, Apart;
      SizeKeys(chain, place, size);
      Carve(block, class_);
      Push(Local(thread, class_), block);
    }

    /** A block for `layout`. The system gives slabs at `slab` and single blocks at `spare`, 0 for
        none; `reachable` is false when the thread's lists are no longer. */
    method Alloc(thread: nat, layout: Layout, reachable: bool, slab: int, spare: int) returns (block: int)
      requires Valid() && Started(thread) && (slab != 0 ==> FreshRegion(size, slab, SLAB_BYTES))
      requires spare != 0 && ClassOf(layout).Some? ==> FreshRegion(size, spare, ClassBytes(ClassOf(layout).value))
      modifies `heads, `counts, `link, `chain, `place, `size
      ensures Valid() && Started(thread)
      ensures ClassOf(layout).None? ==> block == spare && place == old(place) && chain == old(chain)
      ensures ClassOf(layout).Some? && block != 0 ==>
                && block in place && place[block] == Held && size[block] == ClassOf(layout).value
                && layout.size <= ClassBytes(size[block]) && block % CLASS_SIZE == 0
                && (block in old(place) ==> old(place)[block].Free?)
      ensures forall b :: b in old(place) && b != block ==>
                b in place && size[b] == old(size)[b] && (place[b] == Held <==> old(place)[b] == Held)
      ensures forall b :: b in place && b != block && place[b] == Held ==> b in old(place)
      ensures block == 0 ==> spare == 0 && SameHands(old(place), place)
    {
      hide ListsOk, PlacesOk, Apart;
      var class_ := ClassOf(layout);
      SizeKeys(chain, place, size);
      if class_.None? {
        return spare;
      }
      var list := Local(thread, class_.value);
      if reachable {
        CountOf(heads, counts, link, chain, list);
        if heads[list] == 0 {
          Refill(class_.value, thread, slab);
        }
        CountOf(heads, counts, link, chain, list);
        if heads[list] != 0 {
          FreeClass(chain, place, size, list);
          block := Pop(list);
          return;
        }
      }
      if spare != 0 {
        Carve(spare, class_.value);
      }
      block := spare;
    }

    /** Takes a block back. `enrolled`: the thread could still register the pouring of its lists
        at its end. */
    method Dealloc(thread: nat, block: int, layout: Layout, reachable: bool, enrolled: bool)
      requires Valid() && Started(thread)
      requires block in place && place[block] == Held && ClassOf(layout) == Some(size[block])
      modifies `heads, `counts, `link, `chain, `place, `guarded
      ensures Valid() && Started(thread) && block in place && place[block].Free?
      ensures SameHands(old(place)[block := place[block]], place)
      ensures chain == if reachable && (thread in old(guarded) || enrolled)
                       then Kept(old(chain), Local(thread, old(size)[block]), Pool(old(size)[block]), block)
                       else old(chain)[Pool(old(size)[block]) := [block] + old(chain)[Pool(old(size)[block])]]
    {
      hide ListsOk, PlacesOk, Apart;
      SizeKeys(chain, place, size);
      var class_ := ClassOf(layout).value;
      var kept := reachable;
      if reachable && thread !in guarded {
        kept := enrolled;
        guarded := if enrolled then guarded + {thread} else guarded;
      }
      if kept {
        Push(Local(thread, class_), block);
        CountOf(heads, counts, link, chain, Local(thread, class_));
        if counts[Local(thread, class_)] > LOCAL_MAX {
          Give(class_, thread, BATCH);
        }
      } else {
        Push(Pool(class_), block);
      }
    }

    /** A caller writes into its block: no list changes. */
    method WriteInto(block: int, word: int)
      requires Valid() && block in place && place[block] == Held
      modifies `link
      ensures Valid()
    {
      hide PlacesOk, Apart;
      HeldElsewhere(heads, counts, link, chain, place, size, block, word);
      link := link[block := word];
    }
  }

  // ── What the invariant says ─────────────────────────────────────────────────

  /** Each carved block is in exactly one place: in the hands of a caller, or once in one list,
      of its class. */
  lemma OnePlace(a: Allocator, b: int)
    requires a.Valid() && b in a.size
    ensures b in a.place
    ensures a.place[b] == Held ==> forall l :: l in a.chain ==> b !in a.chain[l]
    ensures a.place[b] != Held ==>
              exists l :: l in a.chain && b in a.chain[l] && l.class_ == a.size[b] &&
                          forall m :: m in a.chain && b in a.chain[m] ==> m == l
    ensures forall l, i, j :: l in a.chain && 0 <= i < |a.chain[l]| && 0 <= j < |a.chain[l]| ==>
              a.chain[l][i] == b == a.chain[l][j] ==> i == j
  {
    hide ListsOk, Apart;
    SizeKeys(a.chain, a.place, a.size);
    forall l | l in a.chain
      ensures b in a.chain[l] <==> a.place[b] == Free(l)
      ensures Distinct(a.chain[l])
    {
      assert Placed(a.place, l, a.chain[l]);
    }
    if a.place[b] != Held {
      var l := a.place[b].list;
      assert l in a.chain && b in a.chain[l];
    }
  }

  /** The links say the same as the count: following them from the head, a list has that many
      blocks and then ends. */
  ghost function Follow(link: map<int, int>, head: int, n: nat): int
    decreases n
  {
    if n == 0 then head else if head in link then Follow(link, link[head], n - 1) else -1
  }

  lemma {:induction false} FollowChain(link: map<int, int>, head: int, chain: seq<int>, n: nat)
    requires Linked(link, head, chain) && n <= |chain|
    ensures Follow(link, head, n) == if n < |chain| then chain[n] else 0
    decreases n
  {
    if n > 0 {
      FollowChain(link, link[head], chain[1..], n - 1);
    }
  }

  lemma CountIsLength(a: Allocator, l: List)
    requires a.Valid() && l in a.chain
    ensures l in a.heads && l in a.counts && Follow(a.link, a.heads[l], a.counts[l]) == 0
    ensures forall n :: 0 <= n < a.counts[l] ==> Follow(a.link, a.heads[l], n) != 0
  {
    hide PlacesOk, Apart, Follow;
    CountOf(a.heads, a.counts, a.link, a.chain, l);
    FollowChain(a.link, a.heads[l], a.chain[l], a.counts[l]);
    forall n | 0 <= n < a.counts[l]
      ensures Follow(a.link, a.heads[l], n) != 0
    {
      FollowChain(a.link, a.heads[l], a.chain[l], n);
      LinkedAfter(a.link, a.heads[l], a.chain[l], n);
    }
  }
}
