/** The open-addressing index of a map: slots that carry the number of an entry and the hash of
    its key, and how probing finds them. */
module SlotIndex {
  import opened Probe

  datatype Slot = Empty | Full(hash: nat, index: nat)

  /** Every slot probed before `p`, from `home` on, is full. */
  ghost predicate PathFull(slots: seq<Slot>, home: int, p: int) {
    forall q {:trigger slots[q]} :: 0 <= q < |slots| && Steps(home, q, |slots|) < Steps(home, p, |slots|) ==>
          slots[q].Full?
  }

  /** Probing for the hash of a full slot gets there without meeting an empty slot. The content
      of the slot `hole` is stale. */
  ghost predicate Findable(slots: seq<Slot>, hole: int) {
    |slots| > 0 && forall p :: 0 <= p < |slots| && p != hole && slots[p].Full? ==>
          PathFull(slots, slots[p].hash % |slots|, p)
  }

  /** The slots and the entries are in bijection: `at[i]` is the slot of the entry `i`, whose
      key hashes to `hashes[i]`. The entry `gone` has no slot. */
  ghost predicate Bijective(slots: seq<Slot>, hashes: seq<nat>, at: seq<nat>, hole: int, gone: int) {
    && |at| == |hashes|
    && (forall i :: 0 <= i < |at| && i != gone ==>
          at[i] < |slots| && at[i] != hole && slots[at[i]] == Full(hashes[i], i))
    && (forall p :: 0 <= p < |slots| && p != hole && slots[p].Full? ==>
          slots[p].index < |at| && slots[p].index != gone && at[slots[p].index] == p)
  }

  ghost predicate Indexed(slots: seq<Slot>, hashes: seq<nat>, at: seq<nat>) {
    && Size(|slots|) && 2 * |hashes| <= |slots|
    && Findable(slots, -1) && Bijective(slots, hashes, at, -1, -1)
  }

  // ── Room ────────────────────────────────────────────────────────────────────

  ghost function UpTo(n: nat): (s: set<nat>)
    ensures |s| == n && forall i: nat :: i in s <==> i < n
  {
    if n == 0 then {} else UpTo(n - 1) + {n - 1}
  }

  ghost function Among(s: seq<nat>): (r: set<nat>)
    ensures |r| <= |s| && forall i: nat :: i in r <==> i in s
  {
    if s == [] then {} else
    assert s == s[..|s| - 1] + [s[|s| - 1]];
    Among(s[..|s| - 1]) + {s[|s| - 1]}
  }

  /** Slots of different entries cannot all be full when there are more slots than entries. */
  lemma Room(slots: seq<Slot>, at: seq<nat>) returns (e: nat)
    requires |at| < |slots|
    requires forall p :: 0 <= p < |slots| && slots[p].Full? ==> slots[p].index < |at| && at[slots[p].index] == p
    ensures e < |slots| && slots[e].Empty?
  {
    if forall p :: 0 <= p < |slots| ==> slots[p].Full? {
      forall p: nat | p < |slots|
        ensures p in Among(at)
      {
        assert at[slots[p].index] == p;
      }
      SubsetSize(UpTo(|slots|), Among(at));
      assert false;
    }
    e :| 0 <= e < |slots| && !slots[e].Full?;
  }

  lemma SubsetSize(a: set<nat>, b: set<nat>)
    requires forall i :: i in a ==> i in b
    ensures |a| <= |b|
  {
    if a != {} {
      var i :| i in a;
      SubsetSize(a - {i}, b - {i});
    }
  }

  // ── Finding ─────────────────────────────────────────────────────────────────

  lemma PathStart(slots: seq<Slot>, home: int)
    requires Size(|slots|) && |slots| > 0 && 0 <= home < |slots|
    ensures PathFull(slots, home, home)
  {
    StepsSelf(home, |slots|);
  }

  /** The path to a full slot goes on to the next one. */
  lemma PathStep(slots: seq<Slot>, home: int, p: int, e: int)
    requires |slots| > 0 && Size(|slots|) && 0 <= home < |slots| && 0 <= p < |slots| && 0 <= e < |slots|
    requires PathFull(slots, home, p) && slots[p].Full? && slots[e].Empty?
    ensures PathFull(slots, home, Next(p, |slots|))
    ensures Steps(home, Next(p, |slots|), |slots|) == Steps(home, p, |slots|) + 1
    ensures Steps(home, p, |slots|) < Steps(home, e, |slots|)
  {
    hide Steps, Next;
    var n := |slots|;
    if Steps(home, e, n) == Steps(home, p, n) {
      StepsInjective(home, e, p, n);
    }
    StepsNext(home, p, n);
    forall q | 0 <= q < n && Steps(home, q, n) < Steps(home, Next(p, n), n)
      ensures slots[q].Full?
    {
      if Steps(home, q, n) == Steps(home, p, n) {
        StepsInjective(home, p, q, n);
      }
    }
  }

  /** The first empty slot that probing for `hash` meets. */
  method FreeSlot(slots: seq<Slot>, hash: nat, ghost e: nat) returns (pos: nat)
    requires |slots| > 0 && Size(|slots|) && e < |slots| && slots[e].Empty?
    ensures pos < |slots| && slots[pos].Empty? && PathFull(slots, hash % |slots|, pos)
  {
    hide Steps, Next, PathFull;
    pos := hash % |slots|;
    PathStart(slots, pos);
    while slots[pos] != Empty
      invariant pos < |slots| && PathFull(slots, hash % |slots|, pos)
      decreases |slots| - Steps(hash % |slots|, pos, |slots|)
    {
      PathStep(slots, hash % |slots|, pos, e);
      pos := Next(pos, |slots|);
    }
  }

  /** A free slot found by probing can take a new entry. */
  lemma Added(slots: seq<Slot>, hashes: seq<nat>, at: seq<nat>, hash: nat, pos: nat)
    requires |slots| > 0 && Findable(slots, -1) && Bijective(slots, hashes, at, -1, -1)
    requires pos < |slots| && slots[pos].Empty? && PathFull(slots, hash % |slots|, pos)
    ensures Findable(slots[pos := Full(hash, |hashes|)], -1)
    ensures Bijective(slots[pos := Full(hash, |hashes|)], hashes + [hash], at + [pos], -1, -1)
  {
    hide Steps;
    var slots' := slots[pos := Full(hash, |hashes|)];
    forall p | 0 <= p < |slots'| && slots'[p].Full?
      ensures PathFull(slots', slots'[p].hash % |slots'|, p)
    {
      assert PathFull(slots, slots'[p].hash % |slots|, p);
    }
  }

  /** Probing for the hash of an entry meets its slot before any empty one. */
  lemma Met(slots: seq<Slot>, hashes: seq<nat>, at: seq<nat>, i: nat, pos: nat)
    requires |slots| > 0 && Size(|slots|) && Findable(slots, -1) && Bijective(slots, hashes, at, -1, -1)
    requires i < |hashes| && pos < |slots| && PathFull(slots, hashes[i] % |slots|, pos) && slots[pos].Empty?
    ensures Steps(hashes[i] % |slots|, at[i], |slots|) < Steps(hashes[i] % |slots|, pos, |slots|)
  {
    hide Steps;
    var n, home, p := |slots|, hashes[i] % |slots|, at[i];
    assert slots[p] == Full(hashes[i], i);
    assert PathFull(slots, home, p);
    if Steps(home, p, n) == Steps(home, pos, n) {
      StepsInjective(home, p, pos, n);
    }
  }

  // ── Deleting by backward shift ──────────────────────────────────────────────

  /** Between the slot `hole`, whose content is stale, and `pos`, every slot is full and its
      entry has its home after `hole`: no entry there would be found earlier in `hole`. */
  ghost predicate Settled(slots: seq<Slot>, hole: nat, pos: nat) {
    && hole < |slots| && pos < |slots| && slots[hole].Full?
    && (forall q {:trigger slots[q]} :: 0 <= q < |slots| && q != hole ==>
          Steps(hole, q, |slots|) <= Steps(hole, pos, |slots|) ==>
          slots[q].Full? && Steps(slots[q].hash % |slots|, q, |slots|) < Steps(hole, q, |slots|))
  }

  lemma SettledStart(slots: seq<Slot>, hole: nat)
    requires |slots| > 0 && Size(|slots|) && hole < |slots| && slots[hole].Full?
    ensures Settled(slots, hole, hole)
  {
    hide Steps;
    StepsSelf(hole, |slots|);
    forall q | 0 <= q < |slots| && Steps(hole, q, |slots|) <= 0
      ensures q == hole
    {
      StepsInjective(hole, q, hole, |slots|);
    }
  }

  /** The scan reaches the next slot before coming round to `hole`. */
  lemma ScanNext(slots: seq<Slot>, hole: nat, pos: nat, e: nat)
    requires |slots| > 0 && Size(|slots|) && Settled(slots, hole, pos) && e < |slots| && slots[e].Empty?
    ensures Steps(hole, Next(pos, |slots|), |slots|) == Steps(hole, pos, |slots|) + 1
    ensures Next(pos, |slots|) != hole
    ensures Steps(Next(pos, |slots|), e, |slots|) < Steps(pos, e, |slots|)
  {
    hide Steps, Next;
    var n := |slots|;
    var next := Next(pos, n);
    StepsNext(hole, pos, n);
    StepsSelf(hole, n);
    assert Steps(hole, pos, n) < Steps(hole, e, n);
    StepsAdd(hole, pos, e, n);
    StepsAdd(pos, next, e, n);
    StepsSelf(pos, n);
    if Steps(pos, e, n) == 0 {
      StepsInjective(pos, e, pos, n);
    }
  }

  /** The entry in `pos` stays where it is. */
  lemma Keep(slots: seq<Slot>, hole: nat, pos: nat, next: nat)
    requires |slots| > 0 && Size(|slots|) && Settled(slots, hole, pos) && next < |slots| && slots[next].Full?
    requires Steps(hole, next, |slots|) == Steps(hole, pos, |slots|) + 1
    requires Steps(slots[next].hash % |slots|, next, |slots|) < Steps(hole, next, |slots|)
    ensures Settled(slots, hole, next)
  {
    hide Steps;
    forall q | 0 <= q < |slots| && Steps(hole, q, |slots|) == Steps(hole, next, |slots|)
      ensures q == next
    {
      StepsInjective(hole, q, next, |slots|);
    }
  }

  /** The entry in `pos` moves back into `hole`, which is on the way from its home. */
  lemma Shift(slots: seq<Slot>, hashes: seq<nat>, at: seq<nat>, hole: nat, gone: nat, pos: nat)
    requires |slots| > 0 && Size(|slots|) && Findable(slots, hole) && Bijective(slots, hashes, at, hole, gone)
    requires hole < |slots| && slots[hole].Full? && pos < |slots| && pos != hole && slots[pos].Full?
    requires Steps(slots[pos].hash % |slots|, pos, |slots|) >= Steps(hole, pos, |slots|)
    ensures Findable(slots[hole := slots[pos]], pos)
    ensures slots[pos].index < |at|
    ensures Bijective(slots[hole := slots[pos]], hashes, at[slots[pos].index := hole], pos, gone)
    ensures Settled(slots[hole := slots[pos]], pos, pos)
  {
    hide Steps;
    var n := |slots|;
    var slots' := slots[hole := slots[pos]];
    var home := slots[pos].hash % n;
    StepsAdd(home, hole, pos, n);
    assert PathFull(slots, home, pos);
    forall p | 0 <= p < n && p != pos && slots'[p].Full?
      ensures PathFull(slots', slots'[p].hash % n, p)
    {
      if p != hole {
        assert PathFull(slots, slots[p].hash % n, p);
      }
    }
    SettledStart(slots', pos);
  }

  /** Emptying the hole once the scan has met an empty slot leaves every other entry findable. */
  lemma Emptied(slots: seq<Slot>, hole: nat, pos: nat, next: nat)
    requires |slots| > 0 && Size(|slots|) && Findable(slots, hole) && Settled(slots, hole, pos)
    requires next < |slots| && slots[next].Empty? && Steps(hole, next, |slots|) == Steps(hole, pos, |slots|) + 1
    ensures Findable(slots[hole := Empty], -1)
  {
    hide Steps;
    var n := |slots|;
    var slots' := slots[hole := Empty];
    forall p | 0 <= p < n && slots'[p].Full?
      ensures PathFull(slots', slots'[p].hash % n, p)
    {
      var home := slots[p].hash % n;
      assert PathFull(slots, home, p);
      if Steps(home, hole, n) < Steps(home, p, n) {
        StepsAdd(home, hole, p, n);
        StepsAdd(home, hole, next, n);
        if Steps(hole, p, n) == Steps(hole, next, n) {
          StepsInjective(hole, p, next, n);
        }
      }
    }
  }
}
