/** An insertion-ordered map: its entries in order, an open-addressing index over them once there
    are more than a few, and integer keys held as integers until the first other key. */
module MapTable {
  import opened Basics
  import opened MapHash
  import opened AssocList
  import opened SlotIndex
  import Probe

  const SMALL: nat := 8
  const MIN_SLOTS: nat := 8
  /** A slot holds the number of its entry, plus one, in 32 bits. */
  const MAX_ENTRIES: nat := 0xFFFF_FFFF

  type Word = n: int | IsInt(n)

  datatype Stored = Raw(n: Word) | Str(text: string)
  datatype Key = Int(n: Word) | Text(text: string)
  datatype Entry = Entry(key: Stored, value: int)

  function TextOf(stored: Stored): string {
    match stored
    case Raw(n) => Decimal(n)
    case Str(text) => text
  }

  function KeyText(key: Key): string {
    match key
    case Int(n) => Decimal(n)
    case Text(text) => text
  }

  // ── What a table stands for ─────────────────────────────────────────────────

  ghost function Pairs(entries: seq<Entry>): (list: seq<Pair>)
    ensures |list| == |entries|
    ensures forall i :: 0 <= i < |list| ==> list[i] == Pair(TextOf(entries[i].key), entries[i].value)
  {
    seq(|entries|, i requires 0 <= i < |entries| => Pair(TextOf(entries[i].key), entries[i].value))
  }

  ghost function Hashes(seed: Seed, list: seq<Pair>): (hashes: seq<nat>)
    ensures |hashes| == |list|
    ensures forall i :: 0 <= i < |list| ==> hashes[i] == HashText(seed, list[i].text)
  {
    seq(|list|, i requires 0 <= i < |list| => HashText(seed, list[i].text))
  }

  ghost predicate Uniform(entries: seq<Entry>, textKeys: bool) {
    forall i :: 0 <= i < |entries| ==> entries[i].key.Str? == textKeys
  }

  /** A small table has no index. */
  ghost predicate IndexFits(slots: seq<Slot>, hashes: seq<nat>, at: seq<nat>) {
    if slots == [] then |hashes| <= SMALL else Indexed(slots, hashes, at)
  }

  /** A key in the form the table holds its keys in. */
  predicate Normal(textKeys: bool, key: Key) {
    textKeys || key.Int?
  }

  lemma DecimalInjective(m: Word, n: Word)
    requires Decimal(m) == Decimal(n)
    ensures m == n
  {
    CanonicalIffDecimal(Decimal(m), m);
    CanonicalIffDecimal(Decimal(n), n);
  }

  /** Two keys are one exactly when their texts are, whatever form each is held in. */
  predicate IsKey(stored: Stored, key: Key)
    requires Normal(stored.Str?, key)
    ensures IsKey(stored, key) <==> TextOf(stored) == KeyText(key)
  {
    match (stored, key)
    case (Raw(m), Int(n)) => if Decimal(m) == Decimal(n) then DecimalInjective(m, n); m == n else m == n
    case (Str(text), _) => text == KeyText(key)
  }

  // ── Looking up ──────────────────────────────────────────────────────────────

  /** The slots probed before `pos` hold other keys. */
  ghost predicate Passed(slots: seq<Slot>, list: seq<Pair>, text: string, home: int, pos: int) {
    && |slots| > 0
    && (forall q {:trigger slots[q]} :: 0 <= q < |slots| ==>
          Probe.Steps(home, q, |slots|) < Probe.Steps(home, pos, |slots|) ==>
          slots[q].Full? && slots[q].index < |list| ==> list[slots[q].index].text != text)
  }

  lemma PassedStart(slots: seq<Slot>, list: seq<Pair>, text: string, home: nat)
    requires Probe.Size(|slots|) && home < |slots|
    ensures Passed(slots, list, text, home, home)
  {
    Probe.StepsSelf(home, |slots|);
  }

  lemma PassedStep(slots: seq<Slot>, list: seq<Pair>, text: string, home: nat, p: nat, next: nat)
    requires Probe.Size(|slots|) && p < |slots| && Passed(slots, list, text, home, p)
    requires slots[p].Full? && slots[p].index < |list| && list[slots[p].index].text != text
    requires Probe.Steps(home, next, |slots|) == Probe.Steps(home, p, |slots|) + 1
    ensures Passed(slots, list, text, home, next)
  {
    hide Probe.Steps;
    forall q | 0 <= q < |slots| && Probe.Steps(home, q, |slots|) == Probe.Steps(home, p, |slots|)
      ensures q == p
    {
      Probe.StepsInjective(home, p, q, |slots|);
    }
  }

  /** An empty slot on its path shows that a text is not in the table. */
  lemma NotFound(slots: seq<Slot>, seed: Seed, list: seq<Pair>, at: seq<nat>, text: string, pos: nat)
    requires Indexed(slots, Hashes(seed, list), at) && pos < |slots| && slots[pos].Empty?
    requires PathFull(slots, HashText(seed, text) % |slots|, pos)
    requires Passed(slots, list, text, HashText(seed, text) % |slots|, pos)
    ensures Seek(list, text) == None
  {
    hide Probe.Steps, HashText, Seek;
    if Seek(list, text).Some? {
      var i := Seek(list, text).value;
      Met(slots, Hashes(seed, list), at, i, pos);
    }
  }

  // ── Entries and their index ─────────────────────────────────────────────────

  lemma PairsAppend(seed: Seed, entries: seq<Entry>, e: Entry)
    ensures Pairs(entries + [e]) == Pairs(entries) + [Pair(TextOf(e.key), e.value)]
    ensures Hashes(seed, Pairs(entries + [e])) == Hashes(seed, Pairs(entries)) + [HashText(seed, TextOf(e.key))]
  {
  }

  lemma PairsReplace(seed: Seed, entries: seq<Entry>, i: nat, value: int)
    requires i < |entries|
    ensures Pairs(entries[i := entries[i].(value := value)]) == Pairs(entries)[i := Pair(TextOf(entries[i].key), value)]
    ensures Hashes(seed, Pairs(entries[i := entries[i].(value := value)])) == Hashes(seed, Pairs(entries))
  {
  }

  lemma PairsWithout(seed: Seed, entries: seq<Entry>, i: nat)
    requires i < |entries|
    ensures Pairs(Without(entries, i)) == Without(Pairs(entries), i)
    ensures Hashes(seed, Pairs(Without(entries, i))) == Without(Hashes(seed, Pairs(entries)), i)
  {
  }

  function Lowered(slot: Slot, gone: nat): Slot {
    if slot.Full? && slot.index > gone then Full(slot.hash, slot.index - 1) else slot
  }

  /** Counting down the numbers above a removed entry keeps slots and entries in bijection. */
  lemma Renumbered(slots: seq<Slot>, lowered: seq<Slot>, hashes: seq<nat>, at: seq<nat>, gone: nat)
    requires gone < |hashes| && Findable(slots, -1) && Bijective(slots, hashes, at, -1, gone)
    requires |lowered| == |slots| && forall p :: 0 <= p < |slots| ==> lowered[p] == Lowered(slots[p], gone)
    ensures |at| == |hashes|
    ensures Findable(lowered, -1) && Bijective(lowered, Without(hashes, gone), Without(at, gone), -1, -1)
  {
    hide Probe.Steps;
    forall p | 0 <= p < |lowered| && lowered[p].Full?
      ensures PathFull(lowered, lowered[p].hash % |lowered|, p)
    {
      assert PathFull(slots, slots[p].hash % |slots|, p);
    }
    var at', hashes' := Without(at, gone), Without(hashes, gone);
    forall i | 0 <= i < |at'|
      ensures at'[i] < |lowered| && lowered[at'[i]] == Full(hashes'[i], i)
    {
      var j := if i < gone then i else i + 1;
      assert slots[at[j]] == Full(hashes[j], j);
    }
    forall p | 0 <= p < |lowered| && lowered[p].Full?
      ensures lowered[p].index < |at'| && at'[lowered[p].index] == p
    {
      assert slots[p].index < |at| && slots[p].index != gone && at[slots[p].index] == p;
    }
  }

  /** The slots of the entries whose old slot is below `k` have moved to the new index. */
  ghost predicate Moved(former: seq<Slot>, oldAt: seq<nat>, k: nat, slots: seq<Slot>, at: seq<nat>) {
    && |at| == |oldAt| && Findable(slots, -1)
    && (forall i :: 0 <= i < |at| && oldAt[i] < k && oldAt[i] < |former| ==>
          at[i] < |slots| && slots[at[i]] == former[oldAt[i]])
    && (forall p :: 0 <= p < |slots| && slots[p].Full? ==>
          slots[p].index < |at| && at[slots[p].index] == p && oldAt[slots[p].index] < k)
  }

  lemma MovedOne(former: seq<Slot>, hashes: seq<nat>, oldAt: seq<nat>, k: nat, slots: seq<Slot>, at: seq<nat>, pos: nat)
    requires Bijective(former, hashes, oldAt, -1, -1) && k < |former| && former[k].Full?
    requires Moved(former, oldAt, k, slots, at)
    requires pos < |slots| && slots[pos].Empty? && PathFull(slots, former[k].hash % |slots|, pos)
    ensures former[k].index < |at| && Moved(former, oldAt, k + 1, slots[pos := former[k]], at[former[k].index := pos])
  {
    hide Probe.Steps;
    var slots' := slots[pos := former[k]];
    forall p | 0 <= p < |slots'| && slots'[p].Full?
      ensures PathFull(slots', slots'[p].hash % |slots'|, p)
    {
      assert PathFull(slots, slots'[p].hash % |slots|, p);
    }
  }

  lemma MovedAll(former: seq<Slot>, hashes: seq<nat>, oldAt: seq<nat>, slots: seq<Slot>, at: seq<nat>)
    requires Bijective(former, hashes, oldAt, -1, -1) && Moved(former, oldAt, |former|, slots, at)
    ensures Findable(slots, -1) && Bijective(slots, hashes, at, -1, -1)
  {
  }

  lemma NoneMoved(former: seq<Slot>, formerAt: seq<nat>, slots: seq<Slot>)
    requires |slots| > 0 && forall p :: 0 <= p < |slots| ==> slots[p] == Empty
    ensures Moved(former, formerAt, 0, slots, formerAt)
  {
  }

  lemma MovedNone(former: seq<Slot>, hashes: seq<nat>, formerAt: seq<nat>, k: nat, slots: seq<Slot>, at: seq<nat>)
    requires Bijective(former, hashes, formerAt, -1, -1) && k < |former| && former[k].Empty?
    requires Moved(former, formerAt, k, slots, at)
    ensures Moved(former, formerAt, k + 1, slots, at)
  {
  }

  lemma MovedRoom(former: seq<Slot>, hashes: seq<nat>, formerAt: seq<nat>, k: nat, slots: seq<Slot>, at: seq<nat>)
    returns (e: nat)
    requires Bijective(former, hashes, formerAt, -1, -1) && |hashes| < |slots|
    requires Moved(former, formerAt, k, slots, at)
    ensures e < |slots| && slots[e].Empty?
  {
    e := Room(slots, at);
  }

  lemma EightSlots()
    ensures Probe.Size(MIN_SLOTS)
  {
    assert Probe.Pow2(3) == 8;
  }

  lemma NoSlots(slots: seq<Slot>)
    requires |slots| > 0 && forall p :: 0 <= p < |slots| ==> slots[p] == Empty
    ensures Findable(slots, -1) && Bijective(slots, [], [], -1, -1)
  {
  }

  /** A held key, as one to look up. */
  function Held(stored: Stored): (key: Key)
    ensures KeyText(key) == TextOf(stored)
  {
    match stored
    case Raw(n) => Int(n)
    case Str(text) => Text(text)
  }

  /** The slot to put a new entry in. */
  method Place(slots: seq<Slot>, ghost hashes: seq<nat>, ghost at: seq<nat>, hash: nat) returns (pos: nat)
    requires Probe.Size(|slots|) && |hashes| < |slots| && Findable(slots, -1) && Bijective(slots, hashes, at, -1, -1)
    ensures pos < |slots| && slots[pos].Empty? && PathFull(slots, hash % |slots|, pos)
  {
    ghost var e := Room(slots, at);
    pos := FreeSlot(slots, hash, e);
  }

  lemma ClearStart(slots: seq<Slot>, hashes: seq<nat>, at: seq<nat>, start: nat) returns (e: nat)
    requires Probe.Size(|slots|) && |hashes| < |slots| && Findable(slots, -1) && Bijective(slots, hashes, at, -1, -1)
    requires start < |slots| && slots[start].Full?
    ensures e < |slots| && slots[e].Empty?
    ensures Findable(slots, start) && Bijective(slots, hashes, at, start, slots[start].index)
    ensures Settled(slots, start, start)
  {
    hide Probe.Size, PathFull;
    e := Room(slots, at);
    SettledStart(slots, start);
  }

  lemma Unlinked(slots: seq<Slot>, hashes: seq<nat>, at: seq<nat>, hole: nat, gone: nat)
    requires hole < |slots| && Bijective(slots, hashes, at, hole, gone)
    ensures Bijective(slots[hole := Empty], hashes, at, -1, gone)
  {
  }

  lemma NothingAbove(slots: seq<Slot>, hashes: seq<nat>, at: seq<nat>, gone: nat)
    requires gone == |hashes| - 1 && Bijective(slots, hashes, at, -1, gone)
    ensures forall p :: 0 <= p < |slots| ==> slots[p] == Lowered(slots[p], gone)
  {
  }

  ghost function KeyAnswer(list: seq<Pair>, index: nat, intKey: bool): Stored {
    if index >= |list| then Raw(0)
    else if !intKey then Str(list[index].text)
    else
      var n := CanonicalInt(list[index].text);
      if n.Some? && IsInt(n.value) then Raw(n.value) else Raw(0)
  }

  // ── Sorting ─────────────────────────────────────────────────────────────────

  function InsertedEntry(e: Entry, entries: seq<Entry>): seq<Entry> {
    if entries == [] || !Before(TextOf(entries[0].key), TextOf(e.key)) then [e] + entries
    else [entries[0]] + InsertedEntry(e, entries[1..])
  }

  /** The standard stable sort, by key text. */
  function SortedEntries(entries: seq<Entry>): seq<Entry> {
    if entries == [] then [] else InsertedEntry(entries[0], SortedEntries(entries[1..]))
  }

  lemma {:induction false} InsertedPairs(e: Entry, entries: seq<Entry>, textKeys: bool)
    requires Uniform([e] + entries, textKeys)
    ensures Uniform(InsertedEntry(e, entries), textKeys) && |InsertedEntry(e, entries)| == |entries| + 1
    ensures Pairs(InsertedEntry(e, entries)) == Inserted(Pair(TextOf(e.key), e.value), Pairs(entries))
  {
    hide Before, Decimal;
    if entries != [] && Before(TextOf(entries[0].key), TextOf(e.key)) {
      assert forall i :: 0 <= i < |entries| ==> ([e] + entries)[i + 1] == entries[i];
      assert ([e] + entries)[0] == e;
      InsertedPairs(e, entries[1..], textKeys);
      assert Pairs(entries)[1..] == Pairs(entries[1..]);
    }
  }

  lemma {:induction false} SortedPairs(entries: seq<Entry>, textKeys: bool)
    requires Uniform(entries, textKeys)
    ensures Uniform(SortedEntries(entries), textKeys) && |SortedEntries(entries)| == |entries|
    ensures Pairs(SortedEntries(entries)) == Sorted(Pairs(entries))
  {
    if entries != [] {
      SortedPairs(entries[1..], textKeys);
      InsertedPairs(entries[0], SortedEntries(entries[1..]), textKeys);
      assert Pairs(entries)[1..] == Pairs(entries[1..]);
    }
  }

  // ── The table ───────────────────────────────────────────────────────────────

  class Table {
    const seed: Seed
    var entries: seq<Entry>
    var slots: seq<Slot>
    var textKeys: bool
    ghost var at: seq<nat>

    ghost function Hashed(): seq<nat>
      reads `entries
    {
      Hashes(seed, View())
    }

    ghost predicate Valid()
      reads this
    {
      && |entries| <= MAX_ENTRIES && Uniform(entries, textKeys) && Unique(View())
      && IndexFits(slots, Hashed(), at)
    }

    /** What the table means. */
    ghost function View(): seq<Pair>
      reads `entries
    {
      Pairs(entries)
    }

    constructor (seed: Seed)
      ensures Valid() && View() == [] && this.seed == seed
    {
      this.seed := seed;
      entries, slots, textKeys, at := [], [], false, [];
    }

    function Hash(key: Key): (h: nat)
      ensures h == HashText(seed, KeyText(key))
    {
      match key
      case Int(n) => HashOfDecimal(seed, n); HashInt(n)
      case Text(text) => HashText(seed, text)
    }

    /** `key` in the form the table holds its keys in; none when it is in no such table. */
    function Normalize(key: Key): (r: Option<Key>)
      reads `textKeys
      ensures r.Some? ==> Normal(textKeys, r.value) && KeyText(r.value) == KeyText(key)
      ensures r.None? ==> !textKeys && forall n: Word :: Decimal(n) != KeyText(key)
    {
      match key
      case Text(text) =>
        if textKeys then Some(key)
        else
          var r := CanonicalInt(text);
          if r.Some? then CanonicalIffDecimal(text, r.value); Some(Int(r.value))
          else
            assert forall n: Word :: Decimal(n) != text by {
              forall n: Word
                ensures Decimal(n) != text
              {
                CanonicalIffDecimal(text, n);
              }
            }
            None
      case Int(_) => Some(key)
    }

    /** Slot and number of the entry of `key`, or the empty slot to put it in. */
    method Find(hash: nat, key: Key) returns (found: bool, pos: nat, index: nat)
      requires Valid() && slots != [] && Normal(textKeys, key) && hash == HashText(seed, KeyText(key))
      ensures pos < |slots|
      ensures found ==> Seek(View(), KeyText(key)) == Some(index) && slots[pos].Full? && slots[pos].index == index
      ensures !found ==> Seek(View(), KeyText(key)) == None
      ensures !found ==> slots[pos].Empty? && PathFull(slots, hash % |slots|, pos)
    {
      hide HashText, Decimal, Seek, PathFull, Findable, Probe.Steps, Probe.Next, Passed, Unique;
      ghost var text := KeyText(key);
      ghost var e := Room(slots, at);
      pos := hash % |slots|;
      PathStart(slots, pos);
      PassedStart(slots, View(), text, pos);
      while true
        invariant pos < |slots| && PathFull(slots, hash % |slots|, pos)
        invariant Passed(slots, View(), text, hash % |slots|, pos)
        decreases |slots| - Probe.Steps(hash % |slots|, pos, |slots|)
      {
        var slot := slots[pos];
        if slot == Empty {
          NotFound(slots, seed, View(), at, text, pos);
          return false, pos, 0;
        }
        if slot.hash == hash && IsKey(entries[slot.index].key, key) {
          SeekAt(View(), slot.index);
          return true, pos, slot.index;
        }
        PathStep(slots, hash % |slots|, pos, e);
        PassedStep(slots, View(), text, hash % |slots|, pos, Probe.Next(pos, |slots|));
        pos := Probe.Next(pos, |slots|);
      }
    }

    /** Number of the entry of `key` in a small table. */
    method FindSmall(key: Key) returns (r: Option<nat>)
      requires Valid() && Normal(textKeys, key)
      ensures r == Seek(View(), KeyText(key))
    {
      hide Decimal, Seek, IndexFits, Hashes, Unique;
      for i := 0 to |entries|
        invariant forall j :: 0 <= j < i ==> View()[j].text != KeyText(key)
      {
        if IsKey(entries[i].key, key) {
          SeekAt(View(), i);
          return Some(i);
        }
      }
      r := None;
    }

    /** Slot of the entry of `key`, none in a small table, and its number. */
    method Position(key: Key) returns (r: Option<(Option<nat>, nat)>)
      requires Valid()
      ensures r.None? <==> Seek(View(), KeyText(key)) == None
      ensures r.Some? ==> Seek(View(), KeyText(key)) == Some(r.value.1) && (r.value.0.None? <==> slots == [])
      ensures r.Some? && r.value.0.Some? ==>
                r.value.0.value < |slots| && slots[r.value.0.value].Full? && slots[r.value.0.value].index == r.value.1
    {
      hide Decimal, Seek, IndexFits, Hashes, Unique;
      if entries == [] {
        return None;
      }
      var normal := Normalize(key);
      if normal.None? {
        return None;
      }
      if slots == [] {
        var small := FindSmall(normal.value);
        return if small.Some? then Some((None, small.value)) else None;
      }
      var found, pos, index := Find(Hash(normal.value), normal.value);
      r := if found then Some((Some(pos), index)) else None;
    }

    /** Builds the index over the entries: each key is hashed once. */
    method BuildIndex()
      requires Uniform(entries, textKeys) && |entries| <= MAX_ENTRIES
      modifies `slots, `at
      ensures Indexed(slots, Hashed(), at) && 2 * (|entries| + 1) <= |slots|
    {
      hide HashText, Decimal, PathFull, Probe.Steps, Probe.Next, Probe.Size, Findable, Bijective;
      var size := Probe.NextPowerOfTwo((|entries| + 1) * 2);
      Probe.NextPowerOfTwoSize((|entries| + 1) * 2);
      if size < MIN_SLOTS {
        size := MIN_SLOTS;
      }
      EightSlots();
      slots, at := seq(size, _ => Empty), [];
      NoSlots(slots);
      for index := 0 to |entries|
        invariant |slots| == size && Findable(slots, -1) && Bijective(slots, Hashed()[..index], at, -1, -1)
      {
        var hash := Hash(Held(entries[index].key));
        var pos := Place(slots, Hashed()[..index], at, hash);
        Added(slots, Hashed()[..index], at, hash, pos);
        slots, at := slots[pos := Full(hash, index)], at + [pos];
        assert Hashed()[..index] + [hash] == Hashed()[..index + 1];
      }
      assert Hashed()[..|entries|] == Hashed();
    }

    /** Doubles the index: the slots are placed again by the hashes they carry. */
    method Grow()
      requires slots != [] && |slots| < 0x8000_0000_0000_0000 && Indexed(slots, Hashed(), at)
      modifies `slots, `at
      ensures Indexed(slots, Hashed(), at) && |slots| == 2 * |old(slots)|
    {
      hide HashText, PathFull, Probe.Steps, Probe.Next, Probe.Size, Findable, Bijective, Moved;
      var former := slots;
      ghost var formerAt := at;
      Probe.SizeDoubles(|slots|);
      slots := seq(2 * |slots|, _ => Empty);
      NoneMoved(former, formerAt, slots);
      for k := 0 to |former|
        invariant |slots| == 2 * |former| && Moved(former, formerAt, k, slots, at)
      {
        if former[k] != Empty {
          ghost var e := MovedRoom(former, Hashed(), formerAt, k, slots, at);
          var pos := FreeSlot(slots, former[k].hash, e);
          MovedOne(former, Hashed(), formerAt, k, slots, at, pos);
          slots, at := slots[pos := former[k]], at[former[k].index := pos];
        } else {
          MovedNone(former, Hashed(), formerAt, k, slots, at);
        }
      }
      MovedAll(former, Hashed(), formerAt, slots, at);
    }

    /** Turns integer keys into their texts. The index stays as it is. */
    method UseTextKeys()
      requires Valid() && !textKeys
      modifies `entries, `textKeys
      ensures Valid() && textKeys && View() == old(View())
    {
      hide Decimal, IndexFits, Unique, HashText;
      ghost var before := entries;
      for i := 0 to |entries|
        invariant |entries| == |before| && forall j :: 0 <= j < |entries| ==> entries[j].value == before[j].value
        invariant forall j :: i <= j < |entries| ==> entries[j] == before[j]
        invariant forall j :: 0 <= j < i ==> entries[j].key == Str(TextOf(before[j].key))
      {
        var buf := new char[20];
        var start := IntText(entries[i].key.n, buf);
        entries := entries[i := entries[i].(key := Str(buf[start..]))];
      }
      textKeys := true;
      assert Pairs(entries) == Pairs(before);
    }

    method Get(key: Key) returns (r: Option<int>)
      requires Valid()
      ensures r == Assoc(View(), KeyText(key))
    {
      hide Seek, IndexFits, Unique, Decimal;
      var place := Position(key);
      r := if place.Some? then Some(entries[place.value.1].value) else None;
    }

    method ContainsKey(key: Key) returns (r: bool)
      requires Valid()
      ensures r <==> Assoc(View(), KeyText(key)).Some?
    {
      var place := Position(key);
      r := place.Some?;
    }

    /** The value of the entry `index` when its key is `key`, or else that of the entry of `key`:
        a wrong number costs a search, and changes nothing else. */
    method ValueAt(index: nat, key: Key) returns (r: Option<int>)
      requires Valid()
      ensures r == Assoc(View(), KeyText(key))
    {
      hide Seek, IndexFits, Decimal;
      var normal := Normalize(key);
      if index < |entries| && normal.Some? && IsKey(entries[index].key, normal.value) {
        SeekAt(View(), index);
        return Some(entries[index].value);
      }
      r := Get(key);
    }

    /** The key of the entry `index`: an integer, or else a text, and then the table holds texts
        from there on. */
    method KeyAt(index: nat, intKey: bool) returns (r: Stored)
      requires Valid()
      modifies `entries, `textKeys
      ensures Valid() && View() == old(View())
      ensures r == KeyAnswer(View(), index, intKey)
    {
      hide IndexFits, Unique, Decimal, CanonicalInt;
      if index >= |entries| {
        return Raw(0);
      }
      if intKey && textKeys {
        var n := CanonicalInt(TextOf(entries[index].key));
        if n.Some? {
          CanonicalIffDecimal(TextOf(entries[index].key), n.value);
        }
        return Raw(if n.Some? then n.value else 0);
      }
      if !intKey && !textKeys {
        UseTextKeys();
      }
      if !textKeys {
        CanonicalIffDecimal(TextOf(entries[index].key), entries[index].key.n);
      }
      r := entries[index].key;
    }

    method Replace(index: nat, value: int) returns (previous: int)
      requires Valid() && index < |entries|
      modifies `entries
      ensures Valid() && View() == old(View())[index := Pair(old(View())[index].text, value)]
      ensures previous == old(View())[index].value
    {
      hide IndexFits, Decimal, HashText;
      PairsReplace(seed, entries, index, value);
      previous := entries[index].value;
      entries := entries[index := entries[index].(value := value)];
    }

    /** Stores `value` under `key`, and returns what was there. */
    method Insert(key: Key, value: int) returns (previous: Option<int>)
      requires Valid() && (|entries| < MAX_ENTRIES || Seek(View(), KeyText(key)).Some?)
      modifies this
      ensures Valid() && View() == Store(old(View()), KeyText(key), value)
      ensures previous == Assoc(old(View()), KeyText(key))
    {
      hide Seek, Decimal, HashText, PathFull, Findable, Bijective, Probe.Size, Hashes;
      ghost var text := KeyText(key);
      var normal := Normalize(key);
      if normal.None? {
        UseTextKeys();
        normal := Some(key);
      }
      if slots == [] {
        var small := FindSmall(normal.value);
        if small.Some? {
          var was := Replace(small.value, value);
          return Some(was);
        }
        if |entries| < SMALL {
          Append(normal.value, value);
          return None;
        }
        BuildIndex();
      }
      var hash := Hash(normal.value);
      var found, pos, index := Find(hash, normal.value);
      if found {
        var was := Replace(index, value);
        return Some(was);
      }
      if (|entries| + 1) * 2 > |slots| {
        Grow();
        pos := Place(slots, Hashed(), at, hash);
      }
      Added(slots, Hashed(), at, hash, pos);
      slots, at := slots[pos := Full(hash, |entries|)], at + [pos];
      Append(normal.value, value);
      previous := None;
    }

    /** Adds an entry whose slot is ready. */
    method Append(key: Key, value: int)
      requires |entries| < MAX_ENTRIES && Uniform(entries, textKeys) && Unique(View()) && Normal(textKeys, key)
      requires Seek(View(), KeyText(key)) == None
      requires IndexFits(slots, Hashed() + [HashText(seed, KeyText(key))], at)
      modifies `entries
      ensures Valid() && View() == old(View()) + [Pair(KeyText(key), value)]
    {
      hide IndexFits, Decimal, HashText, Seek;
      var stored := Keep(key);
      PairsAppend(seed, entries, Entry(stored, value));
      entries := entries + [Entry(stored, value)];
    }

    /** The form to hold `key` in. */
    method Keep(key: Key) returns (stored: Stored)
      requires Normal(textKeys, key)
      ensures stored.Str? == textKeys && TextOf(stored) == KeyText(key)
    {
      match key
      case Int(n) =>
        if !textKeys {
          return Raw(n);
        }
        var buf := new char[20];
        var start := IntText(n, buf);
        stored := Str(buf[start..]);
      case Text(text) => stored := Str(text);
    }

    /** Empties the slot `start`, and moves back into it, without tombstone, the later slots of
        the probe sequence that would no longer be found. */
    method ClearSlot(start: nat)
      requires Probe.Size(|slots|) && |Hashed()| < |slots| && Findable(slots, -1)
      requires Bijective(slots, Hashed(), at, -1, -1)
      requires start < |slots| && slots[start].Full?
      modifies `slots, `at
      ensures |slots| == |old(slots)| && Findable(slots, -1)
      ensures Bijective(slots, Hashed(), at, -1, old(slots[start].index))
    {
      hide *;
      var hole: nat, pos: nat := start, start;
      ghost var gone, n := slots[start].index, |slots|;
      ghost var e := ClearStart(slots, Hashed(), at, start);
      while true
        invariant |slots| == n && hole < n && pos < n && slots[hole].Full? && e < n && slots[e].Empty?
        invariant Settled(slots, hole, pos)
        invariant Findable(slots, hole) && Bijective(slots, Hashed(), at, hole, gone)
        decreases Probe.Steps(pos, e, n)
      {
        ScanNext(slots, hole, pos, e);
        ghost var last := pos;
        pos := Probe.Next(pos, |slots|);
        var slot := slots[pos];
        if slot == Empty {
          Emptied(slots, hole, last, pos);
          Unlinked(slots, Hashed(), at, hole, gone);
          break;
        }
        if Probe.Steps(slot.hash % |slots|, pos, |slots|) >= Probe.Steps(hole, pos, |slots|) {
          SlotIndex.Shift(slots, Hashed(), at, hole, gone, pos);
          slots, at := slots[hole := slot], at[slot.index := hole];
          hole := pos;
        } else {
          SlotIndex.Keep(slots, hole, last, pos);
        }
      }
      slots := slots[hole := Empty];
    }

    /** Counts down the numbers above `index`. */
    method Renumber(index: nat)
      modifies `slots
      ensures |slots| == |old(slots)|
      ensures forall p :: 0 <= p < |slots| ==> slots[p] == Lowered(old(slots)[p], index)
    {
      for p := 0 to |slots|
        invariant |slots| == |old(slots)|
        invariant forall q :: 0 <= q < |slots| ==>
                  slots[q] == if q < p then Lowered(old(slots)[q], index) else old(slots)[q]
      {
        if slots[p] != Empty && slots[p].index > index {
          slots := slots[p := Full(slots[p].hash, slots[p].index - 1)];
        }
      }
    }

    /** Removes the slot of the entry `index` from the index. */
    method RemoveSlot(pos: nat, index: nat)
      requires Indexed(slots, Hashed(), at) && pos < |slots| && slots[pos].Full?
      requires slots[pos].index == index < |entries|
      modifies `slots, `at
      ensures |slots| == |old(slots)| && Indexed(slots, Without(Hashed(), index), at)
    {
      hide Probe.Size, Findable, Bijective, Hashes, Lowered;
      ClearSlot(pos);
      ghost var cleared := slots;
      if index < |entries| - 1 {
        Renumber(index);
      } else {
        NothingAbove(slots, Hashed(), at, index);
      }
      Renumbered(cleared, slots, Hashed(), at, index);
      at := Without(at, index);
    }

    /** Removes the entry of `key`, and keeps the order of the others. */
    method Remove(key: Key) returns (r: Option<int>)
      requires Valid()
      modifies `entries, `slots, `at
      ensures Valid() && View() == Erase(old(View()), KeyText(key))
      ensures r == Assoc(old(View()), KeyText(key))
    {
      hide Seek, Decimal, HashText, PathFull, Findable, Bijective, Probe.Size, Hashes;
      var place := Position(key);
      if place.None? {
        return None;
      }
      var index := place.value.1;
      r := Some(entries[index].value);
      PairsWithout(seed, entries, index);
      if place.value.0.Some? {
        RemoveSlot(place.value.0.value, index);
      }
      entries := Without(entries, index);
    }

    /** Puts the entries in the order of their texts, and builds the index again if there is one. */
    method SortByKeyText()
      requires Valid()
      modifies `entries, `slots, `at
      ensures Valid() && View() == Sorted(old(View()))
    {
      hide Decimal, HashText, Findable, Bijective, Probe.Size;
      SortedPairs(entries, textKeys);
      SortLaws(View(), "");
      entries := SortedEntries(entries);
      if slots != [] {
        BuildIndex();
      }
    }
  }

  // ── Whole runs ──────────────────────────────────────────────────────────────

  datatype Op = Put(key: Key, value: int) | Read(key: Key) | Delete(key: Key) | Order
              | ReadAt(index: nat, key: Key) | NameAt(index: nat, intKey: bool)
  datatype Answer = Was(value: Option<int>) | Named(name: Stored) | Done

  /** What an operation does to a list of pairs, and what it answers. */
  ghost function Applied(list: seq<Pair>, op: Op): seq<Pair> {
    match op
    case Put(key, value) => Store(list, KeyText(key), value)
    case Delete(key) => Erase(list, KeyText(key))
    case Order => Sorted(list)
    case _ => list
  }

  ghost function AnswerOf(list: seq<Pair>, op: Op): Answer {
    match op
    case Put(key, _) => Was(Assoc(list, KeyText(key)))
    case Read(key) => Was(Assoc(list, KeyText(key)))
    case Delete(key) => Was(Assoc(list, KeyText(key)))
    case ReadAt(_, key) => Was(Assoc(list, KeyText(key)))
    case NameAt(index, intKey) => Named(KeyAnswer(list, index, intKey))
    case Order => Done
  }

  ghost function ListAfter(ops: seq<Op>): seq<Pair> {
    if ops == [] then [] else Applied(ListAfter(ops[..|ops| - 1]), ops[|ops| - 1])
  }

  ghost function Answers(ops: seq<Op>): seq<Answer> {
    if ops == [] then [] else
    Answers(ops[..|ops| - 1]) + [AnswerOf(ListAfter(ops[..|ops| - 1]), ops[|ops| - 1])]
  }

  /** One operation on the table. */
  method Perform(table: Table, op: Op) returns (answer: Answer)
    requires table.Valid() && (op.Put? ==> |table.entries| < MAX_ENTRIES || Seek(table.View(), KeyText(op.key)).Some?)
    modifies table
    ensures table.Valid() && table.View() == Applied(old(table.View()), op) 
    ensures |table.entries| <= old(|table.entries|) + if op.Put? then 1 else 0
    ensures answer == AnswerOf(old(table.View()), op)
  {
    hide Table.Valid, Seek, Assoc, KeyAnswer, Sorted;
    assert |table.View()| == |table.entries|;
    match op
    case Put(key, value) =>
      var previous := table.Insert(key, value);
      assert |table.View()| == |table.entries|;
      answer := Was(previous);
    case Read(key) =>
      var value := table.Get(key);
      answer := Was(value);
    case Delete(key) =>
      var value := table.Remove(key);
      assert |table.View()| == |table.entries|;
      answer := Was(value);
    case Order =>
      SortedLength(table.View());
      table.SortByKeyText();
      assert |table.View()| == |table.entries|;
      answer := Done;
    case ReadAt(index, key) =>
      var value := table.ValueAt(index, key);
      answer := Was(value);
    case NameAt(index, intKey) =>
      var name := table.KeyAt(index, intKey);
      assert |table.View()| == |table.entries|;
      answer := Named(name);
  }

  /** How many pairs a run can make at most. */
  function Puts(ops: seq<Op>): nat {
    if ops == [] then 0 else Puts(ops[..|ops| - 1]) + if ops[|ops| - 1].Put? then 1 else 0
  }

  lemma {:induction false} PutsPrefix(ops: seq<Op>, n: nat)
    requires n <= |ops|
    ensures Puts(ops[..n]) <= Puts(ops)
  {
    if n < |ops| {
      PutsPrefix(ops[..|ops| - 1], n);
      assert ops[..|ops| - 1][..n] == ops[..n];
    } else {
      assert ops[..n] == ops;
    }
  }

  /** Every run of a new table answers as the list of pairs does, whatever the hashes are. */
  method Run(seed: Seed, ops: seq<Op>) returns (answers: seq<Answer>)
    requires Puts(ops) <= MAX_ENTRIES
    ensures answers == Answers(ops)
  {
    hide Table.Valid, Applied, AnswerOf, Table.View;
    var table := new Table(seed);
    answers := [];
    NoPairs(table);
    for i := 0 to |ops|
      invariant fresh(table) && table.Valid() && |table.entries| <= Puts(ops[..i]) <= Puts(ops)
      invariant table.View() == ListAfter(ops[..i]) && answers == Answers(ops[..i])
    {
      assert ops[..i + 1][..i] == ops[..i];
      PutsPrefix(ops, i + 1);
      var answer := Perform(table, ops[i]);
      answers := answers + [answer];
    }
    assert ops[..|ops|] == ops;
  }

  lemma NoPairs(table: Table)
    ensures table.View() == [] ==> table.entries == []
  {
  }

  // ── Slots as words ──────────────────────────────────────────────────────────

  /** A slot in 64 bits: the hash above, the number plus one below, and 0 for an empty slot. */
  function Packed(slot: Slot): nat {
    match slot
    case Empty => 0
    case Full(hash, index) => hash * TWO_32 + (index + 1)
  }

  function Unpacked(word: nat): Slot
    requires word == 0 || word % TWO_32 > 0
  {
    if word == 0 then Empty else Full(word / TWO_32, word % TWO_32 - 1)
  }

  /** Packing loses nothing, and counting a word down counts down its number alone. */
  lemma PackedFaithful(slot: Slot)
    requires slot.Full? ==> slot.hash < TWO_32 && slot.index < MAX_ENTRIES
    ensures Packed(slot) < TWO_64 && (Packed(slot) == 0 || Packed(slot) % TWO_32 > 0)
    ensures Unpacked(Packed(slot)) == slot
    ensures slot.Full? && slot.index > 0 ==> Packed(slot) - 1 == Packed(Full(slot.hash, slot.index - 1))
  {
  }

  /** The slots of a table all fit their words. */
  lemma SlotsFit(table: Table, p: nat)
    requires table.Valid() && p < |table.slots|
    ensures table.slots[p].Full? ==> table.slots[p].hash < TWO_32 && table.slots[p].index < MAX_ENTRIES
  {
    hide HashText;
    var slot := table.slots[p];
    if slot.Full? {
      assert table.slots[table.at[slot.index]] == Full(table.Hashed()[slot.index], slot.index);
      assert table.Hashed()[slot.index] == HashText(table.seed, table.View()[slot.index].text);
    }
  }
}
