/** The reference for a map: pairs in insertion order, one for each text. */
module AssocList {
  import opened Basics

  datatype Pair = Pair(text: string, value: int)

  ghost predicate Unique(list: seq<Pair>) {
    forall i, j :: 0 <= i < j < |list| ==> list[i].text != list[j].text
  }

  /** Where the pair of a text is. */
  function Seek(list: seq<Pair>, text: string): (r: Option<nat>)
    ensures r.Some? ==> r.value < |list| && list[r.value].text == text
    ensures r.None? ==> forall i :: 0 <= i < |list| ==> list[i].text != text
  {
    if list == [] then None
    else if list[|list| - 1].text == text then Some(|list| - 1)
    else Seek(list[..|list| - 1], text)
  }

  function Assoc(list: seq<Pair>, text: string): Option<int> {
    match Seek(list, text)
    case None => None
    case Some(i) => Some(list[i].value)
  }

  /** A known text keeps its place; a new one goes last. */
  function Store(list: seq<Pair>, text: string, value: int): seq<Pair> {
    match Seek(list, text)
    case None => list + [Pair(text, value)]
    case Some(i) => list[i := Pair(text, value)]
  }

  function Erase(list: seq<Pair>, text: string): seq<Pair> {
    match Seek(list, text)
    case None => list
    case Some(i) => list[..i] + list[i + 1..]
  }

  lemma SeekAt(list: seq<Pair>, i: nat)
    requires Unique(list) && i < |list|
    ensures Seek(list, list[i].text) == Some(i)
  {
  }

  /** A store changes what is found for one text. */
  lemma StoreLaws(list: seq<Pair>, text: string, value: int, other: string)
    requires Unique(list)
    ensures Unique(Store(list, text, value))
    ensures Assoc(Store(list, text, value), other) == if other == text then Some(value) else Assoc(list, other)
  {
    hide Seek;
    var stored := Store(list, text, value);
    if Seek(list, other).Some? {
      var i := Seek(list, other).value;
      assert stored[i].text == other;
      SeekAt(stored, i);
    } else if other == text {
      assert stored[|list|].text == other;
      SeekAt(stored, |list|);
    }
  }

  /** An erasure removes one text, and nothing else is forgotten. */
  lemma EraseLaws(list: seq<Pair>, text: string, other: string)
    requires Unique(list)
    ensures Unique(Erase(list, text))
    ensures Assoc(Erase(list, text), other) == if other == text then None else Assoc(list, other)
  {
    hide Seek;
    var erased := Erase(list, text);
    var j := if Seek(list, text).Some? then Seek(list, text).value else |list|;
    assert forall k :: 0 <= k < |erased| ==> erased[k] == list[if k < j then k else k + 1];
    if Seek(list, other).Some? && other != text {
      var i := Seek(list, other).value;
      var k := if i < j then i else i - 1;
      assert erased[k] == list[i];
      SeekAt(erased, k);
    }
  }

  // ── Order by text ───────────────────────────────────────────────────────────

  /** Texts in the order of their characters. */
  predicate Before(s: string, t: string) {
    if t == "" then false
    else if s == "" then true
    else if s[0] != t[0] then s[0] < t[0]
    else Before(s[1..], t[1..])
  }

  lemma {:induction false} BeforeTotal(s: string, t: string)
    ensures !(Before(s, t) && Before(t, s)) && (Before(s, t) || s == t || Before(t, s))
  {
    if s != "" && t != "" && s[0] == t[0] {
      BeforeTotal(s[1..], t[1..]);
      assert s == [s[0]] + s[1..] && t == [t[0]] + t[1..];
    }
  }

  lemma {:induction false} BeforeTransitive(s: string, t: string, u: string)
    requires Before(s, t) && Before(t, u)
    ensures Before(s, u)
  {
    if s != "" && s[0] == t[0] == u[0] {
      BeforeTransitive(s[1..], t[1..], u[1..]);
    }
  }

  function Inserted(p: Pair, list: seq<Pair>): seq<Pair> {
    if list == [] || !Before(list[0].text, p.text) then [p] + list else [list[0]] + Inserted(p, list[1..])
  }

  /** A stable sort by text. */
  function Sorted(list: seq<Pair>): seq<Pair> {
    if list == [] then [] else Inserted(list[0], Sorted(list[1..]))
  }

  ghost predicate Ordered(list: seq<Pair>) {
    forall i, j :: 0 <= i < j < |list| ==> Before(list[i].text, list[j].text)
  }

  lemma {:induction false} InsertedKeeps(p: Pair, list: seq<Pair>)
    ensures multiset(Inserted(p, list)) == multiset(list) + multiset{p}
  {
    if list != [] && Before(list[0].text, p.text) {
      InsertedKeeps(p, list[1..]);
      assert list == [list[0]] + list[1..];
    }
  }

  ghost predicate Above(text: string, list: seq<Pair>) {
    forall q :: q in multiset(list) ==> Before(text, q.text)
  }

  lemma AboveOrdered(p: Pair, list: seq<Pair>)
    requires Above(p.text, list) && Ordered(list)
    ensures Ordered([p] + list)
  {
    forall j | 0 <= j < |list|
      ensures Before(p.text, list[j].text)
    {
      assert list[j] in multiset(list);
    }
  }

  lemma OrderedAbove(list: seq<Pair>)
    requires Ordered(list) && list != []
    ensures Ordered(list[1..]) && Above(list[0].text, list[1..])
  {
  }

  lemma AboveTransitive(text: string, p: Pair, list: seq<Pair>)
    requires Before(text, p.text) && Above(p.text, list)
    ensures Above(text, [p] + list)
  {
    forall q | q in multiset([p] + list)
      ensures Before(text, q.text)
    {
      if q != p {
        assert q in multiset(list);
        BeforeTransitive(text, p.text, q.text);
      }
    }
  }

  lemma {:induction false} InsertedOrdered(p: Pair, list: seq<Pair>)
    requires Ordered(list) && forall q :: q in multiset(list) ==> q.text != p.text
    ensures Ordered(Inserted(p, list))
  {
    hide Ordered, Before;
    if list != [] {
      var head, tail := list[0], list[1..];
      OrderedAbove(list);
      assert list == [head] + tail;
      assert head in multiset(list);
      if Before(head.text, p.text) {
        InsertedOrdered(p, tail);
        InsertedKeeps(p, tail);
        AboveOrdered(head, Inserted(p, tail));
      } else {
        BeforeTotal(head.text, p.text);
        AboveTransitive(p.text, head, tail);
        AboveOrdered(p, list);
      }
    } else {
      AboveOrdered(p, list);
    }
  }

  lemma {:induction false} InsertedLength(p: Pair, list: seq<Pair>)
    ensures |Inserted(p, list)| == |list| + 1
  {
    if list != [] && Before(list[0].text, p.text) {
      InsertedLength(p, list[1..]);
    }
  }

  lemma {:induction false} SortedLength(list: seq<Pair>)
    ensures |Sorted(list)| == |list|
  {
    if list != [] {
      SortedLength(list[1..]);
      InsertedLength(list[0], Sorted(list[1..]));
    }
  }

  lemma {:induction false} SortedSame(list: seq<Pair>)
    ensures multiset(Sorted(list)) == multiset(list)
  {
    hide Inserted;
    if list != [] {
      SortedSame(list[1..]);
      InsertedKeeps(list[0], Sorted(list[1..]));
      assert list == [list[0]] + list[1..];
    }
  }

  /** Sorting puts the same pairs in the order of their texts. */
  lemma {:induction false} SortedKeeps(list: seq<Pair>)
    requires Unique(list)
    ensures Ordered(Sorted(list)) && multiset(Sorted(list)) == multiset(list) && |Sorted(list)| == |list|
  {
    SortedSame(list);
    SortedLength(list);
    if list != [] {
      hide Inserted, Ordered;
      SortedKeeps(list[1..]);
      SortedSame(list[1..]);
      Others(list);
      InsertedOrdered(list[0], Sorted(list[1..]));
    } else {
      assert Ordered([]);
    }
  }

  lemma Others(list: seq<Pair>)
    requires Unique(list) && list != []
    ensures Unique(list[1..]) && forall q :: q in multiset(list[1..]) ==> q.text != list[0].text
  {
    forall q | q in multiset(list[1..])
      ensures q.text != list[0].text
    {
      assert q in list[1..];
    }
  }

  /** Sorting forgets nothing: it only changes the order. */
  lemma SortLaws(list: seq<Pair>, other: string)
    requires Unique(list)
    ensures Unique(Sorted(list))
    ensures Assoc(Sorted(list), other) == Assoc(list, other)
  {
    hide Seek, Sorted, Ordered;
    SortedKeeps(list);
    OrderedUnique(Sorted(list));
    if Seek(list, other).Some? {
      var p := list[Seek(list, other).value];
      assert p in multiset(Sorted(list));
      var i :| 0 <= i < |list| && Sorted(list)[i] == p;
      SeekAt(Sorted(list), i);
    }
    forall k | 0 <= k < |Sorted(list)|
      ensures Sorted(list)[k] in list
    {
      assert Sorted(list)[k] in multiset(Sorted(list));
    }
  }

  lemma OrderedUnique(list: seq<Pair>)
    requires Ordered(list)
    ensures Unique(list)
  {
    forall i, j | 0 <= i < j < |list|
      ensures list[i].text != list[j].text
    {
      BeforeTotal(list[i].text, list[j].text);
    }
  }
}
