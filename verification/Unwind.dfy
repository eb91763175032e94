/** Leaving by exception: the stack of `try` frames, the registered locals and the open resources
    of one thread, and what running a program does to them. A jump back to a `try` is an outcome
    that every frame in between passes on. */
module Unwind {
  import opened Basics

  const MAX_TRY_DEPTH: nat := 64

  /** A `try` frame: the exception that reached it, and the depths of both stacks on entry. */
  datatype Frame = Frame(value: nat, type_: nat, unwind: nat, resources: nat)

  datatype Resource = Resource(slot: nat, handle: nat)

  /** What a thread runs. Which branches it takes is already decided: any run is such a tree. */
  datatype Stmt =
    | Skip
    | Seq(first: Stmt, then_: Stmt)
    | Bind(local: nat)                        // a new value in a local of the function
    | Open(slot: nat)                         // a new resource in a variable of the function
    | Close(slot: nat)                        // its closing, in whatever order
    | Call(locals: nat, body: Stmt)
    | Try(tried: Stmt, handler: Stmt)
    | Raise(named: bool)                      // a new exception, with the name of its class or without

  datatype Outcome = Normal | Jumped | Exited | Aborted

  // ── Programs that the compiler makes ────────────────────────────────────────

  /** The place of a slot among those open, from the newest. */
  function LastOf(slots: seq<nat>, slot: nat): (r: Option<nat>)
    ensures r.Some? ==> r.value < |slots| && slots[r.value] == slot && forall n :: r.value < n < |slots| ==>
              slots[n] != slot
    ensures r.None? ==> slot !in slots
  {
    if slots == [] then None
    else if slots[|slots| - 1] == slot then Some(|slots| - 1)
    else
      assert slots == slots[..|slots| - 1] + [slots[|slots| - 1]];
      LastOf(slots[..|slots| - 1], slot)
  }

  /** The resources a function has open after a statement, or none when the statement is not one
      the compiler makes: it closes what is open, once, before the function ends. A body or a
      handler of a `try` is a function of its own. */
  function OpenAfter(s: Stmt, locals: nat, open: seq<nat>): Option<seq<nat>> {
    match s
    case Skip => Some(open)
    case Seq(a, b) =>
      var mid := OpenAfter(a, locals, open);
      if mid.None? then None else OpenAfter(b, locals, mid.value)
    case Bind(k) => if k < locals then Some(open) else None
    case Open(slot) => if slot in open then None else Some(open + [slot])
    case Close(slot) => if slot in open then Some(Without(open, LastOf(open, slot).value)) else None
    case Call(n, body) => if OpenAfter(body, n, []) == Some([]) then Some(open) else None
    case Try(body, handler) =>
      if OpenAfter(body, 0, []) == Some([]) == OpenAfter(handler, 0, []) then Some(open) else None
    case Raise(_) => Some(open)
  }

  // ── Accounts ────────────────────────────────────────────────────────────────

  /** The reference in a word: 0 is none. */
  ghost function Word(w: nat): multiset<nat> {
    if w == 0 then multiset{} else multiset{w}
  }

  ghost function Words(words: seq<nat>): multiset<nat> {
    if words == [] then multiset{} else Words(words[..|words| - 1]) + Word(words[|words| - 1])
  }

  ghost function Stored(records: seq<seq<nat>>): multiset<nat> {
    if records == [] then multiset{} else Stored(records[..|records| - 1]) + Words(records[|records| - 1])
  }

  ghost function Handles(resources: seq<Resource>): multiset<nat> {
    if resources == [] then multiset{} else
    Handles(resources[..|resources| - 1]) + multiset{resources[|resources| - 1].handle}
  }

  /** What has been given out so far, each once. */
  ghost function Upto(n: nat): multiset<nat> {
    if n == 0 then multiset{} else Upto(n - 1) + multiset{n}
  }

  /** Handles from the newest to the oldest. */
  function Newest(resources: seq<Resource>): seq<nat> {
    if resources == [] then [] else [resources[|resources| - 1].handle] + Newest(resources[..|resources| - 1])
  }

  function Slots(resources: seq<Resource>): (slots: seq<nat>)
    ensures |slots| == |resources| && forall i :: 0 <= i < |slots| ==> slots[i] == resources[i].slot
  {
    seq(|resources|, i requires 0 <= i < |resources| => resources[i].slot)
  }

  lemma WordsPush(words: seq<nat>, w: nat)
    ensures Words(words + [w]) == Words(words) + Word(w)
  {
    assert (words + [w])[..|words|] == words;
  }

  lemma {:induction false} WordsSet(words: seq<nat>, i: nat, w: nat)
    requires i < |words|
    ensures Words(words[i := w]) + Word(words[i]) == Words(words) + Word(w)
  {
    hide Word, Words;
    var last := |words| - 1;
    var init := words[..last];
    assert words == init + [words[last]];
    WordsPush(init, words[last]);
    if i < last {
      WordsSet(init, i, w);
      assert words[i := w] == init[i := w] + [words[last]];
      WordsPush(init[i := w], words[last]);
      Swap(Words(init[i := w]), Word(words[i]), Words(init), Word(w), Word(words[last]));
    } else {
      assert words[i := w] == init + [w];
      WordsPush(init, w);
      Swap(Words(init), Word(w), Words(init), Word(w), Word(words[last]));
    }
  }

  lemma Swap(a: multiset<nat>, b: multiset<nat>, c: multiset<nat>, d: multiset<nat>, e: multiset<nat>)
    requires a + b == c + d
    ensures (a + e) + b == (c + e) + d
    ensures (a + b) + e == (a + e) + b
  {
    assert (a + e) + b == (a + b) + e;
    assert (c + e) + d == (c + d) + e;
  }

  lemma Transfer(released: multiset<nat>, words: multiset<nat>, rest: multiset<nat>, word: multiset<nat>)
    requires rest + word == words + Word(0)
    ensures released + word + rest == released + words
  {
    assert words + multiset{} == words;
    assert released + word + rest == released + (rest + word);
  }

  lemma WordsNone()
    ensures Words([]) == multiset{} && Word(0) == multiset{}
  {
  }

  lemma Regroup(a: multiset<nat>, b: multiset<nat>, c: multiset<nat>)
    ensures a + (b + c) + multiset{} == a + b + c
    ensures a + c + b == a + (b + c)
  {
  }

  lemma Rebound(released: multiset<nat>, rest: multiset<nat>, words: multiset<nat>, words': multiset<nat>,
        old_: multiset<nat>, new_: multiset<nat>)
    requires words' + old_ == words + new_
    ensures released + old_ + (rest + words') == released + (rest + words) + new_
  {
    assert released + old_ + (rest + words') == released + rest + (words' + old_);
    assert released + (rest + words) + new_ == released + rest + (words + new_);
  }

  lemma WordOf(reference: nat)
    requires reference > 0
    ensures Word(reference) == multiset{reference}
  {
  }

  lemma WordsTwo(v: nat, w: nat)
    ensures Words([v, w]) == Word(v) + Word(w)
  {
    WordsPush([], v);
    WordsPush([v], w);
    assert [] + [v] == [v] && [v] + [w] == [v, w];
    assert multiset{} + Word(v) == Word(v);
  }

  lemma {:induction false} WordsZero(words: seq<nat>)
    requires forall i :: 0 <= i < |words| ==> words[i] == 0
    ensures Words(words) == multiset{}
  {
    if words != [] {
      WordsZero(words[..|words| - 1]);
    }
  }

  lemma StoredPush(records: seq<seq<nat>>, words: seq<nat>)
    ensures Stored(records + [words]) == Stored(records) + Words(words)
  {
    assert (records + [words])[..|records|] == records;
  }

  lemma HandlesPush(resources: seq<Resource>, r: Resource)
    ensures Handles(resources + [r]) == Handles(resources) + multiset{r.handle}
  {
    assert (resources + [r])[..|resources|] == resources;
  }

  lemma {:induction false} HandlesWithout(resources: seq<Resource>, i: nat)
    requires i < |resources|
    ensures Handles(resources) == Handles(Without(resources, i)) + multiset{resources[i].handle}
  {
    hide Handles;
    var last := |resources| - 1;
    var init := resources[..last];
    assert resources == init + [resources[last]];
    HandlesPush(init, resources[last]);
    if i < last {
      HandlesWithout(init, i);
      assert Without(resources, i) == Without(init, i) + [resources[last]];
      HandlesPush(Without(init, i), resources[last]);
      Swap(Handles(Without(init, i)), multiset{resources[i].handle}, Handles(init), multiset{},
            multiset{resources[last].handle});
    } else {
      assert Without(resources, i) == init;
    }
  }

  /** The newest is last in the stack and first to close. */
  lemma {:induction false} NewestAt(resources: seq<Resource>, k: nat)
    requires k < |resources|
    ensures |Newest(resources)| == |resources| && Newest(resources)[k] == resources[|resources| - 1 - k].handle
  {
    if k > 0 {
      NewestAt(resources[..|resources| - 1], k - 1);
    } else if |resources| > 1 {
      NewestAt(resources[..|resources| - 1], 0);
    }
  }

  lemma NewestNone()
    ensures Newest([]) == []
  {
  }

  lemma NewestPush(resources: seq<Resource>, r: Resource)
    ensures Newest(resources + [r]) == [r.handle] + Newest(resources)
  {
    assert (resources + [r])[..|resources|] == resources;
  }

  // ── Where a run is, and how it ends ─────────────────────────────────────────

  /** The stacks of a thread. */
  datatype Stacks = Stacks(tries: seq<Frame>, unwind: seq<seq<nat>>, resources: seq<Resource>)

  function Own(locals: nat): nat {
    if locals > 0 then 1 else 0
  }

  /** A function with `locals` registered words and `open` resources of its own is running, and
      the innermost `try` was entered before it registered any. */
  ghost predicate Inside(k: Stacks, locals: nat, open: seq<nat>) {
    && |k.tries| <= MAX_TRY_DEPTH
    && (locals > 0 ==> |k.unwind| > 0 && |k.unwind[|k.unwind| - 1]| == locals)
    && |open| <= |k.resources| && Slots(k.resources[|k.resources| - |open|..]) == open
    && (k.tries != [] ==> Outer(k.tries[|k.tries| - 1], |k.unwind| - Own(locals), |k.resources| - |open|))
  }

  predicate Outer(frame: Frame, unwind: int, resources: int) {
    frame.unwind <= unwind && frame.resources <= resources
  }

  /** Back in the same function, with nothing changed but its own locals and resources. */
  ghost predicate Returned(before: Stacks, after: Stacks, locals: nat, open: seq<nat>, open': seq<nat>) {
    && after.tries == before.tries
    && |after.unwind| == |before.unwind| >= Own(locals)
    && after.unwind[..|after.unwind| - Own(locals)] == before.unwind[..|before.unwind| - Own(locals)]
    && |after.resources| - |open'| == |before.resources| - |open| >= 0
    && after.resources[..|after.resources| - |open'|] == before.resources[..|before.resources| - |open|]
    && Inside(after, locals, open')
  }

  /** At the innermost `try`, with both stacks as they were when it was entered. */
  ghost predicate Landed(before: Stacks, after: Stacks) {
    && |after.tries| == |before.tries| > 0
    && var last := |before.tries| - 1;
       var frame := before.tries[last];
       && after.tries[..last] == before.tries[..last]
       && after.tries[last] == frame.(value := after.tries[last].value, type_ := after.tries[last].type_)
       && frame.unwind <= |before.unwind| && after.unwind == before.unwind[..frame.unwind]
       && frame.resources <= |before.resources| && after.resources == before.resources[..frame.resources]
  }

  /** An exception leaves the statement: a `try` stops it, unless its handler raises one. */
  predicate Escapes(s: Stmt) {
    match s
    case Seq(a, b) => Escapes(a) || Escapes(b)
    case Call(_, body) => Escapes(body)
    case Try(body, handler) => Escapes(body) && Escapes(handler)
    case Raise(_) => true
    case _ => false
  }

  function Max(a: nat, b: nat): nat {
    if a >= b then a else b
  }

  /** How deep the `try`s are nested that a statement enters: those after an escape are not. */
  function Depth(s: Stmt): nat {
    match s
    case Seq(a, b) => if Escapes(a) then Depth(a) else Max(Depth(a), Depth(b))
    case Call(_, body) => Depth(body)
    case Try(body, handler) => if Escapes(body) then Max(Depth(body) + 1, Depth(handler)) else Depth(body) + 1
    case _ => 0
  }

  ghost predicate Ended(before: Stacks, after: Stacks, locals: nat, open: seq<nat>, s: Stmt, out: Outcome) {
    && (out == Aborted <==> |before.tries| + Depth(s) > MAX_TRY_DEPTH)
    && match out
       case Normal => !Escapes(s) && OpenAfter(s, locals, open).Some? &&
             Returned(before, after, locals, open, OpenAfter(s, locals, open).value)
       case Jumped => Escapes(s) && Landed(before, after)
       case Exited => Escapes(s) && before.tries == []
       case Aborted => true
  }

  lemma SkipEnds(k: Stacks, locals: nat, open: seq<nat>)
    requires Inside(k, locals, open)
    ensures Ended(k, k, locals, open, Skip, Normal)
  {
  }

  lemma SeqParts(a: Stmt, b: Stmt, locals: nat, open: seq<nat>)
    requires OpenAfter(Seq(a, b), locals, open).Some?
    ensures OpenAfter(a, locals, open).Some? && OpenAfter(b, locals, OpenAfter(a, locals, open).value).Some?
  {
  }

  lemma SeqGoesOn(before: Stacks, between: Stacks, locals: nat, open: seq<nat>, a: Stmt, b: Stmt)
    requires Ended(before, between, locals, open, a, Normal)
    ensures Inside(between, locals, OpenAfter(a, locals, open).value)
  {
    hide OpenAfter, Slots;
  }

  lemma ReturnedTwice(before: Stacks, between: Stacks, after: Stacks, locals: nat, open: seq<nat>, open1: seq<nat>,
        open2: seq<nat>)
    requires Returned(before, between, locals, open, open1) && Returned(between, after, locals, open1, open2)
    ensures Returned(before, after, locals, open, open2)
  {
    hide Inside;
  }

  lemma ReturnedLands(before: Stacks, between: Stacks, after: Stacks, locals: nat, open: seq<nat>, open': seq<nat>)
    requires Inside(before, locals, open) && Returned(before, between, locals, open, open') && Landed(between, after)
    ensures Landed(before, after)
  {
    hide Slots;
    var frame := before.tries[|before.tries| - 1];
    assert before.unwind[..|before.unwind| - Own(locals)][..frame.unwind] == before.unwind[..frame.unwind];
    assert between.unwind[..|between.unwind| - Own(locals)][..frame.unwind] == between.unwind[..frame.unwind];
    assert before.resources[..|before.resources| - |open|][..frame.resources] == before.resources[..frame.resources];
    assert between.resources[..|between.resources| - |open'|][..frame.resources] ==
          between.resources[..frame.resources];
  }

  lemma SeqEnds(before: Stacks, between: Stacks, after: Stacks, locals: nat, open: seq<nat>, a: Stmt, b: Stmt,
          out: Outcome)
    requires Inside(before, locals, open) && Ended(before, between, locals, open, a, Normal)
    requires OpenAfter(Seq(a, b), locals, open).Some?
    requires Ended(between, after, locals, OpenAfter(a, locals, open).value, b, out)
    ensures Ended(before, after, locals, open, Seq(a, b), out)
  {
    hide Inside, Returned, Landed;
    var open1 := OpenAfter(a, locals, open).value;
    SameTries(before, between, locals, open, open1);
    if out == Normal {
      ReturnedTwice(before, between, after, locals, open, open1, OpenAfter(b, locals, open1).value);
    } else if out == Jumped {
      ReturnedLands(before, between, after, locals, open, open1);
    }
  }

  lemma SameTries(before: Stacks, after: Stacks, locals: nat, open: seq<nat>, open': seq<nat>)
    requires Returned(before, after, locals, open, open')
    ensures after.tries == before.tries
  {
  }

  lemma SeqStops(before: Stacks, after: Stacks, locals: nat, open: seq<nat>, a: Stmt, b: Stmt, out: Outcome)
    requires Ended(before, after, locals, open, a, out) && out != Normal
    ensures Ended(before, after, locals, open, Seq(a, b), out)
  {
    hide Landed, Returned;
  }

  lemma BindInside(k: Stacks, i: nat, locals: nat, open: seq<nat>)
    requires Inside(k, locals, open) && OpenAfter(Bind(i), locals, open).Some?
    ensures k.unwind != [] && i < |k.unwind[|k.unwind| - 1]|
  {
  }

  lemma BindEnds(before: Stacks, after: Stacks, i: nat, locals: nat, open: seq<nat>)
    requires Inside(before, locals, open) && OpenAfter(Bind(i), locals, open).Some?
    requires after.tries == before.tries && after.resources == before.resources && |after.unwind| == |before.unwind| > 0
    requires after.unwind[..|after.unwind| - 1] == before.unwind[..|before.unwind| - 1]
    requires |after.unwind[|after.unwind| - 1]| == |before.unwind[|before.unwind| - 1]|
    ensures Ended(before, after, locals, open, Bind(i), Normal)
  {
  }

  lemma OpenEnds(before: Stacks, after: Stacks, slot: nat, locals: nat, open: seq<nat>)
    requires Inside(before, locals, open) && OpenAfter(Open(slot), locals, open).Some?
    requires after.tries == before.tries && after.unwind == before.unwind && |after.resources| == |before.resources| + 1
    requires after.resources[..|before.resources|] == before.resources
    requires after.resources[|before.resources|].slot == slot
    ensures Ended(before, after, locals, open, Open(slot), Normal)
  {
    var base := |before.resources| - |open|;
    assert after.resources == before.resources + [after.resources[|before.resources|]];
    assert after.resources[base..] == before.resources[base..] + [after.resources[|before.resources|]];
    assert Slots(after.resources[base..]) == open + [slot];
  }

  /** The newest resource of a slot that the function has open is its own. */
  lemma OwnLast(slots: seq<nat>, base: nat, slot: nat)
    requires base <= |slots| && slot in slots[base..]
    ensures var i, j := LastOf(slots, slot), LastOf(slots[base..], slot);
      i.Some? && j.Some? && i.value == base + j.value
  {
    hide LastOf;
    var own := slots[base..];
    var i, j := LastOf(slots, slot), LastOf(own, slot);
    var n: nat :| n < |own| && own[n] == slot;
    assert slots[base + n] == slot;
    assert forall m :: base <= m < |slots| ==> slots[m] == own[m - base];
  }

  lemma CloseInside(k: Stacks, slot: nat, locals: nat, open: seq<nat>)
    requires Inside(k, locals, open) && OpenAfter(Close(slot), locals, open).Some?
    ensures LastOf(Slots(k.resources), slot).Some?
  {
    hide LastOf;
    var base := |k.resources| - |open|;
    assert Slots(k.resources)[base..] == open;
    OwnLast(Slots(k.resources), base, slot);
  }

  lemma CloseEnds(before: Stacks, after: Stacks, slot: nat, locals: nat, open: seq<nat>)
    requires Inside(before, locals, open) && OpenAfter(Close(slot), locals, open).Some?
    requires after.tries == before.tries && after.unwind == before.unwind
    requires var i := LastOf(Slots(before.resources), slot);
      i.Some? && after.resources == Without(before.resources, i.value)
    ensures Ended(before, after, locals, open, Close(slot), Normal)
  {
    hide LastOf, Slots, Inside;
    var base := |before.resources| - |open|;
    OwnSlots(before, locals, open);
    OwnLast(Slots(before.resources), base, slot);
    var j := LastOf(open, slot).value;
    WithoutOwn(before.resources, base, j);
    ClosedInside(before, after, locals, open, Without(open, j));
  }

  lemma OwnSlots(k: Stacks, locals: nat, open: seq<nat>)
    requires Inside(k, locals, open)
    ensures |open| <= |k.resources|
    ensures Slots(k.resources)[|k.resources| - |open|..] == open == Slots(k.resources[|k.resources| - |open|..])
    ensures |k.unwind| >= Own(locals) && |k.tries| <= MAX_TRY_DEPTH
  {
    assert Slots(k.resources)[|k.resources| - |open|..] == Slots(k.resources[|k.resources| - |open|..]);
  }

  /** Removing one of the function's own resources leaves those of its callers. */
  lemma WithoutOwn(resources: seq<Resource>, base: nat, j: nat)
    requires base + j < |resources|
    ensures Without(resources, base + j)[..base] == resources[..base]
    ensures Slots(Without(resources, base + j)[base..]) == Without(Slots(resources[base..]), j)
  {
    assert Without(resources, base + j)[base..] == Without(resources[base..], j);
  }

  lemma ClosedInside(before: Stacks, after: Stacks, locals: nat, open: seq<nat>, open': seq<nat>)
    requires Inside(before, locals, open) && after.tries == before.tries && after.unwind == before.unwind
    requires |open| <= |before.resources|
    requires |after.resources| - |open'| == |before.resources| - |open| && |open'| <= |after.resources|
    requires after.resources[..|after.resources| - |open'|] == before.resources[..|before.resources| - |open|]
    requires Slots(after.resources[|after.resources| - |open'|..]) == open'
    ensures Returned(before, after, locals, open, open')
  {
    hide Slots;
  }

  lemma CallParts(n: nat, body: Stmt, locals: nat, open: seq<nat>)
    requires OpenAfter(Call(n, body), locals, open).Some?
    ensures OpenAfter(body, n, []) == Some([]) && OpenAfter(Call(n, body), locals, open) == Some(open)
  {
  }

  lemma CallInside(k: Stacks, n: nat, locals: nat, open: seq<nat>)
    requires Inside(k, locals, open)
    ensures Inside(k.(unwind := k.unwind + [Zeros(n)]), n, [])
  {
  }

  lemma CallReturns(entered: Stacks, after: Stacks, n: nat, body: Stmt)
    requires Ended(entered, after, n, [], body, Normal) && OpenAfter(body, n, []) == Some([]) && entered.unwind != []
    ensures |entered.tries| + Depth(body) <= MAX_TRY_DEPTH
    ensures !Escapes(body) && after.unwind != [] && after.tries == entered.tries && after.resources == entered.resources
    ensures after.unwind[..|after.unwind| - 1] == entered.unwind[..|entered.unwind| - 1]
  {
    assert after.resources[..|after.resources|] == after.resources;
    assert entered.resources[..|entered.resources|] == entered.resources;
    assert after.unwind[..|after.unwind| - Own(n)][..|after.unwind| - 1] == after.unwind[..|after.unwind| - 1];
    assert entered.unwind[..|entered.unwind| - Own(n)][..|entered.unwind| - 1] ==
          entered.unwind[..|entered.unwind| - 1];
  }

  lemma CallEnds(before: Stacks, entered: Stacks, after: Stacks, n: nat, body: Stmt, locals: nat, open: seq<nat>,
        out: Outcome)
    requires Inside(before, locals, open) && OpenAfter(Call(n, body), locals, open).Some?
    requires entered == before.(unwind := before.unwind + [Zeros(n)])
    requires out == Normal ==> !Escapes(body) && |before.tries| + Depth(body) <= MAX_TRY_DEPTH && after == before
    requires out != Normal ==> Ended(entered, after, n, [], body, out)
    ensures Ended(before, after, locals, open, Call(n, body), out)
  {
    if out == Jumped {
      var frame := before.tries[|before.tries| - 1];
      assert entered.unwind[..frame.unwind] == before.unwind[..frame.unwind];
    }
  }

  lemma TryParts(k: Stacks, body: Stmt, handler: Stmt, locals: nat, open: seq<nat>)
    requires Inside(k, locals, open) && OpenAfter(Try(body, handler), locals, open).Some?
    ensures |k.tries| <= MAX_TRY_DEPTH
    ensures OpenAfter(body, 0, []) == Some([]) == OpenAfter(handler, 0, [])
    ensures OpenAfter(Try(body, handler), locals, open) == Some(open)
  {
  }

  lemma TooDeep(k: Stacks, body: Stmt, handler: Stmt, locals: nat, open: seq<nat>)
    requires |k.tries| == MAX_TRY_DEPTH
    ensures Ended(k, k, locals, open, Try(body, handler), Aborted)
  {
  }

  ghost function Tried(k: Stacks): Stacks {
    k.(tries := k.tries + [Frame(0, 0, |k.unwind|, |k.resources|)])
  }

  lemma TryInside(k: Stacks, locals: nat, open: seq<nat>)
    requires Inside(k, locals, open) && |k.tries| < MAX_TRY_DEPTH
    ensures Inside(Tried(k), 0, [])
  {
  }

  lemma TryReturns(before: Stacks, inTry: Stacks, after: Stacks, body: Stmt, handler: Stmt, locals: nat, open: seq<nat>)
    requires Inside(before, locals, open) && OpenAfter(Try(body, handler), locals, open) == Some(open)
    requires inTry == Tried(before)
    requires OpenAfter(body, 0, []) == Some([]) && Ended(inTry, after, 0, [], body, Normal)
    ensures |after.tries| >= |before.tries| && after.(tries := after.tries[..|before.tries|]) == before
    ensures Ended(before, before, locals, open, Try(body, handler), Normal)
  {
    assert after.unwind[..|after.unwind|] == after.unwind && inTry.unwind[..|inTry.unwind|] == inTry.unwind;
    assert after.resources[..|after.resources|] == after.resources &&
          inTry.resources[..|inTry.resources|] == inTry.resources;
  }

  lemma TryCaught(before: Stacks, inTry: Stacks, after: Stacks, body: Stmt)
    requires inTry == Tried(before) && Ended(inTry, after, 0, [], body, Jumped)
    ensures |after.tries| == |before.tries| + 1 && after.(tries := after.tries[..|before.tries|]) == before
    ensures Escapes(body)
    ensures |before.tries| + Depth(body) + 1 <= MAX_TRY_DEPTH
  {
    assert inTry.tries[..|before.tries|] == before.tries;
    assert inTry.unwind[..|inTry.unwind|] == inTry.unwind && inTry.resources[..|inTry.resources|] == inTry.resources;
  }

  lemma HandlerInside(before: Stacks, held: Stacks, locals: nat, open: seq<nat>)
    requires Inside(before, locals, open) && held.tries == before.tries && held.resources == before.resources
    requires |held.unwind| == |before.unwind| + 1
    ensures Inside(held, 0, [])
  {
  }

  lemma HandlerReturns(before: Stacks, held: Stacks, after: Stacks, handler: Stmt)
    requires held.tries == before.tries && held.resources == before.resources
    requires |held.unwind| == |before.unwind| + 1 && held.unwind[..|before.unwind|] == before.unwind
    requires OpenAfter(handler, 0, []) == Some([]) && Ended(held, after, 0, [], handler, Normal)
    ensures |before.tries| + Depth(handler) <= MAX_TRY_DEPTH
    ensures !Escapes(handler) && |after.unwind| == |held.unwind|
    ensures after.(unwind := after.unwind[..|before.unwind|]) == before
  {
    assert after.unwind[..|after.unwind|] == after.unwind && held.unwind[..|held.unwind|] == held.unwind;
    assert after.resources[..|after.resources|] == after.resources &&
          held.resources[..|held.resources|] == held.resources;
  }

  lemma HandlerEnds(before: Stacks, held: Stacks, after: Stacks, body: Stmt, handler: Stmt, locals: nat, open: seq<nat>,
        out: Outcome)
    requires Inside(before, locals, open) && OpenAfter(Try(body, handler), locals, open) == Some(open) && Escapes(body)
    requires |before.tries| + Depth(body) + 1 <= MAX_TRY_DEPTH
    requires held.tries == before.tries && held.resources == before.resources
    requires |held.unwind| == |before.unwind| + 1 && held.unwind[..|before.unwind|] == before.unwind
    requires out == Normal ==> !Escapes(handler) && |before.tries| + Depth(handler) <= MAX_TRY_DEPTH && after == before
    requires out != Normal ==> Ended(held, after, 0, [], handler, out)
    ensures Ended(before, after, locals, open, Try(body, handler), out)
  {
    if out == Jumped {
      var frame := before.tries[|before.tries| - 1];
      assert held.unwind[..frame.unwind] == held.unwind[..|before.unwind|][..frame.unwind];
    }
  }

  lemma TryStops(before: Stacks, inTry: Stacks, after: Stacks, body: Stmt, handler: Stmt, locals: nat, open: seq<nat>,
        out: Outcome)
    requires inTry == Tried(before) && Ended(inTry, after, 0, [], body, out) && out != Normal && out != Jumped
    ensures out == Aborted && Ended(before, after, locals, open, Try(body, handler), out)
  {
  }

  lemma NotFlying()
    ensures forall tries, out :: out != Jumped ==> Flying(tries, out) == multiset{}
  {
  }

  lemma FailLands(before: Stacks, after: Stacks, value: nat, type_: nat)
    requires before.tries != [] && Outer(before.tries[|before.tries| - 1], |before.unwind|, |before.resources|)
    requires var last := |before.tries| - 1;
      after.tries == before.tries[last := before.tries[last].(value := value, type_ := type_)]
    requires after.unwind == before.unwind[..before.tries[|before.tries| - 1].unwind]
    requires after.resources == before.resources[..before.tries[|before.tries| - 1].resources]
    ensures Landed(before, after) && |after.tries| == |before.tries|
    ensures after.tries[|after.tries| - 1].value == value && after.tries[|after.tries| - 1].type_ == type_
  {
  }

  lemma RaiseInside(k: Stacks, locals: nat, open: seq<nat>)
    requires Inside(k, locals, open)
    ensures |k.tries| <= MAX_TRY_DEPTH
    ensures k.tries != [] ==> Outer(k.tries[|k.tries| - 1], |k.unwind|, |k.resources|)
  {
  }

  lemma ZeroWord()
    ensures Word(0) == multiset{}
  {
  }

  lemma Thrown(kept: multiset<nat>, value: multiset<nat>, type_: multiset<nat>)
    ensures kept + multiset{} + value + type_ == kept + (value + type_)
    ensures kept + multiset{} + value == kept + (value + multiset{})
  {
  }

  /** The exception that has reached the innermost `try`. */
  ghost function Flying(tries: seq<Frame>, out: Outcome): multiset<nat> {
    if out.Jumped? && tries != [] then Word(tries[|tries| - 1].value) + Word(tries[|tries| - 1].type_) else multiset{}
  }

  // ── The stacks of a thread ──────────────────────────────────────────────────

  class Runtime {
    var tries: seq<Frame>
    var unwind: seq<seq<nat>>
    var resources: seq<Resource>
    /** References given out and released, handles opened and closed. */
    var issued: nat
    var acquired: nat
    var closed: seq<nat>
    ghost var released: multiset<nat>

    /** Each reference given out was released once, is in one registered word, or in `flying`. */
    ghost predicate References(flying: multiset<nat>)
      reads `issued, `released, `unwind
    {
      released + Stored(unwind) + flying == Upto(issued)
    }

    /** Each handle given out was closed once, or is in one open resource. */
    ghost predicate Handled()
      reads `acquired, `closed, `resources
    {
      && multiset(closed) + Handles(resources) == Upto(acquired)
      && forall i :: 0 <= i < |resources| ==> resources[i].handle > 0
    }

    constructor ()
      ensures tries == [] && unwind == [] && resources == []
      ensures References(multiset{}) && Handled() && closed == []
    {
      tries, unwind, resources, issued, acquired, closed, released := [], [], [], 0, 0, [], multiset{};
    }

    method Issue() returns (reference: nat)
      modifies `issued
      ensures reference == issued == old(issued) + 1 && Upto(issued) == Upto(old(issued)) + multiset{reference}
    {
      issued := issued + 1;
      reference := issued;
    }

    /** A word gives up its reference. */
    method Release(reference: nat)
      modifies `released
      ensures released == old(released) + Word(reference)
    {
      if reference != 0 {
        released := released + multiset{reference};
      }
    }

    method UnwindPush(words: nat)
      requires References(multiset{})
      modifies `unwind
      ensures unwind == old(unwind) + [Zeros(words)] && References(multiset{})
    {
      hide Stored, Words, Upto;
      StoredPush(unwind, Zeros(words));
      WordsZero(Zeros(words));
      unwind := unwind + [Zeros(words)];
    }

    /** Gives back the locals of the functions registered above `depth`. */
    method UnwindTo(depth: nat)
      requires depth <= |unwind|
      modifies `unwind, `released
      ensures unwind == old(unwind)[..depth]
      ensures released + Stored(unwind) == old(released + Stored(unwind))
    {
      while |unwind| > depth
        invariant depth <= |unwind| <= |old(unwind)| && unwind == old(unwind)[..|unwind|]
        invariant released + Stored(unwind) == old(released + Stored(unwind))
      {
        GiveBackTop();
      }
    }

    /** Releases every word of a record. */
    method ReleaseAll(record: seq<nat>)
      modifies `released
      ensures released == old(released) + Words(record)
    {
      hide Words, Word;
      var words := record;
      WordsNone();
      for i := 0 to |words|
        invariant |words| == |record| && forall j :: 0 <= j < i ==> words[j] == 0
        invariant released + Words(words) == old(released) + Words(record)
      {
        var value := words[i];
        WordsSet(words, i, 0);
        Transfer(released, Words(words), Words(words[i := 0]), Word(value));
        words := words[i := 0];
        Release(value);
      }
      WordsZero(words);
    }

    method GiveBackTop()
      requires unwind != []
      modifies `unwind, `released
      ensures unwind == old(unwind)[..|old(unwind)| - 1]
      ensures released + Stored(unwind) == old(released + Stored(unwind))
      ensures old(References(multiset{})) ==> References(multiset{})
    {
      hide Words, Stored;
      var words, rest := unwind[|unwind| - 1], unwind[..|unwind| - 1];
      assert unwind == rest + [words];
      StoredPush(rest, words);
      assert old(released) + Words(words) + Stored(rest) == old(released) + (Stored(rest) + Words(words));
      unwind := rest;
      ReleaseAll(words);
    }

    method ResourcePush(slot: nat, handle: nat)
      modifies `resources
      ensures resources == old(resources) + [Resource(slot, handle)]
    {
      resources := resources + [Resource(slot, handle)];
    }

    /** Removes the newest entry of `slot`. */
    method ResourcePop(slot: nat)
      modifies `resources
      ensures var i := LastOf(Slots(old(resources)), slot);
              resources == if i.Some? then Without(old(resources), i.value) else old(resources)
    {
      var i := LastOf(Slots(resources), slot);
      if i.Some? {
        resources := Without(resources, i.value);
      }
    }

    method CloseHandle(handle: nat)
      modifies `closed
      ensures closed == old(closed) + (if handle != 0 then [handle] else [])
    {
      if handle != 0 {
        closed := closed + [handle];
      }
    }

    /** Closes the resources opened above `depth`, from the newest to the oldest. */
    method CloseResourcesTo(depth: nat)
      requires depth <= |resources| && Handled()
      modifies `resources, `closed
      ensures resources == old(resources)[..depth] && Handled()
      ensures closed == old(closed) + Newest(old(resources)[depth..])
    {
      hide *;
      while |resources| > depth
        invariant depth <= |resources| <= |old(resources)| && resources == old(resources)[..|resources|] && Handled()
        invariant closed + Newest(resources[depth..]) == old(closed) + Newest(old(resources)[depth..])
      {
        var rest := resources[..|resources| - 1];
        assert resources[depth..] == rest[depth..] + [resources[|resources| - 1]];
        NewestPush(rest[depth..], resources[|resources| - 1]);
        CloseTop();
      }
      assert resources[depth..] == [];
      NewestNone();
    }

    method CloseTop()
      requires resources != [] && Handled()
      modifies `resources, `closed
      ensures resources == old(resources)[..|old(resources)| - 1] && Handled()
      ensures closed == old(closed) + [old(resources)[|old(resources)| - 1].handle]
    {
      var top, rest := resources[|resources| - 1], resources[..|resources| - 1];
      assert resources == rest + [top];
      HandlesPush(rest, top);
      resources := rest;
      CloseHandle(top.handle);
    }

    ghost function Now(): Stacks
      reads `tries, `unwind, `resources
    {
      Stacks(tries, unwind, resources)
    }

    /** Takes the exception to the innermost `try`: closes and gives back all that was opened and
        registered since it was entered. Resources are closed first, while the frames that hold
        them are alive. */
    method Fail(value: nat, type_: nat) returns (jumped: bool)
      requires tries != [] ==> Outer(tries[|tries| - 1], |unwind|, |resources|)
      requires References(Word(value) + Word(type_)) && Handled()
      modifies `tries, `unwind, `resources, `closed, `released
      ensures jumped <==> old(tries) != []
      ensures !jumped ==> Now() == old(Now())
      ensures jumped ==>
                Landed(old(Now()), Now()) && tries[|tries| - 1].value == value && tries[|tries| - 1].type_ == type_
      ensures jumped ==> closed == old(closed) + Newest(old(resources)[old(tries)[|tries| - 1].resources..])
      ensures References(Word(value) + Word(type_)) && Handled()
    {
      hide Word, Words, Stored, Newest, Handles, Upto, Slots, Runtime.Handled, Landed;
      if tries == [] {
        return false;
      }
      ghost var before := Now();
      var last := |tries| - 1;
      tries := tries[last := tries[last].(value := value, type_ := type_)];
      CloseResourcesTo(tries[last].resources);
      UnwindTo(tries[last].unwind);
      FailLands(before, Now(), value, type_);
      jumped := true;
    }

    /** Enters a `try`, unless too many are active. */
    method TryEnter() returns (entered: bool)
      requires |tries| <= MAX_TRY_DEPTH
      modifies `tries
      ensures entered <==> |old(tries)| < MAX_TRY_DEPTH
      ensures tries == if entered then old(tries) + [Frame(0, 0, |unwind|, |resources|)] else old(tries)
    {
      entered := |tries| < MAX_TRY_DEPTH;
      if entered {
        tries := tries + [Frame(0, 0, |unwind|, |resources|)];
      }
    }

    /** The handler's frame keeps the exception, and would give it back to a raise. */
    method HoldRaised(value: nat, type_: nat)
      requires References(Word(value) + Word(type_))
      modifies `unwind
      ensures unwind == old(unwind) + [[value, type_]] && References(multiset{})
    {
      hide Words, Word, Stored;
      WordsTwo(value, type_);
      StoredPush(unwind, [value, type_]);
      Regroup(released, Stored(unwind), Word(value) + Word(type_));
      unwind := unwind + [[value, type_]];
    }

    /** A new value in a local; the old one is released. */
    method BindLocal(k: nat)
      requires unwind != [] && k < |unwind[|unwind| - 1]| && References(multiset{})
      modifies `unwind, `issued, `released
      ensures |unwind| == |old(unwind)| && unwind[..|unwind| - 1] == old(unwind)[..|unwind| - 1]
      ensures |unwind[|unwind| - 1]| == |old(unwind)[|unwind| - 1]|
      ensures References(multiset{})
    {
      hide Words, Word, Stored, Upto;
      var rest, words := unwind[..|unwind| - 1], unwind[|unwind| - 1];
      assert unwind == rest + [words];
      var reference := Issue();
      StoredPush(rest, words);
      StoredPush(rest, words[k := reference]);
      WordsSet(words, k, reference);
      WordOf(reference);
      Rebound(released, Stored(rest), Words(words), Words(words[k := reference]), Word(words[k]), Word(reference));
      unwind := rest + [words[k := reference]];
      Release(words[k]);
    }

    method OpenResource(slot: nat)
      requires Handled()
      modifies `resources, `acquired
      ensures |resources| == |old(resources)| + 1 && resources[..|old(resources)|] == old(resources)
      ensures resources[|old(resources)|].slot == slot && Handled()
    {
      hide Handles;
      acquired := acquired + 1;
      HandlesPush(resources, Resource(slot, acquired));
      assert multiset(closed) + (Handles(resources) + multiset{acquired}) == (multiset(closed) + Handles(resources)) +
            multiset{acquired};
      ResourcePush(slot, acquired);
    }

    /** Closes the newest resource of `slot`. */
    method CloseResource(slot: nat)
      requires Handled() && LastOf(Slots(resources), slot).Some?
      modifies `resources, `closed
      ensures resources == Without(old(resources), LastOf(Slots(old(resources)), slot).value) && Handled()
      ensures closed == old(closed) + [old(resources)[LastOf(Slots(old(resources)), slot).value].handle]
    {
      hide Handles, LastOf, Upto;
      var i := LastOf(Slots(resources), slot).value;
      var handle := resources[i].handle;
      HandlesWithout(resources, i);
      ResourcePop(slot);
      assert multiset(closed + [handle]) == multiset(closed) + multiset{handle};
      Regroup(multiset(closed), Handles(resources), multiset{handle});
      CloseHandle(handle);
    }

    // ── Running ───────────────────────────────────────────────────────────────

    /** Runs a statement of a function that has `locals` registered words and `open` resources. */
    method Exec(s: Stmt, locals: nat, ghost open: seq<nat>) returns (out: Outcome)
      requires Inside(Now(), locals, open) && OpenAfter(s, locals, open).Some?
      requires References(multiset{}) && Handled()
      modifies this
      decreases s, 1
      ensures Ended(old(Now()), Now(), locals, open, s, out)
      ensures out.Exited? || (References(Flying(tries, out)) && Handled())
    {
      hide Inside, Ended, OpenAfter, Word, Runtime.References, Runtime.Handled, Slots, LastOf, Flying, Upto, Stored,
        Handles, Escapes, Depth, Returned, Landed;
      ghost var before := Now();
      NotFlying();
      match s
      case Skip =>
        SkipEnds(before, locals, open);
        out := Normal;
      case Seq(a, b) =>
        SeqParts(a, b, locals, open);
        out := Exec(a, locals, open);
        ghost var between := Now();
        if out == Normal {
          SeqGoesOn(before, between, locals, open, a, b);
          out := Exec(b, locals, OpenAfter(a, locals, open).value);
          SeqEnds(before, between, Now(), locals, open, a, b, out);
        } else {
          SeqStops(before, between, locals, open, a, b, out);
        }
      case Bind(k) =>
        BindInside(before, k, locals, open);
        BindLocal(k);
        BindEnds(before, Now(), k, locals, open);
        out := Normal;
      case Open(slot) =>
        OpenResource(slot);
        OpenEnds(before, Now(), slot, locals, open);
        out := Normal;
      case Close(slot) =>
        CloseInside(before, slot, locals, open);
        CloseResource(slot);
        CloseEnds(before, Now(), slot, locals, open);
        out := Normal;
      case Call(n, body) =>
        CallParts(n, body, locals, open);
        CallInside(before, n, locals, open);
        UnwindPush(n);
        ghost var entered := Now();
        out := Exec(body, n, []);
        if out == Normal {
          CallReturns(entered, Now(), n, body);
          GiveBackTop();
        }
        CallEnds(before, entered, Now(), n, body, locals, open, out);
      case Try(body, handler) =>
        out := ExecTry(s, body, handler, locals, open);
      case Raise(named) =>
        out := ExecRaise(named, locals, open);
    }

    method ExecTry(ghost s: Stmt, body: Stmt, handler: Stmt, locals: nat, ghost open: seq<nat>) returns (out: Outcome)
      requires s == Try(body, handler) && Inside(Now(), locals, open) && OpenAfter(s, locals, open).Some?
      requires References(multiset{}) && Handled()
      modifies this
      decreases s, 0
      ensures Ended(old(Now()), Now(), locals, open, s, out)
      ensures out.Exited? || (References(Flying(tries, out)) && Handled())
    {
      hide Inside, Ended, OpenAfter, Word, Runtime.References, Runtime.Handled, Slots, Upto, Stored, Handles, Escapes,
        Depth, Returned, Landed;
      ghost var before := Now();
      var depth := |tries|;
      TryParts(before, body, handler, locals, open);
      var entered := TryEnter();
      if !entered {
        TooDeep(before, body, handler, locals, open);
        return Aborted;
      }
      ghost var inTry := Now();
      TryInside(before, locals, open);
      out := Exec(body, 0, []);
      if out == Normal {
        TryReturns(before, inTry, Now(), body, handler, locals, open);
        tries := tries[..depth];
      } else if out == Jumped {
        TryCaught(before, inTry, Now(), body);
        var value, type_ := tries[depth].value, tries[depth].type_;
        tries := tries[..depth];
        HoldRaised(value, type_);
        ghost var held := Now();
        HandlerInside(before, held, locals, open);
        out := Exec(handler, 0, []);
        if out == Normal {
          HandlerReturns(before, held, Now(), handler);
          GiveBackTop();
        }
        HandlerEnds(before, held, Now(), body, handler, locals, open, out);
      } else {
        TryStops(before, inTry, Now(), body, handler, locals, open, out);
      }
    }

    method ExecRaise(named: bool, locals: nat, ghost open: seq<nat>) returns (out: Outcome)
      requires Inside(Now(), locals, open)
      requires References(multiset{}) && Handled()
      modifies this
      ensures Ended(old(Now()), Now(), locals, open, Raise(named), out)
      ensures out.Exited? || (References(Flying(tries, out)) && Handled())
    {
      hide Inside, OpenAfter, Word, Runtime.Handled, Runtime.References, Slots;
      RaiseInside(Now(), locals, open);
      var value, type_ := NewException(named);
      var jumped := Fail(value, type_);
      out := if jumped then Jumped else Exited;
    }

    method NewException(named: bool) returns (value: nat, type_: nat)
      requires References(multiset{})
      modifies `issued
      ensures References(Word(value) + Word(type_))
    {
      hide Word, Stored, Upto;
      ghost var kept := released + Stored(unwind);
      ZeroWord();
      value := Issue();
      WordOf(value);
      type_ := 0;
      if named {
        type_ := Issue();
        WordOf(type_);
      }
      Thrown(kept, Word(value), Word(type_));
    }
  }

  function Zeros(n: nat): (words: seq<nat>)
    ensures |words| == n && forall i :: 0 <= i < n ==> words[i] == 0
  {
    seq(n, _ => 0)
  }

  // ── Whole programs ──────────────────────────────────────────────────────────

  /** Runs a program on a new thread. When it ends, by whatever exceptions and handlers, every
      reference it was given was released once, every resource it opened was closed once, and
      nothing is left on any stack. It stops for an exception exactly when one escapes every handler,
      and aborts exactly when it enters more than 64 nested `try`s. The counts are those of what
      was given out. */
  method RunProgram(program: Stmt) returns (out: Outcome, closed: seq<nat>, ghost released: multiset<nat>,
                                            references: nat, handles: nat, left: nat)
    requires OpenAfter(program, 0, []) == Some([])
    ensures out != Jumped
    ensures out == Normal <==> !Escapes(program) && Depth(program) <= MAX_TRY_DEPTH
    ensures out == Normal ==> left == 0
    ensures out == Normal ==> released == Upto(references) && multiset(closed) == Upto(handles)
    ensures out == Exited <==> Escapes(program) && Depth(program) <= MAX_TRY_DEPTH
    ensures out == Aborted <==> Depth(program) > MAX_TRY_DEPTH
  {
    hide OpenAfter, Runtime.Handled;
    var thread := new Runtime();
    assert Inside(thread.Now(), 0, []);
    out := thread.Exec(program, 0, []);
    closed, released, references, handles := thread.closed, thread.released, thread.issued, thread.acquired;
    left := |thread.tries| + |thread.unwind| + |thread.resources|;
    if out == Normal {
      NothingLeft(thread);
    }
  }

  lemma NothingLeft(thread: Runtime)
    requires thread.References(multiset{}) && thread.Handled() && thread.unwind == [] && thread.resources == []
    ensures thread.released == Upto(thread.issued) && multiset(thread.closed) == Upto(thread.acquired)
  {
    assert thread.released + multiset{} + multiset{} == thread.released;
    assert multiset(thread.closed) + multiset{} == multiset(thread.closed);
  }

  /** What was given out is each number once. */
  lemma {:induction false} UptoOnce(n: nat, k: nat)
    ensures Upto(n)[k] == if 1 <= k <= n then 1 else 0
  {
    if n > 0 {
      UptoOnce(n - 1, k);
    }
  }
}
