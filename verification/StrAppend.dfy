/** Strings that grow in place: an owned string keeps room for more text in its block. */
module StrAppend {
  import opened MapHash
  import Probe

  const LEN_LIMIT: nat := 0x1_0000_0000_0000
  const MIN_CAPACITY: nat := 32

  // ── Capacities ──────────────────────────────────────────────────────────────

  /** The exponent of the least power of two that is at least `m`. */
  function Exponent(m: nat): nat {
    if m <= 1 then 0 else Exponent((m + 1) / 2) + 1
  }

  lemma {:induction false} ExponentOf(m: nat)
    ensures Probe.Pow2(Exponent(m)) == Probe.NextPowerOfTwo(m)
  {
    if m > 1 {
      ExponentOf((m + 1) / 2);
    }
  }

  function CapacityFor(needed: nat): (exp: nat)
    ensures exp >= 1 && Probe.Pow2(exp) >= needed && Probe.Pow2(exp) >= MIN_CAPACITY
  {
    var m := if needed > MIN_CAPACITY then needed else MIN_CAPACITY;
    ExponentOf(m);
    Exponent(m)
  }

  /** A full block at least doubles. */
  lemma Doubles(exp: nat, needed: nat)
    requires needed > Probe.Pow2(exp)
    ensures Probe.Pow2(CapacityFor(needed)) >= 2 * Probe.Pow2(exp)
  {
    var k := CapacityFor(needed);
    if k <= exp {
      Probe.Pow2Grows(k, exp);
    } else {
      Probe.Pow2Grows(exp + 1, k);
    }
  }

  /** The bits that one of two numbers has. */
  function Or(a: nat, b: nat): nat {
    if a == 0 then b else if b == 0 then a else
    2 * Or(a / 2, b / 2) + if a % 2 == 1 || b % 2 == 1 then 1 else 0
  }

  /** The word of a string: its length in 48 bits, the exponent of its capacity above; exponent 0
      is a block of the exact size. A length of more bits runs into the exponent. */
  function AuxWord(len: nat, exp: nat): nat {
    len % LEN_LIMIT + Or(len / LEN_LIMIT, exp) * LEN_LIMIT
  }

  function AuxLen(aux: nat): nat {
    aux % LEN_LIMIT
  }

  function AuxExp(aux: nat): nat {
    aux / LEN_LIMIT
  }

  function Payload(aux: nat): nat {
    if AuxExp(aux) == 0 then AuxLen(aux) + 1 else Probe.Pow2(AuxExp(aux))
  }

  lemma AuxParts(len: nat, exp: nat)
    ensures AuxLen(AuxWord(len, exp)) == len % LEN_LIMIT
    ensures len < LEN_LIMIT ==> AuxLen(AuxWord(len, exp)) == len && AuxExp(AuxWord(len, exp)) == exp
  {
  }

  // ── Strings ─────────────────────────────────────────────────────────────────

  /** The block of a string. `moved` counts the bytes that growing it has copied, and `origin` is
      the size it was first given; the program does not have these two. */
  class Block {
    const owned: bool
    var bytes: seq<char>
    var aux: nat
    var count: int
    ghost var moved: nat
    ghost var origin: nat

    ghost predicate Valid()
      reads this
    {
      && |bytes| == Payload(aux) && AuxLen(aux) < |bytes| && bytes[AuxLen(aux)] == '\0'
      && Amortised()
    }

    /** What growing has cost is less than the first size and the capacity reached. */
    ghost predicate Amortised()
      reads `bytes, `moved, `origin, `aux
    {
      if AuxExp(aux) == 0 then moved == 0 && origin == |bytes| else moved < origin + |bytes|
    }

    ghost function Text(): string
      requires Valid()
      reads this
    {
      bytes[..AuxLen(aux)]
    }

    /** A string of the exact size. */
    constructor Exact(text: string, owned: bool)
      requires |text| < LEN_LIMIT
      ensures Valid() && Text() == text && this.owned == owned && count == 1 && origin == |text| + 1
    {
      this.owned := owned;
      bytes, aux, count, moved, origin := text + ['\0'], |text|, 1, 0, |text| + 1;
      new;
      AuxParts(|text|, 0);
      assert bytes[..|text|] == text;
    }

    /** A string with `head`, a place for `tail`, and room for more. */
    constructor WithRoom(head: string, tail: string)
      ensures owned && count == 1 && AuxLen(aux) == (|head| + |tail|) % LEN_LIMIT
      ensures |head| + |tail| < LEN_LIMIT ==> Valid() && Text() == head + tail && AuxExp(aux) > 0
    {
      var len := |head| + |tail|;
      var exp := CapacityFor(len + 1);
      owned := true;
      bytes := head + tail + ['\0'] + seq(Probe.Pow2(exp) - len - 1, _ => '\0');
      aux, count, moved, origin := AuxWord(len, exp), 1, 0, Probe.Pow2(exp);
      new;
      AuxParts(len, exp);
      assert bytes[..len] == head + tail && bytes[len] == '\0';
    }

    /** Writes `tail` after the text, ends it, and notes its length. */
    method Extend(tail: string, exp: nat)
      requires 0 < exp && |bytes| == Probe.Pow2(exp) && AuxLen(aux) + |tail| < |bytes|
      requires moved < origin + |bytes|
      modifies `bytes, `aux
      ensures |bytes| == |old(bytes)| && AuxLen(aux) == (old(AuxLen(aux)) + |tail|) % LEN_LIMIT
      ensures old(AuxLen(aux)) + |tail| < LEN_LIMIT ==>
                Valid() && AuxExp(aux) == exp && Text() == old(bytes)[..old(AuxLen(aux))] + tail
    {
      var len := AuxLen(aux);
      bytes := bytes[..len] + tail + ['\0'] + bytes[len + |tail| + 1..];
      aux := AuxWord(len + |tail|, exp);
      AuxParts(len + |tail|, exp);
      assert bytes[..len + |tail|] == old(bytes)[..len] + tail;
    }

    /** Grows the block to a new size, its bytes kept. */
    method Grow(exp: nat)
      requires |bytes| <= Probe.Pow2(exp)
      modifies `bytes, `moved
      ensures |bytes| == Probe.Pow2(exp) && bytes[..|old(bytes)|] == old(bytes) && moved == old(moved) + |old(bytes)|
    {
      moved := moved + |bytes|;
      bytes := bytes + seq(Probe.Pow2(exp) - |bytes|, _ => '\0');
    }

    method Release()
      modifies `count
      ensures count == if owned then old(count) - 1 else old(count)
    {
      if owned {
        count := count - 1;
      }
    }
  }

  /** `s` followed by `tail`. Takes the reference to `s`: an owned string that nothing else refers
      to is extended in place, in its block or in a larger one; otherwise a new string is made and
      the reference given back. `busy`: a collection may still read the old block, which must not
      move. A length that does not fit its 48 bits is cut down to them: the string is wrong then,
      and only then. */
  method AppendWith(s: Block, tail: string, inPlace: bool, busy: bool) returns (r: Block)
    requires s.Valid() && s.count >= 1
    modifies s
    ensures |old(s.Text())| + |tail| < LEN_LIMIT ==> r.Valid() && r.Text() == old(s.Text()) + tail
    ensures AuxLen(r.aux) == (|old(s.Text())| + |tail|) % LEN_LIMIT && r.owned && r.count == 1
    ensures r == s || fresh(r)
    ensures r == s <==> inPlace && s.owned && old(s.count) == 1
                        && (!busy || (AuxExp(old(s.aux)) != 0 && AuxLen(old(s.aux)) + |tail| < |old(s.bytes)|))
    ensures r != s ==>
              s.Valid() && s.Text() == old(s.Text()) && s.count == if s.owned then old(s.count) - 1 else old(s.count)
    ensures r == s ==> s.origin == old(s.origin)
  {
    hide AuxWord, CapacityFor, Probe.Pow2;
    if inPlace && s.owned && s.count == 1 {
      var len := AuxLen(s.aux);
      var needed := len + |tail| + 1;
      var exp := AuxExp(s.aux);
      if needed <= Payload(s.aux) && exp != 0 {
        s.Extend(tail, exp);
        return s;
      }
      if !busy {
        var larger := CapacityFor(needed);
        Fits(s, needed);
        s.Grow(larger);
        s.Extend(tail, larger);
        return s;
      }
    }
    r := new Block.WithRoom(s.bytes[..AuxLen(s.aux)], tail);
    s.Release();
  }

  /** What growing a block that is full, or has no room at all, costs and gains. */
  lemma Fits(s: Block, needed: nat)
    requires s.Valid() && needed > AuxLen(s.aux) && (AuxExp(s.aux) == 0 || needed > Payload(s.aux))
    ensures |s.bytes| <= Probe.Pow2(CapacityFor(needed))
    ensures s.moved + |s.bytes| < s.origin + Probe.Pow2(CapacityFor(needed))
    ensures AuxExp(s.aux) == 0 ==> s.moved + |s.bytes| == s.origin
  {
    if AuxExp(s.aux) != 0 {
      Doubles(AuxExp(s.aux), needed);
    }
  }

  /** `s + b`. A string added to itself is read while it is copied, so its block stays. */
  method Append(s: Block, b: Block, busy: bool) returns (r: Block)
    requires s.Valid() && b.Valid() && s.count >= 1
    modifies s
    ensures |old(s.Text())| + |old(b.Text())| < LEN_LIMIT ==> r.Valid() && r.Text() == old(s.Text()) + old(b.Text())
    ensures AuxLen(r.aux) == (|old(s.Text())| + |old(b.Text())|) % LEN_LIMIT && r.owned && r.count == 1
    ensures r != b && b.Valid() && (b != s ==> b.Text() == old(b.Text()))
    ensures (old(s.count) > 1 ==> s.Valid() && s.Text() == old(s.Text()))
  {
    r := AppendWith(s, b.bytes[..AuxLen(b.aux)], s != b, busy);
  }

  function Joined(tails: seq<string>): string {
    if tails == [] then "" else Joined(tails[..|tails| - 1]) + tails[|tails| - 1]
  }

  lemma {:induction false} JoinedPart(tails: seq<string>, k: nat)
    requires k <= |tails|
    ensures |Joined(tails[..k])| <= |Joined(tails)|
  {
    if k < |tails| {
      JoinedPart(tails[..|tails| - 1], k);
      assert tails[..|tails| - 1][..k] == tails[..k];
    } else {
      assert tails[..k] == tails;
    }
  }

  /** Any run of appends to a string that nothing else refers to grows that string in place, and
      copies fewer bytes in all than its first length, plus one, plus its last capacity. */
  method AppendAll(text: string, tails: seq<string>) returns (r: Block)
    requires |text| + |Joined(tails)| < LEN_LIMIT
    ensures fresh(r) && r.Valid() && r.Text() == text + Joined(tails)
    ensures r.moved < |text| + 1 + |r.bytes|
  {
    r := new Block.Exact(text, true);
    assert text + "" == text;
    for i := 0 to |tails|
      invariant fresh(r) && r.Valid() && r.owned && r.count == 1 && r.origin == |text| + 1
      invariant r.Text() == text + Joined(tails[..i])
    {
      JoinedPart(tails, i + 1);
      assert tails[..i + 1][..i] == tails[..i];
      assert text + Joined(tails[..i]) + tails[i] == text + Joined(tails[..i + 1]);
      r := AppendWith(r, tails[i], true, false);
    }
    assert tails[..|tails|] == tails;
  }

  // ── Templates ───────────────────────────────────────────────────────────────

  type Word = n: int | IsInt(n)

  /** A part of a template that needs no formatting buffer. */
  datatype Part = IntPart(n: Word) | BoolPart(b: bool) | TextPart(text: string)

  function PartText(part: Part): string {
    match part
    case IntPart(n) => Decimal(n)
    case BoolPart(b) => if b then "true" else "false"
    case TextPart(text) => text
  }

  function TemplateText(parts: seq<Part>): string {
    if parts == [] then "" else TemplateText(parts[..|parts| - 1]) + PartText(parts[|parts| - 1])
  }

  /** The decimal logarithm, rounded down. */
  function Log10(m: nat): nat
    requires m > 0
  {
    if m < 10 then 0 else Log10(m / 10) + 1
  }

  function IntLen(n: int): nat {
    var m := if n < 0 then -n else n;
    (if m == 0 then 1 else Log10(m) + 1) + if n < 0 then 1 else 0
  }

  function PartLen(part: Part): nat {
    match part
    case IntPart(n) => IntLen(n)
    case BoolPart(b) => if b then 4 else 5
    case TextPart(text) => |text|
  }

  function PlainLen(parts: seq<Part>): nat {
    if parts == [] then 0 else PlainLen(parts[..|parts| - 1]) + PartLen(parts[|parts| - 1])
  }

  lemma {:induction false} DigitsLength(m: nat)
    requires m > 0
    ensures |Digits(m)| == Log10(m) + 1
  {
    if m >= 10 {
      DigitsLength(m / 10);
    }
  }

  /** The length found without writing a digit is that of the decimal text. */
  lemma IntLenExact(n: int)
    ensures IntLen(n) == |Decimal(n)|
  {
    if n != 0 {
      DigitsLength(if n < 0 then -n else n);
    }
  }

  lemma {:induction false} PlainLenExact(parts: seq<Part>)
    ensures PlainLen(parts) == |TemplateText(parts)|
  {
    if parts != [] {
      PlainLenExact(parts[..|parts| - 1]);
      if parts[|parts| - 1].IntPart? {
        IntLenExact(parts[|parts| - 1].n);
      }
    }
  }

  lemma {:induction false} PlainPrefix(parts: seq<Part>, k: nat)
    requires k <= |parts|
    ensures PlainLen(parts[..k]) <= PlainLen(parts)
  {
    if k < |parts| {
      PlainPrefix(parts[..|parts| - 1], k);
      assert parts[..|parts| - 1][..k] == parts[..k];
    } else {
      assert parts[..k] == parts;
    }
  }

  /** Writes the parts into a place of exactly the length computed for them. */
  method WritePlain(parts: seq<Part>, out: array<char>)
    requires out.Length == PlainLen(parts)
    modifies out
    ensures out[..] == TemplateText(parts)
  {
    hide Decimal, PartText, PartLen, IntLen;
    var at := 0;
    for k := 0 to |parts|
      invariant at == PlainLen(parts[..k]) <= out.Length && out[..at] == TemplateText(parts[..k])
    {
      assert parts[..k + 1][..k] == parts[..k];
      PlainPrefix(parts, k + 1);
      PlainLenExact(parts[..k + 1]);
      PlainLenExact(parts[..k]);
      var text := PartChars(parts[k]);
      Copy(out, at, text);
      at := at + |text|;
    }
    assert parts[..|parts|] == parts;
  }

  method PartChars(part: Part) returns (text: string)
    ensures text == PartText(part)
  {
    match part
    case IntPart(n) =>
      var digits := new char[20];
      var start := IntText(n, digits);
      text := digits[start..];
    case BoolPart(b) => text := if b then "true" else "false";
    case TextPart(t) => text := t;
  }

  method Copy(out: array<char>, at: nat, text: string)
    requires at + |text| <= out.Length
    modifies out
    ensures out[..at + |text|] == old(out[..at]) + text
  {
    forall i | 0 <= i < |text| {
      out[at + i] := text[i];
    }
  }

  /** `s` followed by a template. `aliased`: a part is read in `s` itself. */
  method AppendTemplate(s: Block, parts: seq<Part>, aliased: bool, busy: bool) returns (r: Block)
    requires s.Valid() && s.count >= 1
    modifies s
    ensures |old(s.Text())| + PlainLen(parts) < LEN_LIMIT ==>
              r.Valid() && r.Text() == old(s.Text()) + TemplateText(parts)
    ensures AuxLen(r.aux) == (|old(s.Text())| + PlainLen(parts)) % LEN_LIMIT
    ensures old(s.count) > 1 || aliased ==> fresh(r) && s.Valid() && s.Text() == old(s.Text())
  {
    var out := new char[PlainLen(parts)];
    PlainLenExact(parts);
    WritePlain(parts, out);
    r := AppendWith(s, out[..], !aliased, busy);
  }
}
