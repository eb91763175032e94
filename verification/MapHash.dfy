/** Decimal texts of integers, and the 32-bit hash of a map key. */
module MapHash {
  import opened Basics

  const MIN_INT: int := -0x8000_0000_0000_0000
  const MAX_INT: int := 0x7FFF_FFFF_FFFF_FFFF
  const SUFFIX_BLOCK: nat := 256

  predicate IsInt(n: int) {
    MIN_INT <= n <= MAX_INT
  }

  // ── Decimal texts ───────────────────────────────────────────────────────────

  function Digit(d: nat): char
    requires d < 10
  {
    '0' + d as char
  }

  predicate IsDigit(c: char) {
    '0' <= c <= '9'
  }

  predicate AllDigits(s: string) {
    forall i :: 0 <= i < |s| ==> IsDigit(s[i])
  }

  /** The number that a text of digits writes. */
  function Value(s: string): nat
    requires AllDigits(s)
  {
    if s == "" then 0 else Value(s[..|s| - 1]) * 10 + (s[|s| - 1] as int - '0' as int)
  }

  function Digits(m: nat): (s: string)
    ensures s != "" && AllDigits(s)
    ensures |s| == 1 || s[0] != '0'
  {
    if m < 10 then [Digit(m)] else Digits(m / 10) + [Digit(m % 10)]
  }

  /** The text of an integer. */
  function Decimal(n: int): string {
    if n < 0 then "-" + Digits(-n) else Digits(n)
  }

  function Pow10(k: nat): nat {
    if k == 0 then 1 else 10 * Pow10(k - 1)
  }

  lemma {:induction false} ValueOfDigits(m: nat)
    ensures Value(Digits(m)) == m
  {
    if m >= 10 {
      ValueOfDigits(m / 10);
      assert Digits(m)[..|Digits(m)| - 1] == Digits(m / 10);
    }
  }

  /** A text of digits without leading zero is that of its value. */
  lemma {:induction false} DigitsOfValue(s: string)
    requires s != "" && AllDigits(s) && (|s| == 1 || s[0] != '0')
    ensures Digits(Value(s)) == s
    ensures |s| > 1 ==> Value(s) >= 10
  {
    var last := s[|s| - 1] as int - '0' as int;
    if |s| > 1 {
      var head := s[..|s| - 1];
      DigitsOfValue(head);
      if |head| == 1 {
        assert Value(head) > 0 by {
          assert head[..0] == "";
        }
      }
      assert s == head + [s[|s| - 1]];
    } else {
      assert s[..0] == "";
      assert s == [s[0]];
    }
  }

  lemma {:induction false} ValueBound(s: string)
    requires AllDigits(s)
    ensures Value(s) < Pow10(|s|)
  {
    if s != "" {
      ValueBound(s[..|s| - 1]);
    }
  }

  lemma {:induction false} DigitsBound(m: nat, k: nat)
    requires m < Pow10(k) && k > 0
    ensures |Digits(m)| <= k
  {
    if m >= 10 {
      DigitsBound(m / 10, k - 1);
    }
  }

  lemma Pow10Of19()
    ensures Pow10(18) == 1_000_000_000_000_000_000 && Pow10(19) == 10_000_000_000_000_000_000
  {
    assert Pow10(6) == 1_000_000;
    assert Pow10(12) == 1_000_000_000_000;
  }

  lemma IntDigits(n: int)
    requires IsInt(n)
    ensures |Digits(if n < 0 then -n else n)| <= 19
  {
    Pow10Of19();
    DigitsBound(if n < 0 then -n else n, 19);
  }

  lemma TenTens(m: nat)
    ensures m / 10 / 10 == m / 100 && m / 10 % 10 == m % 100 / 10
  {
    var q, r := m / 100, m % 100;
    assert m == 100 * q + r;
    assert m / 10 == 10 * q + r / 10;
  }

  /** Two digits at a time. */
  lemma DigitPair(m: nat)
    requires m >= 10
    ensures Digits(m) == (if m < 100 then "" else Digits(m / 100)) + [Digit(m % 100 / 10), Digit(m % 10)]
  {
    hide Digit;
    TenTens(m);
    if m >= 100 {
      DigitsStep(m / 10);
    } else {
      OneDigit(m / 10);
    }
  }

  lemma DigitsStep(m: nat)
    requires m >= 10
    ensures Digits(m) == Digits(m / 10) + [Digit(m % 10)]
  {
  }

  /** Puts two digits before position `at`. */
  method PutPair(buf: array<char>, at: nat, pair: nat)
    requires 2 <= at <= buf.Length && pair < 100
    modifies buf
    ensures buf[at - 2..] == [Digit(pair / 10), Digit(pair % 10)] + old(buf[at..])
  {
    buf[at - 2], buf[at - 1] := Digit(pair / 10), Digit(pair % 10);
  }

  method Put(buf: array<char>, at: nat, c: char)
    requires 1 <= at <= buf.Length
    modifies buf
    ensures buf[at - 1..] == [c] + old(buf[at..])
  {
    buf[at - 1] := c;
  }

  /** Writes the digits of `n` at the end of `buf`, two for each division. */
  method PutDigits(n: nat, buf: array<char>) returns (at: nat)
    requires |Digits(n)| <= buf.Length
    modifies buf
    ensures at <= buf.Length && buf[at..] == Digits(n)
  {
    hide Digits, Digit;
    var m := n;
    at := buf.Length;
    ghost var done := "";
    assert Digits(n) == Digits(m) + done;
    while m >= 10
      invariant at == buf.Length - |done| && buf[at..] == done
      invariant Digits(n) == (if m == 0 && done != "" then "" else Digits(m)) + done
      decreases m
    {
      DigitPair(m);
      ghost var head, pair := if m < 100 then "" else Digits(m / 100), [Digit(m % 100 / 10), Digit(m % 10)];
      assert head + pair + done == head + (pair + done);
      PutPair(buf, at, m % 100);
      m, at, done := m / 100, at - 2, pair + done;
    }
    if m > 0 || at == buf.Length {
      OneDigit(m);
      Put(buf, at, Digit(m));
      at := at - 1;
    }
  }

  /** Writes the text of `n` at the end of `buf`, without allocating: it starts at `at`. */
  method IntText(n: int, buf: array<char>) returns (at: nat)
    requires IsInt(n) && buf.Length == 20
    modifies buf
    ensures at < 20 && buf[at..] == Decimal(n)
  {
    IntDigits(n);
    at := PutDigits(if n < 0 then -n else n, buf);
    assert |buf[at..]| == buf.Length - at;
    if n < 0 {
      Put(buf, at, '-');
      at := at - 1;
    }
  }

  lemma OneDigit(m: nat)
    requires m < 10
    ensures Digits(m) == [Digit(m)]
  {
  }

  /** The integer whose text is `text`, if there is one. */
  function CanonicalInt(text: string): Option<int> {
    var digits := if text != "" && text[0] == '-' then text[1..] else text;
    if && digits != "" && |digits| <= 19 && AllDigits(digits)
       && (|digits| == 1 || digits[0] != '0') && !(text[0] == '-' && digits == "0")
    then
      var magnitude: int := Value(digits);
      var value := if text[0] == '-' then -magnitude else magnitude;
      if IsInt(value) then Some(value) else None
    else None
  }

  lemma CanonicalOfDecimal(v: int)
    requires IsInt(v)
    ensures CanonicalInt(Decimal(v)) == Some(v)
  {
    hide Digits, Value;
    var digits := Digits(if v < 0 then -v else v);
    IntDigits(v);
    ValueOfDigits(if v < 0 then -v else v);
    ZeroText();
    assert v < 0 ==> Decimal(v)[1..] == digits;
  }

  lemma ZeroText()
    ensures Value("0") == 0
  {
    assert "0"[..0] == "";
  }

  lemma DecimalOfCanonical(text: string)
    requires CanonicalInt(text).Some?
    ensures var v := CanonicalInt(text).value; IsInt(v) && text == Decimal(v)
  {
    hide Digits, Value;
    var digits := if text[0] == '-' then text[1..] else text;
    DigitsOfValue(digits);
    if text[0] == '-' {
      assert text == "-" + digits;
      if Value(digits) == 0 {
        OneDigit(0);
      }
    }
  }

  /** `CanonicalInt` is the inverse of `Decimal`, on all integers and on all texts. */
  lemma CanonicalIffDecimal(text: string, v: int)
    ensures CanonicalInt(text) == Some(v) <==> IsInt(v) && text == Decimal(v)
  {
    hide *;
    if IsInt(v) && text == Decimal(v) {
      CanonicalOfDecimal(v);
    }
    if CanonicalInt(text) == Some(v) {
      DecimalOfCanonical(text);
    }
  }

  // ── Hashes ──────────────────────────────────────────────────────────────────

  /** What the seeded hasher makes of a prefix, and of the block word that may follow it. */
  type Seed = (string, Option<nat>) -> nat

  function Fold32(h: nat): nat {
    (h * 0x9E37_79B9_7F4A_7C15) % TWO_64 / TWO_32
  }

  function HashInt(v: int): (h: nat)
    ensures h < TWO_32
  {
    var x := v % TWO_64;
    (x % TWO_32 + x / TWO_32 * 0x9E37_79B9) % TWO_32
  }

  /** The number of digits that end a text. */
  function TrailingDigits(text: string): (k: nat)
    ensures k <= |text| && AllDigits(text[|text| - k..])
  {
    if text == "" || !IsDigit(text[|text| - 1]) then 0 else
    var init := text[..|text| - 1];
    var k := TrailingDigits(init);
    assert text[|text| - k - 1..] == init[|init| - k..] + [text[|text| - 1]];
    k + 1
  }

  /** Length of the prefix and value of the digits that end a text; none if there is no digit,
      or more than 18. */
  function NumericSuffix(text: string): Option<(nat, nat)> {
    var k := TrailingDigits(text);
    if 0 < k <= 18 then Some((|text| - k, Value(text[|text| - k..]))) else None
  }

  function HashText(seed: Seed, text: string): (h: nat)
    ensures h < TWO_32
  {
    match NumericSuffix(text)
    case None =>
      if text != "" && IsDigit(text[|text| - 1]) && CanonicalInt(text).Some? then HashInt(CanonicalInt(text).value)
      else Fold32(seed(text, None)) % TWO_32
    case Some((prefix, value)) =>
      var digits := |text| - prefix;
      var canonical := digits == 1 || text[prefix] != '0';
      if canonical && (prefix == 0 || (text[..prefix] == "-" && value != 0)) then
        HashInt(if prefix == 0 then value as int else -(value as int))
      else
        (Fold32(seed(text[..prefix], Some(value / SUFFIX_BLOCK + digits * 0x400_0000_0000_0000))) +
              value % SUFFIX_BLOCK) % TWO_32
  }

  lemma {:induction false} TrailingAll(s: string, t: string)
    requires AllDigits(t) && (s == "" || !IsDigit(s[|s| - 1]))
    ensures TrailingDigits(s + t) == |t|
  {
    if t != "" {
      TrailingAll(s, t[..|t| - 1]);
      assert (s + t)[..|s + t| - 1] == s + t[..|t| - 1];
    } else {
      assert s + t == s;
    }
  }

  /** The suffix of a text that `text` ends with digits after `sign`. */
  lemma SuffixOf(sign: string, digits: string)
    requires digits != "" && AllDigits(digits) && |digits| <= 18 && (sign == "" || !IsDigit(sign[|sign| - 1]))
    ensures NumericSuffix(sign + digits) == Some((|sign|, Value(digits)))
  {
    TrailingAll(sign, digits);
    assert (sign + digits)[|sign|..] == digits;
  }

  /** A table can turn integer keys into their texts and leave its index alone. */
  lemma HashOfDecimal(seed: Seed, v: int)
    requires IsInt(v)
    ensures HashText(seed, Decimal(v)) == HashInt(v)
  {
    hide Digits, Value, TrailingDigits, HashInt, Fold32, CanonicalInt;
    var sign := if v < 0 then "-" else "";
    var digits := Digits(if v < 0 then -v else v);
    assert Decimal(v) == sign + digits && (sign + digits)[..|sign|] == sign;
    ValueOfDigits(if v < 0 then -v else v);
    if |digits| <= 18 {
      SuffixOf(sign, digits);
    } else {
      TrailingAll(sign, digits);
      CanonicalIffDecimal(Decimal(v), v);
    }
  }

  lemma Shift(d: nat, p: nat)
    ensures d * (10 * p) == d * p * 10
  {
  }

  lemma {:induction false} ValueFront(c: char, s: string)
    requires IsDigit(c) && AllDigits(s)
    ensures AllDigits([c] + s) && Value([c] + s) == (c as int - '0' as int) * Pow10(|s|) + Value(s)
  {
    if s == "" {
      assert [c] + s == [c] && [c][..0] == "";
    } else {
      var init := s[..|s| - 1];
      ValueFront(c, init);
      assert ([c] + s)[..|s|] == [c] + init && ([c] + s)[|s|] == s[|s| - 1];
      Shift(c as int - '0' as int, Pow10(|init|));
    }
  }

  lemma {:induction false} TrailingBounds(text: string, start: nat)
    requires start <= |text| && AllDigits(text[start..]) && (start == 0 || !IsDigit(text[start - 1]))
    ensures TrailingDigits(text) == |text| - start
  {
    TrailingAll(text[..start], text[start..]);
    assert text == text[..start] + text[start..];
  }

  lemma {:induction false} TrailingAtLeast(text: string, start: nat)
    requires start <= |text| && AllDigits(text[start..])
    ensures TrailingDigits(text) >= |text| - start
  {
    if start < |text| {
      assert IsDigit(text[start..][|text| - 1 - start]);
      var init := text[..|text| - 1];
      assert init[start..] == text[start..][..|init| - start];
      TrailingAtLeast(init, start);
    }
  }

  /** The scan that `NumericSuffix` stands for: one pass from the end, the scale of each digit
      ten times that of the one after it. No step overflows a 64-bit word. */
  method ScanSuffix(text: string) returns (r: Option<(nat, nat)>)
    ensures r == NumericSuffix(text)
  {
    hide Value, TrailingDigits, Pow10;
    var start, value, scale := |text|, 0, 1;
    ScanStart(text);
    while start > 0 && IsDigit(text[start - 1])
      invariant 0 <= start <= |text| && AllDigits(text[start..]) && |text| - start <= 18
      invariant value == Value(text[start..]) && scale == Pow10(|text| - start)
    {
      ScanStep(text, start);
      if |text| - start == 18 {
        TrailingAtLeast(text, start - 1);
        return None;
      }
      start := start - 1;
      value := (value + (text[start] as int - '0' as int) * scale) % TWO_64;
      scale := scale * 10 % TWO_64;
    }
    TrailingBounds(text, start);
    r := if |text| - start > 0 then Some((start, value)) else None;
  }

  lemma ScanStart(text: string)
    ensures text[|text|..] == "" && Value("") == 0 && Pow10(0) == 1
  {
  }

  lemma ScanStep(text: string, start: nat)
    requires 0 < start <= |text| && AllDigits(text[start..]) && |text| - start <= 18 && IsDigit(text[start - 1])
    ensures AllDigits(text[start - 1..])
    ensures |text| - start < 18 ==>
              var value := Value(text[start..]) + (text[start - 1] as int - '0' as int) * Pow10(|text| - start);
              value < TWO_64 && Value(text[start - 1..]) == value
    ensures |text| - start < 18 ==> Pow10(|text| - start + 1) == 10 * Pow10(|text| - start) < TWO_64
  {
    var tail := text[start..];
    assert text[start - 1..] == [text[start - 1]] + tail;
    ValueFront(text[start - 1], tail);
    if |tail| < 18 {
      ValueBound(text[start - 1..]);
      Pow10Grows(|tail| + 1, 18);
      Pow10Of19();
    }
  }

  lemma {:induction false} Pow10Grows(k: nat, n: nat)
    requires k <= n
    ensures Pow10(k) <= Pow10(n)
  {
    if k < n {
      Pow10Grows(k, n - 1);
    }
  }
}
