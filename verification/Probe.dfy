/** Probing by a fixed stride in a table whose size is a power of two. */
module Probe {
  import opened Basics

  const STEP: int := 257
  const STEP_INVERSE: int := 0xFF00_FF00_FF00_FF01

  // ── The inverse of the stride ───────────────────────────────────────────────

  /** One round of Newton's iteration for the inverse of `STEP`, in 64-bit words. */
  function Round(inverse: int): int {
    inverse * ((2 - STEP * inverse) % TWO_64) % TWO_64
  }

  /** One round, by the quotients of its two products: each step is one multiplication of
      numerals. */
  lemma RoundIs(inverse: int, q1: int, w: int, q2: int, next: int)
    requires 2 - STEP * inverse == TWO_64 * q1 + w && 0 <= w < TWO_64
    requires inverse * w == TWO_64 * q2 + next && 0 <= next < TWO_64
    ensures Round(inverse) == next
  {
    ModUnique(2 - STEP * inverse, TWO_64, q1, w);
    ModUnique(inverse * w, TWO_64, q2, next);
  }

  lemma Rounds()
    ensures Round(STEP) == 0xFFFF_FFFF_FEFC_FF01
    ensures Round(0xFFFF_FFFF_FEFC_FF01) == 0xFEF8_EEF0_FF00_FF01
    ensures Round(0xFEF8_EEF0_FF00_FF01) == STEP_INVERSE
    ensures Round(STEP_INVERSE) == STEP_INVERSE
  {
    hide Round;
    RoundIs(STEP, -1, 0xFFFF_FFFF_FFFE_FE01, 0x100, 0xFFFF_FFFF_FEFC_FF01);
    RoundIs(0xFFFF_FFFF_FEFC_FF01, -257, 0x1_0404_0001, 0x1_0404_0000, 0xFEF8_EEF0_FF00_FF01);
    RoundIs(0xFEF8_EEF0_FF00_FF01, -256, 0x818_2010_0000_0001, 0x80F_CEBC_FBFC_FF00, STEP_INVERSE);
    RoundIs(STEP_INVERSE, -256, 1, 0, STEP_INVERSE);
  }
  /** Five rounds from `STEP` itself find its inverse modulo 2 to the power 64. */
  lemma StepInverse()
    ensures Round(Round(Round(Round(Round(STEP))))) == STEP_INVERSE
    ensures STEP * STEP_INVERSE == 256 * TWO_64 + 1
  {
    Rounds();
  }

  // ── Residues ────────────────────────────────────────────────────────────────

  lemma MulMonotone(n: int, x: int, y: int)
    requires n >= 0 && x <= y
    ensures n * x <= n * y
  {
  }

  /** The remainder is the only number below `n` that differs by a multiple of `n`. */
  lemma ModUnique(a: int, n: int, q: int, r: int)
    requires n > 0 && a == n * q + r && 0 <= r < n
    ensures a % n == r
  {
    var d, m := a / n, a % n;
    assert a == n * d + m;
    if q < d {
      MulMonotone(n, q + 1, d);
    }
    if q > d {
      MulMonotone(n, d + 1, q);
    }
  }

  lemma ModShift(a: int, n: int, q: int)
    requires n > 0
    ensures (a + n * q) % n == a % n
  {
    assert n * (a / n + q) == n * (a / n) + n * q;
    ModUnique(a + n * q, n, a / n + q, a % n);
  }

  /** Taking a remainder before multiplying changes nothing modulo `n`. */
  lemma ModInner(a: int, b: int, c: int, n: int)
    requires n > 0
    ensures (a + b * (c % n)) % n == (a + b * c) % n
  {
    assert c == n * (c / n) + c % n;
    assert b * c == b * (c % n) + n * (b * (c / n)) by {
      assert b * (n * (c / n)) == n * (b * (c / n));
    }
    ModShift(a + b * (c % n), n, b * (c / n));
  }

  // ── Probing ─────────────────────────────────────────────────────────────────

  function Pow2(k: nat): (p: nat)
    ensures p >= 1
  {
    if k == 0 then 1 else 2 * Pow2(k - 1)
  }

  lemma {:induction false} Pow2Add(j: nat, k: nat)
    ensures Pow2(j) * Pow2(k) == Pow2(j + k)
  {
    if j > 0 {
      Pow2Add(j - 1, k);
      assert 2 * Pow2(j - 1) * Pow2(k) == 2 * (Pow2(j - 1) * Pow2(k));
    }
  }

  lemma Pow2Of8()
    ensures Pow2(8) == 256
  {
  }

  lemma Pow2Of64()
    ensures Pow2(40) == 0x100_0000_0000 && Pow2(64) == TWO_64
  {
    hide Pow2;
    Pow2Of8();
    Pow2Add(8, 8);
    Pow2Add(16, 16);
    Pow2Add(32, 8);
    Pow2Add(32, 32);
  }

  /** The sizes of an index: powers of two that fit a 64-bit word. */
  ghost predicate Size(n: int) {
    exists k: nat :: 1 <= k <= 63 && n == Pow2(k)
  }

  lemma SizeDivides(n: int) returns (m: int)
    requires Size(n)
    ensures n >= 2 && n * m == TWO_64
  {
    var k: nat :| 1 <= k <= 63 && n == Pow2(k);
    m := Pow2(64 - k);
    Pow2Add(k, 64 - k);
    Pow2Of64();
  }

  lemma {:induction false} Pow2Grows(j: nat, k: nat)
    requires j <= k
    ensures Pow2(j) <= Pow2(k)
  {
    if j < k {
      Pow2Grows(j, k - 1);
    }
  }

  /** An index can be doubled as long as its size has room in a word. */
  lemma SizeDoubles(n: int)
    requires Size(n) && n < 0x8000_0000_0000_0000
    ensures Size(2 * n)
  {
    var k: nat :| 1 <= k <= 63 && n == Pow2(k);
    Pow2Of64();
    assert Pow2(64) == 2 * Pow2(63);
    assert 2 * n == Pow2(k + 1);
  }

  /** The least power of two that is at least `m`. */
  function NextPowerOfTwo(m: nat): (p: nat)
    ensures p >= m && p >= 1 && (m > 1 ==> p < 2 * m)
  {
    if m <= 1 then 1 else 2 * NextPowerOfTwo((m + 1) / 2)
  }

  lemma {:induction false} NextPowerOfTwoIs(m: nat) returns (k: nat)
    ensures NextPowerOfTwo(m) == Pow2(k)
  {
    if m <= 1 {
      k := 0;
    } else {
      var j := NextPowerOfTwoIs((m + 1) / 2);
      k := j + 1;
    }
  }

  lemma NextPowerOfTwoSize(m: nat)
    requires 2 <= m < 0x40_0000_0000
    ensures Size(NextPowerOfTwo(m))
  {
    var k := NextPowerOfTwoIs(m);
    if k >= 64 {
      Pow2Grows(64, k);
      Pow2Of64();
    }
  }

  /** The slot probed `k` steps after `home`. */
  function At(home: int, k: int, n: int): (p: int)
    requires n > 0
    ensures 0 <= p < n
  {
    (home + STEP * k) % n
  }

  /** The number of steps from one slot to another, as the table computes it: in 64-bit words,
      by the inverse of the stride. */
  function Steps(from: int, to: int, n: int): (k: int)
    requires n > 0
    ensures 0 <= k < n
  {
    (to - from) % TWO_64 * STEP_INVERSE % TWO_64 % n
  }

  lemma SplitWord(w: int) returns (q: int, r: int)
    ensures w == TWO_64 * q + r && r == w % TWO_64
  {
    q, r := w / TWO_64, w % TWO_64;
  }

  lemma WordSteps(from: int, to: int, n: int)
    requires n > 0 && Size(n)
    ensures Steps(from, to, n) == (to - from) * STEP_INVERSE % n
  {
    hide Size;
    var m := SizeDivides(n);
    var q, r := SplitWord(to - from);
    var w := r * STEP_INVERSE;
    var q2, r2 := SplitWord(w);
    Multiple(n, m, q2);
    ModShift(r2, n, m * q2);
    Multiple(n, m, q * STEP_INVERSE);
    ModShift(w, n, m * (q * STEP_INVERSE));
  }

  lemma Multiple(n: int, m: int, x: int)
    requires n * m == TWO_64
    ensures n * (m * x) == TWO_64 * x
  {
    Associate(n, m, x);
  }

  /** Probing reaches every slot: `to` is probed `Steps` steps after `from`. */
  lemma AtSteps(from: int, to: int, n: int)
    requires n > 0 && Size(n) && 0 <= to < n
    ensures At(from, Steps(from, to, n), n) == to
  {
    hide Size, Steps;
    var m := SizeDivides(n);
    WordSteps(from, to, n);
    var x := (to - from) * STEP_INVERSE;
    ModInner(from, STEP, x, n);
    Multiple(n, m, 256 * (to - from));
    ModShift(to, n, m * (256 * (to - from)));
    ModUnique(to, n, 0, to);
  }

  /** `Steps` is the only number of steps below `n` that leads there. */
  lemma StepsAt(from: int, k: int, n: int)
    requires n > 0 && Size(n) && 0 <= k < n
    ensures Steps(from, At(from, k, n), n) == k
  {
    var m := SizeDivides(n);
    var to := At(from, k, n);
    WordSteps(from, to, n);
    StepInverse();
    var q := BackSteps(from, k, n, m);
    assert (to - from) * STEP_INVERSE == k + n * q;
    ModShift(k, n, q);
    ModUnique(k, n, 0, k);
  }

  lemma BackSteps(from: int, k: int, n: int, m: int) returns (q: int)
    requires n > 0 && n * m == TWO_64
    ensures (At(from, k, n) - from) * STEP_INVERSE == k + n * q
  {
    var e := (from + STEP * k) / n;
    assert At(from, k, n) - from == STEP * k - n * e;
    InverseOf(k, n * e);
    q := m * 256 * k - e * STEP_INVERSE;
    Regroup(n, m, k, e);
  }

  lemma Regroup(n: int, m: int, k: int, e: int)
    requires n * m == TWO_64
    ensures n * (m * 256 * k - e * STEP_INVERSE) == TWO_64 * 256 * k - n * e * STEP_INVERSE
  {
    Associate(n, m, 256 * k);
    Associate(n, e, STEP_INVERSE);
  }

  lemma Associate(a: int, b: int, c: int)
    ensures a * (b * c) == a * b * c
  {
  }

  lemma InverseOf(k: int, x: int)
    ensures (STEP * k - x) * STEP_INVERSE == k + TWO_64 * 256 * k - x * STEP_INVERSE
  {
  }

  // ── The ring of slots ───────────────────────────────────────────────────────

  function Next(p: int, n: int): (q: int)
    requires n > 0
    ensures 0 <= q < n
  {
    (p + STEP) % n
  }

  /** Walking on from where a walk ends is one walk. */
  lemma AtAt(home: int, j: int, k: int, n: int)
    requires n > 0
    ensures At(At(home, j, n), k, n) == At(home, j + k, n)
  {
    var d := (home + STEP * j) / n;
    assert home + STEP * (j + k) == At(home, j, n) + STEP * k + n * d;
    ModShift(At(home, j, n) + STEP * k, n, d);
  }

  lemma AtRound(home: int, k: int, n: int)
    requires n > 0
    ensures At(home, k + n, n) == At(home, k, n)
  {
    assert home + STEP * (k + n) == home + STEP * k + n * STEP;
    ModShift(home + STEP * k, n, STEP);
  }

  lemma StepsSelf(p: int, n: int)
    requires n > 0 && Size(n) && 0 <= p < n
    ensures Steps(p, p, n) == 0
  {
    var m := SizeDivides(n);
    ModUnique(p, n, 0, p);
    StepsAt(p, 0, n);
  }

  lemma StepsInjective(from: int, p: int, q: int, n: int)
    requires n > 0 && Size(n) && 0 <= p < n && 0 <= q < n && Steps(from, p, n) == Steps(from, q, n)
    ensures p == q
  {
    AtSteps(from, p, n);
    AtSteps(from, q, n);
  }

  /** Distances along the ring add up. */
  lemma StepsAdd(a: int, b: int, c: int, n: int)
    requires n > 0 && Size(n) && 0 <= b < n && 0 <= c < n
    ensures Steps(a, c, n) == var k := Steps(a, b, n) + Steps(b, c, n); if k < n then k else k - n
  {
    hide At, Steps;
    var j, k := Steps(a, b, n), Steps(b, c, n);
    AtSteps(a, b, n);
    AtSteps(b, c, n);
    AtAt(a, j, k, n);
    if j + k < n {
      StepsAt(a, j + k, n);
    } else {
      AtRound(a, j + k - n, n);
      StepsAt(a, j + k - n, n);
    }
  }

  lemma StepsNext(from: int, p: int, n: int)
    requires n > 0 && Size(n) && 0 <= p < n
    ensures Steps(from, Next(p, n), n) == var k := Steps(from, p, n) + 1; if k < n then k else 0
    ensures Steps(p, Next(p, n), n) == 1
  {
    assert Next(p, n) == At(p, 1, n);
    StepsAt(p, 1, n);
    StepsAdd(from, p, Next(p, n), n);
  }
}
