/** Drawing a line of pixels, each blended over what was there. */
module Raster {

  type Byte = n: int | 0 <= n < 256

  datatype Color = Color(red: Byte, green: Byte, blue: Byte, alpha: Byte)

  // ── Blending ────────────────────────────────────────────────────────────────

  /** What shows through a colour of opacity `sa`. */
  function Behind(da: Byte, sa: Byte): (r: int)
    ensures 0 <= r <= 255 - sa
  {
    Weigh(0, da, 255 - sa);
    Weigh(da, 255, 255 - sa);
    Rounded(da * (255 - sa), 255, 0, 255 - sa);
    da * (255 - sa) / 255
  }

  lemma Mix(s: int, d: int, sa: int, da: int)
    requires 0 <= sa && 0 <= da && 0 < sa + da && 0 <= s && 0 <= d
    ensures var r := (s * sa + d * da + (sa + da) / 2) / (sa + da);
            (s <= d ==> s <= r <= d) && (d <= s ==> d <= r <= s)
  {
    var oa := sa + da;
    var lo, hi := if s <= d then s else d, if s <= d then d else s;
    Weigh(lo, s, sa);
    Weigh(lo, d, da);
    Weigh(s, hi, sa);
    Weigh(d, hi, da);
    assert lo * oa == lo * sa + lo * da && hi * oa == hi * sa + hi * da;
    Rounded(s * sa + d * da + oa / 2, oa, lo, hi);
  }

  lemma Weigh(x: int, y: int, w: int)
    requires x <= y && 0 <= w
    ensures x * w <= y * w
  {
  }

  lemma Rounded(a: int, b: int, lo: int, hi: int)
    requires b > 0 && lo * b <= a <= hi * b + b / 2
    ensures lo <= a / b <= hi
  {
    var q := a / b;
    assert a == q * b + a % b;
    if q < lo {
      Weigh(q + 1, lo, b);
    }
    if q > hi {
      Weigh(hi + 1, q, b);
    }
  }

  function Channel(s: Byte, d: Byte, sa: Byte, da: int): (r: Byte)
    requires 0 <= da && 0 < sa + da
    ensures (s <= d ==> s <= r <= d) && (d <= s ==> d <= r <= s)
  {
    Mix(s, d, sa, da);
    (s * sa + d * da + (sa + da) / 2) / (sa + da)
  }

  /** `src` over `dst`: opaque replaces, transparent leaves, and between the two every channel
      lies between those of both. */
  function Blend(dst: Color, src: Color): (r: Color)
    ensures src.alpha == 255 ==> r == src
    ensures src.alpha == 0 ==> r == dst
    ensures src.alpha <= r.alpha && (dst.alpha == 255 ==> r.alpha == 255)
    ensures src.red == dst.red ==> r.red == src.red
    ensures src.green == dst.green ==> r.green == src.green
    ensures src.blue == dst.blue ==> r.blue == src.blue
  {
    if src.alpha == 255 then src
    else if src.alpha == 0 then dst
    else
      var da := Behind(dst.alpha, src.alpha);
      Color(Channel(src.red, dst.red, src.alpha, da), Channel(src.green, dst.green, src.alpha, da),
            Channel(src.blue, dst.blue, src.alpha, da), src.alpha + da)
  }

  // ── Lines ───────────────────────────────────────────────────────────────────

  type Point = (int, int)

  function Abs(n: int): (r: int)
    ensures r >= 0
  {
    if n < 0 then -n else n
  }

  function Longer(a: int, b: int): int {
    if a >= b then a else b
  }

  function Sign(from: int, to: int): int {
    if from < to then 1 else -1
  }

  /** A point is within half a pixel of the ideal line, measured along the shorter side: `i` and
      `j` are its steps on each axis, out of `a` and `b`. */
  predicate Near(i: int, j: int, a: int, b: int) {
    -Longer(a, b) <= 2 * (a * j - b * i) <= Longer(a, b)
  }

  /** The steps taken on each axis after `k` rounds: one on the longer side at each. */
  predicate OnWay(k: nat, i: int, j: int, a: int, b: int) {
    && 0 <= i <= a && 0 <= j <= b && Near(i, j, a, b) && k == (if a >= b then i else j)
  }

  predicate StepsX(i: int, j: int, a: int, b: int) {
    2 * (a * (j + 1) - b * (i + 1)) >= -b
  }

  predicate StepsY(i: int, j: int, a: int, b: int) {
    2 * (a * (j + 1) - b * (i + 1)) <= a
  }

  lemma Expand(i: int, j: int, a: int, b: int)
    ensures a * (j + 1) == a * j + a && b * (i + 1) == b * i + b
  {
  }

  lemma Times(n: int, x: int, y: int)
    requires n >= 0 && x <= y
    ensures n * x <= n * y
  {
  }

  /** On the longer side's last step, and never before its end, the shorter side is at its end. */
  lemma Within(a: int, b: int, i: int, j: int)
    requires a > 0 && b >= 0 && 0 <= i <= a && -a <= 2 * (a * j - b * i) <= a
    ensures 0 <= j <= b && (i == a ==> j == b)
  {
    Times(b, i, a);
    Times(b, 0, i);
    if j >= b + 1 {
      Times(a, b + 1, j);
    } else if j <= -1 {
      Times(a, j, -1);
    } else if i == a && j <= b - 1 {
      Times(a, j, b - 1);
    }
  }

  /** Both ends are reached in the same round. */
  lemma Together(k: nat, i: int, j: int, a: int, b: int)
    requires OnWay(k, i, j, a, b)
    ensures k <= Longer(a, b) && (k == Longer(a, b) <==> i == a && j == b)
  {
    if a >= b && a > 0 {
      Within(a, b, i, j);
    } else if b > a {
      assert -b <= 2 * (b * i - a * j) <= b;
      Within(b, a, j, i);
    }
  }

  /** A round makes one step on the longer side, and stays near the line. */
  lemma RoundKeeps(k: nat, i: int, j: int, a: int, b: int)
    requires OnWay(k, i, j, a, b) && k < Longer(a, b)
    ensures OnWay(k + 1, i + (if StepsX(i, j, a, b) then 1 else 0), j + (if StepsY(i, j, a, b) then 1 else 0), a, b)
  {
    Expand(i, j, a, b);
    var i', j' := i + (if StepsX(i, j, a, b) then 1 else 0), j + (if StepsY(i, j, a, b) then 1 else 0);
    if a >= b {
      assert i' == i + 1;
      assert a * j' - b * i' == a * j - b * i - b + (if j' == j then 0 else a);
      Within(a, b, i', j');
    } else {
      assert j' == j + 1;
      assert a * j' - b * i' == a * j - b * i + a - (if i' == i then 0 else b);
      assert -b <= 2 * (b * i' - a * j') <= b;
      Within(b, a, j', i');
    }
  }

  /** `p` is where the line is after `k` rounds. */
  predicate OnLine(p: Point, k: nat, from: Point, to: Point) {
    OnWay(k, (p.0 - from.0) * Sign(from.0, to.0), (p.1 - from.1) * Sign(from.1, to.1), Abs(to.0 - from.0),
          Abs(to.1 - from.1))
  }

  predicate Touch(p: Point, q: Point) {
    Abs(p.0 - q.0) <= 1 && Abs(p.1 - q.1) <= 1
  }

  /** The pixels of a line so far: each where the line is at its round, and touching the one
      before it by a side or a corner. */
  ghost predicate Traces(path: seq<Point>, from: Point, to: Point) {
    && (forall k :: 0 <= k < |path| ==> OnLine(path[k], k, from, to))
    && (forall k :: 0 < k < |path| ==> Touch(path[k - 1], path[k]))
    && (path != [] ==> path[0] == from)
  }

  /** The error term after `i` and `j` steps. */
  function Error(i: int, j: int, a: int, b: int): int {
    a * (j + 1) - b * (i + 1)
  }

  lemma ErrorSteps(i: int, j: int, a: int, b: int)
    ensures Error(i + 1, j, a, b) == Error(i, j, a, b) - b
    ensures Error(i, j + 1, a, b) == Error(i, j, a, b) + a
    ensures Error(i + 1, j + 1, a, b) == Error(i, j, a, b) - b + a
    ensures StepsX(i, j, a, b) <==> 2 * Error(i, j, a, b) >= -b
    ensures StepsY(i, j, a, b) <==> 2 * Error(i, j, a, b) <= a
  {
    Expand(i, j, a, b);
    Expand(i + 1, j + 1, a, b);
  }

  lemma LineStarts(from: Point, to: Point)
    ensures OnLine(from, 0, from, to)
  {
  }

  /** The line is at `to` exactly after as many rounds as the longer side has steps. */
  lemma LineEnds(p: Point, k: nat, from: Point, to: Point)
    requires OnLine(p, k, from, to)
    ensures k <= Longer(Abs(to.0 - from.0), Abs(to.1 - from.1))
    ensures k == Longer(Abs(to.0 - from.0), Abs(to.1 - from.1)) <==> p == to
  {
    Together(k, (p.0 - from.0) * Sign(from.0, to.0), (p.1 - from.1) * Sign(from.1, to.1), Abs(to.0 - from.0),
          Abs(to.1 - from.1));
  }

  /** A line does not come back to a pixel. */
  lemma Fresh(path: seq<Point>, p: Point, from: Point, to: Point)
    requires Traces(path, from, to) && OnLine(p, |path|, from, to)
    ensures p !in path
  {
    forall k | 0 <= k < |path|
      ensures path[k] != p
    {
      assert OnLine(path[k], k, from, to);
    }
  }

  lemma NoTrace(from: Point, to: Point)
    ensures Traces([], from, to)
  {
  }

  lemma Extended(path: seq<Point>, p: Point, from: Point, to: Point)
    requires Traces(path, from, to) && OnLine(p, |path|, from, to)
    requires if path == [] then p == from else Touch(path[|path| - 1], p)
    ensures Traces(path + [p], from, to)
  {
    hide OnLine;
  }

  lemma LineSteps(p: Point, q: Point, k: nat, from: Point, to: Point, i: int, j: int)
    requires OnLine(p, k, from, to) && k < Longer(Abs(to.0 - from.0), Abs(to.1 - from.1))
    requires i == (p.0 - from.0) * Sign(from.0, to.0) && j == (p.1 - from.1) * Sign(from.1, to.1)
    requires q.0 == if StepsX(i, j, Abs(to.0 - from.0), Abs(to.1 - from.1)) then p.0 + Sign(from.0, to.0) else p.0
    requires q.1 == if StepsY(i, j, Abs(to.0 - from.0), Abs(to.1 - from.1)) then p.1 + Sign(from.1, to.1) else p.1
    ensures OnLine(q, k + 1, from, to) && Touch(p, q)
  {
    hide StepsX, StepsY, OnWay;
    RoundKeeps(k, i, j, Abs(to.0 - from.0), Abs(to.1 - from.1));
  }

  // ── Drawing ─────────────────────────────────────────────────────────────────

  class Image {
    const width: nat
    const height: nat
    const pixels: array2<Color>

    constructor (width: nat, height: nat, color: Color)
      ensures Valid() && fresh(pixels) && this.width == width && this.height == height
      ensures forall x, y :: 0 <= x < width && 0 <= y < height ==> pixels[x, y] == color
    {
      this.width, this.height := width, height;
      pixels := new Color[width, height]((x, y) => color);
    }

    ghost predicate Valid() {
      pixels.Length0 == width && pixels.Length1 == height
    }

    predicate Has(p: Point) {
      0 <= p.0 < width && 0 <= p.1 < height
    }

    /** Blends a pixel; nothing outside the image. */
    method Plot(p: Point, color: Color)
      requires Valid()
      modifies pixels
      ensures forall x, y :: 0 <= x < width && 0 <= y < height ==>
                pixels[x, y] == if p == (x, y) then Blend(old(pixels[x, y]), color) else old(pixels[x, y])
    {
      if Has(p) {
        pixels[p.0, p.1] := Blend(pixels[p.0, p.1], color);
      }
    }

    /** Draws a line between any two points: one pixel for each step of the longer side and one
        more, from end to end. Each is blended once, and no other pixel changes. */
    method Line(from: Point, to: Point, color: Color) returns (ghost path: seq<Point>)
      requires Valid()
      modifies pixels
      ensures |path| == Longer(Abs(to.0 - from.0), Abs(to.1 - from.1)) + 1
      ensures Traces(path, from, to) && path[|path| - 1] == to
      ensures forall x, y :: 0 <= x < width && 0 <= y < height ==>
                pixels[x, y] == if (x, y) in path then Blend(old(pixels[x, y]), color) else old(pixels[x, y])
    {
      hide OnLine, StepsX, StepsY, Blend, Error, Traces, Touch;
      var x, y := from.0, from.1;
      var dx: int, dy: int := Abs(to.0 - x), -Abs(to.1 - y);
      var sx, sy := Sign(x, to.0), Sign(y, to.1);
      var err := dx + dy;
      path := [];
      LineStarts(from, to);
      NoTrace(from, to);
      FirstError(dx, -dy);
      while true
        invariant OnLine((x, y), |path|, from, to) && Traces(path, from, to)
        invariant path == [] ==> (x, y) == from
        invariant path != [] ==> Touch(path[|path| - 1], (x, y))
        invariant err == Error((x - from.0) * sx, (y - from.1) * sy, dx, -dy)
        invariant forall u, v :: 0 <= u < width && 0 <= v < height ==>
                    pixels[u, v] == if (u, v) in path then Blend(old(pixels[u, v]), color) else old(pixels[u, v])
        decreases Longer(dx, -dy) - |path|
      {
        Fresh(path, (x, y), from, to);
        Plot((x, y), color);
        LineEnds((x, y), |path|, from, to);
        ghost var p, k := (x, y), |path|;
        Extended(path, p, from, to);
        path := path + [p];
        if x == to.0 && y == to.1 {
          return;
        }
        ghost var i, j := (x - from.0) * sx, (y - from.1) * sy;
        ErrorSteps(i, j, dx, -dy);
        var e2 := 2 * err;
        if e2 >= dy {
          err := err + dy;
          x := x + sx;
        }
        if e2 <= dx {
          err := err + dx;
          y := y + sy;
        }
        LineSteps(p, (x, y), k, from, to, i, j);
      }
    }
  }

  lemma FirstError(a: int, b: int)
    ensures a - b == Error(0, 0, a, b)
  {
  }

  // ── What a line looks like ──────────────────────────────────────────────────

  /** Every pixel of a line is in the rectangle of its ends, and within half a pixel of the
      straight line between them, along the shorter side; all are different. */
  lemma LineShape(path: seq<Point>, from: Point, to: Point, k: nat, m: nat)
    requires Traces(path, from, to) && k < |path| && m < |path|
    ensures (from.0 <= path[k].0 <= to.0 || to.0 <= path[k].0 <= from.0)
    ensures (from.1 <= path[k].1 <= to.1 || to.1 <= path[k].1 <= from.1)
    ensures var (i, j) := (Abs(path[k].0 - from.0), Abs(path[k].1 - from.1)); Near(i, j, Abs(to.0 - from.0),
              Abs(to.1 - from.1))
    ensures path[k] == path[m] ==> k == m
  {
    hide Near;
    assert OnLine(path[k], k, from, to) && OnLine(path[m], m, from, to);
  }
}
