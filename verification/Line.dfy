/** Drawing a straight line into the frame buffer, pixel by pixel. */
module Line {
  import opened Collections

  const WIDTH := 320
  const HEIGHT := 240

  /** A 16-bit colour. */
  type Color = c: int | 0 <= c < 0x1_0000

  datatype Pixel = Pixel(x: int, y: int)

  predicate OnScreen(p: Pixel) {
    0 <= p.x < WIDTH && 0 <= p.y < HEIGHT
  }

  function Index(p: Pixel): nat
    requires OnScreen(p)
  {
    p.y * WIDTH + p.x
  }

  /**
   * A pixel is within half a unit of the line from `p` to `q`, measured along the axis on which the
   * line is shorter: twice the cross product is at most the extent on the other axis.
   */
  predicate Near(p: Pixel, q: Pixel, z: Pixel) {
    2 * Abs((q.x - p.x) * (z.y - p.y) - (q.y - p.y) * (z.x - p.x)) <= Max(Abs(q.x - p.x), Abs(q.y - p.y))
  }

  predicate Between(a: int, b: int, c: int) {
    a <= b <= c || c <= b <= a
  }

  function Sign(from: int, to: int): int {
    if from < to then 1 else -1
  }

  /** `n` steps from one coordinate towards another. */
  function Along(from: int, to: int, n: nat): int {
    if from < to then from + n else from - n
  }

  // ---- The deviation from the ideal line, after a steps in x and b steps in y ----

  ghost function Deviation(dx: nat, dy: nat, a: nat, b: nat): int {
    dx * b - dy * a
  }

  ghost predicate Close(dx: nat, dy: nat, a: nat, b: nat) {
    -Max(dx, dy) <= 2 * Deviation(dx, dy, a, b) <= Max(dx, dy)
  }

  lemma DeviationStep(dx: nat, dy: nat, a: nat, b: nat)
    ensures Deviation(dx, dy, a + 1, b) == Deviation(dx, dy, a, b) - dy
    ensures Deviation(dx, dy, a, b + 1) == Deviation(dx, dy, a, b) + dx
    ensures Deviation(dx, dy, a + 1, b + 1) == Deviation(dx, dy, a, b) + dx - dy
  {
  }

  /** Along the longer axis every step moves; along the other one only as far as the line does. */
  lemma StepStaysClose(dx: nat, dy: nat, a: nat, b: nat)
    requires Close(dx, dy, a, b)
    ensures var e2 := 2 * (Deviation(dx, dy, a, b) + dx - dy);
            var a' := if e2 + dy >= 0 then a + 1 else a;
            var b' := if e2 <= dx then b + 1 else b;
            && Close(dx, dy, a', b')
            && (dx >= dy ==> a' == a + 1)
            && (dy >= dx ==> b' == b + 1)
  {
    DeviationStep(dx, dy, a, b);
    hide Deviation;
  }

  /** A close position does not overshoot: the shorter axis ends exactly when the longer one does. */
  lemma CloseStaysInside(dx: nat, dy: nat, a: nat, b: nat)
    requires Close(dx, dy, a, b) && dx + dy > 0
    requires if dx >= dy then a <= dx else b <= dy
    ensures a <= dx && b <= dy
    ensures dx >= dy && a == dx ==> b == dy
    ensures dy >= dx && b == dy ==> a == dx
  {
    if dx >= dy {
      LongerAxis(dx, dy, a, b);
    }
    if dy >= dx && b <= dy {
      LongerAxis(dy, dx, b, a);
    }
  }

  lemma LongerAxis(c: nat, d: nat, i: nat, j: nat)
    requires 0 < c && i <= c && 0 - c <= 2 * (c * j - d * i) <= c
    ensures j <= d && (i == c ==> j == d)
  {
    Product(d, i, c);
    assert c * (2 * j) <= c * (2 * d + 1);
    Quotient(c, 2 * j, 2 * d + 1);
    if i == c {
      assert c * (2 * d) <= c * (2 * j + 1);
      Quotient(c, 2 * d, 2 * j + 1);
    }
  }

  lemma Quotient(c: nat, a: int, b: int)
    requires 0 < c && c * a <= c * b
    ensures a <= b
  {
    if a > b {
      Product(c, b + 1, a);
      assert false;
    }
  }

  lemma Product(c: nat, a: int, b: int)
    requires a <= b
    ensures c * a <= c * b
  {
  }

  /** The position after a steps in x and b steps in y. */
  ghost function Moved(p: Pixel, q: Pixel, a: nat, b: nat): Pixel {
    Pixel(Along(p.x, q.x, a), Along(p.y, q.y, b))
  }

  lemma CloseIsNear(p: Pixel, q: Pixel, a: nat, b: nat)
    requires Close(Abs(q.x - p.x), Abs(q.y - p.y), a, b)
    ensures Near(p, q, Moved(p, q, a, b))
  {
    var dx, dy := Abs(q.x - p.x), Abs(q.y - p.y);
    var sx, sy := Sign(p.x, q.x), Sign(p.y, q.y);
    var cross := (q.x - p.x) * (sy * b) - (q.y - p.y) * (sx * a);
    Signs(sx, sy, dx, b);
    Signs(sy, sx, dy, a);
    assert q.x - p.x == sx * dx && q.y - p.y == sy * dy;
    assert cross == if sx == sy then Deviation(dx, dy, a, b) else -Deviation(dx, dy, a, b);
  }

  lemma Signs(s: int, t: int, d: int, n: int)
    requires s in {-1, 1} && t in {-1, 1}
    ensures (s * d) * (t * n) == if s == t then d * n else -(d * n)
  {
    Negate(d, n);
    Negate(n, d);
    Negate(-d, n);
  }

  lemma Negate(a: int, b: int)
    ensures a * (-b) == -(a * b)
  {
  }

  /** Inside the box that the two end points span, and near the line between them. */
  predicate OnLine(p: Pixel, q: Pixel, z: Pixel) {
    Between(p.x, z.x, q.x) && Between(p.y, z.y, q.y) && Near(p, q, z)
  }

  lemma InsideIsOnLine(p: Pixel, q: Pixel, a: nat, b: nat)
    requires a <= Abs(q.x - p.x) && b <= Abs(q.y - p.y)
    requires Close(Abs(q.x - p.x), Abs(q.y - p.y), a, b)
    ensures OnLine(p, q, Moved(p, q, a, b))
    ensures Moved(p, q, a, b) == q <==> a == Abs(q.x - p.x) && b == Abs(q.y - p.y)
  {
    hide Near, Close;
    CloseIsNear(p, q, a, b);
  }

  /** One pixel for each unit of the longer axis, in order, from one end to wherever the pen is. */
  ghost predicate Trace(p: Pixel, q: Pixel, plotted: seq<Pixel>) {
    && (forall k :: 0 <= k < |plotted| ==> OnLine(p, q, plotted[k]))
    && (Abs(q.x - p.x) >= Abs(q.y - p.y) ==> forall k :: 0 <= k < |plotted| ==> plotted[k].x == Along(p.x, q.x, k))
    && (Abs(q.y - p.y) >= Abs(q.x - p.x) ==> forall k :: 0 <= k < |plotted| ==> plotted[k].y == Along(p.y, q.y, k))
    && (forall k :: 0 < k < |plotted| ==>
       Abs(plotted[k].x - plotted[k - 1].x) <= 1 && Abs(plotted[k].y - plotted[k - 1].y) <= 1)
  }

  /** The buffer holds the colour at the plotted pixels that are on the screen, and is unchanged elsewhere. */
  ghost predicate Painted(before: seq<Color>, after: seq<Color>, plotted: seq<Pixel>, color: Color) {
    && |before| == |after| == WIDTH * HEIGHT
    && forall z :: OnScreen(z) ==> after[Index(z)] == if z in plotted then color else before[Index(z)]
  }

  lemma IndexUnique(y: Pixel, z: Pixel)
    requires OnScreen(y) && OnScreen(z)
    ensures 0 <= Index(z) < WIDTH * HEIGHT && Index(z) == z.y * 320 + z.x
    ensures Index(y) == Index(z) ==> y == z
  {
  }

  /** Rows lie one behind the other in the buffer. */
  lemma PaintedPlaces(before: seq<Color>, after: seq<Color>, plotted: seq<Pixel>, color: Color)
    requires Painted(before, after, plotted, color)
    ensures |before| == |after| == 320 * 240
    ensures forall i :: 0 <= i < |after| ==>
              after[i] == if Pixel(i % 320, i / 320) in plotted then color else before[i]
  {
    forall i | 0 <= i < |after|
      ensures after[i] == if Pixel(i % 320, i / 320) in plotted then color else before[i]
    {
      var z := Pixel(i % 320, i / 320);
      assert OnScreen(z) && Index(z) == i;
    }
  }

  lemma PaintNext(before: seq<Color>, after: seq<Color>, plotted: seq<Pixel>, color: Color, z: Pixel)
    requires Painted(before, after, plotted, color)
    requires OnScreen(z) ==> Index(z) < |after|
    ensures Painted(before, if OnScreen(z) then after[Index(z) := color] else after, plotted + [z], color)
  {
    hide Index;
    forall y | OnScreen(y)
      ensures Index(y) < |after| && (OnScreen(z) && Index(y) == Index(z) ==> y == z)
    {
      IndexUnique(y, y);
      if OnScreen(z) {
        IndexUnique(y, z);
      }
    }
  }

  /** Draws a pixel if it is on the screen. */
  method DrawPixelSafe(buffer: array<Color>, x: int, y: int, color: Color)
    requires buffer.Length == WIDTH * HEIGHT
    modifies buffer
    ensures OnScreen(Pixel(x, y)) ==>
            Index(Pixel(x, y)) < buffer.Length && buffer[..] == old(buffer[..])[Index(Pixel(x, y)) := color]
    ensures !OnScreen(Pixel(x, y)) ==> buffer[..] == old(buffer[..])
    ensures forall i :: 0 <= i < buffer.Length ==>
              buffer[i] == if 0 <= x < 320 && 0 <= y < 240 && i == y * 320 + x then color else old(buffer[i])
  {
    if 0 <= x && x < WIDTH && 0 <= y && y < HEIGHT {
      IndexUnique(Pixel(x, y), Pixel(x, y));
      buffer[y * WIDTH + x] := color;
    }
  }

  /** The pen after k steps, and the error term that goes with it. */
  ghost predicate PenAt(p: Pixel, q: Pixel, z: Pixel, err: int, a: nat, b: nat, k: nat) {
    var dx, dy := Abs(q.x - p.x), Abs(q.y - p.y);
    && a <= dx && b <= dy && Close(dx, dy, a, b)
    && err == Deviation(dx, dy, a, b) + dx - dy
    && z == Moved(p, q, a, b)
    && (dx >= dy ==> a == k) && (dy >= dx ==> b == k)
  }

  lemma PenStarts(p: Pixel, q: Pixel)
    ensures PenAt(p, q, p, Abs(q.x - p.x) - Abs(q.y - p.y), 0, 0, 0)
  {
  }

  /** One turn of the loop, unless the end has been reached. */
  lemma PenSteps(p: Pixel, q: Pixel, z: Pixel, err: int, a: nat, b: nat, k: nat) returns (a': nat, b': nat)
    requires PenAt(p, q, z, err, a, b, k) && z != q
    ensures var dx, dy := Abs(q.x - p.x), Abs(q.y - p.y);
            var goX, goY := 2 * err + dy >= 0, 2 * err <= dx;
            && a' == (if goX then a + 1 else a) && b' == (if goY then b + 1 else b)
            && PenAt(p, q, Pixel(if goX then z.x + Sign(p.x, q.x) else z.x, if goY then z.y + Sign(p.y, q.y) else z.y),
                     err - (if goX then dy else 0) + (if goY then dx else 0), a', b', k + 1)
  {
    hide Close, Deviation;
    var dx, dy := Abs(q.x - p.x), Abs(q.y - p.y);
    a' := if 2 * err + dy >= 0 then a + 1 else a;
    b' := if 2 * err <= dx then b + 1 else b;
    NotAtEnd(p, q, a, b);
    StepStaysClose(dx, dy, a, b);
    DeviationStep(dx, dy, a, b);
    CloseStaysInside(dx, dy, a', b');
  }

  /** Short of the end, the pen is short of the end of the longer axis. */
  lemma NotAtEnd(p: Pixel, q: Pixel, a: nat, b: nat)
    requires a <= Abs(q.x - p.x) && b <= Abs(q.y - p.y)
    requires Close(Abs(q.x - p.x), Abs(q.y - p.y), a, b) && Moved(p, q, a, b) != q
    ensures Abs(q.x - p.x) + Abs(q.y - p.y) > 0
    ensures Abs(q.x - p.x) >= Abs(q.y - p.y) ==> a < Abs(q.x - p.x)
    ensures Abs(q.y - p.y) >= Abs(q.x - p.x) ==> b < Abs(q.y - p.y)
  {
    if Abs(q.x - p.x) + Abs(q.y - p.y) > 0 {
      CloseStaysInside(Abs(q.x - p.x), Abs(q.y - p.y), a, b);
    }
  }

  lemma TraceGrows(p: Pixel, q: Pixel, plotted: seq<Pixel>, z: Pixel, err: int, a: nat, b: nat)
    requires Trace(p, q, plotted) && PenAt(p, q, z, err, a, b, |plotted|)
    requires plotted != [] ==> Abs(z.x - plotted[|plotted| - 1].x) <= 1 && Abs(z.y - plotted[|plotted| - 1].y) <= 1
    ensures Trace(p, q, plotted + [z])
  {
    hide OnLine, Close, Deviation, Near, Along;
    InsideIsOnLine(p, q, a, b);
    var all := plotted + [z];
    assert forall k :: 0 <= k < |plotted| ==> all[k] == plotted[k];
  }

  /** None of the intermediate values exceeds three times the longer extent. */
  lemma ErrorFits(p: Pixel, q: Pixel, z: Pixel, err: int, a: nat, b: nat, k: nat)
    requires PenAt(p, q, z, err, a, b, k)
    ensures Abs(2 * err) <= 3 * Max(Abs(q.x - p.x), Abs(q.y - p.y))
  {
    hide Deviation, Moved;
  }

  /**
   * Draws a line: one pixel for each unit of the longer axis, from the first point to the last, all
   * of them in the box and within half a unit of the line; nothing else changes on the screen.
   */
  method DrawLine(buffer: array<Color>, x0: int, y0: int, x1: int, y1: int, color: Color)
    returns (ghost plotted: seq<Pixel>)
    requires buffer.Length == WIDTH * HEIGHT
    modifies buffer
    ensures |plotted| == Max(Abs(x1 - x0), Abs(y1 - y0)) + 1
    ensures plotted[0] == Pixel(x0, y0) && plotted[|plotted| - 1] == Pixel(x1, y1)
    ensures Trace(Pixel(x0, y0), Pixel(x1, y1), plotted)
    ensures Painted(old(buffer[..]), buffer[..], plotted, color)
    ensures forall i :: 0 <= i < buffer.Length ==>
              buffer[i] == if Pixel(i % 320, i / 320) in plotted then color else old(buffer[i])
  {
    hide Painted, Trace, PenAt, Index;
    ghost var p, q := Pixel(x0, y0), Pixel(x1, y1);
    var dx, sx := Abs(x1 - x0), if x0 < x1 then 1 else -1;
    var dy, sy := -Abs(y1 - y0), if y0 < y1 then 1 else -1;
    var err := dx + dy;
    var x, y := x0, y0;
    ghost var a, b := 0, 0;
    plotted := [];
    PenStarts(p, q);
    NothingYet(p, q, buffer[..], color);
    while true
      invariant PenAt(p, q, Pixel(x, y), err, a, b, |plotted|)
      invariant plotted != [] ==>
                plotted[0] == p && Abs(x - plotted[|plotted| - 1].x) <= 1 && Abs(y - plotted[|plotted| - 1].y) <= 1
      invariant plotted == [] ==> x == x0 && y == y0
      invariant Trace(p, q, plotted)
      invariant Painted(old(buffer[..]), buffer[..], plotted, color)
      decreases Max(dx, -dy) - |plotted|
    {
      ghost var z := Pixel(x, y);
      TraceGrows(p, q, plotted, z, err, a, b);
      PenBound(p, q, z, err, a, b, |plotted|);
      ghost var before := buffer[..];
      DrawPixelSafe(buffer, x, y, color);
      PaintNext(old(buffer[..]), before, plotted, color, z);
      plotted := plotted + [z];
      if x == x1 && y == y1 {
        PaintedPlaces(old(buffer[..]), buffer[..], plotted, color);
        break;
      }
      a, b := PenSteps(p, q, z, err, a, b, |plotted| - 1);
      var e2 := 2 * err;
      if e2 >= dy {
        err := err + dy;
        x := x + sx;
      }
      if e2 <= dx {
        err := err + dx;
        y := y + sy;
      }
    }
  }

  lemma NothingYet(p: Pixel, q: Pixel, buffer: seq<Color>, color: Color)
    requires |buffer| == WIDTH * HEIGHT
    ensures Trace(p, q, []) && Painted(buffer, buffer, [], color)
  {
  }

  lemma PenBound(p: Pixel, q: Pixel, z: Pixel, err: int, a: nat, b: nat, k: nat)
    requires PenAt(p, q, z, err, a, b, k)
    ensures k <= Max(Abs(q.x - p.x), Abs(q.y - p.y))
    ensures z == q <==> k == Max(Abs(q.x - p.x), Abs(q.y - p.y))
  {
    if z != q {
      NotAtEnd(p, q, a, b);
    }
  }
}
