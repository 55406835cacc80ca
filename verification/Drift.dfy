/**
 * Correcting clock drift in an audio stream: a buffer is filled from a few frames more or fewer than
 * it has room for, by leaving out or repeating single frames at regular distances.
 */
module Drift {
  import opened Collections

  /** One sample for each of the two channels, in units of 1/32768. */
  type Frame = (int, int)

  /** How many frames to read beyond those there is room for, by how many milliseconds we are late. */
  function AddFrames(age: real): int {
    if age > 0.1 then -((-age).Floor) else if age < -0.1 then age.Floor else 0
  }

  /** Every how many frames one is left out or repeated; zero for never. */
  function EveryN(readFrames: int, addFrames: int): int {
    if addFrames == 0 then 0 else (readFrames + Abs(addFrames)) / (Abs(addFrames) + 1)
  }

  /** It is the quotient, rounded up. */
  lemma EveryNRoundsUp(readFrames: int, addFrames: int)
    requires addFrames != 0
    ensures var n := EveryN(readFrames, addFrames);
            (n - 1) * (Abs(addFrames) + 1) < readFrames <= n * (Abs(addFrames) + 1)
    ensures readFrames > 0 ==> EveryN(readFrames, addFrames) >= 1
  {
    var d := Abs(addFrames) + 1;
    var n := EveryN(readFrames, addFrames);
    var x := readFrames + d - 1;
    assert x == n * d + x % d;
    assert (n - 1) * d == n * d - d;
    if readFrames > 0 && n <= 0 {
      Scale(d, n, 0);
      assert false;
    }
  }

  lemma AddFramesBound(age: real)
    requires -5.0 <= age <= 5.0
    ensures -5 <= AddFrames(age) <= 5
    ensures AddFrames(age) > 0 <==> age > 0.1
    ensures AddFrames(age) < 0 <==> age < -0.1
    ensures age > 0.1 ==> (AddFrames(age) - 1) as real < age <= AddFrames(age) as real
    ensures age < -0.1 ==> AddFrames(age) as real <= age < (AddFrames(age) + 1) as real
  {
  }

  /** Before the last frame, exactly as many corrections are due as frames are to be added or left out. */
  lemma CorrectionsDue(frames: nat, addFrames: int)
    requires frames > 30 && -5 <= addFrames <= 5 && addFrames != 0
    ensures var r := frames + addFrames; var n := EveryN(r, addFrames);
            && n >= 2
            && (r - 1) / n == Abs(addFrames)
            && (r / n == Abs(addFrames) || r / n == Abs(addFrames) + 1)
            && (r / n == Abs(addFrames) + 1 <==> r % n == 0)
  {
    var r := frames + addFrames;
    var n := EveryN(r, addFrames);
    Due(r, n, Abs(addFrames));
    DivUnique(r - 1, n, Abs(addFrames), r - 1 - Abs(addFrames) * n);
    if r == (Abs(addFrames) + 1) * n {
      DivUnique(r, n, Abs(addFrames) + 1, 0);
    } else {
      DivUnique(r, n, Abs(addFrames), r - Abs(addFrames) * n);
    }
  }

  lemma Due(r: nat, n: nat, a: nat)
    requires 1 <= a <= 5 && r >= 26 && n == (r + a) / (a + 1)
    ensures n >= 2 && a * n <= r - 1 < (a + 1) * n
    ensures a * n + n == (a + 1) * n
  {
    if a == 1 {} else if a == 2 {} else if a == 3 {} else if a == 4 {} else {}
  }

  lemma DivUnique(x: int, d: int, q: int, t: int)
    requires d > 0 && x == q * d + t && 0 <= t < d
    ensures x / d == q && x % d == t
  {
    var q' := x / d;
    assert x == q' * d + x % d;
    if q' > q {
      Scale(d, q + 1, q');
      assert false;
    } else if q' < q {
      Scale(d, q' + 1, q);
      assert false;
    }
  }

  lemma Scale(d: int, a: int, b: int)
    requires d > 0 && a <= b
    ensures a * d <= b * d
  {
  }

  // ---- Where each frame of the buffer comes from ----

  /** Corrections leave something to show: not every frame is left out. */
  predicate Spaced(addFrames: int, n: nat) {
    (addFrames > 0 ==> n >= 2) && (addFrames < 0 ==> n >= 1)
  }

  /** The frame that place `p` shows, counted from the first frame read. */
  function Source(p: int, addFrames: int, n: nat): int
    requires Spaced(addFrames, n)
  {
    if addFrames > 0 then p + p / (n - 1) else if addFrames < 0 then p - (p + 1) / (n + 1) else p
  }

  /** Where the next frame goes after `r` of them. */
  function Cursor(r: nat, addFrames: int, n: nat): int
    requires addFrames != 0 ==> n >= 1
  {
    if addFrames > 0 then r - r / n else if addFrames < 0 then r + r / n else r
  }

  /**
   * The place shows frame `r` exactly if the cursor is there; a repeated frame fills the next place too, one
   * left out fills none.
   */
  lemma SourceInverse(p: int, r: nat, addFrames: int, n: nat)
    requires p >= 0 && (Spaced(addFrames, n))
    ensures Source(p, addFrames, n) == r <==>
            if addFrames > 0 then p == Cursor(r, addFrames, n) && (r + 1) % n != 0
            else if addFrames < 0
                    then p == Cursor(r, addFrames, n) || (p == Cursor(r, addFrames, n) + 1 && (r + 1) % n == 0)
            else p == r
  {
    if addFrames > 0 {
      DropInverse(p, r, n);
    } else if addFrames < 0 {
      RepeatInverse(p, r, n);
    }
  }

  lemma NextRemainder(r: nat, n: nat)
    requires n >= 1
    ensures (r + 1) % n == 0 <==> r % n == n - 1
    ensures (r + 1) / n == if (r + 1) % n == 0 then r / n + 1 else r / n
  {
    var k, t := r / n, r % n;
    assert r == k * n + t;
    if t == n - 1 {
      assert (k + 1) * n == k * n + n;
      DivUnique(r + 1, n, k + 1, 0);
    } else {
      DivUnique(r + 1, n, k, t + 1);
    }
  }

  lemma DropInverse(p: int, r: nat, n: nat)
    requires p >= 0 && n >= 2
    ensures p + p / (n - 1) == r <==> p == r - r / n && (r + 1) % n != 0
  {
    if p + p / (n - 1) == r {
      DropSource(p, r, n);
    }
    if p == r - r / n && (r + 1) % n != 0 {
      DropPlace(p, r, n);
    }
  }

  lemma DropSource(p: int, r: nat, n: nat)
    requires p >= 0 && n >= 2 && p + p / (n - 1) == r
    ensures p == r - r / n && (r + 1) % n != 0
  {
    NextRemainder(r, n);
    var j, u := p / (n - 1), p % (n - 1);
    assert p == j * (n - 1) + u;
    OneLess(j, n);
    DivUnique(r, n, j, u);
  }

  lemma DropPlace(p: int, r: nat, n: nat)
    requires p >= 0 && n >= 2 && p == r - r / n && (r + 1) % n != 0
    ensures p + p / (n - 1) == r
  {
    NextRemainder(r, n);
    var k, t := r / n, r % n;
    assert r == k * n + t;
    OneLess(k, n);
    DivUnique(p, n - 1, k, t);
  }

  lemma RepeatInverse(p: int, r: nat, n: nat)
    requires p >= 0 && n >= 1
    ensures p - (p + 1) / (n + 1) == r <==> p == r + r / n || (p == r + r / n + 1 && (r + 1) % n == 0)
  {
    if p - (p + 1) / (n + 1) == r {
      RepeatSource(p, r, n);
    }
    if p == r + r / n || (p == r + r / n + 1 && (r + 1) % n == 0) {
      RepeatPlace(p, r, n);
    }
  }

  lemma RepeatSource(p: int, r: nat, n: nat)
    requires p >= 0 && n >= 1 && p - (p + 1) / (n + 1) == r
    ensures p == r + r / n || (p == r + r / n + 1 && (r + 1) % n == 0)
  {
    NextRemainder(r, n);
    var j, u := (p + 1) / (n + 1), (p + 1) % (n + 1);
    assert p + 1 == j * (n + 1) + u;
    assert j * (n + 1) == j * n + j;
    if u >= 1 {
      DivUnique(r, n, j, u - 1);
    } else {
      assert (j - 1) * n == j * n - n;
      DivUnique(r, n, j - 1, n - 1);
    }
  }

  lemma RepeatPlace(p: int, r: nat, n: nat)
    requires p >= 0 && n >= 1
    requires p == r + r / n || (p == r + r / n + 1 && (r + 1) % n == 0)
    ensures p - (p + 1) / (n + 1) == r
  {
    NextRemainder(r, n);
    var k, t := r / n, r % n;
    assert r == k * n + t;
    assert k * (n + 1) == k * n + k && (k + 1) * (n + 1) == k * n + n + k + 1;
    if p == r + k {
      DivUnique(p + 1, n + 1, k, t + 1);
    } else {
      DivUnique(p + 1, n + 1, k + 1, 0);
    }
  }

  // ---- What the buffer shows after some frames ----

  /**
   * What place `p` shows once the frames `s` have been placed: its source frame, or silence. Right after
   * a frame that is to be left out, the next place shows that frame until it is overwritten. If every
   * frame is to be left out, they overwrite each other in the first place.
   */
  function Placed(s: seq<Frame>, p: int, addFrames: int, n: nat): Frame
    requires addFrames != 0 ==> n >= 1
  {
    if p < 0 then (0, 0)
    else if addFrames > 0 && n == 1 then if p == 0 && s != [] then s[|s| - 1] else (0, 0)
    else
      var i := Source(p, addFrames, n);
      if 0 <= i < |s| then s[i]
      else if addFrames > 0 && s != [] && i == |s| && |s| % n == 0 then s[|s| - 1]
      else (0, 0)
  }

  /** The places that the next frame is written to. */
  predicate Written(r: nat, p: int, addFrames: int, n: nat)
    requires addFrames != 0 ==> n >= 1
  {
    p == Cursor(r, addFrames, n) || (addFrames < 0 && p == Cursor(r, addFrames, n) + 1 && (r + 1) % n == 0)
  }

  lemma CursorNext(r: nat, addFrames: int, n: nat)
    requires addFrames != 0 ==> n >= 1
    ensures Cursor(r + 1, addFrames, n) ==
            Cursor(r, addFrames, n) + if addFrames == 0 || (r + 1) % n != 0 then 1 else if addFrames > 0 then 0 else 2
    ensures Cursor(r, addFrames, n) >= 0
  {
    if addFrames != 0 {
      NextRemainder(r, n);
      QuotientBelow(r, n);
    }
  }

  lemma QuotientBelow(r: nat, n: nat)
    requires n >= 1
    ensures 0 <= r / n <= r
  {
    if r / n > r {
      Scale(n, r + 1, r / n);
      assert false;
    }
  }

  /** Once `r` frames have been placed, the places before the cursor are those that show one of them. */
  lemma {:induction false} BeforeCursor(p: nat, r: nat, addFrames: int, n: nat)
    requires Spaced(addFrames, n)
    ensures p < Cursor(r, addFrames, n) <==> Source(p, addFrames, n) < r
    ensures Source(p, addFrames, n) >= 0
  {
    if r == 0 {
      SourceMonotone(0, p, addFrames, n);
      if addFrames > 0 {
        DivUnique(0, n - 1, 0, 0);
        DivUnique(0, n, 0, 0);
      } else if addFrames < 0 {
        DivUnique(1, n + 1, 0, 1);
        DivUnique(0, n, 0, 0);
      }
    } else {
      BeforeCursor(p, r - 1, addFrames, n);
      SourceInverse(p, r - 1, addFrames, n);
      CursorNext(r - 1, addFrames, n);
      hide Source, Cursor;
    }
  }

  lemma PlacedNext(s: seq<Frame>, x: Frame, p: int, addFrames: int, n: nat)
    requires addFrames != 0 ==> n >= 1
    ensures Placed(s + [x], p, addFrames, n) == if Written(|s|, p, addFrames, n) then x else Placed(s, p, addFrames, n)
  {
    CursorNext(|s|, addFrames, n);
    if addFrames > 0 && n == 1 {
      DivUnique(|s|, 1, |s|, 0);
    } else if p >= 0 {
      SourceInverse(p, |s|, addFrames, n);
      if addFrames > 0 {
        SourceInverse(p, |s| + 1, addFrames, n);
        NextRemainder(|s|, n);
        NextRemainder(|s| + 1, n);
      }
      hide Source, Cursor;
    }
  }

  // ---- The whole buffer ----

  /** A correction that is small and a buffer that is large enough for it. */
  predicate Fits(frames: nat, addFrames: int) {
    frames > 30 && -5 <= addFrames <= 5
  }

  function Spacing(frames: nat, addFrames: int): (n: nat)
    requires Fits(frames, addFrames)
    ensures addFrames != 0 ==> n >= 2
  {
    if addFrames != 0 then
      CorrectionsDue(frames, addFrames);
      EveryN(frames + addFrames, addFrames)
    else EveryN(frames + addFrames, addFrames)
  }

  /** The frame that a place shows when all frames have been placed. */
  function Shown(frames: nat, addFrames: int, p: int): int
    requires Fits(frames, addFrames)
  {
    var i := Source(p, addFrames, Spacing(frames, addFrames));
    if i < frames + addFrames then i else frames + addFrames - 1
  }

  /** The last place shows the last frame read, and only there the source may lie one frame further on. */
  lemma SourceEnds(frames: nat, addFrames: int)
    requires Fits(frames, addFrames)
    ensures var n := Spacing(frames, addFrames);
            && Source(0, addFrames, n) == 0
            && Source(frames - 2, addFrames, n) <= frames + addFrames - (if addFrames < 0 then 1 else 2)
            && frames + addFrames - 1 <= Source(frames - 1, addFrames, n) <= frames + addFrames
            && (Source(frames - 1, addFrames, n) == frames + addFrames ==>
               addFrames > 0 && (frames + addFrames) % n == 0)
  {
    if addFrames > 0 {
      DropEnds(frames, addFrames);
    } else if addFrames < 0 {
      RepeatEnds(frames, -addFrames);
    }
  }

  lemma DropEnds(frames: nat, a: nat)
    requires Fits(frames, a) && a > 0
    ensures var n := Spacing(frames, a);
            && 0 / (n - 1) == 0
            && (frames - 2) / (n - 1) <= a
            && a <= (frames - 1) / (n - 1) <= a + 1
            && ((frames - 1) / (n - 1) == a + 1 ==> (frames + a) % n == 0)
  {
    var n, r := Spacing(frames, a), frames + a;
    Due(r, n, a);
    OneLess(a, n);
    OneLess(a + 1, n);
    DropQuotients(frames - 1, a, n - 1);
    if (frames - 1) / (n - 1) == a + 1 {
      DivUnique(r, n, a + 1, 0);
    }
  }

  lemma OneLess(a: int, n: int)
    ensures a * (n - 1) == a * n - a
  {
  }

  lemma DropQuotients(x: nat, a: nat, d: nat)
    requires d > 0 && x > 0 && a * d <= x <= (a + 1) * d
    ensures 0 / d == 0 && (x - 1) / d <= a && a <= x / d <= a + 1
    ensures x / d == a + 1 ==> x == (a + 1) * d
  {
    assert (a + 1) * d == a * d + d;
    DivUnique(0, d, 0, 0);
    if x == (a + 1) * d {
      DivUnique(x, d, a + 1, 0);
      DivUnique(x - 1, d, a, d - 1);
    } else {
      DivUnique(x, d, a, x - a * d);
      Below(x - 1, x, d);
    }
  }

  lemma Below(x: nat, y: nat, d: nat)
    requires d > 0 && x <= y
    ensures x / d <= y / d
  {
    if x / d > y / d {
      Scale(d, y / d + 1, x / d);
      assert false;
    }
  }

  lemma RepeatEnds(frames: nat, b: int)
    requires b > 0 && Fits(frames, -b)
    ensures var n := Spacing(frames, -b);
            && 1 / (n + 1) == 0
            && frames / (n + 1) == b
            && (frames - 1) / (n + 1) == b
  {
    var n, r := Spacing(frames, -b), frames - b;
    Due(r, n, b);
    var d := n + 1;
    assert b * d == b * n + b && (b + 1) * d == b * d + d;
    DivUnique(1, d, 0, 1);
    DivUnique(frames, d, b, frames - b * d);
    DivUnique(frames - 1, d, b, frames - 1 - b * d);
  }

  /** From one place to the next the source moves on by one frame, or by two or none at a correction. */
  lemma SourceSteps(p: nat, addFrames: int, n: nat)
    requires Spaced(addFrames, n)
    ensures var d := Source(p + 1, addFrames, n) - Source(p, addFrames, n);
            d == 1 || (addFrames > 0 && d == 2) || (addFrames < 0 && d == 0)
  {
    if addFrames > 0 {
      NextQuotient(p, n - 1);
    } else if addFrames < 0 {
      NextQuotient(p + 1, n + 1);
    }
  }

  lemma NextQuotient(x: nat, d: nat)
    requires d > 0
    ensures (x + 1) / d == x / d || (x + 1) / d == x / d + 1
  {
    var q, t := x / d, x % d;
    if t == d - 1 {
      assert (q + 1) * d == q * d + d;
      DivUnique(x + 1, d, q + 1, 0);
    } else {
      DivUnique(x + 1, d, q, t + 1);
    }
  }

  lemma {:induction false} SourceMonotone(p: nat, q: nat, addFrames: int, n: nat)
    requires p <= q && (Spaced(addFrames, n))
    ensures Source(p, addFrames, n) <= Source(q, addFrames, n)
  {
    if p < q {
      SourceMonotone(p, q - 1, addFrames, n);
      SourceSteps(q - 1, addFrames, n);
    }
  }

  lemma ShownSteps(frames: nat, addFrames: int, p: nat)
    requires Fits(frames, addFrames) && p + 1 < frames
    ensures var d := Shown(frames, addFrames, p + 1) - Shown(frames, addFrames, p);
            d == 1 || (addFrames > 0 && d == 2) || (addFrames < 0 && d == 0)
  {
    var n := Spacing(frames, addFrames);
    SourceEnds(frames, addFrames);
    SourceSteps(p, addFrames, n);
    SourceMonotone(p, frames - 2, addFrames, n);
    SourceMonotone(p + 1, frames - 1, addFrames, n);
    if p + 1 < frames - 1 {
      SourceMonotone(p + 1, frames - 2, addFrames, n);
    }
    hide Source;
  }

  /** How often, among the first `m` places, the next place does not show the next frame. */
  ghost function Irregular(frames: nat, addFrames: int, m: nat): int
    requires Fits(frames, addFrames)
  {
    if m <= 1 then 0
    else
      var regular := Shown(frames, addFrames, m - 1) == Shown(frames, addFrames, m - 2) + 1;
      Irregular(frames, addFrames, m - 1) + if regular then 0 else 1
  }

  lemma {:induction false} IrregularSteps(frames: nat, addFrames: int, m: nat)
    requires Fits(frames, addFrames) && 1 <= m <= frames
    ensures Shown(frames, addFrames, m - 1) ==
            m - 1 + if addFrames > 0 then Irregular(frames, addFrames, m)
              else if addFrames < 0 then -Irregular(frames, addFrames, m) else 0
  {
    if m == 1 {
      SourceEnds(frames, addFrames);
    } else {
      IrregularSteps(frames, addFrames, m - 1);
      ShownSteps(frames, addFrames, m - 2);
      hide Shown;
    }
  }

  /**
   * The buffer shows the frames read from the first to the last, in order; exactly as many of them as
   * asked for are left out, or repeated, each one singly.
   */
  lemma ExactlyCorrected(frames: nat, addFrames: int)
    requires Fits(frames, addFrames)
    ensures Shown(frames, addFrames, 0) == 0
    ensures Shown(frames, addFrames, frames - 1) == frames + addFrames - 1
    ensures addFrames != 0 ==> Irregular(frames, addFrames, frames) == Abs(addFrames)
  {
    SourceEnds(frames, addFrames);
    IrregularSteps(frames, addFrames, frames);
    hide Source, Irregular;
  }

  /**
   * The corrections are at regular distances: of the frames before the last, exactly every `n`th one is left out, or
   * shown in two places, and all others are shown.
   */
  lemma CorrectedAt(frames: nat, addFrames: int, r: nat)
    requires Fits(frames, addFrames) && addFrames != 0 && r + 1 < frames + addFrames
    ensures var n := Spacing(frames, addFrames);
            && (addFrames > 0 ==>
               ((r + 1) % n != 0 <==> exists p: nat :: p < frames && Shown(frames, addFrames, p) == r))
            && (addFrames < 0 ==>
               && (exists p: nat :: p < frames && Shown(frames, addFrames, p) == r)
               && ((r + 1) % n == 0 <==> exists p: nat :: ShownTwice(frames, addFrames, p, r)))
  {
    var n := Spacing(frames, addFrames);
    var c := Cursor(r, addFrames, n);
    CursorInside(frames, addFrames, r);
    CursorInside(frames, addFrames, r + 1);
    CursorNext(r, addFrames, n);
    forall p: nat
      ensures Shown(frames, addFrames, p) == r <==> Source(p, addFrames, n) == r
    {
    }
    hide Shown, Cursor, Spacing, Source;
    forall p: nat
      ensures Source(p, addFrames, n) == r <==> if addFrames > 0 then p == c && (r + 1) % n != 0
                                                else p == c || (p == c + 1 && (r + 1) % n == 0)
    {
      SourceInverse(p, r, addFrames, n);
    }
    if (r + 1) % n != 0 || addFrames < 0 {
      assert Shown(frames, addFrames, c) == r;
    }
    if (r + 1) % n == 0 && addFrames < 0 {
      assert ShownTwice(frames, addFrames, c, r);
    }
  }

  ghost predicate ShownTwice(frames: nat, addFrames: int, p: nat, r: nat)
    requires Fits(frames, addFrames)
  {
    p + 1 < frames && Shown(frames, addFrames, p) == r && Shown(frames, addFrames, p + 1) == r
  }

  /**
   * What a place shows when too few frames `s` were queued: its source frame if there is one, and silence
   * otherwise. If the whole length has been read nothing is cleared, and a frame to be left out that was
   * read last is still shown.
   */
  function ShownShort(s: seq<Frame>, frames: nat, addFrames: int, p: nat): Frame
    requires Fits(frames, addFrames)
  {
    var n := Spacing(frames, addFrames);
    var i := Source(p, addFrames, n);
    if 0 <= i < |s| then s[i]
    else if frames <= |s| && addFrames > 0 && i == |s| && |s| % n == 0 then s[|s| - 1]
    else (0, 0)
  }

  /** Clearing the places from the cursor on, unless the whole length has been read, leaves just that. */
  lemma ClearedIsShort(s: seq<Frame>, frames: nat, addFrames: int, p: nat, x: Frame)
    requires Fits(frames, addFrames)
    requires var n := Spacing(frames, addFrames);
             x == if |s| < frames && p >= Cursor(|s|, addFrames, n) then (0, 0) else Placed(s, p, addFrames, n)
    ensures x == ShownShort(s, frames, addFrames, p)
  {
    var n := Spacing(frames, addFrames);
    BeforeCursor(p, |s|, addFrames, n);
    hide Source, Cursor, Spacing;
  }

  /** When all frames have been placed, every place of the buffer shows its frame. */
  lemma BufferFull(frames: nat, addFrames: int, s: seq<Frame>, p: nat)
    requires Fits(frames, addFrames) && |s| == frames + addFrames && p < frames
    ensures 0 <= Shown(frames, addFrames, p) < |s|
    ensures Placed(s, p, addFrames, Spacing(frames, addFrames)) == s[Shown(frames, addFrames, p)]
  {
    var n := Spacing(frames, addFrames);
    SourceEnds(frames, addFrames);
    SourceMonotone(0, p, addFrames, n);
    SourceMonotone(p, frames - 1, addFrames, n);
    if p < frames - 1 {
      SourceMonotone(p, frames - 2, addFrames, n);
    }
    hide Source;
  }

  /** No frame is written behind the end of the buffer, except that a repetition may touch the place right behind it. */
  lemma {:induction false} CursorInside(frames: nat, addFrames: int, r: nat)
    requires Fits(frames, addFrames) && r < frames + addFrames
    ensures 0 <= Cursor(r, addFrames, Spacing(frames, addFrames)) < frames
    decreases frames + addFrames - r
  {
    var n := Spacing(frames, addFrames);
    CursorNext(r, addFrames, n);
    if r + 1 < frames + addFrames {
      CursorInside(frames, addFrames, r + 1);
    } else if addFrames != 0 {
      CorrectionsDue(frames, addFrames);
    }
  }
}
