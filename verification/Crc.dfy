/**
 * The 16-bit cyclic redundancy check of the game controller frames, as polynomial division over
 * single bits. Bit sequences have the highest coefficient first.
 */
module Crc {

  type Bits = seq<bool>

  /** Besides the leading one, x^16 + x^12 + x^5 + 1 has ones in these three places of sixteen. */
  predicate Tap(j: int) {
    j == 3 || j == 10 || j == 15
  }

  ghost predicate Word(w: Bits) {
    |w| == 16
  }

  const ZERO: Bits := [false, false, false, false, false, false, false, false, false, false, false, false, false, false,
                       false, false]

  // ---- Division ----

  predicate At(q: Bits, i: int) {
    0 <= i < |q| && q[i]
  }

  /** Coefficient `i` of the product of `q` and the generator. */
  predicate Product(q: Bits, i: int) {
    At(q, i) != (At(q, i - 4) != (At(q, i - 11) != At(q, i - 16)))
  }

  /** The message times x^16 is the quotient times the generator plus the remainder. */
  ghost predicate IsDivision(m: Bits, q: Bits, r: Bits) {
    && |q| == |m| && Word(r)
    && (forall i :: 0 <= i < |m| ==> Product(q, i) == m[i])
    && forall j :: 0 <= j < 16 ==> Product(q, |m| + j) == r[j]
  }

  /** Quotient and remainder are determined by the message. */
  lemma DivisionUnique(m: Bits, q: Bits, r: Bits, q': Bits, r': Bits)
    requires IsDivision(m, q, r) && IsDivision(m, q', r')
    ensures q == q' && r == r'
  {
    SameQuotient(m, q, r, q', r', |m|);
    assert q[..|m|] == q && q'[..|m|] == q';
    assert forall j :: 0 <= j < 16 ==> r[j] == Product(q, |m| + j) && r'[j] == Product(q', |m| + j);
  }

  lemma {:induction false} SameQuotient(m: Bits, q: Bits, r: Bits, q': Bits, r': Bits, n: nat)
    requires IsDivision(m, q, r) && IsDivision(m, q', r') && n <= |m|
    ensures q[..n] == q'[..n]
  {
    if n > 0 {
      SameQuotient(m, q, r, q', r', n - 1);
      assert forall k :: k < n - 1 ==> At(q, k) == At(q', k) by {
        forall k | k < n - 1
          ensures At(q, k) == At(q', k)
        {
          if k >= 0 {
            assert q[..n - 1][k] == q'[..n - 1][k];
          }
        }
      }
      assert Product(q, n - 1) == m[n - 1] == Product(q', n - 1);
    }
  }

  // ---- The shift register ----

  /** One bit goes in: the register moves up, and what falls out is subtracted as a multiple of the generator. */
  function Step(w: Bits, b: bool): (r: Bits)
    requires |w| == 16
    ensures |r| == 16
    ensures forall j :: 0 <= j < 16 ==> r[j] == ((j < 15 && w[j + 1]) != ((w[0] != b) && Tap(j)))
  {
    seq(16, j requires 0 <= j < 16 => (j < 15 && w[j + 1]) != ((w[0] != b) && Tap(j)))
  }

  function Run(w: Bits, m: Bits): (r: Bits)
    requires |w| == 16
    ensures |r| == 16
  {
    if m == [] then w else Step(Run(w, m[..|m| - 1]), m[|m| - 1])
  }

  /** What falls out of the register, bit by bit. */
  function Tops(w: Bits, m: Bits): (q: Bits)
    requires |w| == 16
    ensures |q| == |m|
  {
    if m == [] then [] else Tops(w, m[..|m| - 1]) + [Run(w, m[..|m| - 1])[0] != m[|m| - 1]]
  }

  lemma {:induction false} RunConcat(w: Bits, a: Bits, b: Bits)
    requires |w| == 16
    ensures Run(w, a + b) == Run(Run(w, a), b)
  {
    if b == [] {
      assert a + b == a;
    } else {
      RunConcat(w, a, b[..|b| - 1]);
      assert (a + b)[..|a + b| - 1] == a + b[..|b| - 1];
    }
  }

  /** The register holds the remainder, and what has fallen out of it is the quotient. */
  lemma {:induction false} RegisterDivides(m: Bits)
    ensures IsDivision(m, Tops(ZERO, m), Run(ZERO, m))
  {
    if m != [] {
      var n := |m| - 1;
      RegisterDivides(m[..n]);
      DivisionStep(m[..n], Tops(ZERO, m[..n]), Run(ZERO, m[..n]), m[n]);
      assert m == m[..n] + [m[n]];
    }
  }

  lemma DivisionStep(m: Bits, q: Bits, r: Bits, b: bool)
    requires IsDivision(m, q, r)
    ensures IsDivision(m + [b], q + [r[0] != b], Step(r, b))
  {
    var n := |m|;
    var q', r' := q + [r[0] != b], Step(r, b);
    forall i
      ensures At(q', i) == if i == n then r[0] != b else At(q, i)
    {
    }
    assert Product(q, n + 0) == r[0];
    assert !At(q, n);
    forall i | 0 <= i < n
      ensures Product(q', i) == m[i]
    {
      assert Product(q, i) == m[i];
    }
    forall j | 0 <= j < 16
      ensures Product(q', n + 1 + j) == r'[j]
    {
      if j < 15 {
        assert Product(q, n + (j + 1)) == r[j + 1];
      }
    }
  }

  // ---- Linearity ----

  function Xor(a: Bits, b: Bits): (r: Bits)
    requires |a| == |b|
    ensures |r| == |a| && forall i :: 0 <= i < |r| ==> r[i] == (a[i] != b[i])
  {
    seq(|a|, i requires 0 <= i < |a| => a[i] != b[i])
  }

  lemma StepLinear(w: Bits, v: Bits, a: bool, b: bool)
    requires Word(w) && Word(v)
    ensures Step(Xor(w, v), a != b) == Xor(Step(w, a), Step(v, b))
  {
  }

  /** The remainder of a difference is the difference of the remainders. */
  lemma {:induction false} RunLinear(w: Bits, v: Bits, a: Bits, b: Bits)
    requires Word(w) && Word(v) && |a| == |b|
    ensures Run(Xor(w, v), Xor(a, b)) == Xor(Run(w, a), Run(v, b))
  {
    if a != [] {
      var n := |a| - 1;
      RunLinear(w, v, a[..n], b[..n]);
      assert Xor(a, b)[..n] == Xor(a[..n], b[..n]);
      StepLinear(Run(w, a[..n]), Run(v, b[..n]), a[n], b[n]);
    } else {
      assert Xor(a, b) == [];
    }
  }

  // ---- A message followed by its remainder ----

  function Zeros(n: nat): (z: Bits)
    ensures |z| == n && forall i :: 0 <= i < n ==> !z[i]
  {
    seq(n, _ => false)
  }

  lemma {:induction false} RunOwn(w: Bits, n: nat)
    requires Word(w) && n <= 16
    ensures Run(w, w[..n]) == w[n..] + Zeros(n)
  {
    if n > 0 {
      RunOwn(w, n - 1);
      assert w[..n][..n - 1] == w[..n - 1];
      var before, after := w[n - 1..] + Zeros(n - 1), w[n..] + Zeros(n);
      assert Run(w, w[..n]) == Step(before, w[n - 1]);
      assert forall j :: 0 <= j < 16 ==> Step(before, w[n - 1])[j] == after[j];
    } else {
      assert w[..0] == [] && w[0..] + Zeros(0) == w;
    }
  }

  /** A message with its remainder appended leaves no remainder. */
  lemma AppendedRemainder(m: Bits)
    ensures Run(ZERO, m + Run(ZERO, m)) == ZERO
  {
    var r := Run(ZERO, m);
    RunConcat(ZERO, m, r);
    RunOwn(r, 16);
    assert r[..16] == r;
  }

  // ---- Errors are detected ----

  ghost predicate AgreeFrom(w: Bits, v: Bits, k: nat)
    requires |w| == |v| == 16
  {
    forall j :: k <= j < 16 ==> w[j] == v[j]
  }

  /** Going back one bit: what fell out was the same, and the registers agreed from one place later on. */
  lemma StepBack(w: Bits, v: Bits, a: bool, b: bool, k: nat)
    requires Word(w) && Word(v) && k < 16 && AgreeFrom(Step(w, a), Step(v, b), k)
    ensures (w[0] != a) == (v[0] != b)
    ensures AgreeFrom(w, v, k + 1)
  {
    assert Step(w, a)[15] == Step(v, b)[15];
    forall j | k + 1 <= j < 16
      ensures w[j] == v[j]
    {
      assert Step(w, a)[j - 1] == Step(v, b)[j - 1];
    }
  }

  lemma {:induction false} SameTops(w: Bits, v: Bits, a: Bits, b: Bits, k: nat)
    requires Word(w) && Word(v) && |a| == |b| && k + |a| <= 16
    requires AgreeFrom(Run(w, a), Run(v, b), k)
    ensures Tops(w, a) == Tops(v, b)
  {
    if a != [] {
      var n := |a| - 1;
      StepBack(Run(w, a[..n]), Run(v, b[..n]), a[n], b[n], k);
      SameTops(w, v, a[..n], b[..n], k + 1);
    }
  }

  /** From the same register, what falls out determines what went in. */
  lemma {:induction false} TopsDetermine(w: Bits, a: Bits, b: Bits)
    requires Word(w) && |a| == |b| && Tops(w, a) == Tops(w, b)
    ensures a == b
  {
    if a != [] {
      var n := |a| - 1;
      assert Tops(w, a)[..n] == Tops(w, a[..n]) && Tops(w, b)[..n] == Tops(w, b[..n]);
      TopsDetermine(w, a[..n], b[..n]);
      assert Tops(w, a)[n] == Tops(w, b)[n];
      assert a == a[..n] + [a[n]] && b == b[..n] + [b[n]];
    }
  }

  lemma {:induction false} RunInjective(w: Bits, v: Bits, m: Bits)
    requires Word(w) && Word(v) && Run(w, m) == Run(v, m)
    ensures w == v
  {
    if m != [] {
      var n := |m| - 1;
      StepBack(Run(w, m[..n]), Run(v, m[..n]), m[n], m[n], 0);
      assert Run(w, m[..n]) == Run(v, m[..n]);
      RunInjective(w, v, m[..n]);
    }
  }

  /** Two messages that differ, but only within sixteen consecutive bits, have different remainders. */
  lemma BurstDetected(before: Bits, a: Bits, b: Bits, after: Bits)
    requires |a| == |b| <= 16 && a != b
    ensures Run(ZERO, before + a + after) != Run(ZERO, before + b + after)
  {
    var w := Run(ZERO, before);
    RunConcat(ZERO, before + a, after);
    RunConcat(ZERO, before + b, after);
    RunConcat(ZERO, before, a);
    RunConcat(ZERO, before, b);
    if Run(ZERO, before + a + after) == Run(ZERO, before + b + after) {
      RunInjective(Run(w, a), Run(w, b), after);
      SameTops(w, w, a, b, 0);
      TopsDetermine(w, a, b);
      assert false;
    }
  }
}
