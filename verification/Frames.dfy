/** Controller frames: the check value computed over bytes with shifts and masks. */
module Frames {
  import opened Crc

  const GC_LENGTH := 12

  type Byte = bv8

  /** The mask of the `j`th bit of a byte, highest first. */
  function Mask8(j: nat): Byte
    requires j < 8
  {
    [0x80, 0x40, 0x20, 0x10, 0x08, 0x04, 0x02, 0x01][j]
  }

  /** The mask of the `j`th bit of a word, highest first. */
  function Mask(j: nat): bv16
    requires j < 16
  {
    [0x8000, 0x4000, 0x2000, 0x1000, 0x0800, 0x0400, 0x0200, 0x0100,
     0x0080, 0x0040, 0x0020, 0x0010, 0x0008, 0x0004, 0x0002, 0x0001][j]
  }

  predicate Has8(b: Byte, m: Byte) {
    b & m != 0
  }

  predicate Has(c: bv16, m: bv16) {
    c & m != 0
  }

  function Bits8(b: Byte): (r: Bits)
    ensures |r| == 8
  {
    seq(8, j requires 0 <= j < 8 => Has8(b, Mask8(j)))
  }

  /** The word `c` holds the bits `w`, highest first. */
  ghost predicate Rep(c: bv16, w: Bits) {
    |w| == 16 && forall j :: 0 <= j < 16 ==> w[j] == Has(c, Mask(j))
  }

  function BitsOf(data: seq<Byte>): (r: Bits)
    ensures |r| == 8 * |data|
  {
    if data == [] then [] else BitsOf(data[..|data| - 1]) + Bits8(data[|data| - 1])
  }

  lemma {:induction false} BitsOfConcat(a: seq<Byte>, b: seq<Byte>)
    ensures BitsOf(a + b) == BitsOf(a) + BitsOf(b)
  {
    hide Bits8;
    if b == [] {
      assert a + b == a;
    } else {
      var n := |b| - 1;
      BitsOfConcat(a, b[..n]);
      assert (a + b)[..|a + b| - 1] == a + b[..n];
    }
  }

  lemma Bits8Unique(a: Byte, b: Byte)
    requires a & 0x80 == b & 0x80 && a & 0x40 == b & 0x40 && a & 0x20 == b & 0x20 && a & 0x10 == b & 0x10
    requires a & 0x08 == b & 0x08 && a & 0x04 == b & 0x04 && a & 0x02 == b & 0x02 && a & 0x01 == b & 0x01
    ensures a == b
  {
  }

  lemma Bits8At(a: Byte, b: Byte, j: nat)
    requires j < 8 && Bits8(a) == Bits8(b)
    ensures Has8(a, Mask8(j)) == Has8(b, Mask8(j))
  {
    assert Bits8(a)[j] == Bits8(b)[j];
  }

  lemma Bits8Injective(a: Byte, b: Byte)
    requires Bits8(a) == Bits8(b)
    ensures a == b
  {
    hide Bits8;
    forall j | 0 <= j < 8
      ensures Has8(a, Mask8(j)) == Has8(b, Mask8(j))
    {
      Bits8At(a, b, j);
    }
    assert Mask8(0) == 0x80 && Mask8(1) == 0x40 && Mask8(2) == 0x20 && Mask8(3) == 0x10;
    assert Mask8(4) == 0x08 && Mask8(5) == 0x04 && Mask8(6) == 0x02 && Mask8(7) == 0x01;
    Bits8Unique(a, b);
  }

  // ---- What the machine operations do to single bits ----

  predicate Single(m: bv16) {
    m != 0 && m & (m - 1) == 0
  }

  lemma MaskSingle(j: nat)
    requires j < 16
    ensures Single(Mask(j))
  {
  }

  lemma MaskNext(j: nat)
    requires j < 15
    ensures Mask(j) == Mask(j + 1) << 1 && Mask(j + 1) <= 0x4000
  {
  }

  lemma UpperMask(j: nat)
    requires j < 8
    ensures Mask(j) == (Mask8(j) as bv16) << 8
  {
  }

  lemma LowerMask(j: nat)
    requires 8 <= j < 16
    ensures Mask(j) == Mask8(j - 8) as bv16
  {
  }

  lemma GeneratorMask(j: nat)
    requires j < 16
    ensures Has(0x1021, Mask(j)) == Tap(j)
  {
  }

  lemma DoubledBit(c: bv16, d: bv16, m: bv16, n: bv16)
    requires d == c << 1 && n == m << 1 && m <= 0x4000
    ensures Has(d, n) == Has(c, m)
  {
  }

  lemma LowestDoubled(c: bv16, d: bv16)
    requires d == c << 1
    ensures !Has(d, 1)
  {
  }

  lemma XorBit(c: bv16, x: bv16, d: bv16, m: bv16)
    requires d == c ^ x && Single(m)
    ensures Has(d, m) == (Has(c, m) != Has(x, m))
  {
  }

  lemma JoinedBit(c: bv16, hi: Byte, lo: Byte, m: Byte, u: bv16, l: bv16)
    requires c == ((hi as bv16) << 8) | (lo as bv16)
    requires u == (m as bv16) << 8 && l == m as bv16
    ensures Has(c, u) == Has8(hi, m) && Has(c, l) == Has8(lo, m)
  {
  }

  lemma SplitJoined(c: bv16, hi: Byte, lo: Byte)
    requires hi as bv16 == c >> 8 && lo as bv16 == c & 0xff
    ensures c == ((hi as bv16) << 8) | (lo as bv16)
  {
  }

  lemma ShiftedJoined(x: bv16, b: Byte)
    requires x == (b as bv16) << 8
    ensures x == ((b as bv16) << 8) | (0 as bv16)
  {
  }

  /** Words are the same if they have the same bits: what differs is below every mask. */
  lemma {:induction false} DiffersBelow(c: bv16, d: bv16, x: bv16, j: nat)
    requires x == c ^ d && j < 16
    requires forall i :: 0 <= i <= j ==> Has(c, Mask(i)) == Has(d, Mask(i))
    ensures x < Mask(j)
  {
    MaskSingle(j);
    XorBit(c, d, x, Mask(j));
    if j == 0 {
      BelowMask(x, 0x8000, 0);
    } else {
      DiffersBelow(c, d, x, j - 1);
      MaskNext(j - 1);
      BelowMask(x, Mask(j), Mask(j - 1));
    }
  }

  lemma BelowMask(x: bv16, m: bv16, n: bv16)
    requires Single(m) && n == m << 1 && (n == 0 || x < n) && !Has(x, m)
    ensures x < m
  {
  }

  lemma SameWord(c: bv16, d: bv16, x: bv16)
    requires x == c ^ d && x < 1
    ensures c == d
  {
  }

  function Doubled(w: Bits): (r: Bits)
    requires |w| == 16
    ensures |r| == 16 && forall j :: 0 <= j < 16 ==> r[j] == (j < 15 && w[j + 1])
  {
    w[1..] + [false]
  }

  function Subtracted(w: Bits): (r: Bits)
    requires |w| == 16
    ensures |r| == 16 && forall j :: 0 <= j < 16 ==> r[j] == (w[j] != Tap(j))
  {
    seq(16, j requires 0 <= j < 16 => w[j] != Tap(j))
  }

  /** The word with some bits added from the top on. */
  function XorTop(w: Bits, b: Bits): (r: Bits)
    requires |w| == 16
    ensures |r| == 16 && forall j :: 0 <= j < 16 ==> r[j] == (w[j] != (j < |b| && b[j]))
  {
    seq(16, j requires 0 <= j < 16 => w[j] != (j < |b| && b[j]))
  }

  lemma RepDoubled(c: bv16, d: bv16, w: Bits)
    requires Rep(c, w) && d == c << 1
    ensures Rep(d, Doubled(w))
  {
    hide Mask, Has;
    forall j | 0 <= j < 16
      ensures Doubled(w)[j] == Has(d, Mask(j))
    {
      if j < 15 {
        MaskNext(j);
        DoubledBit(c, d, Mask(j + 1), Mask(j));
      } else {
        LastMask();
        LowestDoubled(c, d);
      }
    }
  }

  lemma LastMask()
    ensures Mask(15) == 1
  {
  }

  lemma RepSubtracted(c: bv16, d: bv16, w: Bits)
    requires Rep(c, w) && d == c ^ 0x1021
    ensures Rep(d, Subtracted(w))
  {
    hide Mask, Has;
    forall j | 0 <= j < 16
      ensures Subtracted(w)[j] == Has(d, Mask(j))
    {
      MaskSingle(j);
      GeneratorMask(j);
      XorBit(c, 0x1021, d, Mask(j));
    }
  }

  lemma RepXorTop(c: bv16, b: Byte, x: bv16, d: bv16, w: Bits)
    requires Rep(c, w) && x == (b as bv16) << 8 && d == c ^ x
    ensures Rep(d, XorTop(w, Bits8(b)))
  {
    hide Mask, Mask8, Has, Has8, Bits8;
    forall j | 0 <= j < 16
      ensures XorTop(w, Bits8(b))[j] == Has(d, Mask(j))
    {
      MaskSingle(j);
      XorBit(c, x, d, Mask(j));
      ShiftedAt(x, b, j);
    }
  }

  lemma ShiftedAt(x: bv16, b: Byte, j: nat)
    requires x == (b as bv16) << 8 && j < 16
    ensures Has(x, Mask(j)) == (j < 8 && Bits8(b)[j])
  {
    hide Mask, Mask8, Has, Has8;
    ShiftedJoined(x, b);
    JoinedAt(x, b, 0, j);
    NoBit(Mask8(j % 8));
  }

  lemma NoBit(m: Byte)
    ensures !Has8(0, m)
  {
  }

  /** The bits of a word are those of its upper, then of its lower byte. */
  lemma JoinedAt(c: bv16, hi: Byte, lo: Byte, j: nat)
    requires c == ((hi as bv16) << 8) | (lo as bv16) && j < 16
    ensures Has(c, Mask(j)) == if j < 8 then Has8(hi, Mask8(j)) else Has8(lo, Mask8(j - 8))
  {
    hide Mask, Mask8, Has, Has8;
    if j < 8 {
      UpperMask(j);
      JoinedBit(c, hi, lo, Mask8(j), Mask(j), Mask8(j) as bv16);
    } else {
      LowerMask(j);
      JoinedBit(c, hi, lo, Mask8(j - 8), (Mask8(j - 8) as bv16) << 8, Mask(j));
    }
  }

  lemma RepJoined(c: bv16, hi: Byte, lo: Byte)
    requires c == ((hi as bv16) << 8) | (lo as bv16)
    ensures Rep(c, Bits8(hi) + Bits8(lo))
  {
    hide Mask, Mask8, Has, Has8;
    forall j | 0 <= j < 16
      ensures (Bits8(hi) + Bits8(lo))[j] == Has(c, Mask(j))
    {
      JoinedAt(c, hi, lo, j);
    }
  }

  lemma RepUnique(c: bv16, d: bv16, w: Bits)
    requires Rep(c, w) && Rep(d, w)
    ensures c == d
  {
    hide Mask, Has;
    DiffersBelow(c, d, c ^ d, 15);
    LastMask();
    SameWord(c, d, c ^ d);
  }

  lemma RepTop(c: bv16, w: Bits)
    requires Rep(c, w)
    ensures w[0] <==> c & 0x8000 != 0
  {
    assert Mask(0) == 0x8000;
  }

  lemma RepZero()
    ensures Rep(0, ZERO)
  {
  }

  // ---- The inner loop ----

  /** One turn of the loop over the bits of a byte. */
  predicate Turned(c: bv16, d: bv16) {
    d == if c & 0x8000 != 0 then (c << 1) ^ 0x1021 else c << 1
  }

  method Turn(c: bv16) returns (d: bv16)
    ensures Turned(c, d)
  {
    if c & 0x8000 != 0 {
      d := (c << 1) ^ 0x1021;
    } else {
      d := c << 1;
    }
  }

  /** Adding a byte to the upper half of the register. */
  method Enter(c: bv16, b: Byte, ghost w: Bits) returns (d: bv16)
    requires Rep(c, w)
    ensures Rep(d, XorTop(w, Bits8(b)))
  {
    hide Rep, Bits8;
    var x := (b as bv16) << 8;
    d := c ^ x;
    RepXorTop(c, b, x, d, w);
  }

  /** Shifting the word is a step of the register with no bit to add. */
  lemma ShiftIsStep(c: bv16, d: bv16, w: Bits)
    requires Rep(c, w) && Turned(c, d)
    ensures Rep(d, Step(w, false))
  {
    assert |w| == 16;
    hide Rep;
    RepTop(c, w);
    RepDoubled(c, c << 1, w);
    if c & 0x8000 != 0 {
      RepSubtracted(c << 1, d, Doubled(w));
      assert Subtracted(Doubled(w)) == Step(w, false);
    } else {
      assert Doubled(w) == Step(w, false);
    }
  }

  /** Bits added from the top on enter the register one by one. */
  lemma StepOfTop(w: Bits, b: Bits)
    requires |w| == 16 && 0 < |b| <= 16
    ensures Step(XorTop(w, b), false) == XorTop(Step(w, b[0]), b[1..])
  {
  }

  ghost function Remainder(data: seq<Byte>): (r: Bits)
    ensures |r| == 16
  {
    Run(ZERO, BitsOf(data))
  }

  lemma RemainderSnoc(data: seq<Byte>, b: Byte)
    ensures Remainder(data + [b]) == Run(Remainder(data), Bits8(b))
  {
    hide Bits8;
    assert (data + [b])[..|data|] == data;
    RunConcat(ZERO, BitsOf(data), Bits8(b));
  }

  lemma InnerStep(c: bv16, d: bv16, w: Bits, bits: Bits, j: nat)
    requires |w| == 16 && |bits| == 8 && j < 8
    requires Rep(c, XorTop(Run(w, bits[..j]), bits[j..]))
    requires Turned(c, d)
    ensures Rep(d, XorTop(Run(w, bits[..j + 1]), bits[j + 1..]))
  {
    hide Rep, Turned, Run;
    ShiftIsStep(c, d, XorTop(Run(w, bits[..j]), bits[j..]));
    InnerBits(w, bits, j);
  }

  lemma InnerBits(w: Bits, bits: Bits, j: nat)
    requires |w| == 16 && j < |bits| <= 16
    ensures Step(XorTop(Run(w, bits[..j]), bits[j..]), false) == XorTop(Run(w, bits[..j + 1]), bits[j + 1..])
  {
    hide Run, Step, XorTop;
    StepOfTop(Run(w, bits[..j]), bits[j..]);
    RunNext(w, bits, j);
    assert bits[j..][0] == bits[j] && bits[j..][1..] == bits[j + 1..];
  }

  lemma RunNext(w: Bits, bits: Bits, j: nat)
    requires |w| == 16 && j < |bits|
    ensures Run(w, bits[..j + 1]) == Step(Run(w, bits[..j]), bits[j])
  {
    hide Step;
    assert bits[..j + 1][..j] == bits[..j];
  }

  lemma NothingOnTop(w: Bits)
    requires |w| == 16
    ensures XorTop(w, []) == w
  {
  }

  /** The two nested loops that both functions of the driver contain. */
  method Checksum(data: array<Byte>, len: nat) returns (crc: bv16)
    requires len <= data.Length
    ensures Rep(crc, Remainder(data[..len]))
  {
    hide Rep, Turned, Bits8, BitsOf, Run;
    crc := 0;
    RepZero();
    NoBits();
    for i := 0 to len
      invariant Rep(crc, Remainder(data[..i]))
    {
      ghost var w, bits := Remainder(data[..i]), Bits8(data[i]);
      crc := Enter(crc, data[i], w);
      StartOfByte(w, bits);
      for j := 0 to 8
        invariant Rep(crc, XorTop(Run(w, bits[..j]), bits[j..]))
      {
        ghost var before := crc;
        crc := Turn(crc);
        InnerStep(before, crc, w, bits, j);
      }
      EndOfByte(w, bits);
      RemainderSnoc(data[..i], data[i]);
      assert data[..i + 1] == data[..i] + [data[i]];
    }
  }

  lemma NoBits()
    ensures Remainder([]) == ZERO
  {
  }

  lemma StartOfByte(w: Bits, bits: Bits)
    requires |w| == 16 && |bits| == 8
    ensures XorTop(Run(w, bits[..0]), bits[0..]) == XorTop(w, bits)
  {
    assert bits[0..] == bits;
  }

  lemma EndOfByte(w: Bits, bits: Bits)
    requires |w| == 16 && |bits| == 8
    ensures XorTop(Run(w, bits[..8]), bits[8..]) == Run(w, bits)
  {
    assert bits[..8] == bits && bits[8..] == [];
    NothingOnTop(Run(w, bits));
  }

  /** A frame is accepted if its last two bytes are the check value of the others, lower byte first. */
  ghost predicate Accepted(frame: seq<Byte>)
    requires |frame| == GC_LENGTH
  {
    Remainder(frame[..GC_LENGTH - 2]) == Bits8(frame[GC_LENGTH - 1]) + Bits8(frame[GC_LENGTH - 2])
  }

  /** Zero if the frame is accepted, one if not. */
  method CheckCrc16(data: array<Byte>) returns (r: int)
    requires data.Length >= GC_LENGTH
    ensures r == 0 || r == 1
    ensures r == 0 <==> Accepted(data[..GC_LENGTH])
  {
    hide Rep, Bits8, Remainder;
    var len := GC_LENGTH - 2;
    var hi, lo := data[GC_LENGTH - 1], data[GC_LENGTH - 2];
    var ccrc := ((hi as bv16) << 8) | (lo as bv16);
    var crc := Checksum(data, len);
    RepJoined(ccrc, hi, lo);
    assert data[..GC_LENGTH][..len] == data[..len];
    RepDecides(crc, ccrc, Remainder(data[..len]), Bits8(hi) + Bits8(lo));
    r := if crc == ccrc then 0 else 1;
  }

  lemma RepSame(c: bv16, v: Bits, w: Bits)
    requires Rep(c, v) && Rep(c, w)
    ensures v == w
  {
  }

  lemma RepDecides(c: bv16, d: bv16, v: Bits, w: Bits)
    requires Rep(c, v) && Rep(d, w)
    ensures c == d <==> v == w
  {
    hide Rep;
    if v == w {
      RepUnique(c, d, v);
    } else if c == d {
      RepSame(c, v, w);
      assert false;
    }
  }

  /** Writes the check value behind the message; message and check value together then leave no remainder. */
  method CalcCrc16(data: array<Byte>, len: nat)
    requires len + 2 <= data.Length
    modifies data
    ensures data[..len] == old(data[..len]) && data[len + 2..] == old(data[len + 2..])
    ensures Bits8(data[len]) + Bits8(data[len + 1]) == Remainder(data[..len])
    ensures Remainder(data[..len + 2]) == ZERO
  {
    hide Rep, Bits8, Remainder;
    var crc := Checksum(data, len);
    FitsByte(crc);
    var hi, lo := (crc >> 8) as Byte, (crc & 0xff) as Byte;
    SplitJoined(crc, hi, lo);
    RepJoined(crc, hi, lo);
    RepSame(crc, Remainder(data[..len]), Bits8(hi) + Bits8(lo));
    data[len] := hi;
    data[len + 1] := lo;
    assert data[..len] == old(data[..len]);
    assert data[..len + 2] == data[..len] + [hi, lo];
    TrailerLeavesNothing(data[..len], hi, lo);
  }

  lemma FitsByte(c: bv16)
    ensures c >> 8 <= 0xff && c & 0xff <= 0xff
  {
  }

  lemma TrailerLeavesNothing(data: seq<Byte>, hi: Byte, lo: Byte)
    requires Bits8(hi) + Bits8(lo) == Remainder(data)
    ensures Remainder(data + [hi, lo]) == ZERO
  {
    hide Bits8;
    BitsOfConcat(data, [hi, lo]);
    assert [hi, lo] == [hi] + [lo];
    BitsOfConcat([hi], [lo]);
    assert BitsOf([hi]) == Bits8(hi) && BitsOf([lo]) == Bits8(lo) by {
      assert [hi][..0] == [] && [lo][..0] == [];
      assert BitsOf([]) + Bits8(hi) == Bits8(hi) && BitsOf([]) + Bits8(lo) == Bits8(lo);
    }
    AppendedRemainder(BitsOf(data));
  }

  // ---- What the check detects ----

  /** Two bytes that differ have different bits. */
  lemma BitsOfTwo(a: Byte, b: Byte)
    ensures BitsOf([a, b]) == Bits8(a) + Bits8(b)
  {
    hide Bits8;
    assert [a, b] == [a] + [b];
    BitsOfConcat([a], [b]);
    assert [a][..0] == [] && [b][..0] == [];
    assert BitsOf([]) + Bits8(a) == Bits8(a) && BitsOf([]) + Bits8(b) == Bits8(b);
  }

  /** An accepted frame in which one payload byte, or two adjacent ones, are changed is never accepted. */
  lemma ChangeRejected(frame: seq<Byte>, i: nat, a: Byte, b: Byte)
    requires |frame| == GC_LENGTH && Accepted(frame)
    requires i + 1 < GC_LENGTH - 2 && (a != frame[i] || b != frame[i + 1])
    ensures !Accepted(frame[i := a][i + 1 := b])
  {
    hide Bits8, BitsOf, Run;
    var before, after := frame[..i], frame[i + 2..GC_LENGTH - 2];
    var c, d := frame[i], frame[i + 1];
    var changed := frame[i := a][i + 1 := b];
    assert frame[..GC_LENGTH - 2] == before + [c, d] + after;
    assert changed[..GC_LENGTH - 2] == before + [a, b] + after;
    ThreeParts(before, [c, d], after);
    ThreeParts(before, [a, b], after);
    BitsOfTwo(a, b);
    BitsOfTwo(c, d);
    if Bits8(a) + Bits8(b) == Bits8(c) + Bits8(d) {
      assert Bits8(a) == (Bits8(a) + Bits8(b))[..8] && Bits8(c) == (Bits8(c) + Bits8(d))[..8];
      assert Bits8(b) == (Bits8(a) + Bits8(b))[8..] && Bits8(d) == (Bits8(c) + Bits8(d))[8..];
      Bits8Injective(a, c);
      Bits8Injective(b, d);
      assert false;
    }
    BurstDetected(BitsOf(before), BitsOf([c, d]), BitsOf([a, b]), BitsOf(after));
  }

  lemma ThreeParts(x: seq<Byte>, y: seq<Byte>, z: seq<Byte>)
    ensures BitsOf(x + y + z) == BitsOf(x) + BitsOf(y) + BitsOf(z)
  {
    BitsOfConcat(x + y, z);
    BitsOfConcat(x, y);
  }

  /** The two halves of the payload's remainder are the same. */
  ghost predicate EvenRemainder(payload: seq<Byte>) {
    Remainder(payload)[..8] == Remainder(payload)[8..]
  }

  /**
   * The driver writes its own check value upper byte first: as a frame it would be accepted exactly for the
   * payloads whose remainder has two equal halves.
   */
  lemma OwnTrailerOrder(payload: seq<Byte>, hi: Byte, lo: Byte)
    requires |payload| == GC_LENGTH - 2 && Bits8(hi) + Bits8(lo) == Remainder(payload)
    ensures Accepted(payload + [hi, lo]) <==> EvenRemainder(payload)
    ensures Accepted(payload + [lo, hi])
    ensures EvenRemainder(payload) <==> hi == lo
  {
    hide Bits8, Remainder;
    var frame := payload + [hi, lo];
    assert frame[..GC_LENGTH - 2] == payload && (payload + [lo, hi])[..GC_LENGTH - 2] == payload;
    var r := Remainder(payload);
    assert r[..8] == Bits8(hi) && r[8..] == Bits8(lo);
    if EvenRemainder(payload) {
      Bits8Injective(hi, lo);
    }
    assert (Bits8(lo) + Bits8(hi))[..8] == Bits8(lo);
  }

  /** The driver's two functions put together: it accepts its own frame for just those payloads. */
  method OwnFrame(data: array<Byte>) returns (r: int)
    requires data.Length >= GC_LENGTH
    modifies data
    ensures data[..GC_LENGTH - 2] == old(data[..GC_LENGTH - 2]) && data[GC_LENGTH..] == old(data[GC_LENGTH..])
    ensures r == 0 <==> EvenRemainder(old(data[..GC_LENGTH - 2]))
  {
    hide Bits8, Remainder, Accepted, EvenRemainder;
    var len := GC_LENGTH - 2;
    CalcCrc16(data, len);
    assert data[..GC_LENGTH] == data[..len] + [data[len], data[len + 1]];
    OwnTrailerOrder(data[..len], data[len], data[len + 1]);
    r := CheckCrc16(data);
  }

  // ---- A frame that the driver would not accept from itself ----

  function Example(): seq<Byte> {
    [0, 0, 0, 0, 0, 0, 0, 0, 0, 1]
  }

  lemma {:induction false} ZerosLeaveZero(n: nat)
    ensures Run(ZERO, Zeros(n)) == ZERO
  {
    if n > 0 {
      ZerosLeaveZero(n - 1);
      assert Zeros(n)[..n - 1] == Zeros(n - 1);
      assert Step(ZERO, false) == ZERO;
    }
  }

  lemma {:induction false} ZeroBytes(data: seq<Byte>)
    requires forall i :: 0 <= i < |data| ==> data[i] == 0
    ensures BitsOf(data) == Zeros(8 * |data|)
  {
    if data != [] {
      ZeroBytes(data[..|data| - 1]);
      assert Bits8(0) == Zeros(8);
    }
  }

  lemma ExampleRemainder()
    ensures Remainder(Example()) == Bits8(0x10) + Bits8(0x21)
  {
    var data := Example();
    ZeroBytes(data[..9]);
    assert Bits8(1) == Zeros(7) + [true];
    assert BitsOf(data) == Zeros(79) + [true];
    assert BitsOf(data)[..79] == Zeros(79);
    ZerosLeaveZero(79);
    assert Remainder(data) == Step(ZERO, true);
  }

  /** With the check value in the driver's own order the frame is rejected, with the bytes exchanged it is accepted. */
  lemma OwnTrailerRejected()
    ensures Remainder(Example()) == Bits8(0x10) + Bits8(0x21)
    ensures !Accepted(Example() + [0x10, 0x21]) && Accepted(Example() + [0x21, 0x10])
  {
    hide Bits8, Remainder, Accepted, EvenRemainder;
    ExampleRemainder();
    OwnTrailerOrder(Example(), 0x10, 0x21);
  }
}
