/** Bit lists determine words; doubling and bit reversal in terms of them. */
module Reflection {
  import opened Polynomials
  import opened Crc32
  import opened CrcDivision

  function Reverse(p: Poly): (r: Poly)
    ensures |r| == |p|
  {
    seq(|p|, i requires 0 <= i < |p| => p[|p| - 1 - i])
  }

  // ---- words are determined by their bits ----

  lemma ZeroByHalves(x: bv32)
    requires Half(x) == 0 && !Low(x)
    ensures x == 0
  {}

  lemma {:induction false} NoBits(x: bv32, n: nat)
    requires Iterate(Half, x, n) == 0 && forall i :: 0 <= i < n ==> !Unfold(Low, Half, x, n)[i]
    ensures x == 0
    decreases n
  {
    if n != 0 {
      var u := Unfold(Low, Half, x, n);
      assert !u[0];
      assert u[1..] == Unfold(Low, Half, Half(x), n - 1);
      NoBits(Half(x), n - 1);
      ZeroByHalves(x);
    }
  }

  lemma XorEqual(a: bv32, b: bv32)
    requires Xor(a, b) == 0
    ensures a == b
  {}

  lemma BitsInjective(a: bv32, b: bv32)
    requires Bits(a) == Bits(b)
    ensures a == b
  {
    BitsXor(a, b);
    HalvesAll(Xor(a, b));
    NoBits(Xor(a, b), 32);
    XorEqual(a, b);
  }

  // ---- doubling ----

  function Double(w: bv32): (r: bv32) { w << 1 }

  function TopOf(w: bv32): (r: bv32) { w & 0x8000_0000 }

  lemma DoubleEven(w: bv32)
    ensures !Low(Double(w))
  {}

  lemma HalfDouble(w: bv32)
    ensures Half(Double(w)) == Xor(w, TopOf(w))
  {}

  lemma TopOfCases(w: bv32)
    ensures TopOf(w) == 0 || TopOf(w) == 0x8000_0000
  {}

  lemma TopByte()
    ensures Unfold(Low, Half, 0x80, 8) == [false, false, false, false, false, false, false, true]
  {}

  lemma LowBytes()
    ensures Unfold(Low, Half, 0x8000_0000, 8) == Zeros(8)
    ensures Unfold(Low, Half, 0x80_0000, 8) == Zeros(8)
    ensures Unfold(Low, Half, 0x8000, 8) == Zeros(8)
  {}

  lemma JoinBytes(a: Poly, b: Poly, c: Poly, d: Poly)
    requires a == b == c == Zeros(8) && d == [false, false, false, false, false, false, false, true]
    ensures a + b + c + d == Zeros(31) + [true]
  {}

  lemma TopBit()
    ensures Bits(0x8000_0000) == Zeros(31) + [true]
  {
    var t: bv32 := 0x8000_0000;
    BitsOfBytes(t);
    TopDrops();
    LowBytes();
    TopByte();
    JoinBytes(Unfold(Low, Half, t, 8), Unfold(Low, Half, DropByte(t), 8),
              Unfold(Low, Half, DropByte(DropByte(t)), 8), Unfold(Low, Half, DropByte(DropByte(DropByte(t))), 8));
  }

  lemma TopDrops()
    ensures DropByte(0x8000_0000) == 0x80_0000 && DropByte(0x80_0000) == 0x8000 && DropByte(0x8000) == 0x80
  {}

  lemma TopOfBits(w: bv32)
    ensures Bits(TopOf(w))[..31] == Zeros(31)
  {
    TopOfCases(w);
    TopBit();
    ZeroBits();
  }

  lemma PlusZeros(p: Poly, q: Poly, n: nat)
    requires |p| == |q| >= n && q[..n] == Zeros(n)
    ensures Plus(p, q)[..n] == p[..n]
  {
    forall i | 0 <= i < n ensures !q[i] { assert q[..n][i] == q[i]; }
  }

  lemma UnfoldTake<T>(head: T -> bool, tail: T -> T, x: T, m: nat, n: nat)
    ensures Unfold(head, tail, x, m + n)[..m] == Unfold(head, tail, x, m)
  {
    UnfoldSplit(head, tail, x, m, n);
  }

  /** Doubling drops the trailing coefficient and prepends a zero. */
  lemma BitsDouble(w: bv32)
    ensures Bits(Double(w)) == [false] + Bits(w)[..31]
  {
    var top := TopOf(w);
    DoubleEven(w);
    HalfDouble(w);
    BitsXor(w, top);
    TopOfBits(w);
    PlusZeros(Bits(w), Bits(top), 31);
    UnfoldTake(Low, Half, Xor(w, top), 31, 1);
  }

  lemma HalfBit(bit: bool)
    ensures Half(BitWord(bit)) == 0 && Low(BitWord(bit)) == bit
  {}

  lemma OneBits(bit: bool)
    ensures Bits(BitWord(bit)) == [bit] + Zeros(31)
  {
    ZeroBits();
    HalfBit(bit);
    UnfoldTake(Low, Half, 0, 31, 1);
    assert Zeros(32)[..31] == Zeros(31);
  }

  lemma ReverseSnoc(p: Poly, b: bool)
    ensures Reverse(p + [b]) == [b] + Reverse(p)
  {}

  lemma ReverseTwice(p: Poly)
    ensures Reverse(Reverse(p)) == p
  {}

  // ---- setting one bit ----

  function Or(a: bv32, b: bv32): (r: bv32) { a | b }

  function Either(p: Poly, q: Poly): (r: Poly)
    requires |p| == |q|
  {
    seq(|p|, i requires 0 <= i < |p| => p[i] || q[i])
  }

  lemma {:induction false} UnfoldEither<T(!new)>(head: T -> bool, tail: T -> T, op: (T, T) -> T, x: T, y: T, n: nat)
    requires forall a, b :: head(op(a, b)) == (head(a) || head(b))
    requires forall a, b :: tail(op(a, b)) == op(tail(a), tail(b))
    ensures Unfold(head, tail, op(x, y), n) == Either(Unfold(head, tail, x, n), Unfold(head, tail, y, n))
    decreases n
  {
    if n != 0 {
      UnfoldEither(head, tail, op, tail(x), tail(y), n - 1);
    }
  }

  lemma LowOr()
    ensures forall a, b :: Low(Or(a, b)) == (Low(a) || Low(b))
  {}

  lemma HalfOr()
    ensures forall a, b :: Half(Or(a, b)) == Or(Half(a), Half(b))
  {}

  lemma BitsOr(a: bv32, b: bv32)
    ensures Bits(Or(a, b)) == Either(Bits(a), Bits(b))
  {
    LowOr();
    HalfOr();
    UnfoldEither(Low, Half, Or, a, b, 32);
  }

  lemma NextPower(p: nat)
    requires p < 31
    ensures (1 as bv32) << (p + 1) == Double((1 as bv32) << p)
  {
    if p < 8 {
    } else if p < 16 {
    } else if p < 24 {
    } else {
    }
  }

  function Power(p: nat): (w: bv32) {
    if p == 0 then 1 else Double(Power(p - 1))
  }

  lemma {:induction false} PowerIsShift(p: nat)
    requires p < 32
    ensures Power(p) == (1 as bv32) << p
    decreases p
  {
    if p != 0 {
      PowerIsShift(p - 1);
      NextPower(p - 1);
    }
  }

  lemma OneHotStep(p: nat)
    requires 0 < p < 32
    ensures [false] + (Zeros(p - 1) + [true] + Zeros(32 - p))[..31] == Zeros(p) + [true] + Zeros(31 - p)
  {}

  /** Power(p) has exactly bit p. */
  lemma {:induction false} PowerBits(p: nat)
    requires p < 32
    ensures Bits(Power(p)) == Zeros(p) + [true] + Zeros(31 - p)
    decreases p
  {
    if p == 0 {
      OneBits(true);
      assert Zeros(0) + [true] + Zeros(31) == [true] + Zeros(31);
    } else {
      PowerBits(p - 1);
      BitsDouble(Power(p - 1));
      OneHotStep(p);
    }
  }

  // ---- the reflected and the unreflected shift register ----

  const POLYNOMIAL: bv32 := 0x04c1_1db7

  /** One step of the unreflected register: the highest power sits in bit 31. */
  function ShiftUp(t: bv32): (r: bv32) {
    Xor(Double(t), if t & 0x8000_0000 != 0 then POLYNOMIAL else 0)
  }

  lemma PolynomialByte0()
    ensures Unfold(Low, Half, 0x04c11db7, 8) == [true, true, true, false, true, true, false, true]
  {}

  lemma PolynomialByte1()
    ensures Unfold(Low, Half, 0x04c11d, 8) == [true, false, true, true, true, false, false, false]
  {}

  lemma PolynomialByte2()
    ensures Unfold(Low, Half, 0x04c1, 8) == [true, false, false, false, false, false, true, true]
  {}

  lemma PolynomialByte3()
    ensures Unfold(Low, Half, 0x04, 8) == [false, false, true, false, false, false, false, false]
  {}

  lemma PolynomialDrops()
    ensures DropByte(0x04c11db7) == 0x04c11d && DropByte(0x04c11d) == 0x04c1 && DropByte(0x04c1) == 0x04
  {}

  lemma PolynomialJoin(a: Poly, b: Poly, c: Poly, d: Poly)
    requires a == [true, true, true, false, true, true, false, true]
    requires b == [true, false, true, true, true, false, false, false]
    requires c == [true, false, false, false, false, false, true, true]
    requires d == [false, false, true, false, false, false, false, false]
    ensures a + b + c + d == Reverse(GENERATOR_LOW)
  {}

  lemma PolynomialBits()
    ensures Bits(POLYNOMIAL) == Reverse(GENERATOR_LOW)
  {
    var p: bv32 := 0x04c1_1db7;
    BitsOfBytes(p);
    PolynomialDrops();
    PolynomialByte0();
    PolynomialByte1();
    PolynomialByte2();
    PolynomialByte3();
    PolynomialJoin(Unfold(Low, Half, p, 8), Unfold(Low, Half, DropByte(p), 8),
                   Unfold(Low, Half, DropByte(DropByte(p)), 8), Unfold(Low, Half, DropByte(DropByte(DropByte(p))), 8));
  }

  lemma TopIsLast(t: bv32)
    ensures (t & 0x8000_0000 != 0) == Bits(t)[31]
  {
    UnfoldSplit(Low, Half, t, 31, 1);
    var last := Iterate(Half, t, 31);
    assert Bits(t)[31] == Low(last);
    IterateSplit(Half, t, 24, 7);
    HalvesBlocks(t);
    var b := DropByte(DropByte(DropByte(t)));
    SevenHalves(Half, b);
    TopThrough(t);
  }

  lemma HalvesBlocks(t: bv32)
    ensures Iterate(Half, t, 24) == DropByte(DropByte(DropByte(t)))
  {
    forall y ensures Iterate(Half, y, 8) == DropByte(y) { HalvesEight(y); }
    ThreeBlocks(Half, DropByte, t);
  }

  lemma ThreeBlocks<T(!new)>(f: T -> T, g: T -> T, x: T)
    requires forall y :: Iterate(f, y, 8) == g(y)
    ensures Iterate(f, x, 24) == g(g(g(x)))
  {
    IterateSplit(f, x, 8, 16);
    IterateSplit(f, g(x), 8, 8);
  }

  lemma SevenHalves<T>(f: T -> T, x: T)
    ensures Iterate(f, x, 7) == f(f(f(f(f(f(f(x)))))))
  {
    var y := f(f(f(f(x))));
    assert Iterate(f, x, 4) == y;
    assert Iterate(f, y, 3) == f(f(f(y)));
    IterateSplit(f, x, 4, 3);
  }

  lemma TopThrough(t: bv32)
    ensures (t & 0x8000_0000 != 0)
         == Low(Half(Half(Half(Half(Half(Half(Half(DropByte(DropByte(DropByte(t)))))))))))
  {}

  lemma MirrorStep(r: Poly, low: Poly)
    requires |r| == |low| == 32
    ensures Plus([false] + Reverse(r)[..31], Scale(r[0], Reverse(low))) == Reverse(DivStep(low, r, false))
  {}

  /** The unreflected step mirrors the reflected one. */
  lemma ShiftUpMirrors(t: bv32, u: bv32)
    requires Bits(t) == Reverse(Bits(u))
    ensures Bits(ShiftUp(t)) == Reverse(Bits(Shift(u)))
  {
    var feedback: bv32 := if t & 0x8000_0000 != 0 then POLYNOMIAL else 0;
    TopIsLast(t);
    BitsDouble(t);
    PolynomialBits();
    ZeroBits();
    BitsXor(Double(t), feedback);
    XorZero(u);
    ShiftDivides(u, false);
    MirrorStep(Bits(u), GENERATOR_LOW);
    assert Reverse(Bits(u))[31] == Bits(u)[0];
  }

  // ---- a byte moved to the top ----

  lemma {:induction false} BitsDoubles(w: bv32, n: nat)
    requires n <= 32
    ensures Bits(Iterate(Double, w, n)) == Zeros(n) + Bits(w)[..32 - n]
    decreases n
  {
    if n == 0 {
      assert Zeros(0) + Bits(w)[..32] == Bits(w);
    } else {
      IterateSplit(Double, w, n - 1, 1);
      BitsDoubles(w, n - 1);
      BitsDouble(Iterate(Double, w, n - 1));
      DoublesStep(Bits(w), n);
    }
  }

  lemma DoublesStep(p: Poly, n: nat)
    requires |p| == 32 && 0 < n <= 32
    ensures [false] + (Zeros(n - 1) + p[..33 - n])[..31] == Zeros(n) + p[..32 - n]
  {}

  function RaiseByte(w: bv32): (r: bv32) { w << 8 }

  lemma EightDoubles(w: bv32)
    ensures Double(Double(Double(Double(Double(Double(Double(Double(w)))))))) == RaiseByte(w)
  {}

  lemma DoublesEight(w: bv32)
    ensures Iterate(Double, w, 8) == RaiseByte(w)
  {
    IterateEight(Double, w);
    EightDoubles(w);
  }

  lemma RaiseThree(w: bv32)
    ensures RaiseByte(RaiseByte(RaiseByte(w))) == w << 24
  {}

  lemma BitsRaised(w: bv32)
    ensures Bits(w << 24) == Zeros(24) + Bits(w)[..8]
  {
    forall y ensures Iterate(Double, y, 8) == RaiseByte(y) { DoublesEight(y); }
    ThreeBlocks(Double, RaiseByte, w);
    RaiseThree(w);
    BitsDoubles(w, 24);
  }

  lemma BitsOfSmall(w: bv32)
    requires DropByte(w) == 0
    ensures Bits(w) == Bits(w)[..8] + Zeros(24)
  {
    UnfoldSplit(Low, Half, w, 8, 24);
    HalvesEight(w);
    UnfoldTake(Low, Half, 0, 24, 8);
    ZeroBits();
    SmallJoin(Bits(w), Unfold(Low, Half, w, 8), Unfold(Low, Half, 0, 24));
  }

  lemma SmallJoin(p: Poly, a: Poly, z: Poly)
    requires p == a + z && |a| == 8 && z == Zeros(32)[..24]
    ensures p == p[..8] + Zeros(24)
  {}

  lemma MirrorByte(p: Poly, q: Poly)
    requires |p| == 32 && p == p[..8] + Zeros(24) && q == Reverse(p[..8]) + Zeros(24)
    ensures Zeros(24) + q[..8] == Reverse(p)
  {
    assert Reverse(p[..8] + Zeros(24)) == Zeros(24) + Reverse(p[..8]);
  }
}
