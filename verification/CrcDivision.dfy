/** The CRC register is the register of a polynomial long division, and the CRC therefore the
    remainder of the message polynomial modulo the generator x^32 + GENERATOR_LOW. */
module CrcDivision {
  import opened Polynomials
  import opened Crc32

  function Unfold<T>(head: T -> bool, tail: T -> T, x: T, n: nat): (p: Poly)
    ensures |p| == n
    decreases n
  {
    if n == 0 then [] else [head(x)] + Unfold(head, tail, tail(x), n - 1)
  }

  function Low(w: bv32): (b: bool) { w & 1 == 1 }

  /** Bits of a word, lowest first: in the reflected register that is highest power first. */
  function Bits(w: bv32): (p: Poly)
    ensures |p| == 32
  {
    Unfold(Low, Half, w, 32)
  }

  /** Bits of a byte in the order they enter the register. */
  function ByteBits(b: bv8): (p: Poly)
    ensures |p| == 8
  {
    Unfold(Low, Half, b as bv32, 8)
  }

  function MessageBits(text: seq<bv8>): (p: Poly)
    ensures |p| == 8 * |text|
    decreases |text|
  {
    if text == [] then [] else MessageBits(text[..|text| - 1]) + ByteBits(text[|text| - 1])
  }

  lemma {:induction false} UnfoldSum<T(!new)>(head: T -> bool, tail: T -> T, op: (T, T) -> T, x: T, y: T, n: nat)
    requires forall a, b :: head(op(a, b)) == (head(a) != head(b))
    requires forall a, b :: tail(op(a, b)) == op(tail(a), tail(b))
    ensures Unfold(head, tail, op(x, y), n) == Plus(Unfold(head, tail, x, n), Unfold(head, tail, y, n))
    decreases n
  {
    if n != 0 {
      UnfoldSum(head, tail, op, tail(x), tail(y), n - 1);
    }
  }

  lemma {:induction false} UnfoldSnoc<T>(head: T -> bool, tail: T -> T, x: T, n: nat)
    ensures Unfold(head, tail, x, n + 1) == Unfold(head, tail, x, n) + [head(Iterate(tail, x, n))]
    decreases n
  {
    if n != 0 {
      UnfoldSnoc(head, tail, tail(x), n - 1);
    }
  }

  lemma LowXor()
    ensures forall a, b :: Low(Xor(a, b)) == (Low(a) != Low(b))
  {}

  lemma HalfXor()
    ensures forall a, b :: Half(Xor(a, b)) == Xor(Half(a), Half(b))
  {}

  lemma BitsXor(a: bv32, b: bv32)
    ensures Bits(Xor(a, b)) == Plus(Bits(a), Bits(b))
  {
    LowXor();
    HalfXor();
    UnfoldSum(Low, Half, Xor, a, b, 32);
  }

  lemma HalfEight(w: bv32)
    ensures Half(Half(Half(Half(Half(Half(Half(Half(w)))))))) == w >> 8
  {}

  function DropByte(w: bv32): (r: bv32) { w >> 8 }

  lemma HalvesEight(w: bv32)
    ensures Iterate(Half, w, 8) == DropByte(w)
  {
    IterateEight(Half, w);
    HalfEight(w);
  }

  lemma IterateBlocks<T(!new)>(f: T -> T, g: T -> T, x: T)
    requires forall y :: Iterate(f, y, 8) == g(y)
    ensures Iterate(f, x, 32) == g(g(g(g(x))))
  {
    IterateSplit(f, x, 8, 24);
    IterateSplit(f, g(x), 8, 16);
    IterateSplit(f, g(g(x)), 8, 8);
  }

  lemma BytesGone(w: bv32)
    ensures DropByte(DropByte(DropByte(DropByte(w)))) == 0
  {}

  lemma HalvesAll(w: bv32)
    ensures Iterate(Half, w, 32) == 0
  {
    forall y ensures Iterate(Half, y, 8) == DropByte(y) { HalvesEight(y); }
    IterateBlocks(Half, DropByte, w);
    BytesGone(w);
  }

  lemma UnfoldShift<T>(head: T -> bool, tail: T -> T, x: T, n: nat)
    requires n > 0 && !head(Iterate(tail, x, n))
    ensures Unfold(head, tail, tail(x), n) == Unfold(head, tail, x, n)[1..] + [false]
  {
    UnfoldSnoc(head, tail, x, n);
    var u := Unfold(head, tail, x, n + 1);
    assert u[1..] == Unfold(head, tail, tail(x), n);
    assert u[1..] == Unfold(head, tail, x, n)[1..] + [false];
  }

  /** Halving a word drops the leading coefficient and appends a zero. */
  lemma BitsHalf(w: bv32)
    ensures Bits(Half(w)) == Bits(w)[1..] + [false]
  {
    HalvesAll(w);
    UnfoldShift(Low, Half, w, 32);
  }

  lemma {:induction false} UnfoldSplit<T>(head: T -> bool, tail: T -> T, x: T, m: nat, n: nat)
    ensures Unfold(head, tail, x, m + n)
         == Unfold(head, tail, x, m) + Unfold(head, tail, Iterate(tail, x, m), n)
    decreases m
  {
    if m != 0 {
      UnfoldSplit(head, tail, tail(x), m - 1, n);
    }
  }

  lemma UnfoldBytes<T(!new)>(head: T -> bool, tail: T -> T, g: T -> T, x: T)
    requires forall y :: Iterate(tail, y, 8) == g(y)
    ensures Unfold(head, tail, x, 32)
         == Unfold(head, tail, x, 8) + Unfold(head, tail, g(x), 8)
          + Unfold(head, tail, g(g(x)), 8) + Unfold(head, tail, g(g(g(x))), 8)
  {
    UnfoldSplit(head, tail, x, 8, 24);
    UnfoldSplit(head, tail, g(x), 8, 16);
    UnfoldSplit(head, tail, g(g(x)), 8, 8);
  }

  lemma BitsOfBytes(w: bv32)
    ensures Bits(w) == Unfold(Low, Half, w, 8) + Unfold(Low, Half, DropByte(w), 8)
                     + Unfold(Low, Half, DropByte(DropByte(w)), 8)
                     + Unfold(Low, Half, DropByte(DropByte(DropByte(w))), 8)
  {
    forall y ensures Iterate(Half, y, 8) == DropByte(y) { HalvesEight(y); }
    UnfoldBytes(Low, Half, DropByte, w);
  }

  lemma GeneratorByte0()
    ensures Unfold(Low, Half, 0xEDB88320, 8) == [false, false, false, false, false, true, false, false]
  {}

  lemma GeneratorByte1()
    ensures Unfold(Low, Half, 0xEDB883, 8) == [true, true, false, false, false, false, false, true]
  {}

  lemma GeneratorByte2()
    ensures Unfold(Low, Half, 0xEDB8, 8) == [false, false, false, true, true, true, false, true]
  {}

  lemma GeneratorByte3()
    ensures Unfold(Low, Half, 0xED, 8) == [true, false, true, true, false, true, true, true]
  {}

  lemma GeneratorBits()
    ensures Bits(REFLECTED_POLYNOMIAL) == GENERATOR_LOW
  {
    var p: bv32 := 0xEDB88320;
    BitsOfBytes(p);
    GeneratorByte0();
    GeneratorByte1();
    GeneratorByte2();
    GeneratorByte3();
    assert DropByte(p) == 0xEDB883 && DropByte(0xEDB883) == 0xEDB8 && DropByte(0xEDB8) == 0xED;
  }

  // ---- one shift is one division step, one byte eight of them ----

  function BitWord(bit: bool): (w: bv32) { if bit then 1 else 0 }

  lemma ShiftParts(s: bv32, bit: bool)
    ensures Shift(Xor(s, BitWord(bit))) == Xor(Half(s), if Low(s) != bit then REFLECTED_POLYNOMIAL else 0)
  {
    LowBitOnly(s, bit);
    ShiftOf(Xor(s, BitWord(bit)), Half(s), Low(s) != bit);
  }

  lemma ShiftOf(x: bv32, half: bv32, low: bool)
    requires x >> 1 == half && (x & 1 == 1) == low
    ensures Shift(x) == Xor(half, if low then REFLECTED_POLYNOMIAL else 0)
  {
    hide Shift, Xor;
    ShiftIs(x);
  }

  lemma LowBitOnly(s: bv32, bit: bool)
    ensures Xor(s, BitWord(bit)) >> 1 == Half(s)
    ensures (Xor(s, BitWord(bit)) & 1 == 1) == (Low(s) != bit)
  {
    if bit {
      assert (s ^ 1) >> 1 == s >> 1;
      assert (s ^ 1) & 1 == 1 <==> s & 1 == 0;
    } else {
      XorZero(s);
    }
  }

  lemma ZeroBits()
    ensures Bits(0) == Zeros(32)
  {
    BitsXor(0, 0);
    assert Xor(0, 0) == 0;
  }

  lemma ShiftDivides(s: bv32, bit: bool)
    ensures Bits(Shift(Xor(s, BitWord(bit)))) == DivStep(GENERATOR_LOW, Bits(s), bit)
  {
    ShiftParts(s, bit);
    BitsHalf(s);
    ZeroBits();
    GeneratorBits();
    BitsXor(Half(s), if Low(s) != bit then REFLECTED_POLYNOMIAL else 0);
    assert Bits(s)[0] == Low(s);
  }

  function Feed(s: bv32, w: bv32, n: nat): (r: bv32)
    decreases n
  {
    if n == 0 then s else Feed(Shift(Xor(s, BitWord(Low(w)))), Half(w), n - 1)
  }

  lemma ShiftFeeds(s: bv32, w: bv32)
    ensures Shift(Xor(s, w)) == Xor(Shift(Xor(s, BitWord(Low(w)))), Half(w))
  {
    var low, even := BitWord(Low(w)), w & 0xffff_fffe;
    assert w == Xor(low, even);
    XorAssoc(s, low, even);
    ShiftLinear(Xor(s, low), even);
    ShiftEven(w);
  }

  lemma ShiftEven(w: bv32)
    ensures Shift(w & 0xffff_fffe) == Half(w)
  {}

  lemma {:induction false} FeedShifts(s: bv32, w: bv32, n: nat)
    ensures Shifts(Xor(s, w), n) == Xor(Feed(s, w, n), Iterate(Half, w, n))
    decreases n
  {
    if n != 0 {
      ShiftFeeds(s, w);
      FeedShifts(Shift(Xor(s, BitWord(Low(w)))), Half(w), n - 1);
    }
  }

  lemma {:induction false} FeedDivides(s: bv32, w: bv32, n: nat)
    ensures Bits(Feed(s, w, n)) == Divide(GENERATOR_LOW, Bits(s), Unfold(Low, Half, w, n))
    decreases n
  {
    if n != 0 {
      var b, t := Low(w), Shift(Xor(s, BitWord(Low(w))));
      ShiftDivides(s, b);
      FeedDivides(t, Half(w), n - 1);
      DivideCons(GENERATOR_LOW, Bits(s), b, Unfold(Low, Half, Half(w), n - 1));
    }
  }

  lemma DivideCons(low: Poly, r: Poly, b: bool, rest: Poly)
    requires |r| == |low| > 0
    ensures Divide(low, r, [b] + rest) == Divide(low, DivStep(low, r, b), rest)
  {
    DivideConcat(low, r, [b], rest);
    assert [b][..0] == [];
    assert Divide(low, r, [b]) == DivStep(low, r, b);
  }

  lemma ByteDone(b: bv8)
    ensures DropByte(b as bv32) == 0
  {}

  lemma AbsorbDivides(s: bv32, b: bv8)
    ensures Bits(Absorb(s, b)) == Divide(GENERATOR_LOW, Bits(s), ByteBits(b))
  {
    var w := b as bv32;
    FeedShifts(s, w, 8);
    HalvesEight(w);
    ByteDone(b);
    XorZero(Feed(s, w, 8));
    FeedDivides(s, w, 8);
  }

  lemma {:induction false} RegisterDivides(s: bv32, text: seq<bv8>)
    ensures Bits(Register(s, text)) == Divide(GENERATOR_LOW, Bits(s), MessageBits(text))
    decreases |text|
  {
    if text != [] {
      var k := |text| - 1;
      RegisterDivides(s, text[..k]);
      AbsorbDivides(Register(s, text[..k]), text[k]);
      DivideConcat(GENERATOR_LOW, Bits(s), MessageBits(text[..k]), ByteBits(text[k]));
    }
  }

  /** The CRC is the complemented remainder of the message polynomial, its first 32 bits
      complemented, times x^32, divided by the generator: for every message there is a quotient
      such that dividend == quotient * generator + remainder. */
  lemma CrcIsRemainder(text: seq<bv8>)
    ensures Dividend(Bits(0xffff_ffff), MessageBits(text))
         == Plus(Times(Quotient(GENERATOR_LOW, Bits(0xffff_ffff), MessageBits(text)), [true] + GENERATOR_LOW),
                 Zeros(|MessageBits(text)|) + Bits(Xor(Crc(text), 0xffff_ffff)))
  {
    var init: bv32 := 0xffff_ffff;
    RegisterDivides(init, text);
    DivisionTheorem(GENERATOR_LOW, Bits(init), MessageBits(text));
    DoubleComplement(Register(init, text));
  }

  lemma DoubleComplement(w: bv32)
    ensures Xor(Xor(w, 0xffff_ffff), 0xffff_ffff) == w
  {}
}
