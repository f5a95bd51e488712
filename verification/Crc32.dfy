/** CRC-32 on 32-bit words, as in section 8 of RFC 1952: the byte-at-a-time register both
    drivers use, tied to polynomial division, with what the check value detects. */
module Crc32 {
  import opened Polynomials

  /** 0x04c11db7 with its bits in reverse order: the register keeps the highest power in bit 0. */
  const REFLECTED_POLYNOMIAL: bv32 := 0xEDB88320

  /** Coefficients of x^31 .. x^0 of the generator, that is, the bits of 0x04c11db7 from the top. */
  const GENERATOR_LOW: Poly :=
    [false, false, false, false, false, true,  false, false,
     true,  true,  false, false, false, false, false, true,
     false, false, false, true,  true,  true,  false, true,
     true,  false, true,  true,  false, true,  true,  true]

  function Iterate<T>(f: T -> T, x: T, n: nat): (y: T)
    decreases n
  {
    if n == 0 then x else Iterate(f, f(x), n - 1)
  }

  function Xor(a: bv32, b: bv32): (r: bv32) { a ^ b }

  function Half(w: bv32): (r: bv32) { w >> 1 }

  function Shift(s: bv32): (r: bv32) {
    (s >> 1) ^ (if s & 1 == 1 then REFLECTED_POLYNOMIAL else 0)
  }

  function Shifts(s: bv32, n: nat): (r: bv32) {
    Iterate(Shift, s, n)
  }

  function Fold<S, T>(f: (S, T) -> S, s: S, xs: seq<T>): (r: S)
    decreases |xs|
  {
    if xs == [] then s else f(Fold(f, s, xs[..|xs| - 1]), xs[|xs| - 1])
  }

  function Absorb(s: bv32, b: bv8): (r: bv32) {
    Shifts(Xor(s, b as bv32), 8)
  }

  /** The register after a byte sequence, one byte xored in and shifted through at a time. */
  function Register(s: bv32, text: seq<bv8>): (r: bv32) {
    Fold(Absorb, s, text)
  }

  function Crc(text: seq<bv8>): (r: bv32) {
    Xor(Register(0xffff_ffff, text), 0xffff_ffff)
  }

  // ---- one shift is linear and injective ----

  lemma ShiftIs(s: bv32)
    ensures Shift(s) == Xor(s >> 1, if s & 1 == 1 then REFLECTED_POLYNOMIAL else 0)
  {}

  lemma HalfXor(a: bv32, b: bv32)
    ensures Half(Xor(a, b)) == Xor(Half(a), Half(b))
  {}

  lemma OddXor(a: bv32, b: bv32)
    ensures Xor(a, b) & 1 == 1 <==> (a & 1 == 1) != (b & 1 == 1)
  {}

  lemma FeedbackXor(x: bool, y: bool)
    ensures (if x != y then REFLECTED_POLYNOMIAL else 0)
         == Xor(if x then REFLECTED_POLYNOMIAL else 0, if y then REFLECTED_POLYNOMIAL else 0)
  {}

  lemma ShiftLinear(a: bv32, b: bv32)
    ensures Shift(Xor(a, b)) == Xor(Shift(a), Shift(b))
  {
    hide Xor, Shift;
    ShiftIs(a);
    ShiftIs(b);
    ShiftIs(Xor(a, b));
    HalfXor(a, b);
    OddXor(a, b);
    var x, y := a & 1 == 1, b & 1 == 1;
    FeedbackXor(x, y);
    XorInterchange(a >> 1, b >> 1, if x then REFLECTED_POLYNOMIAL else 0, if y then REFLECTED_POLYNOMIAL else 0);
  }

  lemma ShiftInjective(a: bv32, b: bv32)
    requires Shift(a) == Shift(b)
    ensures a == b
  {}

  lemma {:induction false} IterateHomomorphism<T(!new)>(f: T -> T, op: (T, T) -> T, x: T, y: T, n: nat)
    requires forall a, b :: f(op(a, b)) == op(f(a), f(b))
    ensures Iterate(f, op(x, y), n) == op(Iterate(f, x, n), Iterate(f, y, n))
    decreases n
  {
    if n != 0 { IterateHomomorphism(f, op, f(x), f(y), n - 1); }
  }

  lemma {:induction false} IterateInjective<T(!new)>(f: T -> T, x: T, y: T, n: nat)
    requires forall a, b :: f(a) == f(b) ==> a == b
    requires Iterate(f, x, n) == Iterate(f, y, n)
    ensures x == y
    decreases n
  {
    if n != 0 { IterateInjective(f, f(x), f(y), n - 1); }
  }

  lemma {:induction false} IterateSplit<T>(f: T -> T, x: T, m: nat, n: nat)
    ensures Iterate(f, x, m + n) == Iterate(f, Iterate(f, x, m), n)
    decreases m
  {
    if m != 0 { IterateSplit(f, f(x), m - 1, n); }
  }

  lemma ShiftHomomorphism()
    ensures forall a, b :: Shift(Xor(a, b)) == Xor(Shift(a), Shift(b))
  {
    forall a, b ensures Shift(Xor(a, b)) == Xor(Shift(a), Shift(b)) { ShiftLinear(a, b); }
  }

  lemma ShiftsLinear0(f: bv32 -> bv32, op: (bv32, bv32) -> bv32, a: bv32, b: bv32, n: nat)
    requires f == Shift && op == Xor
    ensures Iterate(f, op(a, b), n) == op(Iterate(f, a, n), Iterate(f, b, n))
  {
    ShiftHomomorphism();
    IterateHomomorphism(f, op, a, b, n);
  }

  lemma ShiftsLinear(a: bv32, b: bv32, n: nat)
    ensures Shifts(Xor(a, b), n) == Xor(Shifts(a, n), Shifts(b, n))
  {
    ShiftsLinear0(Shift, Xor, a, b, n);
  }

  lemma ShiftsInjective(a: bv32, b: bv32, n: nat)
    requires Shifts(a, n) == Shifts(b, n)
    ensures a == b
  {
    forall x: bv32, y: bv32 | Shift(x) == Shift(y) ensures x == y { ShiftInjective(x, y); }
    IterateInjective(Shift, a, b, n);
  }

  // ---- the table form of one byte ----

  lemma IterateEight<T>(f: T -> T, x: T)
    ensures Iterate(f, x, 8) == f(f(f(f(f(f(f(f(x))))))))
  {
    var y := f(f(f(f(x))));
    assert Iterate(f, x, 4) == y;
    assert Iterate(f, y, 4) == f(f(f(f(y))));
    IterateSplit(f, x, 4, 4);
  }

  lemma EightShiftsAligned(x: bv32)
    requires x & 0xff == 0
    ensures Shift(Shift(Shift(Shift(Shift(Shift(Shift(Shift(x)))))))) == x >> 8
  {}

  /** With the low byte clear no feedback happens for eight shifts. */
  lemma ShiftsAligned(x: bv32)
    requires x & 0xff == 0
    ensures Shifts(x, 8) == x >> 8
  {
    IterateEight(Shift, x);
    EightShiftsAligned(x);
  }

  lemma SplitLowByte(s: bv32, b: bv8)
    ensures Xor(s, b as bv32) == Xor(s & 0xffff_ff00, Xor(s & 0xff, b as bv32))
    ensures (s & 0xffff_ff00) & 0xff == 0 && (s & 0xffff_ff00) >> 8 == s >> 8
  {}

  /** Shifting a byte through is one table lookup and one shift by eight. */
  lemma ByteStep(s: bv32, b: bv8)
    ensures Absorb(s, b) == Xor(s >> 8, Shifts(Xor(s & 0xff, b as bv32), 8))
  {
    SplitLowByte(s, b);
    ShiftsLinear(s & 0xffff_ff00, Xor(s & 0xff, b as bv32), 8);
    ShiftsAligned(s & 0xffff_ff00);
  }

  lemma ByteIndex(x: bv32)
    requires x < 256
    ensures 0 <= x as int < 256 && (x as int) as bv32 == x
  {}

  // ---- what the register distinguishes ----

  lemma {:induction false} FoldConcat<S, T>(f: (S, T) -> S, s: S, a: seq<T>, b: seq<T>)
    ensures Fold(f, s, a + b) == Fold(f, Fold(f, s, a), b)
    decreases |b|
  {
    if b == [] {
      assert a + b == a;
    } else {
      var k := |b| - 1;
      FoldConcat(f, s, a, b[..k]);
      assert (a + b)[..|a| + k] == a + b[..k];
    }
  }

  lemma FoldStep<S, T>(f: (S, T) -> S, s: S, xs: seq<T>, i: nat)
    requires i < |xs|
    ensures Fold(f, s, xs[..i + 1]) == f(Fold(f, s, xs[..i]), xs[i])
  {
    assert xs[..i + 1][..i] == xs[..i];
  }

  lemma {:induction false} FoldInjective<S(!new), T(!new)>(f: (S, T) -> S, s: S, t: S, xs: seq<T>)
    requires forall a, b, x :: f(a, x) == f(b, x) ==> a == b
    requires Fold(f, s, xs) == Fold(f, t, xs)
    ensures s == t
    decreases |xs|
  {
    if xs != [] { FoldInjective(f, s, t, xs[..|xs| - 1]); }
  }

  lemma XorCancel(a: bv32, b: bv32, c: bv32)
    requires Xor(a, c) == Xor(b, c)
    ensures a == b
  {}

  lemma AbsorbInjective(s: bv32, t: bv32, b: bv8)
    requires Absorb(s, b) == Absorb(t, b)
    ensures s == t
  {
    ShiftsInjective(Xor(s, b as bv32), Xor(t, b as bv32), 8);
    XorCancel(s, t, b as bv32);
  }

  lemma RegisterInjective(s: bv32, t: bv32, text: seq<bv8>)
    requires Register(s, text) == Register(t, text)
    ensures s == t
  {
    forall a, b, x | Absorb(a, x) == Absorb(b, x) ensures a == b { AbsorbInjective(a, b, x); }
    FoldInjective(Absorb, s, t, text);
  }

  // ---- the register is linear ----

  function XorByte(b: bv8, c: bv8): (r: bv8) { b ^ c }

  /** Two byte sequences xored byte by byte. */
  function XorBytes(a: seq<bv8>, b: seq<bv8>): (r: seq<bv8>)
    requires |a| == |b|
    ensures |r| == |a|
  {
    seq(|a|, i requires 0 <= i < |a| => XorByte(a[i], b[i]))
  }

  lemma ByteXor(b: bv8, c: bv8)
    ensures XorByte(b, c) as bv32 == Xor(b as bv32, c as bv32)
  {}

  lemma XorInterchange(a: bv32, b: bv32, c: bv32, d: bv32)
    ensures Xor(Xor(a, b), Xor(c, d)) == Xor(Xor(a, c), Xor(b, d))
  {
    hide Xor;
    XorAssoc(a, b, Xor(c, d));
    XorAssoc(b, c, d);
    XorCommutes(b, c);
    XorAssoc(c, b, d);
    XorAssoc(a, c, Xor(b, d));
  }

  lemma XorCommutes(a: bv32, b: bv32)
    ensures Xor(a, b) == Xor(b, a)
  {}

  lemma AbsorbLinear(s: bv32, t: bv32, b: bv8, c: bv8)
    ensures Absorb(Xor(s, t), XorByte(b, c)) == Xor(Absorb(s, b), Absorb(t, c))
  {
    ByteXor(b, c);
    XorInterchange(s, t, b as bv32, c as bv32);
    ShiftsLinear(Xor(s, b as bv32), Xor(t, c as bv32), 8);
  }

  /** The register after a sum of messages is the sum of the registers. */
  lemma {:induction false} RegisterLinear(s: bv32, t: bv32, a: seq<bv8>, b: seq<bv8>)
    requires |a| == |b|
    ensures Register(Xor(s, t), XorBytes(a, b)) == Xor(Register(s, a), Register(t, b))
    decreases |a|
  {
    hide Absorb, Xor, XorByte;
    if a != [] {
      var k := |a| - 1;
      RegisterLinear(s, t, a[..k], b[..k]);
      assert XorBytes(a, b)[..k] == XorBytes(a[..k], b[..k]);
      AbsorbLinear(Register(s, a[..k]), Register(t, b[..k]), a[k], b[k]);
    }
  }

  lemma XorSelf(s: bv32, a: bv32, b: bv32)
    ensures Xor(s, s) == 0 && Xor(Xor(a, s), Xor(b, s)) == Xor(a, b)
  {
    hide Xor;
    XorInterchange(a, s, b, s);
    XorNothing(s);
    XorZero(Xor(a, b));
  }

  lemma XorNothing(s: bv32)
    ensures Xor(s, s) == 0
  {}

  /** How two CRCs differ depends only on how the messages differ. */
  lemma CrcDifference(a: seq<bv8>, b: seq<bv8>)
    requires |a| == |b|
    ensures Xor(Crc(a), Crc(b)) == Register(0, XorBytes(a, b))
  {
    var init: bv32 := 0xffff_ffff;
    RegisterLinear(init, init, a, b);
    XorSelf(init, Register(init, a), Register(init, b));
  }

  // ---- four bytes at a time ----

  lemma LiftBits(w: bv32)
    requires w & 0xff00_0000 == 0
    ensures (w << 8) & 0xff == 0 && (w << 8) >> 8 == w
  {}

  /** Xoring w in after eight shifts is xoring w << 8 in before them. */
  lemma AbsorbLater(x: bv32, w: bv32)
    requires w & 0xff00_0000 == 0
    ensures Xor(Shifts(x, 8), w) == Shifts(Xor(x, w << 8), 8)
  {
    var y := w << 8;
    LiftBits(w);
    ShiftsAligned(y);
    ShiftsLinear(x, y, 8);
  }

  function Up(w: bv32, k: nat): (r: bv32)
    decreases k
  {
    if k == 0 then w else Up(w << 8, k - 1)
  }

  predicate Fits(w: bv32, k: nat)
    decreases k
  {
    k == 0 || (w & 0xff00_0000 == 0 && Fits(w << 8, k - 1))
  }

  /** Xoring w in after k bytes of shifts is xoring it in, k bytes further up, before them. */
  lemma {:induction false} AbsorbUp(x: bv32, w: bv32, k: nat)
    requires Fits(w, k)
    ensures Xor(Shifts(x, 8 * k), w) == Shifts(Xor(x, Up(w, k)), 8 * k)
    decreases k
  {
    if k != 0 {
      var n, up := 8 * (k - 1), Up(w, k);
      IterateSplit(Shift, x, n, 8);
      AbsorbLater(Shifts(x, n), w);
      AbsorbUp(x, w << 8, k - 1);
      IterateSplit(Shift, Xor(x, up), n, 8);
    }
  }

  lemma ByteFits(b: bv8, k: nat)
    requires k <= 3
    ensures Fits(b as bv32, k)
  {
    var w := b as bv32;
    assert Fits(((w << 8) << 8) << 8, 0);
    assert Fits((w << 8) << 8, 1);
    assert Fits(w << 8, 2);
  }

  lemma XorAssoc(a: bv32, b: bv32, c: bv32)
    ensures Xor(Xor(a, b), c) == Xor(a, Xor(b, c))
  {}

  lemma XorZero(a: bv32)
    ensures Xor(a, 0) == a
  {}

  lemma AbsorbByte(s: bv32, w: bv32, b: bv8, k: nat)
    requires k <= 3
    ensures Absorb(Shifts(Xor(s, w), 8 * k), b) == Shifts(Xor(s, Xor(w, Up(b as bv32, k))), 8 * k + 8)
  {
    var x, up := Xor(s, w), Up(b as bv32, k);
    ByteFits(b, k);
    AbsorbUp(x, b as bv32, k);
    XorAssoc(s, w, up);
    IterateSplit(Shift, Xor(x, up), 8 * k, 8);
  }

  lemma RegisterStep(s: bv32, text: seq<bv8>, w: bv32, b: bv8)
    requires |text| <= 3 && Register(s, text) == Shifts(Xor(s, w), 8 * |text|)
    ensures Register(s, text + [b]) == Shifts(Xor(s, Xor(w, Up(b as bv32, |text|))), 8 * |text + [b]|)
  {
    AbsorbByte(s, w, b, |text|);
    FoldConcat(Absorb, s, text, [b]);
    FoldOne(Absorb, Register(s, text), b);
  }

  lemma FoldOne<S, T>(f: (S, T) -> S, s: S, x: T)
    ensures Fold(f, s, [x]) == f(s, x)
  {
    assert [x][..0] == [];
  }

  /** Four bytes as one word, the first byte lowest. */
  function LittleEndian(b0: bv8, b1: bv8, b2: bv8, b3: bv8): (w: bv32) {
    Xor(Xor(Xor(Xor(0, Up(b0 as bv32, 0)), Up(b1 as bv32, 1)), Up(b2 as bv32, 2)), Up(b3 as bv32, 3))
  }

  /** Four bytes act on the register like one word xored in. */
  lemma RegisterQuadlet(s: bv32, b0: bv8, b1: bv8, b2: bv8, b3: bv8)
    ensures Register(s, [b0, b1, b2, b3]) == Shifts(Xor(s, LittleEndian(b0, b1, b2, b3)), 32)
  {
    XorZero(s);
    var w1 := Xor(0, Up(b0 as bv32, 0));
    var w2 := Xor(w1, Up(b1 as bv32, 1));
    var w3 := Xor(w2, Up(b2 as bv32, 2));
    RegisterStep(s, [], 0, b0);
    assert [] + [b0] == [b0];
    RegisterStep(s, [b0], w1, b1);
    assert [b0] + [b1] == [b0, b1];
    RegisterStep(s, [b0, b1], w2, b2);
    assert [b0, b1] + [b2] == [b0, b1, b2];
    RegisterStep(s, [b0, b1, b2], w3, b3);
    assert [b0, b1, b2] + [b3] == [b0, b1, b2, b3];
  }

  lemma UpBits(w: bv32)
    ensures Up(w, 1) == w << 8 && Up(w, 2) == w << 16 && Up(w, 3) == w << 24
  {
    assert Up(w << 8, 1) == (w << 8) << 8;
    assert Up((w << 8) << 8, 1) == ((w << 8) << 8) << 8;
    assert w << 16 == (w << 8) << 8 && w << 24 == ((w << 8) << 8) << 8;
  }

  lemma QuadletBits(b0: bv8, b1: bv8, b2: bv8, b3: bv8)
    ensures LittleEndian(b0, b1, b2, b3)
         == (b0 as bv32) | (b1 as bv32 << 8) | (b2 as bv32 << 16) | (b3 as bv32 << 24)
  {
    UpBits(b1 as bv32);
    UpBits(b2 as bv32);
    UpBits(b3 as bv32);
  }

  lemma BytesInjective(b0: bv8, b1: bv8, b2: bv8, b3: bv8, c0: bv8, c1: bv8, c2: bv8, c3: bv8)
    requires (b0 as bv32) | (b1 as bv32 << 8) | (b2 as bv32 << 16) | (b3 as bv32 << 24)
          == (c0 as bv32) | (c1 as bv32 << 8) | (c2 as bv32 << 16) | (c3 as bv32 << 24)
    ensures b0 == c0 && b1 == c1 && b2 == c2 && b3 == c3
  {}

  lemma QuadletInjective(b0: bv8, b1: bv8, b2: bv8, b3: bv8, c0: bv8, c1: bv8, c2: bv8, c3: bv8)
    requires LittleEndian(b0, b1, b2, b3) == LittleEndian(c0, c1, c2, c3)
    ensures b0 == c0 && b1 == c1 && b2 == c2 && b3 == c3
  {
    QuadletBits(b0, b1, b2, b3);
    QuadletBits(c0, c1, c2, c3);
    BytesInjective(b0, b1, b2, b3, c0, c1, c2, c3);
  }

  lemma XorCancelLeft(s: bv32, a: bv32, b: bv32)
    requires Xor(s, a) == Xor(s, b)
    ensures a == b
  {}

  lemma FourInjective(s: bv32, b0: bv8, b1: bv8, b2: bv8, b3: bv8, c0: bv8, c1: bv8, c2: bv8, c3: bv8)
    requires Register(s, [b0, b1, b2, b3]) == Register(s, [c0, c1, c2, c3])
    ensures b0 == c0 && b1 == c1 && b2 == c2 && b3 == c3
  {
    var v, w := LittleEndian(b0, b1, b2, b3), LittleEndian(c0, c1, c2, c3);
    RegisterQuadlet(s, b0, b1, b2, b3);
    RegisterQuadlet(s, c0, c1, c2, c3);
    ShiftsInjective(Xor(s, v), Xor(s, w), 32);
    XorCancelLeft(s, v, w);
    QuadletInjective(b0, b1, b2, b3, c0, c1, c2, c3);
  }

  /** Different words of up to four bytes take the register from one state to different states. */
  lemma {:induction false} WindowInjective(s: bv32, v: seq<bv8>, w: seq<bv8>)
    requires |v| == |w| <= 4 && Register(s, v) == Register(s, w)
    ensures v == w
    decreases 4 - |v|
  {
    if |v| == 4 {
      assert v == [v[0], v[1], v[2], v[3]] && w == [w[0], w[1], w[2], w[3]];
      FourInjective(s, v[0], v[1], v[2], v[3], w[0], w[1], w[2], w[3]);
    } else {
      FoldConcat(Absorb, s, v, [0]);
      FoldConcat(Absorb, s, w, [0]);
      WindowInjective(s, v + [0], w + [0]);
      assert v == (v + [0])[..|v|] && w == (w + [0])[..|w|];
    }
  }

  /** Messages that differ only inside a window of four bytes never share a CRC. */
  lemma BurstDetected(before: seq<bv8>, v: seq<bv8>, w: seq<bv8>, after: seq<bv8>)
    requires |v| == |w| <= 4 && v != w
    ensures Crc(before + v + after) != Crc(before + w + after)
  {
    var init: bv32 := 0xffff_ffff;
    if Crc(before + v + after) == Crc(before + w + after) {
      var s := Register(init, before);
      FoldConcat(Absorb, init, before + v, after);
      FoldConcat(Absorb, init, before + w, after);
      FoldConcat(Absorb, init, before, v);
      FoldConcat(Absorb, init, before, w);
      SameRegister(before + v + after, before + w + after);
      RegisterInjective(Register(s, v), Register(s, w), after);
      WindowInjective(s, v, w);
    }
  }

  lemma SameRegister(a: seq<bv8>, b: seq<bv8>)
    requires Crc(a) == Crc(b)
    ensures Register(0xffff_ffff, a) == Register(0xffff_ffff, b)
  {
    XorCancel(Register(0xffff_ffff, a), Register(0xffff_ffff, b), 0xffff_ffff);
  }
}
