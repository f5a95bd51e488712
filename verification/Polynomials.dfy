/** Polynomials over GF(2) as coefficient lists, highest power first, and division by a
    monic polynomial one message bit at a time. This is the reference the CRC code is
    measured against. */
module Polynomials {

  type Poly = seq<bool>

  function Zeros(n: nat): (p: Poly) {
    seq(n, _ => false)
  }

  function Plus(p: Poly, q: Poly): (r: Poly)
    requires |p| == |q|
  {
    seq(|p|, i requires 0 <= i < |p| => p[i] != q[i])
  }

  function Scale(c: bool, p: Poly): (r: Poly) {
    if c then p else Zeros(|p|)
  }

  /** Schoolbook product: q is read from its highest coefficient, q'*x + t at every step. */
  function Times(q: Poly, g: Poly): (r: Poly)
    requires g != []
    ensures |r| == |q| + |g| - 1
  {
    if q == [] then Zeros(|g| - 1)
    else
      var k := |q| - 1;
      Plus(Times(q[..k], g) + [false], Zeros(k) + Scale(q[k], g))
  }

  /** One step of long division by x^n + low: bring down the next bit of the dividend. */
  function DivStep(low: Poly, r: Poly, bit: bool): (r': Poly)
    requires |r| == |low| > 0
    ensures |r'| == |r|
  {
    Plus(r[1..] + [false], Scale(r[0] != bit, low))
  }

  /** The division register after the given bits. */
  function Divide(low: Poly, r: Poly, bits: Poly): (r': Poly)
    requires |r| == |low| > 0
    ensures |r'| == |r|
    decreases |bits|
  {
    if bits == [] then r
    else
      var k := |bits| - 1;
      DivStep(low, Divide(low, r, bits[..k]), bits[k])
  }

  /** What is divided: bits * x^n, with the initial register added to its top n coefficients. */
  function Dividend(r: Poly, bits: Poly): (d: Poly)
    ensures |d| == |r| + |bits|
  {
    Plus(bits + Zeros(|r|), r + Zeros(|bits|))
  }

  /** The quotient coefficients the division produces on the way. */
  function Quotient(low: Poly, r: Poly, bits: Poly): (q: Poly)
    requires |r| == |low| > 0
    ensures |q| == |bits|
    decreases |bits|
  {
    if bits == [] then []
    else
      var k := |bits| - 1;
      Quotient(low, r, bits[..k]) + [Divide(low, r, bits[..k])[0] != bits[k]]
  }

  /** Dividend == Quotient * (x^n + low) + Divide, the remainder having degree below n. */
  lemma {:induction false} DivisionTheorem(low: Poly, r: Poly, bits: Poly)
    requires |r| == |low| > 0
    ensures Dividend(r, bits)
         == Plus(Times(Quotient(low, r, bits), [true] + low), Zeros(|bits|) + Divide(low, r, bits))
    decreases |bits|
  {
    hide Plus, Scale, Zeros, DivStep, Dividend;
    if bits == [] {
      DivisionBase(low, r);
    } else {
      var k := |bits| - 1;
      var prev := bits[..k];
      DivisionTheorem(low, r, prev);
      assert Quotient(low, r, bits)[..k] == Quotient(low, r, prev);
      DivisionStep(low, r, prev, bits[k], Quotient(low, r, prev), Divide(low, r, prev));
      assert bits == prev + [bits[k]];
    }
  }

  lemma DivisionBase(low: Poly, r: Poly)
    requires |r| == |low| > 0
    ensures Dividend(r, []) == Plus(Times([], [true] + low), Zeros(0) + r)
  {}

  lemma DivisionStep(low: Poly, r: Poly, bits: Poly, bit: bool, q: Poly, d: Poly)
    requires |r| == |low| == |d| > 0 && |q| == |bits|
    requires Dividend(r, bits) == Plus(Times(q, [true] + low), Zeros(|bits|) + d)
    ensures Dividend(r, bits + [bit])
         == Plus(Plus(Times(q, [true] + low) + [false], Zeros(|bits|) + Scale(d[0] != bit, [true] + low)),
                 Zeros(|bits| + 1) + DivStep(low, d, bit))
  {
    var k, t := |bits|, Times(q, [true] + low);
    var lhs := Dividend(r, bits + [bit]);
    var rhs := Plus(Plus(t + [false], Zeros(k) + Scale(d[0] != bit, [true] + low)),
                    Zeros(k + 1) + DivStep(low, d, bit));
    forall i | 0 <= i < |lhs|
      ensures lhs[i] == rhs[i]
    {
      DividendCoefficient(r, bits, bit, i);
      ProductCoefficient(low, t, d, bit, k, i);
      if i < k + |low| {
        assert Dividend(r, bits)[i] == (t[i] != (i >= k && d[i - k]));
      }
    }
    assert lhs == rhs;
  }

  lemma DividendCoefficient(r: Poly, bits: Poly, bit: bool, i: nat)
    requires r != [] && i <= |r| + |bits|
    ensures Dividend(r, bits + [bit])[i]
         == (i < |r| + |bits| && (Dividend(r, bits)[i] != (i == |bits| && bit)))
  {}

  lemma ProductCoefficient(low: Poly, t: Poly, d: Poly, bit: bool, k: nat, i: nat)
    requires |low| == |d| > 0 && |t| == k + |low| && i <= k + |low|
    ensures Plus(Plus(t + [false], Zeros(k) + Scale(d[0] != bit, [true] + low)),
                 Zeros(k + 1) + DivStep(low, d, bit))[i]
         == (i < k + |low| && ((t[i] != (i >= k && d[i - k])) != (i == k && bit)))
  {
    var top := d[0] != bit;
    assert (Zeros(k) + Scale(top, [true] + low))[i] == (top && (i == k || (i > k && low[i - k - 1])));
    assert (Zeros(k + 1) + DivStep(low, d, bit))[i]
        == (i > k && ((i < k + |low| && d[i - k]) != (top && low[i - k - 1])));
  }

  lemma {:induction false} DivideConcat(low: Poly, r: Poly, a: Poly, b: Poly)
    requires |r| == |low| > 0
    ensures Divide(low, r, a + b) == Divide(low, Divide(low, r, a), b)
    decreases |b|
  {
    hide DivStep;
    if b == [] {
      assert a + b == a;
    } else {
      var k := |b| - 1;
      DivideConcat(low, r, a, b[..k]);
      assert (a + b)[..|a| + k] == a + b[..k];
    }
  }
}
