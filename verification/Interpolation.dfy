/** `arm_linear_interp_q31`: table lookup with linear interpolation in 32-bit fixed point. */
module Interpolation {
  import opened Words

  const FRACTIONS := 0x10_0000  // a sample is a 12-bit index and a 20-bit fraction

  ghost predicate Table(t: seq<int>) {
    forall i :: 0 <= i < |t| ==> Int32(t[i])
  }

  /** `y0 * (1 - fract)` and `y1 * fract` are each cut to 2.30 format, added and shifted back. */
  function Blend(y0: int, y1: int, fract: int): int {
    var y := WrapInt32(y0 * (0x7FFF_FFFF - fract) / U32);
    var z := WrapInt32(y + WrapInt32(y1 * fract / U32));
    WrapInt32(2 * z)
  }

  function LinearInterpQ31(t: seq<int>, x: int, nValues: nat): (r: int)
    requires Table(t) && Int32(x) && 1 <= nValues == |t| < U32
    ensures Int32(r)
  {
    var index := (x - x % FRACTIONS) / FRACTIONS;  // the fraction bits are masked off, then shifted out
    if index >= WrapInt32(nValues - 1) then t[nValues - 1]
    else if index < 0 then t[0]
    else
      var fract := x % FRACTIONS * 2048;
      Blend(t[index], t[index + 1], fract)
  }

  // ----- One interpolation step -----

  ghost predicate Fraction(fract: int) {
    0 <= fract < TWO31 && fract % 2048 == 0
  }

  lemma HalfProduct(y: int, f: int)
    requires Int32(y) && 0 <= f < TWO31
    ensures -f * TWO31 <= y * f <= f * TWO31 - f
  {
    if f > 0 {
      assert y * f <= (TWO31 - 1) * f by { Scale(y, TWO31 - 1, f); }
      assert -TWO31 * f <= y * f by { Scale(-TWO31, y, f); }
    }
  }

  lemma Scale(a: int, b: int, f: int)
    requires a <= b && 0 <= f
    ensures a * f <= b * f
  {
    assert b * f - a * f == (b - a) * f;
  }

  /** No intermediate value leaves 32 bits. */
  lemma BlendDoesNotOverflow(y0: int, y1: int, fract: int)
    requires Int32(y0) && Int32(y1) && Fraction(fract)
    ensures Blend(y0, y1, fract) == 2 * (y0 * (TWO31 - 1 - fract) / U32 + y1 * fract / U32)
  {
    var f0 := TWO31 - 1 - fract;
    HalfProduct(y0, f0);
    HalfProduct(y1, fract);
    SumFits(y0 * f0, y1 * fract, fract);
  }

  lemma SumFits(p: int, q: int, fract: int)
    requires Fraction(fract)
    requires -(TWO31 - 1 - fract) * TWO31 <= p <= (TWO31 - 1 - fract) * TWO31
    requires -fract * TWO31 <= q <= fract * TWO31
    ensures WrapInt32(p / U32) == p / U32 && WrapInt32(q / U32) == q / U32
    ensures WrapInt32(p / U32 + q / U32) == p / U32 + q / U32
    ensures WrapInt32(2 * (p / U32 + q / U32)) == 2 * (p / U32 + q / U32)
  {
    hide WrapInt32;
    var a, b := p / U32, q / U32;
    assert -(TWO31 - fract) / 2 <= a && -fract / 2 <= b;
    assert Int32(a) && Int32(b) && Int32(a + b) && Int32(2 * (a + b));
  }

  /** The error against exact interpolation `(y0 * (1 - f) + y1 * f)`, scaled by `2^31`: less than
      five units below, at most one above. */
  lemma BlendError(y0: int, y1: int, fract: int)
    requires Int32(y0) && Int32(y1) && Fraction(fract)
    ensures -5 * TWO31 < TWO31 * Blend(y0, y1, fract) - (y0 * (TWO31 - fract) + y1 * fract) <= TWO31
  {
    BlendDoesNotOverflow(y0, y1, fract);
    var p, q := y0 * (TWO31 - 1 - fract), y1 * fract;
    assert y0 * (TWO31 - fract) == p + y0;
    var a, b := p / U32, q / U32;
    assert p - U32 < U32 * a <= p && q - U32 < U32 * b <= q;
    assert TWO31 * (2 * (a + b)) == U32 * a + U32 * b;
  }

  /** The sum of the two halves of a product, each cut to 2.30 format. */
  lemma CutSum(p: int, q: int, lo: int, hi: int)
    requires lo * (TWO31 - 1) <= p + q <= hi * (TWO31 - 1)
    requires Int32(lo) && Int32(hi)
    ensures lo - 4 <= 2 * (p / U32 + q / U32) <= hi
  {
    var a, b := p / U32, q / U32;
    assert p - U32 < U32 * a <= p && q - U32 < U32 * b <= q;
    assert lo * (TWO31 - 1) - 2 * U32 < U32 * (a + b) <= hi * (TWO31 - 1);
  }

  lemma Weighted(a: int, b: int, c: int, d: int, f: int, g: int)
    requires a <= c && b <= d && 0 <= f && 0 <= g
    ensures a * f + b * g <= c * f + d * g
    ensures a == b ==> a * f + b * g == a * (f + g)
    ensures c == d ==> c * f + d * g == c * (f + g)
  {
    Scale(a, c, f);
    Scale(b, d, g);
  }

  /** Between two samples the result is at most 4 below the smaller and never above the larger. */
  lemma BlendStaysBetween(y0: int, y1: int, fract: int, lo: int, hi: int)
    requires Int32(y0) && Int32(y1) && Fraction(fract)
    requires Int32(lo) && Int32(hi) && lo <= y0 <= hi && lo <= y1 <= hi
    ensures lo - 4 <= Blend(y0, y1, fract) <= hi
  {
    BlendDoesNotOverflow(y0, y1, fract);
    Weighted(lo, lo, y0, y1, TWO31 - 1 - fract, fract);
    Weighted(y0, y1, hi, hi, TWO31 - 1 - fract, fract);
    CutSum(y0 * (TWO31 - 1 - fract), y1 * fract, lo, hi);
  }

  // ----- The function -----

  /** For every sample: before the table its first value, from the last value on its last value, and
      in between a value next to or between the two neighbours. */
  lemma InterpolatesTable(t: seq<int>, x: int)
    requires Table(t) && Int32(x) && 1 <= |t| <= TWO31
    ensures var r := LinearInterpQ31(t, x, |t|);
            var i := x / FRACTIONS;
            if i >= |t| - 1 then r == t[|t| - 1]
            else if x < 0 then r == t[0]
            else
              var (y0, y1) := (t[i], t[i + 1]);
              && (if y0 <= y1 then y0 - 4 <= r <= y1 else y1 - 4 <= r <= y0)
              && -5 * TWO31 < TWO31 * r - (y0 * (TWO31 - x % FRACTIONS * 2048) + y1 * (x % FRACTIONS * 2048)) <= TWO31
  {
    var i := x / FRACTIONS;
    assert (x - x % FRACTIONS) / FRACTIONS == i;
    if 0 <= i < |t| - 1 {
      var (y0, y1, f) := (t[i], t[i + 1], x % FRACTIONS * 2048);
      if y0 <= y1 {
        BlendStaysBetween(y0, y1, f, y0, y1);
      } else {
        BlendStaysBetween(y0, y1, f, y1, y0);
      }
      BlendError(y0, y1, f);
    }
  }

  /** The bounds are the best possible: a result 4 below two equal neighbours, and one equal to
      the larger. */
  lemma BoundsAreReached()
    ensures LinearInterpQ31([1063332588, 1063332588], 175830, 2) == 1063332588 - 4
    ensures LinearInterpQ31([-TWO31, -TWO31], 0, 2) == -TWO31
  {
    assert 175830 * 2048 == 360099840;
    assert 1063332588 * (0x7FFF_FFFF - 360099840) / U32 + 1063332588 * 360099840 / U32 == 531666292;
  }
}
