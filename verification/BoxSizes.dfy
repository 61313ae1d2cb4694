/** The three box widths that approximate a Gaussian (src/box_blur.c, bb_box_sizes), over the reals. */
module BoxSizes {
  import opened Doubles

  /* ---------- the C library functions used ---------- */

  function Square(x: real): real { x * x }

  function Product(x: real, y: real): real { x * y }

  // floor(sqrt(x))
  function FloorSqrt(x: real): (n: nat)
    requires x >= 0.0
    ensures Square(n as real) <= x < Square(n as real + 1.0)
  {
    FloorSqrtFrom(x, 0)
  }

  function FloorSqrtFrom(x: real, least: nat): (n: nat)
    requires Square(least as real) <= x
    ensures Square(n as real) <= x < Square(n as real + 1.0)
    decreases x.Floor - least
  {
    if Square(least as real + 1.0) <= x then
      SuccessorBelowSquare(least as real);
      FloorSqrtFrom(x, least + 1)
    else
      least
  }

  lemma SuccessorBelowSquare(x: real)
    requires x >= 0.0
    ensures x + 1.0 <= Square(x + 1.0)
  {
    assert Square(x + 1.0) - (x + 1.0) == (x + 1.0) * x;
  }

  // lround: to the nearest integer, halves away from zero.
  function Lround(x: real): int {
    if x >= 0.0 then (x + 0.5).Floor else -((-x + 0.5).Floor)
  }

  /* ---------- facts about products ---------- */

  lemma SquareOfSum(x: real, d: real)
    ensures Square(x + d) == Square(x) + 2.0 * d * x + Square(d)
  {
  }

  lemma SquareMonotone(x: real, y: real)
    requires 0.0 <= x <= y
    ensures Square(x) <= Square(y)
  {
    RealProductMonotone(x, y, x);
    RealProductMonotone(x, y, y);
  }

  lemma RealProductMonotone(x: real, y: real, c: real)
    requires x <= y && c >= 0.0
    ensures Product(x, c) <= Product(y, c)
  {
    assert (y - x) * c >= 0.0;
  }

  lemma SignOfProduct(x: real, positive: real)
    requires positive > 0.0
    ensures Product(x, positive) > 0.0 <==> x > 0.0
    ensures Product(x, positive) >= 0.0 <==> x >= 0.0
  {
  }

  lemma ProductOfLiteral(x: real)
    ensures Product(3.0, x) == 3.0 * x
    ensures Product(0.5, x) == x / 2.0 && Product(-0.5, x) == -x / 2.0
  {
  }

  /* ---------- the widths ---------- */

  // The square of the ideal common width.
  function IdealSquared(sigma: real): (x: real)
    ensures x == 4.0 * Square(sigma) + 1.0 >= 1.0
  {
    assert Square(sigma) >= 0.0;
    assert 12.0 * sigma * sigma == 12.0 * Square(sigma);
    12.0 * sigma * sigma / 3.0 + 1.0
  }

  // The ideal width rounded down to an odd number, before its lower clamp.
  function LowerOdd(sigma: real): int {
    var wl := FloorSqrt(IdealSquared(sigma));
    if wl % 2 == 0 then wl - 1 else wl
  }

  // How many of the three boxes should be the narrower one, as a real number.
  function IdealCount(sigma: real, wl: int): (q: real)
    requires wl >= 1
    ensures Product(q, 4.0 * wl as real + 4.0) ==
            3.0 * Square(wl as real) + 12.0 * wl as real + 9.0 - 12.0 * Square(sigma)
  {
    var w := wl as real;
    var top := 12.0 * sigma * sigma - 3.0 * w * w - 12.0 * w - 9.0;
    var bottom := -4.0 * w - 4.0;
    assert top == 12.0 * Square(sigma) - 3.0 * Square(w) - 12.0 * w - 9.0;
    assert (top / bottom) * bottom == top;
    assert (top / bottom) * (-bottom) == -top;
    top / bottom
  }

  // The widths: m boxes of width wl, then 3 - m of width wl + 2, with no clamp applied.
  function Widths(sigma: real): (ws: seq<int>)
    requires sigma > 0.0
    ensures |ws| == 3
  {
    LowerOddBounds(sigma);
    var wl := LowerOdd(sigma);
    var m := Lround(IdealCount(sigma, wl));
    seq(3, k => if k < m then wl else wl + 2)
  }

  // wl is odd, positive, and the squares of wl and wl + 2 straddle 4 sigma^2 + 1.
  lemma LowerOddBounds(sigma: real)
    ensures var wl := LowerOdd(sigma);
            wl >= 1 && wl % 2 == 1 &&
            Square(wl as real) <= 4.0 * Square(sigma) + 1.0 < Square(wl as real + 2.0)
  {
    hide Square;
    var x := IdealSquared(sigma);
    var n := FloorSqrt(x);
    var r := n as real;
    SquareOfSum(0.0, 1.0);
    SquareOfOne();
    if n % 2 == 0 {
      SquareMonotone((n - 1) as real, r);
    } else {
      SquareMonotone(r + 1.0, r + 2.0);
    }
  }

  lemma SquareOfOne()
    ensures Square(0.0) == 0.0 && Square(1.0) == 1.0 && Square(2.0) == 4.0
  {
  }

  // The ideal count lies in (0, 3], so neither clamp of m is ever reached.
  lemma IdealCountBounds(sigma: real)
    ensures LowerOdd(sigma) >= 1
    ensures sigma > 0.0 ==>
            var ideal := IdealCount(sigma, LowerOdd(sigma));
            0.0 < ideal <= 3.0 && 0 <= Lround(ideal) <= 3
  {
    hide Square, IdealCount, LowerOdd, Product;
    LowerOddBounds(sigma);
    var wl := LowerOdd(sigma);
    var w := wl as real;
    var ideal := IdealCount(sigma, wl);
    var bottom := 4.0 * w + 4.0;
    SquareOfSum(w, 2.0);
    SquareOfOne();
    SignOfProduct(ideal, bottom);
    ProductOfDifference(3.0, ideal, bottom);
    ProductOfLiteral(bottom);
    SignOfProduct(3.0 - ideal, bottom);
  }

  // The variance of three boxes in a row, each of odd width w having variance (w^2 - 1) / 12.
  function VarianceSum(ws: seq<int>): real
    requires |ws| == 3
  {
    (Square(ws[0] as real) + Square(ws[1] as real) + Square(ws[2] as real) - 3.0) / 12.0
  }

  // All three widths are odd and positive, the narrow ones first.
  lemma WidthsAreOdd(sigma: real, k: nat)
    requires sigma > 0.0 && k < 3
    ensures Widths(sigma)[k] >= 1 && Widths(sigma)[k] % 2 == 1
    ensures LowerOdd(sigma) <= Widths(sigma)[0] <= Widths(sigma)[1] <= Widths(sigma)[2] <= LowerOdd(sigma) + 2
  {
    hide LowerOdd, IdealCount;
    LowerOddBounds(sigma);
  }

  // Their variances add up to sigma^2 within (wl + 1) / 6.
  lemma WidthsApproximateSigma(sigma: real)
    requires sigma > 0.0
    ensures var slack := (LowerOdd(sigma) as real + 1.0) / 6.0;
            -slack <= VarianceSum(Widths(sigma)) - Square(sigma) < slack
  {
    hide Square, LowerOdd, IdealCount, Product, VarianceSum;
    LowerOddBounds(sigma);
    IdealCountBounds(sigma);
    var wl := LowerOdd(sigma);
    var w := wl as real;
    var ideal := IdealCount(sigma, wl);
    var m := Lround(ideal);
    SumOfSquares(wl, m);
    GapWithin(VarianceSum(Widths(sigma)) - Square(sigma), ideal, m as real, w);
  }

  // Rounding the count by at most a half moves the sum of variances by at most (w + 1) / 6.
  lemma GapWithin(gap: real, ideal: real, m: real, w: real)
    requires -0.5 <= ideal - m < 0.5 && w > 0.0
    requires 12.0 * gap == Product(ideal, 4.0 * w + 4.0) - Product(m, 4.0 * w + 4.0)
    ensures -((w + 1.0) / 6.0) <= gap < (w + 1.0) / 6.0
  {
    hide Product;
    var step := 4.0 * w + 4.0;
    ProductOfDifference(ideal, m, step);
    ProductOfHalf(ideal - m, step);
  }

  lemma ProductOfDifference(x: real, y: real, step: real)
    ensures Product(x - y, step) == Product(x, step) - Product(y, step)
  {
  }

  lemma ProductOfHalf(e: real, step: real)
    requires -0.5 <= e < 0.5 && step > 0.0
    ensures -step / 2.0 <= Product(e, step) < step / 2.0
  {
    ProductOfLiteral(step);
    RealProductMonotone(-0.5, e, step);
    ProductOfDifference(0.5, e, step);
    SignOfProduct(0.5 - e, step);
  }

  lemma SumOfSquares(wl: int, m: int)
    requires 0 <= m <= 3
    ensures var ws := seq(3, k => if k < m then wl else wl + 2);
            12.0 * VarianceSum(ws) ==
            3.0 * Square(wl as real) + 12.0 * wl as real + 9.0 - Product(m as real, 4.0 * wl as real + 4.0)
  {
    hide Square;
    var w := wl as real;
    SquareOfSum(w, 2.0);
    SquareOfOne();
    assert (wl + 2) as real == w + 2.0;
    var ws := seq(3, k => if k < m then wl else wl + 2);
    var narrow, wide := Square(w), Square(w + 2.0);
    assert Square(ws[0] as real) == if m >= 1 then narrow else wide;
    assert Square(ws[1] as real) == if m >= 2 then narrow else wide;
    assert Square(ws[2] as real) == if m >= 3 then narrow else wide;
    assert 12.0 * VarianceSum(ws) == 3.0 * wide - Product(m as real, wide - narrow) - 3.0 by {
      assert m == 0 || m == 1 || m == 2 || m == 3;
    }
  }

  /* ---------- bb_box_sizes ---------- */

  predicate Blurs(sigma: Double) {
    sigma.Finite? && sigma.value > 0.0
  }

  method BoxWidths(sigma: Double, sizes: array?<int>) returns (ok: bool)
    requires sizes != null ==> sizes.Length == 3
    modifies if sizes == null then {} else {sizes}
    ensures ok <==> sizes != null && Blurs(sigma)
    ensures ok ==> sizes[..] == Widths(sigma.value)
    ensures sizes != null && !ok ==> sizes[..] == old(sizes[..])
  {
    if sizes == null || !sigma.Finite? || !(sigma.value > 0.0) {
      return false;
    }
    hide IdealCount, IdealSquared, Square;
    var s := sigma.value;
    var wl: int := FloorSqrt(IdealSquared(s));
    if wl % 2 == 0 {
      wl := wl - 1;
    }
    LowerOddBounds(s);
    if wl < 1 {
      wl := 1;
    }
    var wu := wl + 2;
    IdealCountBounds(s);
    var m := Lround(IdealCount(s, wl));
    if m < 0 {
      m := 0;
    }
    if m > 3 {
      m := 3;
    }
    for k := 0 to 3
      invariant forall i :: 0 <= i < k ==> sizes[i] == if i < m then wl else wu
    {
      sizes[k] := if k < m then wl else wu;
    }
    return true;
  }
}
