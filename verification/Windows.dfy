/** Sliding-window sums over an infinite line of samples, and the rounded mean a box filter takes. */
module Windows {
  type Line = int -> int

  // The sum of f over lo <= i < hi.
  function SumRange(f: Line, lo: int, hi: int): int
    decreases hi - lo
  {
    if hi <= lo then 0 else SumRange(f, lo, hi - 1) + f(hi - 1)
  }

  // The sum over the 2r + 1 samples around c.
  function WindowSum(f: Line, c: int, r: int): int {
    SumRange(f, c - r, c + r + 1)
  }

  // The mean over the window of odd width bw around c, rounded to the nearest integer.
  function Mean(f: Line, c: int, bw: int): int
    requires bw > 0
  {
    (WindowSum(f, c, bw / 2) + bw / 2) / bw
  }

  lemma {:induction false} SumExtensional(f: Line, g: Line, lo: int, hi: int)
    requires forall i :: lo <= i < hi ==> f(i) == g(i)
    ensures SumRange(f, lo, hi) == SumRange(g, lo, hi)
    decreases hi - lo
  {
    if lo < hi {
      SumExtensional(f, g, lo, hi - 1);
    }
  }

  lemma {:induction false} SumSplit(f: Line, lo: int, mid: int, hi: int)
    requires lo <= mid <= hi
    ensures SumRange(f, lo, hi) == SumRange(f, lo, mid) + SumRange(f, mid, hi)
    decreases hi - mid
  {
    if mid < hi {
      SumSplit(f, lo, mid, hi - 1);
    }
  }

  lemma {:induction false} SumOfZeros(f: Line, lo: int, hi: int)
    requires forall i :: lo <= i < hi ==> f(i) == 0
    ensures SumRange(f, lo, hi) == 0
    decreases hi - lo
  {
    if lo < hi {
      SumOfZeros(f, lo, hi - 1);
    }
  }

  // Moving the window and the line by the same distance changes nothing.
  lemma {:induction false} SumShifted(f: Line, g: Line, lo: int, hi: int, d: int)
    requires forall i :: lo <= i < hi ==> g(i) == f(i + d)
    ensures SumRange(g, lo, hi) == SumRange(f, lo + d, hi + d)
    decreases hi - lo
  {
    if lo < hi {
      SumShifted(f, g, lo, hi - 1, d);
    }
  }

  // The running sum: one sample enters and one leaves.
  lemma SumSlides(f: Line, lo: int, hi: int)
    requires lo <= hi
    ensures SumRange(f, lo + 1, hi + 1) == SumRange(f, lo, hi) + f(hi) - f(lo)
  {
    SumSplit(f, lo, lo + 1, hi + 1);
    assert SumRange(f, lo, lo + 1) == SumRange(f, lo, lo) + f(lo);
  }

  lemma {:induction false} SumBounds(f: Line, lo: int, hi: int, top: int)
    requires lo <= hi
    requires forall i :: lo <= i < hi ==> 0 <= f(i) <= top
    ensures 0 <= SumRange(f, lo, hi) <= top * (hi - lo)
    decreases hi - lo
  {
    if lo < hi {
      SumBounds(f, lo, hi - 1, top);
      assert top * (hi - lo) == top * (hi - 1 - lo) + top;
    }
  }

  // The mean of samples in 0..top is in 0..top.
  lemma MeanBounds(f: Line, c: int, bw: int, top: int)
    requires bw > 0 && bw % 2 == 1
    requires forall i :: c - bw / 2 <= i <= c + bw / 2 ==> 0 <= f(i) <= top
    ensures 0 <= Mean(f, c, bw) <= top
  {
    var r := bw / 2;
    SumBounds(f, c - r, c + r + 1, top);
    assert c + r + 1 - (c - r) == bw;
    QuotientBounds(WindowSum(f, c, r), bw, top);
  }

  lemma QuotientBounds(sum: int, bw: int, top: int)
    requires bw > 0 && 0 <= sum <= top * bw
    ensures 0 <= (sum + bw / 2) / bw <= top
  {
    var q := (sum + bw / 2) / bw;
    assert q * bw <= sum + bw / 2 < (top + 1) * bw;
    ProductOrder(q, top + 1, bw);
  }

  lemma ProductOrder(a: int, b: int, c: int)
    requires c > 0 && a * c < b * c
    ensures a < b
  {
    assert (b - a) * c > 0;
  }

  lemma ProductMonotone(a: int, b: int, c: int)
    requires a <= b && c >= 0
    ensures a * c <= b * c
  {
    assert (b - a) * c >= 0;
  }

  // Rounding loses at most half a window width.
  lemma MeanRounding(f: Line, c: int, r: nat)
    ensures 0 - r <= (2 * r + 1) * Mean(f, c, 2 * r + 1) - WindowSum(f, c, r) <= r
  {
    var bw := 2 * r + 1;
    assert bw / 2 == r;
    var x := WindowSum(f, c, r) + r;
    assert x == bw * (x / bw) + x % bw;
  }

  // Two lines that agree on the window have the same mean.
  lemma MeanShifted(f: Line, g: Line, c: int, bw: int, d: int)
    requires bw > 0
    requires forall i :: c - bw / 2 <= i <= c + bw / 2 ==> g(i) == f(i + d)
    ensures Mean(g, c, bw) == Mean(f, c + d, bw)
  {
    SumShifted(f, g, c - bw / 2, c + bw / 2 + 1, d);
    assert c - bw / 2 + d == c + d - bw / 2 && c + bw / 2 + 1 + d == c + d + bw / 2 + 1;
  }

  // A window of zeros has mean zero: the rounding term alone never reaches the width.
  lemma MeanOfZeros(f: Line, c: int, bw: int)
    requires bw > 0
    requires forall i :: c - bw / 2 <= i <= c + bw / 2 ==> f(i) == 0
    ensures Mean(f, c, bw) == 0
  {
    SumOfZeros(f, c - bw / 2, c + bw / 2 + 1);
  }

  /* ---------- exchanging the double sum over windows ---------- */

  // The sum, over 0 <= c < n, of the window sums around c.
  function SumOfWindows(f: Line, n: nat, r: int): int {
    if n == 0 then 0 else SumOfWindows(f, n - 1, r) + WindowSum(f, n - 1, r)
  }

  lemma {:induction false} SumOfWindowsGrows(f: Line, n: nat, r: nat)
    ensures SumOfWindows(f, n, r + 1) == SumOfWindows(f, n, r) + SumRange(f, r + 1, n + r + 1) + SumRange(f, 0 - r - 1, n - r - 1)
  {
    if n == 0 {
    } else {
      SumOfWindowsGrows(f, n - 1, r);
      var c := n - 1;
      SumSplit(f, c - r - 1, c - r, c + r + 2);
      assert SumRange(f, c - r - 1, c - r) == SumRange(f, c - r - 1, c - r - 1) + f(c - r - 1);
      assert WindowSum(f, c, r + 1) == f(c - r - 1) + WindowSum(f, c, r) + f(c + r + 1);
    }
  }

  // When nothing lies within r of either end, every sample is counted 2r + 1 times.
  lemma {:induction false} WindowsCountEachSample(f: Line, n: nat, r: nat, margin: nat)
    requires r <= margin
    requires forall i :: i < margin || i >= n - margin ==> f(i) == 0
    ensures SumOfWindows(f, n, r) == (2 * r + 1) * SumRange(f, 0, n)
    decreases r
  {
    hide SumOfWindows, SumRange;
    if r == 0 {
      SumOfUnitWindows(f, n);
    } else {
      WindowsCountEachSample(f, n, r - 1, margin);
      SumOfWindowsGrows(f, n, r - 1);
      SumOfSupport(f, n, margin, r);
      SumOfSupport(f, n, margin, 0 - r);
      TwoMore(r, SumRange(f, 0, n));
    }
  }

  lemma TwoMore(r: int, s: int)
    ensures (2 * (r - 1) + 1) * s + s + s == (2 * r + 1) * s
  {
  }

  lemma {:induction false} SumOfUnitWindows(f: Line, n: nat)
    ensures SumOfWindows(f, n, 0) == SumRange(f, 0, n)
  {
    if n != 0 {
      SumOfUnitWindows(f, n - 1);
      assert WindowSum(f, n - 1, 0) == SumRange(f, n - 1, n - 1) + f(n - 1);
    }
  }

  // A range displaced by at most the margin still covers every non-zero sample.
  lemma SumOfSupport(f: Line, n: nat, margin: nat, d: int)
    requires 0 - margin <= d <= margin
    requires forall i :: i < margin || i >= n - margin ==> f(i) == 0
    ensures SumRange(f, d, n + d) == SumRange(f, 0, n)
  {
    if d >= 0 {
      SumSplit(f, 0, d, n + d);
      SumSplit(f, 0, n, n + d);
      SumOfZeros(f, 0, d);
      SumOfZeros(f, n, n + d);
    } else {
      SumSplit(f, d, 0, n);
      SumSplit(f, d, n + d, n);
      SumOfZeros(f, d, 0);
      SumOfZeros(f, n + d, n);
    }
  }
}
