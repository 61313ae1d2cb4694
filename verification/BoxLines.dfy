/** One box pass over a strided line of bytes (src/box_blur.c, box_line): what it computes, and the
  * running-sum loop that computes it.
  */
module BoxLines {
  import opened Windows

  type Byte = b: int | 0 <= b < 256

  // The line as samples at every integer position: outside it everything is 0.
  function Samples(s: seq<Byte>): Line {
    (i: int) => if 0 <= i < |s| then s[i] else 0
  }

  function MeanByte(s: seq<Byte>, c: int, bw: int): (m: Byte)
    requires bw > 0 && bw % 2 == 1
  {
    MeanIsByte(s, c, bw);
    Mean(Samples(s), c, bw)
  }

  lemma MeanIsByte(s: seq<Byte>, c: int, bw: int)
    requires bw > 0 && bw % 2 == 1
    ensures 0 <= Mean(Samples(s), c, bw) < 256
  {
    MeanBounds(Samples(s), c, bw, 255);
  }

  // A box pass: every sample becomes the rounded mean of the window around it.
  function LinePass(s: seq<Byte>, bw: int): (r: seq<Byte>)
    requires bw > 0 && bw % 2 == 1
    ensures |r| == |s|
  {
    seq(|s|, i => MeanByte(s, i, bw))
  }

  /* ---------- mass ---------- */

  function Mass(s: seq<Byte>): int {
    SumRange(Samples(s), 0, |s|)
  }

  // A line that is empty near both ends keeps its mass, up to half a window width of rounding a sample.
  lemma MassConserved(s: seq<Byte>, r: nat)
    requires forall i :: 0 <= i < |s| && (i < r || i >= |s| - r) ==> s[i] == 0
    ensures var bw := 2 * r + 1;
            -(|s| * r) <= bw * Mass(LinePass(s, bw)) - bw * Mass(s) <= |s| * r
  {
    var bw := 2 * r + 1;
    var f := Samples(s);
    WindowsCountEachSample(f, |s|, r, r);
    MassOfPrefix(s, r, |s|);
  }

  lemma {:induction false} MassOfPrefix(s: seq<Byte>, r: nat, n: nat)
    requires n <= |s|
    ensures var bw := 2 * r + 1;
            -(n * r) <= bw * SumRange(Samples(LinePass(s, bw)), 0, n) - SumOfWindows(Samples(s), n, r) <= n * r
  {
    hide SumRange, WindowSum;
    var bw := 2 * r + 1;
    var g := Samples(LinePass(s, bw));
    if n == 0 {
      MassOfNothing(g);
    } else {
      assert SumRange(g, 0, n) == SumRange(g, 0, n - 1) + g(n - 1) by {
        SumGrows(g, 0, n - 1);
      }
      MassOfPrefix(s, r, n - 1);
      MeanRounding(Samples(s), n - 1, r);
      assert g(n - 1) == Mean(Samples(s), n - 1, bw);
      RoundingAdds(bw, SumRange(g, 0, n - 1), g(n - 1), SumOfWindows(Samples(s), n - 1, r),
                   WindowSum(Samples(s), n - 1, r), n, r);
    }
  }

  lemma SumGrows(f: Line, lo: int, hi: int)
    requires lo <= hi
    ensures SumRange(f, lo, hi + 1) == SumRange(f, lo, hi) + f(hi)
  {
  }

  lemma MassOfNothing(f: Line)
    ensures SumRange(f, 0, 0) == 0
  {
  }

  lemma RoundingAdds(bw: int, sum: int, last: int, windows: int, window: int, n: int, r: int)
    requires -((n - 1) * r) <= bw * sum - windows <= (n - 1) * r
    requires -r <= bw * last - window <= r
    ensures -(n * r) <= bw * (sum + last) - (windows + window) <= n * r
  {
    assert bw * (sum + last) == bw * sum + bw * last;
    assert n * r == (n - 1) * r + r;
  }

  /* ---------- strided lines ---------- */

  // The position of sample i of the line that starts at `off` and advances by `step`.
  function IndexOn(off: nat, i: nat, step: nat): nat {
    off + i * step
  }

  // Which sample of that line position k holds, or -1.
  function Slot(k: nat, off: nat, step: nat): int
    requires step > 0
  {
    if k >= off && (k - off) % step == 0 then (k - off) / step else -1
  }

  predicate LineFits(size: nat, off: nat, n: nat, step: nat) {
    step > 0 && (n > 0 ==> IndexOn(off, n - 1, step) < size)
  }

  // A line fits a buffer exactly when each of its samples does.
  lemma LineFitsIff(size: nat, off: nat, n: nat, step: nat)
    ensures LineFits(size, off, n, step) <==> step > 0 && forall i: nat :: i < n ==> IndexOn(off, i, step) < size
    ensures forall i: nat :: IndexOn(off, i, step) == off + i * step
  {
    if LineFits(size, off, n, step) {
      forall i: nat | i < n ensures IndexOn(off, i, step) < size {
        IndexFits(size, off, n, step, i);
      }
    }
  }

  lemma SlotOfIndex(off: nat, i: nat, step: nat)
    requires step > 0
    ensures Slot(IndexOn(off, i, step), off, step) == i
  {
    DivModUnique(i * step, step, i, 0);
  }

  lemma DivModUnique(x: int, d: int, q: int, r: int)
    requires d > 0 && x == q * d + r && 0 <= r < d
    ensures x / d == q && x % d == r
  {
    var e := x / d - q;
    assert e * d == r - x % d;
    ProductOrder(e, 1, d);
    ProductOrder(-1, e, d);
  }

  lemma IndexOfSlot(k: nat, off: nat, step: nat)
    requires step > 0 && Slot(k, off, step) >= 0
    ensures IndexOn(off, Slot(k, off, step), step) == k
  {
    var x := k - off;
    assert x == step * (x / step) + x % step;
  }

  lemma IndexFits(size: nat, off: nat, n: nat, step: nat, i: nat)
    requires LineFits(size, off, n, step) && i < n
    ensures IndexOn(off, i, step) < size
  {
    ProductMonotone(i, n - 1, step);
  }

  // The samples of a strided line.
  function Gather(s: seq<Byte>, off: nat, n: nat, step: nat): (r: seq<Byte>)
    requires LineFits(|s|, off, n, step)
    ensures |r| == n
  {
    seq(n, i requires 0 <= i < n => IndexFits(|s|, off, n, step, i); s[IndexOn(off, i, step)])
  }

  lemma GatherAt(s: seq<Byte>, off: nat, n: nat, step: nat, i: nat)
    requires LineFits(|s|, off, n, step) && i < n
    ensures IndexOn(off, i, step) < |s| && Gather(s, off, n, step)[i] == s[IndexOn(off, i, step)]
  {
    IndexFits(|s|, off, n, step, i);
  }

  // The buffer with a strided line replaced.
  function Scatter(s: seq<Byte>, off: nat, step: nat, line: seq<Byte>): (r: seq<Byte>)
    requires step > 0
    ensures |r| == |s|
  {
    seq(|s|, k requires 0 <= k < |s| =>
      var j := Slot(k, off, step);
      if 0 <= j < |line| then line[j] else s[k])
  }

  // Reading back the line that was written.
  lemma GatherOfScatter(s: seq<Byte>, off: nat, step: nat, line: seq<Byte>)
    requires LineFits(|s|, off, |line|, step)
    ensures Gather(Scatter(s, off, step, line), off, |line|, step) == line
  {
    forall i | 0 <= i < |line|
      ensures Gather(Scatter(s, off, step, line), off, |line|, step)[i] == line[i]
    {
      IndexFits(|s|, off, |line|, step, i);
      SlotOfIndex(off, i, step);
    }
  }

  /* ---------- box_line ---------- */

  // The conversion of an in-range value to unsigned char.
  function AsByte(v: int): Byte {
    v % 256
  }

  // Loads the first min(r + 1, n) samples: together with the zeros around the line, the window at 0.
  method FirstWindow(tmp: array<Byte>, n: nat, r: nat) returns (sum: int)
    requires n <= tmp.Length
    ensures sum == SumRange(Samples(tmp[..n]), 0 - r, r + 1)
  {
    ghost var f := Samples(tmp[..n]);
    sum := 0;
    var i := 0;
    while i <= r && i < n
      invariant i <= r + 1 && i <= n
      invariant sum == SumRange(f, 0, i)
    {
      sum := sum + tmp[i];
      i := i + 1;
    }
    SumSplit(f, 0 - r, 0, r + 1);
    SumOfZeros(f, 0 - r, 0);
    SumSplit(f, 0, i, r + 1);
    SumOfZeros(f, i, r + 1);
  }

  // Moves the window from i to i + 1.
  method SlideWindow(tmp: array<Byte>, n: nat, r: nat, i: nat, sum: int) returns (next: int)
    requires i < n <= tmp.Length
    requires sum == SumRange(Samples(tmp[..n]), i - r, i + r + 1)
    ensures next == SumRange(Samples(tmp[..n]), i + 1 - r, i + 1 + r + 1)
  {
    next := sum;
    var add, sub := i + r + 1, i - r;
    if add < n {
      next := next + tmp[add];
    }
    if sub >= 0 {
      next := next - tmp[sub];
    }
    SumSlides(Samples(tmp[..n]), i - r, i + r + 1);
  }

  method BoxLine(p: array<Byte>, off: nat, n: nat, step: nat, bw: int, tmp: array<Byte>)
    requires bw > 0 && bw % 2 == 1
    requires LineFits(p.Length, off, n, step)
    requires n <= tmp.Length && p != tmp
    modifies p, tmp
    ensures p[..] == Scatter(old(p[..]), off, step, LinePass(Gather(old(p[..]), off, n, step), bw))
  {
    hide IndexOn, Slot, AsByte, Gather, LinePass, Samples, SumRange;
    ghost var was := p[..];
    ghost var line := Gather(was, off, n, step);
    ghost var out := LinePass(line, bw);
    var r := bw / 2;
    for i := 0 to n
      invariant p[..] == was
      invariant tmp[..i] == line[..i]
    {
      IndexFits(p.Length, off, n, step, i);
      GatherAt(was, off, n, step, i);
      tmp[i] := p[IndexOn(off, i, step)];
    }
    assert tmp[..n] == line;
    var sum := FirstWindow(tmp, n, r);
    for i := 0 to n
      invariant tmp[..n] == line
      invariant sum == SumRange(Samples(line), i - r, i + r + 1)
      invariant forall k :: 0 <= k < p.Length ==>
        p[k] == if 0 <= Slot(k, off, step) < i then out[Slot(k, off, step)] else was[k]
    {
      IndexFits(p.Length, off, n, step, i);
      var here := IndexOn(off, i, step);
      MeanOfRunningSum(line, i, bw, sum);
      p[here] := AsByte((sum + bw / 2) / bw);
      SlotOfIndex(off, i, step);
      forall k | 0 <= k < p.Length && Slot(k, off, step) == i ensures k == here {
        IndexOfSlot(k, off, step);
      }
      sum := SlideWindow(tmp, n, r, i, sum);
    }
  }

  lemma MeanOfRunningSum(line: seq<Byte>, i: nat, bw: int, sum: int)
    requires bw > 0 && bw % 2 == 1 && i < |line|
    requires sum == SumRange(Samples(line), i - bw / 2, i + bw / 2 + 1)
    ensures AsByte((sum + bw / 2) / bw) == LinePass(line, bw)[i]
  {
    MeanIsByte(line, i, bw);
  }
}
