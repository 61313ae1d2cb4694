/** bb_ink_rect (src/box_blur.c): the tight bounds of the ink, grown by the filter's reach, and why
  * blurring that rectangle alone is blurring the whole surface.
  */
module InkRect {
  import opened BoxBlur
  import opened BoxLines
  import opened BoxSizes
  import opened Doubles
  import opened Planes
  import opened Windows

  predicate SurfaceFits(size: nat, w: nat, h: nat, stride: nat) {
    0 < w && 4 * w <= stride && 0 < h && (h - 1) * stride + 4 * w <= size
  }

  // Byte `ch` of the pixel at (x, y) of an ARGB32 surface.
  function ByteOf(x: nat, y: nat, stride: nat, ch: nat): nat {
    Cell(x * 4 + ch, y, stride)
  }

  lemma ByteFits(size: nat, w: nat, h: nat, stride: nat, x: nat, y: nat, ch: nat)
    requires SurfaceFits(size, w, h, stride) && x < w && y < h && ch < 4
    ensures ByteOf(x, y, stride, ch) < size
  {
    ProductMonotone(y, h - 1, stride);
  }

  // A surface fits a buffer exactly when every byte of every pixel does.
  lemma SurfaceFitsIff(size: nat, w: nat, h: nat, stride: nat)
    ensures SurfaceFits(size, w, h, stride) <==>
            && 0 < w && 4 * w <= stride && 0 < h
            && forall x: nat, y: nat, ch: nat :: x < w && y < h && ch < 4 ==> ByteOf(x, y, stride, ch) < size
    ensures forall x: nat, y: nat, ch: nat :: ByteOf(x, y, stride, ch) == y * stride + 4 * x + ch
  {
    if SurfaceFits(size, w, h, stride) {
      forall x: nat, y: nat, ch: nat | x < w && y < h && ch < 4 ensures ByteOf(x, y, stride, ch) < size {
        ByteFits(size, w, h, stride, x, y, ch);
      }
    } else if 0 < w && 4 * w <= stride && 0 < h {
      assert ByteOf(w - 1, h - 1, stride, 3) >= size;
    }
  }

  // One of the four channels as a plane; channel 3 is alpha.
  function Channel(s: seq<Byte>, w: nat, h: nat, stride: nat, ch: nat): (p: Plane)
    requires SurfaceFits(|s|, w, h, stride) && ch < 4
    ensures Rectangular(p, w, h)
  {
    seq(h, y requires 0 <= y < h =>
      seq(w, x requires 0 <= x < w => ByteFits(|s|, w, h, stride, x, y, ch); s[ByteOf(x, y, stride, ch)]))
  }

  // Premultiplied: a pixel with no alpha has no colour either.
  ghost predicate Premultiplied(s: seq<Byte>, w: nat, h: nat, stride: nat)
    requires SurfaceFits(|s|, w, h, stride)
  {
    forall ch, x, y :: 0 <= ch < 4 && Px(Channel(s, w, h, stride, 3), x, y) == 0 ==> Px(Channel(s, w, h, stride, ch), x, y) == 0
  }

  /* ---------- ink bounds ---------- */

  ghost predicate InkInColumn(p: Plane, x: int) {
    exists y :: Px(p, x, y) != 0
  }

  ghost predicate InkInRow(p: Plane, y: int) {
    exists x :: Px(p, x, y) != 0
  }

  ghost predicate HasInk(p: Plane) {
    exists x, y :: Px(p, x, y) != 0
  }

  // The smallest rectangle that holds every non-zero pixel: it holds them all, and each side touches one.
  ghost predicate InkBox(p: Plane, b: Rect) {
    && Supported(p, b)
    && InkInColumn(p, b.x0) && InkInColumn(p, b.x1 - 1)
    && InkInRow(p, b.y0) && InkInRow(p, b.y1 - 1)
  }

  lemma InkBoxSmallest(p: Plane, b: Rect, r: Rect)
    requires InkBox(p, b) && Supported(p, r)
    ensures r.x0 <= b.x0 && r.y0 <= b.y0 && b.x1 <= r.x1 && b.y1 <= r.y1
  {
    var ya :| Px(p, b.x0, ya) != 0;
    assert r.Has(b.x0, ya);
    var yb :| Px(p, b.x1 - 1, yb) != 0;
    assert r.Has(b.x1 - 1, yb);
    var xa :| Px(p, xa, b.y0) != 0;
    assert r.Has(xa, b.y0);
    var xb :| Px(p, xb, b.y1 - 1) != 0;
    assert r.Has(xb, b.y1 - 1);
  }

  // Clamped to a w x h surface.
  function Clamped(b: Rect, w: nat, h: nat): Rect {
    Rect(if b.x0 > 0 then b.x0 else 0,
         if b.y0 > 0 then b.y0 else 0,
         if b.x1 < w then b.x1 else w,
         if b.y1 < h then b.y1 else h)
  }

  lemma ClampedCovers(p: Plane, w: nat, h: nat, b: Rect, d: nat)
    requires Rectangular(p, w, h) && InkBox(p, b)
    ensures Clamped(b.Grown(d), w, h).Within(w, h)
    ensures CoversOnSurface(Clamped(b.Grown(d), w, h), b.Grown(d), w, h)
  {
    var ya :| Px(p, b.x0, ya) != 0;
    assert b.Has(b.x0, ya);
  }

  // The damage rectangle is enough for every channel of a premultiplied surface: outside it the blur is
  // 0, and inside it the blur is that of the rectangle alone.
  lemma InkRectIsEnough(s: seq<Byte>, w: nat, h: nat, stride: nat, sigma: real, b: Rect, ch: nat)
    requires SurfaceFits(|s|, w, h, stride) && Premultiplied(s, w, h, stride) && sigma > 0.0 && ch < 4
    requires InkBox(Channel(s, w, h, stride, 3), b)
    ensures OddWidths(Widths(sigma))
    ensures var ws := Widths(sigma);
            var r := Clamped(b.Grown(Reach(ws)), w, h);
            var p := Channel(s, w, h, stride, ch);
            r.Within(w, h) && Supported(Blurred(p, w, ws), r) &&
            Blurred(Crop(p, w, r), r.x1 - r.x0, ws) == Crop(Blurred(p, w, ws), w, r)
  {
    hide Channel, Blurred, Crop, Widths, Px;
    WidthsOdd(sigma);
    var ws := Widths(sigma);
    var alpha, p := Channel(s, w, h, stride, 3), Channel(s, w, h, stride, ch);
    assert Supported(p, b);
    ClampedCovers(alpha, w, h, b, Reach(ws));
    BlurIsLocal(p, w, b, Clamped(b.Grown(Reach(ws)), w, h), ws);
  }

  /* ---------- the scan ---------- */

  // first and last are the first and the last column with ink in row y, or first is negative and there is none.
  ghost predicate RowBounds(p: Plane, y: int, first: int, last: int) {
    if first < 0 then
      forall x :: Px(p, x, y) == 0
    else
      && first <= last && Px(p, first, y) != 0 && Px(p, last, y) != 0
      && forall x :: Px(p, x, y) != 0 ==> first <= x <= last
  }

  method RowInk(argb: array<Byte>, w: nat, h: nat, stride: nat, y: nat) returns (first: int, last: int)
    requires SurfaceFits(argb.Length, w, h, stride) && y < h
    ensures RowBounds(Channel(argb[..], w, h, stride, 3), y, first, last)
  {
    hide ByteOf;
    ghost var alpha := Channel(argb[..], w, h, stride, 3);
    first, last := -1, -1;
    for x := 0 to w
      invariant forall i :: 0 <= i < x ==> Px(alpha, i, y) == 0
      invariant first == -1
    {
      ByteFits(argb.Length, w, h, stride, x, y, 3);
      assert Px(alpha, x, y) == argb[ByteOf(x, y, stride, 3)];
      if argb[ByteOf(x, y, stride, 3)] != 0 {
        first := x;
        break;
      }
    }
    if first < 0 {
      return;
    }
    var x := w - 1;
    while x >= first
      invariant first - 1 <= x < w
      invariant forall i :: x < i < w ==> Px(alpha, i, y) == 0
      invariant last == -1
      decreases x
    {
      ByteFits(argb.Length, w, h, stride, x, y, 3);
      assert Px(alpha, x, y) == argb[ByteOf(x, y, stride, 3)];
      if argb[ByteOf(x, y, stride, 3)] != 0 {
        last := x;
        break;
      }
      x := x - 1;
    }
  }

  // The bounds of the ink in the rows above y, as the scan keeps them: inclusive, and empty as (w, h, -1, -1).
  ghost predicate BoundsSoFar(p: Plane, w: nat, h: nat, y: nat, x0: int, y0: int, x1: int, y1: int) {
    if x1 < 0 then
      x0 == w && y0 == h && y1 == -1 && forall i, j :: j < y ==> Px(p, i, j) == 0
    else
      && (forall i, j :: j < y && Px(p, i, j) != 0 ==> x0 <= i <= x1 && y0 <= j <= y1)
      && 0 <= x0 < w && 0 <= y0 < h
      && InkInColumn(p, x0) && InkInColumn(p, x1) && InkInRow(p, y0) && InkInRow(p, y1)
  }

  // Returns 1 and the rectangle when there is ink to blur; `box` is the ink's own bounding box.
  method FindInkRect(argb: array?<Byte>, w: int, h: int, stride: int, sigma: Double, rect: array?<int>)
    returns (ok: bool, ghost box: Rect)
    requires argb != null && w > 0 && h > 0 && stride >= w * 4 ==> SurfaceFits(argb.Length, w, h, stride)
    requires rect != null ==> rect.Length == 4
    modifies if rect == null then {} else {rect}
    ensures ok <==> argb != null && rect != null && w > 0 && h > 0 && stride >= w * 4 && Blurs(sigma) &&
                    HasInk(Channel(argb[..], w, h, stride, 3))
    ensures ok ==> OddWidths(Widths(sigma.value)) && InkBox(Channel(argb[..], w, h, stride, 3), box)
    ensures ok ==> var r := Clamped(box.Grown(Reach(Widths(sigma.value))), w, h); rect[..] == [r.x0, r.y0, r.x1, r.y1]
    ensures rect != null && !ok ==> rect[..] == old(rect[..])
  {
    hide Channel, Widths, HasInk, InkBox, BoundsSoFar, RowBounds, SurfaceFits;
    box := Rect(0, 0, 0, 0);
    var sizes := new int[3];
    if argb == null || rect == null || w <= 0 || h <= 0 || stride < w * 4 {
      return false, box;
    }
    var blurs := BoxWidths(sigma, sizes);
    if !blurs {
      return false, box;
    }
    ghost var alpha := Channel(argb[..], w, h, stride, 3);
    var x0, y0, x1, y1 := w, h, -1, -1;
    NoRows(alpha, w, h);
    for y := 0 to h
      invariant sizes[..] == Widths(sigma.value)
      invariant rect[..] == old(rect[..])
      invariant BoundsSoFar(alpha, w, h, y, x0, y0, x1, y1)
    {
      var first, last := RowInk(argb, w, h, stride, y);
      ghost var X0, Y0, X1, Y1 := x0, y0, x1, y1;
      if first < 0 {
        NextRow(alpha, w, h, y, X0, Y0, X1, Y1, first, last);
        continue;
      }
      if first < x0 {
        x0 := first;
      }
      if last > x1 {
        x1 := last;
      }
      if y < y0 {
        y0 := y;
      }
      y1 := y;
      NextRow(alpha, w, h, y, X0, Y0, X1, Y1, first, last);
    }
    if x1 < 0 {
      AllRowsScanned(alpha, w, h, x0, y0, x1, y1);
      return false, box;
    }
    box := Rect(x0, y0, x1 + 1, y1 + 1);
    WidthsOdd(sigma.value);
    ReachOfThree(Widths(sigma.value));
    var reach := sizes[0] / 2 + sizes[1] / 2 + sizes[2] / 2;
    rect[0] := if x0 - reach > 0 then x0 - reach else 0;
    rect[1] := if y0 - reach > 0 then y0 - reach else 0;
    rect[2] := if x1 + reach + 1 < w then x1 + reach + 1 else w;
    rect[3] := if y1 + reach + 1 < h then y1 + reach + 1 else h;
    AllRowsScanned(alpha, w, h, x0, y0, x1, y1);
    return true, box;
  }

  lemma NextRow(p: Plane, w: nat, h: nat, y: nat, x0: int, y0: int, x1: int, y1: int, first: int, last: int)
    requires Rectangular(p, w, h) && y < h && BoundsSoFar(p, w, h, y, x0, y0, x1, y1)
    requires RowBounds(p, y, first, last)
    ensures if first < 0 then BoundsSoFar(p, w, h, y + 1, x0, y0, x1, y1)
            else BoundsSoFar(p, w, h, y + 1, if first < x0 then first else x0, if y < y0 then y else y0,
                             if last > x1 then last else x1, y)
  {
  }

  lemma NoRows(p: Plane, w: nat, h: nat)
    ensures BoundsSoFar(p, w, h, 0, w, h, -1, -1)
  {
  }

  lemma AllRowsScanned(p: Plane, w: nat, h: nat, x0: int, y0: int, x1: int, y1: int)
    requires Rectangular(p, w, h) && BoundsSoFar(p, w, h, h, x0, y0, x1, y1)
    ensures if x1 < 0 then !HasInk(p) else HasInk(p) && InkBox(p, Rect(x0, y0, x1 + 1, y1 + 1))
  {
    if x1 >= 0 {
      var b := Rect(x0, y0, x1 + 1, y1 + 1);
      var j :| Px(p, x0, j) != 0;
      assert HasInk(p);
    }
  }
}
