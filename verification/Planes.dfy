/** The two-dimensional blur as a function on planes of bytes, and its locality: what lies outside a
  * rectangle that covers the ink and the filter's reach stays 0, and inside it the blur needs nothing else.
  */
module Planes {
  import opened Windows
  import opened BoxLines

  // Rows of pixels, top to bottom.
  type Plane = seq<seq<Byte>>

  ghost predicate Rectangular(p: Plane, w: nat, h: nat) {
    |p| == h && forall y :: 0 <= y < h ==> |p[y]| == w
  }

  // The pixel at column x of row y; 0 outside the plane.
  function Px(p: Plane, x: int, y: int): Byte {
    if 0 <= y < |p| && 0 <= x < |p[y]| then p[y][x] else 0
  }

  // Planes of the same shape are equal when all their pixels are.
  lemma SamePixels(p: Plane, q: Plane, w: nat, h: nat)
    requires Rectangular(p, w, h) && Rectangular(q, w, h)
    requires forall x, y :: 0 <= x < w && 0 <= y < h ==> Px(p, x, y) == Px(q, x, y)
    ensures p == q
  {
    forall y | 0 <= y < h ensures p[y] == q[y] {
      forall x | 0 <= x < w ensures p[y][x] == q[y][x] {
        assert Px(p, x, y) == Px(q, x, y);
      }
    }
  }

  /* ---------- the passes ---------- */

  predicate OddWidth(bw: int) {
    bw > 0 && bw % 2 == 1
  }

  lemma OddWidthIff(bw: int)
    ensures OddWidth(bw) <==> exists r: nat :: bw == 2 * r + 1
  {
    if OddWidth(bw) {
      assert bw == 2 * (bw / 2) + 1;
    }
  }

  predicate OddWidths(ws: seq<int>) {
    forall k :: 0 <= k < |ws| ==> OddWidth(ws[k])
  }

  // One box pass along every row.
  function HPass(p: Plane, bw: int): (r: Plane)
    requires OddWidth(bw)
    ensures |r| == |p|
    ensures forall y :: 0 <= y < |p| ==> |r[y]| == |p[y]|
  {
    seq(|p|, y requires 0 <= y < |p| => LinePass(p[y], bw))
  }

  function Column(p: Plane, w: nat, x: nat): (c: seq<Byte>)
    requires Rectangular(p, w, |p|) && x < w
    ensures |c| == |p|
  {
    seq(|p|, y requires 0 <= y < |p| => p[y][x])
  }

  function Transpose(p: Plane, w: nat): (r: Plane)
    requires Rectangular(p, w, |p|)
    ensures Rectangular(r, |p|, w)
    ensures forall x, y :: Px(r, y, x) == Px(p, x, y)
  {
    seq(w, x requires 0 <= x < w => Column(p, w, x))
  }

  // One box pass along every column.
  function VPass(p: Plane, w: nat, bw: int): (r: Plane)
    requires Rectangular(p, w, |p|) && OddWidth(bw)
    ensures Rectangular(r, w, |p|)
  {
    Transpose(HPass(Transpose(p, w), bw), |p|)
  }

  // One round of the blur: rows, then columns.
  function Round(p: Plane, w: nat, bw: int): (r: Plane)
    requires Rectangular(p, w, |p|) && OddWidth(bw)
    ensures Rectangular(r, w, |p|)
  {
    VPass(HPass(p, bw), w, bw)
  }

  // All rounds, one for each width.
  function Blurred(p: Plane, w: nat, ws: seq<int>): (r: Plane)
    requires Rectangular(p, w, |p|) && OddWidths(ws)
    ensures Rectangular(r, w, |p|)
    decreases |ws|
  {
    if ws == [] then p else Blurred(Round(p, w, ws[0]), w, ws[1..])
  }

  // How far a pixel's influence extends: the sum of the box radii.
  function Reach(ws: seq<int>): (d: int)
    requires OddWidths(ws)
    ensures d >= 0
  {
    if ws == [] then 0 else ws[0] / 2 + Reach(ws[1..])
  }

  lemma ReachOfThree(ws: seq<int>)
    requires OddWidths(ws) && |ws| == 3
    ensures Reach(ws) == ws[0] / 2 + ws[1] / 2 + ws[2] / 2
  {
    assert ws[1..][1..] == ws[2..] && ws[2..][1..] == [];
    assert Reach(ws[2..]) == ws[2..][0] / 2 + Reach(ws[2..][1..]);
    assert Reach(ws[1..]) == ws[1..][0] / 2 + Reach(ws[2..]);
  }

  /* ---------- rectangles ---------- */

  // Columns x0 <= x < x1 of rows y0 <= y < y1.
  datatype Rect = Rect(x0: int, y0: int, x1: int, y1: int) {
    predicate Has(x: int, y: int) {
      x0 <= x < x1 && y0 <= y < y1
    }

    function Grown(d: int): Rect {
      Rect(x0 - d, y0 - d, x1 + d, y1 + d)
    }

    function Transposed(): Rect {
      Rect(y0, x0, y1, x1)
    }

    predicate Within(w: nat, h: nat) {
      0 <= x0 <= x1 <= w && 0 <= y0 <= y1 <= h
    }
  }

  // Every non-zero pixel lies in the rectangle.
  ghost predicate Supported(p: Plane, r: Rect) {
    forall x, y :: Px(p, x, y) != 0 ==> r.Has(x, y)
  }

  // The sub-image that a rectangle cuts out.
  function Crop(p: Plane, w: nat, r: Rect): (q: Plane)
    requires Rectangular(p, w, |p|) && r.Within(w, |p|)
    ensures Rectangular(q, r.x1 - r.x0, r.y1 - r.y0)
    ensures forall x, y :: 0 <= x < r.x1 - r.x0 && 0 <= y < r.y1 - r.y0 ==> Px(q, x, y) == Px(p, x + r.x0, y + r.y0)
  {
    seq(r.y1 - r.y0, y requires 0 <= y < r.y1 - r.y0 => p[y + r.y0][r.x0..r.x1])
  }

  // A plane that is 0 outside the rectangle is, everywhere, its crop moved into place.
  lemma CropShifts(p: Plane, w: nat, r: Rect, x: int, y: int)
    requires Rectangular(p, w, |p|) && r.Within(w, |p|) && Supported(p, r)
    ensures Px(Crop(p, w, r), x, y) == Px(p, x + r.x0, y + r.y0)
  {
    if !(0 <= x < r.x1 - r.x0 && 0 <= y < r.y1 - r.y0) {
      assert !r.Has(x + r.x0, y + r.y0);
    }
  }

  /* ---------- one pass ---------- */

  lemma HPassPx(p: Plane, w: nat, bw: int, x: int, y: int)
    requires Rectangular(p, w, |p|) && OddWidth(bw) && 0 <= x < w && 0 <= y < |p|
    ensures Px(HPass(p, bw), x, y) == Mean(Samples(p[y]), x, bw)
    ensures forall i :: Samples(p[y])(i) == Px(p, i, y)
  {
  }

  // A horizontal pass spreads ink by its radius, along rows only.
  lemma HPassSupport(p: Plane, w: nat, b: Rect, bw: int)
    requires Rectangular(p, w, |p|) && OddWidth(bw) && Supported(p, b)
    ensures Supported(HPass(p, bw), Rect(b.x0 - bw / 2, b.y0, b.x1 + bw / 2, b.y1))
  {
    var q := HPass(p, bw);
    forall x, y | Px(q, x, y) != 0
      ensures Rect(b.x0 - bw / 2, b.y0, b.x1 + bw / 2, b.y1).Has(x, y)
    {
      HPassPx(p, w, bw, x, y);
      if forall i :: x - bw / 2 <= i <= x + bw / 2 ==> Px(p, i, y) == 0 {
        MeanOfZeros(Samples(p[y]), x, bw);
      }
      var i :| x - bw / 2 <= i <= x + bw / 2 && Px(p, i, y) != 0;
      assert b.Has(i, y);
    }
  }

  // The window around a pixel of the crop holds the same samples as the window around it in the plane.
  lemma MeanOfCrop(p: Plane, w: nat, r: Rect, bw: int, x: int, y: int)
    requires Rectangular(p, w, |p|) && OddWidth(bw)
    requires r.Within(w, |p|) && Supported(p, r)
    requires 0 <= x < r.x1 - r.x0 && 0 <= y < r.y1 - r.y0
    ensures Mean(Samples(Crop(p, w, r)[y]), x, bw) == Mean(Samples(p[y + r.y0]), x + r.x0, bw)
  {
    hide Mean, Crop;
    var c := Crop(p, w, r);
    var f, g := Samples(p[y + r.y0]), Samples(c[y]);
    forall i | x - bw / 2 <= i <= x + bw / 2 ensures g(i) == f(i + r.x0) {
      CropShifts(p, w, r, i, y);
      assert g(i) == Px(c, i, y);
      assert f(i + r.x0) == Px(p, i + r.x0, y + r.y0);
    }
    MeanShifted(f, g, x, bw, r.x0);
  }

  // A horizontal pass of the crop is the crop of the horizontal pass.
  lemma HPassCrop(p: Plane, w: nat, r: Rect, bw: int)
    requires Rectangular(p, w, |p|) && OddWidth(bw)
    requires r.Within(w, |p|) && Supported(p, r)
    ensures HPass(Crop(p, w, r), bw) == Crop(HPass(p, bw), w, r)
  {
    hide Mean, Crop, HPass, Px, Samples;
    var c := Crop(p, w, r);
    var wc, hc := r.x1 - r.x0, r.y1 - r.y0;
    forall x, y | 0 <= x < wc && 0 <= y < hc
      ensures Px(HPass(c, bw), x, y) == Px(Crop(HPass(p, bw), w, r), x, y)
    {
      HPassPx(c, wc, bw, x, y);
      HPassPx(p, w, bw, x + r.x0, y + r.y0);
      MeanOfCrop(p, w, r, bw, x, y);
    }
    SamePixels(HPass(c, bw), Crop(HPass(p, bw), w, r), wc, hc);
  }

  lemma TransposeSupport(p: Plane, w: nat, b: Rect)
    requires Rectangular(p, w, |p|) && Supported(p, b)
    ensures Supported(Transpose(p, w), b.Transposed())
  {
    var t := Transpose(p, w);
    forall x, y | Px(t, y, x) != 0 ensures b.Transposed().Has(y, x) {
      assert Px(p, x, y) != 0;
    }
  }

  lemma TransposeCrop(p: Plane, w: nat, r: Rect)
    requires Rectangular(p, w, |p|) && r.Within(w, |p|)
    ensures Transpose(Crop(p, w, r), r.x1 - r.x0) == Crop(Transpose(p, w), |p|, r.Transposed())
  {
    hide Transpose, Crop, Px;
    var a := Transpose(Crop(p, w, r), r.x1 - r.x0);
    var b := Crop(Transpose(p, w), |p|, r.Transposed());
    forall x, y | 0 <= x < r.x1 - r.x0 && 0 <= y < r.y1 - r.y0 ensures Px(a, y, x) == Px(b, y, x) {
      assert Px(a, y, x) == Px(Crop(p, w, r), x, y) == Px(p, x + r.x0, y + r.y0);
      assert Px(b, y, x) == Px(Transpose(p, w), y + r.y0, x + r.x0);
    }
    SamePixels(a, b, r.y1 - r.y0, r.x1 - r.x0);
  }

  lemma VPassSupport(p: Plane, w: nat, b: Rect, bw: int)
    requires Rectangular(p, w, |p|) && OddWidth(bw) && Supported(p, b)
    ensures Supported(VPass(p, w, bw), Rect(b.x0, b.y0 - bw / 2, b.x1, b.y1 + bw / 2))
  {
    hide Px, HPass, Transpose;
    var t := Transpose(p, w);
    TransposeSupport(p, w, b);
    HPassSupport(t, |p|, b.Transposed(), bw);
    TransposeSupport(HPass(t, bw), |p|, Rect(b.y0 - bw / 2, b.x0, b.y1 + bw / 2, b.x1));
  }

  lemma VPassCrop(p: Plane, w: nat, r: Rect, bw: int)
    requires Rectangular(p, w, |p|) && OddWidth(bw)
    requires r.Within(w, |p|) && Supported(p, r)
    ensures VPass(Crop(p, w, r), r.x1 - r.x0, bw) == Crop(VPass(p, w, bw), w, r)
  {
    hide Px, HPass, Transpose, Crop;
    var t := Transpose(p, w);
    TransposeSupport(p, w, r);
    TransposeCrop(p, w, r);
    HPassCrop(t, |p|, r.Transposed(), bw);
    TransposeCrop(HPass(t, bw), |p|, r.Transposed());
  }

  lemma RoundSupport(p: Plane, w: nat, b: Rect, bw: int)
    requires Rectangular(p, w, |p|) && OddWidth(bw) && Supported(p, b)
    ensures Supported(Round(p, w, bw), b.Grown(bw / 2))
  {
    HPassSupport(p, w, b, bw);
    VPassSupport(HPass(p, bw), w, Rect(b.x0 - bw / 2, b.y0, b.x1 + bw / 2, b.y1), bw);
  }

  /* ---------- locality ---------- */

  // Every pixel of the w x h surface that lies in b also lies in r.
  ghost predicate CoversOnSurface(r: Rect, b: Rect, w: nat, h: nat) {
    forall x, y :: 0 <= x < w && 0 <= y < h && b.Has(x, y) ==> r.Has(x, y)
  }

  lemma SupportCovered(p: Plane, w: nat, b: Rect, r: Rect, d: nat)
    requires Rectangular(p, w, |p|) && Supported(p, b) && CoversOnSurface(r, b.Grown(d), w, |p|)
    ensures Supported(p, r)
  {
    forall x, y | Px(p, x, y) != 0 ensures r.Has(x, y) {
      assert b.Has(x, y);
      assert b.Grown(d).Has(x, y);
    }
  }

  // One round of the crop is the crop of one round.
  lemma RoundCrop(p: Plane, w: nat, b: Rect, r: Rect, bw: int)
    requires Rectangular(p, w, |p|) && OddWidth(bw) && Supported(p, b)
    requires r.Within(w, |p|) && CoversOnSurface(r, b.Grown(bw / 2), w, |p|)
    ensures Round(Crop(p, w, r), r.x1 - r.x0, bw) == Crop(Round(p, w, bw), w, r)
  {
    hide Px, HPass, VPass, Crop;
    SupportCovered(p, w, b, r, bw / 2);
    HPassCrop(p, w, r, bw);
    var mid := Rect(b.x0 - bw / 2, b.y0, b.x1 + bw / 2, b.y1);
    HPassSupport(p, w, b, bw);
    assert CoversOnSurface(r, mid.Grown(0), w, |p|) by {
      forall x, y | 0 <= x < w && 0 <= y < |p| && mid.Grown(0).Has(x, y) ensures r.Has(x, y) {
        assert b.Grown(bw / 2).Has(x, y);
      }
    }
    SupportCovered(HPass(p, bw), w, mid, r, 0);
    VPassCrop(HPass(p, bw), w, r, bw);
  }

  lemma CoversLess(r: Rect, b: Rect, d: nat, e: nat, w: nat, h: nat)
    requires CoversOnSurface(r, b.Grown(e), w, h) && d <= e
    ensures CoversOnSurface(r, b.Grown(d), w, h)
  {
    forall x, y | 0 <= x < w && 0 <= y < h && b.Grown(d).Has(x, y) ensures r.Has(x, y) {
      assert b.Grown(e).Has(x, y);
    }
  }

  // Blurring a rectangle that holds the ink and the reach is blurring the whole plane: outside the
  // rectangle the blur is 0, inside it is, byte for byte, the blur of the rectangle alone.
  lemma {:induction false} BlurIsLocal(p: Plane, w: nat, b: Rect, r: Rect, ws: seq<int>)
    requires Rectangular(p, w, |p|) && OddWidths(ws) && Supported(p, b)
    requires r.Within(w, |p|) && CoversOnSurface(r, b.Grown(Reach(ws)), w, |p|)
    ensures Supported(Blurred(p, w, ws), r)
    ensures Blurred(Crop(p, w, r), r.x1 - r.x0, ws) == Crop(Blurred(p, w, ws), w, r)
    decreases |ws|
  {
    hide Px, Round, Crop;
    if ws == [] {
      SupportCovered(p, w, b, r, 0);
    } else {
      var d, rest := ws[0] / 2, Reach(ws[1..]);
      CoversLess(r, b, d, d + rest, w, |p|);
      RoundCrop(p, w, b, r, ws[0]);
      RoundSupport(p, w, b, ws[0]);
      assert b.Grown(d).Grown(rest) == b.Grown(d + rest);
      BlurIsLocal(Round(p, w, ws[0]), w, b.Grown(d), r, ws[1..]);
    }
  }
}
