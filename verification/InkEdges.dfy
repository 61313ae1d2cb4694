/** Whether the damage rectangle of bb_ink_rect is the smallest one (include/box_blur.h, src/box_blur.c):
  * what reaches a side of it is decided by the outermost line of ink alone.
  */
module InkEdges {
  import opened BoxBlur
  import opened BoxLines
  import opened BoxSizes
  import opened InkRect
  import opened Planes
  import opened Windows

  predicate Beyond(right: bool, e: int, x: int) {
    if right then x > e else x < e
  }

  function Outward(right: bool, e: int, r: int): int {
    if right then e + r else e - r
  }

  // No ink on the far side of column e.
  ghost predicate BlankBeyond(p: Plane, e: int, right: bool) {
    forall x, y :: Beyond(right, e, x) ==> Px(p, x, y) == 0
  }

  // Each sample alone in its window.
  function Thinned(c: seq<Byte>, bw: int): (t: seq<Byte>)
    requires OddWidth(bw)
    ensures |t| == |c|
  {
    seq(|c|, i requires 0 <= i < |c| => ThinnedByte(c[i], bw))
  }

  function ThinnedByte(v: Byte, bw: int): Byte
    requires OddWidth(bw)
  {
    QuotientBounds(v, bw, 255);
    (v + bw / 2) / bw
  }

  /* ---------- one pass ---------- */

  // The mean of a window with one sample that is not 0.
  lemma LoneMean(f: Line, c: int, bw: int, e: int)
    requires OddWidth(bw) && c - bw / 2 <= e <= c + bw / 2
    requires forall i :: c - bw / 2 <= i <= c + bw / 2 && i != e ==> f(i) == 0
    ensures Mean(f, c, bw) == (f(e) + bw / 2) / bw
  {
    var lo, hi := c - bw / 2, c + bw / 2 + 1;
    SumSplit(f, lo, e, hi);
    SumSplit(f, e, e + 1, hi);
    SumOfZeros(f, lo, e);
    SumOfZeros(f, e + 1, hi);
    assert SumRange(f, e, e + 1) == SumRange(f, e, e) + f(e);
  }

  // A horizontal pass moves the outermost column of ink outward by its radius, thinned.
  lemma HPassEdge(p: Plane, w: nat, bw: int, e: int, right: bool)
    requires Rectangular(p, w, |p|) && OddWidth(bw) && BlankBeyond(p, e, right)
    requires 0 <= e < w && 0 <= Outward(right, e, bw / 2) < w
    ensures BlankBeyond(HPass(p, bw), Outward(right, e, bw / 2), right)
    ensures Column(HPass(p, bw), w, Outward(right, e, bw / 2)) == Thinned(Column(p, w, e), bw)
  {
    hide Mean, LinePass;
    var q, e' := HPass(p, bw), Outward(right, e, bw / 2);
    forall x, y | Beyond(right, e', x) ensures Px(q, x, y) == 0 {
      if 0 <= x < w && 0 <= y < |p| {
        HPassPx(p, w, bw, x, y);
        MeanOfZeros(Samples(p[y]), x, bw);
      }
    }
    forall y | 0 <= y < |p| ensures Column(q, w, e')[y] == Thinned(Column(p, w, e), bw)[y] {
      HPassPx(p, w, bw, e', y);
      LoneMean(Samples(p[y]), e', bw, e);
      assert Column(q, w, e')[y] == Px(q, e', y);
    }
  }

  // A vertical pass works within columns.
  lemma VPassColumn(p: Plane, w: nat, bw: int, x: nat)
    requires Rectangular(p, w, |p|) && OddWidth(bw) && x < w
    ensures Column(VPass(p, w, bw), w, x) == LinePass(Column(p, w, x), bw)
  {
    hide LinePass;
    var t := HPass(Transpose(p, w), bw);
    assert t[x] == LinePass(Column(p, w, x), bw);
    forall y | 0 <= y < |p| ensures Column(VPass(p, w, bw), w, x)[y] == t[x][y] {
      assert Px(VPass(p, w, bw), x, y) == Px(t, y, x);
    }
  }

  lemma BlankLine(c: seq<Byte>, bw: int)
    requires OddWidth(bw) && forall i :: 0 <= i < |c| ==> c[i] == 0
    ensures forall i :: 0 <= i < |c| ==> LinePass(c, bw)[i] == 0
  {
    forall i | 0 <= i < |c| ensures LinePass(c, bw)[i] == 0 {
      MeanOfZeros(Samples(c), i, bw);
    }
  }

  lemma VPassKeepsBlank(p: Plane, w: nat, bw: int, e: int, right: bool)
    requires Rectangular(p, w, |p|) && OddWidth(bw) && BlankBeyond(p, e, right)
    ensures BlankBeyond(VPass(p, w, bw), e, right)
  {
    hide LinePass, VPass;
    var q := VPass(p, w, bw);
    forall x, y | Beyond(right, e, x) ensures Px(q, x, y) == 0 {
      if 0 <= x < w && 0 <= y < |p| {
        VPassColumn(p, w, bw, x);
        forall i | 0 <= i < |p| ensures Column(p, w, x)[i] == 0 {
          assert Column(p, w, x)[i] == Px(p, x, i);
        }
        BlankLine(Column(p, w, x), bw);
        assert Px(q, x, y) == Column(q, w, x)[y];
      }
    }
  }

  // The same for rows, which a horizontal pass works within.
  lemma HPassKeepsBlankRows(p: Plane, w: nat, bw: int, e: int, down: bool)
    requires Rectangular(p, w, |p|) && OddWidth(bw) && BlankBeyond(Transpose(p, w), e, down)
    ensures BlankBeyond(Transpose(HPass(p, bw), w), e, down)
  {
    hide LinePass, Transpose;
    var q := HPass(p, bw);
    forall y, x | Beyond(down, e, y) ensures Px(Transpose(q, w), y, x) == 0 {
      if 0 <= x < w && 0 <= y < |p| {
        forall i | 0 <= i < w ensures p[y][i] == 0 {
          assert p[y][i] == Px(p, i, y) == Px(Transpose(p, w), y, i);
        }
        BlankLine(p[y], bw);
      }
    }
  }

  lemma TransposeTwice(p: Plane, w: nat)
    requires Rectangular(p, w, |p|)
    ensures Transpose(Transpose(p, w), |p|) == p
    ensures forall y :: 0 <= y < |p| ==> Column(Transpose(p, w), |p|, y) == p[y]
  {
    SamePixels(Transpose(Transpose(p, w), |p|), p, w, |p|);
    forall y | 0 <= y < |p| ensures Column(Transpose(p, w), |p|, y) == p[y] {
      forall x | 0 <= x < w ensures Column(Transpose(p, w), |p|, y)[x] == p[y][x] {
        assert Px(Transpose(p, w), y, x) == Px(p, x, y);
      }
    }
  }

  /* ---------- one round ---------- */

  lemma RoundColumnEdge(p: Plane, w: nat, bw: int, e: int, right: bool)
    requires Rectangular(p, w, |p|) && OddWidth(bw) && BlankBeyond(p, e, right)
    requires 0 <= e < w && 0 <= Outward(right, e, bw / 2) < w
    ensures BlankBeyond(Round(p, w, bw), Outward(right, e, bw / 2), right)
    ensures Column(Round(p, w, bw), w, Outward(right, e, bw / 2)) == LinePass(Thinned(Column(p, w, e), bw), bw)
  {
    hide HPass, VPass, LinePass, BlankBeyond, Thinned, Column;
    HPassEdge(p, w, bw, e, right);
    VPassKeepsBlank(HPass(p, bw), w, bw, Outward(right, e, bw / 2), right);
    VPassColumn(HPass(p, bw), w, bw, Outward(right, e, bw / 2));
  }

  lemma RoundRowEdge(p: Plane, w: nat, bw: int, e: int, down: bool)
    requires Rectangular(p, w, |p|) && OddWidth(bw) && BlankBeyond(Transpose(p, w), e, down)
    requires 0 <= e < |p| && 0 <= Outward(down, e, bw / 2) < |p|
    ensures BlankBeyond(Transpose(Round(p, w, bw), w), Outward(down, e, bw / 2), down)
    ensures Round(p, w, bw)[Outward(down, e, bw / 2)] == Thinned(LinePass(p[e], bw), bw)
  {
    hide LinePass, BlankBeyond, Thinned, Column, Transpose, Px;
    var q, e' := HPass(p, bw), Outward(down, e, bw / 2);
    HPassKeepsBlankRows(p, w, bw, e, down);
    var t := Transpose(q, w);
    HPassEdge(t, |p|, bw, e, down);
    TransposeTwice(HPass(t, bw), |p|);
    TransposeTwice(q, w);
    assert Round(p, w, bw) == Transpose(HPass(t, bw), |p|);
    TransposeTwice(Round(p, w, bw), w);
  }

  /* ---------- all rounds ---------- */

  // What an outermost column of ink has become when it arrives at the side of the rectangle, and an
  // outermost row: every round thins it and passes along it.
  function ColumnArrives(c: seq<Byte>, ws: seq<int>): (r: seq<Byte>)
    requires OddWidths(ws)
    ensures |r| == |c|
    decreases |ws|
  {
    if ws == [] then c else ColumnArrives(LinePass(Thinned(c, ws[0]), ws[0]), ws[1..])
  }

  function RowArrives(c: seq<Byte>, ws: seq<int>): (r: seq<Byte>)
    requires OddWidths(ws)
    ensures |r| == |c|
    decreases |ws|
  {
    if ws == [] then c else RowArrives(Thinned(LinePass(c, ws[0]), ws[0]), ws[1..])
  }

  // The column at the side of the rectangle, if that side is not clamped, is what arrives of the outermost
  // column of ink; on either side.
  lemma {:induction false} SideColumn(p: Plane, w: nat, ws: seq<int>, e: int, right: bool)
    requires Rectangular(p, w, |p|) && OddWidths(ws) && BlankBeyond(p, e, right)
    requires 0 <= e < w && 0 <= Outward(right, e, Reach(ws)) < w
    ensures Column(Blurred(p, w, ws), w, Outward(right, e, Reach(ws))) == ColumnArrives(Column(p, w, e), ws)
    decreases |ws|
  {
    hide Round, Column, LinePass, Thinned, BlankBeyond;
    if ws != [] {
      RoundColumnEdge(p, w, ws[0], e, right);
      SideColumn(Round(p, w, ws[0]), w, ws[1..], Outward(right, e, ws[0] / 2), right);
    }
  }

  // The same for the rows at the top and at the bottom.
  lemma {:induction false} SideRow(p: Plane, w: nat, ws: seq<int>, e: int, down: bool)
    requires Rectangular(p, w, |p|) && OddWidths(ws) && BlankBeyond(Transpose(p, w), e, down)
    requires 0 <= e < |p| && 0 <= Outward(down, e, Reach(ws)) < |p|
    ensures Blurred(p, w, ws)[Outward(down, e, Reach(ws))] == RowArrives(p[e], ws)
    decreases |ws|
  {
    hide Round, Transpose, LinePass, Thinned, BlankBeyond;
    if ws != [] {
      RoundRowEdge(p, w, ws[0], e, down);
      SideRow(Round(p, w, ws[0]), w, ws[1..], Outward(down, e, ws[0] / 2), down);
    }
  }

  /* ---------- the smallest rectangle ---------- */

  ghost predicate HasSample(c: seq<Byte>) {
    exists i :: 0 <= i < |c| && c[i] != 0
  }

  lemma InkOfColumn(p: Plane, w: nat, x: nat)
    requires Rectangular(p, w, |p|) && x < w
    ensures InkInColumn(p, x) <==> HasSample(Column(p, w, x))
  {
    var c := Column(p, w, x);
    if InkInColumn(p, x) {
      var y :| Px(p, x, y) != 0;
      assert c[y] != 0;
    }
    if HasSample(c) {
      var y :| 0 <= y < |c| && c[y] != 0;
      assert Px(p, x, y) != 0;
    }
  }

  lemma InkOfRow(p: Plane, w: nat, y: nat)
    requires Rectangular(p, w, |p|) && y < |p|
    ensures InkInRow(p, y) <==> HasSample(p[y])
  {
    if InkInRow(p, y) {
      var x :| Px(p, x, y) != 0;
      assert p[y][x] != 0;
    }
    if HasSample(p[y]) {
      var x :| 0 <= x < |p[y]| && p[y][x] != 0;
      assert Px(p, x, y) != 0;
    }
  }

  lemma SupportIsBlankBeyond(p: Plane, w: nat, b: Rect)
    requires Rectangular(p, w, |p|) && Supported(p, b)
    ensures BlankBeyond(p, b.x0, false) && BlankBeyond(p, b.x1 - 1, true)
    ensures BlankBeyond(Transpose(p, w), b.y0, false) && BlankBeyond(Transpose(p, w), b.y1 - 1, true)
  {
    hide Px;
    forall x, y | !b.Has(x, y) ensures Px(p, x, y) == Px(Transpose(p, w), y, x) == 0 {
    }
  }

  lemma InkLiesOnPlane(p: Plane, w: nat, b: Rect)
    requires Rectangular(p, w, |p|) && InkBox(p, b)
    ensures 0 <= b.x0 < b.x1 <= w && 0 <= b.y0 < b.y1 <= |p|
  {
    var ya :| Px(p, b.x0, ya) != 0;
    assert b.Has(b.x0, ya);
    var yb :| Px(p, b.x1 - 1, yb) != 0;
    assert b.Has(b.x1 - 1, yb);
    var xa :| Px(p, xa, b.y0) != 0;
    var xb :| Px(p, xb, b.y1 - 1) != 0;
  }

  // The right side is touched exactly when the outermost column of ink arrives there; whatever happens at
  // the other sides.
  lemma RightSideIff(p: Plane, w: nat, b: Rect, ws: seq<int>)
    requires Rectangular(p, w, |p|) && InkBox(p, b) && OddWidths(ws) && b.x1 + Reach(ws) <= w
    ensures 0 <= b.x1 - 1 < w
    ensures InkInColumn(Blurred(p, w, ws), b.x1 - 1 + Reach(ws)) <==> HasSample(ColumnArrives(Column(p, w, b.x1 - 1), ws))
  {
    hide Blurred, ColumnArrives, HasSample, InkInColumn, BlankBeyond;
    InkLiesOnPlane(p, w, b);
    SupportIsBlankBeyond(p, w, b);
    SideColumn(p, w, ws, b.x1 - 1, true);
    InkOfColumn(Blurred(p, w, ws), w, b.x1 - 1 + Reach(ws));
  }

  lemma LeftSideIff(p: Plane, w: nat, b: Rect, ws: seq<int>)
    requires Rectangular(p, w, |p|) && InkBox(p, b) && OddWidths(ws) && 0 <= b.x0 - Reach(ws)
    ensures 0 <= b.x0 < w
    ensures InkInColumn(Blurred(p, w, ws), b.x0 - Reach(ws)) <==> HasSample(ColumnArrives(Column(p, w, b.x0), ws))
  {
    hide Blurred, ColumnArrives, HasSample, InkInColumn, BlankBeyond;
    InkLiesOnPlane(p, w, b);
    SupportIsBlankBeyond(p, w, b);
    SideColumn(p, w, ws, b.x0, false);
    InkOfColumn(Blurred(p, w, ws), w, b.x0 - Reach(ws));
  }

  lemma BottomSideIff(p: Plane, w: nat, b: Rect, ws: seq<int>)
    requires Rectangular(p, w, |p|) && InkBox(p, b) && OddWidths(ws) && b.y1 + Reach(ws) <= |p|
    ensures 0 <= b.y1 - 1 < |p|
    ensures InkInRow(Blurred(p, w, ws), b.y1 - 1 + Reach(ws)) <==> HasSample(RowArrives(p[b.y1 - 1], ws))
  {
    hide Blurred, RowArrives, HasSample, InkInRow, BlankBeyond;
    InkLiesOnPlane(p, w, b);
    SupportIsBlankBeyond(p, w, b);
    SideRow(p, w, ws, b.y1 - 1, true);
    InkOfRow(Blurred(p, w, ws), w, b.y1 - 1 + Reach(ws));
  }

  lemma TopSideIff(p: Plane, w: nat, b: Rect, ws: seq<int>)
    requires Rectangular(p, w, |p|) && InkBox(p, b) && OddWidths(ws) && 0 <= b.y0 - Reach(ws)
    ensures 0 <= b.y0 < |p|
    ensures InkInRow(Blurred(p, w, ws), b.y0 - Reach(ws)) <==> HasSample(RowArrives(p[b.y0], ws))
  {
    hide Blurred, RowArrives, HasSample, InkInRow, BlankBeyond;
    InkLiesOnPlane(p, w, b);
    SupportIsBlankBeyond(p, w, b);
    SideRow(p, w, ws, b.y0, false);
    InkOfRow(Blurred(p, w, ws), w, b.y0 - Reach(ws));
  }

  // The outermost lines of ink all arrive.
  ghost predicate AllArrive(p: Plane, w: nat, b: Rect, ws: seq<int>)
    requires Rectangular(p, w, |p|) && OddWidths(ws) && 0 <= b.x0 < b.x1 <= w && 0 <= b.y0 < b.y1 <= |p|
  {
    && HasSample(ColumnArrives(Column(p, w, b.x0), ws)) && HasSample(ColumnArrives(Column(p, w, b.x1 - 1), ws))
    && HasSample(RowArrives(p[b.y0], ws)) && HasSample(RowArrives(p[b.y1 - 1], ws))
  }

  // A rectangle that lies on the surface unclamped is the smallest the blur changes if and only if the
  // outermost lines of ink arrive at all four sides.
  lemma RectIsSmallestIff(p: Plane, w: nat, b: Rect, ws: seq<int>)
    requires Rectangular(p, w, |p|) && InkBox(p, b) && OddWidths(ws) && b.Grown(Reach(ws)).Within(w, |p|)
    ensures Clamped(b.Grown(Reach(ws)), w, |p|) == b.Grown(Reach(ws))
    ensures 0 <= b.x0 < b.x1 <= w && 0 <= b.y0 < b.y1 <= |p|
    ensures InkBox(Blurred(p, w, ws), b.Grown(Reach(ws))) <==> AllArrive(p, w, b, ws)
  {
    hide Blurred, ColumnArrives, RowArrives, HasSample, InkInColumn, InkInRow, Px, Crop, Reach, Supported;
    InkLiesOnPlane(p, w, b);
    LeftSideIff(p, w, b, ws);
    RightSideIff(p, w, b, ws);
    TopSideIff(p, w, b, ws);
    BottomSideIff(p, w, b, ws);
    BlurIsLocal(p, w, b, b.Grown(Reach(ws)), ws);
  }

  /* ---------- clamped sides ---------- */

  ghost predicate AtLeast(a: seq<Byte>, b: seq<Byte>) {
    |a| == |b| && forall i :: 0 <= i < |a| ==> a[i] >= b[i]
  }

  lemma {:induction false} SumMonotone(f: Line, g: Line, lo: int, hi: int)
    requires forall i :: lo <= i < hi ==> f(i) >= g(i)
    ensures SumRange(f, lo, hi) >= SumRange(g, lo, hi)
    decreases hi - lo
  {
    if lo < hi {
      SumMonotone(f, g, lo, hi - 1);
    }
  }

  lemma QuotientMonotone(a: int, b: int, d: int)
    requires a >= b && d > 0
    ensures a / d >= b / d
  {
    if a / d < b / d {
      ProductMonotone(a / d + 1, b / d, d);
    }
  }

  lemma MeanMonotone(f: Line, g: Line, c: int, bw: int)
    requires OddWidth(bw) && forall i :: c - bw / 2 <= i <= c + bw / 2 ==> f(i) >= g(i)
    ensures Mean(f, c, bw) >= Mean(g, c, bw)
  {
    SumMonotone(f, g, c - bw / 2, c + bw / 2 + 1);
    QuotientMonotone(WindowSum(f, c, bw / 2) + bw / 2, WindowSum(g, c, bw / 2) + bw / 2, bw);
  }

  lemma LinePassMonotone(a: seq<Byte>, b: seq<Byte>, bw: int)
    requires OddWidth(bw) && AtLeast(a, b)
    ensures AtLeast(LinePass(a, bw), LinePass(b, bw))
  {
    forall i | 0 <= i < |a| ensures LinePass(a, bw)[i] >= LinePass(b, bw)[i] {
      MeanMonotone(Samples(a), Samples(b), i, bw);
    }
  }

  lemma ThinnedMonotone(a: seq<Byte>, b: seq<Byte>, bw: int)
    requires OddWidth(bw) && AtLeast(a, b)
    ensures AtLeast(Thinned(a, bw), Thinned(b, bw))
  {
    forall i | 0 <= i < |a| ensures Thinned(a, bw)[i] >= Thinned(b, bw)[i] {
      QuotientMonotone(a[i] + bw / 2, b[i] + bw / 2, bw);
    }
  }

  lemma {:induction false} ArrivesMonotone(a: seq<Byte>, b: seq<Byte>, ws: seq<int>)
    requires OddWidths(ws) && AtLeast(a, b)
    ensures AtLeast(ColumnArrives(a, ws), ColumnArrives(b, ws)) && AtLeast(RowArrives(a, ws), RowArrives(b, ws))
    decreases |ws|
  {
    hide LinePass, Thinned, AtLeast;
    if ws != [] {
      var bw := ws[0];
      ThinnedMonotone(a, b, bw);
      LinePassMonotone(Thinned(a, bw), Thinned(b, bw), bw);
      ArrivesMonotone(LinePass(Thinned(a, bw), bw), LinePass(Thinned(b, bw), bw), ws[1..]);
      LinePassMonotone(a, b, bw);
      ThinnedMonotone(LinePass(a, bw), LinePass(b, bw), bw);
      ArrivesMonotone(Thinned(LinePass(a, bw), bw), Thinned(LinePass(b, bw), bw), ws[1..]);
    }
  }

  // Whatever else its window holds, a sample within the radius contributes as if it were alone.
  lemma MeanAtLeastLone(f: Line, c: int, bw: int, e: int)
    requires OddWidth(bw) && c - bw / 2 <= e <= c + bw / 2 && forall i :: f(i) >= 0
    ensures Mean(f, c, bw) >= (f(e) + bw / 2) / bw
  {
    var g: Line := (i: int) => if i == e then f(e) else 0;
    LoneMean(g, c, bw, e);
    MeanMonotone(f, g, c, bw);
  }

  lemma HPassReaches(p: Plane, w: nat, bw: int, e: nat, x: nat)
    requires Rectangular(p, w, |p|) && OddWidth(bw) && e < w && x < w && -(bw / 2) <= x - e <= bw / 2
    ensures AtLeast(Column(HPass(p, bw), w, x), Thinned(Column(p, w, e), bw))
  {
    hide Mean, LinePass;
    forall y | 0 <= y < |p| ensures Column(HPass(p, bw), w, x)[y] >= Thinned(Column(p, w, e), bw)[y] {
      HPassPx(p, w, bw, x, y);
      MeanAtLeastLone(Samples(p[y]), x, bw, e);
    }
  }

  lemma RoundReachesColumn(p: Plane, w: nat, bw: int, e: nat, x: nat)
    requires Rectangular(p, w, |p|) && OddWidth(bw) && e < w && x < w && -(bw / 2) <= x - e <= bw / 2
    ensures AtLeast(Column(Round(p, w, bw), w, x), LinePass(Thinned(Column(p, w, e), bw), bw))
  {
    hide HPass, VPass, LinePass, Thinned, Column, AtLeast;
    HPassReaches(p, w, bw, e, x);
    VPassColumn(HPass(p, bw), w, bw, x);
    LinePassMonotone(Column(HPass(p, bw), w, x), Thinned(Column(p, w, e), bw), bw);
  }

  lemma RoundReachesRow(p: Plane, w: nat, bw: int, e: nat, y: nat)
    requires Rectangular(p, w, |p|) && OddWidth(bw) && e < |p| && y < |p| && -(bw / 2) <= y - e <= bw / 2
    ensures AtLeast(Round(p, w, bw)[y], Thinned(LinePass(p[e], bw), bw))
  {
    hide LinePass, Thinned, Column, Transpose, Px, AtLeast;
    var q := HPass(p, bw);
    var t := Transpose(q, w);
    HPassReaches(t, |p|, bw, e, y);
    TransposeTwice(HPass(t, bw), |p|);
    TransposeTwice(q, w);
    assert Round(p, w, bw) == Transpose(HPass(t, bw), |p|);
    TransposeTwice(Round(p, w, bw), w);
  }

  // The nearest place to x within r of e.
  function Toward(e: int, x: int, r: int): int {
    if x - e > r then e + r else if e - x > r then e - r else x
  }

  // Every column within reach of another gets at least what arrives of that one, and every row.
  lemma {:induction false} ReachesColumn(p: Plane, w: nat, ws: seq<int>, e: nat, x: nat)
    requires Rectangular(p, w, |p|) && OddWidths(ws) && e < w && x < w && -Reach(ws) <= x - e <= Reach(ws)
    ensures AtLeast(Column(Blurred(p, w, ws), w, x), ColumnArrives(Column(p, w, e), ws))
    decreases |ws|
  {
    hide Round, Column, LinePass, Thinned;
    if ws != [] {
      var bw, rest := ws[0], ws[1..];
      var e' := Toward(e, x, bw / 2);
      var q := Round(p, w, bw);
      var c := LinePass(Thinned(Column(p, w, e), bw), bw);
      RoundReachesColumn(p, w, bw, e, e');
      ReachesColumn(q, w, rest, e', x);
      ArrivesMonotone(Column(q, w, e'), c, rest);
    }
  }

  lemma {:induction false} ReachesRow(p: Plane, w: nat, ws: seq<int>, e: nat, y: nat)
    requires Rectangular(p, w, |p|) && OddWidths(ws) && e < |p| && y < |p| && -Reach(ws) <= y - e <= Reach(ws)
    ensures AtLeast(Blurred(p, w, ws)[y], RowArrives(p[e], ws))
    decreases |ws|
  {
    hide Round, LinePass, Thinned;
    if ws != [] {
      var bw, rest := ws[0], ws[1..];
      var e' := Toward(e, y, bw / 2);
      var q := Round(p, w, bw);
      RoundReachesRow(p, w, bw, e, e');
      ReachesRow(q, w, rest, e', y);
      ArrivesMonotone(q[e'], Thinned(LinePass(p[e], bw), bw), rest);
    }
  }

  lemma MoreHasSample(a: seq<Byte>, b: seq<Byte>)
    requires AtLeast(a, b) && HasSample(b)
    ensures HasSample(a)
  {
    var i :| 0 <= i < |b| && b[i] != 0;
    assert a[i] != 0;
  }

  // For any rectangle, clamped or not, it is enough that the outermost lines of ink all arrive: then the blur
  // touches all four sides, and the rectangle is the smallest.
  lemma RectIsSmallestIfAllArrive(p: Plane, w: nat, b: Rect, ws: seq<int>)
    requires Rectangular(p, w, |p|) && InkBox(p, b) && OddWidths(ws)
    ensures 0 <= b.x0 < b.x1 <= w && 0 <= b.y0 < b.y1 <= |p|
    ensures AllArrive(p, w, b, ws) ==> InkBox(Blurred(p, w, ws), Clamped(b.Grown(Reach(ws)), w, |p|))
  {
    hide Blurred, ColumnArrives, RowArrives, HasSample, InkInColumn, InkInRow, Px, Crop, Reach, Supported, AtLeast, Column;
    InkLiesOnPlane(p, w, b);
    if AllArrive(p, w, b, ws) {
      var r, q := Clamped(b.Grown(Reach(ws)), w, |p|), Blurred(p, w, ws);
      ClampedCovers(p, w, |p|, b, Reach(ws));
      BlurIsLocal(p, w, b, r, ws);
      TouchesColumn(p, w, ws, b.x0, r.x0);
      TouchesColumn(p, w, ws, b.x1 - 1, r.x1 - 1);
      TouchesRow(p, w, ws, b.y0, r.y0);
      TouchesRow(p, w, ws, b.y1 - 1, r.y1 - 1);
    }
  }

  lemma TouchesColumn(p: Plane, w: nat, ws: seq<int>, e: nat, x: nat)
    requires Rectangular(p, w, |p|) && OddWidths(ws) && e < w && x < w && -Reach(ws) <= x - e <= Reach(ws)
    requires HasSample(ColumnArrives(Column(p, w, e), ws))
    ensures InkInColumn(Blurred(p, w, ws), x)
  {
    hide Blurred, ColumnArrives, HasSample, InkInColumn, AtLeast, Column;
    ReachesColumn(p, w, ws, e, x);
    MoreHasSample(Column(Blurred(p, w, ws), w, x), ColumnArrives(Column(p, w, e), ws));
    InkOfColumn(Blurred(p, w, ws), w, x);
  }

  lemma TouchesRow(p: Plane, w: nat, ws: seq<int>, e: nat, y: nat)
    requires Rectangular(p, w, |p|) && OddWidths(ws) && e < |p| && y < |p| && -Reach(ws) <= y - e <= Reach(ws)
    requires HasSample(RowArrives(p[e], ws))
    ensures InkInRow(Blurred(p, w, ws), y)
  {
    hide Blurred, RowArrives, HasSample, InkInRow, AtLeast;
    ReachesRow(p, w, ws, e, y);
    MoreHasSample(Blurred(p, w, ws)[y], RowArrives(p[e], ws));
    InkOfRow(Blurred(p, w, ws), w, y);
  }

  /* ---------- faint ink ---------- */

  lemma ThinnedAway(c: seq<Byte>, bw: int)
    requires OddWidth(bw) && forall i :: 0 <= i < |c| ==> c[i] <= bw / 2
    ensures !HasSample(Thinned(c, bw))
  {
  }

  lemma LinePassBelow(c: seq<Byte>, bw: int, top: int)
    requires OddWidth(bw) && top >= 0 && forall i :: 0 <= i < |c| ==> c[i] <= top
    ensures forall i :: 0 <= i < |c| ==> LinePass(c, bw)[i] <= top
  {
    forall i | 0 <= i < |c| ensures LinePass(c, bw)[i] <= top {
      MeanBounds(Samples(c), i, bw, top);
    }
  }

  lemma {:induction false} BlankArrivesBlank(c: seq<Byte>, ws: seq<int>)
    requires OddWidths(ws) && !HasSample(c)
    ensures !HasSample(ColumnArrives(c, ws)) && !HasSample(RowArrives(c, ws))
    decreases |ws|
  {
    hide LinePass, Thinned;
    if ws != [] {
      BlankLine(c, ws[0]);
      ThinnedAway(c, ws[0]);
      ThinnedAway(LinePass(c, ws[0]), ws[0]);
      BlankLine(Thinned(c, ws[0]), ws[0]);
      BlankArrivesBlank(LinePass(Thinned(c, ws[0]), ws[0]), ws[1..]);
      BlankArrivesBlank(Thinned(LinePass(c, ws[0]), ws[0]), ws[1..]);
    }
  }

  // A line with nothing above half the first width never arrives.
  lemma FaintLineIsLost(c: seq<Byte>, ws: seq<int>)
    requires OddWidths(ws) && ws != [] && forall i :: 0 <= i < |c| ==> c[i] <= ws[0] / 2
    ensures !HasSample(ColumnArrives(c, ws)) && !HasSample(RowArrives(c, ws))
  {
    hide LinePass, Thinned;
    ThinnedAway(c, ws[0]);
    LinePassBelow(c, ws[0], ws[0] / 2);
    ThinnedAway(LinePass(c, ws[0]), ws[0]);
    BlankLine(Thinned(c, ws[0]), ws[0]);
    BlankArrivesBlank(LinePass(Thinned(c, ws[0]), ws[0]), ws[1..]);
    BlankArrivesBlank(Thinned(LinePass(c, ws[0]), ws[0]), ws[1..]);
  }

  // A 7 x 7 surface with one faint pixel in the middle.
  function Speck(): (p: Plane)
    ensures Rectangular(p, 7, 7)
  {
    seq(7, y => seq(7, x => if x == 3 && y == 3 then 1 else 0))
  }

  // The header calls the rectangle the smallest one a blur can change. It is enough, but not smallest:
  // rounding can lose faint ink before it has spread as far as the filter reaches.
  lemma RectIsNotSmallest()
    ensures Widths(1.4) == [3, 3, 3] && OddWidths([3, 3, 3]) && InkBox(Speck(), Rect(3, 3, 4, 4))
    ensures var r := Clamped(Rect(3, 3, 4, 4).Grown(Reach([3, 3, 3])), 7, 7);
            r == Rect(0, 0, 7, 7) && !InkBox(Blurred(Speck(), 7, [3, 3, 3]), r)
  {
    hide Blurred, ColumnArrives, RowArrives, HasSample;
    var p, b, ws := Speck(), Rect(3, 3, 4, 4), [3, 3, 3];
    WidthsAtOnePointFour();
    ReachOfThree(ws);
    assert Px(p, 3, 3) == 1;
    RectIsSmallestIff(p, 7, b, ws);
    FaintLineIsLost(Column(p, 7, 3), ws);
  }

  lemma WidthsAtOnePointFour()
    ensures Widths(1.4) == [3, 3, 3]
  {
    hide LowerOdd, IdealCount;
    LowerOddBounds(1.4);
    var wl := LowerOdd(1.4);
    if wl >= 3 {
      SquareMonotone(3.0, wl as real);
    }
    assert wl == 1;
    assert 0.0 < IdealCount(1.4, 1) < 0.5;
  }
}
