/** bb_blur_a8 (src/box_blur.c): six in-place passes over the rows and columns of a strided buffer, and the
  * function on planes that they compute.
  */
module BoxBlur {
  import opened BoxLines
  import opened BoxSizes
  import opened Doubles
  import opened Planes
  import opened Windows

  const BB_MAX_PIXELS := 16 * 1024 * 1024

  /* ---------- a plane inside a strided buffer ---------- */

  function Cell(x: nat, y: nat, stride: nat): nat {
    y * stride + x
  }

  predicate PlaneFits(size: nat, w: nat, h: nat, stride: nat) {
    0 < w <= stride && 0 < h && (h - 1) * stride + w <= size
  }

  lemma CellFits(size: nat, w: nat, h: nat, stride: nat, x: nat, y: nat)
    requires PlaneFits(size, w, h, stride) && x < w && y < h
    ensures Cell(x, y, stride) < size
  {
    ProductMonotone(y, h - 1, stride);
  }

  // The plane a buffer holds.
  function Grid(s: seq<Byte>, w: nat, h: nat, stride: nat): (p: Plane)
    requires PlaneFits(|s|, w, h, stride)
    ensures Rectangular(p, w, h)
  {
    seq(h, y requires 0 <= y < h => GridRow(s, w, h, stride, y))
  }

  function GridRow(s: seq<Byte>, w: nat, h: nat, stride: nat, y: nat): (row: seq<Byte>)
    requires PlaneFits(|s|, w, h, stride) && y < h
    ensures |row| == w
    ensures forall x :: 0 <= x < w ==> Cell(x, y, stride) < |s| && row[x] == s[Cell(x, y, stride)]
  {
    CellFits(|s|, w, h, stride, w - 1, y);
    s[Cell(0, y, stride)..Cell(w, y, stride)]
  }

  // Whether buffer position k belongs to the plane rather than to the padding of a row or the tail.
  predicate InGrid(k: nat, w: nat, h: nat, stride: nat)
    requires stride > 0
  {
    k / stride < h && k % stride < w
  }

  ghost predicate SamePadding(s: seq<Byte>, t: seq<Byte>, w: nat, h: nat, stride: nat)
    requires stride > 0
  {
    |s| == |t| && forall k :: 0 <= k < |s| && !InGrid(k, w, h, stride) ==> s[k] == t[k]
  }

  /* ---------- rows and columns as strided lines ---------- */

  // A plane fits a buffer exactly when each of its cells does, and the grid is made of these cells: whatever
  // lies between them is padding.
  lemma PlaneFitsIff(size: nat, w: nat, h: nat, stride: nat)
    ensures PlaneFits(size, w, h, stride) <==>
            0 < w <= stride && 0 < h && forall x: nat, y: nat :: x < w && y < h ==> Cell(x, y, stride) < size
    ensures forall x: nat, y: nat :: Cell(x, y, stride) == y * stride + x
  {
    if PlaneFits(size, w, h, stride) {
      forall x: nat, y: nat | x < w && y < h ensures Cell(x, y, stride) < size {
        CellFits(size, w, h, stride, x, y);
      }
    } else if 0 < w <= stride && 0 < h {
      assert Cell(w - 1, h - 1, stride) >= size;
    }
  }

  lemma InGridIff(k: nat, w: nat, h: nat, stride: nat)
    requires 0 < w <= stride
    ensures InGrid(k, w, h, stride) <==> exists x: nat, y: nat :: x < w && y < h && k == Cell(x, y, stride)
  {
    if InGrid(k, w, h, stride) {
      assert k == Cell(k % stride, k / stride, stride);
    }
    if x: nat, y: nat :| x < w && y < h && k == Cell(x, y, stride) {
      CellInGrid(x, y, w, h, stride);
    }
  }

  // So what is not one of the plane's cells is kept.
  lemma PaddingIsKept(s: seq<Byte>, t: seq<Byte>, w: nat, h: nat, stride: nat, k: nat)
    requires PlaneFits(|s|, w, h, stride) && SamePadding(s, t, w, h, stride) && k < |s|
    requires forall x: nat, y: nat :: x < w && y < h ==> k != Cell(x, y, stride)
    ensures |t| == |s| && t[k] == s[k]
  {
    InGridIff(k, w, h, stride);
  }

  lemma RowSlot(x: nat, y: nat, row: nat, stride: nat)
    requires x < stride
    ensures Slot(Cell(x, y, stride), Cell(0, row, stride), 1) ==
            if y < row then -1 else Cell(x, y, stride) - Cell(0, row, stride)
    ensures y == row ==> Cell(x, y, stride) - Cell(0, row, stride) == x
    ensures y > row ==> Cell(x, y, stride) - Cell(0, row, stride) >= stride
    ensures y < row ==> Cell(x, y, stride) < Cell(0, row, stride)
  {
    if y < row {
      ProductMonotone(y + 1, row, stride);
    } else if y > row {
      ProductMonotone(row + 1, y, stride);
    }
  }

  lemma ColumnSlot(x: nat, y: nat, col: nat, stride: nat)
    requires x < stride && col < stride
    ensures Slot(Cell(x, y, stride), col, stride) == if x == col then y else -1
  {
    var k := Cell(x, y, stride);
    if x >= col {
      DivModUnique(k - col, stride, y, x - col);
    } else if k >= col {
      assert k - col == (y - 1) * stride + (stride + x - col);
      DivModUnique(k - col, stride, y - 1, stride + x - col);
    }
  }

  lemma CellInGrid(x: nat, y: nat, w: nat, h: nat, stride: nat)
    requires x < w <= stride && y < h
    ensures InGrid(Cell(x, y, stride), w, h, stride)
  {
    DivModUnique(Cell(x, y, stride), stride, y, x);
  }

  lemma RowFits(size: nat, w: nat, h: nat, stride: nat, y: nat)
    requires PlaneFits(size, w, h, stride) && y < h
    ensures LineFits(size, Cell(0, y, stride), w, 1)
  {
    CellFits(size, w, h, stride, w - 1, y);
  }

  lemma ColumnFits(size: nat, w: nat, h: nat, stride: nat, x: nat)
    requires PlaneFits(size, w, h, stride) && x < w
    ensures LineFits(size, x, h, stride)
  {
    CellFits(size, w, h, stride, x, h - 1);
  }

  lemma GatherRow(s: seq<Byte>, w: nat, h: nat, stride: nat, y: nat)
    requires PlaneFits(|s|, w, h, stride) && y < h
    ensures LineFits(|s|, Cell(0, y, stride), w, 1)
    ensures Gather(s, Cell(0, y, stride), w, 1) == Grid(s, w, h, stride)[y]
  {
    RowFits(|s|, w, h, stride, y);
    var line := Gather(s, Cell(0, y, stride), w, 1);
    var row := GridRow(s, w, h, stride, y);
    forall x | 0 <= x < w ensures line[x] == row[x] {
      assert IndexOn(Cell(0, y, stride), x, 1) == Cell(x, y, stride);
    }
    assert line == row;
  }

  lemma GatherColumn(s: seq<Byte>, w: nat, h: nat, stride: nat, x: nat)
    requires PlaneFits(|s|, w, h, stride) && x < w
    ensures LineFits(|s|, x, h, stride)
    ensures Gather(s, x, h, stride) == Column(Grid(s, w, h, stride), w, x)
  {
    ColumnFits(|s|, w, h, stride, x);
    var line := Gather(s, x, h, stride);
    var col := Column(Grid(s, w, h, stride), w, x);
    forall y | 0 <= y < h ensures line[y] == col[y] {
      CellFits(|s|, w, h, stride, x, y);
      assert IndexOn(x, y, stride) == Cell(x, y, stride);
    }
    assert line == col;
  }

  // Writing a row changes that row of the plane and nothing else, the padding included.
  lemma ScatterRow(s: seq<Byte>, w: nat, h: nat, stride: nat, row: nat, line: seq<Byte>)
    requires PlaneFits(|s|, w, h, stride) && row < h && |line| == w
    ensures var t := Scatter(s, Cell(0, row, stride), 1, line);
            Grid(t, w, h, stride) == Grid(s, w, h, stride)[row := line] && SamePadding(s, t, w, h, stride)
  {
    hide Slot, Cell;
    var off := Cell(0, row, stride);
    var t := Scatter(s, off, 1, line);
    var p, q := Grid(s, w, h, stride)[row := line], Grid(t, w, h, stride);
    forall x, y | 0 <= x < w && 0 <= y < h ensures Px(q, x, y) == Px(p, x, y) {
      RowSlot(x, y, row, stride);
    }
    SamePixels(q, p, w, h);
    forall k | 0 <= k < |s| && 0 <= Slot(k, off, 1) < w ensures InGrid(k, w, h, stride) {
      IndexOfSlot(k, off, 1);
      CellOfRowIndex(Slot(k, off, 1), row, stride);
      CellInGrid(Slot(k, off, 1), row, w, h, stride);
    }
  }

  lemma CellOfRowIndex(x: nat, y: nat, stride: nat)
    ensures IndexOn(Cell(0, y, stride), x, 1) == Cell(x, y, stride)
  {
  }

  lemma CellOfColumnIndex(x: nat, y: nat, stride: nat)
    ensures IndexOn(x, y, stride) == Cell(x, y, stride)
  {
  }

  function WithColumn(p: Plane, w: nat, col: nat, line: seq<Byte>): (q: Plane)
    requires Rectangular(p, w, |p|) && col < w && |line| == |p|
    ensures Rectangular(q, w, |p|)
    ensures forall x, y :: 0 <= x < w && 0 <= y < |p| ==> Px(q, x, y) == if x == col then line[y] else Px(p, x, y)
  {
    seq(|p|, y requires 0 <= y < |p| => p[y][col := line[y]])
  }

  lemma ScatterColumn(s: seq<Byte>, w: nat, h: nat, stride: nat, col: nat, line: seq<Byte>)
    requires PlaneFits(|s|, w, h, stride) && col < w && |line| == h
    ensures var t := Scatter(s, col, stride, line);
            Grid(t, w, h, stride) == WithColumn(Grid(s, w, h, stride), w, col, line) && SamePadding(s, t, w, h, stride)
  {
    hide Slot, Cell, WithColumn;
    var t := Scatter(s, col, stride, line);
    var p, q := WithColumn(Grid(s, w, h, stride), w, col, line), Grid(t, w, h, stride);
    forall x, y | 0 <= x < w && 0 <= y < h ensures Px(q, x, y) == Px(p, x, y) {
      ColumnSlot(x, y, col, stride);
      CellFits(|s|, w, h, stride, x, y);
    }
    SamePixels(q, p, w, h);
    forall k | 0 <= k < |s| && 0 <= Slot(k, col, stride) < h ensures InGrid(k, w, h, stride) {
      IndexOfSlot(k, col, stride);
      CellOfColumnIndex(col, Slot(k, col, stride), stride);
      CellInGrid(col, Slot(k, col, stride), w, h, stride);
    }
  }

  /* ---------- the two inner loops of bb_blur_a8 ---------- */

  // The plane with its first n rows passed.
  function RowsDone(p: Plane, bw: int, n: nat): Plane
    requires OddWidth(bw)
  {
    seq(|p|, y requires 0 <= y < |p| => if y < n then LinePass(p[y], bw) else p[y])
  }

  // The plane with its first n columns passed.
  function ColumnsDone(p: Plane, w: nat, bw: int, n: nat): (q: Plane)
    requires Rectangular(p, w, |p|) && OddWidth(bw)
    ensures Rectangular(q, w, |p|)
    ensures forall x, y :: 0 <= x < w && 0 <= y < |p| ==> Px(q, x, y) == if x < n then LinePass(Column(p, w, x), bw)[y] else Px(p, x, y)
  {
    seq(|p|, y requires 0 <= y < |p| =>
      seq(w, x requires 0 <= x < w => if x < n then LinePass(Column(p, w, x), bw)[y] else p[y][x]))
  }

  lemma AllColumnsDone(p: Plane, w: nat, bw: int)
    requires Rectangular(p, w, |p|) && OddWidth(bw)
    ensures ColumnsDone(p, w, bw, w) == VPass(p, w, bw)
  {
    hide LinePass;
    var q, v := ColumnsDone(p, w, bw, w), VPass(p, w, bw);
    var t := HPass(Transpose(p, w), bw);
    forall x, y | 0 <= x < w && 0 <= y < |p| ensures Px(q, x, y) == Px(v, x, y) {
      assert Px(v, x, y) == Px(t, y, x) == t[x][y];
    }
    SamePixels(q, v, w, |p|);
  }

  lemma NextColumn(p: Plane, w: nat, bw: int, n: nat)
    requires Rectangular(p, w, |p|) && OddWidth(bw) && n < w
    ensures var q := ColumnsDone(p, w, bw, n);
            WithColumn(q, w, n, LinePass(Column(q, w, n), bw)) == ColumnsDone(p, w, bw, n + 1)
  {
    hide ColumnsDone, LinePass, WithColumn;
    var q := ColumnsDone(p, w, bw, n);
    forall y | 0 <= y < |p| ensures Column(q, w, n)[y] == Column(p, w, n)[y] {
      assert Px(q, n, y) == Px(p, n, y);
    }
    assert Column(q, w, n) == Column(p, w, n);
    SamePixels(WithColumn(q, w, n, LinePass(Column(q, w, n), bw)), ColumnsDone(p, w, bw, n + 1), w, |p|);
  }

  method PassRows(buf: array<Byte>, w: nat, h: nat, stride: nat, bw: int, tmp: array<Byte>)
    requires PlaneFits(buf.Length, w, h, stride) && OddWidth(bw) && w <= tmp.Length && tmp != buf
    modifies buf, tmp
    ensures Grid(buf[..], w, h, stride) == HPass(Grid(old(buf[..]), w, h, stride), bw)
    ensures SamePadding(old(buf[..]), buf[..], w, h, stride)
  {
    hide Grid, LinePass, Gather, Scatter, InGrid, Cell, LineFits;
    ghost var p := Grid(buf[..], w, h, stride);
    for y := 0 to h
      invariant Grid(buf[..], w, h, stride) == RowsDone(p, bw, y)
      invariant SamePadding(old(buf[..]), buf[..], w, h, stride)
    {
      ghost var was := buf[..];
      RowFits(buf.Length, w, h, stride, y);
      GatherRow(was, w, h, stride, y);
      ScatterRow(was, w, h, stride, y, LinePass(Grid(was, w, h, stride)[y], bw));
      BoxLine(buf, Cell(0, y, stride), w, 1, bw, tmp);
      assert RowsDone(p, bw, y + 1) == RowsDone(p, bw, y)[y := LinePass(p[y], bw)];
    }
    assert RowsDone(p, bw, h) == HPass(p, bw);
  }

  method PassColumns(buf: array<Byte>, w: nat, h: nat, stride: nat, bw: int, tmp: array<Byte>)
    requires PlaneFits(buf.Length, w, h, stride) && OddWidth(bw) && h <= tmp.Length && tmp != buf
    modifies buf, tmp
    ensures Grid(buf[..], w, h, stride) == VPass(Grid(old(buf[..]), w, h, stride), w, bw)
    ensures SamePadding(old(buf[..]), buf[..], w, h, stride)
  {
    hide Grid, LinePass, Gather, Scatter, InGrid, Cell, LineFits, ColumnsDone, WithColumn, Column;
    ghost var p := Grid(buf[..], w, h, stride);
    SamePixels(p, ColumnsDone(p, w, bw, 0), w, h);
    for x := 0 to w
      invariant Grid(buf[..], w, h, stride) == ColumnsDone(p, w, bw, x)
      invariant SamePadding(old(buf[..]), buf[..], w, h, stride)
    {
      ghost var was := buf[..];
      ColumnFits(buf.Length, w, h, stride, x);
      GatherColumn(was, w, h, stride, x);
      ScatterColumn(was, w, h, stride, x, LinePass(Column(Grid(was, w, h, stride), w, x), bw));
      BoxLine(buf, x, h, stride, bw, tmp);
      NextColumn(p, w, bw, x);
    }
    AllColumnsDone(p, w, bw);
  }

  /* ---------- bb_blur_a8 ---------- */

  predicate BlurArgumentsOk(w: int, h: int, stride: int) {
    w > 0 && h > 0 && stride >= w && w * h <= BB_MAX_PIXELS
  }

  lemma WidthsOdd(sigma: real)
    requires sigma > 0.0
    ensures OddWidths(Widths(sigma))
  {
    WidthsAreOdd(sigma, 0);
    WidthsAreOdd(sigma, 1);
    WidthsAreOdd(sigma, 2);
  }

  // Returns 1 when blurred, 0 when sigma asks for nothing, -1 on bad arguments or when the scratch line cannot be
  // allocated.
  method BlurA8(buf: array?<Byte>, w: int, h: int, stride: int, sigma: Double, memory: bool) returns (rc: int)
    requires buf != null && w > 0 && h > 0 && stride >= w ==> PlaneFits(buf.Length, w, h, stride)
    modifies if buf == null then {} else {buf}
    ensures rc == if buf == null || w <= 0 || h <= 0 || stride < w || w * h > 16777216 then -1
                  else if !Blurs(sigma) then 0
                  else if memory then 1 else -1
    ensures buf != null && rc != 1 ==> buf[..] == old(buf[..])
    ensures rc == 1 ==> OddWidths(Widths(sigma.value))
    ensures rc == 1 ==> Grid(buf[..], w, h, stride) == Blurred(Grid(old(buf[..]), w, h, stride), w, Widths(sigma.value))
    ensures rc == 1 ==> SamePadding(old(buf[..]), buf[..], w, h, stride)
  {
    hide Grid, Round, Widths, InGrid, PlaneFits;
    if buf == null || w <= 0 || h <= 0 || stride < w {
      return -1;
    }
    if w * h > BB_MAX_PIXELS {
      return -1;
    }
    var sizes := new int[3];
    var ok := BoxWidths(sigma, sizes);
    if !ok {
      return 0;
    }
    ghost var ws := Widths(sigma.value);
    WidthsOdd(sigma.value);
    var longest := if w > h then w else h;
    if !memory {
      return -1;
    }
    var tmp := new Byte[longest](_ => 0);
    ghost var was := buf[..];
    for k := 0 to 3
      invariant sizes[..] == ws
      invariant Blurred(Grid(buf[..], w, h, stride), w, ws[k..]) == Blurred(Grid(was, w, h, stride), w, ws)
      invariant SamePadding(was, buf[..], w, h, stride)
    {
      ghost var p := Grid(buf[..], w, h, stride);
      assert ws[k..][0] == ws[k] && ws[k..][1..] == ws[k + 1..];
      PassRows(buf, w, h, stride, sizes[k], tmp);
      PassColumns(buf, w, h, stride, sizes[k], tmp);
      RoundIsRowsThenColumns(p, w, ws[k]);
    }
    return 1;
  }

  lemma RoundIsRowsThenColumns(p: Plane, w: nat, bw: int)
    requires Rectangular(p, w, |p|) && OddWidth(bw)
    ensures Round(p, w, bw) == VPass(HPass(p, bw), w, bw)
  {
  }
}
