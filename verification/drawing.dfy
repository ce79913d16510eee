/** What the figure looks like: every drawn segment is one tile long and lies
    on the grid lattice inside the margins, and each bit can be read back from
    the edges drawn around its cell. */
module Drawing {
  import opened Layout
  import opened Path

  /** A lattice point of the grid of `columns` by `rows` cells. */
  predicate OnGrid(p: Point, columns: int, rows: int) {
    Margin <= p.x <= Margin + columns * Tile && Margin <= p.y <= Margin + rows * Tile &&
    (p.x - Margin) % Tile == 0 && (p.y - Margin) % Tile == 0
  }

  /** A horizontal or vertical segment one tile long. */
  predicate UnitEdge(s: Segment) {
    (s.from.y == s.to.y && (s.to.x - s.from.x == Tile || s.from.x - s.to.x == Tile)) ||
    (s.from.x == s.to.x && (s.to.y - s.from.y == Tile || s.from.y - s.to.y == Tile))
  }

  /** `s` covers the same line as `e`, in either direction. */
  predicate SameEdge(s: Segment, e: Segment) {
    (s.from == e.from && s.to == e.to) || (s.from == e.to && s.to == e.from)
  }

  /** Some segment of `t` covers `e`. */
  predicate Draws(t: seq<Segment>, e: Segment) {
    exists k :: 0 <= k < |t| && SameEdge(t[k], e)
  }

  /** The left edge of cell `(x, y)`. */
  function LeftEdge(x: int, y: int): Segment {
    Segment(Corner(x, y), Corner(x, y + 1))
  }

  /** The top edge of cell `(x, y)`. */
  function TopEdge(x: int, y: int): Segment {
    Segment(Corner(x, y), Corner(x + 1, y))
  }

  /** A grid corner inside the grid is a lattice point of it. */
  lemma CornerOnGrid(gx: int, gy: int, columns: int, rows: int)
    requires 0 <= gx <= columns && 0 <= gy <= rows
    ensures OnGrid(Corner(gx, gy), columns, rows)
  {
    assert gx * Tile <= columns * Tile && gy * Tile <= rows * Tile;
    assert (gx * Tile) % Tile == 0 && (gy * Tile) % Tile == 0;
  }

  // ---------------------------------------------------------------------------
  // Every segment fits the canvas
  // ---------------------------------------------------------------------------

  /** A horizontal edge between two corners of the grid fits it, in either
      direction. */
  lemma HorizontalFits(gx: int, gy: int, columns: int, rows: int)
    requires 0 <= gx && gx + 1 <= columns && 0 <= gy <= rows
    ensures OnGrid(Corner(gx, gy), columns, rows) && OnGrid(Corner(gx + 1, gy), columns, rows)
    ensures UnitEdge(Segment(Corner(gx, gy), Corner(gx + 1, gy)))
    ensures UnitEdge(Segment(Corner(gx + 1, gy), Corner(gx, gy)))
  {
    CornerOnGrid(gx, gy, columns, rows);
    CornerOnGrid(gx + 1, gy, columns, rows);
  }

  /** A vertical edge between two corners of the grid fits it, in either
      direction. */
  lemma VerticalFits(gx: int, gy: int, columns: int, rows: int)
    requires 0 <= gx <= columns && 0 <= gy && gy + 1 <= rows
    ensures OnGrid(Corner(gx, gy), columns, rows) && OnGrid(Corner(gx, gy + 1), columns, rows)
    ensures UnitEdge(Segment(Corner(gx, gy), Corner(gx, gy + 1)))
    ensures UnitEdge(Segment(Corner(gx, gy + 1), Corner(gx, gy)))
  {
    CornerOnGrid(gx, gy, columns, rows);
    CornerOnGrid(gx, gy + 1, columns, rows);
  }

  /** Every border dash joins two neighbouring lattice points of the grid. */
  lemma BorderSegmentFits(columns: int, rows: nat, k: nat)
    requires ValidColumns(columns) && k < columns + rows
    ensures var s := BorderSegment(columns, rows, k);
      OnGrid(s.from, columns, rows) && OnGrid(s.to, columns, rows) && UnitEdge(s)
  {
    var half := columns / 2;
    var s := BorderSegment(columns, rows, k);
    if k < half {
      var gx := 2 * k + 1;
      assert s == Segment(Corner(gx, 0), Corner(gx + 1, 0));
      HorizontalFits(gx, 0, columns, rows);
    } else if k < half + rows / 2 {
      var gy := 2 * (k - half) + 1;
      assert s == Segment(Corner(0, gy), Corner(0, gy + 1));
      VerticalFits(0, gy, columns, rows);
    } else if k < columns + rows / 2 {
      var gx := 2 * (k - half - rows / 2) + rows % 2;
      assert s == Segment(Corner(gx, rows), Corner(gx + 1, rows));
      HorizontalFits(gx, rows, columns, rows);
    } else {
      var gy := 2 * (k - columns - rows / 2);
      assert s == Segment(Corner(columns, gy), Corner(columns, gy + 1));
      VerticalFits(columns, gy, columns, rows);
    }
  }

  /** Each edge a stroke draws for a cell of the grid fits the grid. */
  lemma CellSegmentFits(x: int, y: int, one: bool, first: bool, columns: int, rows: int)
    requires 0 <= x < columns && 0 <= y < rows
    ensures var s := CellSegment(x, y, one, first);
      OnGrid(s.from, columns, rows) && OnGrid(s.to, columns, rows) && UnitEdge(s)
  {
    if one {
      VerticalFits(if first then x else x + 1, y, columns, rows);
    } else {
      HorizontalFits(x, if first then y else y + 1, columns, rows);
    }
  }

  /** Every bit segment is an edge of its cell, and that cell is in the grid. */
  lemma BitSegmentFits(bits: string, columns: int, rows: nat, k: nat)
    requires ValidColumns(columns) && |bits| <= rows * (columns / 2) && k < 2 * |bits|
    ensures var s := BitSegment(bits, columns, k);
      OnGrid(s.from, columns, rows) && OnGrid(s.to, columns, rows) && UnitEdge(s)
  {
    var i := k / 2;
    CellInGrid(i, columns, rows);
    CellSegmentFits(X(i, columns), Y(i, columns), bits[i] == '1', k % 2 == 0, columns, rows);
  }

  /** Segment `k` of the figure is a unit edge between lattice points of the
      grid. */
  lemma FigureFitsAt(bits: string, columns: int, rows: nat, pen: Point, k: nat)
    requires ValidColumns(columns) && |bits| <= rows * (columns / 2)
    requires k < |Trace(BuildPath(bits, columns, rows), pen)|
    ensures var s := Trace(BuildPath(bits, columns, rows), pen)[k];
      OnGrid(s.from, columns, rows) && OnGrid(s.to, columns, rows) && UnitEdge(s)
  {
    FigureTrace(bits, columns, rows, pen);
    if k < columns + rows {
      BorderSegmentFits(columns, rows, k);
    } else {
      BitSegmentFits(bits, columns, rows, k - (columns + rows));
    }
  }

  /** The whole figure is drawn with unit edges of the grid lattice, so it
      stays inside the margins of its canvas. */
  lemma FigureFits(bits: string, columns: int, rows: nat, pen: Point)
    requires ValidColumns(columns) && |bits| <= rows * (columns / 2)
    ensures var t := Trace(BuildPath(bits, columns, rows), pen);
      forall k :: 0 <= k < |t| ==>
        OnGrid(t[k].from, columns, rows) && OnGrid(t[k].to, columns, rows) && UnitEdge(t[k])
  {
    var t := Trace(BuildPath(bits, columns, rows), pen);
    forall k | 0 <= k < |t|
      ensures OnGrid(t[k].from, columns, rows) && OnGrid(t[k].to, columns, rows) && UnitEdge(t[k])
    {
      FigureFitsAt(bits, columns, rows, pen, k);
    }
  }

  /** Every edge the figure draws lies on or above row line `rows`. */
  lemma DrawnAbove(bits: string, columns: int, rows: nat, pen: Point, e: Segment)
    requires ValidColumns(columns) && |bits| <= rows * (columns / 2)
    requires Draws(Trace(BuildPath(bits, columns, rows), pen), e)
    ensures e.from.y <= Margin + rows * Tile && e.to.y <= Margin + rows * Tile
  {
    var t := Trace(BuildPath(bits, columns, rows), pen);
    var k :| 0 <= k < |t| && SameEdge(t[k], e);
    FigureFitsAt(bits, columns, rows, pen, k);
  }

  /** The first bottom dash lies on row line `rows`, so the lowest line the
      figure reaches is the bottom of its grid. */
  lemma BottomDashDrawn(bits: string, columns: int, rows: nat, pen: Point)
    requires ValidColumns(columns)
    ensures Draws(Trace(BuildPath(bits, columns, rows), pen),
      Segment(Corner(rows % 2, rows), Corner(rows % 2 + 1, rows)))
  {
    var t := Trace(BuildPath(bits, columns, rows), pen);
    var k := columns / 2 + rows / 2;
    FigureTrace(bits, columns, rows, pen);
    assert t[k] == BorderSegment(columns, rows, k);
    assert SameEdge(t[k], Segment(Corner(rows % 2, rows), Corner(rows % 2 + 1, rows)));
  }

  // ---------------------------------------------------------------------------
  // Every bit can be read back
  // ---------------------------------------------------------------------------

  /** The border never covers the left or top edge of a checkerboard cell. */
  lemma BorderMissesCells(columns: int, rows: nat, k: nat, x: nat, y: nat)
    requires ValidColumns(columns) && k < columns + rows
    requires x < columns && y < rows && x % 2 == y % 2
    ensures !SameEdge(BorderSegment(columns, rows, k), LeftEdge(x, y))
    ensures !SameEdge(BorderSegment(columns, rows, k), TopEdge(x, y))
  {
  }

  /** Among the edges strokes draw for checkerboard cells, the left edge of
      such a cell is only the first edge of a '1' in that very cell, and its
      top edge only the first edge of another bit in that very cell. */
  lemma CellSegmentHits(x: int, y: int, xj: int, yj: int, one: bool, first: bool)
    requires x % 2 == y % 2 && xj % 2 == yj % 2
    ensures SameEdge(CellSegment(xj, yj, one, first), LeftEdge(x, y)) <==>
      xj == x && yj == y && one && first
    ensures SameEdge(CellSegment(xj, yj, one, first), TopEdge(x, y)) <==>
      xj == x && yj == y && !one && first
  {
  }

  /** A bit segment covers the left edge of the cell of bit `i` exactly when it
      is the first segment of that bit and the bit is '1', and the top edge
      exactly when it is the first segment of that bit and the bit is not '1'. */
  lemma BitSegmentHits(bits: string, columns: int, k: nat, i: nat)
    requires ValidColumns(columns) && k < 2 * |bits| && i < |bits|
    ensures SameEdge(BitSegment(bits, columns, k), LeftEdge(X(i, columns), Y(i, columns))) <==>
      k == 2 * i && bits[i] == '1'
    ensures SameEdge(BitSegment(bits, columns, k), TopEdge(X(i, columns), Y(i, columns))) <==>
      k == 2 * i && bits[i] != '1'
  {
    var j := k / 2;
    var x, y := X(i, columns), Y(i, columns);
    var xj, yj := X(j, columns), Y(j, columns);
    CellParity(i, columns);
    CellParity(j, columns);
    CellSegmentHits(x, y, xj, yj, bits[j] == '1', k % 2 == 0);
    assert (2 * i) / 2 == i && (2 * i) % 2 == 0;
    if xj == x && yj == y {
      CellsDistinct(i, j, columns);
    }
  }

  /** The figure can be read: bit `i` is '1' exactly when the left edge of its
      cell is drawn, and not '1' exactly when the top edge of its cell is. */
  lemma FigureReadable(bits: string, columns: int, rows: nat, pen: Point, i: nat)
    requires ValidColumns(columns) && |bits| <= rows * (columns / 2) && i < |bits|
    ensures var t := Trace(BuildPath(bits, columns, rows), pen);
      Draws(t, LeftEdge(X(i, columns), Y(i, columns))) <==> bits[i] == '1'
    ensures var t := Trace(BuildPath(bits, columns, rows), pen);
      Draws(t, TopEdge(X(i, columns), Y(i, columns))) <==> bits[i] != '1'
  {
    var t := Trace(BuildPath(bits, columns, rows), pen);
    var x, y := X(i, columns), Y(i, columns);
    var border := columns + rows;
    FigureTrace(bits, columns, rows, pen);
    CellInGrid(i, columns, rows);
    forall k | 0 <= k < |t|
      ensures SameEdge(t[k], LeftEdge(x, y)) <==> k == border + 2 * i && bits[i] == '1'
      ensures SameEdge(t[k], TopEdge(x, y)) <==> k == border + 2 * i && bits[i] != '1'
    {
      if k < border {
        BorderMissesCells(columns, rows, k, x, y);
      } else {
        BitSegmentHits(bits, columns, k - border, i);
      }
    }
    assert SameEdge(t[border + 2 * i], LeftEdge(x, y)) || SameEdge(t[border + 2 * i], TopEdge(x, y));
  }
}
