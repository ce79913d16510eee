/** The path builder: the figure as a sequence of SVG path commands (border
    dashes, then one small stroke per bit), and an interpreter that turns the
    commands into the line segments they draw. */
module Path {
  import opened Layout

  datatype Point = Point(x: int, y: int)

  /** One command of SVG path data: `M x y`, `m dx dy` and `l dx dy`. */
  datatype Command =
    | MoveAbs(x: int, y: int)
    | MoveRel(dx: int, dy: int)
    | LineRel(dx: int, dy: int)

  /** A straight line drawn from `from` to `to`. */
  datatype Segment = Segment(from: Point, to: Point)

  /** Pixel position of the grid corner in column line `gx` and row line `gy`. */
  function Corner(gx: int, gy: int): Point {
    Point(Margin + gx * Tile, Margin + gy * Tile)
  }

  // ---------------------------------------------------------------------------
  // Interpreter
  // ---------------------------------------------------------------------------

  /** The segments drawn by `path` when the pen starts at `pen`. */
  function Trace(path: seq<Command>, pen: Point): seq<Segment>
    decreases |path|
  {
    if path == [] then []
    else match path[0]
      case MoveAbs(x, y) => Trace(path[1..], Point(x, y))
      case MoveRel(dx, dy) => Trace(path[1..], Point(pen.x + dx, pen.y + dy))
      case LineRel(dx, dy) =>
        var next := Point(pen.x + dx, pen.y + dy);
        [Segment(pen, next)] + Trace(path[1..], next)
  }

  /** Where the pen is after `path`. */
  function PenAfter(path: seq<Command>, pen: Point): Point
    decreases |path|
  {
    if path == [] then pen
    else match path[0]
      case MoveAbs(x, y) => PenAfter(path[1..], Point(x, y))
      case MoveRel(dx, dy) => PenAfter(path[1..], Point(pen.x + dx, pen.y + dy))
      case LineRel(dx, dy) => PenAfter(path[1..], Point(pen.x + dx, pen.y + dy))
  }

  /** Drawing two paths one after the other draws the segments of the first,
      then those of the second from where the first left the pen. */
  lemma {:induction false} TraceAppend(a: seq<Command>, b: seq<Command>, pen: Point)
    ensures Trace(a + b, pen) == Trace(a, pen) + Trace(b, PenAfter(a, pen))
    ensures PenAfter(a + b, pen) == PenAfter(b, PenAfter(a, pen))
    decreases |a|
  {
    if a == [] {
      assert a + b == b;
    } else {
      var ab := a + b;
      assert ab[0] == a[0] && ab[1..] == a[1..] + b;
      match a[0]
      case MoveAbs(x, y) =>
        TraceAppend(a[1..], b, Point(x, y));
      case MoveRel(dx, dy) =>
        TraceAppend(a[1..], b, Point(pen.x + dx, pen.y + dy));
      case LineRel(dx, dy) =>
        TraceAppend(a[1..], b, Point(pen.x + dx, pen.y + dy));
    }
  }

  // ---------------------------------------------------------------------------
  // Border
  // ---------------------------------------------------------------------------

  /** `n` dashes: each a tile-long gap followed by a tile-long line, to the
      right when `horizontal` and downwards otherwise. */
  function Dashes(n: nat, horizontal: bool): seq<Command> {
    if n == 0 then []
    else if horizontal then Dashes(n - 1, horizontal) + [MoveRel(Tile, 0), LineRel(Tile, 0)]
    else Dashes(n - 1, horizontal) + [MoveRel(0, Tile), LineRel(0, Tile)]
  }

  /** The point `k` tiles from `p`, to the right or downwards. */
  function Step(p: Point, k: int, horizontal: bool): Point {
    if horizontal then Point(p.x + k * Tile, p.y) else Point(p.x, p.y + k * Tile)
  }

  /** Dash `k` is the line from `2k + 1` to `2k + 2` tiles past the start. */
  lemma {:induction false} DashesTrace(n: nat, horizontal: bool, pen: Point)
    ensures |Trace(Dashes(n, horizontal), pen)| == n
    ensures forall k :: 0 <= k < n ==>
      Trace(Dashes(n, horizontal), pen)[k] == Segment(Step(pen, 2 * k + 1, horizontal), Step(pen, 2 * k + 2, horizontal))
    ensures PenAfter(Dashes(n, horizontal), pen) == Step(pen, 2 * n, horizontal)
  {
    if n > 0 {
      DashesTrace(n - 1, horizontal, pen);
      var dash := if horizontal then [MoveRel(Tile, 0), LineRel(Tile, 0)] else [MoveRel(0, Tile), LineRel(0, Tile)];
      assert Dashes(n, horizontal) == Dashes(n - 1, horizontal) + dash;
      TraceAppend(Dashes(n - 1, horizontal), dash, pen);
      var mid := Step(pen, 2 * (n - 1), horizontal);
      OneDash(horizontal, mid);
      assert Step(mid, 1, horizontal) == Step(pen, 2 * n - 1, horizontal);
      assert Step(mid, 2, horizontal) == Step(pen, 2 * n, horizontal);
    }
  }

  /** A single dash from `p`: one line from one to two tiles past `p`. */
  lemma OneDash(horizontal: bool, p: Point)
    ensures var dash := if horizontal then [MoveRel(Tile, 0), LineRel(Tile, 0)] else [MoveRel(0, Tile), LineRel(0, Tile)];
      Trace(dash, p) == [Segment(Step(p, 1, horizontal), Step(p, 2, horizontal))] &&
      PenAfter(dash, p) == Step(p, 2, horizontal)
  {
    var dash := if horizontal then [MoveRel(Tile, 0), LineRel(Tile, 0)] else [MoveRel(0, Tile), LineRel(0, Tile)];
    var line := dash[1..];
    assert line[1..] == [];
    var q := Step(p, 1, horizontal);
    assert Trace(line, q) == [Segment(q, Step(p, 2, horizontal))] + Trace([], Step(p, 2, horizontal));
    assert PenAfter(line, q) == PenAfter([], Step(p, 2, horizontal));
  }

  /** The border: dashes along the top, the left, the bottom and the right
      edge of the grid, each side starting with an absolute move. */
  function OuterLines(columns: int, rows: nat): seq<Command>
    requires ValidColumns(columns)
  {
    var bottomStart := if rows % 2 == 0 then Margin - Tile else Margin;
    [MoveAbs(Margin, Margin)] + Dashes(columns / 2, true)
    + [MoveAbs(Margin, Margin)] + Dashes(rows / 2, false)
    + [MoveAbs(bottomStart, Margin + rows * Tile)] + Dashes(columns / 2, true)
    + [MoveAbs(Margin + columns * Tile, Margin - Tile)] + Dashes((rows + 1) / 2, false)
  }

  /** Segment `k` of the border, as grid corners: top dashes cover the odd
      column steps of row line 0, left dashes the odd row steps of column line
      0, bottom dashes the steps of row line `rows` whose parity is that of
      `rows`, and right dashes the even row steps of column line `columns`. */
  function BorderSegment(columns: int, rows: nat, k: nat): Segment
    requires ValidColumns(columns) && k < columns + rows
  {
    var half := columns / 2;
    if k < half then
      Segment(Corner(2 * k + 1, 0), Corner(2 * k + 2, 0))
    else if k < half + rows / 2 then
      var j := k - half;
      Segment(Corner(0, 2 * j + 1), Corner(0, 2 * j + 2))
    else if k < columns + rows / 2 then
      var j := k - half - rows / 2;
      Segment(Corner(2 * j + rows % 2, rows), Corner(2 * j + rows % 2 + 1, rows))
    else
      var j := k - columns - rows / 2;
      Segment(Corner(columns, 2 * j), Corner(columns, 2 * j + 1))
  }

  /** The border draws `columns / 2` dashes on the top and on the bottom,
      `floor(rows / 2)` on the left and `ceil(rows / 2)` on the right, at the
      positions `BorderSegment` names, wherever the pen was before. */
  lemma OuterTrace(columns: int, rows: nat, pen: Point)
    requires ValidColumns(columns)
    ensures |Trace(OuterLines(columns, rows), pen)| == columns + rows
    ensures forall k :: 0 <= k < columns + rows ==>
      Trace(OuterLines(columns, rows), pen)[k] == BorderSegment(columns, rows, k)
  {
    var half := columns / 2;
    var bottomStart := if rows % 2 == 0 then Margin - Tile else Margin;
    var top := [MoveAbs(Margin, Margin)] + Dashes(half, true);
    var left := [MoveAbs(Margin, Margin)] + Dashes(rows / 2, false);
    var bottom := [MoveAbs(bottomStart, Margin + rows * Tile)] + Dashes(half, true);
    var right := [MoveAbs(Margin + columns * Tile, Margin - Tile)] + Dashes((rows + 1) / 2, false);
    var tTop := SideTrace(Margin, Margin, half, true, pen);
    var tLeft := SideTrace(Margin, Margin, rows / 2, false, PenAfter(top, pen));
    var tBottom := SideTrace(bottomStart, Margin + rows * Tile, half, true, PenAfter(top + left, pen));
    var tRight := SideTrace(Margin + columns * Tile, Margin - Tile, (rows + 1) / 2, false, PenAfter(top + left + bottom, pen));
    var t := Trace(OuterLines(columns, rows), pen);
    assert t == tTop + tLeft + tBottom + tRight by {
      assert OuterLines(columns, rows) == top + left + bottom + right;
      TraceAppend(top, left, pen);
      TraceAppend(top + left, bottom, pen);
      TraceAppend(top + left + bottom, right, pen);
    }
    forall k | 0 <= k < columns + rows
      ensures t[k] == BorderSegment(columns, rows, k)
    {
      BorderIndex(columns, rows, tTop, tLeft, tBottom, tRight, k);
    }
  }

  /** The four sides of the border, laid end to end, put dash `k` where
      `BorderSegment` says. */
  lemma BorderIndex(columns: int, rows: nat, a: seq<Segment>, b: seq<Segment>, c: seq<Segment>, d: seq<Segment>, k: nat)
    requires ValidColumns(columns) && k < columns + rows
    requires |a| == columns / 2 && |b| == rows / 2 && |c| == columns / 2 && |d| == (rows + 1) / 2
    requires forall j :: 0 <= j < |a| ==> a[j] == DashSegment(Margin, Margin, j, true)
    requires forall j :: 0 <= j < |b| ==> b[j] == DashSegment(Margin, Margin, j, false)
    requires forall j :: 0 <= j < |c| ==>
      c[j] == DashSegment(if rows % 2 == 0 then Margin - Tile else Margin, Margin + rows * Tile, j, true)
    requires forall j :: 0 <= j < |d| ==> d[j] == DashSegment(Margin + columns * Tile, Margin - Tile, j, false)
    ensures (a + b + c + d)[k] == BorderSegment(columns, rows, k)
  {
    var half := columns / 2;
    assert columns == 2 * half;
    IndexOfFour(a, b, c, d, k);
    if k < half {
      assert (a + b + c + d)[k] == a[k];
    } else if k < half + rows / 2 {
      assert (a + b + c + d)[k] == b[k - half];
    } else if k < columns + rows / 2 {
      assert (a + b + c + d)[k] == c[k - half - rows / 2];
    } else {
      assert (a + b + c + d)[k] == d[k - columns - rows / 2];
    }
  }

  /** Position `k` of four sequences laid end to end. */
  lemma IndexOfFour(a: seq<Segment>, b: seq<Segment>, c: seq<Segment>, d: seq<Segment>, k: nat)
    requires k < |a| + |b| + |c| + |d|
    ensures (a + b + c + d)[k] ==
      if k < |a| then a[k]
      else if k < |a| + |b| then b[k - |a|]
      else if k < |a| + |b| + |c| then c[k - |a| - |b|]
      else d[k - |a| - |b| - |c|]
  {
  }

  /** Dash `j` of a side of the border that starts at `(x, y)`. */
  function DashSegment(x: int, y: int, j: int, horizontal: bool): Segment {
    Segment(Step(Point(x, y), 2 * j + 1, horizontal), Step(Point(x, y), 2 * j + 2, horizontal))
  }

  /** One side of the border: an absolute move to `(x, y)` and `n` dashes. */
  function SideTrace(x: int, y: int, n: nat, horizontal: bool, pen: Point): (t: seq<Segment>)
    ensures t == Trace([MoveAbs(x, y)] + Dashes(n, horizontal), pen)
    ensures |t| == n
    ensures forall k :: 0 <= k < n ==> t[k] == DashSegment(x, y, k, horizontal)
  {
    var path := [MoveAbs(x, y)] + Dashes(n, horizontal);
    assert path[0] == MoveAbs(x, y) && path[1..] == Dashes(n, horizontal);
    DashesTrace(n, horizontal, Point(x, y));
    Trace(path, pen)
  }

  // ---------------------------------------------------------------------------
  // Strokes for the bits
  // ---------------------------------------------------------------------------

  /** The stroke for bit `i`: an absolute move to the top-left corner of its
      cell, then for '1' a line down, a move right and a line up, and for any
      other character a line right, a move down and a line left. */
  function BitStroke(i: nat, bit: char, columns: int): seq<Command>
    requires ValidColumns(columns)
  {
    var start := MoveAbs(Margin + X(i, columns) * Tile, Margin + Y(i, columns) * Tile);
    if bit == '1' then [start, LineRel(0, Tile), MoveRel(Tile, 0), LineRel(0, -Tile)]
    else [start, LineRel(Tile, 0), MoveRel(0, Tile), LineRel(-Tile, 0)]
  }

  /** The strokes of the first `n` bits, in stream order: the loop over the
      bitstream after `n` rounds. */
  function StrokesUpTo(bits: string, columns: int, n: nat): seq<Command>
    requires ValidColumns(columns) && n <= |bits|
  {
    if n == 0 then []
    else StrokesUpTo(bits, columns, n - 1) + BitStroke(n - 1, bits[n - 1], columns)
  }

  /** The strokes of all bits. */
  function InnerLines(bits: string, columns: int): seq<Command>
    requires ValidColumns(columns)
  {
    StrokesUpTo(bits, columns, |bits|)
  }

  /** An edge of cell `(x, y)` as the stroke for a bit draws it: for a '1'
      (`one`) the left edge downwards, then the right edge upwards; for any
      other bit the top edge to the right, then the bottom edge to the left. */
  function CellSegment(x: int, y: int, one: bool, first: bool): Segment {
    if one then
      if first then Segment(Corner(x, y), Corner(x, y + 1))
      else Segment(Corner(x + 1, y + 1), Corner(x + 1, y))
    else
      if first then Segment(Corner(x, y), Corner(x + 1, y))
      else Segment(Corner(x + 1, y + 1), Corner(x, y + 1))
  }

  /** The `k`-th segment drawn for the bits: bit `k / 2` draws two edges of
      its cell, the first when `k` is even. */
  function BitSegment(bits: string, columns: int, k: nat): Segment
    requires ValidColumns(columns) && k < 2 * |bits|
  {
    var i := k / 2;
    CellSegment(X(i, columns), Y(i, columns), bits[i] == '1', k % 2 == 0)
  }

  /** The stroke of one bit draws its two edges, wherever the pen was. */
  lemma StrokeTrace(bits: string, columns: int, i: nat, pen: Point)
    requires ValidColumns(columns) && i < |bits|
    ensures Trace(BitStroke(i, bits[i], columns), pen) ==
      [BitSegment(bits, columns, 2 * i), BitSegment(bits, columns, 2 * i + 1)]
  {
    var stroke := BitStroke(i, bits[i], columns);
    var p := Corner(X(i, columns), Y(i, columns));
    var a, b, c := stroke[1..], stroke[2..], stroke[3..];
    assert stroke[1..][1..] == b && b[1..] == c && c[1..] == [];
    assert (2 * i) / 2 == i && (2 * i + 1) / 2 == i;
    if bits[i] == '1' {
      var q, r, u := Point(p.x, p.y + Tile), Point(p.x + Tile, p.y + Tile), Point(p.x + Tile, p.y);
      assert Trace(c, r) == [Segment(r, u)] + Trace([], u);
      assert Trace(b, q) == Trace(c, r);
      assert Trace(a, p) == [Segment(p, q)] + Trace(b, q);
    } else {
      var q, r, u := Point(p.x + Tile, p.y), Point(p.x + Tile, p.y + Tile), Point(p.x, p.y + Tile);
      assert Trace(c, r) == [Segment(r, u)] + Trace([], u);
      assert Trace(b, q) == Trace(c, r);
      assert Trace(a, p) == [Segment(p, q)] + Trace(b, q);
    }
  }

  /** The segments of the first `n` bits, two per bit, in stream order. */
  function SegmentsUpTo(bits: string, columns: int, n: nat): seq<Segment>
    requires ValidColumns(columns) && n <= |bits|
  {
    if n == 0 then []
    else
      var pair := [BitSegment(bits, columns, 2 * (n - 1)), BitSegment(bits, columns, 2 * (n - 1) + 1)];
      SegmentsUpTo(bits, columns, n - 1) + pair
  }

  /** `SegmentsUpTo` lists `BitSegment` in order. */
  lemma {:induction false} SegmentsUpToIndex(bits: string, columns: int, n: nat)
    requires ValidColumns(columns) && n <= |bits|
    ensures |SegmentsUpTo(bits, columns, n)| == 2 * n
    ensures forall k :: 0 <= k < 2 * n ==> SegmentsUpTo(bits, columns, n)[k] == BitSegment(bits, columns, k)
  {
    if n > 0 {
      SegmentsUpToIndex(bits, columns, n - 1);
      var before := SegmentsUpTo(bits, columns, n - 1);
      var last := [BitSegment(bits, columns, 2 * (n - 1)), BitSegment(bits, columns, 2 * (n - 1) + 1)];
      forall k | 0 <= k < 2 * n
        ensures SegmentsUpTo(bits, columns, n)[k] == BitSegment(bits, columns, k)
      {
        PairIndex(before, last, k);
      }
    }
  }

  /** The first `n` strokes draw the segments of the first `n` bits. */
  lemma {:induction false} StrokesDraw(bits: string, columns: int, n: nat, pen: Point)
    requires ValidColumns(columns) && n <= |bits|
    ensures Trace(StrokesUpTo(bits, columns, n), pen) == SegmentsUpTo(bits, columns, n)
  {
    if n > 0 {
      var pair := [BitSegment(bits, columns, 2 * (n - 1)), BitSegment(bits, columns, 2 * (n - 1) + 1)];
      StrokesStep(bits, columns, n, pen);
      StrokesDraw(bits, columns, n - 1, pen);
      assert SegmentsUpTo(bits, columns, n) == SegmentsUpTo(bits, columns, n - 1) + pair;
    }
  }

  /** One more stroke draws the two segments of one more bit. */
  lemma StrokesStep(bits: string, columns: int, n: nat, pen: Point)
    requires ValidColumns(columns) && 0 < n <= |bits|
    ensures Trace(StrokesUpTo(bits, columns, n), pen) == Trace(StrokesUpTo(bits, columns, n - 1), pen) +
      [BitSegment(bits, columns, 2 * (n - 1)), BitSegment(bits, columns, 2 * (n - 1) + 1)]
  {
    assert StrokesUpTo(bits, columns, n) == StrokesUpTo(bits, columns, n - 1) + BitStroke(n - 1, bits[n - 1], columns);
    StrokeAfter(bits, columns, n - 1, StrokesUpTo(bits, columns, n - 1), pen);
  }

  /** The stroke of bit `i`, drawn after any `lines`, adds its two edges. */
  lemma StrokeAfter(bits: string, columns: int, i: nat, lines: seq<Command>, pen: Point)
    requires ValidColumns(columns) && i < |bits|
    ensures Trace(lines + BitStroke(i, bits[i], columns), pen) ==
      Trace(lines, pen) + [BitSegment(bits, columns, 2 * i), BitSegment(bits, columns, 2 * i + 1)]
  {
    var stroke := BitStroke(i, bits[i], columns);
    StrokeTrace(bits, columns, i, PenAfter(lines, pen));
    TraceThen(lines, stroke, pen, Trace(stroke, PenAfter(lines, pen)));
  }

  /** Drawing `lines` and then `stroke` draws what `lines` draws, then what
      `stroke` draws from where `lines` left the pen. */
  lemma TraceThen(lines: seq<Command>, stroke: seq<Command>, pen: Point, drawn: seq<Segment>)
    requires Trace(stroke, PenAfter(lines, pen)) == drawn
    ensures Trace(lines + stroke, pen) == Trace(lines, pen) + drawn
  {
    TraceAppend(lines, stroke, pen);
  }

  /** The first `n` strokes draw two segments per bit, those `BitSegment`
      names, in stream order. */
  lemma StrokesTrace(bits: string, columns: int, n: nat, pen: Point)
    requires ValidColumns(columns) && n <= |bits|
    ensures |Trace(StrokesUpTo(bits, columns, n), pen)| == 2 * n
    ensures forall k :: 0 <= k < 2 * n ==>
      Trace(StrokesUpTo(bits, columns, n), pen)[k] == BitSegment(bits, columns, k)
  {
    StrokesDraw(bits, columns, n, pen);
    SegmentsUpToIndex(bits, columns, n);
  }

  /** Index `k` of `before` followed by two more segments. */
  lemma PairIndex(before: seq<Segment>, last: seq<Segment>, k: nat)
    requires |last| == 2 && k < |before| + 2
    ensures (before + last)[k] ==
      if k < |before| then before[k] else if k == |before| then last[0] else last[1]
  {
  }

  /** The strokes draw two segments per bit, those `BitSegment` names, in
      stream order. */
  lemma InnerTrace(bits: string, columns: int, pen: Point)
    requires ValidColumns(columns)
    ensures |Trace(InnerLines(bits, columns), pen)| == 2 * |bits|
    ensures forall k :: 0 <= k < 2 * |bits| ==>
      Trace(InnerLines(bits, columns), pen)[k] == BitSegment(bits, columns, k)
  {
    StrokesTrace(bits, columns, |bits|, pen);
  }

  // ---------------------------------------------------------------------------
  // The whole figure
  // ---------------------------------------------------------------------------

  /** The path data of the figure: the border, then the bit strokes. */
  function BuildPath(bits: string, columns: int, rows: nat): seq<Command>
    requires ValidColumns(columns)
  {
    OuterLines(columns, rows) + InnerLines(bits, columns)
  }

  /** Segment `k` of the figure: the border first, then the bits. */
  function FigureSegment(bits: string, columns: int, rows: nat, k: nat): Segment
    requires ValidColumns(columns) && k < columns + rows + 2 * |bits|
  {
    if k < columns + rows then BorderSegment(columns, rows, k)
    else BitSegment(bits, columns, k - (columns + rows))
  }

  /** The figure draws `columns + rows` border dashes and two segments per bit. */
  lemma FigureTrace(bits: string, columns: int, rows: nat, pen: Point)
    requires ValidColumns(columns)
    ensures |Trace(BuildPath(bits, columns, rows), pen)| == columns + rows + 2 * |bits|
    ensures forall k :: 0 <= k < columns + rows + 2 * |bits| ==>
      Trace(BuildPath(bits, columns, rows), pen)[k] == FigureSegment(bits, columns, rows, k)
  {
    var outer := OuterLines(columns, rows);
    TraceAppend(outer, InnerLines(bits, columns), pen);
    OuterTrace(columns, rows, pen);
    InnerTrace(bits, columns, PenAfter(outer, pen));
  }
}
