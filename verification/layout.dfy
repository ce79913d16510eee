/** Grid layout: how many rows a padded bitstream needs, how large the canvas
    is, and which grid cell each bit of the stream occupies. */
module Layout {
  import opened Arith

  /** Width and height of one grid cell, in pixels. */
  const Tile: int := 8

  /** Blank border between the canvas edge and the grid, in pixels. */
  const Margin: int := 3 * Tile

  /** A column count the generator can work with: twice a positive width. */
  predicate ValidColumns(columns: int) {
    columns >= 2 && columns % 2 == 0
  }

  /** Rows of the grid for a padded bitstream of `len` bits; a row holds
      `columns / 2` bits, on every other cell. */
  function Rows(len: nat, columns: int): nat
    requires ValidColumns(columns)
  {
    len / (columns / 2)
  }

  /** For a padded length the division is exact: the rows hold exactly the
      bitstream. */
  lemma RowsExact(len: nat, columns: int)
    requires ValidColumns(columns) && len % (columns / 2) == 0
    ensures Rows(len, columns) * (columns / 2) == len
  {
  }

  /** Twice a positive width is a column count the generator can work with,
      and a row of it holds `width` bits. */
  lemma DoubleColumns(width: int)
    requires width >= 1
    ensures ValidColumns(2 * width) && (2 * width) / 2 == width
  {
  }

  datatype Canvas = Canvas(width: int, height: int)

  /** The canvas: the grid plus a margin on every side. */
  function CanvasSize(columns: int, rows: int): Canvas {
    Canvas(2 * Margin + columns * Tile, 2 * Margin + rows * Tile)
  }

  // ---------------------------------------------------------------------------
  // The serpentine coordinate map
  // ---------------------------------------------------------------------------

  /** Grid column of bit `i`. */
  function X(i: nat, columns: int): nat
    requires ValidColumns(columns)
  {
    if i % columns < columns / 2 then 2 * (i % columns)
    else 1 + 2 * (i % columns - columns / 2)
  }

  /** Grid row of bit `i`. */
  function Y(i: nat, columns: int): nat
    requires ValidColumns(columns)
  {
    i / (columns / 2)
  }

  /** Bit `i` is the `(i % (columns / 2))`-th bit of its row, and it sits on an
      even column in an even row and on an odd column in an odd row. */
  lemma SerpentineCell(i: nat, columns: int)
    requires ValidColumns(columns)
    ensures X(i, columns) == 2 * (i % (columns / 2)) + Y(i, columns) % 2
  {
    var half := columns / 2;
    var y, k := i / half, i % half;
    var q := y / 2;
    assert i == half * y + k;
    if y % 2 == 0 {
      assert y == 2 * q;
      assert i == columns * q + k by {
        assert half * y == half * (2 * q) == (2 * half) * q;
      }
      DivModUnique(i, columns, q, k);
    } else {
      assert y == 2 * q + 1;
      assert i == columns * q + (half + k) by {
        assert half * y == half * (2 * q + 1) == (2 * half) * q + half;
      }
      DivModUnique(i, columns, q, half + k);
    }
  }

  /** Every bit sits on a cell whose column and row have the same parity. */
  lemma CellParity(i: nat, columns: int)
    requires ValidColumns(columns)
    ensures X(i, columns) % 2 == Y(i, columns) % 2
  {
    SerpentineCell(i, columns);
    DivModUnique(X(i, columns), 2, i % (columns / 2), Y(i, columns) % 2);
  }

  /** The cell of bit `i` lies in the grid of `rows` rows whenever `i` is a
      position of the padded stream, and has matching column and row parity. */
  lemma CellInGrid(i: nat, columns: int, rows: nat)
    requires ValidColumns(columns) && i < rows * (columns / 2)
    ensures X(i, columns) < columns && Y(i, columns) < rows
    ensures X(i, columns) % 2 == Y(i, columns) % 2
  {
    var half := columns / 2;
    var x, y := X(i, columns), Y(i, columns);
    CellParity(i, columns);
    assert x < columns by {
      SerpentineCell(i, columns);
      assert i % half < half && y % 2 < 2;
    }
    assert y < rows by {
      if y >= rows {
        MulMonotone(rows, y, half);
      }
    }
  }

  lemma MulMonotone(a: nat, b: nat, c: nat)
    requires a <= b
    ensures a * c <= b * c
  {
  }

  /** The bit position that the serpentine map sends to cell `(x, y)`. */
  function CellIndex(x: nat, y: nat, columns: int): nat
    requires ValidColumns(columns)
  {
    y * (columns / 2) + x / 2
  }

  /** Every checkerboard cell of the grid is reached: `CellIndex` inverts the
      map on cells whose column and row have the same parity. */
  lemma CellIndexInverts(x: nat, y: nat, columns: int, rows: nat)
    requires ValidColumns(columns) && x < columns && y < rows && x % 2 == y % 2
    ensures CellIndex(x, y, columns) < rows * (columns / 2)
    ensures X(CellIndex(x, y, columns), columns) == x
    ensures Y(CellIndex(x, y, columns), columns) == y
  {
    var half := columns / 2;
    var i := CellIndex(x, y, columns);
    assert x / 2 < half;
    DivModUnique(i, half, y, x / 2);
    SerpentineCell(i, columns);
    MulMonotone(y + 1, rows, half);
  }

  /** The map is one-to-one: `CellIndex` recovers the bit position. */
  lemma CellIndexRecovers(i: nat, columns: int)
    requires ValidColumns(columns)
    ensures CellIndex(X(i, columns), Y(i, columns), columns) == i
  {
    var half := columns / 2;
    SerpentineCell(i, columns);
    assert X(i, columns) / 2 == i % half;
  }

  /** No two bit positions share a cell. */
  lemma CellsDistinct(i: nat, j: nat, columns: int)
    requires ValidColumns(columns)
    requires X(i, columns) == X(j, columns) && Y(i, columns) == Y(j, columns)
    ensures i == j
  {
    CellIndexRecovers(i, columns);
    CellIndexRecovers(j, columns);
  }

  /** For a grid of `rows` rows the map is a bijection from the positions
      `0 .. rows * columns / 2` onto the cells whose column and row have the
      same parity. */
  lemma SerpentineBijection(columns: int, rows: nat)
    requires ValidColumns(columns)
    ensures forall i :: 0 <= i < rows * (columns / 2) ==>
      X(i, columns) < columns && Y(i, columns) < rows && X(i, columns) % 2 == Y(i, columns) % 2
    ensures forall i, j :: 0 <= i < j < rows * (columns / 2) ==>
      X(i, columns) != X(j, columns) || Y(i, columns) != Y(j, columns)
    ensures forall x: nat, y: nat :: x < columns && y < rows && x % 2 == y % 2 ==>
      exists i :: 0 <= i < rows * (columns / 2) && X(i, columns) == x && Y(i, columns) == y
  {
    forall i | 0 <= i < rows * (columns / 2)
      ensures X(i, columns) < columns && Y(i, columns) < rows && X(i, columns) % 2 == Y(i, columns) % 2
    {
      CellInGrid(i, columns, rows);
    }
    forall i, j | 0 <= i < j < rows * (columns / 2)
      ensures X(i, columns) != X(j, columns) || Y(i, columns) != Y(j, columns)
    {
      if X(i, columns) == X(j, columns) && Y(i, columns) == Y(j, columns) {
        CellsDistinct(i, j, columns);
      }
    }
    forall x: nat, y: nat | x < columns && y < rows && x % 2 == y % 2
      ensures exists i :: 0 <= i < rows * (columns / 2) && X(i, columns) == x && Y(i, columns) == y
    {
      CellIndexInverts(x, y, columns, rows);
    }
  }
}
