/** The generator: raw text and a width in, a figure out. Normalise, encode,
    pad, lay out, draw, the same steps in the same order as the generator's
    main routine, with each step's result passed on instead of kept in a
    shared variable. */
module Generator {
  import opened Wrappers
  import opened Bits
  import opened Alphabet
  import opened Normalizer
  import opened Encoder
  import opened Layout
  import opened Path
  import opened Drawing

  /** Why no figure can be made. */
  datatype ConfigError = NonPositiveWidth(width: int)

  /** Everything the generator computes for one input. */
  datatype Figure = Figure(
    message: string,
    bits: string,
    columns: int,
    rows: nat,
    canvas: Canvas,
    path: seq<Command>)

  /** SVG path data starts with the pen at the origin. */
  const Origin: Point := Point(0, 0)

  /** The figure for `raw` at `width` bits per row, or why there is none. */
  function Generate(raw: string, width: int): Result<Figure, ConfigError> {
    if width < 1 then Failure(NonPositiveWidth(width))
    else
      var columns := 2 * width;
      var message := Simplify(raw);
      var bits := Pad(Codify(message), columns);
      var rows := Rows(|bits|, columns);
      Success(Figure(message, bits, columns, rows, CanvasSize(columns, rows), BuildPath(bits, columns, rows)))
  }

  /** The segments the figure's path draws. */
  function Drawn(fig: Figure): seq<Segment> {
    Trace(fig.path, Origin)
  }

  /** A point inside the canvas, at least a margin away from every edge. */
  predicate WithinMargins(p: Point, canvas: Canvas) {
    Margin <= p.x <= canvas.width - Margin && Margin <= p.y <= canvas.height - Margin
  }

  // ---------------------------------------------------------------------------
  // What a generated figure is
  // ---------------------------------------------------------------------------

  /** A figure is made exactly when the width is positive; its grid is then
      twice as many columns wide as the width. */
  lemma GenerateFails(raw: string, width: int)
    ensures Generate(raw, width).Failure? <==> width < 1
    ensures width >= 1 ==> Generate(raw, width).value.columns == 2 * width
  {
  }

  /** The figure's message is the normalised text, and its bitstream is the
      encoding of that message followed by the fewest '0's that fill the
      last row. */
  lemma GenerateStream(raw: string, width: int)
    requires width >= 1
    ensures var fig := Generate(raw, width).value;
      var code := Encode(fig.message);
      fig.message == Simplify(raw) && OverAlphabet(fig.message) &&
      IsBits(fig.bits) &&
      |code| <= |fig.bits| && fig.bits[..|code|] == code &&
      (forall j :: |code| <= j < |fig.bits| ==> fig.bits[j] == '0') &&
      |fig.bits| % width == 0 && |fig.bits| - |code| < width
  {
    GenerateParts(raw, width, Generate(raw, width).value);
    StreamFacts(Simplify(raw), Generate(raw, width).value.bits, width);
  }

  /** A bitstream padded from the encoding of normalised text: bits, starting
      with the encoding, then fewer than `width` '0's up to a multiple of
      `width`. */
  lemma StreamFacts(message: string, bits: string, width: int)
    requires OverAlphabet(message) && width >= 1 && bits == Pad(Encode(message), 2 * width)
    ensures var code := Encode(message);
      IsBits(bits) &&
      |code| <= |bits| && bits[..|code|] == code &&
      (forall j :: |code| <= j < |bits| ==> bits[j] == '0') &&
      |bits| % width == 0 && |bits| - |code| < width
  {
    var code := Encode(message);
    EncodeFacts(message);
    PadFacts(code, 2 * width);
    BitsAppend(code, Zeros(PadCount(|code|, width)));
  }

  /** The grid has exactly as many rows as the bitstream fills, the canvas is
      the grid plus a margin on each side, and the path draws one dash per
      row and column of the border and two edges per bit. */
  lemma GenerateLayout(raw: string, width: int)
    requires width >= 1
    ensures var fig := Generate(raw, width).value;
      fig.rows * width == |fig.bits| &&
      fig.canvas.width == 2 * Margin + fig.columns * Tile &&
      fig.canvas.height == 2 * Margin + fig.rows * Tile &&
      |Drawn(fig)| == fig.columns + fig.rows + 2 * |fig.bits|
  {
    var fig := Generate(raw, width).value;
    assert fig.rows * width == |fig.bits| by {
      GenerateRows(raw, width, fig);
    }
    assert |Drawn(fig)| == fig.columns + fig.rows + 2 * |fig.bits| by {
      GenerateWellFormed(raw, width);
      DrawnLength(fig);
    }
  }

  /** A well-formed figure draws one segment per border dash and two per bit. */
  lemma DrawnLength(fig: Figure)
    requires WellFormed(fig)
    ensures |Drawn(fig)| == fig.columns + fig.rows + 2 * |fig.bits|
  {
    FigureTrace(fig.bits, fig.columns, fig.rows, Origin);
  }

  /** Text with nothing left after normalising gives an empty bitstream, no
      rows, a canvas only the margins high, and a path that is the border
      alone. */
  lemma GenerateEmpty(raw: string, width: int)
    requires width >= 1 && Simplify(raw) == []
    ensures var fig := Generate(raw, width).value;
      fig.bits == [] && fig.rows == 0 &&
      fig.canvas == Canvas(2 * Margin + 2 * width * Tile, 2 * Margin) &&
      fig.path == OuterLines(2 * width, 0) &&
      |Drawn(fig)| == 2 * width
  {
    var fig := Generate(raw, width).value;
    var columns := 2 * width;
    assert fig.bits == [] by {
      DoubleColumns(width);
      ApplyEntriesEmpty(Codes, |Codes|);
      PadFacts([], columns);
    }
    assert fig.rows == 0;
    assert fig.path == OuterLines(columns, 0) by {
      assert InnerLines([], columns) == [];
      assert BuildPath([], columns, 0) == OuterLines(columns, 0) + [];
    }
    OuterTrace(columns, 0, Origin);
  }

  /** The rows of a figure hold its bitstream exactly. */
  lemma GenerateRows(raw: string, width: int, fig: Figure)
    requires width >= 1 && Generate(raw, width) == Success(fig)
    ensures fig.columns == 2 * width && fig.rows * width == |fig.bits|
    ensures fig.rows * (fig.columns / 2) == |fig.bits|
  {
    GenerateParts(raw, width, fig);
    PadFacts(Encode(fig.message), fig.columns);
    RowsExact(|fig.bits|, fig.columns);
  }

  /** What every generated figure satisfies: an even column count of at
      least two, a bitstream of '0's and '1's that fills its rows exactly, the
      canvas of its grid, and the path that draws the border and the bits. */
  predicate WellFormed(fig: Figure) {
    ValidColumns(fig.columns) && IsBits(fig.bits) &&
    fig.rows * (fig.columns / 2) == |fig.bits| &&
    fig.canvas == CanvasSize(fig.columns, fig.rows) &&
    fig.path == BuildPath(fig.bits, fig.columns, fig.rows)
  }

  /** Every figure the generator makes is well formed. */
  lemma GenerateWellFormed(raw: string, width: int)
    requires width >= 1
    ensures WellFormed(Generate(raw, width).value)
  {
    var fig := Generate(raw, width).value;
    assert fig.rows * (fig.columns / 2) == |fig.bits| by {
      GenerateRows(raw, width, fig);
    }
    assert fig.canvas == CanvasSize(fig.columns, fig.rows);
    assert fig.path == BuildPath(fig.bits, fig.columns, fig.rows);
    assert IsBits(fig.bits) by {
      GenerateStream(raw, width);
    }
  }

  /** Every segment of a well-formed figure is a unit edge of its grid,
      inside the margins of its canvas. */
  lemma FigureWithinCanvas(fig: Figure)
    requires WellFormed(fig)
    ensures forall k :: 0 <= k < |Drawn(fig)| ==>
      WithinMargins(Drawn(fig)[k].from, fig.canvas) &&
      WithinMargins(Drawn(fig)[k].to, fig.canvas) &&
      UnitEdge(Drawn(fig)[k])
  {
    var t := Drawn(fig);
    assert t == Trace(BuildPath(fig.bits, fig.columns, fig.rows), Origin);
    forall k | 0 <= k < |t|
      ensures WithinMargins(t[k].from, fig.canvas) && WithinMargins(t[k].to, fig.canvas) && UnitEdge(t[k])
    {
      FigureFitsAt(fig.bits, fig.columns, fig.rows, Origin, k);
    }
  }

  /** Each bit of a well-formed figure can be read off its cell: '1' exactly
      when the cell's left edge is drawn, '0' exactly when its top edge is. */
  lemma FigureReadsBack(fig: Figure, i: nat)
    requires WellFormed(fig) && i < |fig.bits|
    ensures var x, y := X(i, fig.columns), Y(i, fig.columns);
      (Draws(Drawn(fig), LeftEdge(x, y)) <==> fig.bits[i] == '1') &&
      (Draws(Drawn(fig), TopEdge(x, y)) <==> fig.bits[i] == '0')
  {
    FigureReadable(fig.bits, fig.columns, fig.rows, Origin, i);
  }

  /** Two figures look alike when they draw the same edges, whatever the order
      and direction of the segments that draw them. */
  ghost predicate LookAlike(f: Figure, g: Figure) {
    forall e :: Draws(Drawn(f), e) <==> Draws(Drawn(g), e)
  }

  /** A figure that looks like `f` reaches down at least as far as `f`. */
  lemma RowsBelow(f: Figure, g: Figure)
    requires WellFormed(f) && WellFormed(g) && f.columns == g.columns && LookAlike(f, g)
    ensures f.rows <= g.rows
  {
    var e := Segment(Corner(f.rows % 2, f.rows), Corner(f.rows % 2 + 1, f.rows));
    BottomDashDrawn(f.bits, f.columns, f.rows, Origin);
    assert Draws(Drawn(g), e);
    DrawnAbove(g.bits, g.columns, g.rows, Origin, e);
  }

  /** Two well-formed figures on grids of the same width that draw the same
      edges carry the same bitstream: the lowest row line drawn fixes the
      rows, and each bit is read off its cell. */
  lemma DrawingDeterminesBits(f: Figure, g: Figure)
    requires WellFormed(f) && WellFormed(g) && f.columns == g.columns
    requires LookAlike(f, g)
    ensures f.bits == g.bits
  {
    RowsBelow(f, g);
    RowsBelow(g, f);
    assert |f.bits| == |g.bits|;
    forall i | 0 <= i < |f.bits|
      ensures f.bits[i] == g.bits[i]
    {
      var x, y := X(i, f.columns), Y(i, f.columns);
      FigureReadsBack(f, i);
      FigureReadsBack(g, i);
      assert Draws(Drawn(f), LeftEdge(x, y)) <==> Draws(Drawn(g), LeftEdge(x, y));
      assert Draws(Drawn(f), TopEdge(x, y)) <==> Draws(Drawn(g), TopEdge(x, y));
    }
  }

  /** Two texts drawn at the same width look alike only when they normalise to
      the same message: the picture determines the message. */
  lemma FigureDeterminesMessage(raw: string, other: string, width: int)
    requires width >= 1
    requires LookAlike(Generate(raw, width).value, Generate(other, width).value)
    ensures Generate(raw, width).value.message == Generate(other, width).value.message
  {
    var f, g := Generate(raw, width).value, Generate(other, width).value;
    GenerateWellFormed(raw, width);
    GenerateWellFormed(other, width);
    GenerateParts(raw, width, f);
    GenerateParts(other, width, g);
    SameDrawingSameMessage(f, g);
  }

  /** Two well-formed figures on grids of the same width whose bitstreams are
      padded encodings of normalised text, and which look alike, carry the
      same message. */
  lemma SameDrawingSameMessage(f: Figure, g: Figure)
    requires WellFormed(f) && WellFormed(g) && f.columns == g.columns && LookAlike(f, g)
    requires OverAlphabet(f.message) && f.bits == Pad(Encode(f.message), f.columns)
    requires OverAlphabet(g.message) && g.bits == Pad(Encode(g.message), g.columns)
    ensures f.message == g.message
  {
    DrawingDeterminesBits(f, g);
    PadWithZeros(Encode(f.message), f.bits, f.columns);
    PadWithZeros(Encode(g.message), g.bits, g.columns);
    var m, n := |f.bits| - |Encode(f.message)|, |g.bits| - |Encode(g.message)|;
    PaddedEncodingInjective(f.message, g.message, m, n);
  }

  /** The bitstream is the encoded message followed by '0's only. */
  lemma GeneratePadded(raw: string, width: int, fig: Figure)
    requires width >= 1 && Generate(raw, width) == Success(fig)
    ensures |Encode(fig.message)| <= |fig.bits| && OverAlphabet(fig.message)
    ensures fig.bits == Encode(fig.message) + Zeros(|fig.bits| - |Encode(fig.message)|)
  {
    GenerateParts(raw, width, fig);
    PadWithZeros(Encode(fig.message), fig.bits, fig.columns);
  }

  /** A bitstream padded from `code` is `code` followed by '0's only. */
  lemma PadWithZeros(code: string, bits: string, columns: int)
    requires ValidColumns(columns) && bits == Pad(code, columns)
    ensures |code| <= |bits| && bits == code + Zeros(|bits| - |code|)
  {
    PadSplit(code, columns);
  }

  /** The message of a figure is the normalised text, its grid has a row of
      `width` bits, its bitstream is the padded encoding of the message, and
      its rows are those the bitstream fills. */
  lemma GenerateParts(raw: string, width: int, fig: Figure)
    requires width >= 1 && Generate(raw, width) == Success(fig)
    ensures fig.columns == 2 * width && ValidColumns(fig.columns) && fig.columns / 2 == width
    ensures fig.message == Simplify(raw) && fig.bits == Pad(Encode(fig.message), fig.columns)
    ensures fig.rows == Rows(|fig.bits|, fig.columns)
  {
    DoubleColumns(width);
    CodifyIsLookup(fig.message);
  }

  /** The worked example: "Ab," at width 3 normalises to "ab,", encodes to
      16 bits, is padded with two '0's to 18 bits, and fills 6 rows of a
      96 by 96 pixel canvas. */
  lemma GenerateExample(raw: string, width: int)
    requires raw == "Ab," && width == 3
    ensures Generate(raw, width).Success?
    ensures var fig := Generate(raw, width).value;
      fig.message == "ab," && fig.bits == "111110100100100100" &&
      fig.columns == 6 && fig.rows == 6 && fig.canvas == Canvas(96, 96)
  {
    var fig := Generate(raw, width).value;
    GenerateParts(raw, width, fig);
    ExampleMessage(raw);
    ExampleEncoding(fig.message);
    ExamplePad(Encode(fig.message), fig.columns);
  }

  /** The 16 bits of the example on a grid of 6 columns take two '0's and fill
      6 rows. */
  lemma ExamplePad(code: string, columns: int)
    requires code == "1111101001001001" && columns == 6
    ensures Pad(code, columns) == "111110100100100100"
    ensures Rows(|Pad(code, columns)|, columns) == 6
  {
    assert PadCount(16, 3) == 2;
    assert Zeros(2) == "00";
  }

  /** "Ab," normalises to "ab,". */
  lemma ExampleMessage(raw: string)
    requires raw == "Ab,"
    ensures Simplify(raw) == "ab,"
  {
    var lowered := Lowercase(raw);
    assert lowered[0] == 'a' && lowered[1] == 'b' && lowered[2] == ',';
    assert lowered == "ab,";
    assert OverAlphabet(lowered);
  }

  /** The codes of 'a', 'b' and ',' are "111", "1101" and "001001001". */
  lemma ExampleEncoding(message: string)
    requires message == "ab,"
    ensures Encode(message) == "1111101001001001"
  {
    var a, b, c := message[0], message[1], message[2];
    assert message == [a, b, c];
    EncodeThree(a, b, c);
    ExampleCodes(a, b, c);
    ExampleConcat(CodeOf(a), CodeOf(b), CodeOf(c));
  }

  /** The codes of the three characters of the example. */
  lemma ExampleCodes(a: char, b: char, c: char)
    requires a == 'a' && b == 'b' && c == ','
    ensures CodeOf(a) == "111" && CodeOf(b) == "1101" && CodeOf(c) == "001001001"
  {
    assert IndexOf(b) == 1 && IndexOf(c) == 26;
  }

  /** The three codes of the example, one after the other. */
  lemma ExampleConcat(x: string, y: string, z: string)
    requires x == "111" && y == "1101" && z == "001001001"
    ensures x + y + z == "1111101001001001"
  {
  }

  /** A three-letter message encodes letter by letter. */
  lemma EncodeThree(a: char, b: char, c: char)
    requires Allowed(a) && Allowed(b) && Allowed(c)
    ensures Encode([a, b, c]) == CodeOf(a) + CodeOf(b) + CodeOf(c)
  {
    var ab := [a, b];
    assert [a, b, c] == ab + [c];
    assert ab == [a] + [b];
    calc {
      Encode([a, b, c]);
      { EncodeAppend(ab, [c]); }
      Encode(ab) + Encode([c]);
      { EncodeAppend([a], [b]); }
      Encode([a]) + Encode([b]) + Encode([c]);
      { EncodeOne(a); EncodeOne(b); EncodeOne(c); }
      CodeOf(a) + CodeOf(b) + CodeOf(c);
    }
  }
}
