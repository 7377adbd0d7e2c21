/** `draw_dotted_grid`: the dotted guide lines drawn over a page of images.
    What it draws depends on the configuration alone, never on the images. */
module DottedGrid {
  import opened Geometry
  import opened Canvas

  /** `setDash(1, 3)`: one point of line, three points of gap. */
  const DashOn: nat := 1
  const DashOff: nat := 3

  /** The vertical line at the left edge of column `col`, over the full drawable height. */
  function VerticalLine(c: Config, col: int): Instr
    requires c.Valid()
  {
    var x := c.XStart() + col as real * c.CellWidth();
    Line(x, c.pageHeight - c.margin, x, c.margin)
  }

  /** The horizontal line `row` cells below the top margin, over the full drawable width. */
  function HorizontalLine(c: Config, row: int): Instr
    requires c.Valid()
  {
    var y := c.pageHeight - c.margin - row as real * c.CellHeight();
    Line(c.margin, y, c.pageWidth - c.margin, y)
  }

  /** The interior column boundaries, columns 1 to `images_per_row - 1`. */
  function VerticalLines(c: Config): seq<Instr>
    requires c.Valid()
  {
    seq(c.imagesPerRow - 1, k requires 0 <= k < c.imagesPerRow - 1 => VerticalLine(c, k + 1))
  }

  /** The row boundaries, rows 0 to `images_per_column` inclusive. */
  function HorizontalLines(c: Config): seq<Instr>
    requires c.Valid()
  {
    seq(c.imagesPerColumn + 1, k requires 0 <= k < c.imagesPerColumn + 1 => HorizontalLine(c, k))
  }

  /** Everything one call draws: the lines bracketed by the dash style and its reset. */
  function Grid(c: Config): seq<Instr>
    requires c.Valid()
  {
    [SetDash(DashOn, DashOff)] + VerticalLines(c) + HorizontalLines(c) + [ResetDash]
  }

  /** The two loops of `draw_dotted_grid`. */
  method DrawDottedGrid(c: Config) returns (cmds: seq<Instr>)
    requires c.Valid()
    ensures cmds == Grid(c)
  {
    var xStart, cellWidth, cellHeight := c.XStart(), c.CellWidth(), c.CellHeight();
    cmds := [SetDash(DashOn, DashOff)];
    for col := 1 to c.imagesPerRow
      invariant cmds == [SetDash(DashOn, DashOff)] + VerticalLines(c)[..col - 1]
    {
      var x := xStart + col as real * cellWidth;
      assert VerticalLines(c)[col - 1] == VerticalLine(c, col) == Line(x, c.pageHeight - c.margin, x, c.margin);
      assert VerticalLines(c)[..col] == VerticalLines(c)[..col - 1] + [VerticalLine(c, col)];
      cmds := cmds + [Line(x, c.pageHeight - c.margin, x, c.margin)];
    }
    assert VerticalLines(c)[..c.imagesPerRow - 1] == VerticalLines(c);
    for row := 0 to c.imagesPerColumn + 1
      invariant cmds == [SetDash(DashOn, DashOff)] + VerticalLines(c) + HorizontalLines(c)[..row]
    {
      var y := c.pageHeight - c.margin - row as real * cellHeight;
      assert HorizontalLines(c)[row] == HorizontalLine(c, row) == Line(c.margin, y, c.pageWidth - c.margin, y);
      assert HorizontalLines(c)[..row + 1] == HorizontalLines(c)[..row] + [HorizontalLine(c, row)];
      cmds := cmds + [Line(c.margin, y, c.pageWidth - c.margin, y)];
    }
    assert HorizontalLines(c)[..c.imagesPerColumn + 1] == HorizontalLines(c);
    cmds := cmds + [ResetDash];
  }

  /** `images_per_row - 1` vertical lines, each strictly between the side margins,
      running from the top margin down to the bottom margin, left to right. */
  lemma VerticalLinesInside(c: Config)
    requires c.Valid()
    ensures |VerticalLines(c)| == c.imagesPerRow - 1
    ensures forall k :: 0 <= k < |VerticalLines(c)| ==>
      var l := VerticalLines(c)[k];
      l.Line? && l.x1 == l.x2 && c.margin < l.x1 < c.pageWidth - c.margin &&
      l.y1 == c.pageHeight - c.margin && l.y2 == c.margin
    ensures forall k :: 0 < k < |VerticalLines(c)| ==>
      VerticalLines(c)[k - 1].x1 < VerticalLines(c)[k].x1
  {
    forall k | 0 <= k < |VerticalLines(c)|
      ensures c.margin < VerticalLines(c)[k].x1 < c.pageWidth - c.margin
    {
      VerticalLineWithin(c, k + 1);
    }
    forall k | 0 < k < |VerticalLines(c)|
      ensures VerticalLines(c)[k - 1].x1 < VerticalLines(c)[k].x1
    {
      ScaleLess(k, k + 1, c.CellWidth());
    }
  }

  /** The line of every interior column boundary lies strictly between the side margins. */
  lemma VerticalLineWithin(c: Config, col: nat)
    requires c.Valid() && 0 < col < c.imagesPerRow
    ensures c.margin < VerticalLine(c, col).x1 < c.pageWidth - c.margin
  {
    ScaleLess(0, col, c.CellWidth());
    ScaleLess(col, c.imagesPerRow, c.CellWidth());
  }

  /** `images_per_column + 1` horizontal lines spanning the drawable width, from the
      top margin down to exactly the bottom margin, each below the one before. */
  lemma HorizontalLinesInside(c: Config)
    requires c.Valid()
    ensures |HorizontalLines(c)| == c.imagesPerColumn + 1
    ensures forall k :: 0 <= k < |HorizontalLines(c)| ==>
      var l := HorizontalLines(c)[k];
      l.Line? && l.y1 == l.y2 && c.margin <= l.y1 <= c.pageHeight - c.margin &&
      l.x1 == c.margin && l.x2 == c.pageWidth - c.margin
    ensures HorizontalLines(c)[0].y1 == c.pageHeight - c.margin
    ensures HorizontalLines(c)[c.imagesPerColumn].y1 == c.margin
    ensures forall k :: 0 < k < |HorizontalLines(c)| ==>
      HorizontalLines(c)[k].y1 < HorizontalLines(c)[k - 1].y1
  {
    forall k | 0 <= k < |HorizontalLines(c)|
      ensures c.margin <= HorizontalLines(c)[k].y1 <= c.pageHeight - c.margin
    {
      HorizontalLineWithin(c, k);
    }
    forall k | 0 < k < |HorizontalLines(c)|
      ensures HorizontalLines(c)[k].y1 < HorizontalLines(c)[k - 1].y1
    {
      ScaleLess(k - 1, k, c.CellHeight());
    }
  }

  /** The line of every row boundary, the last included, lies between the top
      and bottom margins. */
  lemma HorizontalLineWithin(c: Config, row: nat)
    requires c.Valid() && row <= c.imagesPerColumn
    ensures c.margin <= HorizontalLine(c, row).y1 <= c.pageHeight - c.margin
  {
    var ch := c.CellHeight();
    if row < c.imagesPerColumn {
      ScaleLess(row, c.imagesPerColumn, ch);
    }
    if row > 0 {
      ScaleLess(0, row, ch);
    }
  }

  /** The grid runs along the cells the loop fills: the top and bottom edges
      of every cell lie on horizontal lines, and the left edge of every cell
      but the first in its row lies on a vertical line. */
  lemma GridOnCellEdges(c: Config, index: nat)
    requires c.Valid()
    ensures HorizontalLines(c)[Row(c, index)].y1 == CellY(c, index) + c.CellHeight()
    ensures HorizontalLines(c)[Row(c, index) + 1].y1 == CellY(c, index)
    ensures Column(c, index) > 0 ==> VerticalLines(c)[Column(c, index) - 1].x1 == CellX(c, index)
  {
    var row, ch := Row(c, index), c.CellHeight();
    CellClosedForm(c, index);
    assert (row + 1) as real * ch == row as real * ch + ch;
  }

  /** One grid is one dash bracket around lines only: it opens with the single
      `setDash(1, 3)`, closes with the single reset, and neither breaks the page
      nor draws in a cell. */
  lemma GridShape(c: Config)
    requires c.Valid()
    ensures |Grid(c)| == c.imagesPerRow + c.imagesPerColumn + 2
    ensures Grid(c)[0] == SetDash(DashOn, DashOff) && Grid(c)[|Grid(c)| - 1] == ResetDash
    ensures multiset(Grid(c))[SetDash(DashOn, DashOff)] == 1
    ensures multiset(Grid(c))[ResetDash] == 1
    ensures ShowPage !in Grid(c) && Save !in Grid(c)
    ensures forall k :: 0 < k < |Grid(c)| - 1 ==> Grid(c)[k].Line?
    ensures forall k :: 0 <= k < |Grid(c)| ==> !IsCellDrawing(Grid(c)[k])
  {
    var lines := VerticalLines(c) + HorizontalLines(c);
    assert Grid(c) == [SetDash(DashOn, DashOff)] + lines + [ResetDash];
    assert forall k :: 0 <= k < |lines| ==> lines[k].Line?;
    assert SetDash(DashOn, DashOff) !in lines && ResetDash !in lines;
  }
}
