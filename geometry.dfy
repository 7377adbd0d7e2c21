/** The page geometry of `create_pdf_with_dotted_grid`: the configuration, the
    size of one grid cell, the cell an image index lands in, PIL's shrink-only
    thumbnail, and where an image and its caption are drawn inside a cell.
    Coordinates are exact reals in PDF points with the origin at the bottom
    left of the page, as reportlab uses them. */
module Geometry {
  import DivMod

  /** The layout parameters of one run. */
  datatype Config = Config(
    pageWidth: real,
    pageHeight: real,
    margin: real,
    imagesPerRow: int,
    imagesPerColumn: int,
    imagePadding: real,
    printTitles: bool)
  {
    /** Both grid counts are positive and the margins leave room on the page. */
    predicate Valid() {
      imagesPerRow >= 1 && imagesPerColumn >= 1 &&
      pageWidth > 2.0 * margin && pageHeight > 2.0 * margin
    }

    /** The number of images one page holds. */
    function PerPage(): (p: int)
      requires Valid()
      ensures p >= imagesPerRow && p >= imagesPerColumn
    {
      DivMod.MulAtLeast(imagesPerColumn, imagesPerRow);
      DivMod.MulAtLeast(imagesPerRow, imagesPerColumn);
      imagesPerRow * imagesPerColumn
    }

    /** `cell_width`: the columns exactly fill the width between the margins. */
    function CellWidth(): (w: real)
      requires Valid()
      ensures w > 0.0
      ensures w * imagesPerRow as real + 2.0 * margin == pageWidth
    {
      (pageWidth - 2.0 * margin) / imagesPerRow as real
    }

    /** `cell_height`: the rows exactly fill the height between the margins. */
    function CellHeight(): (h: real)
      requires Valid()
      ensures h > 0.0
      ensures h * imagesPerColumn as real + 2.0 * margin == pageHeight
    {
      (pageHeight - 2.0 * margin) / imagesPerColumn as real
    }

    /** The box every thumbnail has to fit in: the cell less the padding.
        `PlacedRect` and `ThumbnailInsideCell` state what fitting it means. */
    function ThumbnailBox(): Size
      requires Valid()
    {
      Size(CellWidth() - imagePadding, CellHeight() - imagePadding)
    }

    /** `x_start`: the left edge of the first column. */
    function XStart(): real { margin }

    /** `y_start`: the bottom edge of the top row, which lies inside the
        margins: at or above the bottom margin, below the top one. */
    function YStart(): (y: real)
      requires Valid()
      ensures margin <= y < pageHeight - margin
    {
      var h := CellHeight();
      assert h * imagesPerColumn as real + 2.0 * margin == pageHeight;
      if imagesPerColumn > 1 then ScaleLess(1, imagesPerColumn, h); pageHeight - margin - h
      else pageHeight - margin - h
    }
  }

  /** reportlab's A4 page, 21 cm by 29.7 cm at 72 points per inch. */
  const A4Width: real := 21.0 * 72.0 / 2.54
  const A4Height: real := 29.7 * 72.0 / 2.54

  /** The layout of `create_pdf_with_dotted_grid` on a page of the given size
      with its keyword defaults (4 columns, 5 rows, 10 points of padding,
      captions on) and its fixed 20-point margin. */
  function Defaults(pageWidth: real, pageHeight: real): (c: Config)
    requires pageWidth > 40.0 && pageHeight > 40.0
    ensures c.Valid()
    ensures c.PerPage() == 20
  {
    Config(pageWidth, pageHeight, 20.0, 4, 5, 10.0, true)
  }

  /** On A4 the defaults leave a positive box for every thumbnail. */
  lemma A4DefaultsLeaveRoom()
    ensures var c := Defaults(A4Width, A4Height);
      c.ThumbnailBox().width > 0.0 && c.ThumbnailBox().height > 0.0
  {
  }

  /** A width and a height, in points. */
  datatype Size = Size(width: real, height: real)

  /** The size of a decoded image: both dimensions positive. */
  type Extent = s: Size | s.width > 0.0 && s.height > 0.0 witness Size(1.0, 1.0)

  /** A rectangle given by its bottom-left corner and its size. */
  datatype Rect = Rect(x: real, y: real, width: real, height: real)

  /** `img.thumbnail(box)`: an image that already fits the box is left as it
      is; otherwise the side that the box limits more is set to the box and the
      other follows the image's aspect ratio. PIL's rounding to whole pixels is
      not modelled. */
  function Thumbnail(intrinsic: Extent, box: Size): (r: Size)
  {
    if box.width >= intrinsic.width && box.height >= intrinsic.height then
      intrinsic
    else if box.width * intrinsic.height >= box.height * intrinsic.width then
      // the box is relatively wider than the image: its height decides
      Size(box.height * intrinsic.width / intrinsic.height, box.height)
    else
      Size(box.width, box.width * intrinsic.height / intrinsic.width)
  }

  /** A thumbnail never grows the image, and an image that fits is untouched. */
  lemma ThumbnailShrinks(intrinsic: Extent, box: Size)
    ensures var r := Thumbnail(intrinsic, box);
      r.width <= intrinsic.width && r.height <= intrinsic.height &&
      (intrinsic.width <= box.width && intrinsic.height <= box.height ==> r == intrinsic)
  {
    var iw, ih, bw, bh := intrinsic.width, intrinsic.height, box.width, box.height;
    if bw >= iw && bh >= ih {
    } else if bw * ih >= bh * iw {
      LimitedSideShrinks(iw, ih, bw, bh);
    } else {
      LimitedSideShrinks(ih, iw, bh, bw);
    }
  }

  /** When the box limits the second side of an image that does not fit, that
      side shrinks to the box and the first side shrinks with it. */
  lemma LimitedSideShrinks(iw: real, ih: real, bw: real, bh: real)
    requires iw > 0.0 && ih > 0.0 && (bw < iw || bh < ih) && bw * ih >= bh * iw
    ensures bh < ih && bh * iw / ih <= iw
  {
    if bw < iw {
      MulLess(bw, iw, ih);
      CancelLess(bh, ih, iw);
    }
    QuotientAtMost(bh * iw, iw, ih);
  }

  lemma MulLess(a: real, b: real, k: real)
    requires k > 0.0 && a < b
    ensures a * k < b * k
  {
    assert b * k - a * k == (b - a) * k;
  }

  lemma CancelLess(a: real, b: real, k: real)
    requires k > 0.0 && a * k < b * k
    ensures a < b
  {
    assert (b - a) * k == b * k - a * k;
  }

  /** A thumbnail keeps the width-to-height ratio of the image. */
  lemma ThumbnailKeepsAspect(intrinsic: Extent, box: Size)
    ensures var r := Thumbnail(intrinsic, box);
      r.width * intrinsic.height == r.height * intrinsic.width
  {
  }

  /** Into a box of positive size, a thumbnail fits, and is not empty. */
  lemma ThumbnailFitsBox(intrinsic: Extent, box: Size)
    requires box.width > 0.0 && box.height > 0.0
    ensures var r := Thumbnail(intrinsic, box);
      0.0 < r.width <= box.width && 0.0 < r.height <= box.height
  {
    var iw, ih, bw, bh := intrinsic.width, intrinsic.height, box.width, box.height;
    if bw >= iw && bh >= ih {
    } else if bw * ih >= bh * iw {
      LimitedSideFits(iw, ih, bw, bh);
    } else {
      LimitedSideFits(ih, iw, bh, bw);
    }
  }

  /** The side that follows the aspect ratio stays within its side of the box. */
  lemma LimitedSideFits(iw: real, ih: real, bw: real, bh: real)
    requires iw > 0.0 && ih > 0.0 && bw > 0.0 && bh > 0.0 && bw * ih >= bh * iw
    ensures 0.0 < bh * iw / ih <= bw
  {
    QuotientAtMost(bh * iw, bw, ih);
  }

  /** `a / d <= b` when `a <= b * d`, for a positive divisor. */
  lemma QuotientAtMost(a: real, b: real, d: real)
    requires d > 0.0 && a <= b * d
    ensures a / d <= b
  {
    assert a / d * d == a;
  }

  /** Column of image `index` within its row. */
  function Column(c: Config, index: nat): (col: nat)
    requires c.Valid()
    ensures col < c.imagesPerRow
  {
    index % c.imagesPerRow
  }

  /** Row of image `index` within its page, counted from the top. */
  function Row(c: Config, index: nat): (row: nat)
    requires c.Valid()
    ensures row < c.imagesPerColumn
  {
    (index / c.imagesPerRow) % c.imagesPerColumn
  }

  /** `n` steps of length `step` laid end to end, as the loop's repeated
      `+=` and `-=` lay them; `StepsProduct` gives the product form. */
  function Steps(n: nat, step: real): real
  {
    if n == 0 then 0.0 else Steps(n - 1, step) + step
  }

  /** `n` steps of length `step` span `n * step`. */
  lemma {:induction false} StepsProduct(n: nat, step: real)
    ensures Steps(n, step) == n as real * step
  {
    if n > 0 {
      StepsProduct(n - 1, step);
      assert n as real * step == (n - 1) as real * step + step;
    }
  }

  /** Left edge of the cell of image `index`: `Column` cell widths right of the margin. */
  function CellX(c: Config, index: nat): real
    requires c.Valid()
  {
    c.XStart() + Steps(Column(c, index), c.CellWidth())
  }

  /** Bottom edge of the cell of image `index`: `Row` cell heights below the top row. */
  function CellY(c: Config, index: nat): real
    requires c.Valid()
  {
    c.YStart() - Steps(Row(c, index), c.CellHeight())
  }

  /** The closed forms of the cell corner: `x == margin + (index % images_per_row) * cell_width`
      and `y == y_start - ((index // images_per_row) % images_per_column) * cell_height`. */
  lemma CellClosedForm(c: Config, index: nat)
    requires c.Valid()
    ensures CellX(c, index) == c.margin + (index % c.imagesPerRow) as real * c.CellWidth()
    ensures CellY(c, index) ==
      c.YStart() - ((index / c.imagesPerRow) % c.imagesPerColumn) as real * c.CellHeight()
  {
    StepsProduct(Column(c, index), c.CellWidth());
    StepsProduct(Row(c, index), c.CellHeight());
  }

  /** The loop's cursor update, `x += cell_width` and then the row reset, moves
      `x` from the cell of `index` to that of `index + 1`; the page reset sets `x`
      to where the row reset already put it, since a full page ends a row. */
  lemma CursorStepX(c: Config, index: nat)
    requires c.Valid()
    ensures CellX(c, index + 1) ==
      if (index + 1) % c.imagesPerRow == 0 then c.XStart() else CellX(c, index) + c.CellWidth()
    ensures (index + 1) % c.PerPage() == 0 ==> (index + 1) % c.imagesPerRow == 0
  {
    DivMod.Successor(index, c.imagesPerRow);
    DivMod.ModProduct(index + 1, c.imagesPerRow, c.imagesPerColumn);
  }

  /** The row reset, `y -= cell_height`, and then the page reset move `y` from
      the cell of `index` to that of `index + 1`. */
  lemma CursorStepY(c: Config, index: nat)
    requires c.Valid()
    ensures CellY(c, index + 1) ==
      if (index + 1) % c.PerPage() == 0 then c.YStart()
      else if (index + 1) % c.imagesPerRow == 0 then CellY(c, index) - c.CellHeight()
      else CellY(c, index)
  {
    RowStep(c, index);
  }

  /** The row moves down by one at the end of a row and back to the top at the
      end of a page. */
  lemma RowStep(c: Config, index: nat)
    requires c.Valid()
    ensures Row(c, index + 1) ==
      if (index + 1) % c.PerPage() == 0 then 0
      else if (index + 1) % c.imagesPerRow == 0 then Row(c, index) + 1
      else Row(c, index)
  {
    var r, k := c.imagesPerRow, c.imagesPerColumn;
    DivMod.Successor(index, r);
    DivMod.ModProduct(index + 1, r, k);
    if (index + 1) % r == 0 {
      DivMod.Successor(index / r, k);
    }
  }

  /** One turn of the loop's cursor update after image `index` is drawn at
      `(x, y)`: step right one cell; at the end of a row go back to the left
      edge and down one row; when the page is full go back to the top left. */
  function Advance(c: Config, index: nat, x: real, y: real): (real, real)
    requires c.Valid()
  {
    var (x1, y1) :=
      if (index + 1) % c.imagesPerRow == 0 then (c.XStart(), y - c.CellHeight())
      else (x + c.CellWidth(), y);
    if (index + 1) % c.PerPage() == 0 then (c.XStart(), c.YStart()) else (x1, y1)
  }

  /** The cursor invariant of the loop: from the corner of the cell of
      `index`, one update reaches the corner of the cell of `index + 1`, so the
      cursor is always at the corner `CellClosedForm` gives. */
  lemma AdvanceIsStep(c: Config, index: nat)
    requires c.Valid()
    ensures Advance(c, index, CellX(c, index), CellY(c, index)) == (CellX(c, index + 1), CellY(c, index + 1))
  {
    CursorStepX(c, index);
    CursorStepY(c, index);
  }

  /** Every cell lies within the margins of the page. */
  lemma CellWithinMargins(c: Config, index: nat)
    requires c.Valid()
    ensures c.margin <= CellX(c, index) && CellX(c, index) + c.CellWidth() <= c.pageWidth - c.margin
    ensures c.margin <= CellY(c, index) && CellY(c, index) + c.CellHeight() <= c.pageHeight - c.margin
  {
    StepsWithin(Column(c, index), c.imagesPerRow, c.CellWidth());
    StepsWithin(Row(c, index), c.imagesPerColumn, c.CellHeight());
  }

  /** Fewer than `bound` steps, and one more, stay within `bound` steps. */
  lemma StepsWithin(n: nat, bound: nat, step: real)
    requires n < bound && step > 0.0
    ensures 0.0 <= Steps(n, step) && Steps(n, step) + step <= bound as real * step
  {
    StepsProduct(n, step);
    assert (n + 1) as real * step <= bound as real * step by {
      if n + 1 < bound { ScaleLess(n + 1, bound, step); }
    }
    assert n as real * step + step == (n + 1) as real * step;
  }

  /** Different numbers of steps of a positive length span different distances. */
  lemma StepsInjective(a: nat, b: nat, step: real)
    requires a != b && step > 0.0
    ensures Steps(a, step) != Steps(b, step)
  {
    StepsProduct(a, step);
    StepsProduct(b, step);
    ScaleInjective(a, b, step);
  }

  /** Two images on the same page never share a cell. */
  lemma DistinctCellsOnPage(c: Config, i: nat, j: nat)
    requires c.Valid()
    requires i != j && i / c.PerPage() == j / c.PerPage()
    ensures CellX(c, i) != CellX(c, j) || CellY(c, i) != CellY(c, j)
  {
    SlotsDiffer(c, i, j);
    DistinctSlots(c, i, j);
  }

  lemma DistinctSlots(c: Config, i: nat, j: nat)
    requires c.Valid()
    requires Column(c, i) != Column(c, j) || Row(c, i) != Row(c, j)
    ensures CellX(c, i) != CellX(c, j) || CellY(c, i) != CellY(c, j)
  {
    var ci, cj, ri, rj := Column(c, i), Column(c, j), Row(c, i), Row(c, j);
    if ci != cj {
      StepsInjective(ci, cj, c.CellWidth());
    } else {
      StepsInjective(ri, rj, c.CellHeight());
    }
  }

  /** The page, column and row of an image determine its index. */
  lemma SlotsDiffer(c: Config, i: nat, j: nat)
    requires c.Valid()
    requires i != j && i / c.PerPage() == j / c.PerPage()
    ensures Column(c, i) != Column(c, j) || Row(c, i) != Row(c, j)
  {
    var r, k := c.imagesPerRow, c.imagesPerColumn;
    var p := r * k;
    if Column(c, i) == Column(c, j) && Row(c, i) == Row(c, j) {
      DivMod.ModProduct(i, r, k);
      DivMod.ModProduct(j, r, k);
      DivMod.SplitEqual(i, j, p);
      assert false;
    }
  }

  lemma ScaleInjective(a: nat, b: nat, s: real)
    requires a != b && s > 0.0
    ensures a as real * s != b as real * s
  {
    if a < b { ScaleLess(a, b, s); } else { ScaleLess(b, a, s); }
  }

  /** Multiplying by a positive length keeps the order of whole numbers. */
  lemma ScaleLess(a: nat, b: nat, s: real)
    requires a < b && s > 0.0
    ensures a as real * s < b as real * s
  {
    assert b as real * s == a as real * s + (b - a) as real * s;
  }

  /** Where image `index`, shrunk to `shown`, is drawn: the cell corner moved by
      `x_offset` and `y_offset`. */
  function PlacedRect(c: Config, index: nat, shown: Size): (r: Rect)
    requires c.Valid()
    ensures r.width == shown.width && r.height == shown.height
    // the gap on the left equals the gap on the right, the gap below the gap above
    ensures r.x - CellX(c, index) == (CellX(c, index) + c.CellWidth()) - (r.x + r.width)
    ensures r.y - CellY(c, index) == (CellY(c, index) + c.CellHeight()) - (r.y + r.height)
    // an image that fits the thumbnail box keeps half the padding clear on every side
    ensures shown.width <= c.ThumbnailBox().width ==>
      CellX(c, index) + c.imagePadding / 2.0 <= r.x &&
      r.x + r.width <= CellX(c, index) + c.CellWidth() - c.imagePadding / 2.0
    ensures shown.height <= c.ThumbnailBox().height ==>
      CellY(c, index) + c.imagePadding / 2.0 <= r.y &&
      r.y + r.height <= CellY(c, index) + c.CellHeight() - c.imagePadding / 2.0
  {
    var xOffset := (c.CellWidth() - shown.width) / 2.0;
    var yOffset := (c.CellHeight() - shown.height) / 2.0;
    Rect(CellX(c, index) + xOffset, CellY(c, index) + yOffset, shown.width, shown.height)
  }

  /** A thumbnail of a decoded image, with non-negative padding, is drawn
      inside its cell and hence inside the margins of the page. */
  lemma ThumbnailInsideCell(c: Config, index: nat, intrinsic: Extent)
    requires c.Valid() && c.imagePadding >= 0.0
    requires c.ThumbnailBox().width > 0.0 && c.ThumbnailBox().height > 0.0
    ensures var r := PlacedRect(c, index, Thumbnail(intrinsic, c.ThumbnailBox()));
      c.margin <= CellX(c, index) <= r.x && r.x + r.width <= CellX(c, index) + c.CellWidth() <= c.pageWidth - c.margin &&
      c.margin <= CellY(c, index) <= r.y && r.y + r.height <= CellY(c, index) + c.CellHeight() <= c.pageHeight - c.margin
  {
    CellWithinMargins(c, index);
    ThumbnailFitsBox(intrinsic, c.ThumbnailBox());
  }

  /** The caption anchor `(text_x, text_y)`: horizontally at the centre of the
      cell, which is also the centre of the image, and 15 points below the
      image's bottom edge. */
  const CaptionGap: real := 15.0

  function CaptionAnchor(c: Config, index: nat, shown: Size): (p: (real, real))
    requires c.Valid()
    ensures p.0 == CellX(c, index) + c.CellWidth() / 2.0
    ensures p.0 == PlacedRect(c, index, shown).x + shown.width / 2.0
    ensures p.1 + CaptionGap == PlacedRect(c, index, shown).y
  {
    var yOffset := (c.CellHeight() - shown.height) / 2.0;
    (CellX(c, index) + c.CellWidth() / 2.0, CellY(c, index) + yOffset - CaptionGap)
  }
}
