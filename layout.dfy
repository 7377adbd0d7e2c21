/** `create_pdf_with_dotted_grid`: lays the PNG images of a directory listing out
    on a grid, page after page, and records every canvas call it makes.

    The decoded size of each file, which the source obtains from PIL's
    `Image.open`, is the parameter `open`; the directory listing is taken in the
    natural order that `natsorted` puts it in. */
module GridPdf {
  import opened Geometry
  import opened Canvas
  import opened Listing
  import opened DottedGrid
  import opened Pages

  /** `setFont("Helvetica", 8)` before every caption. */
  const CaptionFont: string := "Helvetica"
  const CaptionFontSize: nat := 8

  /** What the loop body draws in the cell whose bottom-left corner is the
      cursor `(x, y)`: the thumbnail shifted by `x_offset` and `y_offset`, and,
      when captions are on, the font change and the caption. */
  function CellCommands(c: Config, x: real, y: real, file: string, intrinsic: Extent): (cmds: seq<Instr>)
    requires c.Valid() && IsPng(file)
    ensures |cmds| == if c.printTitles then 3 else 1
    ensures forall k :: 0 <= k < |cmds| ==> IsCellDrawing(cmds[k])
    ensures cmds[0].PlaceImage? && cmds[0].path == file
    ensures c.printTitles ==> cmds[2].CentredText? && cmds[2].text == Stem(file)
  {
    var shown := Thumbnail(intrinsic, c.ThumbnailBox());
    var xOffset := (c.CellWidth() - shown.width) / 2.0;
    var yOffset := (c.CellHeight() - shown.height) / 2.0;
    [PlaceImage(file, x + xOffset, y + yOffset, shown.width, shown.height)] +
    if c.printTitles then
      [SetFont(CaptionFont, CaptionFontSize),
       CentredText(x + c.CellWidth() / 2.0, y + yOffset - CaptionGap, Stem(file))]
    else []
  }

  /** At the cell of image `index`, the image is drawn as `PlacedRect` says,
      centred in the cell, and its caption at `CaptionAnchor`. */
  lemma CellCommandsInCell(c: Config, index: nat, file: string, intrinsic: Extent)
    requires c.Valid() && IsPng(file)
    ensures var cmds := CellCommands(c, CellX(c, index), CellY(c, index), file, intrinsic);
      var shown := Thumbnail(intrinsic, c.ThumbnailBox());
      var r := PlacedRect(c, index, shown);
      var anchor := CaptionAnchor(c, index, shown);
      cmds[0] == PlaceImage(file, r.x, r.y, r.width, r.height) &&
      (c.printTitles ==> cmds[1] == SetFont(CaptionFont, CaptionFontSize) &&
                         cmds[2] == CentredText(anchor.0, anchor.1, Stem(file)))
  {
  }

  /** The cells the loop draws, one per PNG file, each at the cursor's cell. */
  function Cells(c: Config, files: seq<string>, open: string -> Extent): (cells: seq<seq<Instr>>)
    requires c.Valid() && AllPng(files)
    ensures |cells| == |files|
    ensures DrawingCells(cells)
    ensures forall j :: 0 <= j < |cells| ==> cells[j] != []
  {
    seq(|files|, j requires 0 <= j < |files| =>
      CellCommands(c, CellX(c, j), CellY(c, j), files[j], open(files[j])))
  }

  /** The whole instruction stream of one run: nothing at all when the listing
      holds no PNG name; otherwise the file cells with the dotted grid and a
      page break after every full page, the grid of a partly filled last page,
      and the save. */
  function Document(c: Config, listing: seq<string>, open: string -> Extent): seq<Instr>
    requires c.Valid()
  {
    var files := PngFiles(listing);
    Finish(Cells(c, files, open), c.PerPage(), Grid(c), |files|)
  }

  /** The first half of the loop body: open the image, shrink it into the
      padded cell, draw it centred at the cursor and, when captions are on,
      write its stem below it. */
  method DrawImageCell(c: Config, x: real, y: real, file: string, intrinsic: Extent)
    returns (cmds: seq<Instr>)
    requires c.Valid() && IsPng(file)
    ensures cmds == CellCommands(c, x, y, file, intrinsic)
  {
    var cellWidth, cellHeight := c.CellWidth(), c.CellHeight();
    var shown := Thumbnail(intrinsic, Size(cellWidth - c.imagePadding, cellHeight - c.imagePadding));
    var fileName := Stem(file);
    var xOffset := (cellWidth - shown.width) / 2.0;
    var yOffset := (cellHeight - shown.height) / 2.0;
    cmds := [PlaceImage(file, x + xOffset, y + yOffset, shown.width, shown.height)];
    if c.printTitles {
      var textX := x + cellWidth / 2.0;
      var textY := y + yOffset - CaptionGap;
      cmds := cmds + [SetFont(CaptionFont, CaptionFontSize), CentredText(textX, textY, fileName)];
    }
  }

  /** The cursor update at the end of the loop body for image `index`: one
      cell to the right, back to the left edge one row down at the end of a
      row, and back to the top left corner at the end of a page. */
  method MoveCursor(c: Config, index: nat, x: real, y: real) returns (nx: real, ny: real)
    requires c.Valid()
    ensures (nx, ny) == Advance(c, index, x, y)
  {
    var xStart, yStart := c.XStart(), c.YStart();
    nx, ny := x + c.CellWidth(), y;
    if (index + 1) % c.imagesPerRow == 0 {
      nx := xStart;
      ny := y - c.CellHeight();
    }
    if (index + 1) % (c.imagesPerRow * c.imagesPerColumn) == 0 {
      nx, ny := xStart, yStart;
    }
  }

  /** The function itself: a cursor `(x, y)` walked cell by cell, reset at the
      end of every row and every page. */
  method CreatePdfWithDottedGrid(c: Config, listing: seq<string>, open: string -> Extent)
    returns (canvas: seq<Instr>)
    requires c.Valid()
    ensures canvas == Document(c, listing, open)
  {
    var files := PngFiles(listing);
    if |files| == 0 {
      // "No PNG images found": return before the canvas is created
      return [];
    }
    canvas := [];
    var x, y := c.XStart(), c.YStart();
    var perPage := c.imagesPerRow * c.imagesPerColumn;
    assert perPage == c.PerPage();
    ghost var cells := Cells(c, files, open);
    for index := 0 to |files|
      invariant (x, y) == (CellX(c, index), CellY(c, index))
      invariant canvas == Paginate(cells, perPage, Grid(c), index)
    {
      var file := files[index];
      var cell := DrawImageCell(c, x, y, file, open(file));
      canvas := canvas + cell;
      x, y := MoveCursor(c, index, x, y);
      AdvanceIsStep(c, index);
      if (index + 1) % perPage == 0 {
        var grid := DrawDottedGrid(c);
        canvas := canvas + grid + [ShowPage];
      }
    }
    // `index + 1` of the last iteration is the number of files
    if |files| % perPage != 0 {
      var grid := DrawDottedGrid(c);
      canvas := canvas + grid;
    }
    canvas := canvas + [Save];
  }
}
