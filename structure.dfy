/** What the instruction stream of one run of `create_pdf_with_dotted_grid`
    looks like as a whole: its pages, grids and save, for any listing, any
    image sizes and any valid layout. */
module PageStructure {
  import opened Geometry
  import opened Canvas
  import opened Listing
  import opened DottedGrid
  import opened Pages
  import opened GridPdf

  /** One page break per full page, `N // (images_per_row * images_per_column)`
      for `N` PNG files, including after an exactly filled last page. */
  lemma PageBreaks(c: Config, listing: seq<string>, open: string -> Extent)
    requires c.Valid()
    ensures multiset(Document(c, listing, open))[ShowPage] == |PngFiles(listing)| / c.PerPage()
  {
    var files := PngFiles(listing);
    GridShape(c);
    FinishPageBreaks(Cells(c, files, open), c.PerPage(), Grid(c), |files|);
  }

  /** One grid per page that holds images: one for every full page and one more
      for a partly filled last page, which `DivMod.CeilDiv` shows is
      `ceil(N / per_page)`; the grid after the loop is drawn only in that case. */
  lemma GridsDrawn(c: Config, listing: seq<string>, open: string -> Extent)
    requires c.Valid()
    ensures multiset(Document(c, listing, open))[SetDash(DashOn, DashOff)] ==
      |PngFiles(listing)| / c.PerPage() + if |PngFiles(listing)| % c.PerPage() != 0 then 1 else 0
  {
    var files := PngFiles(listing);
    GridShape(c);
    FinishGrids(Cells(c, files, open), c.PerPage(), Grid(c), |files|);
  }

  /** Nothing at all is drawn when no name ends in ".png"; otherwise the
      document is closed by exactly one save, as its last instruction. */
  lemma SaveOnlyWithImages(c: Config, listing: seq<string>, open: string -> Extent)
    requires c.Valid()
    ensures Document(c, listing, open) == [] <==> PngFiles(listing) == []
    ensures PngFiles(listing) != [] ==>
      Document(c, listing, open)[|Document(c, listing, open)| - 1] == Save &&
      multiset(Document(c, listing, open))[Save] == 1
  {
    var files := PngFiles(listing);
    FinishEnds(Cells(c, files, open), c.PerPage(), Grid(c), |files|);
    GridShape(c);
    FinishSaves(Cells(c, files, open), c.PerPage(), Grid(c), |files|);
  }

  /** Every page break of a run comes right after a whole dotted grid, and
      every grid right after an image cell: a page is never gridded twice, and
      the grid drawn after the loop belongs to a page that got none in it. */
  lemma PagesFramed(c: Config, listing: seq<string>, open: string -> Extent)
    requires c.Valid()
    ensures BreaksAfterGrid(Document(c, listing, open), Grid(c))
    ensures AfterCellDrawing(Document(c, listing, open), SetDash(DashOn, DashOff))
  {
    var files := PngFiles(listing);
    GridShape(c);
    assert Grid(c)[0] !in Grid(c)[1..] by {
      assert multiset(Grid(c)) == multiset{Grid(c)[0]} + multiset(Grid(c)[1..]) by {
        assert Grid(c) == [Grid(c)[0]] + Grid(c)[1..];
      }
    }
    FinishBreaksAfterGrid(Cells(c, files, open), c.PerPage(), Grid(c), |files|);
    FinishGridAfterCell(Cells(c, files, open), c.PerPage(), Grid(c), |files|);
  }

  /** The default grid on A4 with 23
      images gives two pages, one page break between them, and a grid on each. */
  lemma TwentyThreeImages(listing: seq<string>, open: string -> Extent)
    requires |PngFiles(listing)| == 23
    ensures var c := Defaults(A4Width, A4Height);
      multiset(Document(c, listing, open))[ShowPage] == 1 &&
      multiset(Document(c, listing, open))[SetDash(DashOn, DashOff)] == 2
  {
    var c := Defaults(A4Width, A4Height);
    PageBreaks(c, listing, open);
    GridsDrawn(c, listing, open);
  }
}
