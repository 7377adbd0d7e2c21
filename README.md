# image_grid_pdf: the grid layout of `create_pdf_with_dotted_grid`

This project models the core of `image_grid_pdf/prepare_pdf.py`:

- `create_pdf_with_dotted_grid` picks the PNG files out of a directory listing.
- It shrinks each image into a padded grid cell and draws it centred there, optionally with its file stem as a caption.
- It walks a cursor cell by cell, row by row and page by page.
- It closes every full page with a dotted grid and a page break.
- After the loop it adds a grid for a partly filled last page, then saves.
- `draw_dotted_grid` draws that grid: `images_per_row - 1` dotted vertical lines and `images_per_column + 1` dotted horizontal lines between the margins, bracketed by `setDash(1, 3)` and `setDash()`.

The reportlab canvas is modelled by the list of calls made on it (`Canvas.Instr`): `drawImage`, `setFont`, `drawCentredString`, `setDash(1, 3)`, `setDash()`, `line`, `showPage` and `save`. The methods return that list, and a run is compared against `GridPdf.Document`, a function of the configuration, the listing and the image sizes.

Modules:

- `Geometry` holds the configuration, the cell size, the thumbnail rule and the cursor.
- `Listing` selects the files and computes captions.
- `DottedGrid` covers `draw_dotted_grid`.
- `Pages` covers how cells, grids and page breaks interleave.
- `GridPdf` holds the loop itself.
- `PageStructure` holds whole-run properties.
- `DivMod` holds the integer division facts they rely on.

The number of page breaks is the one the code makes. The code calls `showPage` whenever `(index + 1) % (images_per_row * images_per_column) == 0` (line 94), with no test for the last image. So a run over `N` images with `P` per page has `N // P` page breaks. When the last page is exactly full, it too ends in a page break, and no grid follows the loop (line 100). A reading of the loop that skipped the break after the last image would count `ceil(N / P) - 1` instead; the model does not follow that reading. The grid count is one per page that holds images: `ceil(N / P)`.

## Model

| member | source | states |
|---|---|---|
| Geometry.Config.CellWidth | image_grid_pdf/prepare_pdf.py:30 | the cell width is positive, and `images_per_row` cells plus both margins fill the page width exactly |
| Geometry.Config.CellHeight | image_grid_pdf/prepare_pdf.py:31 | the cell height is positive, and `images_per_column` cells plus both margins fill the page height exactly |
| Geometry.Config.PerPage | image_grid_pdf/prepare_pdf.py:94 | a page holds at least as many images as a row and as a column |
| Geometry.Config.ThumbnailBox | image_grid_pdf/prepare_pdf.py:58-62 | definition, no contract of its own: the cell less `image_padding` in each dimension; `PlacedRect` and `ThumbnailInsideCell` state what fitting into it means |
| Geometry.Config.YStart | image_grid_pdf/prepare_pdf.py:51 | `y_start`, the bottom edge of the top row, lies inside the margins: at or above the bottom margin, below the top one |
| Geometry.Thumbnail | image_grid_pdf/prepare_pdf.py:66 | definition, no contract of its own: `img.thumbnail(box)` on exact sizes; specified by `ThumbnailShrinks`, `ThumbnailKeepsAspect` and `ThumbnailFitsBox` |
| Geometry.Defaults | image_grid_pdf/prepare_pdf.py:24-27 | the keyword defaults (4 by 5, padding 10, captions on) with the fixed 20-point margin are a valid layout with 20 images per page |
| Geometry.A4DefaultsLeaveRoom | image_grid_pdf/prepare_pdf.py:24-62 | on A4 the defaults leave a positive box for every thumbnail |
| Geometry.ThumbnailShrinks | image_grid_pdf/prepare_pdf.py:66 | `thumbnail` never enlarges an image, and leaves an image that already fits unchanged |
| Geometry.ThumbnailKeepsAspect | image_grid_pdf/prepare_pdf.py:66 | `thumbnail` keeps the width-to-height ratio |
| Geometry.ThumbnailFitsBox | image_grid_pdf/prepare_pdf.py:66 | into a positive box, the thumbnail fits and has positive size |
| Geometry.Column | image_grid_pdf/prepare_pdf.py:86-91 | the column of image `index` is below `images_per_row` |
| Geometry.Row | image_grid_pdf/prepare_pdf.py:88-97 | the row of image `index` within its page is below `images_per_column` |
| Geometry.StepsProduct | image_grid_pdf/prepare_pdf.py:86-91 | `n` repeated additions of a cell size equal `n` times it |
| Geometry.CellX | image_grid_pdf/prepare_pdf.py:86-91 | definition, no contract of its own: the cursor's x for image `index`; specified by `CellClosedForm`, `CursorStepX`, `CellWithinMargins` and `DistinctCellsOnPage` |
| Geometry.CellY | image_grid_pdf/prepare_pdf.py:88-97 | definition, no contract of its own: the cursor's y for image `index`; specified by `CellClosedForm`, `CursorStepY`, `CellWithinMargins` and `DistinctCellsOnPage` |
| Geometry.CellClosedForm | image_grid_pdf/prepare_pdf.py:51-97 | cell corner `x = margin + (index % R) * cell_width`, `y = y_start - ((index // R) % C) * cell_height` |
| Geometry.CursorStepX | image_grid_pdf/prepare_pdf.py:86-97 | `x += cell_width` and the row reset move x to the next cell's left edge; every page end is a row end |
| Geometry.CursorStepY | image_grid_pdf/prepare_pdf.py:88-97 | the row and page resets move y to the next cell's bottom edge |
| Geometry.RowStep | image_grid_pdf/prepare_pdf.py:88-97 | the row index resets to 0 at a page end, goes up by one at a row end, and is otherwise unchanged |
| Geometry.Advance | image_grid_pdf/prepare_pdf.py:85-97 | definition, no contract of its own: the cursor update of one loop turn; specified by `AdvanceIsStep` |
| Geometry.AdvanceIsStep | image_grid_pdf/prepare_pdf.py:85-97 | cursor invariant: the update after image `index` takes the corner of its cell to the corner of the cell of `index + 1` |
| Geometry.CellWithinMargins | image_grid_pdf/prepare_pdf.py:86-97 | every cell lies inside the margins |
| Geometry.DistinctCellsOnPage | image_grid_pdf/prepare_pdf.py:86-97 | two different images on the same page never share a cell |
| Geometry.SlotsDiffer | image_grid_pdf/prepare_pdf.py:86-97 | two images on the same page differ in column or row |
| Geometry.DistinctSlots | image_grid_pdf/prepare_pdf.py:86-97 | different column or row means a different cell corner |
| Geometry.PlacedRect | image_grid_pdf/prepare_pdf.py:72-76 | the drawn image has the thumbnail's size, equal gaps on both sides of the cell in each direction, and at least `image_padding / 2` clearance when it fits the box |
| Geometry.ThumbnailInsideCell | image_grid_pdf/prepare_pdf.py:56-76 | with non-negative padding and a positive box, every drawn image lies inside its cell and so inside the margins |
| Geometry.CaptionAnchor | image_grid_pdf/prepare_pdf.py:80-81 | the caption is centred on the cell and the image, 15 points below the image's bottom edge |
| DottedGrid.DrawDottedGrid | image_grid_pdf/prepare_pdf.py:108-123 | the two loops emit `setDash(1, 3)`, the vertical lines for columns 1..R-1, the horizontal lines for rows 0..C, then `setDash()` |
| DottedGrid.Grid | image_grid_pdf/prepare_pdf.py:108-123 | definition, no contract of its own: dash on, the lines, dash off; specified by `GridShape` |
| DottedGrid.VerticalLines | image_grid_pdf/prepare_pdf.py:113-115 | definition, no contract of its own: the interior column boundaries; specified by `VerticalLinesInside` and `GridOnCellEdges` |
| DottedGrid.VerticalLinesInside | image_grid_pdf/prepare_pdf.py:113-115 | R-1 vertical lines, each spanning the drawable height strictly between the side margins, ordered left to right |
| DottedGrid.VerticalLineWithin | image_grid_pdf/prepare_pdf.py:114 | an interior column boundary lies strictly between the side margins |
| DottedGrid.HorizontalLines | image_grid_pdf/prepare_pdf.py:117-120 | definition, no contract of its own: the row boundaries; specified by `HorizontalLinesInside` and `GridOnCellEdges` |
| DottedGrid.HorizontalLinesInside | image_grid_pdf/prepare_pdf.py:117-120 | C+1 horizontal lines spanning the drawable width, from the top margin down to the bottom margin, ordered top to bottom |
| DottedGrid.HorizontalLineWithin | image_grid_pdf/prepare_pdf.py:119 | every row boundary lies between the top and bottom margins |
| DottedGrid.GridOnCellEdges | image_grid_pdf/prepare_pdf.py:113-120 | the grid lines run along the edges of the cells the loop fills |
| DottedGrid.GridShape | image_grid_pdf/prepare_pdf.py:108-123 | one grid is R+C+2 calls: one opening dash, lines only, one reset; no page break, save or image drawing inside |
| Listing.PngFiles | image_grid_pdf/prepare_pdf.py:35-39 | kept names all end in `.png` (case-sensitive), and a name is kept iff it is listed and ends in `.png` |
| Listing.IsPng | image_grid_pdf/prepare_pdf.py:38 | definition, no contract of its own: the case-sensitive `.png` suffix test; specified through `PngFiles` and `SuffixExamples` |
| Listing.PngFilesAppend | image_grid_pdf/prepare_pdf.py:35-39 | the filter keeps the listing's order: filtering a concatenation concatenates the filtered parts |
| Listing.PngFilesKeepsPng | image_grid_pdf/prepare_pdf.py:35-39 | a listing of PNG names is kept whole |
| Listing.PngFilesIdempotent | image_grid_pdf/prepare_pdf.py:35-39 | filtering twice is filtering once |
| Listing.Stem | image_grid_pdf/prepare_pdf.py:69 | the caption is the name with `.png` removed, except the name `.png` itself |
| Listing.SuffixExamples | image_grid_pdf/prepare_pdf.py:38 | `A.PNG` is not selected; the stem of `img10.png` is `img10` |
| GridPdf.CellCommands | image_grid_pdf/prepare_pdf.py:56-83 | a cell draws the image and then, iff captions are on, a font change and the caption (its stem) |
| GridPdf.CellCommandsInCell | image_grid_pdf/prepare_pdf.py:72-83 | at the cursor's cell the image is drawn at `PlacedRect` and the caption at `CaptionAnchor` in Helvetica 8 |
| GridPdf.Cells | image_grid_pdf/prepare_pdf.py:54-83 | one nonempty cell of image and caption drawing per PNG file |
| GridPdf.Document | image_grid_pdf/prepare_pdf.py:24-105 | definition, no contract of its own: the whole instruction stream of a run; `CreatePdfWithDottedGrid` is proved to emit it, and `PageStructure` states its page breaks, grids, save and ordering |
| GridPdf.DrawImageCell | image_grid_pdf/prepare_pdf.py:56-83 | the loop body's drawing is `CellCommands` at the cursor |
| GridPdf.MoveCursor | image_grid_pdf/prepare_pdf.py:85-97 | the loop body's cursor update is `Advance` |
| GridPdf.CreatePdfWithDottedGrid | image_grid_pdf/prepare_pdf.py:24-105 | the run emits exactly `Document`: cells at the cursor, a grid and page break after each full page, a grid for a partial last page, and the save; nothing for an empty selection |
| Pages.CompletedPagesQuotient | image_grid_pdf/prepare_pdf.py:94 | closing a page at every multiple of `P` closes `n // P` pages |
| Pages.Paginate | image_grid_pdf/prepare_pdf.py:54-97 | definition, no contract of its own: the output of the first `n` loop turns; specified by `PaginateCounts`, `PaginateAvoids`, `PageBreakAfterGrid`, `PaginateEnds` and `GridAfterCell` |
| Pages.PaginateCountStep | image_grid_pdf/prepare_pdf.py:94-97 | one more loop turn keeps the count of a grid or page-break call equal to the number of completed pages |
| Pages.PaginateCounts | image_grid_pdf/prepare_pdf.py:94-97 | after `n` turns, a call found once in grid plus page break appears once per completed page |
| Pages.PaginateAvoids | image_grid_pdf/prepare_pdf.py:54-97 | the loop emits nothing besides cells, grids and page breaks |
| Pages.PageBreakAfterGrid | image_grid_pdf/prepare_pdf.py:94-96 | in the loop's output every page break comes right after a whole grid |
| Pages.PaginateEnds | image_grid_pdf/prepare_pdf.py:94-100 | the loop's output ends in a page break iff the last turn filled a page, and otherwise in cell drawing |
| Pages.GridAfterCell | image_grid_pdf/prepare_pdf.py:94-96 | in the loop's output every grid starts right after a cell's drawing |
| Pages.Finish | image_grid_pdf/prepare_pdf.py:42-104 | definition, no contract of its own: the loop's output with the final grid and the save, or nothing without images; specified by the `Finish...` lemmas |
| Pages.FinishPageBreaks | image_grid_pdf/prepare_pdf.py:94-104 | a finished document has `n // P` page breaks |
| Pages.FinishGrids | image_grid_pdf/prepare_pdf.py:94-101 | a finished document has `n // P` grids, plus one if `n % P != 0` |
| Pages.FinishSaves | image_grid_pdf/prepare_pdf.py:104 | a finished document saves once, and never when empty |
| Pages.FinishEnds | image_grid_pdf/prepare_pdf.py:42-104 | a finished document is empty iff there are no images, and otherwise ends with the save |
| Pages.FinishBreaksAfterGrid | image_grid_pdf/prepare_pdf.py:94-104 | in the whole document every page break comes right after a whole grid |
| Pages.FinishGridAfterCell | image_grid_pdf/prepare_pdf.py:94-101 | every grid, including the one after the loop, starts right after image drawing, so no page is gridded twice |
| PageStructure.PageBreaks | image_grid_pdf/prepare_pdf.py:94-96 | a run over N PNG files makes `N // (R*C)` page breaks |
| PageStructure.GridsDrawn | image_grid_pdf/prepare_pdf.py:94-101 | a run draws `N // (R*C)` grids, plus one for a partly filled last page: `ceil(N / (R*C))` |
| PageStructure.SaveOnlyWithImages | image_grid_pdf/prepare_pdf.py:42-104 | no PNG name means no call at all; otherwise exactly one save, and it is last |
| PageStructure.PagesFramed | image_grid_pdf/prepare_pdf.py:94-101 | every page break follows a whole grid, and every grid follows image drawing |
| PageStructure.TwentyThreeImages | image_grid_pdf/prepare_pdf.py:24-101 | with the defaults on A4, 23 images give one page break and two grids |
| DivMod.CeilDiv | image_grid_pdf/prepare_pdf.py:99-101 | `n // d` plus one for a nonzero remainder is `ceil(n / d)` |

## Left out

- `image_grid_pdf/download.py` is not part of this model. It is a network helper outside the layout.
- Command-line handling and the status prints (lines 11-21, 43, 45, 105, 127) are not modelled. The early return for an empty selection is modelled as an empty instruction list.
- `os.listdir` is the `listing` parameter.
- `os.path.join` is left out. Paths are the listed names, and `target_dir` plays no part in the layout.
- `natsorted` is left out. The listing is taken to be already in natural order, which the filter preserves (`PngFilesAppend`).
- `Image.open` is the `open` parameter, which gives the decoded size of each file. Image decoding and the files themselves are outside the model. In the source a file that cannot be decoded raises at line 56 and ends the run without `save`; the model's `open` is total, so that failure is not modelled.
- Geometry.Thumbnail: PIL's whole-pixel rounding, its flooring of the box, its 1-pixel minimum, and its error on a non-positive box are not modelled. Sizes are exact reals, and the shrink rule keeps the aspect ratio exactly.
- Floating-point arithmetic is modelled as exact real arithmetic. Rounding of `cell_width`, `cell_height` and the repeated `x += cell_width` is not captured.
- Geometry.Config: the page size and the margin are fields rather than the constants A4 and 20, and `Defaults` gives the source's values. `Valid` requires positive `images_per_row` and `images_per_column`, and margins that leave room on the page. With zero rows or columns the source divides by zero.
- Geometry.ThumbnailInsideCell assumes non-negative padding and a positive thumbnail box. Negative padding or a padding at least the cell size lets the source draw outside the cell or fail inside PIL.
- The canvas's own state (its file, its current page buffer, PDF serialisation in `save`) is not modelled. The model records which calls are made, in order.
- `draw_dotted_grid` receives `x_start`, `y_start` and the rest as parameters; the model reads them from `Config`. The source never uses `y_start` there.
- Listing.Stem is stated only for names ending in `.png`, the only names the loop captions.
