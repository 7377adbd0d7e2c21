/** How the instruction stream of `create_pdf_with_dotted_grid` splits into
    pages: one page break per full page, one grid per page that holds images,
    every page break right after a whole grid, and every grid right after an
    image cell, so that no page is gridded twice.

    The structure is proved here for `Paginate`, which interleaves any cells
    with a grid and a page break after every `perPage`-th of them, whatever
    the cells and the grid are. */
module Pages {
  import opened Canvas
  import DivMod

  /** The first `n` cells, each full page closed by the grid and a page break. */
  function Paginate(cells: seq<seq<Instr>>, perPage: int, grid: seq<Instr>, n: nat): seq<Instr>
    requires perPage > 0 && n <= |cells|
  {
    if n == 0 then []
    else
      Paginate(cells, perPage, grid, n - 1) + cells[n - 1] +
      if n % perPage == 0 then grid + [ShowPage] else []
  }

  /** Every cell holds only image and caption drawing. */
  ghost predicate DrawingCells(cells: seq<seq<Instr>>)
  {
    forall j, k :: 0 <= j < |cells| && 0 <= k < |cells[j]| ==> IsCellDrawing(cells[j][k])
  }

  /** The number of pages that the first `n` cells complete, counted the way
      the loop closes them: one at every multiple of `perPage`. */
  function CompletedPages(n: nat, perPage: int): (pages: nat)
    requires perPage > 0
  {
    if n == 0 then 0
    else CompletedPages(n - 1, perPage) + if n % perPage == 0 then 1 else 0
  }

  /** Closing a page at every multiple of `perPage` closes `n // perPage` pages. */
  lemma {:induction false} CompletedPagesQuotient(n: nat, perPage: int)
    requires perPage > 0
    ensures CompletedPages(n, perPage) == n / perPage
  {
    if n == 0 {
      assert 0 / perPage == 0;
    } else {
      CompletedPagesQuotient(n - 1, perPage);
      DivMod.Predecessor(n, perPage);
    }
  }

  /** One more cell keeps the count of an instruction it does not draw at one
      per completed page. */
  lemma PaginateCountStep(cells: seq<seq<Instr>>, perPage: int, grid: seq<Instr>, n: nat, x: Instr)
    requires perPage > 0 && 0 < n <= |cells| && x !in cells[n - 1]
    requires multiset(grid + [ShowPage])[x] == 1
    requires multiset(Paginate(cells, perPage, grid, n - 1))[x] == CompletedPages(n - 1, perPage)
    ensures multiset(Paginate(cells, perPage, grid, n))[x] == CompletedPages(n, perPage)
  {
    var tail := if n % perPage == 0 then grid + [ShowPage] else [];
    assert multiset(Paginate(cells, perPage, grid, n)) ==
      multiset(Paginate(cells, perPage, grid, n - 1)) + multiset(cells[n - 1]) + multiset(tail);
  }

  /** An instruction that no cell draws and that appears once in the grid and
      page break appears once per completed page. */
  lemma {:induction false} PaginateCounts(cells: seq<seq<Instr>>, perPage: int, grid: seq<Instr>, n: nat, x: Instr)
    requires perPage > 0 && n <= |cells|
    requires forall j :: 0 <= j < |cells| ==> x !in cells[j]
    requires multiset(grid + [ShowPage])[x] == 1
    ensures multiset(Paginate(cells, perPage, grid, n))[x] == CompletedPages(n, perPage)
  {
    if n > 0 {
      PaginateCounts(cells, perPage, grid, n - 1, x);
      PaginateCountStep(cells, perPage, grid, n, x);
    }
  }

  /** An instruction drawn by no cell, no grid and no page break never appears. */
  lemma {:induction false} PaginateAvoids(cells: seq<seq<Instr>>, perPage: int, grid: seq<Instr>, n: nat, x: Instr)
    requires perPage > 0 && n <= |cells|
    requires forall j :: 0 <= j < |cells| ==> x !in cells[j]
    requires x !in grid && x != ShowPage
    ensures x !in Paginate(cells, perPage, grid, n)
  {
    if n > 0 {
      PaginateAvoids(cells, perPage, grid, n - 1, x);
    }
  }

  /** Every page break in `s` comes right after a whole `grid`. */
  ghost predicate BreaksAfterGrid(s: seq<Instr>, grid: seq<Instr>)
  {
    forall k :: 0 <= k < |s| && s[k] == ShowPage ==> |grid| <= k && s[k - |grid|..k] == grid
  }

  /** Every `first` in `s` comes right after an image or caption drawing. */
  ghost predicate AfterCellDrawing(s: seq<Instr>, first: Instr)
  {
    forall k :: 0 <= k < |s| && s[k] == first ==> 0 < k && IsCellDrawing(s[k - 1])
  }

  /** The instruction just before every page break is the end of a whole grid. */
  lemma {:induction false} PageBreakAfterGrid(cells: seq<seq<Instr>>, perPage: int, grid: seq<Instr>, n: nat)
    requires perPage > 0 && n <= |cells| && DrawingCells(cells) && ShowPage !in grid
    ensures BreaksAfterGrid(Paginate(cells, perPage, grid, n), grid)
  {
    if n > 0 {
      PageBreakAfterGrid(cells, perPage, grid, n - 1);
      var before := Paginate(cells, perPage, grid, n - 1);
      var cell := cells[n - 1];
      var tail := if n % perPage == 0 then grid + [ShowPage] else [];
      var s := Paginate(cells, perPage, grid, n);
      assert s == before + cell + tail;
      forall k | 0 <= k < |s|
        ensures s[k] == ShowPage ==> |grid| <= k && s[k - |grid|..k] == grid
      {
        if k < |before| {
          assert s[k] == before[k];
          if s[k] == ShowPage {
            assert s[k - |grid|..k] == before[k - |grid|..k];
          }
        } else if k < |before| + |cell| {
          assert s[k] == cell[k - |before|];
          assert IsCellDrawing(s[k]);
        } else {
          assert s[k] == tail[k - |before| - |cell|];
          if k == |s| - 1 {
            assert s[k - |grid|..k] == grid;
          } else {
            assert s[k] in grid;
          }
        }
      }
    }
  }

  /** The last instruction so far is a page break exactly after a full page,
      and an image or caption drawing otherwise. */
  lemma PaginateEnds(cells: seq<seq<Instr>>, perPage: int, grid: seq<Instr>, n: nat)
    requires perPage > 0 && 0 < n <= |cells| && DrawingCells(cells) && cells[n - 1] != []
    ensures var s := Paginate(cells, perPage, grid, n);
      0 < |s| &&
      (n % perPage == 0 ==> s[|s| - 1] == ShowPage) &&
      (n % perPage != 0 ==> IsCellDrawing(s[|s| - 1]))
  {
    var cell := cells[n - 1];
    var s := Paginate(cells, perPage, grid, n);
    if n % perPage != 0 {
      assert s == Paginate(cells, perPage, grid, n - 1) + cell;
      assert s[|s| - 1] == cell[|cell| - 1];
    }
  }

  /** The first instruction of a grid is only ever drawn right after an image
      cell, so a grid never follows a page break or another grid. */
  lemma {:induction false} GridAfterCell(cells: seq<seq<Instr>>, perPage: int, grid: seq<Instr>, n: nat)
    requires perPage > 0 && n <= |cells| && DrawingCells(cells)
    requires forall j :: 0 <= j < |cells| ==> cells[j] != []
    requires grid != [] && !IsCellDrawing(grid[0]) && grid[0] != ShowPage && grid[0] !in grid[1..]
    ensures AfterCellDrawing(Paginate(cells, perPage, grid, n), grid[0])
  {
    if n > 0 {
      GridAfterCell(cells, perPage, grid, n - 1);
      var before := Paginate(cells, perPage, grid, n - 1);
      var cell := cells[n - 1];
      var tail := if n % perPage == 0 then grid + [ShowPage] else [];
      var s := Paginate(cells, perPage, grid, n);
      assert s == before + cell + tail;
      forall k | 0 <= k < |s|
        ensures s[k] == grid[0] ==> 0 < k && IsCellDrawing(s[k - 1])
      {
        if k < |before| {
          assert s[k] == before[k];
          if 0 < k {
            assert s[k - 1] == before[k - 1];
          }
        } else if k < |before| + |cell| {
          assert s[k] == cell[k - |before|];
          assert IsCellDrawing(s[k]);
        } else {
          // within this iteration only the grid's own first instruction can match
          var t := k - |before| - |cell|;
          if t == 0 {
            assert s[k - 1] == cell[|cell| - 1];
          } else if t < |grid| {
            assert s[k] == grid[1..][t - 1];
          } else {
            assert s[k] == ShowPage;
          }
        }
      }
    }
  }

  /** The whole document of `n` cells: nothing for none; otherwise the
      paginated cells, a grid for a partly filled last page, and the save. */
  function Finish(cells: seq<seq<Instr>>, perPage: int, grid: seq<Instr>, n: nat): seq<Instr>
    requires perPage > 0 && n <= |cells|
  {
    if n == 0 then []
    else Paginate(cells, perPage, grid, n) + (if n % perPage != 0 then grid else []) + [Save]
  }

  /** No cell draws an instruction that is not an image or caption drawing. */
  lemma CellsAvoid(cells: seq<seq<Instr>>, x: Instr)
    requires DrawingCells(cells) && !IsCellDrawing(x)
    ensures forall j :: 0 <= j < |cells| ==> x !in cells[j]
  {
  }

  /** A finished document holds one page break per full page. */
  lemma FinishPageBreaks(cells: seq<seq<Instr>>, perPage: int, grid: seq<Instr>, n: nat)
    requires perPage > 0 && n <= |cells| && DrawingCells(cells) && ShowPage !in grid
    ensures multiset(Finish(cells, perPage, grid, n))[ShowPage] == n / perPage
  {
    CompletedPagesQuotient(n, perPage);
    if n > 0 {
      var body := Paginate(cells, perPage, grid, n);
      var last := if n % perPage != 0 then grid else [];
      assert multiset(Finish(cells, perPage, grid, n)) == multiset(body) + multiset(last) + multiset{Save};
      assert multiset(grid + [ShowPage])[ShowPage] == 1;
      CellsAvoid(cells, ShowPage);
      PaginateCounts(cells, perPage, grid, n, ShowPage);
    }
  }

  /** A finished document holds one grid per started page: one per full page
      and one more for a partly filled last page. */
  lemma FinishGrids(cells: seq<seq<Instr>>, perPage: int, grid: seq<Instr>, n: nat)
    requires perPage > 0 && n <= |cells| && DrawingCells(cells)
    requires grid != [] && !IsCellDrawing(grid[0]) && grid[0] != ShowPage && grid[0] != Save
    requires multiset(grid)[grid[0]] == 1
    ensures multiset(Finish(cells, perPage, grid, n))[grid[0]] ==
      n / perPage + if n % perPage != 0 then 1 else 0
  {
    CompletedPagesQuotient(n, perPage);
    if n > 0 {
      var body := Paginate(cells, perPage, grid, n);
      var last := if n % perPage != 0 then grid else [];
      assert multiset(Finish(cells, perPage, grid, n)) == multiset(body) + multiset(last) + multiset{Save};
      assert multiset(grid + [ShowPage]) == multiset(grid) + multiset{ShowPage};
      CellsAvoid(cells, grid[0]);
      PaginateCounts(cells, perPage, grid, n, grid[0]);
    }
  }

  /** A finished document holds the save once, unless it is empty. */
  lemma FinishSaves(cells: seq<seq<Instr>>, perPage: int, grid: seq<Instr>, n: nat)
    requires perPage > 0 && n <= |cells| && DrawingCells(cells) && Save !in grid
    ensures multiset(Finish(cells, perPage, grid, n))[Save] == if n == 0 then 0 else 1
  {
    if n > 0 {
      var body := Paginate(cells, perPage, grid, n);
      var last := if n % perPage != 0 then grid else [];
      assert multiset(Finish(cells, perPage, grid, n)) == multiset(body) + multiset(last) + multiset{Save};
      CellsAvoid(cells, Save);
      PaginateAvoids(cells, perPage, grid, n, Save);
    }
  }

  /** A finished document is empty exactly when there are no cells, and
      otherwise ends with the save. */
  lemma FinishEnds(cells: seq<seq<Instr>>, perPage: int, grid: seq<Instr>, n: nat)
    requires perPage > 0 && n <= |cells|
    ensures Finish(cells, perPage, grid, n) == [] <==> n == 0
    ensures n > 0 ==> Finish(cells, perPage, grid, n)[|Finish(cells, perPage, grid, n)| - 1] == Save
  {
  }

  /** In a finished document every page break still follows a whole grid. */
  lemma FinishBreaksAfterGrid(cells: seq<seq<Instr>>, perPage: int, grid: seq<Instr>, n: nat)
    requires perPage > 0 && n <= |cells| && DrawingCells(cells)
    requires ShowPage !in grid
    ensures BreaksAfterGrid(Finish(cells, perPage, grid, n), grid)
  {
    if n > 0 {
      var body := Paginate(cells, perPage, grid, n);
      var last := if n % perPage != 0 then grid else [];
      var s := Finish(cells, perPage, grid, n);
      assert s == body + last + [Save];
      PageBreakAfterGrid(cells, perPage, grid, n);
      forall k | 0 <= k < |s|
        ensures s[k] == ShowPage ==> |grid| <= k && s[k - |grid|..k] == grid
      {
        if k < |body| {
          assert s[k] == body[k];
          if s[k] == ShowPage {
            assert s[k - |grid|..k] == body[k - |grid|..k];
          }
        } else if k < |body| + |last| {
          assert s[k] == grid[k - |body|];
        } else {
          assert s[k] == Save;
        }
      }
    }
  }

  /** In a finished document every grid, the one after the loop included,
      follows an image cell. */
  lemma FinishGridAfterCell(cells: seq<seq<Instr>>, perPage: int, grid: seq<Instr>, n: nat)
    requires perPage > 0 && n <= |cells| && DrawingCells(cells)
    requires forall j :: 0 <= j < |cells| ==> cells[j] != []
    requires grid != [] && !IsCellDrawing(grid[0]) && grid[0] != ShowPage && grid[0] != Save
    requires grid[0] !in grid[1..]
    ensures AfterCellDrawing(Finish(cells, perPage, grid, n), grid[0])
  {
    if n > 0 {
      var body := Paginate(cells, perPage, grid, n);
      var last := if n % perPage != 0 then grid else [];
      var s := Finish(cells, perPage, grid, n);
      assert s == body + last + [Save];
      GridAfterCell(cells, perPage, grid, n);
      PaginateEnds(cells, perPage, grid, n);
      forall k | 0 <= k < |s|
        ensures s[k] == grid[0] ==> 0 < k && IsCellDrawing(s[k - 1])
      {
        if k < |body| {
          assert s[k] == body[k];
          if 0 < k {
            assert s[k - 1] == body[k - 1];
          }
        } else if k == |body| && last != [] {
          assert s[k - 1] == body[|body| - 1];
        } else if k < |body| + |last| {
          assert s[k] == grid[1..][k - |body| - 1];
        } else {
          assert s[k] == Save;
        }
      }
    }
  }
}
