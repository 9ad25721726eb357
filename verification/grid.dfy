/**
 Grid building, the direct path of `concat_pdf_pages`.

 The input pages are cut into blocks of `col * row`; every block is cut into
 row strips of at most `col` pages, each strip is joined side by side and the
 strips are stacked. `Grid` and `Strips` state that block by block;
 `DirectGrid` and `JoinRows` are the source's index loops and are proved to
 produce them. The remaining lemmas relate the grid to the runs of `Chunks`:
 how many output pages there are, which cell each input lands in, and that
 the cells hold every input once, in order, with no filler.
 */
module GridLayout {
  import opened Pages
  import opened Chunking
  import opened Compositor

  /** Pages per output page: `col * row`. */
  function Capacity(col: nat, row: nat): (p: nat)
    requires col >= 1 && row >= 1
    ensures p >= col && p >= row
  {
    col * row
  }

  /** The row strips of one block, each already joined side by side. */
  function Strips(block: seq<Page>, col: nat): (rs: seq<Page>)
    requires col >= 1
    ensures |block| > 0 ==> |rs| > 0
    decreases |block|
  {
    if |block| == 0 then []
    else
      var m := Min(col, |block|);
      [Join(block[..m], Horizontal)] + Strips(block[m..], col)
  }

  /** There is one strip per row run of the block, and strip `s` is run `s` joined side by side. */
  lemma {:induction false} StripsAt(block: seq<Page>, col: nat, s: nat)
    requires col >= 1 && s < |Chunks(block, col)|
    ensures |Strips(block, col)| == |Chunks(block, col)|
    ensures Strips(block, col)[s] == Join(Chunks(block, col)[s], Horizontal)
    decreases |block|
  {
    var m := Min(col, |block|);
    ChunksCons(block, col);
    if |block[m..]| > 0 {
      StripsAt(block[m..], col, if s > 0 then s - 1 else 0);
    }
  }

  /** One output page: the strips of a non-empty block, stacked. */
  function GridPage(block: seq<Page>, col: nat): Page
    requires |block| > 0 && col >= 1
  {
    Join(Strips(block, col), Vertical)
  }

  /** A full block makes a full output page: `row` strips of `col` pages each. */
  lemma {:induction false} FullPage(block: seq<Page>, col: nat, row: nat)
    requires col >= 1 && row >= 1 && |block| == Capacity(col, row)
    ensures |Members(GridPage(block, col))| == row
    ensures forall s | 0 <= s < row :: |Members(Members(GridPage(block, col))[s])| == col
  {
    FullRunCount(block, col, row);
    var strips := Strips(block, col);
    StripsAt(block, col, 0);
    JoinMembers(strips, Vertical);
    forall s | 0 <= s < row
      ensures |Members(strips[s])| == col
    {
      StripsAt(block, col, s);
      FullRun(block, col, row, s);
      JoinMembers(Chunks(block, col)[s], Horizontal);
    }
  }

  /** A full block cuts into exactly `row` runs of `col`. */
  lemma {:induction false} FullRunCount(block: seq<Page>, col: nat, row: nat)
    requires col >= 1 && row >= 1 && |block| == Capacity(col, row)
    ensures |Chunks(block, col)| == row
  {
    ChunksCount(block, col);
    MulStep(row - 1, col);
    DivModUnique(col * row + col - 1, col, row, col - 1);
  }

  /** Every run of a full block has exactly `col` pages. */
  lemma {:induction false} FullRun(block: seq<Page>, col: nat, row: nat, s: nat)
    requires col >= 1 && row >= 1 && |block| == Capacity(col, row) && s < row
    ensures s < |Chunks(block, col)| && |Chunks(block, col)[s]| == col
  {
    FullRunCount(block, col, row);
    ChunkAt(block, col, s);
    MulStep(s, col);
    MulMonotone(s + 1, row, col);
  }

  /** The output pages for `pages`, one per block of `col * row`. */
  function Grid(pages: seq<Page>, col: nat, row: nat): (g: seq<Page>)
    requires col >= 1 && row >= 1
    decreases |pages|
  {
    if |pages| == 0 then []
    else
      var m := Min(Capacity(col, row), |pages|);
      [GridPage(pages[..m], col)] + Grid(pages[m..], col, row)
  }

  /** There is one output page per block of `col * row`. */
  lemma {:induction false} GridLength(pages: seq<Page>, col: nat, row: nat)
    requires col >= 1 && row >= 1
    ensures |Grid(pages, col, row)| == |Chunks(pages, Capacity(col, row))|
    decreases |pages|
  {
    if |pages| > 0 {
      var p := Capacity(col, row);
      ChunksCons(pages, p);
      GridLength(pages[Min(p, |pages|)..], col, row);
    }
  }

  /** Output page `b` is block `b` gridded. */
  lemma {:induction false} GridAt(pages: seq<Page>, col: nat, row: nat, b: nat)
    requires col >= 1 && row >= 1 && b < |Chunks(pages, Capacity(col, row))|
    ensures b < |Grid(pages, col, row)|
    ensures Grid(pages, col, row)[b] == GridPage(Chunks(pages, Capacity(col, row))[b], col)
    decreases |pages|
  {
    var p := Capacity(col, row);
    var m := Min(p, |pages|);
    ChunksCons(pages, p);
    GridLength(pages, col, row);
    if b > 0 {
      GridAt(pages[m..], col, row, b - 1);
    }
  }

  /** The cells of an output page in row-major order: the members of each of its strips. */
  function Cells(g: Page): seq<Page>
  {
    RowCells(Members(g))
  }

  /** The members of each strip, strip after strip. */
  function RowCells(strips: seq<Page>): seq<Page>
  {
    if |strips| == 0 then [] else Members(strips[0]) + RowCells(strips[1..])
  }

  lemma {:induction false} RowCellsFlatten(strips: seq<Page>, runs: seq<seq<Page>>)
    requires |strips| == |runs|
    requires forall s | 0 <= s < |strips| :: Members(strips[s]) == runs[s]
    ensures RowCells(strips) == Flatten(runs)
    decreases |strips|
  {
    if |strips| > 0 {
      assert forall s | 0 <= s < |strips| - 1 :: Members(strips[1..][s]) == runs[1..][s] by {
        forall s | 0 <= s < |strips| - 1
          ensures Members(strips[1..][s]) == runs[1..][s]
        {
          assert strips[1..][s] == strips[s + 1];
        }
      }
      RowCellsFlatten(strips[1..], runs[1..]);
    }
  }

  /** The grid of the input from block start `i` on: the block at `i`, then the rest. */
  lemma {:induction false} GridStep(pages: seq<Page>, col: nat, row: nat, i: nat, end: nat, done: seq<Page>)
    requires col >= 1 && row >= 1 && i < |pages| && end == Min(i + Capacity(col, row), |pages|)
    requires done + Grid(pages[i..], col, row) == Grid(pages, col, row)
    ensures (done + [GridPage(pages[i .. end], col)]) + Grid(pages[end..], col, row) == Grid(pages, col, row)
  {
    var p := Capacity(col, row);
    assert pages[i..][..Min(p, |pages| - i)] == pages[i .. end];
    assert pages[i..][Min(p, |pages| - i)..] == pages[end..];
    AppendStep(done, GridPage(pages[i .. end], col), Grid(pages[end..], col, row),
               Grid(pages[i..], col, row), Grid(pages, col, row));
  }

  /** The strips of a block from row start `j` on: the strip at `j`, then the rest. */
  lemma {:induction false} StripsStep(block: seq<Page>, col: nat, j: nat, end: nat, done: seq<Page>)
    requires col >= 1 && j < |block| && end == Min(j + col, |block|)
    requires done + Strips(block[j..], col) == Strips(block, col)
    ensures (done + [Join(block[j .. end], Horizontal)]) + Strips(block[end..], col) == Strips(block, col)
  {
    assert block[j..][..Min(col, |block| - j)] == block[j .. end];
    assert block[j..][Min(col, |block| - j)..] == block[end..];
    AppendStep(done, Join(block[j .. end], Horizontal), Strips(block[end..], col),
               Strips(block[j..], col), Strips(block, col));
  }

  /**
   The source's direct path: for each block start `i` (a step of `col * row`)
   take the block, join its rows side by side and stack the joined rows into
   one output page.
   */
  method DirectGrid(pages: seq<Page>, col: nat, row: nat) returns (output: seq<Page>)
    requires col >= 1 && row >= 1
    ensures output == Grid(pages, col, row)
  {
    var perPage := Capacity(col, row);
    output := [];
    var i := 0;
    while i < |pages|
      invariant 0 <= i
      invariant output + Grid(pages[Min(i, |pages|)..], col, row) == Grid(pages, col, row)
      decreases |pages| - i
    {
      var end := Min(i + perPage, |pages|);
      var block := pages[i .. end];
      var pageRows := JoinRows(block, col);
      var composed := ConcatPdf(pageRows, Vertical);
      GridStep(pages, col, row, i, end, output);
      output := output + [composed.value];
      i := i + perPage;
      assert Min(i, |pages|) == end;
    }
    assert pages[|pages|..] == [];
  }

  /**
   The row loop of the direct path: from each `j` (a step of `col`) join the
   pages `j` up to `j + col` (or the end of the block) side by side.
   */
  method JoinRows(block: seq<Page>, col: nat) returns (pageRows: seq<Page>)
    requires col >= 1 && |block| > 0
    ensures pageRows == Strips(block, col)
  {
    pageRows := [];
    var j := 0;
    while j < |block|
      invariant 0 <= j
      invariant pageRows + Strips(block[Min(j, |block|)..], col) == Strips(block, col)
      decreases |block| - j
    {
      var end := Min(j + col, |block|);
      var strip := ConcatPdf(block[j .. end], Horizontal);
      StripsStep(block, col, j, end, pageRows);
      pageRows := pageRows + [strip.value];
      j := j + col;
      assert Min(j, |block|) == end;
    }
    assert block[|block|..] == [];
  }

  /** There are `ceil(n / (col * row))` output pages. */
  lemma {:induction false} GridCount(pages: seq<Page>, col: nat, row: nat)
    requires col >= 1 && row >= 1
    ensures |Grid(pages, col, row)| == (|pages| + Capacity(col, row) - 1) / Capacity(col, row)
  {
    GridLength(pages, col, row);
    ChunksCount(pages, Capacity(col, row));
  }

  /** Where an input lands: output page, row strip within that page, position within the strip. */
  datatype Cell = Cell(page: nat, strip: nat, pos: nat)

  /**
   The row-major cell of input `i` for a `col` x `row` grid, with `p = col * row`:
   page `i / p`, strip `(i % p) / col`, position `(i % p) % col`. It is the
   unique decomposition `i = page * p + strip * col + pos` with `strip < row`
   and `pos < col`.
   */
  function CellOf(i: nat, col: nat, row: nat): (c: Cell)
    requires col >= 1 && row >= 1
    ensures c.strip < row && c.pos < col
    ensures i == c.page * Capacity(col, row) + (c.strip * col + c.pos)
  {
    var p := Capacity(col, row);
    DivMod(i, p);
    var page: nat, r: nat := i / p, i % p;
    DivMod(r, col);
    var strip: nat, pos: nat := r / col, r % col;
    RowBound(strip, pos, col, row);
    Cell(page, strip, pos)
  }

  /** Row-major placement: input `i` is found at the cell `CellOf(i, col, row)` of the grid output. */
  lemma {:induction false} GridPlacement(pages: seq<Page>, col: nat, row: nat, i: nat)
    requires col >= 1 && row >= 1 && i < |pages|
    ensures var g, c := Grid(pages, col, row), CellOf(i, col, row);
      && c.page < |g|
      && c.strip < |Members(g[c.page])|
      && c.pos < |Members(Members(g[c.page])[c.strip])|
      && Members(Members(g[c.page])[c.strip])[c.pos] == pages[i]
  {
    var c := CellOf(i, col, row);
    GridCell(pages, col, row, c.page, c.strip, c.pos, i);
  }

  /** Cell `c` of strip `s` is block position `s * col + c`, which is below `col * row`. */
  lemma {:induction false} RowBound(s: nat, c: nat, col: nat, row: nat)
    requires col >= 1 && row >= 1 && c < col && s * col + c < Capacity(col, row)
    ensures s < row
  {
    if s >= row {
      MulMonotone(row, s, col);
      MulNonNegative(s, col);
    }
  }

  /** The cell at output page `b`, strip `s`, position `c` holds input `i = b * p + s * col + c`. */
  lemma {:induction false} GridCell(pages: seq<Page>, col: nat, row: nat, b: nat, s: nat, c: nat, i: nat)
    requires col >= 1 && row >= 1 && c < col && s < row
    requires i == b * Capacity(col, row) + (s * col + c) && i < |pages|
    ensures var g := Grid(pages, col, row);
      && b < |g|
      && s < |Members(g[b])|
      && c < |Members(Members(g[b])[s])|
      && Members(Members(g[b])[s])[c] == pages[i]
  {
    var p := Capacity(col, row);
    var k := s * col + c;
    assert 0 <= k < p by {
      MulNonNegative(s, col);
      MulStep(s, col);
      MulMonotone(s + 1, row, col);
    }
    ChunkElementAt(pages, p, b, k);
    var block := Chunks(pages, p)[b];
    BlockCell(block, col, s, c, k);
    GridAt(pages, col, row, b);
  }

  /** Within one output page, block position `k = s * col + c` is strip `s`, position `c`. */
  lemma {:induction false} BlockCell(block: seq<Page>, col: nat, s: nat, c: nat, k: nat)
    requires col >= 1 && c < col && k == s * col + c && k < |block|
    ensures var strips := Members(GridPage(block, col));
      && s < |strips|
      && c < |Members(strips[s])|
      && Members(strips[s])[c] == block[k]
  {
    ChunkElementAt(block, col, s, c);
    var run := Chunks(block, col)[s];
    var strips := Strips(block, col);
    JoinMembers(strips, Vertical);
    StripsAt(block, col, s);
    JoinMembers(run, Horizontal);
  }

  /** The cells of a grid page, row by row, are its block: nothing added, nothing lost. */
  lemma {:induction false} GridPageCells(block: seq<Page>, col: nat)
    requires col >= 1 && |block| > 0
    ensures Cells(GridPage(block, col)) == block
  {
    var runs := Chunks(block, col);
    var strips := Strips(block, col);
    StripsAt(block, col, 0);
    JoinMembers(strips, Vertical);
    forall s | 0 <= s < |strips|
      ensures Members(strips[s]) == runs[s]
    {
      StripsAt(block, col, s);
      JoinMembers(runs[s], Horizontal);
    }
    RowCellsFlatten(strips, runs);
    FlattenChunks(block, col);
  }

  /**
   No filler: the cells of output page `b`, read row by row, are exactly the
   inputs `b * p` up to `(b + 1) * p` or the end of the input.
   */
  lemma {:induction false} GridCells(pages: seq<Page>, col: nat, row: nat, b: nat)
    requires col >= 1 && row >= 1 && b < |Grid(pages, col, row)|
    ensures var p := Capacity(col, row);
      && b * p < |pages|
      && Cells(Grid(pages, col, row)[b]) == pages[b * p .. Min((b + 1) * p, |pages|)]
  {
    var p := Capacity(col, row);
    GridLength(pages, col, row);
    ChunkAt(pages, p, b);
    var block := Chunks(pages, p)[b];
    GridAt(pages, col, row, b);
    GridPageCells(block, col);
  }

  /** Read row by row, the output pages hold every input exactly once, in input order. */
  lemma {:induction false} GridCellsCover(pages: seq<Page>, col: nat, row: nat)
    requires col >= 1 && row >= 1
    ensures var g := Grid(pages, col, row);
      Flatten(seq(|g|, b requires 0 <= b < |g| => Cells(g[b]))) == pages
  {
    var p := Capacity(col, row);
    var g := Grid(pages, col, row);
    var blocks := Chunks(pages, p);
    GridLength(pages, col, row);
    forall b | 0 <= b < |g|
      ensures Cells(g[b]) == blocks[b]
    {
      GridAt(pages, col, row, b);
      GridPageCells(blocks[b], col);
    }
    assert seq(|g|, b requires 0 <= b < |g| => Cells(g[b])) == blocks;
    FlattenChunks(pages, p);
  }

  /** The last output page holds exactly the inputs left over after the full pages, between 1 and `col * row` of them. */
  lemma {:induction false} GridLastPage(pages: seq<Page>, col: nat, row: nat)
    requires col >= 1 && row >= 1 && |pages| > 0
    ensures var g, p := Grid(pages, col, row), Capacity(col, row);
      && |g| > 0
      && (|g| - 1) * p < |pages| <= |g| * p
      && Cells(g[|g| - 1]) == pages[(|g| - 1) * p ..]
  {
    var p, k := Capacity(col, row), |Grid(pages, col, row)|;
    GridLength(pages, col, row);
    ChunksCount(pages, p);
    CeilBounds(|pages|, p, k);
    LastCells(pages, col, row, k);
  }

  lemma {:induction false} LastCells(pages: seq<Page>, col: nat, row: nat, k: nat)
    requires col >= 1 && row >= 1 && k == |Grid(pages, col, row)| && k > 0
    requires (k - 1) * Capacity(col, row) < |pages| <= k * Capacity(col, row)
    ensures Cells(Grid(pages, col, row)[k - 1]) == pages[(k - 1) * Capacity(col, row) ..]
  {
    var p := Capacity(col, row);
    MulNonNegative(k - 1, p);
    GridCells(pages, col, row, k - 1);
    SliceToEnd(pages, (k - 1) * p, (k - 1 + 1) * p);
  }

  /** When the input count leaves one page over, the last output page is that page's box. */
  lemma {:induction false} GridLastSingle(pages: seq<Page>, col: nat, row: nat)
    requires col >= 1 && row >= 1 && |pages| % Capacity(col, row) == 1
    ensures var g, last := Grid(pages, col, row), pages[|pages| - 1];
      && |g| > 0
      && g[|g| - 1].w == last.w && g[|g| - 1].h == last.h
      && Cells(g[|g| - 1]) == [last]
  {
    var p := Capacity(col, row);
    var runs := Chunks(pages, p);
    LastRunSingle(pages, p);
    GridLength(pages, col, row);
    var block := runs[|runs| - 1];
    GridAt(pages, col, row, |runs| - 1);
    GridPageCells(block, col);
    assert Strips(block, col) == [Join(block, Horizontal)];
  }

  /** A block-aligned prefix is gridded on its own pages. */
  lemma {:induction false} GridAppend(xs: seq<Page>, ys: seq<Page>, col: nat, row: nat)
    requires col >= 1 && row >= 1 && |xs| % Capacity(col, row) == 0
    ensures Grid(xs + ys, col, row) == Grid(xs, col, row) + Grid(ys, col, row)
  {
    var p := Capacity(col, row);
    var a, b := Chunks(xs, p), Chunks(ys, p);
    ChunksAppend(xs, ys, p);
    var whole, left, right := Grid(xs + ys, col, row), Grid(xs, col, row), Grid(ys, col, row);
    GridLength(xs + ys, col, row);
    GridLength(xs, col, row);
    GridLength(ys, col, row);
    forall t | 0 <= t < |whole|
      ensures whole[t] == (left + right)[t]
    {
      GridAt(xs + ys, col, row, t);
      if t < |a| {
        GridAt(xs, col, row, t);
      } else {
        GridAt(ys, col, row, t - |a|);
      }
    }
  }
}
