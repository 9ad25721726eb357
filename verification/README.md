# pdfgridcat in Dafny

pdfgridcat arranges the first page of several PDF files into a grid, with no
scaling and no margins. It takes `col` columns and `row` rows per output
page. It cuts the inputs into blocks of `col * row` pages. It cuts each block
into rows of at most `col` pages and joins every row side by side
(`concat_pdf(..., horizontal=True)`). It then stacks the joined rows into one
output page (`concat_pdf(..., horizontal=False)`). When there are more than
`max(MAX_OPEN_FILE, col * row)` inputs, `use_temp_files` builds the output in
batches and appends the intermediate documents in order.

The model reduces a page to its media-box size:

- an input page is `Leaf(id, w, h)`;
- a composed page is `Composed(w, h, parts)`;
- `parts` lists, in merge order, every page merged onto the composed page and
  the translation `(dx, dy)` it was merged at;
- PDF coordinates have their origin at the bottom-left corner.

The model has five modules:

- `Pages` (pages.dfy): the page data model, sums and maxima of sizes.
- `Chunking` (chunking.dfy): cutting a sequence into runs of `n`, the way
  `range(0, len, n)` with clipped slices does, and the facts about Euclidean
  division those runs need.
- `Compositor` (compositor.dfy): `concat_pdf`.
  - `Join` is an independent, one-page-at-a-time definition of a composition.
  - `ConcatPdf` is the source's procedure: it computes the box, then walks the
    pages with a running offset.
  - The layout lemmas state what a composition means on the page.
- `GridLayout` (grid.dfy): the direct path of `concat_pdf_pages`.
  - `Grid` is the block-by-block definition.
  - `DirectGrid` and `JoinRows` are the source's index loops.
  - Further lemmas cover the count, the placement and the coverage of the
    cells.
- `Batch` (batch.dfy): the threshold, `use_temp_files` and its batch plan.
  It also holds the theorem that batching does not change the output.

Python's `//` with a positive divisor equals Dafny's Euclidean `/` on every
integer, including `(0 - 1) // m == -1`. So `NumFiles` uses `/` directly.

Every lemma carries `{:induction false}`, so each proof is the one written
out in its body. Dafny's automatic induction over these recursive page
datatypes admits a false lemma under Dafny 4.11.0 with Z3 4.16.0, so it is
not relied on anywhere.

An empty input list is modelled. The direct path then writes a document with
no pages, and `Grid([])` is empty. The empty-list `ValueError` of
`concat_pdf` cannot be reached from the grid path, because every block and
every row is non-empty.

## Model

| member | source | states |
|---|---|---|
| Compositor.ConcatPdf | src/pdfgridcat/cli.py:149-207 | An empty page list is exactly the error case (the `ValueError`). Any other list yields the composition `Join` of the pages. A single page yields its own box with the page at the origin, in both directions. |
| Compositor.PlaceSideBySide | src/pdfgridcat/cli.py:192-202 | The horizontal merge loop places the first page untranslated and each later page at the running offset. It produces exactly the placements of `Join`. |
| Compositor.PlaceStacked | src/pdfgridcat/cli.py:195-205 | The vertical merge loop starts at `total_height - h0` and shrinks the offset by each page's height before merging that page. Page `k` sits at the total height less the heights up to and including its own. When the total height is the sum of the heights, the placements are exactly those of `Join`. |
| Compositor.JoinMembers | src/pdfgridcat/cli.py:192-205 | A composition holds every input page once, in input order, in both directions. |
| Compositor.JoinBox | src/pdfgridcat/cli.py:183-188 | Side by side, the box is the sum of the widths by the largest height. Stacked, it is the largest width by the sum of the heights. |
| Compositor.JoinPart | src/pdfgridcat/cli.py:192-205 | Side by side, page `k` is shifted right by the widths of the pages before it and not shifted up. Stacked, page `k` is shifted up by the total height less the heights up to and including its own. |
| Compositor.HorizontalLayout | src/pdfgridcat/cli.py:183-202 | For non-negative widths: the first page is at the left edge, and no page is shifted up. Every page fits in the box. Each page starts where the previous one ends. The last page ends at the right edge. |
| Compositor.HorizontalOffsetsIncrease | src/pdfgridcat/cli.py:199-202 | With positive widths, the horizontal offsets strictly increase in input order. |
| Compositor.VerticalLayout | src/pdfgridcat/cli.py:186-205 | For non-negative heights: no page is shifted right. The first page's top edge is the top of the box, and every page fits. Each page's top edge is the previous page's bottom edge. The last page sits on the bottom edge. |
| Compositor.VerticalOffsetsDecrease | src/pdfgridcat/cli.py:195-205 | With positive heights, the vertical offsets strictly decrease in input order, so the first input is on top. |
| Compositor.TwoPageExample | dev/test_cli.py:28-38 | A 100 x 200 page and a 50 x 150 page make a 150 x 200 page side by side and a 100 x 350 page stacked. The placements are given in full. |
| Pages.Largest | src/pdfgridcat/cli.py:185-187 | Python's `max` over a non-empty list: a member of the list that no member exceeds. |
| Chunking.FlattenChunks | src/pdfgridcat/cli.py:69-73 | The runs of `n` taken at steps of `n`, put back together in order, are the original sequence. |
| Chunking.ChunksCount | src/pdfgridcat/cli.py:69 | `range(0, len, n)` gives `ceil(len / n)` runs. |
| Chunking.ChunkAt | src/pdfgridcat/cli.py:73 | Run `j` is the slice from `j * n` to `min((j + 1) * n, len)`, and it starts inside the sequence. |
| Chunking.ChunkElement | src/pdfgridcat/cli.py:69-79 | Element `i` is element `i % n` of run `i / n`. |
| Chunking.ChunksAppend | src/pdfgridcat/cli.py:129 | Cutting `xs + ys` when `|xs|` is a multiple of `n` cuts `xs` and `ys` separately. |
| GridLayout.FullPage | src/pdfgridcat/cli.py:67-81 | A full block of `col * row` inputs makes an output page of exactly `row` strips, each holding exactly `col` pages. |
| GridLayout.DirectGrid | src/pdfgridcat/cli.py:66-84 | The direct path's block loop produces exactly `Grid`, one output page per block of `col * row`. |
| GridLayout.JoinRows | src/pdfgridcat/cli.py:77-81 | The row loop produces exactly the block's strips: run after run of `col` pages, each joined side by side. |
| GridLayout.StripsAt | src/pdfgridcat/cli.py:77-81 | There is one strip per run of `col` pages of the block, and strip `s` is run `s` joined side by side. |
| GridLayout.GridAt | src/pdfgridcat/cli.py:69-84 | Output page `b` is block `b` (the run of `col * row` inputs starting at `b * col * row`), gridded. |
| GridLayout.GridCount | src/pdfgridcat/cli.py:69 | There are `ceil(n / (col * row))` output pages. |
| GridLayout.CellOf | src/pdfgridcat/cli.py:67-79 | The row-major cell of input `i` decomposes it as `page * col * row + strip * col + pos`, with `strip < row` and `pos < col`. |
| GridLayout.GridPlacement | src/pdfgridcat/cli.py:66-84 | Input `i` is found at its row-major cell of the output: page `i / (col * row)`, then strip, then position. |
| GridLayout.GridPageCells | src/pdfgridcat/cli.py:77-84 | The cells of one output page, read row by row, are its block: nothing is added and nothing is lost. |
| GridLayout.GridCells | src/pdfgridcat/cli.py:69-84 | The cells of output page `b` are exactly inputs `b * col * row` up to `(b + 1) * col * row`, or up to the end of the input. There is no filler. |
| GridLayout.GridCellsCover | src/pdfgridcat/cli.py:66-84 | Read page by page and row by row, the output holds every input exactly once, in input order. |
| GridLayout.GridLastPage | src/pdfgridcat/cli.py:69-84 | The last output page holds exactly the inputs left after the full pages, between 1 and `col * row` of them. |
| GridLayout.GridLastSingle | src/pdfgridcat/cli.py:77-84 | When the input count leaves one page over, the last output page has that page's box and that page as its only cell. |
| GridLayout.GridAppend | src/pdfgridcat/cli.py:69 | Gridding a block-aligned prefix and the rest separately gives the grid of the whole. |
| Batch.Threshold | src/pdfgridcat/cli.py:62 | The threshold is `max(MAX_OPEN_FILE, col * row)`: at least each of the two, and equal to one of them. |
| Batch.OpenFilesBound | src/pdfgridcat/cli.py:7 | `MAX_OPEN_FILE` is 30. An input list small enough for the direct path has at most 30 files or at most one output page's worth. When one output page needs at most 30 inputs, every batch has at most 30 inputs too. |
| Batch.FilesPerBatch | src/pdfgridcat/cli.py:116-117 | `pdf_in_file` is a positive multiple of `col * row` and at most `max(MAX_OPEN_FILE, col * row)`. It is the largest such multiple within `MAX_OPEN_FILE` when one page fits, and exactly one page's worth otherwise. |
| Batch.NumFiles | src/pdfgridcat/cli.py:118 | `num_files` is the least batch count whose batches hold all inputs: `total <= k * m` and `(k - 1) * m < total`, and it is 0 for no inputs. |
| Batch.Slice | src/pdfgridcat/cli.py:129 | Batch `i`, sliced as Python does: at most `pdf_in_file` inputs, and non-empty exactly when it starts inside the input. |
| Batch.BatchIndex | src/pdfgridcat/cli.py:118-129 | `i < num_files` exactly when batch `i` starts inside the input, so the loop visits every non-empty batch and no empty one. |
| Batch.NumFilesIsRunCount | src/pdfgridcat/cli.py:118 | `num_files` is the number of runs of `pdf_in_file` inputs. |
| Batch.SliceIsRun | src/pdfgridcat/cli.py:129 | A non-empty batch `i` is run `i` of `pdf_in_file` inputs. |
| Batch.PlanCoversInput | src/pdfgridcat/cli.py:118-129 | The batches, in order, are the whole input, without gaps or overlaps. |
| Batch.PlanTakesDirectPath | src/pdfgridcat/cli.py:62-63 | Every batch is no larger than the threshold, so the nested `concat_pdf_pages` call takes the direct path and the recursion is one level deep. |
| Batch.FilesPerBatchExamples | src/pdfgridcat/cli.py:116-117 | With `MAX_OPEN_FILE = 30`, `pdf_in_file` is 30, 28, 30 and 40 for 1, 4, 6 and 40 pages per output page. |
| Batch.BatchedEqualsDirect | src/pdfgridcat/cli.py:115-139 | Gridding each run of `m` inputs separately and appending the results equals gridding all inputs, for any positive multiple `m` of `col * row`. |
| Batch.MergedBatches | src/pdfgridcat/cli.py:126-139 | Appending, in batch order, the grids of the source's batches gives the grid of the whole input. |
| Batch.ConcatPdfPages | src/pdfgridcat/cli.py:62-84 | Either path produces the grid of the input, whichever side of the threshold the input count falls. |
| Batch.UseTempFiles | src/pdfgridcat/cli.py:115-139 | The batched path produces exactly the output of the direct path. |
| Batch.MergeFiles | src/pdfgridcat/cli.py:131-139 | The final writer holds the pages of every intermediate document, appended in order. |

## Left out

- Reading and writing PDF files (`PdfReader`, `PdfWriter`, `open`, `write`). An input file is
  the `Leaf` page of its first page, and an output document is the sequence of its pages.
- Page content and pypdf's `merge_page` / `merge_translated_page` rendering. A composed page
  records which page was merged at which translation, and nothing more.
- Dimensions are exact reals. The source converts the media box to `float`, so its sums and
  offsets are subject to rounding, which the model does not reproduce.
- The `AttributeError` fallback in the final merge (lines 135-139). Both branches append every
  page of a temporary file in order, so the model has the one behaviour `MergeFiles`.
- Temporary file names, `os.makedirs`, `os.remove` and the progress `print`s. The model
  assumes no temporary file `out_dir/tmp_<i>_<out_base>` (line 127) names the same file as an
  input. When one does, the source behaves differently from the model. Batch `i` writes its
  intermediate document over that input (lines 86-87). A later batch that lists the input then
  reads batch `i`'s first output page instead of the input's own first page (lines 74-75). At the
  end, lines 144-145 delete the user's input file. For example, take 31 inputs, `col = row = 1`,
  output `out.pdf`, and a 31st input named `tmp_0_out.pdf`. Output page 31 is then a copy of output
  page 1.
- Compositor.HorizontalLayout: each page's media box is taken to start at (0, 0). The source
  reads only `mediabox.width` and `.height` (lines 180-181) and translates each page by the
  offset (lines 193-205). A page whose media box has its lower-left corner at `(llx, lly)`
  therefore lands shifted by that corner. "Every page fits" and "each page starts where the
  previous one ends" then hold of the boxes' sizes, not of the drawn output.
- Compositor.VerticalLayout: each page's media box is taken to start at (0, 0), for the same
  reason. With a shifted media box, "every page fits" and "the last page sits on the bottom
  edge" hold of the sizes only.
- Argument parsing (`main`). Every operation takes `col >= 1` and `row >= 1` as a precondition.
  With `col * row == 0` the source fails in `range` with a step of 0, or in
  `MAX_OPEN_FILE // 0`. With a negative count the ranges are empty or misbehave. Neither case
  is modelled.
