/**
 The top level of `concat_pdf_pages` and its batched path `use_temp_files`.

 Above `max(MAX_OPEN_FILE, col * row)` inputs the source does not open every
 input at once: it cuts the inputs into batches of `pdf_in_file` files, grids
 each batch into an intermediate document, and appends the intermediate
 documents in order. `pdf_in_file` is a positive multiple of `col * row`, so
 every batch ends on an output-page boundary; the batched output is proved to
 be exactly the output of the direct path.
 */
module Batch {
  import opened Pages
  import opened Chunking
  import opened GridLayout

  /** `MAX_OPEN_FILE`: how many input files the direct path may have open. */
  const MaxOpenFile: nat := 30

  /** Inputs above this count take the batched path: `max(MAX_OPEN_FILE, col * row)`. */
  function Threshold(maxOpen: nat, perPage: nat): (t: nat)
    ensures maxOpen <= t && perPage <= t
    ensures t == maxOpen || t == perPage
  {
    Max(maxOpen, perPage)
  }

  /**
   What `MAX_OPEN_FILE` bounds: an input list small enough for the direct path
   has at most 30 files, or no more than one output page's worth; and when one
   output page needs at most 30 inputs, so does every batch.
   */
  lemma {:induction false} OpenFilesBound(perPage: nat, n: nat)
    requires perPage >= 1 && n <= Threshold(MaxOpenFile, perPage)
    ensures n <= 30 || n <= perPage
    ensures perPage <= 30 ==> FilesPerBatch(MaxOpenFile, perPage) <= 30
  {
  }

  /**
   `pdf_in_file = max(MAX_OPEN_FILE // pdf_in_page, 1) * pdf_in_page`: the
   most whole output pages that fit in `maxOpen` files, but at least one page.
   */
  function FilesPerBatch(maxOpen: nat, perPage: nat): (m: nat)
    requires perPage >= 1
    ensures m >= 1 && m % perPage == 0
    ensures m <= Threshold(maxOpen, perPage)
    ensures perPage <= maxOpen ==> maxOpen < m + perPage
    ensures maxOpen < perPage ==> m == perPage
  {
    var q := maxOpen / perPage;
    DivMod(maxOpen, perPage);
    var c := Max(q, 1);
    MulMonotone(1, c, perPage);
    DivModUnique(c * perPage, perPage, c, 0);
    c * perPage
  }

  /**
   `num_files = (total_files - 1) // pdf_in_file + 1`, with Python's floor
   division: the number of batches of `m` needed to hold `total` files.
   */
  function NumFiles(total: nat, m: nat): (k: nat)
    requires m >= 1
    ensures total <= k * m
    ensures total > 0 ==> (k - 1) * m < total
    ensures total == 0 ==> k == 0
  {
    NumFilesBounds(total, m);
    (total - 1) / m + 1
  }

  lemma {:induction false} NumFilesBounds(total: nat, m: nat)
    requires m >= 1
    ensures (total - 1) / m + 1 >= 0
    ensures total <= ((total - 1) / m + 1) * m
    ensures total > 0 ==> ((total - 1) / m) * m < total
    ensures total == 0 ==> (total - 1) / m + 1 == 0
  {
    var q := (total - 1) / m;
    DivMod(total - 1, m);
    MulStep(q, m);
    if total == 0 {
      DivModUnique(-1, m, -1, m - 1);
    }
  }

  /**
   Batch `i`: `input_files[pdf_in_file * i : min(total_files, pdf_in_file * (i + 1))]`,
   with Python's slicing, which gives an empty list when the start is past
   the end. A batch holds at most `m` files, and it is non-empty exactly when
   it starts inside the input.
   */
  function Slice(files: seq<Page>, m: nat, i: nat): (s: seq<Page>)
    requires m >= 1
    ensures |s| <= m && |s| <= |files|
    ensures |s| > 0 <==> m * i < |files|
  {
    MulStep(i, m);
    if m * i <= |files| then files[m * i .. Min(|files|, m * (i + 1))] else []
  }

  /** The loop over `range(num_files)` visits exactly the batches that start inside the input. */
  lemma {:induction false} BatchIndex(total: nat, m: nat, i: nat)
    requires m >= 1
    ensures i < NumFiles(total, m) <==> m * i < total
  {
    var k := NumFiles(total, m);
    MulStep(i, m);
    if i < k {
      MulMonotone(i, k - 1, m);
    } else {
      MulMonotone(k, i, m);
    }
  }

  /** There are as many batches as runs of `m` files. */
  lemma {:induction false} NumFilesIsRunCount(files: seq<Page>, m: nat)
    requires m >= 1
    ensures NumFiles(|files|, m) == |Chunks(files, m)|
  {
    ChunksCount(files, m);
    DivAddDivisor(|files| - 1, m);
  }

  /** A non-empty batch `i` is run `i` of `m` files. */
  lemma {:induction false} SliceIsRun(files: seq<Page>, m: nat, i: nat)
    requires m >= 1 && m * i < |files|
    ensures i < |Chunks(files, m)|
    ensures Slice(files, m, i) == Chunks(files, m)[i]
  {
    BatchIndex(|files|, m, i);
    NumFilesIsRunCount(files, m);
    ChunkAt(files, m, i);
    MulStep(i, m);
  }

  /** The batches, in order, are the whole input: none is empty, none exceeds `m`, none overlaps. */
  lemma {:induction false} PlanCoversInput(files: seq<Page>, m: nat)
    requires m >= 1
    ensures var k := NumFiles(|files|, m);
      Flatten(seq(k, i requires 0 <= i < k => Slice(files, m, i))) == files
  {
    var k := NumFiles(|files|, m);
    var plan := seq(k, i requires 0 <= i < k => Slice(files, m, i));
    NumFilesIsRunCount(files, m);
    forall i | 0 <= i < k
      ensures plan[i] == Chunks(files, m)[i]
    {
      BatchIndex(|files|, m, i);
      SliceIsRun(files, m, i);
    }
    assert plan == Chunks(files, m);
    FlattenChunks(files, m);
  }

  /** Every batch is small enough to take the direct path: the batched path is never re-entered. */
  lemma {:induction false} PlanTakesDirectPath(files: seq<Page>, perPage: nat, i: nat)
    requires perPage >= 1
    ensures |Slice(files, FilesPerBatch(MaxOpenFile, perPage), i)| <= Threshold(MaxOpenFile, perPage)
  {
  }

  /** `pdf_in_file` for a few grid sizes. */
  lemma {:induction false} FilesPerBatchExamples()
    ensures FilesPerBatch(MaxOpenFile, 1) == 30
    ensures FilesPerBatch(MaxOpenFile, 4) == 28
    ensures FilesPerBatch(MaxOpenFile, 6) == 30
    ensures FilesPerBatch(MaxOpenFile, 40) == 40
  {
  }

  /** The grid of each batch, in batch order. */
  function GridBatches(runs: seq<seq<Page>>, col: nat, row: nat): (docs: seq<seq<Page>>)
    requires col >= 1 && row >= 1
    ensures |docs| == |runs|
  {
    if |runs| == 0 then [] else [Grid(runs[0], col, row)] + GridBatches(runs[1..], col, row)
  }

  lemma {:induction false} GridBatchesAt(runs: seq<seq<Page>>, col: nat, row: nat, t: nat)
    requires col >= 1 && row >= 1 && t < |runs|
    ensures GridBatches(runs, col, row)[t] == Grid(runs[t], col, row)
    decreases |runs|
  {
    if t > 0 {
      GridBatchesAt(runs[1..], col, row, t - 1);
    }
  }

  /**
   Gridding each run of `m` inputs separately and concatenating the results
   gives the grid of the whole input, provided `m` is a positive multiple of
   `col * row`.
   */
  lemma {:induction false} BatchedEqualsDirect(files: seq<Page>, col: nat, row: nat, m: nat)
    requires col >= 1 && row >= 1 && m >= 1 && m % Capacity(col, row) == 0
    ensures Flatten(GridBatches(Chunks(files, m), col, row)) == Grid(files, col, row)
    decreases |files|
  {
    if |files| == 0 {
    } else if |files| <= m {
      var g := Grid(files, col, row);
      assert GridBatches([files], col, row) == [g] + GridBatches([], col, row);
      assert Flatten([g]) == g + Flatten([]);
    } else {
      var head, rest := files[..m], files[m..];
      var runs := Chunks(rest, m);
      assert Chunks(files, m) == [head] + runs;
      assert ([head] + runs)[1..] == runs;
      var docs := GridBatches([head] + runs, col, row);
      assert docs[1..] == GridBatches(runs, col, row);
      BatchedEqualsDirect(rest, col, row, m);
      GridAppend(head, rest, col, row);
      assert head + rest == files;
    }
  }

  /**
   The batched path in the source's own terms: appending, in order, the grids
   of the batches `Slice(files, m, 0)`, `Slice(files, m, 1)`, ... gives the
   grid of the whole input.
   */
  lemma {:induction false} MergedBatches(files: seq<Page>, col: nat, row: nat, m: nat, docs: seq<seq<Page>>)
    requires col >= 1 && row >= 1 && m >= 1 && m % Capacity(col, row) == 0
    requires |docs| == NumFiles(|files|, m)
    requires forall t | 0 <= t < |docs| :: docs[t] == Grid(Slice(files, m, t), col, row)
    ensures Flatten(docs) == Grid(files, col, row)
  {
    var runs := Chunks(files, m);
    NumFilesIsRunCount(files, m);
    forall t | 0 <= t < |docs|
      ensures docs[t] == GridBatches(runs, col, row)[t]
    {
      BatchIndex(|files|, m, t);
      SliceIsRun(files, m, t);
      GridBatchesAt(runs, col, row, t);
    }
    assert docs == GridBatches(runs, col, row);
    BatchedEqualsDirect(files, col, row, m);
  }

  /**
   `concat_pdf_pages` on the first page of every input: above the threshold
   the batched path, otherwise the direct path. Either way the output is the
   grid of the input.
   */
  method ConcatPdfPages(files: seq<Page>, col: nat, row: nat) returns (output: seq<Page>)
    requires col >= 1 && row >= 1
    ensures output == Grid(files, col, row)
    decreases |files|, if |files| > Threshold(MaxOpenFile, Capacity(col, row)) then 2 else 0
  {
    if |files| > Threshold(MaxOpenFile, Capacity(col, row)) {
      output := UseTempFiles(files, col, row);
    } else {
      output := DirectGrid(files, col, row);
    }
  }

  /**
   `use_temp_files`: grid every batch into an intermediate document, then
   append the intermediate documents in order.
   */
  method UseTempFiles(files: seq<Page>, col: nat, row: nat) returns (output: seq<Page>)
    requires col >= 1 && row >= 1
    ensures output == Grid(files, col, row)
    decreases |files|, 1
  {
    var total := |files|;
    var perPage := Capacity(col, row);
    var perFile := FilesPerBatch(MaxOpenFile, perPage);
    var numFiles := NumFiles(total, perFile);
    var docs: seq<seq<Page>> := [];
    var i := 0;
    while i < numFiles
      invariant i <= numFiles && |docs| == i
      invariant forall t | 0 <= t < i :: docs[t] == Grid(Slice(files, perFile, t), col, row)
    {
      var slice := Slice(files, perFile, i);
      var doc := ConcatPdfPages(slice, col, row);
      docs := docs + [doc];
      i := i + 1;
    }
    output := MergeFiles(docs);
    MergedBatches(files, col, row, perFile, docs);
  }

  /** The final `PdfWriter`: every intermediate document's pages appended, in order. */
  method MergeFiles(docs: seq<seq<Page>>) returns (output: seq<Page>)
    ensures output == Flatten(docs)
  {
    output := [];
    var k := 0;
    while k < |docs|
      invariant k <= |docs|
      invariant output == Flatten(docs[..k])
    {
      FlattenAppend(docs[..k], [docs[k]]);
      assert docs[..k + 1] == docs[..k] + [docs[k]];
      output := output + docs[k];
      k := k + 1;
    }
    assert docs[..|docs|] == docs;
  }
}
