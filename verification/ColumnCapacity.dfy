/** How many chunks a column can need. */
module ColumnCapacity {
  import opened ColumnTypes
  import opened ColumnSource
  import opened ColumnModel
  import opened ColumnTheorems

  /** A chunk of known type that holds as many rows as it can store. */
  predicate Filled(k: Chunk) {
    k.ty != UNKNOWN && k.Full()
  }

  function FilledCount(chunks: seq<Chunk>): nat {
    if chunks == [] then 0
    else FilledCount(chunks[..|chunks| - 1]) + (if Filled(chunks[|chunks| - 1]) then 1 else 0)
  }

  // ----- Unlimited fetch

  /** Every chunk but the last was left because its type was unknown, it was full, or the column
      widened; and capacities at least double. */
  ghost predicate Doubling(chunks: seq<Chunk>) {
    && (forall m :: 0 <= m < |chunks| ==> chunks[m].ty != UNKNOWN ==> chunks[m].cap >= 100)
    && (forall m :: 0 < m < |chunks| ==> chunks[m].cap >= 2 * chunks[m - 1].cap)
    && (forall m :: 0 < m < |chunks| ==>
          chunks[m - 1].ty == UNKNOWN || Filled(chunks[m - 1]) || Widens(chunks[m - 1].ty, chunks[m].ty))
  }

  /** A full INT chunk meets a wide cell: the first spillover is an INT chunk again and dropped. */
  predicate TwiceSpilled(k: Chunk, item: DataType) {
    k.ty == INT && |k.cells| >= k.cap && (item == INT64 || item == REAL)
  }

  function Max(a: int, b: int): int {
    if a < b then b else a
  }

  /** The size of the chunk after a spill: without a limit double the last one, and at least 100; with one,
      the rows still to come. A dropped spillover counts too, and has no rows. */
  function SpillSize(cap: nat, rows: nat, twice: bool, nMax: int): int {
    if nMax < 0 then (if twice then 2 * Max(100, 2 * cap) else Max(100, 2 * cap))
    else Max(1, if twice then nMax else nMax - rows)
  }

  /** A column starts with a chunk without capacity if its type is open, else with one of 100 rows, or of one
      row if a limit is given. */
  lemma {:induction false} FirstChunk(ty: DataType, nMax: int, src: Source)
    ensures Run(ty, nMax, src, []) ==
            [if ty == UNKNOWN || ty == BOOL then Chunk(UNKNOWN, 0, [])
             else Chunk(ty, if nMax < 0 then 100 else 1, [])]
  {
  }

  /** The capacity of the chunk a spill ends in. */
  lemma {:induction false} SpillCapacity(k: Chunk, c: Cell, nMax: int, src: Source)
    requires k.Valid() && !Stays(k, c, src)
    ensures var r := AppendCell(k, c, nMax, src);
            && r.ty != UNKNOWN
            && (nMax < 0 ==> r.cap >= 100 && r.cap >= 2 * k.cap)
            && (nMax >= 0 ==> r.cap >= 1 && r.cap >= nMax - |k.cells|)
            && (k.ty == UNKNOWN || k.Full() || Widens(k.ty, r.ty))
            && r.cap == SpillSize(k.cap, |k.cells|, TwiceSpilled(k, src.ItemType(c)), nMax)
    decreases Spills(k, c, src)
  {
    var ty := if k.ty == UNKNOWN || !k.Full() then src.ItemType(c) else k.ty;
    var spillover := NewChunk(ty, DesiredCapacity(k, nMax), nMax);
    var asked := if k.ty == UNKNOWN || k.Full() then k.ty else src.ItemType(c);
    assert AppendData(k, c, nMax, src) == AppendDataToNew(k, asked, c, nMax, src);
    assert AppendDataToNew(k, asked, c, nMax, src) == AppendData(spillover, c, nMax, src);
    AppendCellMeaning(k, c, nMax, src);
    if Stays(spillover, c, src) {
      AppendCellMeaning(spillover, c, nMax, src);
    } else {
      SpillCapacity(spillover, c, nMax, src);
    }
  }

  lemma {:induction false} AppendDoubles(chunks: seq<Chunk>, c: Cell, nMax: int, src: Source)
    requires nMax < 0 && chunks != [] && Doubling(chunks) && chunks[|chunks| - 1].Valid()
    ensures Doubling(Append(chunks, c, nMax, src))
  {
    hide AppendCell;
    var n := |chunks| - 1;
    var next := Append(chunks, c, nMax, src);
    AppendCellMeaning(chunks[n], c, nMax, src);
    if Stays(chunks[n], c, src) {
      assert forall m :: 0 <= m < n ==> next[m] == chunks[m];
      assert next[n].ty == chunks[n].ty && next[n].cap == chunks[n].cap;
    } else {
      SpillCapacity(chunks[n], c, nMax, src);
      assert forall m :: 0 <= m <= n ==> next[m] == chunks[m];
    }
  }

  lemma {:induction false} RunDoubles(ty: DataType, nMax: int, src: Source, cells: seq<Cell>)
    requires nMax < 0
    ensures Doubling(Run(ty, nMax, src, cells))
    decreases |cells|
  {
    if cells != [] {
      var n := |cells| - 1;
      RunDoubles(ty, nMax, src, cells[..n]);
      RunInvariant(ty, nMax, src, cells[..n]);
      AppendDoubles(Run(ty, nMax, src, cells[..n]), cells[n], nMax, src);
    }
  }

  /** `f` filled chunks hold at least 100 * (2^f - 1) rows. */
  lemma {:induction false} FilledNeedRows(chunks: seq<Chunk>)
    requires Doubling(chunks) && Chain(chunks)
    ensures Rows(chunks) >= 100 * (Pow2(FilledCount(chunks)) - 1)
    decreases |chunks|
  {
    if chunks != [] {
      var n := |chunks| - 1;
      FilledNeedRows(chunks[..n]);
      CapacityGrows(chunks, n);
    }
  }

  /** Each filled chunk doubles the capacity of the chunks to come. */
  lemma {:induction false} CapacityGrows(chunks: seq<Chunk>, n: nat)
    requires Doubling(chunks) && Chain(chunks) && n < |chunks|
    ensures chunks[n].ty == UNKNOWN || chunks[n].cap >= 100 * Pow2(FilledCount(chunks[..n]))
  {
    if n > 0 {
      CapacityGrows(chunks, n - 1);
      assert chunks[..n][..n - 1] == chunks[..n - 1];
      assert chunks[..n][n - 1] == chunks[n - 1];
      if chunks[n - 1].ty == UNKNOWN { assert chunks[..n - 1] == []; }
    }
  }

  /** Among the chunks before the last, at most the first is of unknown type, and at most one was
      left because the column widened. */
  lemma {:induction false} UnfilledAreFew(chunks: seq<Chunk>, n: nat)
    requires Doubling(chunks) && Chain(chunks) && n < |chunks|
    ensures n <= FilledCount(chunks[..n]) + (if n > 0 && chunks[0].ty == UNKNOWN then 1 else 0)
                 + (if chunks[n].ty == INT64 || chunks[n].ty == REAL then 1 else 0)
  {
    if n > 0 {
      UnfilledAreFew(chunks, n - 1);
      assert chunks[..n][..n - 1] == chunks[..n - 1];
      assert chunks[..n][n - 1] == chunks[n - 1];
    }
  }

  /** Without a row limit, `f` filled chunks imply at least 100 * (2^f - 1) rows, and there are at
      most `f + 3` chunks: a column of N rows has O(log N) chunks. */
  lemma {:induction false} UnlimitedChunkCount(ty: DataType, nMax: int, src: Source, cells: seq<Cell>)
    requires nMax < 0
    ensures var chunks := Run(ty, nMax, src, cells);
            var f := FilledCount(chunks);
            |cells| >= 100 * (Pow2(f) - 1) && f <= |chunks| <= f + 3
  {
    var chunks := Run(ty, nMax, src, cells);
    RunDoubles(ty, nMax, src, cells);
    RunInvariant(ty, nMax, src, cells);
    FilledNeedRows(chunks);
    UnfilledAreFew(chunks, |chunks| - 1);
    FilledAreChunks(chunks);
  }

  lemma {:induction false} FilledAreChunks(chunks: seq<Chunk>)
    ensures FilledCount(chunks) <= |chunks|
    decreases |chunks|
  {
    if chunks != [] { FilledAreChunks(chunks[..|chunks| - 1]); }
  }

  // ----- Fetch with a row limit

  /** With `nMax` rows asked for and `rows` appended, every chunk after the first has room for all
      the rows still to come, and a third chunk can only come from a widening. */
  ghost predicate Roomy(chunks: seq<Chunk>, nMax: int) {
    var n := |chunks| - 1;
    && 1 <= |chunks| <= 3
    && (n > 0 ==> chunks[n].cap - |chunks[n].cells| >= nMax - Rows(chunks))
    && (n == 2 ==> chunks[2].ty == INT64 || chunks[2].ty == REAL)
  }

  lemma {:induction false} AppendIsRoomy(chunks: seq<Chunk>, c: Cell, nMax: int, src: Source)
    requires chunks != [] && Roomy(chunks, nMax) && Rows(chunks) < nMax
    requires chunks[|chunks| - 1].Valid() && (|chunks| > 1 ==> chunks[|chunks| - 1].ty != UNKNOWN)
    requires Rows(Append(chunks, c, nMax, src)) == Rows(chunks) + 1
    ensures Roomy(Append(chunks, c, nMax, src), nMax)
  {
    hide AppendCell;
    var last := chunks[|chunks| - 1];
    AppendCellMeaning(last, c, nMax, src);
    LastChunkRows(chunks);
    if !Stays(last, c, src) { SpillCapacity(last, c, nMax, src); }
  }

  /** With `nMax > 0` at most three chunks exist, and no chunk after the first runs out of capacity
      before the batch ends. */
  lemma {:induction false} LimitedChunkCount(ty: DataType, nMax: int, src: Source, cells: seq<Cell>)
    requires 0 < nMax && |cells| <= nMax
    ensures Roomy(Run(ty, nMax, src, cells), nMax)
    decreases |cells|
  {
    if cells != [] {
      var n := |cells| - 1;
      LimitedChunkCount(ty, nMax, src, cells[..n]);
      RunInvariant(ty, nMax, src, cells[..n]);
      RunInvariant(ty, nMax, src, cells);
      AppendIsRoomy(Run(ty, nMax, src, cells[..n]), cells[n], nMax, src);
    }
  }

  lemma {:induction false} LastChunkRows(chunks: seq<Chunk>)
    requires chunks != []
    ensures |chunks[|chunks| - 1].cells| <= Rows(chunks)
  {
  }
}
