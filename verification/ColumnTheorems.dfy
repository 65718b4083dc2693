/** The chunked column meets its one-pass specification, and the shape of its chunk list. */
module ColumnTheorems {
  import opened ColumnTypes
  import opened ColumnSource
  import opened ColumnModel

  // ----- One appended cell

  /** Whatever spills happen on the way, `append_col` puts the cell, and nothing else, at the end of
      the old chunk or into a chunk of its own, and the type moves by `TypeStep`. */
  lemma {:induction false} AppendCellMeaning(k: Chunk, c: Cell, nMax: int, src: Source)
    requires k.Valid()
    ensures var r := AppendCell(k, c, nMax, src);
            && r.Valid()
            && r.ty == TypeStep(k.ty, c, src)
            && r.cells == (if Stays(k, c, src) then k.cells else []) + [c]
            && (Stays(k, c, src) ==> r.cap == k.cap)
    decreases Spills(k, c, src)
  {
    if !c.Null? && !Stays(k, c, src) {
      var ty := if k.ty == UNKNOWN || !k.Full() then src.ItemType(c) else k.ty;
      var spillover := NewChunk(ty, DesiredCapacity(k, nMax), nMax);
      AppendCellMeaning(spillover, c, nMax, src);
      var asked := if k.ty == UNKNOWN || k.Full() then k.ty else src.ItemType(c);
      assert AppendData(k, c, nMax, src) == AppendDataToNew(k, asked, c, nMax, src);
      assert AppendDataToNew(k, asked, c, nMax, src) == AppendData(spillover, c, nMax, src);
    }
  }

  /** A chunk takes the cell itself exactly if it is NULL, or the chunk has a type and room for it and is not
      an INT chunk that meets an INT64 or REAL cell. */
  lemma {:induction false} TakenExactly(k: Chunk, c: Cell, nMax: int, src: Source)
    requires k.Valid()
    ensures AppendCell(k, c, nMax, src) == k.(cells := k.cells + [c]) <==>
            || c.Null?
            || (k.ty != UNKNOWN && |k.cells| < k.cap
                && !(k.ty == INT && (src.ItemType(c) == INT64 || src.ItemType(c) == REAL)))
  {
    hide AppendCell;
    AppendCellMeaning(k, c, nMax, src);
    if Stays(k, c, src) {
      assert AppendCell(k, c, nMax, src) == k.(cells := k.cells + [c]);
    } else if k.ty != UNKNOWN && !Widens(k.ty, src.ItemType(c)) {
      assert |k.cells| >= k.cap > 0;
      assert |k.cells + [c]| == |k.cells| + 1;
    }
  }

  // ----- Refinement of the one-pass specification

  ghost predicate AllValid(chunks: seq<Chunk>) {
    forall m :: 0 <= m < |chunks| ==> chunks[m].Valid()
  }

  function ChunkRows(k: Chunk): (rows: seq<Arrival>)
    ensures |rows| == |k.cells|
    ensures forall j :: 0 <= j < |rows| ==> rows[j] == Arrival(k.cells[j], k.ty)
  {
    seq(|k.cells|, j requires 0 <= j < |k.cells| => Arrival(k.cells[j], k.ty))
  }

  /** All rows of a chunk list, in the order in which `operator SEXP` copies them. */
  function AllRows(chunks: seq<Chunk>): (rows: seq<Arrival>)
    ensures |rows| == Rows(chunks)
  {
    if chunks == [] then [] else AllRows(chunks[..|chunks| - 1]) + ChunkRows(chunks[|chunks| - 1])
  }

  /** In every reachable column the last chunk has the type in force, every chunk leads to it, only
      the first chunk can have an unknown type, and no row is lost or invented. */
  lemma {:induction false} RunInvariant(ty: DataType, nMax: int, src: Source, cells: seq<Cell>)
    ensures var chunks := Run(ty, nMax, src, cells);
            && AllValid(chunks)
            && chunks[|chunks| - 1].ty == TypeAfter(Start(ty), cells, src)
            && Rows(chunks) == |cells|
            && Chain(chunks)
    decreases |cells|
  {
    if cells != [] {
      var n := |cells| - 1;
      RunInvariant(ty, nMax, src, cells[..n]);
      AppendKeepsChain(Run(ty, nMax, src, cells[..n]), cells[n], nMax, src);
    } else {
      var k := NewChunk(Start(ty), 0, nMax);
      assert [k][..0] == [];
    }
  }

  /** Chunk types only ever move from unknown to known or from INT to INT64 or REAL. */
  ghost predicate Chain(chunks: seq<Chunk>) {
    && (forall m, n :: 0 <= m < n < |chunks| ==> Grows(chunks[m].ty, chunks[n].ty))
    && (forall m :: 0 < m < |chunks| ==> chunks[m].ty != UNKNOWN)
  }

  lemma {:induction false} AppendKeepsChain(chunks: seq<Chunk>, c: Cell, nMax: int, src: Source)
    requires chunks != [] && AllValid(chunks) && Chain(chunks)
    ensures var next := Append(chunks, c, nMax, src);
            && AllValid(next)
            && Chain(next)
            && next[|next| - 1].ty == TypeStep(chunks[|chunks| - 1].ty, c, src)
            && Rows(next) == Rows(chunks) + 1
  {
    hide AppendCell;
    var n := |chunks| - 1;
    var next := Append(chunks, c, nMax, src);
    AppendCellMeaning(chunks[n], c, nMax, src);
    assert next[..|next| - 1] == if Stays(chunks[n], c, src) then chunks[..n] else chunks;
    assert forall m :: 0 <= m < n ==> next[m] == chunks[m];
  }

  /** Capacities, spills and late NULLs never show: the chunks hold every cell, in order, under the type
      in force when it arrived. */
  lemma {:induction false} ChunksHoldArrivals(ty: DataType, nMax: int, src: Source, cells: seq<Cell>)
    ensures AllRows(Run(ty, nMax, src, cells)) == Arrivals(ty, cells, src)
    decreases |cells|
  {
    RunInvariant(ty, nMax, src, cells);
    if cells == [] {
      assert Run(ty, nMax, src, cells)[..0] == [];
    } else {
      var n := |cells| - 1;
      ChunksHoldArrivals(ty, nMax, src, cells[..n]);
      RunInvariant(ty, nMax, src, cells[..n]);
      AppendAddsRow(Run(ty, nMax, src, cells[..n]), cells[n], nMax, src);
    }
  }

  lemma {:induction false} AppendAddsRow(chunks: seq<Chunk>, c: Cell, nMax: int, src: Source)
    requires chunks != [] && AllValid(chunks)
    ensures AllRows(Append(chunks, c, nMax, src))
            == AllRows(chunks) + [Arrival(c, TypeStep(chunks[|chunks| - 1].ty, c, src))]
  {
    hide AppendCell;
    var n := |chunks| - 1;
    var next := Append(chunks, c, nMax, src);
    var row := Arrival(c, TypeStep(chunks[n].ty, c, src));
    AppendCellMeaning(chunks[n], c, nMax, src);
    if Stays(chunks[n], c, src) {
      assert next[..n] == chunks[..n];
      assert ChunkRows(next[n]) == ChunkRows(chunks[n]) + [row];
    } else {
      assert next[..n + 1] == chunks;
      assert ChunkRows(next[n + 1]) == [row];
    }
  }

  /** Row `k` of a column, in closed form. */
  lemma {:induction false} ArrivalAt(ty: DataType, cells: seq<Cell>, src: Source, k: nat)
    requires k < |cells|
    ensures Arrivals(ty, cells, src)[k] == Arrival(cells[k], TypeAfter(Start(ty), cells[..k + 1], src))
    decreases |cells|
  {
    var n := |cells| - 1;
    if k == n {
      assert cells[..k + 1] == cells;
    } else {
      assert cells[..n][..k + 1] == cells[..k + 1];
      ArrivalAt(ty, cells[..n], src, k);
    }
  }

  /** The column's final type, as `get_type` finds it in the last chunk; every chunk can be read back at
      that type: it has the same type, or is an INT chunk of an INT64 or REAL column, or is empty of
      values. In particular no column has both INT64 and REAL chunks. */
  lemma {:induction false} ChunksFitFinalType(ty: DataType, nMax: int, src: Source, cells: seq<Cell>)
    ensures var chunks := Run(ty, nMax, src, cells);
            && FinalType(ty, cells, src) == Settle(chunks[|chunks| - 1].ty, src)
            && (forall m :: 0 <= m < |chunks| ==> Grows(chunks[m].ty, FinalType(ty, cells, src)))
            && (forall m, m' :: 0 <= m < |chunks| && 0 <= m' < |chunks| ==>
                  chunks[m].ty == INT64 ==> chunks[m'].ty != REAL)
  {
    RunInvariant(ty, nMax, src, cells);
  }
}
