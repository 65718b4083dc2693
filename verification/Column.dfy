/** A column under construction (src/DbColumn.cpp): a growing list of chunks, copied into one R vector
    at the end. */
module Column {
  import opened ColumnTypes
  import opened ColumnSource
  import opened ColumnModel
  import opened ColumnTheorems
  import opened ColumnInference
  import opened ColumnStorage

  class DbColumn {
    const source: Source
    const nMax: int
    const initial: DataType
    var storage: seq<DbColumnStorage>
    var n: nat
    var dataTypesSeen: set<DataType>
    ghost var cells: seq<Cell>  // every cell appended so far
    ghost var chunks: seq<Chunk>  // what `storage` stands for
    ghost var Repr: set<object>

    /** The chunk objects are owned and stand for `chunks`; only the last one will change again, and
        it shares nothing with the others. */
    ghost predicate Holds()
      reads this, Repr
    {
      && this in Repr
      && |storage| == |chunks| > 0
      && (forall m :: 0 <= m < |storage| ==> storage[m] in Repr && storage[m].data in Repr)
      && (forall m :: 0 <= m < |storage| ==> storage[m].Holds(chunks[m], nMax, source))
      && (forall m :: 0 <= m < |storage| - 1 ==>
            storage[m] != storage[|storage| - 1] && storage[m].data != storage[|storage| - 1].data)
    }

    ghost predicate Valid()
      reads this, Repr
      ensures Valid() ==> this in Repr
    {
      && Holds()
      && chunks == Run(initial, nMax, source, cells)
      && n <= |cells|
      && dataTypesSeen == Seen(cells, source)
    }

    /** A BOOL type, which stands for a missing declaration, leaves the column open. */
    constructor (ty: DataType, nMax: int, source: Source)
      ensures Valid() && fresh(Repr)
      ensures initial == ty && this.nMax == nMax && this.source == source
      ensures cells == [] && n == 0
    {
      initial, this.nMax, this.source := ty, nMax, source;
      var first := new DbColumnStorage(if ty == BOOL then UNKNOWN else ty, 0, nMax, source);
      storage := [first];
      n, dataTypesSeen, cells := 0, {}, [];
      chunks := [NewChunk(Start(ty), 0, nMax)];
      Repr := {this, first, first.data};
    }

    /** `set_col_value`. */
    method SetColValue(c: Cell)
      requires Valid()
      modifies Repr
      ensures Valid() && fresh(Repr - old(Repr))
      ensures cells == old(cells) + [c] && n == old(n)
    {
      hide DbColumnStorage.Valid, DbColumnStorage.Abs, Append, Run, Seen;
      var dt := source.ItemType(c);
      SeenSnoc(cells, c, source);
      RunSnoc(initial, nMax, source, cells, c);
      dataTypesSeen, cells := dataTypesSeen + {dt}, cells + [c];
      AppendToLast(c);
    }

    /** The last chunk takes the cell, or a new one is added to the list. */
    method AppendToLast(c: Cell)
      requires Holds()
      modifies Repr
      ensures Holds() && chunks == Append(old(chunks), c, nMax, source)
      ensures fresh(Repr - old(Repr))
      ensures cells == old(cells) && n == old(n) && dataTypesSeen == old(dataTypesSeen)
    {
      hide DbColumnStorage.Valid, DbColumnStorage.Abs, AppendCell, Stays;
      ghost var k := |storage| - 1;
      var last := storage[|storage| - 1];
      var next := last.AppendCol(c);
      assert forall m :: 0 <= m < k ==> storage[m].Holds(chunks[m], nMax, source);
      if last == next {
        chunks := chunks[..k] + [next.Abs()];
      } else {
        assert last.Holds(chunks[k], nMax, source);
        chunks := chunks + [next.Abs()];
        storage := storage + [next];
        Repr := Repr + {next, next.data};
      }
    }

    method Finalize(n: nat)
      requires Valid() && n <= |cells|
      modifies this
      ensures Valid() && this.n == n
      ensures cells == old(cells) && Repr == old(Repr)
    {
      this.n := n;
    }

    /** `get_type`. */
    method GetType() returns (ty: DataType)
      requires Valid()
      ensures ty == FinalType(initial, cells, source)
    {
      RunInvariant(initial, nMax, source, cells);
      ty := storage[|storage| - 1].dt;
      if ty == UNKNOWN { ty := source.declType; }
    }

    /** `warn_type_conflicts`: the types listed in the warning, in the order of the enumeration. */
    method WarnTypeConflicts() returns (listed: seq<DataType>)
      requires Valid()
      ensures listed == Warning(initial, cells, source)
    {
      var dt := GetType();
      var mine := dataTypesSeen;
      if dt == REAL || dt == INT64 { mine := mine - {INT}; }
      mine := mine - {UNKNOWN};
      mine := mine - {BOOL};
      mine := mine - {dt};
      listed := InOrder(mine);
    }

    /** `operator SEXP`: the first `n` rows of the one-pass column. */
    method ToVector() returns (ret: array<Slot>)
      requires Valid()
      ensures fresh(ret) && ret.Length == n
      ensures ret[..] == OnePass(initial, cells, source)[..n]
    {
      hide DbColumnStorage.Valid, Convert, AllRows, Arrivals, OnePass, Run, FinalType, Rows;
      var dt := GetType();
      ReadyToCopy(initial, nMax, source, cells);
      ret := new Slot[n](_ => Uninit);
      CopyChunks(ret, dt, AllRows(chunks));
      ConvertedRows(initial, cells, source, ret[..]);
    }

    /** The position in a vector of length `len` at which chunk `k` starts, if it starts there at all. */
    ghost function ChunkStart(k: nat, len: nat): nat
      requires k <= |chunks|
      reads this`chunks
    {
      if Rows(chunks[..k]) <= len then Rows(chunks[..k]) else len
    }

    /** The first `pos` elements of `ret` are those of the finished column. */
    ghost predicate Copied(ret: array<Slot>, dt: DataType, rows: seq<Arrival>, pos: nat)
      reads ret
    {
      && dt != UNKNOWN && (forall j :: 0 <= j < |rows| ==> rows[j].FitsIn(dt))
      && pos <= ret.Length <= |rows|
      && forall j :: 0 <= j < pos ==> ret[j] == Convert(rows[j], dt, source)
    }

    /** Can every chunk be read back at type `dt`? */
    ghost predicate ChunksFit(dt: DataType)
      reads this`chunks
    {
      forall m :: 0 <= m < |chunks| ==> Grows(chunks[m].ty, dt)
    }

    method CopyChunks(ret: array<Slot>, dt: DataType, ghost rows: seq<Arrival>)
      requires Holds() && ret !in Repr && rows == AllRows(chunks)
      requires Copied(ret, dt, rows, 0) && ChunksFit(dt)
      modifies ret
      ensures Copied(ret, dt, rows, ret.Length)
    {
      hide Convert, AllRows, Copied, ChunksFit, DbColumnStorage.Holds;
      LengthFits(ret, dt, rows);
      var pos := 0;
      for k := 0 to |storage|
        invariant pos == ChunkStart(k, ret.Length)
        invariant Copied(ret, dt, rows, pos)
      {
        hide ChunkStart;
        var copied := CopyChunk(ret, dt, rows, k, pos);
        pos := pos + copied;
      }
      assert chunks[..|storage|] == chunks;
    }

    lemma {:induction false} LengthFits(ret: array<Slot>, dt: DataType, rows: seq<Arrival>)
      requires Copied(ret, dt, rows, 0) && rows == AllRows(chunks)
      ensures ret.Length <= Rows(chunks)
    {
    }

    method CopyChunk(ret: array<Slot>, dt: DataType, ghost rows: seq<Arrival>, k: nat, pos: nat) returns (copied: nat)
      requires Holds() && ret !in Repr && k < |storage| && rows == AllRows(chunks)
      requires pos == ChunkStart(k, ret.Length) && Copied(ret, dt, rows, pos) && ChunksFit(dt)
      modifies ret
      ensures pos + copied == ChunkStart(k + 1, ret.Length)
      ensures Copied(ret, dt, rows, pos + copied)
    {
      hide DbColumnStorage.Valid, Convert, AllRows, Rows;
      RowsUpTo(chunks, k);
      ghost var current, start := chunks[k], Rows(chunks[..k]);
      assert storage[k].cells == current.cells && storage[k].dt == current.ty;
      copied := storage[k].CopyTo(ret, dt, pos);
      assert copied > 0 ==> pos == start;
      forall j | start <= j < start + copied ensures ret[j] == Convert(rows[j], dt, source) {
        RowOfChunk(chunks, k, j - start);
        assert rows[j] == Arrival(current.cells[j - start], current.ty);
        assert ret[pos + (j - start)] == Convert(Arrival(current.cells[j - start], current.ty), dt, source);
      }
    }
  }

  lemma {:induction false} ReadyToCopy(ty: DataType, nMax: int, src: Source, cells: seq<Cell>)
    ensures var chunks, final := Run(ty, nMax, src, cells), FinalType(ty, cells, src);
            && AllRows(chunks) == Arrivals(ty, cells, src)
            && (forall m :: 0 <= m < |chunks| ==> Grows(chunks[m].ty, final))
            && (forall j :: 0 <= j < |cells| ==> AllRows(chunks)[j].FitsIn(final))
  {
    ChunksFitFinalType(ty, nMax, src, cells);
    ChunksHoldArrivals(ty, nMax, src, cells);
  }

  lemma {:induction false} ConvertedRows(ty: DataType, cells: seq<Cell>, src: Source, xs: seq<Slot>)
    requires |xs| <= |cells|
    requires forall j :: 0 <= j < |xs| ==> xs[j] == Convert(Arrivals(ty, cells, src)[j], FinalType(ty, cells, src), src)
    ensures xs == OnePass(ty, cells, src)[..|xs|]
  {
    hide Convert, Arrivals;
  }

  lemma {:induction false} RowsUpTo(chunks: seq<Chunk>, k: nat)
    requires k < |chunks|
    ensures Rows(chunks[..k + 1]) == Rows(chunks[..k]) + |chunks[k].cells| <= Rows(chunks)
    decreases |chunks|
  {
    assert chunks[..k + 1][..k] == chunks[..k];
    if k + 1 == |chunks| {
      assert chunks[..k + 1] == chunks;
    } else {
      RowsUpTo(chunks[..|chunks| - 1], k);
      assert chunks[..|chunks| - 1][..k + 1] == chunks[..k + 1];
      assert chunks[..|chunks| - 1][..k] == chunks[..k];
    }
  }

  /** Where row `j` of chunk `k` ends up. */
  lemma {:induction false} RowOfChunk(chunks: seq<Chunk>, k: nat, j: nat)
    requires k < |chunks| && j < |chunks[k].cells|
    ensures Rows(chunks[..k]) + j < Rows(chunks)
    ensures AllRows(chunks)[Rows(chunks[..k]) + j] == Arrival(chunks[k].cells[j], chunks[k].ty)
    decreases |chunks|
  {
    RowsUpTo(chunks, k);
    if k + 1 < |chunks| {
      RowOfChunk(chunks[..|chunks| - 1], k, j);
      assert chunks[..|chunks| - 1][..k] == chunks[..k];
    }
  }

  lemma {:induction false} RunSnoc(ty: DataType, nMax: int, src: Source, cells: seq<Cell>, c: Cell)
    ensures Run(ty, nMax, src, cells + [c]) == Append(Run(ty, nMax, src, cells), c, nMax, src)
  {
    assert (cells + [c])[..|cells|] == cells;
  }

  lemma {:induction false} SeenSnoc(cells: seq<Cell>, c: Cell, src: Source)
    ensures Seen(cells + [c], src) == Seen(cells, src) + {src.ItemType(c)}
  {
    assert forall x :: x in cells + [c] <==> x in cells || x == c;
  }
}
