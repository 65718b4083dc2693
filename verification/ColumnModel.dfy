/** A column as a list of chunks, and what it stands for. The functions up to `Run` follow the
    decisions of src/DbColumnStorage.cpp and src/DbColumn.cpp on values; `OnePass` says what the
    finished column must be, without chunks and capacities. */
module ColumnModel {
  import opened ColumnTypes
  import opened ColumnSource

  // ----- Chunks

  /** `cells` are the cells counted by `i`; only those below `cap` have been stored. */
  datatype Chunk = Chunk(ty: DataType, cap: nat, cells: seq<Cell>) {
    predicate Full() {
      |cells| >= cap
    }

    /** Rows counted but not stored are NULL, and a chunk of unknown type stores nothing. */
    ghost predicate Valid() {
      && (ty == UNKNOWN <==> cap == 0)
      && forall j :: cap <= j < |cells| ==> cells[j].Null?
    }
  }

  function NewCapacity(nMax: int, desired: int): (cap: nat)
    ensures cap > 0
  {
    if nMax < 0 then (if desired < 100 then 100 else desired)
    else (if desired < 1 then 1 else desired)
  }

  /** The constructor; a vector of unknown type (NILSXP) has length 0 whatever was asked for. */
  function NewChunk(ty: DataType, desired: int, nMax: int): (k: Chunk)
    ensures k.Valid()
  {
    Chunk(ty, if ty == UNKNOWN then 0 else NewCapacity(nMax, desired), [])
  }

  function DesiredCapacity(k: Chunk, nMax: int): int {
    if nMax < 0 then k.cap * 2 else nMax - |k.cells|
  }

  /** How many more spills storing `c` takes. */
  function Spills(k: Chunk, c: Cell, src: Source): nat {
    if k.ty == UNKNOWN || k.Full() then 2 else if Widens(k.ty, src.ItemType(c)) then 1 else 0
  }

  /** `append_data`: the chunk that takes the non-NULL cell `c` when `k` is the last one. */
  function AppendData(k: Chunk, c: Cell, nMax: int, src: Source): Chunk
    requires !c.Null?
    decreases Spills(k, c, src), 1
  {
    if k.ty == UNKNOWN || k.Full() then AppendDataToNew(k, k.ty, c, nMax, src)
    else if Widens(k.ty, src.ItemType(c)) then AppendDataToNew(k, src.ItemType(c), c, nMax, src)
    else k.(cells := k.cells + [c])
  }

  /** `append_data_to_new`. */
  function AppendDataToNew(k: Chunk, ty: DataType, c: Cell, nMax: int, src: Source): Chunk
    requires !c.Null?
    requires k.ty == UNKNOWN || k.Full() || Widens(k.ty, src.ItemType(c))
    requires ty == if k.ty == UNKNOWN || k.Full() then k.ty else src.ItemType(c)
    decreases Spills(k, c, src), 0
  {
    var newTy := if ty == UNKNOWN then src.ItemType(c) else ty;
    AppendData(NewChunk(newTy, DesiredCapacity(k, nMax), nMax), c, nMax, src)
  }

  /** `append_col`: the chunk that takes `c` when `k` is the last one. */
  function AppendCell(k: Chunk, c: Cell, nMax: int, src: Source): Chunk {
    if c.Null? then k.(cells := k.cells + [c]) else AppendData(k, c, nMax, src)
  }

  /** Is that chunk `k` itself? */
  predicate Stays(k: Chunk, c: Cell, src: Source) {
    c.Null? || Spills(k, c, src) == 0
  }

  // ----- Chunk lists

  function Start(ty: DataType): DataType {
    if ty == BOOL then UNKNOWN else ty
  }

  /** `set_col_value`: a chunk other than the last one is appended to the list. */
  function Append(chunks: seq<Chunk>, c: Cell, nMax: int, src: Source): seq<Chunk>
    requires chunks != []
  {
    var n := |chunks| - 1;
    var next := AppendCell(chunks[n], c, nMax, src);
    if Stays(chunks[n], c, src) then chunks[..n] + [next] else chunks + [next]
  }

  /** The chunk list of a column created with type `ty` after `cells` have been appended. */
  function Run(ty: DataType, nMax: int, src: Source, cells: seq<Cell>): (chunks: seq<Chunk>)
    ensures chunks != []
  {
    if cells == [] then [NewChunk(Start(ty), 0, nMax)]
    else Append(Run(ty, nMax, src, cells[..|cells| - 1]), cells[|cells| - 1], nMax, src)
  }

  function Rows(chunks: seq<Chunk>): nat {
    if chunks == [] then 0 else Rows(chunks[..|chunks| - 1]) + |chunks[|chunks| - 1].cells|
  }

  // ----- The one-pass specification

  /** How a column's type reacts to one cell. */
  function TypeStep(t: DataType, c: Cell, src: Source): DataType {
    if c.Null? then t
    else if t == UNKNOWN || Widens(t, src.ItemType(c)) then src.ItemType(c)
    else t
  }

  function TypeAfter(t: DataType, cells: seq<Cell>, src: Source): DataType {
    if cells == [] then t
    else TypeStep(TypeAfter(t, cells[..|cells| - 1], src), cells[|cells| - 1], src)
  }

  /** `get_data_type` of a column: an unknown type is settled by the declaration. */
  function Settle(t: DataType, src: Source): (ty: DataType)
    ensures ty != UNKNOWN
  {
    if t == UNKNOWN then src.declType else t
  }

  function FinalType(ty: DataType, cells: seq<Cell>, src: Source): (final: DataType)
    ensures final != UNKNOWN
  {
    Settle(TypeAfter(Start(ty), cells, src), src)
  }

  /** The only way a type may change over the life of a column. */
  predicate Grows(from: DataType, to: DataType) {
    from == UNKNOWN || from == to || Widens(from, to)
  }

  /** A cell together with the type in force when it was appended. */
  datatype Arrival = Arrival(c: Cell, ty: DataType) {
    predicate FitsIn(final: DataType) {
      Grows(ty, final) && (ty == UNKNOWN ==> c.Null?)
    }
  }

  /** A cell in a column of final type `final`: NULL becomes NA, and any other cell is converted at the
      type in force when it arrived and then widened. */
  function Convert(row: Arrival, final: DataType, src: Source): (x: Slot)
    requires final != UNKNOWN && row.FitsIn(final)
    ensures HasKind(x, final)
  {
    if row.c.Null? then NaOf(final) else Widen(src.Fetch(row.ty, row.c), row.ty, final)
  }

  function Arrivals(ty: DataType, cells: seq<Cell>, src: Source): (rows: seq<Arrival>)
    ensures |rows| == |cells|
    ensures forall k :: 0 <= k < |rows| ==>
              rows[k].c == cells[k] && rows[k].FitsIn(TypeAfter(Start(ty), cells, src))
  {
    if cells == [] then []
    else
      var n := |cells| - 1;
      Arrivals(ty, cells[..n], src) + [Arrival(cells[n], TypeAfter(Start(ty), cells, src))]
  }

  /** The column that R must get. */
  function OnePass(ty: DataType, cells: seq<Cell>, src: Source): (xs: seq<Slot>)
    ensures |xs| == |cells|
  {
    var rows, final := Arrivals(ty, cells, src), FinalType(ty, cells, src);
    seq(|cells|, k requires 0 <= k < |cells| => Convert(rows[k], final, src))
  }
}
