/** One chunk of a column (src/DbColumnStorage.cpp). The current cell of the source, which the
    original reads from the statement, is an argument here. */
module ColumnStorage {
  import opened ColumnTypes
  import opened ColumnSource
  import opened ColumnModel
  import opened ColumnTheorems

  /** What a stored cell looks like in a vector of type `ty`. */
  function Stored(c: Cell, ty: DataType, src: Source): Slot
    requires ty != UNKNOWN
  {
    if c.Null? then NaOf(ty) else src.Fetch(ty, c)
  }

  class DbColumnStorage {
    const data: array<Slot>
    const dt: DataType
    const nMax: int
    const source: Source
    var i: nat
    ghost var cells: seq<Cell>  // the cells counted by `i`

    ghost function Abs(): Chunk
      reads this
    {
      Chunk(dt, data.Length, cells)
    }

    /** The first `min(i, capacity)` slots hold the cells; rows past the capacity are NULL. */
    ghost predicate Valid()
      reads this, data
    {
      && i == |cells|
      && Abs().Valid()
      && forall k :: 0 <= k < i && k < data.Length ==> data[k] == Stored(cells[k], dt, source)
    }

    /** A valid chunk that stands for `k`. */
    ghost predicate Holds(k: Chunk, nMax: int, source: Source)
      reads this, data
    {
      Valid() && Abs() == k && this.nMax == nMax && this.source == source
    }

    constructor (dt: DataType, capacity: int, nMax: int, source: Source)
      ensures Valid() && fresh(data)
      ensures Abs() == NewChunk(dt, capacity, nMax) && this.dt == dt
      ensures this.nMax == nMax && this.source == source
    {
      this.dt, this.nMax, this.source := dt, nMax, source;
      i, cells := 0, [];
      data := new Slot[if dt == UNKNOWN then 0 else NewCapacity(nMax, capacity)](_ => Uninit);
    }

    /** Counts the current cell, in this chunk or in a new one, which is returned. */
    method AppendCol(c: Cell) returns (next: DbColumnStorage)
      requires Valid()
      modifies this, data
      ensures next.Valid() && next.source == source && next.nMax == nMax
      ensures next.Abs() == AppendCell(old(Abs()), c, nMax, source)
      ensures if Stays(old(Abs()), c, source) then next == this
              else fresh(next) && fresh(next.data) && unchanged(this) && unchanged(data)
    {
      if c.Null? {
        next := AppendNull(c);
      } else {
        next := AppendDataCell(c);
      }
    }

    /** `append_null`: past the capacity only the count goes up. */
    method AppendNull(c: Cell) returns (next: DbColumnStorage)
      requires Valid() && c.Null?
      modifies this, data
      ensures next == this && Valid()
      ensures Abs() == old(Abs()).(cells := old(cells) + [c])
    {
      if i < data.Length { FillDefaultValue(data, dt, i); }
      i, cells := i + 1, cells + [c];
      next := this;
    }

    method AppendDataCell(c: Cell) returns (next: DbColumnStorage)
      requires Valid() && !c.Null?
      modifies this, data
      ensures next.Valid() && next.source == source && next.nMax == nMax
      ensures next.Abs() == AppendData(old(Abs()), c, nMax, source)
      ensures if Stays(old(Abs()), c, source) then next == this
              else fresh(next) && fresh(next.data) && unchanged(this) && unchanged(data)
      decreases Spills(Abs(), c, source), 1
    {
      if dt == UNKNOWN || i >= data.Length {
        next := AppendToNew(dt, c);
        return;
      }
      var newDt := source.ItemType(c);
      if dt == INT && (newDt == INT64 || newDt == REAL) {
        next := AppendToNew(newDt, c);
        return;
      }
      FetchValue(c);
      i, cells := i + 1, cells + [c];
      next := this;
    }

    /** `append_data_to_new`: the spillover either takes the cell or, itself too narrow, is dropped
        untouched for a wider one. */
    method AppendToNew(ty: DataType, c: Cell) returns (next: DbColumnStorage)
      requires Valid() && !c.Null?
      requires dt == UNKNOWN || Abs().Full() || Widens(dt, source.ItemType(c))
      requires ty == if dt == UNKNOWN || Abs().Full() then dt else source.ItemType(c)
      ensures next.Valid() && next.source == source && next.nMax == nMax
      ensures next.Abs() == AppendDataToNew(Abs(), ty, c, nMax, source)
      ensures fresh(next) && fresh(next.data)
      decreases Spills(Abs(), c, source), 0
    {
      var newDt := ty;
      if newDt == UNKNOWN { newDt := source.ItemType(c); }
      var desired := if nMax < 0 then data.Length * 2 else nMax - i;
      var spillover := new DbColumnStorage(newDt, desired, nMax, source);
      next := spillover.AppendDataCell(c);
    }

    /** `fetch_value`. */
    method FetchValue(c: Cell)
      requires Valid() && dt != UNKNOWN && i < data.Length
      modifies data
      ensures data[i] == source.Fetch(dt, c)
      ensures forall k :: 0 <= k < data.Length && k != i ==> data[k] == old(data[k])
    {
      match dt
      case BOOL => data[i] := Lgl(0);
      case INT => data[i] := I32(source.FetchInt(c));
      case INT64 => data[i] := I64(source.FetchInt64(c));
      case REAL => data[i] := Dbl(Num(source.FetchReal(c)));
      case STRING => data[i] := Chr(Some(source.FetchString(c)));
      case BLOB => data[i] := Raw(Some(source.FetchBlob(c)));
      case DATE => data[i] := Dbl(source.FetchDate(c));
      case DATETIME => data[i] := Dbl(source.FetchDatetimeLocal(c));
      case DATETIMETZ => data[i] := Dbl(Num(0.0));
      case TIME => data[i] := Dbl(source.FetchTime(c));
    }

    /** Copies the chunk to `x[pos..]`, reinterpreting it at the column's final type; returns the
        number of rows copied. */
    method CopyTo(x: array<Slot>, ty: DataType, pos: nat) returns (src: nat)
      requires Valid() && x != data && pos <= x.Length
      requires ty != UNKNOWN && Grows(dt, ty)
      modifies x
      ensures src == if |cells| <= x.Length - pos then |cells| else x.Length - pos
      ensures forall k :: 0 <= k < src ==> x[pos + k] == Convert(Arrival(cells[k], dt), ty, source)
      ensures forall k :: 0 <= k < x.Length && (k < pos || pos + src <= k) ==> x[k] == old(x[k])
    {
      src := 0;
      while src < data.Length && src < i && pos + src < x.Length
        invariant src <= i && src <= x.Length - pos && src <= data.Length
        invariant forall k :: 0 <= k < src ==> x[pos + k] == Convert(Arrival(cells[k], dt), ty, source)
        invariant forall k :: 0 <= k < x.Length && (k < pos || pos + src <= k) ==> x[k] == old(x[k])
      {
        CopyValue(x, ty, pos + src, src);
        src := src + 1;
      }
      while src < i && pos + src < x.Length
        invariant src <= i && src <= x.Length - pos
        invariant forall k :: 0 <= k < src ==> x[pos + k] == Convert(Arrival(cells[k], dt), ty, source)
        invariant forall k :: 0 <= k < x.Length && (k < pos || pos + src <= k) ==> x[k] == old(x[k])
      {
        FillDefaultValue(x, ty, pos + src);
        src := src + 1;
      }
    }

    /** `copy_value`. The element is read as what `data` was allocated for: no 64-bit integer is ever
        read as a double or the reverse. */
    method CopyValue(x: array<Slot>, ty: DataType, tgt: nat, src: nat)
      requires Valid() && x != data && tgt < x.Length && src < i && src < data.Length
      requires Grows(dt, ty)
      modifies x
      ensures x[tgt] == Convert(Arrival(cells[src], dt), ty, source)
      ensures forall k :: 0 <= k < x.Length && k != tgt ==> x[k] == old(x[k])
    {
      match ty
      case INT64 =>
        if dt == INT {
          x[tgt] := if data[src].i == NA_INTEGER then I64(NA_INTEGER64) else I64(data[src].i);
        } else {
          x[tgt] := I64(data[src].l);
        }
      case REAL =>
        if dt == INT {
          x[tgt] := if data[src].i == NA_INTEGER then Dbl(NaReal) else Dbl(Num(data[src].i as real));
        } else {
          x[tgt] := Dbl(data[src].d);
        }
      case INT => x[tgt] := I32(data[src].i);
      case BOOL => x[tgt] := Lgl(data[src].b);
      case STRING => x[tgt] := Chr(data[src].s);
      case BLOB => x[tgt] := Raw(data[src].r);
      case DATE | DATETIME | DATETIMETZ | TIME => x[tgt] := Dbl(data[src].d);
      case UNKNOWN => assert false;
    }
  }

  /** `fill_default_value`. */
  method FillDefaultValue(x: array<Slot>, ty: DataType, at: nat)
    requires ty != UNKNOWN && at < x.Length
    modifies x
    ensures x[at] == NaOf(ty)
    ensures forall k :: 0 <= k < x.Length && k != at ==> x[k] == old(x[k])
  {
    match ty
    case BOOL => x[at] := Lgl(NA_LOGICAL);
    case INT => x[at] := I32(NA_INTEGER);
    case INT64 => x[at] := I64(NA_INTEGER64);
    case STRING => x[at] := Chr(None);
    case BLOB => x[at] := Raw(None);
    case REAL | DATE | DATETIME | DATETIMETZ | TIME => x[at] := Dbl(NaReal);
    case UNKNOWN => assert false;
  }
}
