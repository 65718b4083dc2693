/** A data frame under construction (src/DbDataFrame.cpp): one column per result column, a row counter,
    and the row limit. */
module DataFrame {
  import opened ColumnTypes
  import opened ColumnSource
  import opened ColumnModel
  import opened ColumnInference
  import opened Column

  type Row = seq<Cell>

  /** What R receives: columns, their types, and for each the types a mixed-type warning lists. */
  datatype Frame = Frame(columns: seq<seq<Slot>>, types: seq<DataType>, warnings: seq<seq<DataType>>, nrows: nat)

  ghost predicate HaveWidth(rows: seq<Row>, width: nat) {
    forall k :: 0 <= k < |rows| ==> |rows[k]| == width
  }

  /** Column `j` of some rows. */
  function ColumnOf(rows: seq<Row>, j: nat): (cells: seq<Cell>)
    requires forall k :: 0 <= k < |rows| ==> j < |rows[k]|
    ensures |cells| == |rows|
    ensures forall k :: 0 <= k < |rows| ==> cells[k] == rows[k][j]
  {
    seq(|rows|, k requires 0 <= k < |rows| => rows[k][j])
  }

  lemma {:induction false} ColumnOfSnoc(rows: seq<Row>, row: Row, j: nat)
    requires j < |row| && forall k :: 0 <= k < |rows| ==> j < |rows[k]|
    ensures ColumnOf(rows + [row], j) == ColumnOf(rows, j) + [row[j]]
  {
  }

  /** The frame of the first `n` of `rows`, every column in one pass; the rows past `n` have been looked
      at, but not delivered. */
  ghost predicate IsFrameOf(frame: Frame, types: seq<DataType>, sources: seq<Source>, rows: seq<Row>, n: nat)
    requires |types| == |sources| && HaveWidth(rows, |types|) && n <= |rows|
  {
    && |frame.columns| == |frame.types| == |frame.warnings| == |types|
    && frame.nrows == n
    && forall j :: 0 <= j < |types| ==>
         && frame.columns[j] == OnePass(types[j], ColumnOf(rows, j), sources[j])[..n]
         && frame.types[j] == FinalType(types[j], ColumnOf(rows, j), sources[j])
         && frame.warnings[j] == Warning(types[j], ColumnOf(rows, j), sources[j])
  }

  class DbDataFrame {
    const nMax: int
    ghost const types: seq<DataType>
    ghost const sources: seq<Source>
    var i: nat
    var data: seq<DbColumn>
    ghost var rows: seq<Row>  // the rows whose values have been set
    ghost var Repr: set<object>

    /** The columns are valid and share nothing. */
    ghost predicate Separate()
      reads this, Repr
    {
      && this in Repr
      && (forall j :: 0 <= j < |data| ==> data[j] in Repr && data[j].Repr <= Repr && this !in data[j].Repr)
      && (forall j :: 0 <= j < |data| ==> data[j].Valid())
      && (forall j, j' :: 0 <= j < j' < |data| ==> data[j].Repr !! data[j'].Repr)
    }

    ghost predicate Valid()
      reads this, Repr
      ensures Valid() ==> this in Repr && i <= |rows|
    {
      && Separate()
      && |data| == |types| == |sources|
      && HaveWidth(rows, |types|)
      && i <= |rows|
      && forall j :: 0 <= j < |data| ==>
           && data[j].initial == types[j] && data[j].nMax == nMax && data[j].source == sources[j]
           && data[j].cells == ColumnOf(rows, j)
    }

    constructor (nMax: int, types: seq<DataType>, sources: seq<Source>)
      requires |types| == |sources|
      ensures Valid() && fresh(Repr)
      ensures this.nMax == nMax && this.types == types && this.sources == sources
      ensures rows == [] && i == 0
    {
      this.nMax, this.types, this.sources := nMax, types, sources;
      i, rows, data := 0, [], [];
      Repr := {this};
      new;
      for j := 0 to |types|
        invariant Separate() && fresh(Repr)
        invariant |data| == j && i == 0 && rows == []
        invariant forall m :: 0 <= m < j ==> IsNew(data[m], types[m], sources[m])
      {
        hide Separate, IsNew;
        AddColumn(types[j], sources[j]);
      }
    }

    ghost predicate IsNew(x: DbColumn, ty: DataType, source: Source)
      reads x
    {
      x.initial == ty && x.nMax == nMax && x.source == source && x.cells == []
    }

    method AddColumn(ty: DataType, source: Source)
      requires Separate()
      modifies this
      ensures Separate() && fresh(Repr - old(Repr)) && i == old(i) && rows == old(rows)
      ensures |data| == |old(data)| + 1 && data[..|data| - 1] == old(data) && IsNew(data[|data| - 1], ty, source)
    {
      hide DbColumn.Valid;
      var x := new DbColumn(ty, nMax, source);
      data := data + [x];
      Repr := Repr + x.Repr;
    }

    method SetOne(j: nat, c: Cell)
      requires Separate() && j < |data|
      modifies Repr
      ensures Separate() && fresh(Repr - old(Repr))
      ensures data == old(data) && rows == old(rows) && i == old(i)
      ensures data[j].cells == old(data[j].cells) + [c]
      ensures forall m :: 0 <= m < |data| && m != j ==> data[m].cells == old(data[m].cells)
    {
      hide DbColumn.Valid;
      data[j].SetColValue(c);
      assert forall m :: 0 <= m < |data| && m != j ==> data[m].Repr == old(data[m].Repr) && data[m].Valid();
      Repr := Repr + data[j].Repr;
    }

    /** `set_col_values`: one cell of the current row into every column. */
    method SetColValues(row: Row)
      requires Valid() && |row| == |types|
      modifies Repr
      ensures Valid() && fresh(Repr - old(Repr))
      ensures rows == old(rows) + [row] && i == old(i)
    {
      hide DbColumn.Valid;
      for j := 0 to |data|
        invariant Separate() && fresh(Repr - old(Repr))
        invariant data == old(data) && rows == old(rows) && i == old(i)
        invariant forall m :: 0 <= m < |data| ==>
                    data[m].cells == old(data[m].cells) + (if m < j then [row[m]] else [])
      {
        hide Separate;
        SetOne(j, row[j]);
      }
      ghost var before := rows;
      rows := rows + [row];
      forall j | 0 <= j < |data| ensures data[j].cells == ColumnOf(rows, j) {
        ColumnOfSnoc(before, row, j);
      }
    }

    /** `advance`: may more rows follow? */
    method Advance() returns (more: bool)
      requires Valid() && i < |rows|
      modifies this
      ensures Valid() && Repr == old(Repr)
      ensures i == old(i) + 1 && rows == old(rows)
      ensures more <==> nMax < 0 || i < nMax
    {
      i := i + 1;
      more := nMax < 0 || i < nMax;
    }

    method FinalizeOne(j: nat)
      requires Separate() && j < |data| && i <= |data[j].cells|
      modifies Repr
      ensures Separate() && Repr == old(Repr)
      ensures data == old(data) && rows == old(rows) && i == old(i)
      ensures data[j].n == i
      ensures forall m :: 0 <= m < |data| ==> data[m].cells == old(data[m].cells)
      ensures forall m :: 0 <= m < |data| && m != j ==> data[m].n == old(data[m].n)
    {
      hide DbColumn.Valid;
      data[j].Finalize(i);
      assert forall m :: 0 <= m < |data| && m != j ==> data[m].Repr == old(data[m].Repr) && data[m].Valid();
    }

    /** `finalize_cols`. */
    method FinalizeCols()
      requires Valid()
      modifies Repr
      ensures Valid() && Repr == old(Repr) && data == old(data) && rows == old(rows) && i == old(i)
      ensures forall j :: 0 <= j < |data| ==> data[j].n == i
    {
      for j := 0 to |data|
        invariant Separate() && Repr == old(Repr)
        invariant data == old(data) && rows == old(rows) && i == old(i)
        invariant forall m :: 0 <= m < |data| ==> data[m].cells == old(data[m].cells)
        invariant forall m :: 0 <= m < j ==> data[m].n == i
      {
        hide Separate;
        FinalizeOne(j);
      }
    }

    /** `get_data`. */
    method GetData() returns (frame: Frame)
      requires Valid()
      modifies Repr
      ensures Valid() && rows == old(rows) && i == old(i) && Repr == old(Repr)
      ensures IsFrameOf(frame, types, sources, rows, i)
    {
      FinalizeCols();
      frame := Collect();
    }

    /** Types, warnings and vectors of the finalized columns. */
    method Collect() returns (frame: Frame)
      requires Valid() && forall j :: 0 <= j < |data| ==> data[j].n == i
      ensures IsFrameOf(frame, types, sources, rows, i)
    {
      hide DbColumn.Valid, OnePass, FinalType, Warning;
      var columns: seq<seq<Slot>>, tys: seq<DataType>, warnings: seq<seq<DataType>> := [], [], [];
      for j := 0 to |data|
        invariant |columns| == |tys| == |warnings| == j
        invariant forall m :: 0 <= m < j ==>
                    && columns[m] == OnePass(types[m], ColumnOf(rows, m), sources[m])[..i]
                    && tys[m] == FinalType(types[m], ColumnOf(rows, m), sources[m])
                    && warnings[m] == Warning(types[m], ColumnOf(rows, m), sources[m])
      {
        var ty := data[j].GetType();
        var listed := data[j].WarnTypeConflicts();
        var x := data[j].ToVector();
        columns, tys, warnings := columns + [x[..]], tys + [ty], warnings + [listed];
      }
      frame := Frame(columns, tys, warnings, i);
    }
  }
}
