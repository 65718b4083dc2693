/** The cursor as its client sees it: rows handed out, rows to come, and column types. */
module CursorModel {
  import opened ColumnTypes
  import opened ColumnSource
  import opened ColumnModel
  import opened DataFrame

  /** Have all parameters the same number of values? */
  predicate SameLengths(params: seq<seq<Cell>>) {
    forall j :: 0 <= j < |params| ==> |params[j]| == |params[0]|
  }

  /** May these column-wise parameters be bound to a statement that takes `nparams`? */
  predicate Acceptable(params: seq<seq<Cell>>, nparams: nat) {
    SameLengths(params) && nparams != 0 && |params| == nparams
  }

  /** Parameter row `g` of column-wise parameters. */
  function ParamRow(params: seq<seq<Cell>>, g: nat): (row: seq<Cell>)
    requires forall j :: 0 <= j < |params| ==> g < |params[j]|
    ensures |row| == |params|
    ensures forall j :: 0 <= j < |params| ==> row[j] == params[j][g]
  {
    seq(|params|, j requires 0 <= j < |params| => params[j][g])
  }

  /** All parameter rows. */
  function ParamRows(params: seq<seq<Cell>>): (rows: seq<seq<Cell>>)
    requires params != [] && SameLengths(params)
    ensures |rows| == |params[0]|
    ensures forall g :: 0 <= g < |rows| ==> rows[g] == ParamRow(params, g)
  {
    seq(|params[0]|, g requires 0 <= g < |params[0]| => ParamRow(params, g))
  }

  /** The rows of all runs, one after the other. */
  function RowsOf(run: seq<Cell> -> seq<Row>, work: seq<seq<Cell>>): seq<Row> {
    if work == [] then [] else run(work[0]) + RowsOf(run, work[1..])
  }

  /** The rows a request for `nMax` rows (all of them, if negative) takes from `pending`. */
  function Batch<T>(pending: seq<T>, nMax: int): (batch: seq<T>)
    ensures batch <= pending
    ensures |batch| == if 0 <= nMax < |pending| then nMax else |pending|
  {
    if nMax < 0 || nMax > |pending| then pending else pending[..nMax]
  }

  datatype Session = Session(pending: seq<Row>, delivered: seq<Row>, types: seq<DataType>)

  /** The column types after a frame of `rows`. */
  function TypesAfter(types: seq<DataType>, sources: seq<Source>, rows: seq<Row>): (tys: seq<DataType>)
    requires |types| == |sources| && forall k :: 0 <= k < |rows| ==> |rows[k]| == |types|
    ensures |tys| == |types|
    ensures forall j :: 0 <= j < |types| ==> tys[j] == FinalType(types[j], ColumnOf(rows, j), sources[j])
  {
    seq(|types|, j requires 0 <= j < |types| => FinalType(types[j], ColumnOf(rows, j), sources[j]))
  }

  ghost predicate Valid(s: Session, sources: seq<Source>) {
    |s.types| == |sources| && HaveWidth(s.pending, |sources|)
  }

  /** `fetch(nMax)`; a request for no rows looks at the next one. */
  ghost function Serve(s: Session, nMax: int, sources: seq<Source>): (s': Session)
    requires Valid(s, sources)
    ensures Valid(s', sources)
  {
    var batch := Batch(s.pending, nMax);
    var seen := Batch(s.pending, if nMax == 0 then 1 else nMax);
    Session(s.pending[|batch|..], s.delivered + batch, TypesAfter(s.types, sources, seen))
  }

  /** Is `frame` the answer to `fetch(nMax)`? */
  ghost predicate Answers(frame: Frame, s: Session, nMax: int, sources: seq<Source>)
    requires Valid(s, sources)
  {
    var batch := Batch(s.pending, nMax);
    var seen := Batch(s.pending, if nMax == 0 then 1 else nMax);
    IsFrameOf(frame, s.types, sources, seen, |batch|)
  }

  /** An answer carries the types `Serve` leaves. */
  lemma {:induction false} FrameTypesServe(s: Session, nMax: int, sources: seq<Source>, frame: Frame)
    requires Valid(s, sources)
    requires Answers(frame, s, nMax, sources)
    ensures frame.types == Serve(s, nMax, sources).types
  {
  }
}
