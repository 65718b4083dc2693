/** A prepared statement, reduced to what the cursor relies on: it is run with bound parameters, and
    stepping through a run yields its rows one at a time. */
module Statement {
  import opened ColumnTypes
  import opened ColumnSource
  import opened DataFrame

  class SqliteStmt {
    const nparams: nat
    const sources: seq<Source>  // one per result column
    const run: seq<Cell> -> seq<Row>  // the rows a run yields for bound parameters
    var binding: seq<Cell>
    var next: nat  // rows yielded by the current run; 0 before its first step
    ghost var log: seq<seq<Cell>>  // the parameters of every run started

    ghost predicate Valid()
      reads this
    {
      && (forall b, k :: 0 <= k < |run(b)| ==> |run(b)[k]| == |sources|)
      && next <= |run(binding)|
    }

    constructor (nparams: nat, sources: seq<Source>, run: seq<Cell> -> seq<Row>)
      requires forall b, k :: 0 <= k < |run(b)| ==> |run(b)[k]| == |sources|
      ensures Valid() && this.nparams == nparams && this.sources == sources && this.run == run
      ensures binding == [] && next == 0 && log == []
    {
      this.nparams, this.sources, this.run := nparams, sources, run;
      binding, next, log := [], 0, [];
    }

    /** `sqlite3_step`: is there another row? A step after the last row starts a new run. */
    method Step() returns (row: bool)
      requires Valid()
      modifies this
      ensures Valid() && binding == old(binding)
      ensures log == old(log) + (if old(next) == 0 then [binding] else [])
      ensures row <==> old(next) < |run(binding)|
      ensures next == if row then old(next) + 1 else 0
    {
      if next == 0 { log := log + [binding]; }
      row := next < |run(binding)|;
      next := if row then next + 1 else 0;
    }

    /** `sqlite3_reset`, `sqlite3_clear_bindings` and one `sqlite3_bind_*` call per parameter. */
    method Rebind(values: seq<Cell>)
      requires Valid()
      modifies this
      ensures Valid() && binding == values && next == 0 && log == old(log)
    {
      binding, next := values, 0;
    }

    /** The values of `sqlite3_column_*`: NULLs if the statement is not on a row. */
    function CurrentRow(): (row: Row)
      requires Valid()
      reads this
      ensures |row| == |sources|
      ensures next == 0 ==> forall j :: 0 <= j < |row| ==> row[j].Null?
    {
      if next == 0 then seq(|sources|, _ => Null) else run(binding)[next - 1]
    }
  }
}
