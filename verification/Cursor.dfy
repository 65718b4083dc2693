/** The result cursor (src/SqliteResultImpl.cpp): it runs the statement once per parameter row, looks one
    row ahead, and hands rows out in batches. */
module Cursor {
  import opened ColumnTypes
  import opened ColumnSource
  import opened ColumnModel
  import opened DataFrame
  import opened CursorModel
  import opened Statement

  datatype FetchError = NotBound
  datatype BindError = UnequalLengths | NoParameters | WrongNumber

  class SqliteResult {
    const stmt: SqliteStmt
    var complete: bool
    var ready: bool
    var nrows: nat
    var params: seq<seq<Cell>>
    var group: nat
    var groups: nat
    var types: seq<DataType>

    ghost var work: seq<seq<Cell>>  // the parameter rows to run since the last bind
    ghost var delivered: seq<Row>  // the rows handed out since the last bind
    ghost var mark: nat  // the length of the statement's log at the last bind

    /** The parameter rows are those of `params`; a statement without parameters is run once. */
    ghost predicate Plan()
      reads this`work, this`params, this`groups
    {
      if stmt.nparams == 0 then work == [[]] && groups == 0
      else
        && |params| == stmt.nparams
        && (forall j :: 0 <= j < |params| ==> |params[j]| == groups)
        && |work| == groups
        && forall g :: 0 <= g < groups ==> work[g] == ParamRow(params, g)
    }

    /** The rows not yet handed out, if `next` rows of the run of `group` have been stepped over. */
    ghost function RowsAfter(next: nat): seq<Row>
      requires group < |work| && next <= |stmt.run(work[group])|
      reads this`work, this`group
    {
      stmt.run(work[group])[next..] + RowsOf(stmt.run, work[group + 1..])
    }

    /** The statement is in the middle of the run of `group`, on a row not handed out yet. */
    ghost predicate OnRow()
      reads this`work, this`group, stmt
    {
      && group < |work|
      && stmt.binding == work[group]
      && 0 < stmt.next <= |stmt.run(work[group])|
    }

    /** The rows not yet handed out. */
    ghost function Pending(): seq<Row>
      reads this`work, this`group, this`complete, stmt
    {
      if complete || !OnRow() then [] else RowsAfter(stmt.next - 1)
    }

    /** Since the last bind, the runs of the first `n` parameter rows have been started, in order, once. */
    ghost predicate Logged(n: nat)
      reads this`work, this`mark, stmt
    {
      n <= |work| && mark <= |stmt.log| && stmt.log[mark..] == work[..n]
    }

    /** The parameter rows whose runs have been started since the last bind: each once, in order. */
    ghost function Started(): seq<seq<Cell>>
      reads this`work, this`group, this`complete
    {
      if complete then work else if group < |work| then work[..group + 1] else []
    }

    /** What the client can observe: the rows to come, the rows handed out, and the column types. */
    ghost function View(): Session
      reads this, stmt
    {
      Session(Pending(), delivered, types)
    }

    ghost predicate Valid()
      reads this, stmt
    {
      InRun() && |types| == |stmt.sources|
    }

    /** All of the invariant that does not concern `types`. */
    ghost predicate InRun()
      reads this`complete, this`ready, this`nrows, this`params, this`group, this`groups, stmt
      reads this`work, this`delivered, this`mark
    {
      && stmt.Valid()
      && (stmt.nparams == 0 ==> ready)
      && (!ready ==> !complete && stmt.next == 0)
      && (ready ==>
            && Plan()
            && (!complete ==> OnRow())
            && delivered + Pending() == RowsOf(stmt.run, work)
            && nrows == |delivered|
            && Logged(if complete then |work| else group + 1))
    }

    /** Prepares the statement, and runs it right away if it takes no parameters. */
    constructor (nparams: nat, sources: seq<Source>, run: seq<Cell> -> seq<Row>)
      requires forall b, k :: 0 <= k < |run(b)| ==> |run(b)[k]| == |sources|
      ensures Valid() && fresh(stmt)
      ensures stmt.nparams == nparams && stmt.sources == sources && stmt.run == run
      ensures types == seq(|sources|, _ => UNKNOWN)
      ensures ready <==> nparams == 0
      ensures ready ==> delivered == [] && Pending() == run([])
      ensures mark == 0 && stmt.log == if ready then Started() else []
    {
      stmt := new SqliteStmt(nparams, sources, run);
      complete, ready, nrows, group, groups, params := false, false, 0, 0, 0, [];
      types := seq(|sources|, _ => UNKNOWN);
      work, delivered, mark := [[]], [], 0;
      new;
      if nparams == 0 {
        AfterBind(true);
        assert work[1..] == [];
      }
    }

    /** `bind`: at any moment, restarts the cursor on new parameters. */
    method Bind(params: seq<seq<Cell>>) returns (r: Result<(), BindError>)
      requires Valid()
      modifies this, stmt
      ensures Valid()
      ensures r.Success? <==> Acceptable(params, stmt.nparams)
      ensures r.Failure? ==> r.error == if !SameLengths(params) then UnequalLengths
                                        else if stmt.nparams == 0 then NoParameters else WrongNumber
      ensures r.Failure? ==> unchanged(this) && unchanged(stmt)
      ensures r.Success? ==>
                && ready && this.params == params && nrows == 0 && delivered == []
                && work == ParamRows(params)
                && |work| == |params[0]|
                && (forall g :: 0 <= g < |work| ==> |work[g]| == |params|)
                && (forall g, j :: 0 <= g < |work| && 0 <= j < |params| ==> work[g][j] == params[j][g])
                && Pending() == RowsOf(stmt.run, work)
                && types == old(types)
                && mark == |old(stmt.log)| && stmt.log == old(stmt.log) + Started()
    {
      hide RowsOf, RowsAfter, Started, OnRow, Logged;
      var same := ValidateParams(params);
      if !same { return Failure(UnequalLengths); }
      if stmt.nparams == 0 { return Failure(NoParameters); }
      if |params| != stmt.nparams { return Failure(WrongNumber); }
      this.params := params;
      groups, group := |params[0]|, 0;
      work, delivered, mark := ParamRows(params), [], |stmt.log|;
      var hasParams := BindRow();
      AfterBind(hasParams);
      return Success(());
    }

    /** `validate_params`. */
    static method ValidateParams(params: seq<seq<Cell>>) returns (same: bool)
      ensures same <==> SameLengths(params)
    {
      var j := 1;
      while j < |params|
        invariant forall m :: 0 <= m < j && m < |params| ==> |params[m]| == |params[0]|
      {
        if |params[j]| != |params[0]| { return false; }
        j := j + 1;
      }
      return true;
    }

    /** `bind_row`: binds the next parameter row, if there is one. */
    method BindRow() returns (more: bool)
      requires stmt.Valid()
      requires group < groups ==> Plan()
      modifies stmt
      ensures stmt.Valid() && stmt.log == old(stmt.log)
      ensures more <==> group < groups
      ensures more ==> stmt.binding == work[group] && stmt.next == 0
      ensures more ==>
                && |stmt.binding| == |params|
                && forall j :: 0 <= j < |params| ==> stmt.binding[j] == params[j][group]
      ensures !more ==> unchanged(stmt)
    {
      if group >= groups { return false; }
      stmt.Rebind(ParamRow(params, group));
      return true;
    }

    /** `after_bind`. */
    method AfterBind(haveRows: bool)
      requires stmt.Valid() && |types| == |stmt.sources| && Plan()
      requires group == 0 && delivered == [] && mark == |stmt.log|
      requires haveRows <==> work != []
      requires haveRows ==> stmt.binding == work[0] && stmt.next == 0
      modifies this, stmt
      ensures Valid() && ready && delivered == [] && nrows == 0
      ensures Pending() == RowsOf(stmt.run, work)
      ensures params == old(params) && groups == old(groups) && types == old(types) && work == old(work)
      ensures mark == old(mark) && stmt.log == old(stmt.log) + Started()
    {
      hide RowsOf, RowsAfter, Plan;
      ready, nrows, complete := true, 0, !haveRows;
      if haveRows {
        RunStarts();
        assert work[0..] == work;
        assert Logged(0);
        Step();
      } else {
        NoRuns();
      }
      LogGrew(old(stmt.log), stmt.log);
      WhereItStands();
    }

    lemma {:induction false} NoRuns()
      requires work == []
      ensures RowsOf(stmt.run, work) == []
    {
    }

    /** `step`: moves the statement to the next row, through as many runs as it takes. */
    method Step()
      requires stmt.Valid() && Plan() && !complete
      requires group < |work| && stmt.binding == work[group]
      requires Logged(if stmt.next == 0 then group else group + 1)
      modifies this`group, this`complete, stmt
      ensures stmt.Valid() && Plan()
      ensures !complete ==> OnRow()
      ensures Pending() == old(RowsAfter(stmt.next))
      ensures Logged(if complete then |work| else group + 1) && old(stmt.log) <= stmt.log
    {
      ghost var goal := RowsAfter(stmt.next);
      var again := true;
      while again
        invariant stmt.Valid() && Plan() && old(stmt.log) <= stmt.log
        invariant again ==>
                    && !complete && group < |work| && stmt.binding == work[group]
                    && Logged(if stmt.next == 0 then group else group + 1)
                    && RowsAfter(stmt.next) == goal
        invariant !again ==>
                    && (!complete ==> OnRow())
                    && Pending() == goal
                    && Logged(if complete then |work| else group + 1)
        decreases |work| - group, again
      {
        again := StepRun();
      }
    }

    /** `step_run`: one `sqlite3_step`; true if a new run has to be stepped into. */
    method StepRun() returns (again: bool)
      requires stmt.Valid() && Plan() && !complete
      requires group < |work| && stmt.binding == work[group]
      requires Logged(if stmt.next == 0 then group else group + 1)
      modifies this`group, this`complete, stmt
      ensures stmt.Valid() && Plan() && old(stmt.log) <= stmt.log
      ensures again ==>
                && !complete && group == old(group) + 1 < |work| && stmt.binding == work[group]
                && Logged(if stmt.next == 0 then group else group + 1)
                && RowsAfter(stmt.next) == old(RowsAfter(stmt.next))
      ensures !again ==>
                && group >= old(group)
                && (!complete ==> OnRow())
                && Pending() == old(RowsAfter(stmt.next))
                && Logged(if complete then |work| else group + 1)
    {
      hide Plan, RowsOf, RowsAfter;
      ghost var g := group;
      LogStep(work, g);
      RunEnds();
      var row := stmt.Step();
      assert Logged(g + 1);
      if row { return false; }
      hide Logged;
      again := StepDone();
      if again { RunStarts(); }
    }

    lemma {:induction false} RunEnds()
      requires group < |work| && stmt.next <= |stmt.run(work[group])|
      ensures stmt.next == |stmt.run(work[group])| ==> RowsAfter(stmt.next) == RowsOf(stmt.run, work[group + 1..])
      ensures group + 1 == |work| ==> RowsOf(stmt.run, work[group + 1..]) == []
    {
    }

    lemma {:induction false} RunStarts()
      requires group < |work|
      ensures RowsAfter(0) == RowsOf(stmt.run, work[group..])
    {
      assert work[group..][1..] == work[group + 1..];
    }

    /** `step_done`: on to the next parameter row. */
    method StepDone() returns (more: bool)
      requires stmt.Valid() && Plan() && !complete && group < |work|
      modifies this`group, this`complete, stmt
      ensures stmt.Valid() && Plan() && stmt.log == old(stmt.log)
      ensures group == old(group) + 1
      ensures more <==> group < |work|
      ensures complete <==> !more
      ensures more ==> stmt.binding == work[group] && stmt.next == 0
      ensures forall n :: old(Logged(n)) ==> Logged(n)
    {
      group := group + 1;
      more := BindRow();
      if !more { complete := true; }
    }

    /** `fetch`: the next `nMax` rows, all of them if negative, or a look at the next row's types if 0. */
    method Fetch(nMax: int) returns (r: Result<Frame, FetchError>)
      requires Valid()
      modifies this, stmt
      ensures Valid()
      ensures r.Failure? <==> !old(ready)
      ensures r.Failure? ==> unchanged(this) && unchanged(stmt)
      ensures r.Success? ==>
                && ready && work == old(work) && mark == old(mark) && old(stmt.log) <= stmt.log
                && CursorModel.Valid(old(View()), stmt.sources)
                && View() == Serve(old(View()), nMax, stmt.sources)
                && Answers(r.value, old(View()), nMax, stmt.sources)
      ensures r.Success? ==>
                && (complete <==> Pending() == [])
                && nrows == |delivered|
                && mark <= |stmt.log| && stmt.log[mark..] == Started()
      ensures nMax == 0 ==> unchanged(stmt) && complete == old(complete) && group == old(group) && nrows == old(nrows)
    {
      hide InRun, View, Serve, Answers, Pending;
      if !ready { return Failure(NotBound); }
      BoundSession();
      var frame;
      if nMax != 0 {
        frame := FetchRows(nMax);
        ServedRows(old(View()), nMax, frame);
      } else {
        frame := PeekFirstRow();
        ServedPeek(old(View()), old(Ahead()), frame);
      }
      WhereItStands();
      return Success(frame);
    }

    lemma {:induction false} BoundSession()
      requires Valid() && ready
      ensures CursorModel.Valid(View(), stmt.sources)
      ensures View().types == types && View().delivered == delivered && View().pending == Pending()
      ensures Ahead() == Batch(Pending(), 1)
    {
      hide InRun;
      PendingWidth();
      AheadIsNextRow();
    }

    lemma {:induction false} ServedRows(before: Session, nMax: int, frame: Frame)
      requires Valid() && ready && nMax != 0 && CursorModel.Valid(before, stmt.sources)
      requires delivered == before.delivered + Batch(before.pending, nMax)
      requires Pending() == before.pending[|Batch(before.pending, nMax)|..]
      requires IsFrameOf(frame, before.types, stmt.sources, Batch(before.pending, nMax), |Batch(before.pending, nMax)|)
      requires types == frame.types
      ensures View() == Serve(before, nMax, stmt.sources) && Answers(frame, before, nMax, stmt.sources)
    {
      hide InRun, Pending, IsFrameOf;
      FrameTypesServe(before, nMax, stmt.sources, frame);
    }

    lemma {:induction false} ServedPeek(before: Session, seen: seq<Row>, frame: Frame)
      requires Valid() && ready && CursorModel.Valid(before, stmt.sources)
      requires delivered == before.delivered && Pending() == before.pending && seen == Batch(before.pending, 1)
      requires IsFrameOf(frame, before.types, stmt.sources, seen, 0)
      requires types == frame.types
      ensures View() == Serve(before, 0, stmt.sources) && Answers(frame, before, 0, stmt.sources)
    {
      hide InRun, Pending, IsFrameOf;
      FrameTypesServe(before, 0, stmt.sources, frame);
    }

    lemma {:induction false} WhereItStands()
      requires Valid() && ready
      ensures complete <==> Pending() == []
      ensures nrows == |delivered|
      ensures mark <= |stmt.log| && stmt.log[mark..] == Started()
    {
      hide Plan, RowsOf;
      assert work[..|work|] == work;
    }

    /** The statement stands on the next row to hand out. */
    lemma {:induction false} NextRow()
      requires Valid() && ready && !complete
      ensures stmt.Valid() && stmt.next > 0
      ensures |stmt.CurrentRow()| == |types| == |stmt.sources|
      ensures OnRow() && Pending() == [stmt.CurrentRow()] + RowsAfter(stmt.next)
    {
      hide Plan, RowsOf;
    }

    lemma {:induction false} PendingWidth()
      requires Valid() && ready
      ensures |types| == |stmt.sources| && HaveWidth(Pending(), |types|)
    {
      hide Plan, OnRow, RowsOf, RowsAfter;
      RowsHaveWidth(stmt.run, work, |types|);
      var all := RowsOf(stmt.run, work);
      forall k | 0 <= k < |Pending()| ensures |Pending()[k]| == |types| {
        assert Pending()[k] == all[|delivered| + k];
      }
    }

    /** Steps over a row that has been handed out. */
    method StepOver()
      requires Valid() && ready && !complete
      modifies this`group, this`complete, this`nrows, this`delivered, stmt
      ensures Valid() && old(stmt.log) <= stmt.log
      ensures old(Pending()) == [old(stmt.CurrentRow())] + Pending()
      ensures delivered == old(delivered) + [old(stmt.CurrentRow())]
    {
      hide RowsOf, RowsAfter, Plan, SqliteStmt.Valid, SqliteStmt.CurrentRow;
      NextRow();
      ghost var row := stmt.CurrentRow();
      Shift(delivered, [row], RowsAfter(stmt.next));
      Step();
      nrows, delivered := nrows + 1, delivered + [row];
    }

    /** `fetch_rows`. */
    method FetchRows(nMax: int) returns (frame: Frame)
      requires Valid() && ready && nMax != 0
      modifies this, stmt
      ensures Valid() && ready && work == old(work) && mark == old(mark) && old(stmt.log) <= stmt.log
      ensures var batch := Batch(old(Pending()), nMax);
              && delivered == old(delivered) + batch
              && Pending() == old(Pending())[|batch|..]
              && HaveWidth(batch, |old(types)|)
              && IsFrameOf(frame, old(types), stmt.sources, batch, |batch|)
      ensures types == frame.types
    {
      hide InRun, Pending, DbDataFrame.Valid, IsFrameOf, SqliteStmt.Valid;
      PendingWidth();
      var data := new DbDataFrame(nMax, types, stmt.sources);
      Fill(data);
      frame := data.GetData();
      types := frame.types;
    }

    /** The loop of `fetch_rows`. */
    method Fill(data: DbDataFrame)
      requires Valid() && ready
      requires data.Valid() && this !in data.Repr && stmt !in data.Repr
      requires data.nMax != 0 && |data.types| == |types| && data.rows == []
      modifies this`group, this`complete, this`nrows, this`delivered, stmt, data.Repr
      ensures Valid() && old(stmt.log) <= stmt.log
      ensures data.Valid() && fresh(data.Repr - old(data.Repr))
      ensures data.rows == Batch(old(Pending()), data.nMax) && data.i == |data.rows|
      ensures delivered == old(delivered) + data.rows
      ensures Pending() == old(Pending())[|data.rows|..]
    {
      hide InRun, DbDataFrame.Valid, RowsAfter, OnRow, SqliteStmt.Valid;
      ghost var all, before := Pending(), delivered;
      while !complete
        invariant Valid() && ready
        invariant data.Valid() && fresh(data.Repr - old(data.Repr)) && this !in data.Repr && stmt !in data.Repr
        invariant data.i == |data.rows| && (data.nMax < 0 || data.i < data.nMax)
        invariant delivered == before + data.rows && old(stmt.log) <= stmt.log
        invariant data.rows + Pending() == all
        decreases |Pending()|
      {
        ghost var taken := data.rows;
        var row, more := TakeRow(data);
        Shift(taken, [row], Pending());
        Shift(before, taken, [row]);
        if !more { break; }
      }
    }

    /** One round of that loop; may more rows follow? */
    method TakeRow(data: DbDataFrame) returns (row: Row, more: bool)
      requires Valid() && ready && !complete
      requires data.Valid() && this !in data.Repr && stmt !in data.Repr
      requires |data.types| == |types| && data.i == |data.rows|
      modifies this`group, this`complete, this`nrows, this`delivered, stmt, data.Repr
      ensures Valid() && old(stmt.log) <= stmt.log
      ensures data.Valid() && fresh(data.Repr - old(data.Repr))
      ensures data.i == |data.rows| && data.rows == old(data.rows) + [row]
      ensures old(Pending()) == [row] + Pending()
      ensures delivered == old(delivered) + [row]
      ensures more <==> data.nMax < 0 || data.i < data.nMax
    {
      hide InRun, DbDataFrame.Valid, RowsAfter, OnRow, SqliteStmt.Valid, SqliteStmt.CurrentRow;
      NextRow();
      row := stmt.CurrentRow();
      data.SetColValues(row);
      StepOver();
      more := data.Advance();
    }

    /** What a peek looks at: the values the statement currently has, if it has not completed. */
    ghost function Ahead(): (seen: seq<Row>)
      requires Valid()
      reads this, stmt
      ensures HaveWidth(seen, |types|)
    {
      if complete then [] else [stmt.CurrentRow()]
    }

    lemma {:induction false} AheadIsNextRow()
      requires Valid() && ready
      ensures Ahead() == Batch(Pending(), 1)
    {
      hide InRun, RowsAfter, OnRow;
      if !complete { NextRow(); }
    }

    lemma {:induction false} AheadIsNull()
      requires Valid() && !ready
      ensures |Ahead()| == 1 && forall j :: 0 <= j < |types| ==> Ahead()[0][j].Null?
    {
    }

    /** `peek_first_row`: sets the current values in a frame that stays empty. */
    method PeekFirstRow() returns (frame: Frame)
      requires Valid()
      modifies this`types
      ensures Valid() && Pending() == old(Pending())
      ensures HaveWidth(old(Ahead()), |old(types)|)
      ensures IsFrameOf(frame, old(types), stmt.sources, old(Ahead()), 0)
      ensures types == frame.types
    {
      hide InRun, DbDataFrame.Valid, DbDataFrame.Separate, RowsAfter, OnRow, IsFrameOf, SqliteStmt.CurrentRow;
      ghost var seen := Ahead();
      assert stmt.Valid() by { StatementIsValid(); }
      var data := new DbDataFrame(1, types, stmt.sources);
      if !complete { data.SetColValues(stmt.CurrentRow()); }
      assert data.rows == seen;
      frame := data.GetData();
      types := frame.types;
    }

    lemma {:induction false} StatementIsValid()
      requires InRun()
      ensures stmt.Valid()
    {
    }

    /** `get_column_info`, the types only. It may be called before the first bind; the columns that are
        still open then settle on their declarations. */
    method GetColumnInfo() returns (info: seq<string>)
      requires Valid()
      modifies this`types
      ensures Valid()
      ensures ready ==>
                && CursorModel.Valid(old(View()), stmt.sources)
                && View() == Serve(old(View()), 0, stmt.sources)
      ensures !ready ==> |types| == |old(types)| == |stmt.sources|
      ensures !ready ==> forall j :: 0 <= j < |types| ==> types[j] == Settle(Start(old(types[j])), stmt.sources[j])
      ensures |info| == |types| && forall j :: 0 <= j < |info| ==> info[j] == InfoName(types[j])
    {
      hide InRun, IsFrameOf, Pending, View, Serve, Answers, SqliteStmt.CurrentRow;
      ghost var before, seen := View(), Ahead();
      if ready {
        BoundSession();
      } else {
        AheadIsNull();
      }
      var frame := PeekFirstRow();
      if ready {
        ServedPeek(before, seen, frame);
      } else {
        NullsSettle(old(types), stmt.sources, seen, frame);
      }
      var tys := types;
      info := seq(|tys|, j requires 0 <= j < |tys| => InfoName(tys[j]));
    }
  }

  /** The R type names in a column description. */
  function InfoName(ty: DataType): string {
    match ty
    case DATE => "Date"
    case DATETIME => "POSIXct"
    case TIME => "hms"
    case UNKNOWN => "NULL"
    case BOOL => "logical"
    case INT => "integer"
    case STRING => "character"
    case BLOB => "list"
    case INT64 | REAL | DATETIMETZ => "double"
  }

  /** The name is that of the R type of every element the column can have, unless its class gives a name. */
  lemma {:induction false} InfoNameFits(ty: DataType, x: Slot)
    requires HasKind(x, ty)
    ensures ty != DATE && ty != DATETIME && ty != TIME ==>
              InfoName(ty) == match x
                              case Lgl(_) => "logical"
                              case I32(_) => "integer"
                              case I64(_) => "double"
                              case Dbl(_) => "double"
                              case Chr(_) => "character"
                              case Raw(_) => "list"
                              case Uninit => "NULL"
    ensures InfoName(DATE) == "Date" && InfoName(DATETIME) == "POSIXct" && InfoName(TIME) == "hms"
  {
  }

  /** A row of NULLs leaves every column on its type so far, or on its declaration. */
  lemma {:induction false} NullsSettle(types: seq<DataType>, sources: seq<Source>, seen: seq<Row>, frame: Frame)
    requires |types| == |sources| && HaveWidth(seen, |types|) && |seen| == 1
    requires forall j :: 0 <= j < |types| ==> seen[0][j].Null?
    requires IsFrameOf(frame, types, sources, seen, 0)
    ensures |frame.types| == |types|
    ensures forall j :: 0 <= j < |types| ==> frame.types[j] == Settle(Start(types[j]), sources[j])
  {
    forall j | 0 <= j < |types| ensures frame.types[j] == Settle(Start(types[j]), sources[j]) {
      var cells := ColumnOf(seen, j);
      assert cells == [seen[0][j]] && cells[..0] == [];
      assert TypeAfter(Start(types[j]), cells, sources[j]) == Start(types[j]);
    }
  }

  lemma {:induction false} Shift<T>(a: seq<T>, b: seq<T>, c: seq<T>)
    ensures (a + b) + c == a + (b + c)
  {
  }

  lemma {:induction false} LogGrew<T>(before: seq<T>, log: seq<T>)
    requires before <= log
    ensures log == before + log[|before|..]
  {
  }

  lemma {:induction false} LogStep<T>(work: seq<T>, g: nat)
    requires g < |work|
    ensures work[..g] + [work[g]] == work[..g + 1]
    ensures g + 1 == |work| ==> work[..g + 1] == work
  {
  }

  lemma {:induction false} RowsHaveWidth(run: seq<Cell> -> seq<Row>, work: seq<seq<Cell>>, width: nat)
    requires forall b, k :: 0 <= k < |run(b)| ==> |run(b)[k]| == width
    ensures HaveWidth(RowsOf(run, work), width)
    decreases |work|
  {
    if work != [] { RowsHaveWidth(run, work[1..], width); }
  }
}
