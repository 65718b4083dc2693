/** The savepoint protocol of dbWriteTable and dbAppendTable, with failures: any statement, and any step
    of R code in between, may fail, and `on.exit` handlers run when one does. */
module WriteTable {
  import opened ColumnTypes
  import opened LineModel
  import opened ImportFile
  import opened Transactions

  datatype Table = Table(fields: seq<string>, rows: seq<seq<Cell>>)

  /** The tables of a database, by name in lower case. */
  type Content = map<string, Table>

  function AddRows(content: Content, key: string, rows: seq<seq<Cell>>): Content
    requires key in content
  {
    content[key := Table(content[key].fields, content[key].rows + rows)]
  }

  lemma {:induction false} AddNoRows(content: Content, key: string)
    requires key in content
    ensures AddRows(content, key, []) == content
  {
    assert content[key].rows + [] == content[key].rows;
  }

  lemma {:induction false} AddRowsTwice(content: Content, key: string, a: seq<seq<Cell>>, b: seq<seq<Cell>>)
    requires key in content
    ensures AddRows(AddRows(content, key, a), key, b) == AddRows(content, key, a + b)
  {
    assert (content[key].rows + a) + b == content[key].rows + (a + b);
  }

  /** The content after a successful write: the rows are appended, or the table is exactly the new one. */
  function WrittenContent(content: Content, key: string, value: Table, append: bool): Content {
    if key in content && append then AddRows(content, key, value.rows) else content[key := value]
  }

  /** Only that table changes. */
  lemma {:induction false} OtherTablesStay(content: Content, key: string, value: Table, append: bool)
    ensures var written := WrittenContent(content, key, value, append);
            && written.Keys == content.Keys + {key}
            && (forall other :: other in content && other != key ==> written[other] == content[other])
            && (append && key in content ==>
                  written[key] == Table(content[key].fields, content[key].rows + value.rows))
            && (!append || key !in content ==> written[key] == value)
  {
  }

  /** Creating the table empty, in place of the old one if there was one, and then adding the rows. */
  lemma {:induction false} CreateThenAdd(content: Content, key: string, value: Table)
    ensures AddRows((content - {key})[key := Table(value.fields, [])], key, value.rows) == content[key := value]
    ensures AddRows(content[key := Table(value.fields, [])], key, value.rows) == content[key := value]
  {
    assert [] + value.rows == value.rows;
    assert (content - {key})[key := value] == content[key := value];
  }

  /** `get_savepoint_id`. */
  function SavepointId(name: string, pid: string, random: string): string {
    name + "_" + pid + "_" + random
  }

  /** Its parts can be read off, so savepoints of one function agree only within one process and for the
      same random letters, if these are equally many. */
  lemma {:induction false} SavepointIdParts(name: string, pid: string, r: string, pid': string, r': string)
    ensures var id := SavepointId(name, pid, r);
            && |id| == |name| + |pid| + |r| + 2
            && id[..|name|] == name && id[|name|] == '_'
            && id[|name| + 1..|name| + 1 + |pid|] == pid && id[|name| + 1 + |pid|] == '_'
            && id[|name| + |pid| + 2..] == r
    ensures |r| == |r'| && SavepointId(name, pid, r) == SavepointId(name, pid', r') ==> pid == pid' && r == r'
  {
    var id, id' := SavepointId(name, pid, r), SavepointId(name, pid', r');
    assert id'[|name| + 1..|name| + 1 + |pid'|] == pid' && id'[|name| + |pid'| + 2..] == r';
  }

  /** Whatever the process and the random letters, the two functions' savepoints differ. */
  lemma {:induction false} SavepointIdsDiffer(pid: string, r: string, pid': string, r': string)
    ensures Fold(SavepointId("dbWriteTable", pid, r)) != Fold(SavepointId("dbAppendTable", pid', r'))
  {
    assert SavepointId("dbWriteTable", pid, r)[2] == 'W';
    assert SavepointId("dbAppendTable", pid', r')[2] == 'A';
    assert Fold(SavepointId("dbWriteTable", pid, r))[2] == 'w';
    assert Fold(SavepointId("dbAppendTable", pid', r'))[2] == 'a';
  }

  /** `Undone`: an error, with the database as before. `LeftOpen`: an error, with the function's own
      savepoint still on the stack. */
  datatype Outcome = Succeeded | Undone | LeftOpen

  /** `stack` is `base` with savepoints of one name on top. */
  ghost predicate Above(base: seq<Frame<Content>>, stack: seq<Frame<Content>>, name: string) {
    base <= stack && forall k :: |base| <= k < |stack| ==> IsNamed(stack[k], name)
  }

  /** Does one of the steps `from`, ..., `to - 1` fail? */
  ghost predicate Faulted(fault: nat -> bool, from: nat, to: nat) {
    exists n: nat :: from <= n < to && fault(n)
  }

  ghost predicate AtMostOneFault(fault: nat -> bool, from: nat, to: nat) {
    forall m: nat, n: nat :: from <= m < n < to && fault(m) ==> !fault(n)
  }

  /** May the table be written at all? */
  predicate Allows(content: Content, key: string, overwrite: bool, append: bool) {
    !(overwrite && append) && (key !in content || overwrite || append)
  }

  /** `stack` still has everything that was there before the savepoint `id`, and that savepoint. */
  ghost predicate StillOpen(before: Db<Content>, stack: seq<Frame<Content>>, id: string) {
    && |stack| > |before.stack|
    && stack[..|before.stack|] == before.stack
    && stack[|before.stack|] == Saved(id, before.working)
  }

  class Connection {
    var db: Db<Content>
    const fault: nat -> bool  // does the n-th step on this connection fail?
    var clock: nat

    constructor (db: Db<Content>, fault: nat -> bool)
      ensures this.db == db && this.fault == fault && clock == 0
    {
      this.db, this.fault, clock := db, fault, 0;
    }

    /** One SQL statement; if it fails it has no effect. */
    method Execute(sql: Sql<Content>) returns (ok: bool)
      modifies this
      ensures clock == old(clock) + 1
      ensures ok <==> !fault(old(clock)) && Exec(old(db), sql).Success?
      ensures db == if ok then Exec(old(db), sql).value else old(db)
    {
      ok := !fault(clock) && Exec(db, sql).Success?;
      if ok { db := Exec(db, sql).value; }
      clock := clock + 1;
    }

    /** A step that reads the database or works in R only. */
    method Proceed() returns (ok: bool)
      modifies this`clock
      ensures clock == old(clock) + 1
      ensures ok <==> !fault(old(clock))
    {
      ok := !fault(clock);
      clock := clock + 1;
    }

    method DbBegin(name: string) returns (ok: bool)
      modifies this
      ensures db == if ok then old(db).(stack := old(db).stack + [Saved(name, old(db).working)]) else old(db)
      ensures clock == old(clock) + 1 && (ok <==> !fault(old(clock)))
    {
      ok := Execute(Savepoint(name));
    }

    method DbCommit(name: string) returns (ok: bool)
      modifies this
      ensures ok ==> Exec(old(db), Release(name)) == Success(db)
      ensures !ok ==> db == old(db)
      ensures clock == old(clock) + 1 && (ok <==> Find(old(db).stack, name).Some? && !fault(old(clock)))
    {
      ok := Execute(Release(name));
    }

    /** `dbRollback`: ROLLBACK TO, then RELEASE. */
    method DbRollback(name: string) returns (ok: bool)
      modifies this
      ensures Find(old(db).stack, name).None? ==> !ok && db == old(db) && clock == old(clock) + 1
      ensures Find(old(db).stack, name).Some? ==>
                var k := Find(old(db).stack, name).value;
                var snapshot := old(db).stack[k].snapshot;
                && (ok <==> !fault(old(clock)) && !fault(old(clock) + 1))
                && clock == old(clock) + (if fault(old(clock)) then 1 else 2)
                && db == if fault(old(clock)) then old(db)
                         else if fault(old(clock) + 1) then Db(old(db).committed, snapshot, old(db).stack[..k + 1])
                         else Db(if k == 0 then snapshot else old(db).committed, snapshot, old(db).stack[..k])
    {
      ok := Execute(RollbackTo(name));
      if ok {
        ghost var k := Find(old(db).stack, name).value;
        assert IsNamed(db.stack[k], name);
        assert db.stack[..k] == old(db).stack[..k];
        ok := Execute(Release(name));
      }
    }

    /** Inserts rows one by one, up to the first failure. */
    method InsertRows(key: string, rows: seq<seq<Cell>>) returns (ok: bool)
      requires key in db.working && db.stack != []
      modifies this
      ensures db.stack == old(db).stack && db.committed == old(db).committed
      ensures ok ==> db.working == AddRows(old(db).working, key, rows)
      ensures ok <==> !Faulted(fault, old(clock), old(clock) + |rows|)
      ensures ok ==> clock == old(clock) + |rows|
      ensures !ok ==> old(clock) < clock <= old(clock) + |rows| && fault(clock - 1)
    {
      AddNoRows(db.working, key);
      for k := 0 to |rows|
        invariant db.stack == old(db).stack && db.committed == old(db).committed
        invariant key in db.working && db.working == AddRows(old(db).working, key, rows[..k])
        invariant clock == old(clock) + k && !Faulted(fault, old(clock), clock)
      {
        AddRowsTwice(old(db).working, key, rows[..k], [rows[k]]);
        assert rows[..k + 1] == rows[..k] + [rows[k]];
        ok := Execute(Write(AddRows(db.working, key, [rows[k]])));
        if !ok { return; }
      }
      assert rows[..|rows|] == rows;
      ok := true;
    }

    /** `dbAppendTable`: the handler is disarmed before the savepoint is released. The steps are the begin,
        one insert per row, and the release; after a failure, the two statements of the rollback. Hence a
        release that fails always leaves the savepoint open, with all rows in it, and if no other step
        fails, that is the only way to leave it open. */
    method DbAppendTable(key: string, rows: seq<seq<Cell>>, id: string) returns (out: Outcome)
      requires Coherent(db)
      modifies this
      ensures out.Succeeded? <==> key in old(db).working && !Faulted(fault, old(clock), old(clock) + |rows| + 2)
      ensures out.Succeeded? ==>
                && db.working == AddRows(old(db).working, key, rows)
                && db.committed == (if old(db).stack == [] then db.working else old(db).committed)
                && db.stack == old(db).stack
      ensures out.Undone? ==> db == old(db)
      ensures out.LeftOpen? ==>
                && db.stack == old(db).stack + [Saved(id, old(db).working)]
                && db.committed == old(db).committed
      ensures key in old(db).working && !Faulted(fault, old(clock), old(clock) + |rows| + 1) ==>
                && (out.LeftOpen? <==> fault(old(clock) + |rows| + 1))
                && db.working == AddRows(old(db).working, key, rows)
      ensures out.LeftOpen? && (key !in old(db).working || Faulted(fault, old(clock), old(clock) + |rows| + 1)) ==>
                clock > 0 && fault(clock - 1) && (key !in old(db).working || Faulted(fault, old(clock), clock - 1))
      ensures key in old(db).working && AtMostOneFault(fault, old(clock), clock) ==>
                (out.LeftOpen? <==>
                  !Faulted(fault, old(clock), old(clock) + |rows| + 1) && fault(old(clock) + |rows| + 1))
      ensures clock > old(clock)
      ensures out.Succeeded? <==> key in old(db).working && !Faulted(fault, old(clock), clock)
    {
      hide AddRows, Fold;
      ghost var h := |db.stack|;
      var ok := DbBegin(id);
      if !ok { return Undone; }
      assert db.stack[..h] == old(db).stack;
      // on.exit(dbRollback(...))
      ok := key in db.working;
      if ok { ok := InsertRows(key, rows); }
      assert Find(db.stack, id) == Some(h);
      if !ok {
        var undone := DbRollback(id);
        return if undone then Undone else LeftOpen;
      }
      // on.exit(NULL)
      ok := DbCommit(id);
      return if ok then Succeeded else LeftOpen;
    }

    /** The checks at the start of both variants: may the table be written, and must it be created? An
        existing table that is to be overwritten is removed. */
    method PrepareTable(key: string, overwrite: bool, append: bool) returns (ok: bool, create: bool)
      requires db.stack != []
      modifies this
      ensures db.committed == old(db).committed && db.stack == old(db).stack
      ensures ok ==> create == (key !in old(db).working || overwrite)
      ensures ok ==> db.working == if create then old(db).working - {key} else old(db).working
      ensures clock > old(clock)
      ensures ok <==> (key !in old(db).working || overwrite || append) && !Faulted(fault, old(clock), clock)
    {
      create := false;
      ok := Proceed();  // dbExistsTable
      if !ok { return; }
      var found := key in db.working;
      if found && !overwrite && !append { return false, false; }
      create := !found || overwrite;
      if found && overwrite {
        ok := Execute(Write(db.working - {key}));  // dbRemoveTable
      } else if create {
        assert db.working - {key} == db.working;
      }
    }

    /** Creates the table without rows. */
    method CreateTable(key: string, fields: seq<string>) returns (ok: bool)
      requires db.stack != []
      modifies this
      ensures db.committed == old(db).committed && db.stack == old(db).stack
      ensures ok ==> db.working == old(db).working[key := Table(fields, [])]
      ensures clock == old(clock) + 1 && (ok <==> !fault(old(clock)))
    {
      ok := Execute(Write(db.working[key := Table(fields, [])]));
    }

    /** What happens inside dbWriteTable's savepoint for a data frame. */
    method WriteFrame(key: string, value: Table, overwrite: bool, append: bool, id: string) returns (ok: bool)
      requires db.stack != [] && Coherent(db) && !(overwrite && append)
      modifies this
      ensures db.committed == old(db).committed
      ensures !ok ==> Above(old(db).stack, db.stack, id)
      ensures ok ==> db.stack == old(db).stack && db.working == WrittenContent(old(db).working, key, value, append)
      ensures clock > old(clock)
      ensures ok <==> Allows(old(db).working, key, overwrite, append) && !Faulted(fault, old(clock), clock)
    {
      var create;
      ok, create := PrepareTable(key, overwrite, append);
      if !ok { return; }
      ok := Proceed();  // sql_data
      if !ok { return; }
      ok := Proceed();  // field_def, or dbListFields and match_col
      if !ok { return; }
      if create {
        ok := CreateTable(key, value.fields);
        if !ok { return; }
        CreateThenAdd(old(db).working, key, value);
      }
      AddNoRows(db.working, key);
      if |value.rows| > 0 {
        var out := DbAppendTable(key, value.rows, id);
        ok := out.Succeeded?;
      }
    }

    /** The end of both variants, with the handler armed until the release has succeeded. `before` is the
        database at the start. Only a rollback that fails itself, after another failure, leaves anything. */
    method Finish(written: bool, id: string, ghost before: Db<Content>) returns (out: Outcome)
      requires Coherent(before) && before.committed == db.committed
      requires Find(db.stack, id) == Some(|before.stack|) && StillOpen(before, db.stack, id)
      modifies this
      ensures clock > old(clock)
      ensures out.Succeeded? ==>
                db == Db(if before.stack == [] then old(db).working else before.committed,
                         old(db).working, before.stack)
      ensures out.Undone? ==> db == before
      ensures out.LeftOpen? ==> db.committed == before.committed && StillOpen(before, db.stack, id)
      ensures out.LeftOpen? ==> fault(clock - 1) && (!written || Faulted(fault, old(clock), clock - 1))
      ensures out.Succeeded? <==> written && !Faulted(fault, old(clock), clock)
    {
      if written {
        var ok := DbCommit(id);
        if ok { return Succeeded; }  // on.exit(NULL)
      }
      var undone := DbRollback(id);
      return if undone then Undone else LeftOpen;
    }

    /** dbWriteTable for a data frame: all or nothing. It succeeds exactly if the flags allow it and no step
        fails. On an error the database and the savepoint stack are as they were, unless the rollback in
        the handler fails too; so a single failing step never leaves anything behind. */
    method DbWriteTable(key: string, value: Table, overwrite: bool, append: bool,
                        pid: string, random: string, random': string) returns (out: Outcome)
      requires Coherent(db)
      modifies this
      ensures out.Succeeded? <==>
                Allows(old(db).working, key, overwrite, append) && !Faulted(fault, old(clock), clock)
      ensures out.Succeeded? ==>
                && db.working == WrittenContent(old(db).working, key, value, append)
                && db.committed == (if old(db).stack == [] then db.working else old(db).committed)
                && db.stack == old(db).stack
      ensures out.Undone? ==> db == old(db)
      ensures out.LeftOpen? ==>
                && db.committed == old(db).committed
                && StillOpen(old(db), db.stack, SavepointId("dbWriteTable", pid, random))
      ensures out.LeftOpen? ==>
                && clock > 0 && fault(clock - 1)
                && ((key in old(db).working && !overwrite && !append) || Faulted(fault, old(clock), clock - 1))
      ensures Allows(old(db).working, key, overwrite, append) && AtMostOneFault(fault, old(clock), clock) ==>
                out.Succeeded? || db == old(db)
    {
      hide AddRows, WrittenContent, SavepointId, Fold, Above;
      if overwrite && append { return Undone; }
      var id := SavepointId("dbWriteTable", pid, random);
      ghost var h := |db.stack|;
      var ok := DbBegin(id);
      if !ok { return Undone; }
      // on.exit(dbRollback(...))
      ghost var begun := db;
      var inner := SavepointId("dbAppendTable", pid, random');
      ok := WriteFrame(key, value, overwrite, append, inner);
      OutermostIsFound(old(db).stack, begun.stack, db.stack, id, inner, pid, random, random');
      out := Finish(ok, id, old(db));
    }

    /** What happens inside dbWriteTable's savepoint for a file. The importer inserts each row as it reads
        it; here the rows it would insert come first, then the inserts and then its verdict. */
    method WriteFile(key: string, file: InputFile, fields: seq<string>, sep: CString, eol: CString, skip: int,
                     overwrite: bool, append: bool) returns (ok: bool, ghost written: Table)
      requires db.stack != [] && !(overwrite && append)
      requires file.Valid() && eol != []
      modifies this, file
      ensures db.committed == old(db).committed && db.stack == old(db).stack
      ensures ok ==>
                && written.fields == TargetFields(old(db).working, key, fields, append)
                && IsImport(written, old(file.Rest()), sep, eol, skip)
                && db.working == WrittenContent(old(db).working, key, written, append)
      ensures clock > old(clock)
      ensures ok <==>
                && Allows(old(db).working, key, overwrite, append)
                && Imports(TargetFields(old(db).working, key, fields, append), old(file.Rest()), sep, eol, skip)
                && !Faulted(fault, old(clock), clock)
    {
      hide InputFile.Valid, InputFile.Rest, ImportOf, AddRows;
      written := Table([], []);
      var create;
      ok, create := PrepareTable(key, overwrite, append);
      if !ok { return; }
      if create {
        ok := Proceed();  // read.table
        if !ok { return; }
        ok := CreateTable(key, fields);
        if !ok { return; }
      }
      ok := Proceed();  // prepare the statements, open the file
      if !ok { return; }
      var nCol := |db.working[key].fields|;
      var rows, status := Import(file, sep, eol, skip, nCol);
      written := Table(db.working[key].fields, rows);
      CreateThenAdd(old(db).working, key, written);
      ok := InsertRows(key, rows);
      ok := ok && sep != [] && (nCol == 0 || status.Done?);
    }

    /** dbWriteTable for a file: all or nothing, in the same sense. It succeeds exactly if the flags allow
        it, the whole import ends well, and no step fails. */
    method DbWriteTableFile(key: string, file: InputFile, fields: seq<string>, header: bool, sep: CString, eol: CString,
                            skip: int, overwrite: bool, append: bool, pid: string, random: string)
      returns (out: Outcome, ghost written: Table)
      requires Coherent(db) && file.Valid() && eol != []
      modifies this, file
      ensures out.Succeeded? <==>
                && Allows(old(db).working, key, overwrite, append)
                && Imports(TargetFields(old(db).working, key, fields, append), old(file.Rest()), sep, eol,
                           LinesToSkip(skip, header))
                && !Faulted(fault, old(clock), clock)
      ensures out.Succeeded? ==>
                && written.fields == TargetFields(old(db).working, key, fields, append)
                && IsImport(written, old(file.Rest()), sep, eol, LinesToSkip(skip, header))
                && db.working == WrittenContent(old(db).working, key, written, append)
                && db.committed == (if old(db).stack == [] then db.working else old(db).committed)
                && db.stack == old(db).stack
      ensures out.Undone? ==> db == old(db)
      ensures out.LeftOpen? ==>
                && db.committed == old(db).committed
                && StillOpen(old(db), db.stack, SavepointId("dbWriteTable", pid, random))
      ensures out.LeftOpen? ==>
                && clock > 0 && fault(clock - 1)
                && (|| (key in old(db).working && !overwrite && !append)
                    || !Imports(TargetFields(old(db).working, key, fields, append), old(file.Rest()), sep, eol,
                                LinesToSkip(skip, header))
                    || Faulted(fault, old(clock), clock - 1))
      ensures Allows(old(db).working, key, overwrite, append) && AtMostOneFault(fault, old(clock), clock) ==>
                || out.Succeeded? || db == old(db)
                || !Imports(TargetFields(old(db).working, key, fields, append), old(file.Rest()), sep, eol,
                            LinesToSkip(skip, header))
    {
      hide AddRows, WrittenContent, Imports, IsImport, InputFile.Rest, SavepointId, Fold;
      written := Table([], []);
      if overwrite && append { return Undone, written; }
      var id := SavepointId("dbWriteTable", pid, random);
      var ok := DbBegin(id);
      if !ok { return Undone, written; }
      // on.exit(dbRollback(...))
      ok, written := WriteFile(key, file, fields, sep, eol, LinesToSkip(skip, header), overwrite, append);
      assert IsNamed(db.stack[|old(db).stack|], id);
      assert db.stack[..|old(db).stack|] == old(db).stack;
      out := Finish(ok, id, old(db));
    }
  }

  /** Does an import into a table with these fields end without an error? A table without columns takes
      no rows. */
  ghost predicate Imports(fields: seq<string>, bytes: Bytes, sep: Bytes, eol: Bytes, skip: int)
    requires eol != []
  {
    sep != [] && (fields == [] || ImportOf(bytes, sep, eol, skip, |fields|, 0).1.Done?)
  }

  /** Are the rows of `written` those the import adds to a table with its fields? */
  ghost predicate IsImport(written: Table, bytes: Bytes, sep: Bytes, eol: Bytes, skip: int)
    requires eol != []
  {
    && Imports(written.fields, bytes, sep, eol, skip)
    && written.rows == if written.fields == [] then [] else ImportOf(bytes, sep, eol, skip, |written.fields|, 0).0
  }

  /** The fields of the table that is written to. */
  function TargetFields(content: Content, key: string, fields: seq<string>, append: bool): seq<string> {
    if key in content && append then content[key].fields else fields
  }

  /** `skip + as.integer(header)`. */
  function LinesToSkip(skip: int, header: bool): int {
    skip + if header then 1 else 0
  }

  lemma {:induction false} ImportOfCleanLines(skipped: seq<Bytes>, lines: seq<Bytes>, sep: Bytes, eol: CString,
                                              nCol: nat)
    requires sep != [] && eol != []
    requires forall i :: 0 <= i < |skipped| ==> IsClean(skipped[i], eol)
    requires forall i :: 0 <= i < |lines| ==> IsClean(lines[i], eol) && |Split(lines[i], sep)| == nCol
    ensures ImportOf(FileOf(skipped + lines, eol), sep, eol, |skipped|, nCol, 0) == (RowsOfLines(lines, sep), Done)
  {
    hide IsClean, Split, ImportOf, RowsOfLines, FileOf;
    var all := skipped + lines;
    ImportReadsLines(all, [], sep, eol, |skipped|, nCol, 0);
    ImportEnds([], sep, eol, |skipped|, nCol, |all|);
    assert AfterSkip(all, |skipped|, 0) == lines;
    assert FileOf(all, eol) + [] == FileOf(all, eol);
    assert RowsOfLines(lines, sep) + [] == RowsOfLines(lines, sep);
  }

  /** What dbWriteTable imports from a file of clean lines: with a header, all but the lines asked to be
      skipped and the one after them; without one, that line too. */
  lemma {:induction false} HeaderIsNoRow(written: Table, skipped: seq<Bytes>, head: Bytes, lines: seq<Bytes>,
                                         sep: Bytes, eol: CString)
    requires sep != [] && eol != [] && written.fields != []
    requires forall i :: 0 <= i < |skipped| ==> IsClean(skipped[i], eol)
    requires IsClean(head, eol)
    requires forall i :: 0 <= i < |lines| ==>
               IsClean(lines[i], eol) && |Split(lines[i], sep)| == |written.fields|
    ensures IsImport(written, FileOf(skipped + [head] + lines, eol), sep, eol, LinesToSkip(|skipped|, true))
            <==> written.rows == RowsOfLines(lines, sep)
    ensures |Split(head, sep)| == |written.fields| ==>
              (IsImport(written, FileOf(skipped + [head] + lines, eol), sep, eol, LinesToSkip(|skipped|, false))
               <==> written.rows == [FieldCells(Split(head, sep))] + RowsOfLines(lines, sep))
  {
    hide IsClean, Split, ImportOf, FileOf;
    ImportOfCleanLines(skipped + [head], lines, sep, eol, |written.fields|);
    if |Split(head, sep)| == |written.fields| {
      assert skipped + [head] + lines == skipped + ([head] + lines);
      ImportOfCleanLines(skipped, [head] + lines, sep, eol, |written.fields|);
      assert ([head] + lines)[1..] == lines;
    }
  }

  /** With any number of the inner function's savepoints left open, dbWriteTable's own is the one found. */
  lemma {:induction false} OutermostIsFound(base: seq<Frame<Content>>, begun: seq<Frame<Content>>,
                                            stack: seq<Frame<Content>>,
                                            id: string, inner: string, pid: string, r: string, r': string)
    requires id == SavepointId("dbWriteTable", pid, r) && inner == SavepointId("dbAppendTable", pid, r')
    requires |begun| == |base| + 1 && begun[..|base|] == base && IsNamed(begun[|base|], id)
    requires Above(begun, stack, inner) || stack == begun
    ensures Find(stack, id) == Some(|base|)
    ensures stack[..|base|] == base && stack[|base|] == begun[|base|]
  {
    hide SavepointId, Fold, Find;
    SavepointIdsDiffer(pid, r, pid, r');
    assert IsNamed(stack[|base|], id);
    forall k | |base| < k < |stack| ensures !IsNamed(stack[k], id) {
      assert IsNamed(stack[k], inner);
    }
  }
}
