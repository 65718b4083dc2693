/** Transactions and savepoints of one connection, as the SQLite documentation of SAVEPOINT describes
    them: a stack of named snapshots. `D` is the content of a database. */
module Transactions {
  import opened ColumnTypes

  datatype Frame<D> = Begun(snapshot: D) | Saved(name: string, snapshot: D)

  /** `committed` is what another connection sees, `working` what this one sees. */
  datatype Db<D> = Db(committed: D, working: D, stack: seq<Frame<D>>)

  datatype Sql<D> =
    | BeginTransaction
    | CommitTransaction
    | RollbackTransaction
    | Savepoint(name: string)
    | Release(name: string)
    | RollbackTo(name: string)
    | Write(content: D)

  datatype SqlError = AlreadyInTransaction | NotInTransaction | NoSuchSavepoint

  function FoldChar(c: char): char {
    if 'A' <= c <= 'Z' then c + 32 as char else c
  }

  /** Savepoint names are compared without regard to the case of ASCII letters. */
  function Fold(name: string): (r: string)
    ensures |r| == |name|
    ensures forall i :: 0 <= i < |name| ==> r[i] == FoldChar(name[i])
  {
    seq(|name|, i requires 0 <= i < |name| => FoldChar(name[i]))
  }

  predicate IsNamed<D>(f: Frame<D>, name: string) {
    f.Saved? && Fold(f.name) == Fold(name)
  }

  /** The most recent savepoint of that name. */
  function Find<D>(stack: seq<Frame<D>>, name: string): (at: Option<nat>)
    ensures at.Some? ==>
              && at.value < |stack|
              && IsNamed(stack[at.value], name)
              && forall k :: at.value < k < |stack| ==> !IsNamed(stack[k], name)
    ensures at.None? ==> forall k :: 0 <= k < |stack| ==> !IsNamed(stack[k], name)
  {
    if stack == [] then None
    else
      var n := |stack| - 1;
      if IsNamed(stack[n], name) then Some(n) else Find(stack[..n], name)
  }

  /** One SQL statement. */
  function Exec<D>(s: Db<D>, sql: Sql<D>): Result<Db<D>, SqlError> {
    match sql
    case BeginTransaction =>
      if s.stack != [] then Failure(AlreadyInTransaction) else Success(s.(stack := [Begun(s.working)]))
    case CommitTransaction =>
      if s.stack == [] then Failure(NotInTransaction) else Success(s.(committed := s.working, stack := []))
    case RollbackTransaction =>
      if s.stack == [] then Failure(NotInTransaction)
      else Success(s.(working := s.stack[0].snapshot, stack := []))
    case Savepoint(name) => Success(s.(stack := s.stack + [Saved(name, s.working)]))
    case Release(name) =>
      (match Find(s.stack, name)
       case None => Failure(NoSuchSavepoint)
       case Some(k) => Success(Db(if k == 0 then s.working else s.committed, s.working, s.stack[..k])))
    case RollbackTo(name) =>
      (match Find(s.stack, name)
       case None => Failure(NoSuchSavepoint)
       case Some(k) => Success(s.(working := s.stack[k].snapshot, stack := s.stack[..k + 1])))
    case Write(content) =>
      Success(Db(if s.stack == [] then content else s.committed, content, s.stack))
  }

  // ----- The R functions

  datatype Call<D> =
    | DbBegin(name: Option<string>)
    | DbCommit(name: Option<string>)
    | DbRollback(name: Option<string>)
    | DbWrite(content: D)

  /** The statements each function executes. */
  function Statements<D>(call: Call<D>): seq<Sql<D>> {
    match call
    case DbBegin(None) => [BeginTransaction]
    case DbBegin(Some(name)) => [Savepoint(name)]
    case DbCommit(None) => [CommitTransaction]
    case DbCommit(Some(name)) => [Release(name)]
    case DbRollback(None) => [RollbackTransaction]
    case DbRollback(Some(name)) => [RollbackTo(name), Release(name)]
    case DbWrite(content) => [Write(content)]
  }

  /** Executes statements up to the first that fails. */
  function ExecAll<D>(s: Db<D>, sqls: seq<Sql<D>>): (Db<D>, bool)
    decreases |sqls|
  {
    if sqls == [] then (s, true)
    else
      match Exec(s, sqls[0])
      case Failure(_) => (s, false)
      case Success(s') => ExecAll(s', sqls[1..])
  }

  /** The state after a call, whether it succeeds or not. */
  function Apply<D>(s: Db<D>, call: Call<D>): Db<D> {
    ExecAll(s, Statements(call)).0
  }

  /** The state after each prefix of a run of calls. */
  function Run<D>(s: Db<D>, calls: seq<Call<D>>): Db<D>
    decreases |calls|
  {
    if calls == [] then s else Run(Apply(s, calls[0]), calls[1..])
  }

  // ----- Names and errors

  predicate SameUpToCase(a: char, b: char) {
    a == b || ('A' <= a <= 'Z' && b == a + 32 as char) || ('A' <= b <= 'Z' && a == b + 32 as char)
  }

  /** A savepoint answers to every spelling of its name that differs in the case of ASCII letters only. */
  lemma {:induction false} NamesMatch<D>(f: Frame<D>, name: string)
    ensures IsNamed(f, name) <==>
            && f.Saved? && |f.name| == |name|
            && forall i :: 0 <= i < |name| ==> SameUpToCase(f.name[i], name[i])
  {
    if f.Saved? && |f.name| == |name| {
      var a, b := Fold(f.name), Fold(name);
      forall i | 0 <= i < |name| ensures a[i] == b[i] <==> SameUpToCase(f.name[i], name[i]) {
        assert a[i] == FoldChar(f.name[i]) && b[i] == FoldChar(name[i]);
      }
      assert a == b <==> forall i :: 0 <= i < |name| ==> a[i] == b[i];
    }
  }

  ghost predicate HasSavepoint<D>(s: Db<D>, name: string) {
    exists k :: 0 <= k < |s.stack| && IsNamed(s.stack[k], name)
  }

  /** Exactly when a statement fails, and why. */
  lemma {:induction false} ErrorsAreExact<D>(s: Db<D>, sql: Sql<D>)
    ensures match sql
            case BeginTransaction =>
              if s.stack != [] then Exec(s, sql) == Failure(AlreadyInTransaction) else Exec(s, sql).Success?
            case CommitTransaction =>
              if s.stack == [] then Exec(s, sql) == Failure(NotInTransaction) else Exec(s, sql).Success?
            case RollbackTransaction =>
              if s.stack == [] then Exec(s, sql) == Failure(NotInTransaction) else Exec(s, sql).Success?
            case Savepoint(_) => Exec(s, sql).Success?
            case Release(name) =>
              if HasSavepoint(s, name) then Exec(s, sql).Success? else Exec(s, sql) == Failure(NoSuchSavepoint)
            case RollbackTo(name) =>
              if HasSavepoint(s, name) then Exec(s, sql).Success? else Exec(s, sql) == Failure(NoSuchSavepoint)
            case Write(_) => Exec(s, sql).Success?
  {
    hide IsNamed;
  }

  /** Exactly when a call of one of the R functions ends without an error. */
  lemma {:induction false} CallSucceeds<D>(s: Db<D>, call: Call<D>)
    ensures ExecAll(s, Statements(call)).1 <==>
            match call
            case DbBegin(None) => s.stack == []
            case DbBegin(Some(_)) => true
            case DbCommit(None) => s.stack != []
            case DbCommit(Some(name)) => HasSavepoint(s, name)
            case DbRollback(None) => s.stack != []
            case DbRollback(Some(name)) => HasSavepoint(s, name)
            case DbWrite(_) => true
  {
    if call.DbRollback? && call.name.Some? {
      var name := call.name.value;
      ExecTwo(s, RollbackTo(name), Release(name));
      ErrorsAreExact(s, RollbackTo(name));
      if HasSavepoint(s, name) {
        var k := Find(s.stack, name).value;
        assert IsNamed(s.stack[..k + 1][k], name);
      }
    } else {
      var sql := Statements(call)[0];
      assert Statements(call) == [sql];
      ExecOne(s, sql);
      ErrorsAreExact(s, sql);
    }
  }

  /** Runs are made of calls, one after the other. */
  lemma {:induction false} RunConcat<D>(s: Db<D>, first: seq<Call<D>>, second: seq<Call<D>>)
    ensures Run(s, first + second) == Run(Run(s, first), second)
    decreases |first|
  {
    if first == [] {
      assert first + second == second;
    } else {
      assert (first + second)[1..] == first[1..] + second;
      RunConcat(Apply(s, first[0]), first[1..], second);
    }
  }

  lemma {:induction false} RunOne<D>(s: Db<D>, call: Call<D>)
    ensures Run(s, [call]) == Apply(s, call)
  {
    assert [call][1..] == [];
  }

  // ----- Single calls

  /** What each call does when it succeeds, on any state. */
  lemma {:induction false} CallEffects<D>(s: Db<D>, call: Call<D>)
    ensures var s' := Apply(s, call);
            match call
            case DbBegin(None) => s' == if s.stack == [] then s.(stack := [Begun(s.working)]) else s
            case DbBegin(Some(name)) => s' == s.(stack := s.stack + [Saved(name, s.working)])
            case DbCommit(None) => s' == if s.stack == [] then s else Db(s.working, s.working, [])
            case DbCommit(Some(name)) =>
              (match Find(s.stack, name)
               case None => s' == s
               case Some(k) => s' == Db(if k == 0 then s.working else s.committed, s.working, s.stack[..k]))
            case DbRollback(None) => s' == if s.stack == [] then s else Db(s.committed, s.stack[0].snapshot, [])
            case DbRollback(Some(name)) =>
              (match Find(s.stack, name)
               case None => s' == s
               case Some(k) =>
                 s' == Db(if k == 0 then s.stack[0].snapshot else s.committed, s.stack[k].snapshot, s.stack[..k]))
            case DbWrite(content) => s' == Db(if s.stack == [] then content else s.committed, content, s.stack)
  {
    if call.DbRollback? && call.name.Some? {
      ExecTwo(s, RollbackTo(call.name.value), Release(call.name.value));
      if Find(s.stack, call.name.value).Some? {
        var k := Find(s.stack, call.name.value).value;
        var mid := s.(working := s.stack[k].snapshot, stack := s.stack[..k + 1]);
        assert IsNamed(mid.stack[k], call.name.value);
        assert mid.stack[..k] == s.stack[..k];
      }
    } else {
      ExecOne(s, Statements(call)[0]);
      assert Statements(call) == [Statements(call)[0]];
    }
  }

  lemma {:induction false} ExecOne<D>(s: Db<D>, sql: Sql<D>)
    ensures ExecAll(s, [sql]) == if Exec(s, sql).Success? then (Exec(s, sql).value, true) else (s, false)
  {
    assert [sql][1..] == [];
  }

  lemma {:induction false} ExecTwo<D>(s: Db<D>, first: Sql<D>, second: Sql<D>)
    ensures ExecAll(s, [first, second]) ==
            if Exec(s, first).Failure? then (s, false)
            else
              var mid := Exec(s, first).value;
              if Exec(mid, second).Success? then (Exec(mid, second).value, true) else (mid, false)
  {
    assert [first, second][1..] == [second];
    if Exec(s, first).Success? { ExecOne(Exec(s, first).value, second); }
  }

  // ----- Whole runs

  /** Outside a transaction both views agree; inside one, the other connection sees the content the
      outermost frame started from. */
  ghost predicate Coherent<D>(s: Db<D>) {
    s.committed == if s.stack == [] then s.working else s.stack[0].snapshot
  }

  lemma {:induction false} ApplyIsCoherent<D>(s: Db<D>, call: Call<D>)
    requires Coherent(s)
    ensures Coherent(Apply(s, call))
  {
    CallEffects(s, call);
  }

  lemma {:induction false} RunIsCoherent<D>(s: Db<D>, calls: seq<Call<D>>)
    requires Coherent(s)
    ensures Coherent(Run(s, calls))
    decreases |calls|
  {
    if calls != [] {
      ApplyIsCoherent(s, calls[0]);
      RunIsCoherent(Apply(s, calls[0]), calls[1..]);
    }
  }

  /** Another connection's view changes only by a write outside any transaction or by the commit that
      empties the stack. */
  lemma {:induction false} VisibleChange<D>(s: Db<D>, call: Call<D>)
    requires Coherent(s) && Apply(s, call).committed != s.committed
    ensures || (call.DbWrite? && s.stack == [])
            || (call.DbCommit? && s.stack != [] && Apply(s, call).stack == [])
    ensures Apply(s, call).committed == Apply(s, call).working
  {
    CallEffects(s, call);
  }

  /** Do all states of a run, the first and last included, have more than `h` frames? */
  ghost predicate StaysAbove<D>(s: Db<D>, calls: seq<Call<D>>, h: nat)
    decreases |calls|
  {
    |s.stack| > h && (calls == [] || StaysAbove(Apply(s, calls[0]), calls[1..], h))
  }

  /** A call that leaves more than `h` frames keeps the lowest `h + 1`, and inside a transaction it
      shows nothing to other connections. */
  lemma {:induction false} ApplyKeepsLow<D>(s: Db<D>, call: Call<D>, h: nat)
    requires |s.stack| > h && |Apply(s, call).stack| > h
    ensures Apply(s, call).stack[..h + 1] == s.stack[..h + 1]
    ensures Apply(s, call).committed == s.committed
  {
    CallEffects(s, call);
  }

  lemma {:induction false} RunKeepsLow<D>(s: Db<D>, calls: seq<Call<D>>, h: nat)
    requires StaysAbove(s, calls, h)
    ensures |Run(s, calls).stack| > h && Run(s, calls).stack[..h + 1] == s.stack[..h + 1]
    ensures Run(s, calls).committed == s.committed
    decreases |calls|
  {
    if calls != [] {
      ApplyKeepsLow(s, calls[0], h);
      RunKeepsLow(Apply(s, calls[0]), calls[1..], h);
    }
  }

  lemma {:induction false} FrameSurvives<D>(s: Db<D>, begun: Db<D>, calls: seq<Call<D>>)
    requires |begun.stack| == |s.stack| + 1 && begun.stack[..|s.stack|] == s.stack
    requires StaysAbove(begun, calls, |s.stack|)
    ensures var last := Run(begun, calls);
            && |last.stack| > |s.stack|
            && last.stack[..|s.stack|] == s.stack && last.stack[|s.stack|] == begun.stack[|s.stack|]
            && last.stack[0] == begun.stack[0]
            && last.committed == begun.committed
  {
    var h, last := |s.stack|, Run(begun, calls);
    RunKeepsLow(begun, calls, h);
    assert last.stack[..h] == last.stack[..h + 1][..h];
    assert last.stack[h] == last.stack[..h + 1][h];
    assert last.stack[0] == last.stack[..h + 1][0];
  }

  /** Begin, anything that does not end the transaction begun, then rollback: the state before, with
      nothing shown to others in between, provided the rollback still finds that savepoint. */
  lemma {:induction false} RollbackUndoesRun<D>(s: Db<D>, name: Option<string>, calls: seq<Call<D>>)
    requires Coherent(s) && (name.None? ==> s.stack == [])
    requires StaysAbove(Apply(s, DbBegin(name)), calls, |s.stack|)
    requires name.Some? ==> Find(Run(Apply(s, DbBegin(name)), calls).stack, name.value) == Some(|s.stack|)
    ensures Apply(Run(Apply(s, DbBegin(name)), calls), DbRollback(name)) == s
  {
    var begun := Apply(s, DbBegin(name));
    var last := Run(begun, calls);
    CallEffects(s, DbBegin(name));
    FrameSurvives(s, begun, calls);
    CallEffects(last, DbRollback(name));
  }

  /** The same run committed: this connection keeps its content, the frames before the begin remain,
      and others see the change exactly if there were none. */
  lemma {:induction false} CommitKeepsRun<D>(s: Db<D>, name: Option<string>, calls: seq<Call<D>>)
    requires Coherent(s) && (name.None? ==> s.stack == [])
    requires StaysAbove(Apply(s, DbBegin(name)), calls, |s.stack|)
    requires name.Some? ==> Find(Run(Apply(s, DbBegin(name)), calls).stack, name.value) == Some(|s.stack|)
    ensures var last := Run(Apply(s, DbBegin(name)), calls);
            Apply(last, DbCommit(name))
            == Db(if s.stack == [] then last.working else s.committed, last.working, s.stack)
  {
    var begun := Apply(s, DbBegin(name));
    var last := Run(begun, calls);
    CallEffects(s, DbBegin(name));
    FrameSurvives(s, begun, calls);
    CallEffects(last, DbCommit(name));
  }
}
