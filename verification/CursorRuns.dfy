/** What a client sees over a whole run of fetches, each of which `SqliteResult.Fetch` serves as `Serve`
    says. */
module CursorRuns {
  import opened ColumnTypes
  import opened ColumnSource
  import opened ColumnModel
  import opened ColumnTheorems
  import opened ColumnInference
  import opened ColumnBatches
  import opened ColumnValues
  import opened DataFrame
  import opened CursorModel
  import opened Cursor

  ghost function ServeAll(s: Session, requests: seq<int>, sources: seq<Source>): (s': Session)
    requires Valid(s, sources)
    ensures Valid(s', sources)
    decreases |requests|
  {
    if requests == [] then s else ServeAll(Serve(s, requests[0], sources), requests[1..], sources)
  }

  /** Whatever is requested, the rows handed out are a prefix of the rows of all runs, and no row is
      lost, repeated or reordered; the cursor is exhausted exactly when all of them are out. */
  lemma {:induction false} Streaming(s: Session, requests: seq<int>, sources: seq<Source>)
    requires Valid(s, sources)
    ensures var s' := ServeAll(s, requests, sources);
            && s'.delivered + s'.pending == s.delivered + s.pending
            && s.delivered <= s'.delivered
            && (s'.pending == [] <==> s'.delivered == s.delivered + s.pending)
    decreases |requests|
  {
    if requests != [] {
      var batch := Batch(s.pending, requests[0]);
      assert s.pending == batch + s.pending[|batch|..];
      Streaming(Serve(s, requests[0], sources), requests[1..], sources);
    }
  }

  /** A peek hands out nothing, and a second one changes nothing at all. */
  lemma {:induction false} PeekTwiceServes(s: Session, sources: seq<Source>)
    requires Valid(s, sources)
    ensures var s' := Serve(s, 0, sources);
            && s'.pending == s.pending && s'.delivered == s.delivered
            && Serve(s', 0, sources) == s'
  {
    var s' := Serve(s, 0, sources);
    var seen := Batch(s.pending, 1);
    forall j | 0 <= j < |sources| ensures Serve(s', 0, sources).types[j] == s'.types[j] {
      PeekTwice(s.types[j], ColumnOf(seen, j), sources[j]);
    }
    assert Serve(s', 0, sources).types == s'.types;
  }

  // ----- Whole sessions

  /** What a client can ask of a bound cursor. */
  datatype Request = Get(nMax: int) | Info | Rebind(params: seq<seq<Cell>>)

  ghost predicate HasWidth(run: seq<Cell> -> seq<Row>, width: nat) {
    forall b, k :: 0 <= k < |run(b)| ==> |run(b)[k]| == width
  }

  ghost function After(s: Session, q: Request, nparams: nat, sources: seq<Source>,
                       run: seq<Cell> -> seq<Row>): (s': Session)
    requires Valid(s, sources) && HasWidth(run, |sources|)
    ensures Valid(s', sources)
  {
    match q
    case Get(nMax) => Serve(s, nMax, sources)
    case Info => Serve(s, 0, sources)
    case Rebind(params) =>
      if Acceptable(params, nparams) then
        RowsHaveWidth(run, ParamRows(params), |sources|);
        Session(RowsOf(run, ParamRows(params)), [], s.types)
      else s
  }

  ghost function AfterAll(s: Session, script: seq<Request>, nparams: nat, sources: seq<Source>,
                          run: seq<Cell> -> seq<Row>): (s': Session)
    requires Valid(s, sources) && HasWidth(run, |sources|)
    ensures Valid(s', sources)
    decreases |script|
  {
    if script == [] then s else AfterAll(After(s, script[0], nparams, sources, run), script[1..], nparams, sources, run)
  }

  /** The rows there are to hand out: those of all runs of the last bind that was accepted. */
  ghost function RowsBound(all: seq<Row>, script: seq<Request>, nparams: nat, run: seq<Cell> -> seq<Row>): seq<Row>
    decreases |script|
  {
    if script == [] then all
    else
      var accepted := script[0].Rebind? && Acceptable(script[0].params, nparams);
      var next := if accepted then RowsOf(run, ParamRows(script[0].params)) else all;
      RowsBound(next, script[1..], nparams, run)
  }

  /** Over any session of fetches, descriptions and binds, the rows handed out since the last bind and
      those to come are, in order, the rows of all its runs. */
  lemma {:induction false} SessionStreams(s: Session, script: seq<Request>, nparams: nat, sources: seq<Source>,
                                          run: seq<Cell> -> seq<Row>)
    requires Valid(s, sources) && HasWidth(run, |sources|)
    ensures var s' := AfterAll(s, script, nparams, sources, run);
            s'.delivered + s'.pending == RowsBound(s.delivered + s.pending, script, nparams, run)
    decreases |script|
  {
    if script != [] {
      var next := After(s, script[0], nparams, sources, run);
      SessionStreams(next, script[1..], nparams, sources, run);
      match script[0]
      case Get(nMax) => ServeMovesRows(s, nMax, sources);
      case Info => ServeMovesRows(s, 0, sources);
      case Rebind(params) => assert [] + next.pending == next.pending;
    }
  }

  lemma {:induction false} ServeMovesRows(s: Session, nMax: int, sources: seq<Source>)
    requires Valid(s, sources)
    ensures var s' := Serve(s, nMax, sources); s'.delivered + s'.pending == s.delivered + s.pending
  {
    var batch := Batch(s.pending, nMax);
    assert s.pending == batch + s.pending[|batch|..];
  }

  /** The cursor under such a session: what it shows at the end is what the requests, one after the other,
      make of what it showed at the start, and it is complete exactly when no row is left. */
  method Play(res: SqliteResult, script: seq<Request>)
    requires res.Valid() && res.ready
    requires HasWidth(res.stmt.run, |res.stmt.sources|)
    modifies res, res.stmt
    ensures res.Valid() && res.ready
    ensures Valid(old(res.View()), res.stmt.sources)
    ensures res.View() == AfterAll(old(res.View()), script, res.stmt.nparams, res.stmt.sources, res.stmt.run)
    ensures res.delivered + res.Pending()
            == RowsBound(old(res.delivered + res.Pending()), script, res.stmt.nparams, res.stmt.run)
    ensures res.complete <==> res.Pending() == []
    ensures res.nrows == |res.delivered| && old(res.stmt.log) <= res.stmt.log
  {
    hide SqliteResult.Valid, SqliteResult.Pending, After, HasWidth;
    res.BoundSession();
    ghost var start := res.View();
    for k := 0 to |script|
      invariant res.Valid() && res.ready && Valid(res.View(), res.stmt.sources)
      invariant AfterAll(start, script, res.stmt.nparams, res.stmt.sources, res.stmt.run)
                == AfterAll(res.View(), script[k..], res.stmt.nparams, res.stmt.sources, res.stmt.run)
      invariant old(res.stmt.log) <= res.stmt.log
    {
      assert script[k..][1..] == script[k + 1..];
      Answer(res, script[k]);
    }
    SessionStreams(start, script, res.stmt.nparams, res.stmt.sources, res.stmt.run);
    res.WhereItStands();
  }

  /** One request. */
  method Answer(res: SqliteResult, q: Request)
    requires res.Valid() && res.ready
    requires HasWidth(res.stmt.run, |res.stmt.sources|)
    requires Valid(res.View(), res.stmt.sources)
    modifies res, res.stmt
    ensures res.Valid() && res.ready && Valid(res.View(), res.stmt.sources)
    ensures res.View() == After(old(res.View()), q, res.stmt.nparams, res.stmt.sources, res.stmt.run)
    ensures old(res.stmt.log) <= res.stmt.log
  {
    hide SqliteResult.Valid, SqliteResult.Pending, HasWidth, Serve, RowsOf;
    match q
    case Get(nMax) => var r := res.Fetch(nMax);
    case Info => var info := res.GetColumnInfo();
    case Rebind(params) =>
      var r := res.Bind(params);
      res.BoundSession();
  }

  /** Fetches alone. */
  function Gets(requests: seq<int>): (script: seq<Request>)
    ensures |script| == |requests|
    ensures forall i :: 0 <= i < |requests| ==> script[i] == Get(requests[i])
  {
    seq(|requests|, i requires 0 <= i < |requests| => Get(requests[i]))
  }

  lemma {:induction false} FetchesAreServed(s: Session, requests: seq<int>, nparams: nat, sources: seq<Source>,
                                            run: seq<Cell> -> seq<Row>)
    requires Valid(s, sources) && HasWidth(run, |sources|)
    ensures AfterAll(s, Gets(requests), nparams, sources, run) == ServeAll(s, requests, sources)
    decreases |requests|
  {
    hide Serve;
    if requests != [] {
      assert Gets(requests)[1..] == Gets(requests[1..]);
      FetchesAreServed(Serve(s, requests[0], sources), requests[1..], nparams, sources, run);
    }
  }

  // ----- Batches against a single fetch

  /** The cells of column `j` that each of the requests hands out. */
  ghost function ColumnBatchesOf(s: Session, requests: seq<int>, sources: seq<Source>, j: nat): (bs: seq<seq<Cell>>)
    requires Valid(s, sources) && j < |sources|
    ensures |bs| == |requests|
    decreases |requests|
  {
    if requests == [] then []
    else [ColumnOf(Batch(s.pending, requests[0]), j)]
         + ColumnBatchesOf(Serve(s, requests[0], sources), requests[1..], sources, j)
  }

  /** Column `j` of all frames of the requests, one below the other. */
  ghost function DeliveredColumn(s: Session, requests: seq<int>, sources: seq<Source>, j: nat): seq<Slot>
    requires Valid(s, sources) && j < |sources|
    decreases |requests|
  {
    if requests == [] then []
    else OnePass(s.types[j], ColumnOf(Batch(s.pending, requests[0]), j), sources[j])
         + DeliveredColumn(Serve(s, requests[0], sources), requests[1..], sources, j)
  }

  ghost predicate NoPeeks(requests: seq<int>) {
    forall i :: 0 <= i < |requests| ==> requests[i] != 0
  }

  lemma {:induction false} TypeAfterRequest(s: Session, nMax: int, sources: seq<Source>, j: nat)
    requires Valid(s, sources) && j < |sources| && nMax != 0
    ensures Serve(s, nMax, sources).types[j] == FinalType(s.types[j], ColumnOf(Batch(s.pending, nMax), j), sources[j])
  {
  }

  lemma {:induction false} OnePassRow(ty: DataType, cells: seq<Cell>, src: Source, k: nat)
    requires k < |cells|
    ensures OnePass(ty, cells, src)[k] == Convert(Arrivals(ty, cells, src)[k], FinalType(ty, cells, src), src)
  {
    hide Convert, Arrivals;
  }

  lemma {:induction false} DeliveredIsBatched(s: Session, requests: seq<int>, sources: seq<Source>, j: nat, k: nat)
    requires Valid(s, sources) && j < |sources| && NoPeeks(requests)
    requires k < |Concat(ColumnBatchesOf(s, requests, sources, j))|
    ensures |DeliveredColumn(s, requests, sources, j)| == |Concat(ColumnBatchesOf(s, requests, sources, j))|
    ensures var d := Batched(s.types[j], ColumnBatchesOf(s, requests, sources, j), sources[j])[k];
            DeliveredColumn(s, requests, sources, j)[k] == Convert(d.row, d.final, sources[j])
    decreases |requests|
  {
    hide Convert, Arrivals, Batched, OnePass, Serve, FinalType;
    TypeAfterRequest(s, requests[0], sources, j);
    var next := Serve(s, requests[0], sources);
    var cells := ColumnOf(Batch(s.pending, requests[0]), j);
    var bs := ColumnBatchesOf(s, requests, sources, j);
    assert bs[0] == cells && bs[1..] == ColumnBatchesOf(next, requests[1..], sources, j);
    BatchedRow(s.types[j], bs, sources[j], k);
    DeliveredLength(next, requests[1..], sources, j);
    if k < |cells| {
      OnePassRow(s.types[j], cells, sources[j], k);
    } else {
      DeliveredIsBatched(next, requests[1..], sources, j, k - |cells|);
    }
  }

  lemma {:induction false} DeliveredLength(s: Session, requests: seq<int>, sources: seq<Source>, j: nat)
    requires Valid(s, sources) && j < |sources|
    ensures |DeliveredColumn(s, requests, sources, j)| == |Concat(ColumnBatchesOf(s, requests, sources, j))|
    decreases |requests|
  {
    if requests != [] {
      var bs := ColumnBatchesOf(s, requests, sources, j);
      assert bs[1..] == ColumnBatchesOf(Serve(s, requests[0], sources), requests[1..], sources, j);
      DeliveredLength(Serve(s, requests[0], sources), requests[1..], sources, j);
    }
  }

  lemma {:induction false} ColumnOfConcat(a: seq<Row>, b: seq<Row>, j: nat)
    requires forall k :: 0 <= k < |a| ==> j < |a[k]|
    requires forall k :: 0 <= k < |b| ==> j < |b[k]|
    ensures forall k :: 0 <= k < |a + b| ==> j < |(a + b)[k]|
    ensures ColumnOf(a + b, j) == ColumnOf(a, j) + ColumnOf(b, j)
  {
  }

  /** The types the cursor keeps are those of the batches. */
  lemma {:induction false} TypesAreServed(s: Session, requests: seq<int>, sources: seq<Source>, j: nat, i: nat)
    requires Valid(s, sources) && j < |sources| && NoPeeks(requests) && i < |requests|
    ensures TypesOver(s.types[j], ColumnBatchesOf(s, requests, sources, j), sources[j])[i]
            == ServeAll(s, requests[..i + 1], sources).types[j]
    decreases |requests|
  {
    hide Serve, FinalType;
    TypeAfterRequest(s, requests[0], sources, j);
    var next, bs := Serve(s, requests[0], sources), ColumnBatchesOf(s, requests, sources, j);
    assert bs[1..] == ColumnBatchesOf(next, requests[1..], sources, j);
    assert requests[..i + 1][0] == requests[0] && requests[..i + 1][1..] == requests[1..][..i];
    if i > 0 { TypesAreServed(next, requests[1..], sources, j, i - 1); }
  }

  lemma {:induction false} RequestSplitsColumn(s: Session, nMax: int, sources: seq<Source>, j: nat)
    requires Valid(s, sources) && j < |sources|
    ensures ColumnOf(s.pending, j)
            == ColumnOf(Batch(s.pending, nMax), j) + ColumnOf(Serve(s, nMax, sources).pending, j)
  {
    hide TypesAfter;
    var batch, rest := Batch(s.pending, nMax), Serve(s, nMax, sources).pending;
    assert s.pending == batch + rest;
    ColumnOfConcat(batch, rest, j);
  }

  lemma {:induction false} BatchesCoverColumn(s: Session, requests: seq<int>, sources: seq<Source>, j: nat)
    requires Valid(s, sources) && j < |sources|
    requires ServeAll(s, requests, sources).pending == []
    ensures Concat(ColumnBatchesOf(s, requests, sources, j)) == ColumnOf(s.pending, j)
    decreases |requests|
  {
    hide Serve;
    if requests != [] {
      var next := Serve(s, requests[0], sources);
      var bs := ColumnBatchesOf(s, requests, sources, j);
      assert bs[1..] == ColumnBatchesOf(next, requests[1..], sources, j);
      BatchesCoverColumn(next, requests[1..], sources, j);
      RequestSplitsColumn(s, requests[0], sources, j);
    }
  }

  /** Fetching everything in batches of any sizes gives one value per row, NA for every NULL, and, if the
      column keeps its types, for every other row the value of a single `fetch(-1)` up to the widening
      of the whole column. */
  lemma {:induction false} BatchesAgreeWithOneFetch(s: Session, requests: seq<int>, sources: seq<Source>, j: nat,
                                                    k: nat)
    requires Valid(s, sources) && j < |sources| && k < |s.pending| && NoPeeks(requests)
    requires ServeAll(s, requests, sources).pending == []
    ensures var bs, cells := ColumnBatchesOf(s, requests, sources, j), ColumnOf(s.pending, j);
            var xs, ys := DeliveredColumn(s, requests, sources, j), OnePass(s.types[j], cells, sources[j]);
            var final := FinalType(s.types[j], cells, sources[j]);
            && |xs| == |ys| == |cells| == |Concat(bs)|
            && var mid := Batched(s.types[j], bs, sources[j])[k].final;
            && HasKind(xs[k], mid)
            && (cells[k].Null? ==> xs[k] == NaOf(mid) && ys[k] == NaOf(final))
            && (!cells[k].Null? && KeepsTypes(s.types[j], bs, sources[j]) ==>
                  Grows(mid, final) && ys[k] == Widen(xs[k], mid, final))
  {
    hide Batched, DeliveredColumn, ColumnBatchesOf, Arrivals;
    var bs := ColumnBatchesOf(s, requests, sources, j);
    BatchesCoverColumn(s, requests, sources, j);
    DeliveredIsBatched(s, requests, sources, j, k);
    BatchesKeepNulls(s.types[j], bs, sources[j], k);
    if KeepsTypes(s.types[j], bs, sources[j]) { BatchIndependence(s.types[j], bs, sources[j], k); }
  }

  /** Does row `k` of column `j`, widened to the type of the whole column, have the value of a single fetch? */
  ghost predicate RowAgrees(s: Session, requests: seq<int>, sources: seq<Source>, j: nat, k: nat)
    requires Valid(s, sources) && j < |sources| && k < |s.pending|
  {
    var ty, bs, cells, src := s.types[j], ColumnBatchesOf(s, requests, sources, j), ColumnOf(s.pending, j), sources[j];
    var xs, final := DeliveredColumn(s, requests, sources, j), FinalType(ty, cells, src);
    && k < |Concat(bs)| && k < |xs|
    && var mid := Batched(ty, bs, src)[k].final;
    && HasKind(xs[k], mid) && Grows(mid, final)
    && OnePass(ty, cells, src)[k] == Widen(xs[k], mid, final)
  }

  lemma {:induction false} RowAgreesMeans(s: Session, requests: seq<int>, sources: seq<Source>, j: nat, k: nat)
    requires Valid(s, sources) && j < |sources| && k < |s.pending| && NoPeeks(requests)
    requires ServeAll(s, requests, sources).pending == [] && !s.pending[k][j].Null?
    ensures var ty, bs, cells := s.types[j], ColumnBatchesOf(s, requests, sources, j), ColumnOf(s.pending, j);
            && Concat(bs) == cells
            && (RowAgrees(s, requests, sources, j, k) <==>
                SameValue(Batched(ty, bs, sources[j])[k], Arrivals(ty, cells, sources[j])[k],
                          FinalType(ty, cells, sources[j]), sources[j]))
  {
    hide Batched, DeliveredColumn, ColumnBatchesOf, Arrivals, OnePass, Convert, TypeAfter;
    var bs, cells := ColumnBatchesOf(s, requests, sources, j), ColumnOf(s.pending, j);
    BatchesCoverColumn(s, requests, sources, j);
    DeliveredIsBatched(s, requests, sources, j, k);
    OnePassRow(s.types[j], cells, sources[j], k);
  }

  /** Exactly when the batches, whatever their sizes, deliver every value of a column as a single fetch. */
  lemma {:induction false} BatchValuesAreExact(s: Session, requests: seq<int>, sources: seq<Source>, j: nat)
    requires Valid(s, sources) && j < |sources| && NoPeeks(requests)
    requires ServeAll(s, requests, sources).pending == []
    ensures KeepsValues(s.types[j], ColumnBatchesOf(s, requests, sources, j), sources[j]) <==>
            forall k :: 0 <= k < |s.pending| && !s.pending[k][j].Null? ==> RowAgrees(s, requests, sources, j, k)
  {
    hide Batched, DeliveredColumn, Arrivals, OnePass, Convert, TypeAfter, RowAgrees, SameValue, BecomesReal;
    var ty, bs, cells := s.types[j], ColumnBatchesOf(s, requests, sources, j), ColumnOf(s.pending, j);
    BatchesCoverColumn(s, requests, sources, j);
    forall k | 0 <= k < |s.pending| && !s.pending[k][j].Null?
      ensures RowAgrees(s, requests, sources, j, k) <==>
              SameValue(Batched(ty, bs, sources[j])[k], Arrivals(ty, cells, sources[j])[k],
                        FinalType(ty, cells, sources[j]), sources[j])
    {
      RowAgreesMeans(s, requests, sources, j, k);
    }
    if requests != [] { KeepsValuesIsExact(ty, bs, sources[j]); }
  }

  /** If all values of a column have one type, and the declaration agrees with it or is absent, no
      batch sizes make any difference to the values. */
  lemma {:induction false} UniformColumnIgnoresBatches(s: Session, requests: seq<int>, sources: seq<Source>, j: nat,
                                                       t: DataType, k: nat)
    requires Valid(s, sources) && j < |sources| && k < |s.pending| && NoPeeks(requests)
    requires ServeAll(s, requests, sources).pending == []
    requires Start(s.types[j]) == UNKNOWN || Start(s.types[j]) == t
    requires Uniform(ColumnOf(s.pending, j), t, sources[j]) && !s.pending[k][j].Null?
    ensures |DeliveredColumn(s, requests, sources, j)| == |s.pending|
    ensures DeliveredColumn(s, requests, sources, j)[k] == OnePass(s.types[j], ColumnOf(s.pending, j), sources[j])[k]
  {
    hide Batched, DeliveredColumn, ColumnBatchesOf, Arrivals, TypeAfter, OnePass;
    var bs, cells := ColumnBatchesOf(s, requests, sources, j), ColumnOf(s.pending, j);
    BatchesCoverColumn(s, requests, sources, j);
    BatchesAgreeWithOneFetch(s, requests, sources, j, k);
    UniformKeepsTypes(s.types[j], bs, t, sources[j]);
    UniformBatches(s.types[j], bs, t, sources[j], k);
    assert !cells[k].Null?;
    UniformType(Start(s.types[j]), cells, t, sources[j]);
  }
}
