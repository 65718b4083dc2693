/** A column fetched in several batches, each starting from the type the previous one ended with,
    against the same column fetched at once. */
module ColumnBatches {
  import opened ColumnTypes
  import opened ColumnSource
  import opened ColumnModel
  import opened ColumnTheorems
  import opened ColumnInference

  function Concat<T>(xss: seq<seq<T>>): seq<T> {
    if xss == [] then [] else xss[0] + Concat(xss[1..])
  }

  /** A row as delivered: its arrival in its own batch, and that batch's final type. */
  datatype Delivery = Delivery(row: Arrival, final: DataType)

  function Deliver(rows: seq<Arrival>, final: DataType): (ds: seq<Delivery>)
    ensures |ds| == |rows|
    ensures forall k :: 0 <= k < |rows| ==> ds[k] == Delivery(rows[k], final)
  {
    seq(|rows|, k requires 0 <= k < |rows| => Delivery(rows[k], final))
  }

  /** All rows of a column fetched in `batches`, the first of which starts from type `ty`. */
  function Batched(ty: DataType, batches: seq<seq<Cell>>, src: Source): (ds: seq<Delivery>)
    ensures |ds| == |Concat(batches)|
    ensures forall k :: 0 <= k < |ds| ==> ds[k].final != UNKNOWN && ds[k].row.FitsIn(ds[k].final)
    decreases |batches|
  {
    if batches == [] then []
    else
      var final := FinalType(ty, batches[0], src);
      Deliver(Arrivals(ty, batches[0], src), final) + Batched(final, batches[1..], src)
  }

  /** A row belongs to the first batch or to the others. */
  lemma {:induction false} BatchedRow(ty: DataType, batches: seq<seq<Cell>>, src: Source, k: nat)
    requires k < |Concat(batches)|
    ensures batches != []
    ensures var batch, rest := batches[0], batches[1..];
            && |Concat(batches)| == |batch| + |Concat(rest)|
            && Concat(batches)[k] == (if k < |batch| then batch[k] else Concat(rest)[k - |batch|])
            && Batched(ty, batches, src)[k] ==
               if k < |batch| then Delivery(Arrivals(ty, batch, src)[k], FinalType(ty, batch, src))
               else Batched(FinalType(ty, batch, src), rest, src)[k - |batch|]
  {
  }

  // ----- Types across a split

  lemma {:induction false} TypeAfterConcat(t: DataType, a: seq<Cell>, b: seq<Cell>, src: Source)
    ensures TypeAfter(t, a + b, src) == TypeAfter(TypeAfter(t, a, src), b, src)
    decreases |b|
  {
    if b == [] {
      assert a + b == a;
    } else {
      assert (a + b)[..|a + b| - 1] == a + b[..|b| - 1];
      TypeAfterConcat(t, a, b[..|b| - 1], src);
    }
  }

  lemma {:induction false} TypeAfterGrows(t: DataType, cells: seq<Cell>, src: Source)
    ensures Grows(t, TypeAfter(t, cells, src))
    ensures t != BOOL ==> TypeAfter(t, cells, src) != BOOL
    decreases |cells|
  {
    if cells != [] { TypeAfterGrows(t, cells[..|cells| - 1], src); }
  }

  lemma {:induction false} ArrivalsConcat(t: DataType, a: seq<Cell>, b: seq<Cell>, src: Source)
    ensures Arrivals(t, a + b, src) == Arrivals(t, a, src) + Arrivals(TypeAfter(Start(t), a, src), b, src)
    decreases |b|
  {
    TypeAfterGrows(Start(t), a, src);
    if b == [] {
      assert a + b == a;
    } else {
      assert (a + b)[..|a + b| - 1] == a + b[..|b| - 1];
      ArrivalsConcat(t, a, b[..|b| - 1], src);
      TypeAfterConcat(Start(t), a, b, src);
    }
  }

  // ----- When the batches agree with the whole

  /** The declared type is what the first value to come would choose anyway, or leaves the column open,
      or no value comes. */
  predicate DeclarationFits(cells: seq<Cell>, src: Source) {
    var k := FirstKnown(cells);
    || src.declType == BOOL
    || k == |cells|
    || TypeStep(src.declType, cells[k], src) == src.ItemType(cells[k])
  }

  /** Fetching in batches keeps every value: the column's type was known beforehand, or the first batch
      holds a value, or the declared type, which a first batch of NULLs settles on, fits. */
  predicate KeepsTypes(ty: DataType, batches: seq<seq<Cell>>, src: Source) {
    || Start(ty) != UNKNOWN
    || (batches != [] && FirstKnown(batches[0]) < |batches[0]|)
    || DeclarationFits(Concat(batches), src)
  }

  /** Type `s` of the batched column and type `u` of the whole one, before the cells of `rest`: equal, or
      the former already settled by the declaration, in time. */
  predicate InStep(s: DataType, u: DataType, rest: seq<Cell>, src: Source) {
    && s != BOOL && u != BOOL
    && (s == u || (u == UNKNOWN && s == src.declType))
    && (u == UNKNOWN ==> DeclarationFits(rest, src))
  }

  lemma {:induction false} InStepStep(s: DataType, u: DataType, c: Cell, rest: seq<Cell>, src: Source)
    requires InStep(s, u, [c] + rest, src)
    ensures InStep(TypeStep(s, c, src), TypeStep(u, c, src), rest, src)
    ensures !c.Null? ==> TypeStep(s, c, src) == TypeStep(u, c, src)
  {
    var cells := [c] + rest;
    assert cells[1..] == rest;
    if c.Null? && FirstKnown(rest) < |rest| { assert cells[FirstKnown(cells)] == rest[FirstKnown(rest)]; }
  }

  lemma {:induction false} InStepBatch(s: DataType, u: DataType, batch: seq<Cell>, rest: seq<Cell>, src: Source)
    requires InStep(s, u, batch + rest, src)
    ensures InStep(TypeAfter(s, batch, src), TypeAfter(u, batch, src), rest, src)
    ensures forall j :: 0 <= j < |batch| && !batch[j].Null? ==>
              Arrivals(s, batch, src)[j] == Arrivals(u, batch, src)[j]
    decreases |batch|
  {
    if batch == [] {
      assert batch + rest == rest;
    } else {
      var n := |batch| - 1;
      assert batch + rest == batch[..n] + ([batch[n]] + rest);
      InStepBatch(s, u, batch[..n], [batch[n]] + rest, src);
      InStepStep(TypeAfter(s, batch[..n], src), TypeAfter(u, batch[..n], src), batch[n], rest, src);
    }
  }

  lemma {:induction false} KnownAfterValue(t: DataType, cells: seq<Cell>, j: nat, src: Source)
    requires j < |cells| && !cells[j].Null?
    ensures TypeAfter(t, cells, src) != UNKNOWN
  {
    TypeIsInferred(t, cells, src);
  }

  /** Row `k` was converted at the same type both ways, and what its batch delivered for it, widened to
      the type of the whole column, is what a single fetch delivers. */
  predicate SameRow(d: Delivery, whole: Arrival, final: DataType, src: Source)
  {
    && d.final != UNKNOWN && d.row.FitsIn(d.final)
    && final != UNKNOWN && whole.FitsIn(final)
    && var x, y := Convert(d.row, d.final, src), Convert(whole, final, src);
    && d.row.c == whole.c
    && if whole.c.Null? then x == NaOf(d.final) && y == NaOf(final)
       else Grows(d.final, final) && d.row.ty == whole.ty && Widen(x, d.final, final) == y
  }

  lemma {:induction false} WidenTwice(row: Arrival, mid: DataType, final: DataType, src: Source)
    requires !row.c.Null? && row.FitsIn(mid) && Grows(mid, final) && mid != UNKNOWN
    ensures row.FitsIn(final)
    ensures SameRow(Delivery(row, mid), row, final, src)
  {
  }

  lemma {:induction false} NullRow(d: Delivery, whole: Arrival, final: DataType, src: Source)
    requires d.final != UNKNOWN && d.row.FitsIn(d.final) && final != UNKNOWN && whole.FitsIn(final)
    requires d.row.c == whole.c && whole.c.Null?
    ensures SameRow(d, whole, final, src)
  {
  }

  /** A row of the first batch, at a type known to lead to the final one. */
  lemma {:induction false} FirstBatchRow(ty: DataType, u: DataType, batches: seq<seq<Cell>>, src: Source, k: nat)
    requires batches != [] && k < |batches[0]| && k < |Concat(batches)|
    requires var batch := batches[0];
             && (batch[k].Null? || Arrivals(ty, batch, src)[k] == Arrivals(u, batch, src)[k])
             && (batch[k].Null? || TypeAfter(Start(ty), batch, src) == TypeAfter(Start(u), batch, src))
    ensures SameRow(Batched(ty, batches, src)[k], Arrivals(u, Concat(batches), src)[k],
                    FinalType(u, Concat(batches), src), src)
  {
    hide SameRow, Convert, TypeAfter, Arrivals, Batched;
    BatchedRow(ty, batches, src, k);
    var batch, rest, whole := batches[0], Concat(batches[1..]), Concat(batches);
    var next := FinalType(ty, batch, src);
    ArrivalsConcat(u, batch, rest, src);
    TypeAfterConcat(Start(u), batch, rest, src);
    TypeAfterGrows(TypeAfter(Start(u), batch, src), rest, src);
    var d, row := Batched(ty, batches, src)[k], Arrivals(u, whole, src)[k];
    assert d == Delivery(Arrivals(ty, batch, src)[k], next);
    assert row == Arrivals(u, batch, src)[k];
    if batch[k].Null? {
      NullRow(d, row, FinalType(u, whole, src), src);
    } else {
      KnownAfterValue(Start(u), batch, k, src);
      WidenTwice(row, next, FinalType(u, whole, src), src);
    }
  }

  /** A row of a later batch is a row of the rest of the fetch. */
  lemma {:induction false} LaterBatchRow(ty: DataType, u: DataType, batches: seq<seq<Cell>>, src: Source, k: nat)
    requires batches != [] && |batches[0]| <= k < |Concat(batches)| && u != BOOL
    ensures var batch, rest := batches[0], Concat(batches[1..]);
            var u' := TypeAfter(u, batch, src);
            && Batched(ty, batches, src)[k] == Batched(FinalType(ty, batch, src), batches[1..], src)[k - |batch|]
            && Arrivals(u, Concat(batches), src)[k] == Arrivals(u', rest, src)[k - |batch|]
            && FinalType(u, Concat(batches), src) == FinalType(u', rest, src)
  {
    hide TypeAfter, Arrivals, Batched;
    BatchedRow(ty, batches, src, k);
    TypeAfterGrows(u, batches[0], src);
    ArrivalsConcat(u, batches[0], Concat(batches[1..]), src);
    TypeAfterConcat(u, batches[0], Concat(batches[1..]), src);
  }

  lemma {:induction false} BatchesInStep(ty: DataType, u: DataType, batches: seq<seq<Cell>>, src: Source, k: nat)
    requires InStep(Start(ty), u, Concat(batches), src)
    requires k < |Concat(batches)|
    ensures SameRow(Batched(ty, batches, src)[k], Arrivals(u, Concat(batches), src)[k],
                    FinalType(u, Concat(batches), src), src)
    decreases |batches|
  {
    hide SameRow, TypeAfter, Arrivals, Batched, DeclarationFits;
    var batch, rest := batches[0], Concat(batches[1..]);
    InStepBatch(Start(ty), u, batch, rest, src);
    StartTwice(ty, batch, src);
    if k < |batch| {
      if !batch[k].Null? { KnownAfterValue(u, batch, k, src); }
      FirstBatchRow(ty, u, batches, src, k);
    } else {
      LaterBatchRow(ty, u, batches, src, k);
      TypeAfterGrows(u, batch, src);
      BatchesInStep(FinalType(ty, batch, src), TypeAfter(u, batch, src), batches[1..], src, k - |batch|);
    }
  }

  /** Splitting a fetch into batches keeps every row whenever `KeepsTypes`: the same NULLs, and every
      other row as a single fetch delivers it, up to the widening of the whole column. */
  lemma {:induction false} BatchIndependence(ty: DataType, batches: seq<seq<Cell>>, src: Source, k: nat)
    requires KeepsTypes(ty, batches, src) && k < |Concat(batches)|
    ensures SameRow(Batched(ty, batches, src)[k], Arrivals(ty, Concat(batches), src)[k],
                    FinalType(ty, Concat(batches), src), src)
  {
    hide SameRow, Convert, TypeAfter, Arrivals, Batched;
    var whole := Concat(batches);
    StartTwice(ty, whole, src);
    if Start(ty) != UNKNOWN || DeclarationFits(whole, src) {
      BatchesInStep(ty, Start(ty), batches, src, k);
    } else {
      var batch, rest := batches[0], Concat(batches[1..]);
      var next := FinalType(ty, batch, src);
      KnownAfterValue(Start(ty), batch, FirstKnown(batch), src);
      TypeAfterGrows(Start(ty), batch, src);
      if k < |batch| {
        FirstBatchRow(ty, ty, batches, src, k);
      } else {
        LaterBatchRow(ty, Start(ty), batches, src, k);
        BatchesInStep(next, next, batches[1..], src, k - |batch|);
      }
    }
  }

  lemma {:induction false} StartTwice(ty: DataType, cells: seq<Cell>, src: Source)
    ensures Arrivals(ty, cells, src) == Arrivals(Start(ty), cells, src)
    decreases |cells|
  {
    if cells != [] { StartTwice(ty, cells[..|cells| - 1], src); }
  }

  /** NULLs never depend on the batches. */
  lemma {:induction false} BatchesKeepNulls(ty: DataType, batches: seq<seq<Cell>>, src: Source, k: nat)
    requires k < |Concat(batches)|
    ensures Batched(ty, batches, src)[k].row.c == Concat(batches)[k]
    ensures Concat(batches)[k].Null? ==>
              var d := Batched(ty, batches, src)[k]; Convert(d.row, d.final, src) == NaOf(d.final)
    decreases |batches|
  {
    hide Batched, Concat;
    BatchedRow(ty, batches, src, k);
    if k >= |batches[0]| { BatchesKeepNulls(FinalType(ty, batches[0], src), batches[1..], src, k - |batches[0]|); }
  }

  lemma {:induction false} FirstArrival(ty: DataType, cells: seq<Cell>, src: Source)
    requires FirstKnown(cells) < |cells|
    ensures var k := FirstKnown(cells);
            Arrivals(ty, cells, src)[k].ty == TypeStep(Start(ty), cells[k], src)
  {
    hide Arrivals;
    var k := FirstKnown(cells);
    ArrivalAt(ty, cells, src, k);
    assert cells[..k + 1][..k] == cells[..k];
    NullsKeepType(Start(ty), cells[..k], src);
  }

  /** The first value after a known type `t` arrives at that type or widens it. */
  lemma {:induction false} FirstValueArrives(t: DataType, batches: seq<seq<Cell>>, src: Source)
    requires Start(t) != UNKNOWN && FirstKnown(Concat(batches)) < |Concat(batches)|
    ensures var k := FirstKnown(Concat(batches));
            Batched(t, batches, src)[k].row.ty == TypeStep(t, Concat(batches)[k], src)
    decreases |batches|
  {
    hide Convert, Arrivals, Batched;
    var whole, k := Concat(batches), FirstKnown(Concat(batches));
    BatchedRow(t, batches, src, k);
    var batch := batches[0];
    if k < |batch| {
      FirstKnownInPrefix(batch, Concat(batches[1..]));
      FirstArrival(t, batch, src);
    } else {
      assert batch == whole[..|batch|];
      NullsKeepType(Start(t), batch, src);
      FirstKnownSkips(batch, Concat(batches[1..]));
      FirstValueArrives(t, batches[1..], src);
    }
  }

  lemma {:induction false} NullsKeepType(t: DataType, cells: seq<Cell>, src: Source)
    requires forall j :: 0 <= j < |cells| ==> cells[j].Null?
    ensures TypeAfter(t, cells, src) == t
    decreases |cells|
  {
    if cells != [] { NullsKeepType(t, cells[..|cells| - 1], src); }
  }

  lemma {:induction false} FirstKnownInPrefix(a: seq<Cell>, b: seq<Cell>)
    requires FirstKnown(a + b) < |a|
    ensures FirstKnown(a) == FirstKnown(a + b)
    decreases |a|
  {
    assert (a + b)[0] == a[0] && (a + b)[1..] == a[1..] + b;
    if a[0].Null? { FirstKnownInPrefix(a[1..], b); }
  }

  lemma {:induction false} FirstKnownSkips(a: seq<Cell>, b: seq<Cell>)
    requires forall j :: 0 <= j < |a| ==> a[j].Null?
    ensures FirstKnown(a + b) == |a| + FirstKnown(b)
    decreases |a|
  {
    if a == [] {
      assert a + b == b;
    } else {
      assert (a + b)[1..] == a[1..] + b;
      FirstKnownSkips(a[1..], b);
    }
  }

  /** `KeepsTypes` is exactly the condition under which every value arrives at the same type whether
      the column is fetched in batches or at once. */
  lemma {:induction false} KeepsTypesIsExact(ty: DataType, batches: seq<seq<Cell>>, src: Source)
    requires batches != []
    ensures KeepsTypes(ty, batches, src) <==>
            forall k :: 0 <= k < |Concat(batches)| && !Concat(batches)[k].Null? ==>
              Batched(ty, batches, src)[k].row.ty == Arrivals(ty, Concat(batches), src)[k].ty
  {
    if KeepsTypes(ty, batches, src) {
      forall k | 0 <= k < |Concat(batches)| && !Concat(batches)[k].Null?
        ensures Batched(ty, batches, src)[k].row.ty == Arrivals(ty, Concat(batches), src)[k].ty
      {
        BatchIndependence(ty, batches, src, k);
      }
    } else {
      UnfitDeclarationShows(ty, batches, src);
    }
  }

  // ----- Columns of one type

  /** All values have one type, and the declaration agrees with it or is absent. */
  predicate Uniform(cells: seq<Cell>, t: DataType, src: Source) {
    && t != UNKNOWN && t != BOOL
    && (src.declType == BOOL || src.declType == t)
    && forall k :: 0 <= k < |cells| && !cells[k].Null? ==> src.ItemType(cells[k]) == t
  }

  lemma {:induction false} UniformType(u: DataType, cells: seq<Cell>, t: DataType, src: Source)
    requires Uniform(cells, t, src) && (u == UNKNOWN || u == t)
    ensures TypeAfter(u, cells, src) == u || TypeAfter(u, cells, src) == t
    ensures FirstKnown(cells) < |cells| ==> TypeAfter(u, cells, src) == t
  {
    TypeIsInferred(u, cells, src);
    if FirstWide(cells, src) < |cells| { assert src.ItemType(cells[FirstWide(cells, src)]) == t; }
  }

  lemma {:induction false} UniformParts(a: seq<Cell>, b: seq<Cell>, t: DataType, src: Source)
    requires Uniform(a + b, t, src)
    ensures Uniform(a, t, src) && Uniform(b, t, src)
  {
    assert forall j :: 0 <= j < |a| ==> a[j] == (a + b)[j];
    assert forall j :: 0 <= j < |b| ==> b[j] == (a + b)[|a| + j];
  }

  /** Every batch that holds a value has that type. */
  lemma {:induction false} UniformBatches(ty: DataType, batches: seq<seq<Cell>>, t: DataType, src: Source, k: nat)
    requires Uniform(Concat(batches), t, src) && (Start(ty) == UNKNOWN || Start(ty) == t)
    requires k < |Concat(batches)| && !Concat(batches)[k].Null?
    ensures Batched(ty, batches, src)[k].final == t
    decreases |batches|
  {
    hide Batched, TypeAfter, Uniform;
    BatchedRow(ty, batches, src, k);
    var batch, rest := batches[0], Concat(batches[1..]);
    UniformParts(batch, rest, t, src);
    UniformType(Start(ty), batch, t, src);
    if k >= |batch| {
      UniformDeclaration(rest, t, src);
      UniformBatches(FinalType(ty, batch, src), batches[1..], t, src, k - |batch|);
    } else {
      UniformDeclaration(batch, t, src);
    }
  }

  lemma {:induction false} UniformDeclaration(cells: seq<Cell>, t: DataType, src: Source)
    requires Uniform(cells, t, src)
    ensures t != UNKNOWN && t != BOOL && (src.declType == BOOL || src.declType == t)
  {
  }

  lemma {:induction false} UniformKeepsTypes(ty: DataType, batches: seq<seq<Cell>>, t: DataType, src: Source)
    requires Uniform(Concat(batches), t, src)
    ensures KeepsTypes(ty, batches, src)
  {
  }

  // ----- When a declaration does not fit

  lemma {:induction false} FirstBatchIsNull(ty: DataType, batches: seq<seq<Cell>>, src: Source)
    requires batches != [] && !KeepsTypes(ty, batches, src)
    ensures FinalType(ty, batches[0], src) == src.declType != BOOL
    ensures FirstKnown(Concat(batches)) == |batches[0]| + FirstKnown(Concat(batches[1..]))
  {
    NullsKeepType(UNKNOWN, batches[0], src);
    FirstKnownSkips(batches[0], Concat(batches[1..]));
  }

  lemma {:induction false} UnfitDeclarationShows(ty: DataType, batches: seq<seq<Cell>>, src: Source)
    requires batches != [] && !KeepsTypes(ty, batches, src)
    ensures var whole, k := Concat(batches), FirstKnown(Concat(batches));
            && k < |whole|
            && Batched(ty, batches, src)[k].row.ty != Arrivals(ty, whole, src)[k].ty
  {
    hide Convert, Arrivals, Batched, TypeAfter;
    var whole, k := Concat(batches), FirstKnown(Concat(batches));
    BatchedRow(ty, batches, src, k);
    FirstBatchIsNull(ty, batches, src);
    FirstValueArrives(src.declType, batches[1..], src);
    FirstArrival(ty, whole, src);
  }

  // ----- Types over a run of batches

  /** The column type after each batch. */
  function TypesOver(ty: DataType, batches: seq<seq<Cell>>, src: Source): (tys: seq<DataType>)
    ensures |tys| == |batches|
    decreases |batches|
  {
    if batches == [] then []
    else [FinalType(ty, batches[0], src)] + TypesOver(FinalType(ty, batches[0], src), batches[1..], src)
  }

  lemma {:induction false} TypesOnlyGrow(ty: DataType, batches: seq<seq<Cell>>, src: Source, j: nat)
    requires j < |batches|
    ensures Grows(Start(ty), TypesOver(ty, batches, src)[j])
    decreases |batches|
  {
    var next := FinalType(ty, batches[0], src);
    TypeAfterGrows(Start(ty), batches[0], src);
    if j > 0 { TypesOnlyGrow(next, batches[1..], src, j - 1); }
  }

  lemma {:induction false} TypesOverSuffix(ty: DataType, batches: seq<seq<Cell>>, src: Source, i: nat)
    requires i < |batches|
    ensures TypesOver(ty, batches, src)[i + 1..]
            == TypesOver(TypesOver(ty, batches, src)[i], batches[i + 1..], src)
    decreases |batches|
  {
    if i > 0 {
      TypesOverSuffix(FinalType(ty, batches[0], src), batches[1..], src, i - 1);
      assert batches[1..][i..] == batches[i + 1..];
    }
  }

  /** Over any run of batches a column type, once known, changes at most once, and then only from INT to
      INT64 or REAL. */
  lemma {:induction false} KnownTypeChangesOnce(ty: DataType, batches: seq<seq<Cell>>, src: Source, i: nat, j: nat,
                                                k: nat)
    requires i < j < k < |batches| && TypesOver(ty, batches, src)[i] != BOOL
    ensures var tys := TypesOver(ty, batches, src);
            && (tys[i] == tys[j] || (Widens(tys[i], tys[j]) && tys[j] == tys[k]))
            && (tys[i] == tys[k] || Widens(tys[i], tys[k]))
  {
    var tys := TypesOver(ty, batches, src);
    TypesOverSuffix(ty, batches, src, i);
    TypesOnlyGrow(tys[i], batches[i + 1..], src, j - i - 1);
    TypesOnlyGrow(tys[i], batches[i + 1..], src, k - i - 1);
    TypesOverSuffix(ty, batches, src, j);
    TypesOnlyGrow(tys[j], batches[j + 1..], src, k - j - 1);
    TypesAreSettled(ty, batches, src, i);
  }

  lemma {:induction false} TypesAreSettled(ty: DataType, batches: seq<seq<Cell>>, src: Source, i: nat)
    requires i < |batches|
    ensures TypesOver(ty, batches, src)[i] != UNKNOWN
    decreases |batches|
  {
    if i > 0 { TypesAreSettled(FinalType(ty, batches[0], src), batches[1..], src, i - 1); }
  }

  // ----- Peeking at the next row

  lemma {:induction false} TypeAfterOne(t: DataType, c: Cell, src: Source)
    ensures TypeAfter(t, [c], src) == TypeStep(t, c, src)
  {
    assert [c][..0] == [];
  }

  /** Peeking twice changes the types no more than peeking once. */
  lemma {:induction false} PeekTwice(ty: DataType, cells: seq<Cell>, src: Source)
    requires |cells| <= 1
    ensures FinalType(FinalType(ty, cells, src), cells, src) == FinalType(ty, cells, src)
  {
    if cells != [] {
      assert cells == [cells[0]];
      TypeAfterOne(Start(ty), cells[0], src);
      TypeAfterOne(Start(FinalType(ty, cells, src)), cells[0], src);
    }
  }

  /** A peek at the first of the rows to come changes what they arrive as exactly when the declaration
      does not fit and that first row is NULL. */
  lemma {:induction false} PeekIsExact(ty: DataType, cells: seq<Cell>, src: Source)
    requires cells != []
    ensures (forall k :: 0 <= k < |cells| && !cells[k].Null? ==>
               Arrivals(FinalType(ty, cells[..1], src), cells, src)[k].ty == Arrivals(ty, cells, src)[k].ty)
            <==> (Start(ty) != UNKNOWN || !cells[0].Null? || DeclarationFits(cells, src))
  {
    hide Arrivals, TypeAfter;
    if Start(ty) == UNKNOWN && cells[0].Null? {
      PeekAtNull(ty, cells, src);
      if DeclarationFits(cells, src) {
        StartTwice(src.declType, cells, src);
        StartTwice(ty, cells, src);
        assert cells + [] == cells;
        InStepBatch(Start(src.declType), UNKNOWN, cells, [], src);
      } else {
        PeekUnfit(ty, cells, src);
      }
    } else {
      PeekKnown(ty, cells, src);
    }
  }

  lemma {:induction false} PeekAtNull(ty: DataType, cells: seq<Cell>, src: Source)
    requires cells != [] && Start(ty) == UNKNOWN && cells[0].Null?
    ensures FinalType(ty, cells[..1], src) == src.declType
  {
    assert cells[..1] == [cells[0]];
    TypeAfterOne(Start(ty), cells[0], src);
  }

  lemma {:induction false} PeekUnfit(ty: DataType, cells: seq<Cell>, src: Source)
    requires Start(ty) == UNKNOWN && !DeclarationFits(cells, src)
    ensures var k := FirstKnown(cells);
            && k < |cells|
            && Arrivals(src.declType, cells, src)[k].ty != Arrivals(ty, cells, src)[k].ty
  {
    hide Arrivals, TypeAfter;
    FirstArrival(ty, cells, src);
    FirstArrival(src.declType, cells, src);
  }

  /** After a peek at a value, or with a type known before, a column evolves as without the peek. */
  lemma {:induction false} PeekKnown(ty: DataType, cells: seq<Cell>, src: Source)
    requires cells != [] && (Start(ty) != UNKNOWN || !cells[0].Null?)
    ensures Arrivals(FinalType(ty, cells[..1], src), cells, src) == Arrivals(ty, cells, src)
  {
    var c := cells[0];
    assert cells[..1] == [c] && cells == [c] + cells[1..];
    var peeked := FinalType(ty, [c], src);
    PeekedTwice(ty, c, src);
    ArrivalsConcat(ty, [c], cells[1..], src);
    ArrivalsConcat(peeked, [c], cells[1..], src);
  }

  lemma {:induction false} PeekedTwice(ty: DataType, c: Cell, src: Source)
    requires Start(ty) != UNKNOWN || !c.Null?
    ensures var peeked := FinalType(ty, [c], src);
            && TypeAfter(Start(peeked), [c], src) == TypeAfter(Start(ty), [c], src)
            && Arrivals(peeked, [c], src) == Arrivals(ty, [c], src)
  {
    TypeAfterOne(Start(ty), c, src);
    TypeAfterOne(Start(FinalType(ty, [c], src)), c, src);
  }
}
