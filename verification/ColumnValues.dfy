/** When fetching a column in batches, or looking ahead first, changes the values R gets, and not only the
    types they are converted at. */
module ColumnValues {
  import opened ColumnTypes
  import opened ColumnSource
  import opened ColumnModel
  import opened ColumnTheorems
  import opened ColumnInference
  import opened ColumnBatches

  /** What the batch delivered, widened to the type of the whole column, is what a single fetch delivers. */
  predicate SameValue(d: Delivery, whole: Arrival, final: DataType, src: Source) {
    && d.final != UNKNOWN && d.row.FitsIn(d.final)
    && final != UNKNOWN && whole.FitsIn(final)
    && Grows(d.final, final)
    && Widen(Convert(d.row, d.final, src), d.final, final) == Convert(whole, final, src)
  }

  /** Is a value that is read as an integer and then widened the same as when it is read as a double? For
      an integer cell: is it not -2^31? */
  predicate ReadsAlike(c: Cell, src: Source) {
    src.FetchInt(c) != NA_INTEGER && src.FetchReal(c) == src.FetchInt(c) as real
  }

  /** Declared REAL, the column begins with an integer and becomes REAL anyway, and the values until then
      read alike. */
  predicate BecomesReal(cells: seq<Cell>, src: Source) {
    var k, w := FirstKnown(cells), FirstWide(cells, src);
    && src.declType == REAL
    && k < |cells| && src.ItemType(cells[k]) == INT
    && w < |cells| && src.ItemType(cells[w]) == REAL
    && forall j :: 0 <= j < w && !cells[j].Null? ==> ReadsAlike(cells[j], src)
  }

  lemma {:induction false} IntegerReadsAlike(c: Cell, src: Source)
    requires c.Integer? && src.ItemType(c) == INT
    ensures ReadsAlike(c, src) <==> c.v != NA_INTEGER
  {
  }

  /** Do the batches deliver the values of a single fetch? */
  predicate KeepsValues(ty: DataType, batches: seq<seq<Cell>>, src: Source) {
    KeepsTypes(ty, batches, src) || BecomesReal(Concat(batches), src)
  }

  /** From a known type on, arrivals only grow. */
  lemma {:induction false} ArrivalGrows(t: DataType, batches: seq<seq<Cell>>, src: Source, k: nat)
    requires Start(t) != UNKNOWN && k < |Concat(batches)|
    ensures Grows(Start(t), Batched(t, batches, src)[k].row.ty)
    decreases |batches|
  {
    hide Batched, TypeAfter, Arrivals;
    BatchedRow(t, batches, src, k);
    var batch := batches[0];
    if k < |batch| {
      ArrivalAt(t, batch, src, k);
      TypeAfterGrows(Start(t), batch[..k + 1], src);
    } else {
      TypeAfterGrows(Start(t), batch, src);
      ArrivalGrows(FinalType(t, batch, src), batches[1..], src, k - |batch|);
    }
  }

  /** If the types are not kept, the first batch settles the column on its declaration, and values arrive
      at that type or a wider one. */
  lemma {:induction false} PinnedArrival(ty: DataType, batches: seq<seq<Cell>>, src: Source, k: nat)
    requires batches != [] && !KeepsTypes(ty, batches, src)
    requires k < |Concat(batches)| && !Concat(batches)[k].Null?
    ensures var d := Batched(ty, batches, src)[k];
            d.row.c == Concat(batches)[k] && Grows(src.declType, d.row.ty) && Grows(src.declType, d.final)
  {
    hide Batched, Arrivals, Convert;
    BatchesKeepNulls(ty, batches, src, k);
    FirstBatchIsNull(ty, batches, src);
    BatchedRow(ty, batches, src, k);
    ArrivalGrows(src.declType, batches[1..], src, k - |batches[0]|);
  }

  /** The type at which row `k` of an open column arrives, if the first value is an integer. */
  lemma {:induction false} IntegerFirst(ty: DataType, cells: seq<Cell>, src: Source, k: nat)
    requires Start(ty) == UNKNOWN && k < |cells| && !cells[k].Null?
    requires FirstKnown(cells) < |cells| && src.ItemType(cells[FirstKnown(cells)]) == INT
    ensures var w := FirstWide(cells, src);
            Arrivals(ty, cells, src)[k].ty == if k < w then INT else src.ItemType(cells[w])
  {
    hide Arrivals, TypeAfter;
    var before := cells[..k + 1];
    ArrivalAt(ty, cells, src, k);
    TypeIsInferred(Start(ty), before, src);
    assert before[k] == cells[k];
    assert FirstKnown(before) == FirstKnown(cells);
    var w := FirstWide(cells, src);
    if w <= k { assert before[w] == cells[w]; }
  }

  /** A value read as a double in the batch, in a column that becomes REAL. */
  lemma {:induction false} RealRow(d: Delivery, whole: Arrival, src: Source)
    requires d.row.ty == REAL && d.final == REAL && !d.row.c.Null? && whole.c == d.row.c
    requires whole.ty == INT || whole.ty == REAL
    ensures SameValue(d, whole, REAL, src) <==> whole.ty == REAL || ReadsAlike(whole.c, src)
  {
  }

  /** A first value that arrives at a type of its own in the batches can only be delivered alike in a
      column declared REAL that becomes REAL. */
  lemma {:induction false} FirstValueDecides(ty: DataType, batches: seq<seq<Cell>>, src: Source)
    requires batches != [] && !KeepsTypes(ty, batches, src)
    requires var whole, k := Concat(batches), FirstKnown(Concat(batches));
             SameValue(Batched(ty, batches, src)[k], Arrivals(ty, whole, src)[k], FinalType(ty, whole, src), src)
    ensures var whole := Concat(batches);
            var k, w := FirstKnown(whole), FirstWide(whole, src);
            && FinalType(ty, whole, src) == REAL == src.declType
            && src.ItemType(whole[k]) == INT
            && w < |whole| && src.ItemType(whole[w]) == REAL
  {
    hide Batched, Arrivals, TypeAfter, Convert;
    var whole := Concat(batches);
    PinnedArrival(ty, batches, src, FirstKnown(whole));
    FirstBatchIsNull(ty, batches, src);
    TypeIsInferred(Start(ty), whole, src);
  }

  /** Row `k` when the types are not kept, but the column becomes REAL. */
  lemma {:induction false} PinnedRow(ty: DataType, batches: seq<seq<Cell>>, src: Source, k: nat)
    requires batches != [] && !KeepsTypes(ty, batches, src)
    requires src.declType == REAL
    requires k < |Concat(batches)| && !Concat(batches)[k].Null?
    requires var whole := Concat(batches);
             var f, w := FirstKnown(whole), FirstWide(whole, src);
             && f < |whole| && src.ItemType(whole[f]) == INT
             && w < |whole| && src.ItemType(whole[w]) == REAL
    ensures var whole := Concat(batches);
            && FinalType(ty, whole, src) == REAL
            && (SameValue(Batched(ty, batches, src)[k], Arrivals(ty, whole, src)[k], FinalType(ty, whole, src), src)
                <==> k >= FirstWide(whole, src) || ReadsAlike(whole[k], src))
  {
    hide Batched, Arrivals, TypeAfter, Convert, SameValue, ReadsAlike;
    var whole := Concat(batches);
    PinnedArrival(ty, batches, src, k);
    TypeIsInferred(Start(ty), whole, src);
    IntegerFirst(ty, whole, src, k);
    RealRow(Batched(ty, batches, src)[k], Arrivals(ty, whole, src)[k], src);
  }

  /** `KeepsValues` is exactly the condition under which every value is delivered as by a single fetch. */
  lemma {:induction false} KeepsValuesIsExact(ty: DataType, batches: seq<seq<Cell>>, src: Source)
    requires batches != []
    ensures KeepsValues(ty, batches, src) <==>
            forall k :: 0 <= k < |Concat(batches)| && !Concat(batches)[k].Null? ==>
              SameValue(Batched(ty, batches, src)[k], Arrivals(ty, Concat(batches), src)[k],
                        FinalType(ty, Concat(batches), src), src)
  {
    hide Batched, Arrivals, TypeAfter, Convert, SameValue, ReadsAlike, KeepsTypes;
    var whole := Concat(batches);
    if KeepsTypes(ty, batches, src) {
      forall k | 0 <= k < |whole| && !whole[k].Null?
        ensures SameValue(Batched(ty, batches, src)[k], Arrivals(ty, whole, src)[k], FinalType(ty, whole, src), src)
      {
        BatchIndependence(ty, batches, src, k);
        SameRowSameValue(Batched(ty, batches, src)[k], Arrivals(ty, whole, src)[k], FinalType(ty, whole, src), src);
      }
    } else {
      UnfitDeclarationShows(ty, batches, src);
      var f := FirstKnown(whole);
      if SameValue(Batched(ty, batches, src)[f], Arrivals(ty, whole, src)[f], FinalType(ty, whole, src), src) {
        FirstValueDecides(ty, batches, src);
      }
      if src.declType == REAL && src.ItemType(whole[f]) == INT
         && FirstWide(whole, src) < |whole| && src.ItemType(whole[FirstWide(whole, src)]) == REAL
      {
        forall k | 0 <= k < |whole| && !whole[k].Null?
          ensures SameValue(Batched(ty, batches, src)[k], Arrivals(ty, whole, src)[k], FinalType(ty, whole, src), src)
                  <==> k >= FirstWide(whole, src) || ReadsAlike(whole[k], src)
        {
          PinnedRow(ty, batches, src, k);
        }
      }
    }
  }

  lemma {:induction false} SameRowSameValue(d: Delivery, whole: Arrival, final: DataType, src: Source)
    requires SameRow(d, whole, final, src) && !whole.c.Null?
    ensures SameValue(d, whole, final, src)
  {
  }

  /** A look ahead changes the values delivered afterwards exactly when the column was open, the row looked
      at is NULL, the declaration does not fit, and the column does not become REAL anyway. */
  lemma {:induction false} PeekKeepsValuesIsExact(ty: DataType, cells: seq<Cell>, src: Source)
    requires cells != []
    ensures var peeked := FinalType(ty, cells[..1], src);
            (forall k :: 0 <= k < |cells| && !cells[k].Null? ==>
               SameValue(Delivery(Arrivals(peeked, cells, src)[k], FinalType(peeked, cells, src)),
                         Arrivals(ty, cells, src)[k], FinalType(ty, cells, src), src))
            <==> || Start(ty) != UNKNOWN || !cells[0].Null?
                 || DeclarationFits(cells, src) || BecomesReal(cells, src)
  {
    hide Batched, Arrivals, TypeAfter, Convert, SameValue, DeclarationFits, BecomesReal;
    if Start(ty) == UNKNOWN && cells[0].Null? {
      PeekAtNull(ty, cells, src);
      PeekIsEmptyBatch(ty, cells, src);
      KeepsValuesIsExact(ty, [[], cells], src);
    } else {
      PeekedEvolves(ty, cells, src);
    }
  }

  /** To an open column a look at a NULL does what a batch without rows would do. */
  lemma {:induction false} PeekIsEmptyBatch(ty: DataType, cells: seq<Cell>, src: Source)
    requires Start(ty) == UNKNOWN && cells != []
    ensures Concat([[], cells]) == cells
    ensures KeepsValues(ty, [[], cells], src) <==> DeclarationFits(cells, src) || BecomesReal(cells, src)
    ensures forall k :: 0 <= k < |cells| ==>
              Batched(ty, [[], cells], src)[k]
              == Delivery(Arrivals(src.declType, cells, src)[k], FinalType(src.declType, cells, src))
  {
    hide Batched, Arrivals, Convert, DeclarationFits, BecomesReal;
    var batches := [[], cells];
    assert batches[1..] == [cells] && [cells][1..] == [];
    assert Concat([cells]) == cells;
    forall k | 0 <= k < |cells|
      ensures Batched(ty, batches, src)[k]
              == Delivery(Arrivals(src.declType, cells, src)[k], FinalType(src.declType, cells, src))
    {
      BatchedRow(ty, batches, src, k);
      BatchedRow(src.declType, [cells], src, k);
    }
  }

  lemma {:induction false} PeekedEvolves(ty: DataType, cells: seq<Cell>, src: Source)
    requires cells != [] && (Start(ty) != UNKNOWN || !cells[0].Null?)
    ensures var peeked := FinalType(ty, cells[..1], src);
            forall k :: 0 <= k < |cells| && !cells[k].Null? ==>
              SameValue(Delivery(Arrivals(peeked, cells, src)[k], FinalType(peeked, cells, src)),
                        Arrivals(ty, cells, src)[k], FinalType(ty, cells, src), src)
  {
    hide Batched, Arrivals, TypeAfter;
    PeekKnown(ty, cells, src);
    PeekedType(ty, cells, src);
  }

  lemma {:induction false} PeekedType(ty: DataType, cells: seq<Cell>, src: Source)
    requires cells != [] && (Start(ty) != UNKNOWN || !cells[0].Null?)
    ensures FinalType(FinalType(ty, cells[..1], src), cells, src) == FinalType(ty, cells, src)
  {
    var c, rest := cells[0], cells[1..];
    var peeked := FinalType(ty, [c], src);
    assert cells[..1] == [c] && cells == [c] + rest;
    PeekedTwice(ty, c, src);
    TypeAfterConcat(Start(ty), [c], rest, src);
    TypeAfterConcat(Start(peeked), [c], rest, src);
  }
}
