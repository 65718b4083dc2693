/** What R gets for each cell, and the type of each column, spelled out by storage class. */
module ColumnCells {
  import Affinity
  import opened ColumnTypes
  import opened ColumnSource
  import opened ColumnModel
  import opened ColumnTheorems
  import opened ColumnInference

  // ----- The type of a column

  /** Is the column declared as a date, datetime or time, with extended types on? */
  predicate DeclaredTemporal(src: Source) {
    src.withAltTypes && src.declType in {DATE, DATETIME, TIME}
  }

  /** A cell that does not fit an INT column: a float, or an integer beyond 32 bits. */
  predicate WideCell(c: Cell) {
    c.Float? || (c.Integer? && (c.v < -0x8000_0000 || c.v > 0x7FFF_FFFF))
  }

  predicate IsFirstValue(cells: seq<Cell>, k: nat) {
    k < |cells| && !cells[k].Null? && forall j :: 0 <= j < k ==> cells[j].Null?
  }

  predicate IsFirstWide(cells: seq<Cell>, w: nat) {
    w < |cells| && WideCell(cells[w]) && forall j :: 0 <= j < w ==> !WideCell(cells[j])
  }

  lemma {:induction false} WideMeansWide(c: Cell, src: Source)
    requires !DeclaredTemporal(src)
    ensures IsWide(c, src) <==> WideCell(c)
    ensures IsWide(c, src) ==> src.ItemType(c) == if c.Float? then REAL else INT64
  {
  }

  lemma {:induction false} FirstWideMeans(cells: seq<Cell>, src: Source)
    requires !DeclaredTemporal(src)
    ensures var w := FirstWide(cells, src);
            if w < |cells| then IsFirstWide(cells, w) else forall j :: 0 <= j < |cells| ==> !WideCell(cells[j])
  {
    hide IsWide, WideCell;
    forall j | 0 <= j < |cells| ensures IsWide(cells[j], src) <==> WideCell(cells[j]) {
      WideMeansWide(cells[j], src);
    }
  }

  /** A column of a known type other than INT keeps it. */
  lemma {:induction false} KnownTypeStays(ty: DataType, cells: seq<Cell>, src: Source)
    requires ty != UNKNOWN && ty != BOOL && ty != INT
    ensures FinalType(ty, cells, src) == ty
  {
    TypeIsInferred(ty, cells, src);
  }

  /** An open column has the type of its first value: text is STRING, a blob BLOB, a float REAL, an integer
      beyond 32 bits INT64. */
  lemma {:induction false} FirstValueDecidesType(ty: DataType, cells: seq<Cell>, src: Source, k: nat)
    requires !DeclaredTemporal(src) && (ty == UNKNOWN || ty == BOOL) && IsFirstValue(cells, k)
    ensures match cells[k]
            case Text(_) => FinalType(ty, cells, src) == STRING
            case Blob(_) => FinalType(ty, cells, src) == BLOB
            case Float(_) => FinalType(ty, cells, src) == REAL
            case Integer(v) => WideCell(cells[k]) ==> FinalType(ty, cells, src) == INT64
            case Null => true
  {
    TypeIsInferred(Start(ty), cells, src);
    assert FirstKnown(cells) == k;
  }

  /** A column that is INT, or open and starts with an integer of 32 bits, stays INT unless a wide cell comes;
      the first of them decides. */
  lemma {:induction false} IntegerColumnType(ty: DataType, cells: seq<Cell>, src: Source, k: nat)
    requires !DeclaredTemporal(src)
    requires || ty == INT
             || ((ty == UNKNOWN || ty == BOOL) && IsFirstValue(cells, k) && cells[k].Integer? && !WideCell(cells[k]))
    ensures (forall j :: 0 <= j < |cells| ==> !WideCell(cells[j])) ==> FinalType(ty, cells, src) == INT
    ensures forall w: nat :: IsFirstWide(cells, w) ==>
              FinalType(ty, cells, src) == if cells[w].Float? then REAL else INT64
  {
    hide WideCell, IsWide, TypeAfter;
    TypeIsInferred(Start(ty), cells, src);
    FirstWideMeans(cells, src);
    if ty != INT {
      assert FirstKnown(cells) == k;
      WideMeansWide(cells[k], src);
      SmallIntegerIsInt(cells[k], src);
    }
    var w := FirstWide(cells, src);
    if w < |cells| { WideMeansWide(cells[w], src); }
    forall v: nat | IsFirstWide(cells, v) ensures v == w {
      assert WideCell(cells[v]);
    }
  }

  lemma {:induction false} SmallIntegerIsInt(c: Cell, src: Source)
    requires !DeclaredTemporal(src) && c.Integer? && !WideCell(c)
    ensures src.ItemType(c) == INT
  {
  }

  // ----- The cells of a column

  /** NULL becomes the NA of the column's type. */
  lemma {:induction false} NullCellArrives(ty: DataType, cells: seq<Cell>, src: Source, k: nat)
    requires k < |cells| && cells[k].Null?
    ensures OnePass(ty, cells, src)[k] ==
            match FinalType(ty, cells, src)
            case BOOL => Lgl(-0x8000_0000)
            case INT => I32(-0x8000_0000)
            case INT64 => I64(-0x8000_0000_0000_0000)
            case STRING => Chr(None)
            case BLOB => Raw(None)
            case _ => Dbl(NaReal)
  {
  }

  /** Row `k`, from the type at which it arrives. */
  lemma {:induction false} ArrivesAs(ty: DataType, cells: seq<Cell>, src: Source, k: nat)
    requires k < |cells| && !cells[k].Null?
    ensures var t, final := TypeAfter(Start(ty), cells[..k + 1], src), FinalType(ty, cells, src);
            && t != UNKNOWN && (t == final || (t == INT && (final == INT64 || final == REAL)))
            && HasKind(src.Fetch(t, cells[k]), t)
            && OnePass(ty, cells, src)[k] == Widen(src.Fetch(t, cells[k]), t, final)
  {
    hide TypeAfter, Source.Fetch, Widen;
    ArrivalAt(ty, cells, src, k);
  }

  /** In a STRING column text arrives up to its first NUL, so as it is if it has none, and any other value as
      SQLite writes it. */
  lemma {:induction false} CellInStringColumn(ty: DataType, cells: seq<Cell>, src: Source, k: nat)
    requires k < |cells| && !cells[k].Null? && FinalType(ty, cells, src) == STRING
    ensures var x := OnePass(ty, cells, src)[k];
            && (cells[k].Text? ==> x == Chr(Some(UpToNul(cells[k].s))))
            && (cells[k].Text? && 0 !in cells[k].s ==> x == Chr(Some(cells[k].s)))
            && (!cells[k].Text? ==> x == Chr(Some(UpToNul(src.co.toText(cells[k])))))
  {
    hide TypeAfter, OnePass, UpToNul;
    ArrivesAs(ty, cells, src, k);
    if cells[k].Text? && 0 !in cells[k].s { NoNulIsCString(cells[k].s); }
  }

  /** In a BLOB column a blob arrives byte by byte, and any other value as SQLite converts it. */
  lemma {:induction false} CellInBlobColumn(ty: DataType, cells: seq<Cell>, src: Source, k: nat)
    requires k < |cells| && !cells[k].Null? && FinalType(ty, cells, src) == BLOB
    ensures OnePass(ty, cells, src)[k] ==
            Raw(Some(if cells[k].Blob? then cells[k].b else src.co.toBlob(cells[k])))
  {
    hide TypeAfter, OnePass;
    ArrivesAs(ty, cells, src, k);
  }

  /** An integer as a double: exactly, up to 2^53. */
  function AsDouble(v: int64, co: Coercions): real {
    if -0x20_0000_0000_0000 <= v <= 0x20_0000_0000_0000 then v as real else co.roundToDouble(v)
  }

  /** A cell that arrives at REAL arrives as a float does, or as SQLite's conversion of it. */
  lemma {:induction false} CellAtReal(ty: DataType, cells: seq<Cell>, src: Source, k: nat)
    requires k < |cells| && !cells[k].Null? && TypeAfter(Start(ty), cells[..k + 1], src) == REAL
    ensures OnePass(ty, cells, src)[k] ==
            Dbl(Num(match cells[k]
                    case Float(r) => r
                    case Integer(v) => AsDouble(v, src.co)
                    case c => src.co.toReal(c)))
  {
    hide TypeAfter, OnePass;
    ArrivesAs(ty, cells, src, k);
  }

  /** A cell that arrives at INT64. */
  lemma {:induction false} CellAtInt64(ty: DataType, cells: seq<Cell>, src: Source, k: nat)
    requires k < |cells| && !cells[k].Null? && TypeAfter(Start(ty), cells[..k + 1], src) == INT64
    ensures OnePass(ty, cells, src)[k] == I64(if cells[k].Integer? then cells[k].v else src.co.toInt64(cells[k]))
  {
    hide TypeAfter, OnePass;
    ArrivesAs(ty, cells, src, k);
  }

  /** A cell that arrives at INT is converted to 32 bits at that moment and widened only then, with -2^31 as
      NA; an integer is among them only if it has 32 bits. */
  lemma {:induction false} CellAtInt(ty: DataType, cells: seq<Cell>, src: Source, k: nat)
    requires !DeclaredTemporal(src)
    requires k < |cells| && !cells[k].Null? && TypeAfter(Start(ty), cells[..k + 1], src) == INT
    ensures !WideCell(cells[k])
    ensures var i := if cells[k].Integer? then cells[k].v else src.co.toInt(cells[k]);
            OnePass(ty, cells, src)[k] ==
            match FinalType(ty, cells, src)
            case INT64 => I64(if i == -0x8000_0000 then -0x8000_0000_0000_0000 else i)
            case REAL => Dbl(if i == -0x8000_0000 then NaReal else Num(i as real))
            case _ => I32(i)
  {
    ArrivesAs(ty, cells, src, k);
    TypeSnoc(ty, cells, src, k);
  }

  /** A float arrives as it is in every REAL column. */
  lemma {:induction false} FloatInRealColumn(ty: DataType, cells: seq<Cell>, src: Source, k: nat)
    requires !DeclaredTemporal(src) && k < |cells| && cells[k].Float? && FinalType(ty, cells, src) == REAL
    ensures OnePass(ty, cells, src)[k] == Dbl(Num(cells[k].r))
  {
    hide TypeAfter, OnePass;
    ArrivesAs(ty, cells, src, k);
    TypeSnoc(ty, cells, src, k);
    CellAtReal(ty, cells, src, k);
  }

  lemma {:induction false} TypeSnoc(ty: DataType, cells: seq<Cell>, src: Source, k: nat)
    requires k < |cells|
    ensures TypeAfter(Start(ty), cells[..k + 1], src) == TypeStep(TypeAfter(Start(ty), cells[..k], src), cells[k], src)
  {
    assert cells[..k + 1][..k] == cells[..k];
  }

  /** Text without NUL, a float and a blob survive in an open column of their own kind. */
  lemma {:induction false} OwnKindSurvives(ty: DataType, cells: seq<Cell>, src: Source, k: nat)
    requires !DeclaredTemporal(src) && (ty == UNKNOWN || ty == BOOL) && k < |cells|
    requires forall j :: 0 <= j < |cells| ==>
               cells[j].Null? || (cells[j].Text? && cells[k].Text?) || (cells[j].Float? && cells[k].Float?)
               || (cells[j].Blob? && cells[k].Blob?)
    ensures var x := OnePass(ty, cells, src)[k];
            match cells[k]
            case Text(s) => 0 !in s ==> x == Chr(Some(s))
            case Float(r) => x == Dbl(Num(r))
            case Blob(b) => x == Raw(Some(b))
            case _ => true
  {
    if !cells[k].Null? {
      var f := FirstKnown(cells);
      FirstValueDecidesType(ty, cells, src, f);
      match cells[k]
      case Text(_) => CellInStringColumn(ty, cells, src, k);
      case Blob(_) => CellInBlobColumn(ty, cells, src, k);
      case Float(_) => FloatInRealColumn(ty, cells, src, k);
      case Integer(_) =>
    }
  }

  // ----- Dates, datetimes and times

  /** A column declared as a date, datetime or time has that type whatever its cells are. */
  lemma {:induction false} TemporalColumnType(ty: DataType, cells: seq<Cell>, src: Source)
    requires DeclaredTemporal(src) && (ty == UNKNOWN || ty == BOOL || ty == src.declType)
    ensures FinalType(ty, cells, src) == src.declType
    ensures forall k :: 0 <= k < |cells| && !cells[k].Null? ==>
              TypeAfter(Start(ty), cells[..k + 1], src) == src.declType
  {
    TypeIsInferred(Start(ty), cells, src);
    forall k | 0 <= k < |cells| && !cells[k].Null?
      ensures TypeAfter(Start(ty), cells[..k + 1], src) == src.declType
    {
      assert cells[..k + 1][k] == cells[k];
      TypeIsInferred(Start(ty), cells[..k + 1], src);
    }
  }

  /** Its text cells are parsed, its numbers taken as they are (a date's as a 32-bit integer), and its blobs
      are NA. */
  lemma {:induction false} TemporalCellArrives(ty: DataType, cells: seq<Cell>, src: Source, k: nat)
    requires DeclaredTemporal(src) && (ty == UNKNOWN || ty == BOOL || ty == src.declType)
    requires k < |cells| && !cells[k].Null?
    ensures OnePass(ty, cells, src)[k] ==
            Dbl(match cells[k]
                case Text(s) =>
                  var text := UpToNul(s);
                  if src.declType == DATE then src.co.parseDate(text)
                  else if src.declType == DATETIME then src.co.parseDatetime(text)
                  else src.co.parseTime(text)
                case Integer(v) =>
                  Num(if src.declType == DATE then Low32(v) as real else AsDouble(v, src.co))
                case Float(r) =>
                  Num(if src.declType == DATE then src.co.toInt(cells[k]) as real else r)
                case _ => NaReal)
  {
    hide TypeAfter, OnePass, UpToNul;
    TemporalColumnType(ty, cells, src);
    ArrivesAs(ty, cells, src, k);
  }

  /** The declarations that make a column temporal, in any mixture of cases. */
  lemma {:induction false} TemporalDeclarations(s: CString, co: Coercions)
    ensures DeclaredTemporal(SourceOf(Some(s), true, co)) <==>
            || Affinity.SpelledAs(s, [100, 97, 116, 101, 116, 105, 109, 101])
            || Affinity.SpelledAs(s, [116, 105, 109, 101, 115, 116, 97, 109, 112])
            || Affinity.SpelledAs(s, [100, 97, 116, 101])
            || Affinity.SpelledAs(s, [116, 105, 109, 101])
    ensures !DeclaredTemporal(SourceOf(Some(s), false, co)) && !DeclaredTemporal(SourceOf(None, true, co))
  {
    hide Affinity.Mentions, Affinity.SpelledAs;
    DeclaredTypeTable(s, true);
    DeclaredTypeTable(s, false);
  }
}
