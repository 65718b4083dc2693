/** The type a column ends up with, what that does to integer cells, and when it warns. */
module ColumnInference {
  import opened ColumnTypes
  import opened ColumnSource
  import opened ColumnModel
  import opened ColumnTheorems

  // ----- Type inference in closed form

  /** The index of the first non-NULL cell, or the number of cells. */
  function FirstKnown(cells: seq<Cell>): (k: nat)
    ensures k <= |cells|
    ensures forall j :: 0 <= j < k ==> cells[j].Null?
    ensures k < |cells| ==> !cells[k].Null?
  {
    if cells == [] || !cells[0].Null? then 0 else 1 + FirstKnown(cells[1..])
  }

  predicate IsWide(c: Cell, src: Source) {
    Widens(INT, src.ItemType(c))
  }

  /** The index of the first cell that an INT column has to widen for, or the number of cells. */
  function FirstWide(cells: seq<Cell>, src: Source): (k: nat)
    ensures k <= |cells|
    ensures forall j :: 0 <= j < k ==> !IsWide(cells[j], src)
    ensures k < |cells| ==> IsWide(cells[k], src)
  {
    if cells == [] || IsWide(cells[0], src) then 0 else 1 + FirstWide(cells[1..], src)
  }

  /** The initial type, else that of the first non-NULL cell; an INT gives way to the first INT64 or
      REAL cell. */
  function InferredType(t: DataType, cells: seq<Cell>, src: Source): DataType {
    var known, wide := FirstKnown(cells), FirstWide(cells, src);
    var base := if t != UNKNOWN then t else if known < |cells| then src.ItemType(cells[known]) else UNKNOWN;
    if base == INT && wide < |cells| then src.ItemType(cells[wide]) else base
  }

  lemma {:induction false} TypeIsInferred(t: DataType, cells: seq<Cell>, src: Source)
    ensures TypeAfter(t, cells, src) == InferredType(t, cells, src)
    decreases |cells|
  {
    hide FirstKnown, FirstWide, CellType;
    if cells != [] {
      var n := |cells| - 1;
      var before := cells[..n];
      TypeIsInferred(t, before, src);
      FirstIsStable(cells, src);
      assert forall j :: 0 <= j < n ==> before[j] == cells[j];
    }
  }

  /** A column of NULLs keeps the type it began with; if that is open, it has the type of its
      declaration, by the affinity table or as a date or time. */
  lemma {:induction false} NullColumnType(ty: DataType, cells: seq<Cell>, decl: Option<CString>, withAltTypes: bool,
                                          co: Coercions)
    requires forall k :: 0 <= k < |cells| ==> cells[k].Null?
    ensures FinalType(ty, cells, SourceOf(decl, withAltTypes, co))
            == if Start(ty) == UNKNOWN then TypeOfDecl(decl, withAltTypes) else ty
  {
    TypeIsInferred(Start(ty), cells, SourceOf(decl, withAltTypes, co));
  }

  lemma {:induction false} FirstIsStable(cells: seq<Cell>, src: Source)
    requires cells != []
    ensures var n := |cells| - 1;
            && (FirstKnown(cells[..n]) < n ==> FirstKnown(cells) == FirstKnown(cells[..n]))
            && (FirstWide(cells[..n], src) < n ==> FirstWide(cells, src) == FirstWide(cells[..n], src))
            && (FirstKnown(cells[..n]) == n ==> FirstKnown(cells) == if cells[n].Null? then n + 1 else n)
            && (FirstWide(cells[..n], src) == n ==>
                  FirstWide(cells, src) == if IsWide(cells[n], src) then n else n + 1)
  {
    hide FirstKnown, FirstWide, IsWide;
    var before := cells[..|cells| - 1];
    assert forall j :: 0 <= j < |before| ==> before[j] == cells[j];
  }

  // ----- Integer cells

  /** An integer cell reaches a numeric column with its value, whatever else the column holds, except
      that -2^31 is the NA of an INT chunk. In a REAL column the value is the double SQLite itself
      would have delivered. */
  lemma {:induction false} IntegerCellArrives(ty: DataType, cells: seq<Cell>, src: Source, k: nat)
    requires k < |cells| && cells[k].Integer?
    requires !src.HasAltType()
    ensures var t := TypeAfter(Start(ty), cells[..k + 1], src);
            var v := cells[k].v;
            var x := OnePass(ty, cells, src)[k];
            match FinalType(ty, cells, src)
            case INT => x.I32? && x.i == v
            case INT64 => x == if t == INT && v == NA_INTEGER then I64(NA_INTEGER64) else I64(v)
            case REAL => x == if t == INT && v == NA_INTEGER then Dbl(NaReal)
                              else if -0x20_0000_0000_0000 <= v <= 0x20_0000_0000_0000 then Dbl(Num(v as real))
                              else Dbl(Num(src.co.roundToDouble(v)))
            case _ => true
  {
    ArrivalAt(ty, cells, src, k);
    assert cells[..k + 1][k] == cells[k];
    assert cells[..k + 1][..k] == cells[..k];
    var t := TypeAfter(Start(ty), cells[..k + 1], src);
    assert t == TypeStep(TypeAfter(Start(ty), cells[..k], src), cells[k], src);
  }

  /** Hence an integer is lost in a numeric column exactly when it is -2^31 and arrived while the
      column was still INT, or is -2^63 in an INT64 column. */
  lemma {:induction false} IntegerCellIsNa(ty: DataType, cells: seq<Cell>, src: Source, k: nat)
    requires k < |cells| && cells[k].Integer?
    requires !src.HasAltType()
    requires FinalType(ty, cells, src) in {INT, INT64, REAL}
    ensures OnePass(ty, cells, src)[k] == NaOf(FinalType(ty, cells, src)) <==>
            || (cells[k].v == NA_INTEGER && TypeAfter(Start(ty), cells[..k + 1], src) == INT)
            || (cells[k].v == NA_INTEGER64 && FinalType(ty, cells, src) == INT64)
  {
    IntegerCellArrives(ty, cells, src, k);
    ArrivalAt(ty, cells, src, k);
  }

  // ----- Mixed-type warnings

  /** `data_types_seen`. */
  function Seen(cells: seq<Cell>, src: Source): set<DataType> {
    set c | c in cells :: src.ItemType(c)
  }

  /** What `warn_type_conflicts` leaves of the types seen. */
  function ConflictTypes(seen: set<DataType>, final: DataType): set<DataType> {
    var rest := if final == REAL || final == INT64 then seen - {INT} else seen;
    rest - {UNKNOWN} - {BOOL} - {final}
  }

  const ENUM_ORDER: seq<DataType> :=
    [UNKNOWN, BOOL, INT, INT64, REAL, STRING, BLOB, DATE, DATETIME, DATETIMETZ, TIME]

  /** A `std::set` of types in iteration order. */
  function InOrder(types: set<DataType>, from: nat := 0): (xs: seq<DataType>)
    requires from <= |ENUM_ORDER|
    ensures forall t :: t in xs <==> t in types && t in ENUM_ORDER[from..]
    ensures types == {} ==> xs == []
    decreases |ENUM_ORDER| - from
  {
    if from == |ENUM_ORDER| then []
    else (if ENUM_ORDER[from] in types then [ENUM_ORDER[from]] else []) + InOrder(types, from + 1)
  }

  /** The place of a type in the enumeration (src/DbColumnDataType.h). */
  function Rank(t: DataType): nat {
    match t
    case UNKNOWN => 0
    case BOOL => 1
    case INT => 2
    case INT64 => 3
    case REAL => 4
    case STRING => 5
    case BLOB => 6
    case DATE => 7
    case DATETIME => 8
    case DATETIMETZ => 9
    case TIME => 10
  }

  lemma {:induction false} EnumOrderIsByRank(i: nat)
    requires i < |ENUM_ORDER|
    ensures Rank(ENUM_ORDER[i]) == i
  {
    assert ENUM_ORDER[0] == UNKNOWN && ENUM_ORDER[1] == BOOL && ENUM_ORDER[2] == INT && ENUM_ORDER[3] == INT64;
    assert ENUM_ORDER[4] == REAL && ENUM_ORDER[5] == STRING && ENUM_ORDER[6] == BLOB && ENUM_ORDER[7] == DATE;
    assert ENUM_ORDER[8] == DATETIME && ENUM_ORDER[9] == DATETIMETZ && ENUM_ORDER[10] == TIME;
  }

  ghost predicate AscendsFrom(xs: seq<DataType>, from: nat) {
    && (forall i :: 0 <= i < |xs| ==> Rank(xs[i]) >= from)
    && forall i, j :: 0 <= i < j < |xs| ==> Rank(xs[i]) < Rank(xs[j])
  }

  /** The listing is in ascending order, without repetition. */
  lemma {:induction false} InOrderAscends(types: set<DataType>, from: nat)
    requires from <= |ENUM_ORDER|
    ensures AscendsFrom(InOrder(types, from), from)
    decreases |ENUM_ORDER| - from
  {
    hide AscendsFrom;
    if from == |ENUM_ORDER| {
      NothingAscends(from);
    } else {
      InOrderAscends(types, from + 1);
      EnumOrderIsByRank(from);
      AscendsMore(ENUM_ORDER[from], InOrder(types, from + 1), from);
    }
  }

  lemma {:induction false} NothingAscends(from: nat)
    ensures AscendsFrom([], from)
  {
  }

  lemma {:induction false} AscendsMore(t: DataType, rest: seq<DataType>, from: nat)
    requires Rank(t) == from && AscendsFrom(rest, from + 1)
    ensures AscendsFrom([t] + rest, from) && AscendsFrom([] + rest, from)
  {
    hide Rank;
  }

  /** The types listed in the warning; no warning is raised if there are none. */
  function Warning(ty: DataType, cells: seq<Cell>, src: Source): seq<DataType> {
    InOrder(ConflictTypes(Seen(cells, src), FinalType(ty, cells, src)))
  }

  lemma {:induction false} EveryTypeIsListed(t: DataType)
    ensures t in ENUM_ORDER[0..]
  {
    assert ENUM_ORDER[0] == UNKNOWN && ENUM_ORDER[1] == BOOL && ENUM_ORDER[2] == INT && ENUM_ORDER[3] == INT64;
    assert ENUM_ORDER[4] == REAL && ENUM_ORDER[5] == STRING && ENUM_ORDER[6] == BLOB && ENUM_ORDER[7] == DATE;
    assert ENUM_ORDER[8] == DATETIME && ENUM_ORDER[9] == DATETIMETZ && ENUM_ORDER[10] == TIME;
    assert ENUM_ORDER[0..] == ENUM_ORDER;
  }

  lemma {:induction false} OrderHasAll(types: set<DataType>, t: DataType)
    ensures t in InOrder(types) <==> t in types
  {
    EveryTypeIsListed(t);
  }

  lemma {:induction false} ConflictMeaning(seen: set<DataType>, final: DataType, t: DataType)
    ensures t in ConflictTypes(seen, final) <==>
            t in seen && t != UNKNOWN && t != BOOL && t != final && !Widens(t, final)
  {
  }

  lemma {:induction false} SeenIsExact(cells: seq<Cell>, src: Source, t: DataType)
    requires !src.HasAltType()
    ensures t in Seen(cells, src) && t != UNKNOWN <==>
            exists k :: 0 <= k < |cells| && !cells[k].Null? && CellType(cells[k]) == t
  {
    if t in Seen(cells, src) && t != UNKNOWN {
      var c :| c in cells && src.ItemType(c) == t;
      var k :| 0 <= k < |cells| && cells[k] == c;
    }
    forall k | 0 <= k < |cells| && !cells[k].Null? && CellType(cells[k]) == t
      ensures t in Seen(cells, src) && t != UNKNOWN
    {
      assert cells[k] in cells;
    }
  }

  /** The warning lists exactly the types of the non-NULL cells that are neither of the final type
      nor INT in an INT64 or REAL column. */
  lemma {:induction false} WarningIsExact(ty: DataType, cells: seq<Cell>, src: Source, t: DataType)
    requires !src.HasAltType()
    ensures t in Warning(ty, cells, src) <==>
            && t != FinalType(ty, cells, src)
            && !Widens(t, FinalType(ty, cells, src))
            && exists k :: 0 <= k < |cells| && !cells[k].Null? && CellType(cells[k]) == t
  {
    var seen, final := Seen(cells, src), FinalType(ty, cells, src);
    OrderHasAll(ConflictTypes(seen, final), t);
    ConflictMeaning(seen, final, t);
    SeenIsExact(cells, src, t);
    assert t in seen ==> t != BOOL;
  }

  /** A date, datetime or time column never warns once its type is the declared one or open. */
  lemma {:induction false} AltColumnNeverWarns(ty: DataType, cells: seq<Cell>, src: Source)
    requires src.HasAltType()
    requires Start(ty) == UNKNOWN || ty == src.declType
    ensures FinalType(ty, cells, src) == src.declType
    ensures Warning(ty, cells, src) == []
  {
    TypeIsInferred(Start(ty), cells, src);
    assert ConflictTypes(Seen(cells, src), FinalType(ty, cells, src)) == {};
  }
}
