/** What a column's data source answers about the current cell (src/SqliteColumnDataSource.cpp).
    SQLite's conversions between storage classes, and the parsing of dates and times, are
    arbitrary total functions carried by `Coercions`. */
module ColumnSource {
  import opened ColumnTypes
  import Affinity

  datatype Coercions = Coercions(
    toInt: Cell -> int32,
    toInt64: Cell -> int64,
    toReal: Cell -> real,
    toText: Cell -> Bytes,
    toBlob: Cell -> Bytes,
    roundToDouble: int64 -> real,
    parseDate: Bytes -> Double,
    parseDatetime: Bytes -> Double,
    parseTime: Bytes -> Double)

  /** The low 32 bits of a 64-bit integer, as a signed number. */
  function Low32(v: int64): (r: int32)
    ensures !NeedsInt64(v) ==> r == v
    ensures (v - r) % 0x1_0000_0000 == 0
  {
    var m := v % 0x1_0000_0000;
    if m < 0x8000_0000 then m else m - 0x1_0000_0000
  }

  /** `needs_64_bit`; the bounds of int32_t, so -2^31 does not need 64 bits. */
  predicate NeedsInt64(v: int64) {
    v < -0x8000_0000 || v > 0x7FFF_FFFF
  }

  /** The bytes before the first NUL: what a C string function sees of `s`. */
  function UpToNul(s: Bytes): (r: CString)
    ensures r <= s
    ensures r == s || s[|r|] == 0
  {
    if s == [] || s[0] == 0 then [] else [s[0]] + UpToNul(s[1..])
  }

  lemma {:induction false} NoNulIsCString(s: Bytes)
    requires 0 !in s
    ensures UpToNul(s) == s
    decreases |s|
  {
    if s != [] { NoNulIsCString(s[1..]); }
  }

  // The declared types with a meaning of their own under extended types, in lower case.
  const DATETIME_NAME: Bytes := [100, 97, 116, 101, 116, 105, 109, 101]
  const TIMESTAMP_NAME: Bytes := [116, 105, 109, 101, 115, 116, 97, 109, 112]
  const DATE_NAME: Bytes := [100, 97, 116, 101]
  const TIME_NAME: Bytes := [116, 105, 109, 101]

  ghost function AffinityDataType(aff: Affinity.Aff): DataType {
    match aff
    case AffInteger => INT
    case AffNumeric => REAL
    case AffReal => REAL
    case AffText => STRING
    case AffBlob => BLOB
  }

  /** The type of a declaration (`datatype_from_decltype`): BOOL stands for no declaration. */
  ghost function TypeOfDecl(decl: Option<CString>, withAltTypes: bool): (ty: DeclaredType)
    ensures ty == BOOL <==> decl.None?
    ensures IsAltType(ty) ==> withAltTypes
  {
    if decl.None? then BOOL
    else
      var l := Affinity.Lowered(decl.value);
      if withAltTypes && (l == DATETIME_NAME || l == TIMESTAMP_NAME) then DATETIME
      else if withAltTypes && l == DATE_NAME then DATE
      else if withAltTypes && l == TIME_NAME then TIME
      else AffinityDataType(Affinity.Rule(decl))
  }

  /** The type of a declaration, spelled out: under extended types datetime, timestamp, date and time, in any
      case, have types of their own; else int, then char, clob or text, then blob decide, and the rest is
      REAL. */
  lemma {:induction false} DeclaredTypeTable(s: CString, withAltTypes: bool)
    ensures TypeOfDecl(Some(s), withAltTypes) ==
            if withAltTypes && Affinity.SpelledAs(s, [100, 97, 116, 101, 116, 105, 109, 101]) then DATETIME
            else if withAltTypes && Affinity.SpelledAs(s, [116, 105, 109, 101, 115, 116, 97, 109, 112]) then DATETIME
            else if withAltTypes && Affinity.SpelledAs(s, [100, 97, 116, 101]) then DATE
            else if withAltTypes && Affinity.SpelledAs(s, [116, 105, 109, 101]) then TIME
            else if Affinity.Mentions(s, [105, 110, 116]) then INT
            else if Affinity.Mentions(s, [99, 104, 97, 114]) || Affinity.Mentions(s, [99, 108, 111, 98])
                    || Affinity.Mentions(s, [116, 101, 120, 116]) then STRING
            else if Affinity.Mentions(s, [98, 108, 111, 98]) then BLOB
            else REAL
  {
    hide Affinity.Mentions, Affinity.SpelledAs, Affinity.Rule;
    Affinity.RuleIsTable(s);
    Affinity.LoweredIsWord(s, [100, 97, 116, 101, 116, 105, 109, 101]);
    Affinity.LoweredIsWord(s, [116, 105, 109, 101, 115, 116, 97, 109, 112]);
    Affinity.LoweredIsWord(s, [100, 97, 116, 101]);
    Affinity.LoweredIsWord(s, [116, 105, 109, 101]);
  }

  /** `datatype_from_decltype`. */
  method DatatypeFromDecltype(decl: Option<CString>, withAltTypes: bool) returns (ty: DeclaredType)
    ensures ty == TypeOfDecl(decl, withAltTypes)
  {
    if decl.None? { return BOOL; }
    if withAltTypes {
      var l := Affinity.Lowered(decl.value);
      if l == DATETIME_NAME || l == TIMESTAMP_NAME { return DATETIME; }
      if l == DATE_NAME { return DATE; }
      if l == TIME_NAME { return TIME; }
    }
    var aff := Affinity.AffinityType(decl);
    match aff
    case AffInteger => return INT;
    case AffNumeric | AffReal => return REAL;
    case AffText => return STRING;
    case AffBlob => return BLOB;
  }

  /** The types a declaration can have. */
  type DeclaredType = ty: DataType | ty != UNKNOWN && ty != INT64 && ty != DATETIMETZ witness BOOL

  /** A column's data source. Its declaration does not change, so the declared type is kept instead of
      being derived anew at every question. */
  datatype Source = Source(declType: DeclaredType, withAltTypes: bool, co: Coercions) {

    predicate HasAltType() {
      withAltTypes && IsAltType(declType)
    }

    /** `get_data_type`: the type of the current cell, UNKNOWN for NULL. A column declared as a date,
        datetime or time keeps that type for every cell, NULL included, under extended types. */
    function ItemType(c: Cell): (ty: DataType)
      ensures ty != BOOL && ty != DATETIMETZ
      ensures ty == UNKNOWN <==> c.Null? && !HasAltType()
    {
      if HasAltType() then declType else CellType(c)
    }

    // The accessors, one per element type. A NULL cell is never fetched.

    function FetchInt(c: Cell): int32 {
      match c
      case Integer(v) => Low32(v)
      case _ => co.toInt(c)
    }

    function FetchInt64(c: Cell): int64 {
      match c
      case Integer(v) => v
      case _ => co.toInt64(c)
    }

    function FetchReal(c: Cell): real {
      match c
      case Integer(v) => if -0x20_0000_0000_0000 <= v <= 0x20_0000_0000_0000 then v as real else co.roundToDouble(v)
      case Float(r) => r
      case _ => co.toReal(c)
    }

    function FetchString(c: Cell): Bytes {
      match c
      case Text(s) => UpToNul(s)
      case _ => UpToNul(co.toText(c))
    }

    function FetchBlob(c: Cell): Bytes {
      match c
      case Blob(b) => b
      case _ => co.toBlob(c)
    }

    function FetchDate(c: Cell): Double {
      match c
      case Text(s) => co.parseDate(UpToNul(s))
      case Blob(_) => NaReal
      case _ => Num(FetchInt(c) as real)
    }

    function FetchDatetimeLocal(c: Cell): Double {
      match c
      case Text(s) => co.parseDatetime(UpToNul(s))
      case Blob(_) => NaReal
      case _ => Num(FetchReal(c))
    }

    function FetchTime(c: Cell): Double {
      match c
      case Text(s) => co.parseTime(UpToNul(s))
      case Blob(_) => NaReal
      case _ => Num(FetchReal(c))
    }

    /** `fetch_value`: the element that a non-NULL cell becomes in a chunk of type `ty`. */
    function Fetch(ty: DataType, c: Cell): (x: Slot)
      requires ty != UNKNOWN
      ensures HasKind(x, ty)
    {
      match ty
      case BOOL => Lgl(0)
      case INT => I32(FetchInt(c))
      case INT64 => I64(FetchInt64(c))
      case REAL => Dbl(Num(FetchReal(c)))
      case STRING => Chr(Some(FetchString(c)))
      case BLOB => Raw(Some(FetchBlob(c)))
      case DATE => Dbl(FetchDate(c))
      case DATETIME => Dbl(FetchDatetimeLocal(c))
      case DATETIMETZ => Dbl(Num(0.0))
      case TIME => Dbl(FetchTime(c))
    }
  }

  /** The data source of a column with this declaration. */
  ghost function SourceOf(decl: Option<CString>, withAltTypes: bool, co: Coercions): Source {
    Source(TypeOfDecl(decl, withAltTypes), withAltTypes, co)
  }

  predicate IsAltType(ty: DataType) {
    ty == DATE || ty == DATETIME || ty == TIME
  }

  function CellType(c: Cell): DataType {
    match c
    case Null => UNKNOWN
    case Integer(v) => if NeedsInt64(v) then INT64 else INT
    case Float(_) => REAL
    case Text(_) => STRING
    case Blob(_) => BLOB
  }
}
