/** The values that travel from an SQLite cell to an R vector: storage classes, R vector
    elements with their NA sentinels, and the machine integer ranges involved. */
module ColumnTypes {

  type int32 = x: int | -0x8000_0000 <= x < 0x8000_0000
  type int64 = x: int | -0x8000_0000_0000_0000 <= x < 0x8000_0000_0000_0000
  type Bytes = seq<bv8>

  /** The bytes of a NUL-terminated C string, without the terminator. */
  type CString = s: Bytes | 0 !in s

  /** Does `w` occur in `s` at position `k`? */
  predicate OccursAt(s: Bytes, w: Bytes, k: int) {
    0 <= k <= |s| - |w| && s[k..k + |w|] == w
  }

  function Pow2(n: nat): (p: nat)
    ensures p > 0
  {
    if n == 0 then 1 else 2 * Pow2(n - 1)
  }

  datatype Option<+T> = None | Some(value: T)
  datatype Result<+T, +E> = Success(value: T) | Failure(error: E)

  datatype DataType =
    | UNKNOWN | BOOL | INT | INT64 | REAL | STRING | BLOB
    | DATE | DATETIME | DATETIMETZ | TIME

  /** An R double. Rounding is not modelled; NA_REAL is its only special value. */
  datatype Double = NaReal | Num(r: real)

  /** The value of one result column in the current row, by SQLite storage class. */
  datatype Cell = Null | Integer(v: int64) | Float(r: real) | Text(s: Bytes) | Blob(b: Bytes)

  /** One element of an R vector as it lies in memory. NA_INTEGER and NA_INTEGER64 are ordinary
      bit patterns. Int64 and double elements are kept apart although both live in a REALSXP, so
      that reading one as the other is a proof failure. */
  datatype Slot =
    | Uninit
    | Lgl(b: int32)
    | I32(i: int32)
    | I64(l: int64)
    | Dbl(d: Double)
    | Chr(s: Option<Bytes>)
    | Raw(r: Option<Bytes>)

  const NA_LOGICAL: int32 := -0x8000_0000
  const NA_INTEGER: int32 := -0x8000_0000
  const NA_INTEGER64: int64 := -0x8000_0000_0000_0000

  /** What `fill_default_value` writes: the NA of a column type. */
  function NaOf(ty: DataType): Slot
    requires ty != UNKNOWN
  {
    match ty
    case BOOL => Lgl(NA_LOGICAL)
    case INT => I32(NA_INTEGER)
    case INT64 => I64(NA_INTEGER64)
    case STRING => Chr(None)
    case BLOB => Raw(None)
    case _ => Dbl(NaReal)
  }

  /** Does an initialised element of a vector of type `ty` look like `x`? */
  predicate HasKind(x: Slot, ty: DataType) {
    match ty
    case UNKNOWN => false
    case BOOL => x.Lgl?
    case INT => x.I32?
    case INT64 => x.I64?
    case STRING => x.Chr?
    case BLOB => x.Raw?
    case _ => x.Dbl?
  }

  /** The integer widenings a column may undergo after its type became known. */
  predicate Widens(from: DataType, to: DataType) {
    from == INT && (to == INT64 || to == REAL)
  }

  /** `copy_value`: an element stored at type `from`, as read back at type `to`. */
  function Widen(x: Slot, from: DataType, to: DataType): (y: Slot)
    requires HasKind(x, from)
    requires from == to || Widens(from, to)
    ensures HasKind(y, to)
    ensures x == NaOf(from) ==> y == NaOf(to)
  {
    if from == to then x
    else if to == INT64 then (if x.i == NA_INTEGER then I64(NA_INTEGER64) else I64(x.i))
    else (if x.i == NA_INTEGER then Dbl(NaReal) else Dbl(Num(x.i as real)))
  }
}
