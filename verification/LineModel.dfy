/** Lines and fields of a delimited file, as mathematics: where a line ends, and how it splits. */
module LineModel {
  import opened ColumnTypes
  import opened ColumnSource

  // ----- Lines

  /** Is a plain `char` signed on this platform? Nothing below depends on the answer. */
  const SIGNED_CHAR: bool

  /** The value of a byte that is kept in a plain `char`. */
  function PlainChar(b: bv8): int {
    if SIGNED_CHAR && b >= 128 then b as int - 256 else b as int
  }

  /** The line reader compares each byte, 0 to 255, with the last `char` of the terminator: where that is
      negative, no byte is equal to it, and no line ever ends. */
  predicate Recognized(eol: Bytes)
    requires eol != []
  {
    !SIGNED_CHAR || eol[|eol| - 1] < 128
  }

  lemma {:induction false} EqualsLastChar(b: bv8, eol: Bytes)
    requires eol != []
    ensures b as int == PlainChar(eol[|eol| - 1]) <==> Recognized(eol) && b == eol[|eol| - 1]
  {
  }

  /** Does a line end just before position `e`? */
  predicate EndsAt(s: Bytes, eol: Bytes, e: int)
    requires eol != []
  {
    Recognized(eol) && OccursAt(s, eol, e - |eol|)
  }

  /** The end, terminator included, of the first line of `s`, looking from position `e` on. */
  function FirstEnd(s: Bytes, eol: Bytes, e: nat := 0): (end: Option<nat>)
    requires e <= |s| && eol != []
    ensures end.Some? ==> e <= end.value <= |s| && EndsAt(s, eol, end.value)
    ensures forall k :: e <= k <= |s| && (end.Some? ==> k < end.value) ==> !EndsAt(s, eol, k)
    decreases |s| - e
  {
    if EndsAt(s, eol, e) then Some(e) else if e == |s| then None else FirstEnd(s, eol, e + 1)
  }

  /** Does the last byte of a terminator of several bytes turn up so early that looking back for the
      others leaves the buffer? */
  ghost predicate LooksTooFarBack(s: Bytes, eol: Bytes)
    requires eol != []
  {
    Recognized(eol) && exists k :: 0 <= k < |eol| - 1 && k < |s| && s[k] == eol[|eol| - 1]
  }

  /** What reading one line can yield: no line (end of input, or an empty line); a line; bytes up to the
      end of a file that lacks its last terminator, in a buffer that is not NUL-terminated; or a read
      before the start of the buffer. */
  datatype LineResult = NoLine | Line(text: CString) | Unterminated(read: Bytes) | OutOfBounds

  function LineOrNone(read: Bytes): LineResult {
    var text := UpToNul(read);
    if text == [] then NoLine else Line(text)
  }

  /** What `RS_sqlite_getline` yields on the remaining input `rest`, and how much of it it consumes. */
  ghost function NextLine(rest: Bytes, eol: Bytes): (r: (LineResult, nat))
    requires eol != []
    ensures r.1 <= |rest|
    ensures r.0.Line? ==> r.1 > 0
  {
    if LooksTooFarBack(rest, eol) then (OutOfBounds, 0)
    else
      match FirstEnd(rest, eol)
      case Some(e) => (LineOrNone(rest[..e - |eol|]), e)
      case None =>
        if rest != [] && 0 !in rest then (Unterminated(rest), |rest|) else (LineOrNone(rest), |rest|)
  }

  // ----- Fields

  const LF: bv8 := 10
  const CR: bv8 := 13

  /** Does the field scan stop at position `z`? */
  predicate Stops(text: Bytes, z: nat)
    requires z <= |text|
  {
    z == |text| || text[z] == LF || text[z] == CR
  }

  /** The fields of `text` from position `z` on, the current one starting at `start`: separators are taken
      from the left, and everything after a line feed or carriage return belongs to the last field. */
  function SplitFrom(text: Bytes, sep: Bytes, start: nat, z: nat): (fields: seq<Bytes>)
    requires start <= z <= |text| && sep != []
    ensures fields != []
    decreases |text| - z
  {
    if Stops(text, z) then [text[start..]]
    else if OccursAt(text, sep, z) then [text[start..z]] + SplitFrom(text, sep, z + |sep|, z + |sep|)
    else SplitFrom(text, sep, start, z + 1)
  }

  function Split(text: Bytes, sep: Bytes): (fields: seq<Bytes>)
    requires sep != []
    ensures fields != []
  {
    SplitFrom(text, sep, 0, 0)
  }

  function Join(fields: seq<Bytes>, sep: Bytes): Bytes
    requires fields != []
  {
    if |fields| == 1 then fields[0] else fields[0] + sep + Join(fields[1..], sep)
  }

  /** Joining the fields gives back the line, whatever it contains. */
  lemma {:induction false} JoinSplitFrom(text: Bytes, sep: Bytes, start: nat, z: nat)
    requires start <= z <= |text| && sep != []
    ensures Join(SplitFrom(text, sep, start, z), sep) == text[start..]
    decreases |text| - z
  {
    if Stops(text, z) {
    } else if OccursAt(text, sep, z) {
      var z' := z + |sep|;
      JoinSplitFrom(text, sep, z', z');
      var rest := SplitFrom(text, sep, z', z');
      assert ([text[start..z]] + rest)[1..] == rest;
      assert text[start..] == text[start..z] + text[z..z'] + text[z'..];
    } else {
      JoinSplitFrom(text, sep, start, z + 1);
    }
  }

  lemma {:induction false} JoinSplit(text: Bytes, sep: Bytes)
    requires sep != []
    ensures Join(Split(text, sep), sep) == text
  {
    JoinSplitFrom(text, sep, 0, 0);
  }

  /** `k` is the leftmost position of `sep` in `s`. */
  ghost predicate IsFirst(s: Bytes, sep: Bytes, k: nat) {
    OccursAt(s, sep, k) && forall j :: 0 <= j < k ==> !OccursAt(s, sep, j)
  }

  /** `fields` is a leftmost split: joined again, every separator is the leftmost one of what is left, and
      the last field contains none. */
  ghost predicate IsLeftmost(fields: seq<Bytes>, sep: Bytes)
    requires fields != []
    decreases |fields|
  {
    if |fields| == 1 then forall k :: !OccursAt(fields[0], sep, k)
    else IsFirst(Join(fields, sep), sep, |fields[0]|) && IsLeftmost(fields[1..], sep)
  }

  ghost predicate OneLine(text: Bytes) {
    LF !in text && CR !in text
  }

  /** The field scan stops at the end of the line, a line feed or a carriage return, and nowhere else. */
  lemma {:induction false} LineBreaks(text: Bytes, z: nat)
    requires z <= |text|
    ensures Stops(text, z) <==> z == |text| || text[z] as int == '\n' as int || text[z] as int == '\r' as int
    ensures OneLine(text) <==>
            forall k :: 0 <= k < |text| ==> text[k] as int != '\n' as int && text[k] as int != '\r' as int
  {
  }

  lemma {:induction false} OccursInTail(text: Bytes, start: nat, w: Bytes, k: int)
    requires start <= |text|
    ensures OccursAt(text[start..], w, k) <==> k >= 0 && OccursAt(text, w, start + k)
  {
    if 0 <= k <= |text| - start - |w| { assert text[start..][k..k + |w|] == text[start + k..start + k + |w|]; }
  }

  /** Splitting a line without line breaks yields a leftmost split. */
  lemma {:induction false} SplitIsLeftmost(text: Bytes, sep: Bytes, start: nat, z: nat)
    requires start <= z <= |text| && sep != [] && OneLine(text)
    requires forall j :: start <= j < z ==> !OccursAt(text, sep, j)
    ensures IsLeftmost(SplitFrom(text, sep, start, z), sep)
    decreases |text| - z
  {
    if Stops(text, z) {
      forall k ensures !OccursAt(text[start..], sep, k) { OccursInTail(text, start, sep, k); }
    } else if OccursAt(text, sep, z) {
      SplitIsLeftmost(text, sep, z + |sep|, z + |sep|);
      FieldThenRest(text, sep, start, z);
    } else {
      SplitIsLeftmost(text, sep, start, z + 1);
    }
  }

  lemma {:induction false} FieldThenRest(text: Bytes, sep: Bytes, start: nat, z: nat)
    requires start <= z < |text| && sep != [] && !Stops(text, z) && OccursAt(text, sep, z)
    requires forall j :: start <= j < z ==> !OccursAt(text, sep, j)
    requires IsLeftmost(SplitFrom(text, sep, z + |sep|, z + |sep|), sep)
    ensures IsLeftmost(SplitFrom(text, sep, start, z), sep)
  {
    var fields := SplitFrom(text, sep, start, z);
    assert fields[1..] == SplitFrom(text, sep, z + |sep|, z + |sep|);
    JoinSplitFrom(text, sep, start, z);
    OccursInTail(text, start, sep, z - start);
    forall j | 0 <= j < z - start ensures !OccursAt(text[start..], sep, j) { OccursInTail(text, start, sep, j); }
  }

  lemma {:induction false} OneFieldMeansNone(fields: seq<Bytes>, sep: Bytes, s: Bytes)
    requires fields != [] && IsLeftmost(fields, sep) && s == Join(fields, sep)
    ensures |fields| == 1 <==> forall k :: !OccursAt(s, sep, k)
  {
    if |fields| > 1 { assert OccursAt(s, sep, |fields[0]|); }
  }

  /** A line has only one leftmost split, the one `Split` finds. */
  lemma {:induction false} LeftmostIsUnique(f: seq<Bytes>, g: seq<Bytes>, sep: Bytes)
    requires f != [] && g != [] && sep != []
    requires IsLeftmost(f, sep) && IsLeftmost(g, sep) && Join(f, sep) == Join(g, sep)
    ensures f == g
    decreases |f|
  {
    OneFieldMeansNone(f, sep, Join(f, sep));
    OneFieldMeansNone(g, sep, Join(f, sep));
    if |f| > 1 {
      var s := Join(f, sep);
      assert |f[0]| == |g[0]|;
      assert s[..|f[0]|] == f[0] == g[0];
      assert s[|f[0]| + |sep|..] == Join(f[1..], sep) == Join(g[1..], sep);
      LeftmostIsUnique(f[1..], g[1..], sep);
      assert f == [f[0]] + f[1..] && g == [g[0]] + g[1..];
    }
  }

  /** Splitting undoes joining exactly for leftmost splits. */
  lemma {:induction false} SplitJoin(fields: seq<Bytes>, sep: Bytes)
    requires fields != [] && sep != [] && OneLine(Join(fields, sep))
    ensures Split(Join(fields, sep), sep) == fields <==> IsLeftmost(fields, sep)
  {
    var text := Join(fields, sep);
    SplitIsLeftmost(text, sep, 0, 0);
    JoinSplit(text, sep);
    if IsLeftmost(fields, sep) { LeftmostIsUnique(Split(text, sep), fields, sep); }
  }

  lemma {:induction false} FirstForOneByte(f: Bytes, rest: Bytes, sep: Bytes)
    requires |sep| == 1
    ensures IsFirst(f + sep + rest, sep, |f|) <==> sep[0] !in f
  {
    var s := f + sep + rest;
    assert s[|f|..|f| + 1] == sep;
    forall j | 0 <= j < |f| ensures OccursAt(s, sep, j) <==> f[j] == sep[0] {
      assert s[j..j + 1] == [f[j]] && sep == [sep[0]];
    }
  }

  /** With a one-byte separator those are the fields that do not contain it. */
  lemma {:induction false} LeftmostForOneByte(fields: seq<Bytes>, sep: Bytes)
    requires fields != [] && |sep| == 1
    ensures IsLeftmost(fields, sep) <==> forall i :: 0 <= i < |fields| ==> sep[0] !in fields[i]
    decreases |fields|
  {
    hide OccursAt, IsFirst;
    if |fields| == 1 {
      OccursIsMember(fields[0], sep);
    } else {
      var rest := fields[1..];
      FirstForOneByte(fields[0], Join(rest, sep), sep);
      LeftmostForOneByte(rest, sep);
      assert forall i :: 1 <= i < |fields| ==> fields[i] == rest[i - 1];
      assert forall i :: 0 <= i < |rest| ==> rest[i] == fields[i + 1];
    }
  }

  lemma {:induction false} OccursIsMember(s: Bytes, w: Bytes)
    requires |w| == 1
    ensures (exists k :: OccursAt(s, w, k)) <==> w[0] in s
  {
    forall k | OccursAt(s, w, k) ensures w[0] in s {
      assert s[k..k + 1][0] == s[k];
    }
    if w[0] in s {
      var k :| 0 <= k < |s| && s[k] == w[0];
      assert s[k..k + 1] == w;
      assert OccursAt(s, w, k);
    }
  }

  // ----- Whole files

  /** A field that begins with the two characters \N stands for NULL. */
  predicate StandsForNull(f: Bytes) {
    |f| >= 2 && f[0] == 92 && f[1] == 78
  }

  /** How a field is bound. */
  function FieldCell(f: Bytes): Cell {
    if StandsForNull(f) then Null else Text(f)
  }

  /** The marker is a backslash and a capital N; a field with fewer than two bytes never is one. */
  lemma {:induction false} NullMarker(f: Bytes)
    ensures FieldCell(f) ==
            if |f| >= 2 && f[0] as int == '\\' as int && f[1] as int == 'N' as int then Null else Text(f)
  {
  }

  function FieldCells(fields: seq<Bytes>): (cells: seq<Cell>)
    ensures |cells| == |fields|
    ensures forall k :: 0 <= k < |fields| ==> cells[k] == FieldCell(fields[k])
  {
    seq(|fields|, k requires 0 <= k < |fields| => FieldCell(fields[k]))
  }

  /** How an import ends: at an empty line or the end of the file; at a line with the wrong number of
      fields; in undefined behaviour of the line reader; or before the first line, for lack of a
      separator or of columns. */
  datatype ImportStatus = Done | WrongColumns(lineno: nat) | Undefined | NotStarted

  /** The rows an import inserts from the remaining input, whose first line has number `lineno + 1`. */
  ghost function ImportOf(rest: Bytes, sep: Bytes, eol: Bytes, skip: int, nCol: nat, lineno: nat)
    : (r: (seq<seq<Cell>>, ImportStatus))
    requires sep != [] && eol != []
    decreases |rest|
  {
    var (line, used) := NextLine(rest, eol);
    match line
    case NoLine => ([], Done)
    case Unterminated(_) => ([], Undefined)
    case OutOfBounds => ([], Undefined)
    case Line(text) =>
      if lineno + 1 <= skip then ImportOf(rest[used..], sep, eol, skip, nCol, lineno + 1)
      else if |Split(text, sep)| != nCol then ([], WrongColumns(lineno + 1))
      else
        var (rows, status) := ImportOf(rest[used..], sep, eol, skip, nCol, lineno + 1);
        ([FieldCells(Split(text, sep))] + rows, status)
  }

  /** A line that can be written and read back as it is, as `CleanLineIsRead` says. */
  ghost predicate IsClean(line: Bytes, eol: Bytes)
    requires eol != []
  {
    && line != [] && 0 !in line
    && FirstEnd(line + eol, eol) == Some(|line| + |eol|)
    && !LooksTooFarBack(line + eol, eol)
  }

  /** With a one-byte terminator that is recognized, the clean lines are those without that byte and
      without NUL. */
  lemma {:induction false} CleanForOneByte(line: Bytes, eol: Bytes)
    requires |eol| == 1
    ensures IsClean(line, eol) <==> Recognized(eol) && line != [] && 0 !in line && eol[0] !in line
  {
    var s := line + eol;
    assert eol == [eol[0]];
    forall k | 1 <= k <= |s| ensures EndsAt(s, eol, k) <==> Recognized(eol) && s[k - 1] == eol[0] {
      assert s[k - 1..k] == [s[k - 1]];
    }
    if !Recognized(eol) {
    } else if eol[0] in line {
      var k :| 0 <= k < |line| && line[k] == eol[0];
      assert s[k] == eol[0] && EndsAt(s, eol, k + 1);
    } else {
      assert EndsAt(s, eol, |s|);
      forall k | 0 <= k < |s| ensures !EndsAt(s, eol, k) {
        if k > 0 { assert s[k - 1] == line[k - 1]; }
      }
    }
  }

  /** A file of terminated lines. */
  function FileOf(lines: seq<Bytes>, eol: Bytes): Bytes {
    if lines == [] then [] else lines[0] + eol + FileOf(lines[1..], eol)
  }

  lemma {:induction false} FirstEndInPrefix(a: Bytes, b: Bytes, eol: Bytes, e: nat)
    requires eol != [] && e <= |a| && FirstEnd(a, eol, e).Some?
    ensures FirstEnd(a + b, eol, e) == FirstEnd(a, eol, e)
    decreases |a| - e
  {
    if e >= |eol| { assert (a + b)[e - |eol|..e] == a[e - |eol|..e]; }
    if !EndsAt(a, eol, e) {
      FirstEndInPrefix(a, b, eol, e + 1);
    }
  }

  lemma {:induction false} CleanLineIsRead(line: Bytes, rest: Bytes, eol: Bytes)
    requires eol != [] && IsClean(line, eol)
    ensures NextLine(line + eol + rest, eol) == (Line(line), |line| + |eol|)
  {
    var first := line + eol;
    FirstEndInPrefix(first, rest, eol, 0);
    assert (first + rest)[..|line|] == line;
    NoNulIsCString(line);
  }

  /** Conversely, a line that is read back as it is, up to its own terminator, is clean. */
  lemma {:induction false} ReadLineIsClean(line: Bytes, rest: Bytes, eol: Bytes)
    requires eol != [] && 0 !in eol
    requires var (r, used) := NextLine(line + eol + rest, eol); r.Line? && r.text == line && used == |line| + |eol|
    ensures IsClean(line, eol)
  {
    var first, whole := line + eol, line + eol + rest;
    if Recognized(eol) {
      assert first[|line|..|first|] == eol && whole[|line|..|first|] == eol;
      assert EndsAt(first, eol, |first|) && EndsAt(whole, eol, |first|);
      FirstEndInPrefix(first, rest, eol, 0);
      assert whole[..|line|] == line;
    }
  }

  /** The lines with a number above `skip`, if the first of them has number `lineno + 1`. */
  function AfterSkip(lines: seq<Bytes>, skip: int, lineno: nat): seq<Bytes> {
    if skip <= lineno then lines else if skip - lineno < |lines| then lines[skip - lineno..] else []
  }

  function RowsOfLines(lines: seq<Bytes>, sep: Bytes): (rows: seq<seq<Cell>>)
    requires sep != []
    ensures |rows| == |lines|
  {
    if lines == [] then [] else [FieldCells(Split(lines[0], sep))] + RowsOfLines(lines[1..], sep)
  }

  lemma {:induction false} RowOfLine(lines: seq<Bytes>, sep: Bytes, i: nat)
    requires sep != [] && i < |lines|
    ensures RowsOfLines(lines, sep)[i] == FieldCells(Split(lines[i], sep))
  {
    if i > 0 { RowOfLine(lines[1..], sep, i - 1); }
  }

  /** Clean lines with the right number of fields are inserted one by one, the skipped ones excepted, and
      the import goes on with whatever follows them. */
  lemma {:induction false} ImportReadsLines(lines: seq<Bytes>, more: Bytes, sep: Bytes, eol: Bytes, skip: int,
                                            nCol: nat, lineno: nat)
    requires sep != [] && eol != []
    requires forall i :: 0 <= i < |lines| ==> IsClean(lines[i], eol)
    requires forall i :: 0 <= i < |lines| && lineno + i + 1 > skip ==> |Split(lines[i], sep)| == nCol
    ensures var (rows, status) := ImportOf(more, sep, eol, skip, nCol, lineno + |lines|);
            ImportOf(FileOf(lines, eol) + more, sep, eol, skip, nCol, lineno)
            == (RowsOfLines(AfterSkip(lines, skip, lineno), sep) + rows, status)
    decreases |lines|
  {
    hide IsClean, Split, ImportOf, AfterSkip;
    var after := ImportOf(more, sep, eol, skip, nCol, lineno + |lines|);
    if lines == [] {
      assert FileOf(lines, eol) + more == more;
      assert AfterSkip(lines, skip, lineno) == [] by { SkipNone(skip, lineno); }
      assert RowsOfLines([], sep) + after.0 == after.0;
    } else {
      var rest := FileOf(lines[1..], eol) + more;
      assert FileOf(lines, eol) + more == lines[0] + eol + rest;
      ImportStep(lines[0], rest, sep, eol, skip, nCol, lineno);
      ImportReadsLines(lines[1..], more, sep, eol, skip, nCol, lineno + 1);
      SkipOne(lines, skip, lineno);
      var tail := RowsOfLines(AfterSkip(lines[1..], skip, lineno + 1), sep);
      if lineno + 1 <= skip {
        assert AfterSkip(lines, skip, lineno) == AfterSkip(lines[1..], skip, lineno + 1);
        assert [] + (tail + after.0) == tail + after.0;
      } else {
        assert AfterSkip(lines, skip, lineno)[1..] == AfterSkip(lines[1..], skip, lineno + 1);
        var row := FieldCells(Split(lines[0], sep));
        assert [row] + (tail + after.0) == ([row] + tail) + after.0;
      }
    }
  }

  lemma {:induction false} SkipNone(skip: int, lineno: nat)
    ensures AfterSkip([], skip, lineno) == []
  {
  }

  /** One clean line more. */
  lemma {:induction false} ImportStep(line: Bytes, rest: Bytes, sep: Bytes, eol: Bytes, skip: int, nCol: nat,
                                      lineno: nat)
    requires sep != [] && eol != [] && IsClean(line, eol)
    requires lineno + 1 > skip ==> |Split(line, sep)| == nCol
    ensures var (rows, status) := ImportOf(rest, sep, eol, skip, nCol, lineno + 1);
            ImportOf(line + eol + rest, sep, eol, skip, nCol, lineno)
            == ((if lineno + 1 <= skip then [] else [FieldCells(Split(line, sep))]) + rows, status)
  {
    hide NextLine, IsClean, Split, FieldCells;
    CleanLineIsRead(line, rest, eol);
    assert (line + eol + rest)[|line| + |eol|..] == rest;
    var rows := ImportOf(rest, sep, eol, skip, nCol, lineno + 1).0;
    assert [] + rows == rows;
  }

  /** A clean line with the wrong number of fields stops the import, under its line number. */
  lemma {:induction false} ImportStops(line: Bytes, rest: Bytes, sep: Bytes, eol: Bytes, skip: int, nCol: nat,
                                       lineno: nat)
    requires sep != [] && eol != [] && IsClean(line, eol)
    requires lineno + 1 > skip && |Split(line, sep)| != nCol
    ensures ImportOf(line + eol + rest, sep, eol, skip, nCol, lineno) == ([], WrongColumns(lineno + 1))
  {
    hide NextLine, IsClean, Split, FieldCells;
    CleanLineIsRead(line, rest, eol);
  }

  /** Is the line with this number rejected? */
  predicate IsBadLine(line: Bytes, sep: Bytes, skip: int, nCol: nat, number: nat)
    requires sep != []
  {
    number > skip && |Split(line, sep)| != nCol
  }

  /** The first of `lines` that ends the import, looking from line `i` on: an empty line, wherever it is,
      or a line that is rejected. */
  function FirstStop(lines: seq<Bytes>, sep: Bytes, skip: int, nCol: nat, lineno: nat, i: nat := 0): (s: nat)
    requires sep != [] && i <= |lines|
    ensures i <= s <= |lines|
    ensures forall k :: i <= k < s ==> lines[k] != [] && !IsBadLine(lines[k], sep, skip, nCol, lineno + k + 1)
    ensures s < |lines| ==> lines[s] == [] || IsBadLine(lines[s], sep, skip, nCol, lineno + s + 1)
    decreases |lines| - i
  {
    if i == |lines| || lines[i] == [] || IsBadLine(lines[i], sep, skip, nCol, lineno + i + 1) then i
    else FirstStop(lines, sep, skip, nCol, lineno, i + 1)
  }

  /** Is a line that consists of the terminator alone recognized as empty? */
  ghost predicate SeesEmptyLine(eol: Bytes)
    requires eol != []
  {
    Recognized(eol) && !LooksTooFarBack(eol, eol)
  }

  /** What becomes of any file of lines that are clean or empty: the lines before the first that ends the
      import are inserted, those up to `skip` excepted; an empty line ends it without an error, a line with
      the wrong number of fields with its number. */
  lemma {:induction false} ImportVerdict(lines: seq<Bytes>, sep: Bytes, eol: CString, skip: int, nCol: nat, lineno: nat)
    requires sep != [] && eol != []
    requires forall i :: 0 <= i < |lines| ==> lines[i] == [] || IsClean(lines[i], eol)
    ensures var s := FirstStop(lines, sep, skip, nCol, lineno);
            ImportOf(FileOf(lines, eol), sep, eol, skip, nCol, lineno)
            == (RowsOfLines(AfterSkip(lines[..s], skip, lineno), sep),
                if s == |lines| then Done
                else if lines[s] == [] then (if SeesEmptyLine(eol) then Done else Undefined)
                else WrongColumns(lineno + s + 1))
  {
    hide IsClean, Split, ImportOf, AfterSkip, SeesEmptyLine, FileOf, IsBadLine;
    var s := FirstStop(lines, sep, skip, nCol, lineno);
    var rows := RowsOfLines(AfterSkip(lines[..s], skip, lineno), sep);
    FileOfSplit(lines, eol, s);
    RowsFit(lines, sep, skip, nCol, lineno, s);
    ImportReadsLines(lines[..s], FileOf(lines[s..], eol), sep, eol, skip, nCol, lineno);
    assert rows + [] == rows;
    ImportAtStop(lines[s..], sep, eol, skip, nCol, lineno + s);
  }

  lemma {:induction false} RowsFit(lines: seq<Bytes>, sep: Bytes, skip: int, nCol: nat, lineno: nat, s: nat)
    requires sep != [] && s <= |lines|
    requires forall k :: 0 <= k < s ==> !IsBadLine(lines[k], sep, skip, nCol, lineno + k + 1)
    ensures forall k :: 0 <= k < s && lineno + k + 1 > skip ==> |Split(lines[k], sep)| == nCol
  {
  }

  /** The import of what is left stops at once. */
  lemma {:induction false} ImportAtStop(left: seq<Bytes>, sep: Bytes, eol: CString, skip: int, nCol: nat, lineno: nat)
    requires sep != [] && eol != []
    requires forall i :: 0 <= i < |left| ==> left[i] == [] || IsClean(left[i], eol)
    requires left != [] ==> left[0] == [] || IsBadLine(left[0], sep, skip, nCol, lineno + 1)
    ensures ImportOf(FileOf(left, eol), sep, eol, skip, nCol, lineno)
            == ([],
                if left == [] then Done
                else if left[0] == [] then (if SeesEmptyLine(eol) then Done else Undefined)
                else WrongColumns(lineno + 1))
  {
    hide IsClean, Split, ImportOf, SeesEmptyLine;
    if left == [] {
      ImportEnds([], sep, eol, skip, nCol, lineno);
    } else {
      var rest := FileOf(left[1..], eol);
      if left[0] == [] {
        NoNulInFile(left[1..], eol);
        assert left[0] + eol + rest == eol + rest;
        ImportAtEmptyLine(rest, sep, eol, skip, nCol, lineno);
      } else {
        ImportStops(left[0], rest, sep, eol, skip, nCol, lineno);
      }
    }
  }

  /** Such a file is imported without an error and without loss if and only if no line is empty and every
      line that is not skipped has the right number of fields, or there is nothing to import after the
      skipped lines and an empty line among them is harmless. */
  lemma {:induction false} ImportIsComplete(lines: seq<Bytes>, sep: Bytes, eol: CString, skip: int, nCol: nat)
    requires sep != [] && eol != []
    requires forall i :: 0 <= i < |lines| ==> lines[i] == [] || IsClean(lines[i], eol)
    ensures ImportOf(FileOf(lines, eol), sep, eol, skip, nCol, 0) == (RowsOfLines(AfterSkip(lines, skip, 0), sep), Done)
            <==> || (forall i :: 0 <= i < |lines| ==> lines[i] != [] && !IsBadLine(lines[i], sep, skip, nCol, i + 1))
                 || (|lines| <= skip && SeesEmptyLine(eol))
  {
    hide IsClean, ImportOf, SeesEmptyLine, Split;
    var s := FirstStop(lines, sep, skip, nCol, 0);
    ImportVerdict(lines, sep, eol, skip, nCol, 0);
    assert lines[..|lines|] == lines;
  }

  lemma {:induction false} FileOfSplit(lines: seq<Bytes>, eol: Bytes, s: nat)
    requires s <= |lines|
    ensures FileOf(lines, eol) == FileOf(lines[..s], eol) + FileOf(lines[s..], eol)
    decreases s
  {
    if s == 0 {
      assert lines[0..] == lines;
    } else {
      FileOfSplit(lines[1..], eol, s - 1);
      assert lines[1..][..s - 1] == lines[..s][1..] && lines[1..][s - 1..] == lines[s..];
    }
  }

  lemma {:induction false} NoNulInFile(lines: seq<Bytes>, eol: CString)
    requires eol != [] && forall i :: 0 <= i < |lines| ==> lines[i] == [] || IsClean(lines[i], eol)
    ensures 0 !in FileOf(lines, eol)
    decreases |lines|
  {
    if lines != [] { NoNulInFile(lines[1..], eol); }
  }

  lemma {:induction false} SkipOne(lines: seq<Bytes>, skip: int, lineno: nat)
    requires lines != []
    ensures AfterSkip(lines, skip, lineno) ==
            (if lineno + 1 <= skip then [] else [lines[0]]) + AfterSkip(lines[1..], skip, lineno + 1)
  {
  }

  /** The import is done at the end of the file; a last line without terminator is read from a buffer
      that nothing terminates. */
  lemma {:induction false} ImportEnds(more: Bytes, sep: Bytes, eol: Bytes, skip: int, nCol: nat, lineno: nat)
    requires sep != [] && eol != [] && !LooksTooFarBack(more, eol)
    ensures more == [] ==> ImportOf(more, sep, eol, skip, nCol, lineno) == ([], Done)
    ensures more != [] && 0 !in more && FirstEnd(more, eol).None? ==>
              ImportOf(more, sep, eol, skip, nCol, lineno) == ([], Undefined)
  {
  }

  /** It is also done, silently, at an empty line, whatever follows it. */
  lemma {:induction false} ImportAtEmptyLine(rest: Bytes, sep: Bytes, eol: CString, skip: int, nCol: nat, lineno: nat)
    requires sep != [] && eol != []
    ensures SeesEmptyLine(eol) ==> ImportOf(eol + rest, sep, eol, skip, nCol, lineno) == ([], Done)
    ensures !SeesEmptyLine(eol) && 0 !in rest ==> ImportOf(eol + rest, sep, eol, skip, nCol, lineno) == ([], Undefined)
  {
    var more := eol + rest;
    assert forall k :: 0 <= k < |eol| ==> more[k] == eol[k];
    if SeesEmptyLine(eol) {
      assert more[0..|eol|] == eol;
      assert EndsAt(more, eol, |eol|);
      assert forall k :: 0 <= k < |eol| ==> !EndsAt(more, eol, k);
    } else if Recognized(eol) {
      var k :| 0 <= k < |eol| - 1 && k < |eol| && eol[k] == eol[|eol| - 1];
      assert more[k] == eol[|eol| - 1];
    }
  }

  // ----- Writing a table and importing it again

  function LinesOf(table: seq<seq<Bytes>>, sep: Bytes): (lines: seq<Bytes>)
    requires forall i :: 0 <= i < |table| ==> table[i] != []
    ensures |lines| == |table|
    ensures forall i :: 0 <= i < |table| ==> lines[i] == Join(table[i], sep)
  {
    seq(|table|, i requires 0 <= i < |table| => Join(table[i], sep))
  }

  function CellsOf(table: seq<seq<Bytes>>): (rows: seq<seq<Cell>>)
    ensures |rows| == |table|
    ensures forall i :: 0 <= i < |table| ==> rows[i] == FieldCells(table[i])
  {
    seq(|table|, i requires 0 <= i < |table| => FieldCells(table[i]))
  }

  /** A table of `nCol` fields a row, written with separators and terminators, is imported row by row as
      it was written, when its rows are leftmost splits and its lines clean. */
  lemma {:induction false} ImportRoundTrip(table: seq<seq<Bytes>>, sep: Bytes, eol: Bytes, nCol: nat)
    requires sep != [] && eol != [] && nCol > 0
    requires forall i :: 0 <= i < |table| ==> |table[i]| == nCol
    requires forall i :: 0 <= i < |table| ==>
               && IsLeftmost(table[i], sep)
               && OneLine(Join(table[i], sep)) && IsClean(Join(table[i], sep), eol)
    ensures ImportOf(FileOf(LinesOf(table, sep), eol), sep, eol, 0, nCol, 0) == (CellsOf(table), Done)
  {
    hide ImportOf, IsClean, IsLeftmost, Split, FileOf;
    var lines := LinesOf(table, sep);
    forall i | 0 <= i < |table| ensures Split(lines[i], sep) == table[i] {
      SplitJoin(table[i], sep);
    }
    ImportReadsLines(lines, [], sep, eol, 0, nCol, 0);
    ImportEnds([], sep, eol, 0, nCol, |lines|);
    assert FileOf(lines, eol) + [] == FileOf(lines, eol);
    assert RowsOfLines(lines, sep) + [] == RowsOfLines(lines, sep);
    RowsOfSplitLines(lines, table, sep);
  }

  /** The cells a client would expect to find. */
  function TextsOf(table: seq<seq<Bytes>>): (rows: seq<seq<Cell>>)
    ensures |rows| == |table|
    ensures forall i :: 0 <= i < |table| ==> rows[i] == Texts(table[i])
  {
    seq(|table|, i requires 0 <= i < |table| => Texts(table[i]))
  }

  function Texts(fields: seq<Bytes>): (cells: seq<Cell>)
    ensures |cells| == |fields|
    ensures forall k :: 0 <= k < |fields| ==> cells[k] == Text(fields[k])
  {
    seq(|fields|, k requires 0 <= k < |fields| => Text(fields[k]))
  }

  lemma {:induction false} TextsComeBack(fields: seq<Bytes>, read: seq<Bytes>)
    ensures FieldCells(read) == Texts(fields) <==>
            read == fields && forall k :: 0 <= k < |fields| ==> !StandsForNull(fields[k])
  {
    if FieldCells(read) == Texts(fields) {
      forall k | 0 <= k < |fields| ensures read[k] == fields[k] && !StandsForNull(fields[k]) {
        assert FieldCells(read)[k] == Texts(fields)[k];
      }
    }
  }

  /** A table written with separators and terminators comes back as the text that was written, every row
      and nothing else, if and only if no line is empty, every row is a leftmost split, and no field begins
      with \N. */
  lemma {:induction false} ImportRoundTripIsExact(table: seq<seq<Bytes>>, sep: Bytes, eol: CString, nCol: nat)
    requires sep != [] && eol != [] && nCol > 0
    requires forall i :: 0 <= i < |table| ==> |table[i]| == nCol
    requires forall i :: 0 <= i < |table| ==>
               var line := Join(table[i], sep); OneLine(line) && (line == [] || IsClean(line, eol))
    ensures ImportOf(FileOf(LinesOf(table, sep), eol), sep, eol, 0, nCol, 0) == (TextsOf(table), Done)
            <==> forall i :: 0 <= i < |table| ==>
                   && Join(table[i], sep) != []
                   && IsLeftmost(table[i], sep)
                   && forall k :: 0 <= k < nCol ==> !StandsForNull(table[i][k])
  {
    hide ImportOf, IsClean, IsLeftmost, Split, FileOf, Join, StandsForNull;
    var lines := LinesOf(table, sep);
    var s := FirstStop(lines, sep, 0, nCol, 0);
    ImportVerdict(lines, sep, eol, 0, nCol, 0);
    assert lines[..|lines|] == lines;
    forall i | 0 <= i < |table|
      ensures Split(lines[i], sep) == table[i] <==> IsLeftmost(table[i], sep)
      ensures FieldCells(Split(lines[i], sep)) == Texts(table[i]) <==>
              Split(lines[i], sep) == table[i] && forall k :: 0 <= k < nCol ==> !StandsForNull(table[i][k])
    {
      SplitJoin(table[i], sep);
      TextsComeBack(table[i], Split(lines[i], sep));
    }
    forall i | 0 <= i < |table| ensures RowsOfLines(lines, sep)[i] == FieldCells(Split(lines[i], sep)) {
      RowOfLine(lines, sep, i);
    }
    if s == |lines| {
      assert RowsOfLines(lines, sep) == TextsOf(table) <==>
             forall i :: 0 <= i < |table| ==> FieldCells(Split(lines[i], sep)) == Texts(table[i]);
    }
  }

  lemma {:induction false} RowsOfSplitLines(lines: seq<Bytes>, table: seq<seq<Bytes>>, sep: Bytes)
    requires sep != [] && |lines| == |table|
    requires forall i :: 0 <= i < |table| ==> Split(lines[i], sep) == table[i]
    ensures RowsOfLines(lines, sep) == CellsOf(table)
    decreases |lines|
  {
    if lines != [] {
      RowsOfSplitLines(lines[1..], table[1..], sep);
      assert CellsOf(table) == [FieldCells(table[0])] + CellsOf(table[1..]);
    }
  }
}
