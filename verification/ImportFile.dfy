/** The delimited-file importer (src/import-file.c): a line reader over a growing buffer, and a field
    splitter that works in place on the line. */
module ImportFile {
  import opened ColumnTypes
  import opened ColumnSource
  import opened LineModel

  class InputFile {
    const content: Bytes
    var pos: nat

    ghost predicate Valid()
      reads this
    {
      pos <= |content|
    }

    ghost function Rest(): Bytes
      requires Valid()
      reads this
    {
      content[pos..]
    }

    constructor (content: Bytes)
      ensures Valid() && Rest() == content
    {
      this.content, pos := content, 0;
    }

    /** `fgetc`; None is EOF. */
    method GetChar() returns (c: Option<bv8>)
      requires Valid()
      modifies this
      ensures Valid()
      ensures pos == if c.Some? then old(pos) + 1 else old(pos)
      ensures c == if old(pos) < |content| then Some(content[old(pos)]) else None
    {
      if pos == |content| { return None; }
      c := Some(content[pos]);
      pos := pos + 1;
    }
  }

  /** Does `buf` hold `text` as a C string starting at `at`? */
  ghost predicate HoldsString(buf: array<bv8>, at: nat, text: Bytes)
    reads buf
  {
    && 0 !in text
    && at + |text| < buf.Length
    && buf[at..at + |text|] == text
    && buf[at + |text|] == 0
  }

  /** A capacity the line reader can reach. */
  ghost predicate IsLineCapacity(nc: nat) {
    exists k: nat :: nc == 1024 * Pow2(k)
  }

  /** Makes room for a byte at index `i`: a full buffer is reallocated at twice its size, which keeps the
      old bytes and leaves the new ones arbitrary. */
  method MakeRoom(buf: array<bv8>, i: nat) returns (room: array<bv8>)
    requires IsLineCapacity(buf.Length) && i <= buf.Length
    ensures room == buf || fresh(room)
    ensures i < room.Length && IsLineCapacity(room.Length)
    ensures forall k :: 0 <= k < i ==> room[k] == buf[k]
  {
    ghost var k: nat :| buf.Length == 1024 * Pow2(k);
    if i < buf.Length { return buf; }
    room := new bv8[2 * buf.Length];
    for k := 0 to buf.Length
      invariant forall m :: 0 <= m < k ==> room[m] == buf[m]
    {
      room[k] := buf[k];
    }
    assert room.Length == 1024 * Pow2(k + 1);
  }

  /** Do the last bytes before `i` spell the terminator, whose last byte is known to? */
  method LooksBack(buf: array<bv8>, i: nat, eol: Bytes) returns (found: bool)
    requires 0 < |eol| <= i <= buf.Length && buf[i - 1] == eol[|eol| - 1]
    ensures found <==> buf[i - |eol|..i] == eol
  {
    var j := |eol| - 1;
    while j > 0
      invariant 0 <= j < |eol|
      invariant forall t :: 0 <= t < |eol| - 1 - j ==> buf[i - |eol| + t] == eol[t]
    {
      if buf[i - 1 - j] != eol[|eol| - 1 - j] {
        assert buf[i - |eol|..i][|eol| - 1 - j] == buf[i - 1 - j];
        return false;
      }
      j := j - 1;
    }
    return true;
  }

  /** The verdict on a buffer terminated at `at`: an empty string counts as no line. */
  method TerminatedLine(buf: array<bv8>, at: nat) returns (r: LineResult)
    requires at < buf.Length && buf[at] == 0
    ensures r == LineOrNone(buf[..at])
    ensures r.Line? ==> HoldsString(buf, 0, r.text)
  {
    if buf[0] == 0 { return NoLine; }
    return Line(UpToNul(buf[..at]));
  }

  /** The verdict at the end of the file, after `i` bytes that nothing terminates. */
  method AtEndOfFile(buf: array<bv8>, i: nat) returns (r: LineResult)
    requires i < buf.Length
    ensures r == if i > 0 && 0 !in buf[..i] then Unterminated(buf[..i]) else LineOrNone(buf[..i])
    ensures r.Line? ==> HoldsString(buf, 0, r.text)
  {
    if i == 0 || buf[0] == 0 { return NoLine; }
    var text := UpToNul(buf[..i]);
    if text == buf[..i] { return Unterminated(text); }
    return Line(text);
  }

  /** After `i` bytes of `rest`, no line has ended and no look back has left the buffer. */
  ghost predicate Scanning(rest: Bytes, eol: Bytes, i: nat)
    requires eol != []
  {
    && i <= |rest|
    && (forall e :: 0 <= e <= i ==> !EndsAt(rest, eol, e))
    && (Recognized(eol) ==> forall k :: 0 <= k < |eol| - 1 && k < i ==> rest[k] != eol[|eol| - 1])
  }

  /** What the next byte, `rest[i]`, means for the scan. */
  lemma {:induction false} ScanByte(rest: Bytes, eol: Bytes, i: nat)
    requires eol != [] && i < |rest| && Scanning(rest, eol, i)
    ensures !Recognized(eol) || rest[i] != eol[|eol| - 1] ==> Scanning(rest, eol, i + 1)
    ensures Recognized(eol) && rest[i] == eol[|eol| - 1] && i + 1 < |eol| ==> NextLine(rest, eol) == (OutOfBounds, 0)
    ensures Recognized(eol) && |eol| <= i + 1 ==>
              var look := rest[i + 1 - |eol|..i + 1];
              && (look != eol ==> Scanning(rest, eol, i + 1))
              && (look == eol ==> NextLine(rest, eol) == (LineOrNone(rest[..i + 1 - |eol|]), i + 1))
  {
    if Recognized(eol) && |eol| <= i + 1 {
      var look := rest[i + 1 - |eol|..i + 1];
      assert look[|eol| - 1] == rest[i];
      if look == eol { assert EndsAt(rest, eol, i + 1); }
    }
  }

  lemma {:induction false} ScanEnd(rest: Bytes, eol: Bytes)
    requires eol != [] && Scanning(rest, eol, |rest|)
    ensures NextLine(rest, eol) ==
            (if rest != [] && 0 !in rest then Unterminated(rest) else LineOrNone(rest), |rest|)
  {
  }

  /** The check after a byte has been stored at `i - 1`: has a line ended? */
  method CheckEnd(buf: array<bv8>, i: nat, eol: CString, ghost rest: Bytes) returns (r: Option<LineResult>)
    requires eol != [] && 0 < i <= buf.Length && i <= |rest|
    requires Scanning(rest, eol, i - 1) && forall k :: 0 <= k < i ==> buf[k] == rest[k]
    modifies buf
    ensures r.None? ==> Scanning(rest, eol, i) && forall k :: 0 <= k < i ==> buf[k] == rest[k]
    ensures r.Some? ==>
              && r.value == NextLine(rest, eol).0
              && (r.value.OutOfBounds? || NextLine(rest, eol).1 == i)
              && (r.value.Line? ==> HoldsString(buf, 0, r.value.text))
  {
    hide Scanning, NextLine, LineOrNone, HoldsString, Recognized, PlainChar;
    ScanByte(rest, eol, i - 1);
    EqualsLastChar(buf[i - 1], eol);
    if buf[i - 1] as int != PlainChar(eol[|eol| - 1]) { return None; }
    if i < |eol| { return Some(OutOfBounds); }
    var found := LooksBack(buf, i, eol);
    assert buf[i - |eol|..i] == rest[i - |eol|..i];
    if !found { return None; }
    buf[i - |eol|] := 0;
    assert buf[..i - |eol|] == rest[..i - |eol|];
    var line := TerminatedLine(buf, i - |eol|);
    return Some(line);
  }

  /** `RS_sqlite_getline`. The buffer returned holds the line as a C string. */
  method GetLine(file: InputFile, eol: CString) returns (buf: array<bv8>, r: LineResult)
    requires file.Valid() && eol != []
    modifies file
    ensures file.Valid() && fresh(buf) && IsLineCapacity(buf.Length)
    ensures r == NextLine(old(file.Rest()), eol).0
    ensures !r.OutOfBounds? ==> file.Rest() == old(file.Rest())[NextLine(old(file.Rest()), eol).1..]
    ensures r.Line? ==> HoldsString(buf, 0, r.text)
  {
    hide Scanning, NextLine, LineOrNone, HoldsString, IsLineCapacity;
    ghost var start, rest := file.pos, file.Rest();
    buf := new bv8[1024];
    FirstCapacity();
    ScanStart(rest, eol);
    var i := 0;
    while true
      invariant i <= |rest| && file.pos == start + i
      invariant fresh(buf) && IsLineCapacity(buf.Length)
      invariant i <= buf.Length && forall k :: 0 <= k < i ==> buf[k] == rest[k]
      invariant Scanning(rest, eol, i)
      decreases |rest| - i
    {
      var c := file.GetChar();
      buf := MakeRoom(buf, i);
      if c.None? {
        assert buf[..i] == rest;
        ScanEnd(rest, eol);
        r := AtEndOfFile(buf, i);
        return;
      }
      buf[i] := c.value;
      i := i + 1;
      var end := CheckEnd(buf, i, eol, rest);
      if end.Some? { return buf, end.value; }
    }
  }

  lemma {:induction false} FirstCapacity()
    ensures IsLineCapacity(1024)
  {
    assert 1024 == 1024 * Pow2(0);
  }

  lemma {:induction false} ScanStart(rest: Bytes, eol: Bytes)
    requires eol != []
    ensures Scanning(rest, eol, 0)
  {
  }

  lemma {:induction false} OccursByte(s: Bytes, w: Bytes, z: nat, k: nat)
    requires k < |w|
    ensures OccursAt(s, w, z) ==> z + k < |s| && s[z + k] == w[k]
  {
    if OccursAt(s, w, z) { assert s[z..z + |w|][k] == s[z + k]; }
  }

  /** `strncmp(z, separator, nSep) == 0` at position `z` of a C string. */
  method SeparatorAt(buf: array<bv8>, z: nat, sep: CString, ghost text: Bytes) returns (same: bool)
    requires z <= |text| && 0 !in text
    requires |text| < buf.Length && buf[|text|] == 0
    requires forall k :: z <= k < |text| ==> buf[k] == text[k]
    ensures same <==> OccursAt(text, sep, z)
  {
    var k := 0;
    while k < |sep|
      invariant k <= |sep| && z + k <= |text|
      invariant forall m :: 0 <= m < k ==> sep[m] == text[z + m]
    {
      assert sep[k] in sep;
      if buf[z + k] != sep[k] {
        OccursByte(text, sep, z, k);
        return false;
      }
      k := k + 1;
    }
    assert text[z..z + |sep|] == sep;
    return true;
  }

  /** The field that starts at `start` is unchanged up to `z`. */
  ghost predicate Open(zLine: array<bv8>, text: Bytes, start: nat, z: nat)
    reads zLine
  {
    start <= z <= |text| < zLine.Length && zLine[start..z] == text[start..z]
  }

  /** The fields ended so far lie before `start`. */
  ghost predicate Ended(zLine: array<bv8>, starts: seq<nat>, done: seq<Bytes>, start: nat)
    reads zLine
  {
    && |starts| == |done|
    && forall c :: 0 <= c < |done| ==> starts[c] + |done[c]| < start && HoldsString(zLine, starts[c], done[c])
  }

  /** Ends the field that starts at `start` by a NUL over the separator at `z`; the fields ended before
      are not disturbed. */
  method CutField(zLine: array<bv8>, z: nat, ghost start: nat, ghost text: Bytes, ghost starts: seq<nat>,
                  ghost done: seq<Bytes>)
    requires z < |text| < zLine.Length && 0 !in text
    requires Open(zLine, text, start, z) && Ended(zLine, starts, done, start)
    modifies zLine
    ensures zLine[z] == 0 && forall k :: 0 <= k < zLine.Length && k != z ==> zLine[k] == old(zLine[k])
    ensures forall next :: next > z ==> Ended(zLine, starts + [start], done + [text[start..z]], next)
  {
    zLine[z] := 0;
    assert zLine[start..z] == old(zLine[start..z]);
    forall c | 0 <= c < |done| ensures HoldsString(zLine, starts[c], done[c]) {
      assert old(HoldsString(zLine, starts[c], done[c]));
      assert zLine[starts[c]..starts[c] + |done[c]|] == old(zLine[starts[c]..starts[c] + |done[c]|]);
    }
  }

  /** At position `z` the fields `done` are complete, and the current one starts at `start`. */
  ghost predicate SoFar(text: Bytes, sep: Bytes, done: seq<Bytes>, start: nat, z: nat)
    requires sep != []
  {
    start <= z <= |text| && Split(text, sep) == done + SplitFrom(text, sep, start, z)
  }

  lemma {:induction false} SplitStart(zLine: array<bv8>, text: Bytes, sep: Bytes)
    requires sep != [] && |text| < zLine.Length
    ensures SoFar(text, sep, [], 0, 0)
    ensures Open(zLine, text, 0, 0) && Ended(zLine, [], [], 0)
  {
  }

  /** How the split evolves at position `z`. */
  lemma {:induction false} SplitStep(text: Bytes, sep: Bytes, done: seq<Bytes>, start: nat, z: nat)
    requires sep != [] && SoFar(text, sep, done, start, z)
    ensures start <= z <= |text|
    ensures Stops(text, z) ==> Split(text, sep) == done + [text[start..]]
    ensures !Stops(text, z) && !OccursAt(text, sep, z) ==> SoFar(text, sep, done, start, z + 1)
    ensures !Stops(text, z) && OccursAt(text, sep, z) ==>
              && |Split(text, sep)| > |done| + 1
              && SoFar(text, sep, done + [text[start..z]], z + |sep|, z + |sep|)
  {
  }

  /** The fields that are complete, where they begin, and where the current one does. */
  datatype Progress = Progress(done: seq<Bytes>, starts: seq<nat>, start: nat)

  /** Nothing has been overwritten from position `z` on. */
  ghost predicate Unread(zLine: array<bv8>, text: Bytes, z: nat)
    reads zLine
  {
    && z <= |text| < zLine.Length && zLine[|text|] == 0
    && forall k :: z <= k < |text| ==> zLine[k] == text[k]
  }

  /** At position `z`, in field `i`, the line and the recorded starts are as the split so far says. */
  ghost predicate Splitting(zLine: array<bv8>, azCol: array<nat>, text: Bytes, sep: Bytes, i: nat, z: nat, p: Progress)
    requires sep != []
    reads zLine, azCol
  {
    && |p.done| == |p.starts| == i < azCol.Length
    && SoFar(text, sep, p.done, p.start, z)
    && azCol[i] == p.start && (forall c :: 0 <= c < i ==> azCol[c] == p.starts[c])
    && Open(zLine, text, p.start, z) && Ended(zLine, p.starts, p.done, p.start)
  }

  /** The separator at `z` ends field `i`: the next field, if the table has one, starts behind it; else the
      scan just goes on. */
  method EndField(zLine: array<bv8>, azCol: array<nat>, sep: CString, nCol: nat, i: nat, z: nat,
                  ghost text: Bytes, ghost p: Progress) returns (next: nat, ghost q: Progress)
    requires sep != [] && 0 !in text && i < nCol && azCol.Length == nCol + 1 && azCol as object != zLine
    requires Splitting(zLine, azCol, text, sep, i, z, p) && Unread(zLine, text, z)
    requires !Stops(text, z) && OccursAt(text, sep, z)
    modifies zLine, azCol
    ensures z < next && Unread(zLine, text, next)
    ensures i + 1 < nCol ==> Splitting(zLine, azCol, text, sep, i + 1, next, q)
    ensures |Split(text, sep)| > i + 1
  {
    hide HoldsString, Split, SplitFrom, Open, Ended;
    SplitStep(text, sep, p.done, p.start, z);
    CutField(zLine, z, p.start, text, p.starts, p.done);
    next, q := z + 1, Progress(p.done + [text[p.start..z]], p.starts + [p.start], z + |sep|);
    if i + 1 < nCol {
      azCol[i + 1] := z + |sep|;
      next := z + |sep|;
      OpenHere(zLine, text, next);
    }
  }

  /** A byte that is no separator belongs to field `i`. */
  lemma {:induction false} PassByte(zLine: array<bv8>, azCol: array<nat>, text: Bytes, sep: Bytes, i: nat, z: nat,
                                    p: Progress)
    requires sep != [] && Splitting(zLine, azCol, text, sep, i, z, p) && Unread(zLine, text, z)
    requires !Stops(text, z) && !OccursAt(text, sep, z)
    ensures Splitting(zLine, azCol, text, sep, i, z + 1, p)
  {
    hide Split, Ended, OccursAt;
    SplitStep(text, sep, p.done, p.start, z);
    OpenNext(zLine, text, p.start, z);
  }

  /** At the end of the line all fields are known. */
  lemma {:induction false} AllFields(zLine: array<bv8>, azCol: array<nat>, text: Bytes, sep: Bytes, i: nat, z: nat,
                                     p: Progress)
    requires sep != [] && 0 !in text
    requires Splitting(zLine, azCol, text, sep, i, z, p) && Unread(zLine, text, z) && Stops(text, z)
    ensures |Split(text, sep)| == i + 1
    ensures forall c :: 0 <= c <= i ==> HoldsString(zLine, azCol[c], Split(text, sep)[c])
  {
    hide Split, Open, Ended, HoldsString;
    SplitStep(text, sep, p.done, p.start, z);
    FieldsHeld(zLine, text, p.start, z, p.starts, p.done);
  }

  /** The field splitter of `RS_sqlite_import`: overwrites separators by NULs and records where fields
      begin. `i + 1` is the number of fields found; if it is not `nCol`, the line is rejected. */
  method SplitLine(zLine: array<bv8>, sep: CString, nCol: nat, ghost text: Bytes) returns (i: nat, azCol: array<nat>)
    requires sep != [] && nCol > 0 && HoldsString(zLine, 0, text)
    modifies zLine
    ensures fresh(azCol) && azCol.Length == nCol + 1
    ensures i + 1 == nCol <==> |Split(text, sep)| == nCol
    ensures i + 1 == nCol ==>
              forall c :: 0 <= c < nCol ==> HoldsString(zLine, azCol[c], Split(text, sep)[c])
  {
    hide HoldsString, OccursAt, Split, SoFar, Open, Ended;
    StringAt(zLine, 0, text);
    SplitStart(zLine, text, sep);
    azCol := new nat[nCol + 1];
    azCol[0] := 0;
    i := 0;
    var z := 0;
    ghost var p := Progress([], [], 0);
    while zLine[z] != 0 && zLine[z] != LF && zLine[z] != CR
      invariant Unread(zLine, text, z)
      invariant i < nCol ==> Splitting(zLine, azCol, text, sep, i, z, p)
      invariant i >= nCol ==> |Split(text, sep)| > nCol
      decreases |text| - z
    {
      hide Splitting;
      var here := SeparatorAt(zLine, z, sep, text);
      if here && i < nCol {
        z, p := EndField(zLine, azCol, sep, nCol, i, z, text, p);
        i := i + 1;
      } else if here {
        zLine[z] := 0;
        i, z := i + 1, z + 1;
      } else {
        if i < nCol { PassByte(zLine, azCol, text, sep, i, z, p); }
        z := z + 1;
      }
    }
    if i < nCol { AllFields(zLine, azCol, text, sep, i, z, p); }
  }

  lemma {:induction false} OpenHere(zLine: array<bv8>, text: Bytes, z: nat)
    requires z <= |text| < zLine.Length
    ensures Open(zLine, text, z, z)
  {
  }

  lemma {:induction false} OpenNext(zLine: array<bv8>, text: Bytes, start: nat, z: nat)
    requires Open(zLine, text, start, z) && z < |text| && zLine[z] == text[z]
    ensures Open(zLine, text, start, z + 1)
  {
    assert zLine[start..z + 1] == zLine[start..z] + [zLine[z]];
  }

  /** When the scan stops in an open field, all fields are C strings where they begin. */
  lemma {:induction false} FieldsHeld(zLine: array<bv8>, text: Bytes, start: nat, z: nat, starts: seq<nat>,
                                      done: seq<Bytes>)
    requires Open(zLine, text, start, z) && Ended(zLine, starts, done, start)
    requires 0 !in text && zLine[|text|] == 0 && forall k :: z <= k < |text| ==> zLine[k] == text[k]
    ensures forall c :: 0 <= c < |done| ==> HoldsString(zLine, starts[c], done[c])
    ensures HoldsString(zLine, start, text[start..])
  {
    TailString(zLine, start, z, text);
  }

  /** The field that was still open when the scan stopped. */
  lemma {:induction false} TailString(buf: array<bv8>, at: nat, z: nat, text: Bytes)
    requires at <= z <= |text| < buf.Length && 0 !in text && buf[|text|] == 0
    requires buf[at..z] == text[at..z] && forall k :: z <= k < |text| ==> buf[k] == text[k]
    ensures HoldsString(buf, at, text[at..])
  {
    assert buf[at..|text|] == buf[at..z] + buf[z..|text|];
    assert buf[z..|text|] == text[z..];
  }

  lemma {:induction false} StringAt(buf: array<bv8>, at: nat, text: Bytes)
    requires HoldsString(buf, at, text)
    ensures 0 !in text && at + |text| < buf.Length && buf[at + |text|] == 0
    ensures forall k :: 0 <= k < |text| ==> buf[at + k] == text[k]
  {
    forall k | 0 <= k < |text| ensures buf[at + k] == text[k] {
      assert buf[at..at + |text|][k] == buf[at + k];
    }
  }

  /** Binds one field: NULL if it begins with \N, else the text up to the next NUL. */
  method BindField(zLine: array<bv8>, at: nat, ghost field: Bytes) returns (c: Cell)
    requires HoldsString(zLine, at, field)
    ensures c == FieldCell(field)
  {
    StringAt(zLine, at, field);
    assert |field| > 0 ==> zLine[at + 0] == field[0];
    assert |field| > 1 ==> zLine[at + 1] == field[1];
    if zLine[at] == 92 && zLine[at + 1] == 78 { return Null; }
    StringIsUpToNul(zLine[at..], field);
    return Text(UpToNul(zLine[at..]));
  }

  lemma {:induction false} StringIsUpToNul(s: Bytes, text: Bytes)
    requires 0 !in text && |text| < |s| && s[..|text|] == text && s[|text|] == 0
    ensures UpToNul(s) == text
    decreases |text|
  {
    if text != [] {
      assert s[0] == text[0] && text[0] in text;
      assert s[1..][..|text| - 1] == text[1..];
      StringIsUpToNul(s[1..], text[1..]);
    }
  }

  /** Binds the fields of an accepted line and inserts them as a row. */
  method BindFields(zLine: array<bv8>, azCol: array<nat>, nCol: nat, ghost fields: seq<Bytes>) returns (row: seq<Cell>)
    requires azCol.Length == nCol + 1 && |fields| == nCol
    requires forall c :: 0 <= c < nCol ==> HoldsString(zLine, azCol[c], fields[c])
    ensures row == FieldCells(fields)
  {
    row := [];
    for c := 0 to nCol
      invariant |row| == c && forall m :: 0 <= m < c ==> row[m] == FieldCell(fields[m])
    {
      hide HoldsString, FieldCell;
      var cell := BindField(zLine, azCol[c], fields[c]);
      row := row + [cell];
    }
  }

  /** `RS_sqlite_import` into a table of `nCol` columns: the rows inserted, in order, and how it ended. */
  method Import(file: InputFile, sep: CString, eol: CString, skip: int, nCol: nat)
    returns (rows: seq<seq<Cell>>, status: ImportStatus)
    requires file.Valid() && eol != []
    modifies file
    ensures file.Valid()
    ensures sep == [] || nCol == 0 ==> rows == [] && status == NotStarted && unchanged(file)
    ensures sep != [] && nCol > 0 ==> (rows, status) == ImportOf(old(file.Rest()), sep, eol, skip, nCol, 0)
  {
    rows, status := [], NotStarted;
    if sep == [] || nCol == 0 { return; }
    hide NextLine, Split, FieldCells, HoldsString;
    ghost var whole := ImportOf(file.Rest(), sep, eol, skip, nCol, 0);
    assert [] + whole.0 == whole.0;
    var lineno := 0;
    while true
      invariant file.Valid()
      invariant var (more, end) := ImportOf(file.Rest(), sep, eol, skip, nCol, lineno);
                whole == (rows + more, end)
      decreases |file.Rest()|
    {
      ghost var rest := file.Rest();
      var zLine, line := GetLine(file, eol);
      assert rows + [] == rows;
      if line.NoLine? { return rows, Done; }
      if !line.Line? { return rows, Undefined; }
      lineno := lineno + 1;
      if lineno > skip {
        var i, azCol := SplitLine(zLine, sep, nCol, line.text);
        if i + 1 != nCol { return rows, WrongColumns(lineno); }
        var row := BindFields(zLine, azCol, nCol, Split(line.text, sep));
        Prepend(rows, row, ImportOf(file.Rest(), sep, eol, skip, nCol, lineno).0);
        rows := rows + [row];
      }
    }
  }

  lemma {:induction false} Prepend<T>(a: seq<T>, x: T, b: seq<T>)
    ensures (a + [x]) + b == a + ([x] + b)
  {
  }
}
