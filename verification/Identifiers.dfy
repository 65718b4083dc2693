/** Quoting of identifiers (R/dbQuoteIdentifier_SQLiteConnection_character.R) and the grammar of
    optionally qualified, optionally quoted identifiers that dbUnquoteIdentifier accepts
    (R/dbUnquoteIdentifier_SQLiteConnection_SQL.R). */
module Identifiers {
  import opened ColumnTypes

  // ----- Backticks

  /** gsub("`", "``", x). */
  function Double(x: string): string {
    if x == "" then "" else (if x[0] == '`' then "``" else [x[0]]) + Double(x[1..])
  }

  /** gsub("``", "`", x): pairs are replaced from the left. */
  function Undouble(x: string): string {
    if x == "" then ""
    else if |x| >= 2 && x[0] == '`' && x[1] == '`' then "`" + Undouble(x[2..])
    else [x[0]] + Undouble(x[1..])
  }

  /** (?:[^`]|``)* */
  predicate IsBody(r: string) {
    || r == ""
    || (r[0] != '`' && IsBody(r[1..]))
    || (|r| >= 2 && r[0] == '`' && r[1] == '`' && IsBody(r[2..]))
  }

  lemma {:induction false} UndoubleDouble(x: string)
    ensures Undouble(Double(x)) == x
    ensures IsBody(Double(x))
    ensures x != "" ==> Double(x) != ""
    decreases |x|
  {
    if x != "" {
      UndoubleDouble(x[1..]);
      var d := Double(x);
      if x[0] == '`' {
        assert d[2..] == Double(x[1..]);
      } else {
        assert d[1..] == Double(x[1..]);
      }
    }
  }

  /** Every quoted body is the doubling of what it stands for. */
  lemma {:induction false} DoubleUndouble(r: string)
    requires IsBody(r)
    ensures Double(Undouble(r)) == r
    decreases |r|
  {
    if r != "" {
      if r[0] == '`' {
        DoubleUndouble(r[2..]);
        assert Undouble(r)[1..] == Undouble(r[2..]);
        assert r == "``" + r[2..];
      } else {
        DoubleUndouble(r[1..]);
        assert Undouble(r)[1..] == Undouble(r[1..]);
        assert r == [r[0]] + r[1..];
      }
    }
  }

  // ----- The grammar

  predicate IsBareChar(c: char) {
    c != '`' && c != '.' && c != ' '
  }

  /** One name as written: quoted text, or bare. */
  datatype Ident = Quoted(body: string) | Bare(text: string) {
    predicate Valid() {
      match this
      case Quoted(body) => body != "" && IsBody(body)
      case Bare(text) => text != "" && forall i :: 0 <= i < |text| ==> IsBareChar(text[i])
    }

    function Text(): string {
      match this
      case Quoted(body) => "`" + body + "`"
      case Bare(text) => text
    }

    /** The captured group, with doubled backticks undone. */
    function Name(): string {
      match this
      case Quoted(body) => Undouble(body)
      case Bare(text) => Undouble(text)
    }
  }

  /** A match of the whole pattern: an optional schema with its dot, and an optional table. */
  datatype Match = Match(schema: Option<Ident>, table: Option<Ident>) {
    predicate Valid() {
      && (schema.Some? ==> schema.value.Valid())
      && (table.Some? ==> table.value.Valid())
    }

    function Text(): string {
      (if schema.Some? then schema.value.Text() + "." else "") + (if table.Some? then table.value.Text() else "")
    }

    function SchemaName(): string {
      if schema.Some? then schema.value.Name() else ""
    }

    function TableName(): string {
      if table.Some? then table.value.Name() else ""
    }
  }

  // ----- A deterministic parser

  /** The length of the longest bare prefix. */
  function BareLength(s: string): (n: nat)
    ensures n <= |s|
    ensures forall i :: 0 <= i < n ==> IsBareChar(s[i])
    ensures n < |s| ==> !IsBareChar(s[n])
  {
    if s == "" || !IsBareChar(s[0]) then 0 else 1 + BareLength(s[1..])
  }

  /** The length of the longest prefix that is a quoted body: up to a backtick not followed by another. */
  function BodyLength(s: string): (n: nat)
    ensures n <= |s| && IsBody(s[..n])
    ensures n < |s| ==> s[n] == '`' && (n + 1 == |s| || s[n + 1] != '`')
  {
    if s == "" then 0
    else if s[0] != '`' then
      var n := BodyLength(s[1..]);
      assert s[..n + 1][1..] == s[1..][..n];
      n + 1
    else if |s| >= 2 && s[1] == '`' then
      var n := BodyLength(s[2..]);
      assert s[..n + 2][2..] == s[2..][..n];
      n + 2
    else 0
  }

  /** The identifier at the start of `s`, if any, and what follows it. */
  function TakeIdent(s: string): (r: Option<(Ident, string)>)
    ensures r.Some? ==> r.value.0.Valid() && r.value.0.Text() + r.value.1 == s
  {
    if s != "" && s[0] == '`' then
      var n := BodyLength(s[1..]);
      if n == 0 || n == |s| - 1 then None
      else
        assert s[1..][..n] == s[1..n + 1];
        assert s == "`" + s[1..n + 1] + "`" + s[n + 2..];
        Some((Quoted(s[1..n + 1]), s[n + 2..]))
    else
      var n := BareLength(s);
      if n == 0 then None else Some((Bare(s[..n]), s[n..]))
  }

  /** A table name that must be the rest of the string. */
  function ParseTable(s: string): Option<Option<Ident>> {
    if s == "" then Some(None)
    else
      match TakeIdent(s)
      case None => None
      case Some((id, rest)) => if rest == "" then Some(Some(id)) else None
  }

  function Parse(s: string): Option<Match> {
    match TakeIdent(s)
    case None => if s == "" then Some(Match(None, None)) else None
    case Some((id, rest)) =>
      if rest == "" then Some(Match(None, Some(id)))
      else if rest[0] != '.' then None
      else
        match ParseTable(rest[1..])
        case None => None
        case Some(table) => Some(Match(Some(id), table))
  }

  /** An identifier, followed by nothing that could continue it, is the one taken. */
  lemma {:induction false} TakesIdent(id: Ident, rest: string)
    requires id.Valid() && (rest == "" || rest[0] == '.')
    ensures TakeIdent(id.Text() + rest) == Some((id, rest))
  {
    match id
    case Quoted(body) => TakesQuoted(body, rest);
    case Bare(text) => TakesBare(text, rest);
  }

  lemma {:induction false} TakesQuoted(body: string, rest: string)
    requires Quoted(body).Valid() && (rest == "" || rest[0] == '.')
    ensures TakeIdent("`" + body + "`" + rest) == Some((Quoted(body), rest))
  {
    hide IsBody;
    var s := "`" + body + "`" + rest;
    assert s[1..] == body + ("`" + rest);
    BodyEnds(body, "`" + rest);
    assert BodyLength(s[1..]) == |body|;
    assert s[1..|body| + 1] == body && s[|body| + 2..] == rest;
  }

  lemma {:induction false} TakesBare(text: string, rest: string)
    requires Bare(text).Valid() && (rest == "" || rest[0] == '.')
    ensures TakeIdent(text + rest) == Some((Bare(text), rest))
  {
    var s := text + rest;
    assert s[0] == text[0];
    BareEnds(text, rest);
    assert s[..|text|] == text && s[|text|..] == rest;
  }

  lemma {:induction false} BareEnds(text: string, rest: string)
    requires forall i :: 0 <= i < |text| ==> IsBareChar(text[i])
    requires rest == "" || rest[0] == '.'
    ensures BareLength(text + rest) == |text|
    decreases |text|
  {
    if text != "" {
      assert (text + rest)[1..] == text[1..] + rest;
      BareEnds(text[1..], rest);
    } else {
      assert text + rest == rest;
    }
  }

  lemma {:induction false} BodyEnds(body: string, after: string)
    requires IsBody(body) && after != "" && after[0] == '`' && (|after| == 1 || after[1] != '`')
    ensures BodyLength(body + after) == |body|
    decreases |body|
  {
    var s := body + after;
    if body == "" {
      assert s == after;
    } else if body[0] != '`' {
      assert s[1..] == body[1..] + after;
      BodyEnds(body[1..], after);
    } else {
      assert s[2..] == body[2..] + after;
      BodyEnds(body[2..], after);
    }
  }

  /** The parser finds a match exactly when the pattern has one, and then that one: a string has at most
      one (schema, table) reading. */
  lemma {:induction false} ParseIsExact(s: string, m: Match)
    ensures Parse(s) == Some(m) <==> m.Valid() && m.Text() == s
  {
    if m.Valid() && m.Text() == s { ParseCompletes(m); }
    if Parse(s) == Some(m) { ParseIsSound(s, m); }
  }

  lemma {:induction false} ParseIsSound(s: string, m: Match)
    requires Parse(s) == Some(m)
    ensures m.Valid() && m.Text() == s
  {
    if m.schema.Some? {
      var (id, rest) := TakeIdent(s).value;
      var tail := rest[1..];
      assert rest == "." + tail;
      if tail != "" { var (_, end) := TakeIdent(tail).value; assert end == ""; }
    }
  }

  lemma {:induction false} IdentIsNotEmpty(id: Ident)
    requires id.Valid()
    ensures id.Text() != ""
  {
  }

  lemma {:induction false} ParseCompletes(m: Match)
    requires m.Valid()
    ensures Parse(m.Text()) == Some(m)
  {
    if m.schema.None? && m.table.None? {
      assert m.Text() == "";
      return;
    }
    hide TakeIdent, Ident.Valid, Ident.Text;
    var table := if m.table.Some? then m.table.value.Text() else "";
    if m.table.Some? {
      assert table != "" by { IdentIsNotEmpty(m.table.value); }
      assert table + "" == table;
      TakesIdent(m.table.value, "");
    }
    if m.schema.Some? {
      var rest := "." + table;
      assert m.Text() == m.schema.value.Text() + rest;
      assert rest[1..] == table;
      TakesIdent(m.schema.value, rest);
    } else {
      assert m.Text() == table;
    }
  }

  lemma {:induction false} MatchIsUnique(m: Match, m': Match)
    requires m.Valid() && m'.Valid() && m.Text() == m'.Text()
    ensures m == m'
  {
    ParseCompletes(m);
    ParseCompletes(m');
  }

  // ----- The R functions

  datatype Id = Id(schema: Option<string>, table: Option<string>)

  /** `as_table`: empty components are left out. */
  function AsTable(schema: string, table: string): Id {
    Id(if schema == "" then None else Some(schema), if table == "" then None else Some(table))
  }

  /** dbQuoteIdentifier for one string. */
  function Quote(x: string): string {
    "`" + Double(x) + "`"
  }

  function QuoteAll(xs: seq<string>): (qs: seq<string>)
    ensures |qs| == |xs|
    ensures forall i :: 0 <= i < |xs| ==> qs[i] == Quote(xs[i])
  {
    seq(|xs|, i requires 0 <= i < |xs| => Quote(xs[i]))
  }

  /** dbUnquoteIdentifier for one string; None stands for "can't unquote". */
  function Unquote(s: string): Option<Id> {
    match Parse(s)
    case None => None
    case Some(m) => Some(AsTable(m.SchemaName(), m.TableName()))
  }

  /** dbUnquoteIdentifier: fails with the first string that does not match. */
  function UnquoteAll(xs: seq<string>): (r: Result<seq<Id>, string>)
    ensures match r
            case Success(ids) =>
              && |ids| == |xs|
              && forall i :: 0 <= i < |xs| ==> Unquote(xs[i]) == Some(ids[i])
            case Failure(bad) =>
              exists i :: 0 <= i < |xs| && xs[i] == bad && Unquote(bad) == None
                          && forall j :: 0 <= j < i ==> Unquote(xs[j]).Some?
  {
    if xs == [] then Success([])
    else
      match Unquote(xs[0])
      case None => Failure(xs[0])
      case Some(id) =>
        match UnquoteAll(xs[1..])
        case Failure(bad) =>
          assert forall i :: 0 <= i < |xs| - 1 ==> xs[1..][i] == xs[i + 1];
          Failure(bad)
        case Success(ids) => Success([id] + ids)
  }

  // ----- What is accepted, in terms of names

  /** A name that may be written without backticks. */
  predicate IsBareName(x: string) {
    x != "" && '`' !in x && '.' !in x && ' ' !in x
  }

  /** Is `text` a spelling of `name`: quoted, or bare? */
  predicate Spells(text: string, name: string) {
    (name != "" && text == Quote(name)) || (IsBareName(name) && text == name)
  }

  /** Is `s` a way to write `id`: nothing, a table, a schema with its dot, or both? */
  ghost predicate Reads(s: string, id: Id) {
    match id
    case Id(None, None) => s == ""
    case Id(None, Some(table)) => Spells(s, table)
    case Id(Some(schema), None) => exists a :: Spells(a, schema) && s == a + "."
    case Id(Some(schema), Some(table)) => exists a, b :: Spells(a, schema) && Spells(b, table) && s == a + "." + b
  }

  lemma {:induction false} UndoubleBare(x: string)
    requires '`' !in x
    ensures Undouble(x) == x
    decreases |x|
  {
    if x != "" { UndoubleBare(x[1..]); }
  }

  /** Every identifier the pattern accepts spells the name read from it. */
  lemma {:induction false} IdentSpells(id: Ident)
    requires id.Valid()
    ensures Spells(id.Text(), id.Name()) && id.Name() != ""
  {
    match id
    case Quoted(body) => DoubleUndouble(body);
    case Bare(text) => UndoubleBare(text);
  }

  /** And every spelling of a name is such an identifier. */
  lemma {:induction false} SpellingIsIdent(text: string, name: string) returns (id: Ident)
    requires Spells(text, name)
    ensures id.Valid() && id.Text() == text && id.Name() == name && name != ""
  {
    if name != "" && text == Quote(name) {
      UndoubleDouble(name);
      id := Quoted(Double(name));
    } else {
      UndoubleBare(name);
      id := Bare(text);
    }
  }

  /** Unquoting yields an identifier exactly for the strings that are ways to write it. */
  lemma {:induction false} UnquoteIsExact(s: string, id: Id)
    ensures Unquote(s) == Some(id) <==> Reads(s, id)
  {
    hide Parse, Spells, Undouble;
    if Unquote(s) == Some(id) { UnquoteIsSound(s, id); }
    if Reads(s, id) { UnquoteCompletes(s, id); }
  }

  lemma {:induction false} UnquoteIsSound(s: string, id: Id)
    requires Unquote(s) == Some(id)
    ensures Reads(s, id)
  {
    hide Parse, Spells, Undouble, Ident.Valid, Ident.Text, Ident.Name;
    var m := Parse(s).value;
    ParseIsSound(s, m);
    if m.schema.Some? { IdentSpells(m.schema.value); }
    if m.table.Some? { IdentSpells(m.table.value); }
    var table := if m.table.Some? then m.table.value.Text() else "";
    assert m.schema.None? ==> s == table;
    if m.schema.Some? && m.table.None? { assert s == m.schema.value.Text() + "."; }
  }

  lemma {:induction false} UnquoteCompletes(s: string, id: Id)
    requires Reads(s, id)
    ensures Unquote(s) == Some(id)
  {
    hide Parse, Spells, Undouble, Ident.Valid, Ident.Text, Ident.Name;
    match id
    case Id(None, None) =>
      assert Match(None, None).Text() == s;
      ParseCompletes(Match(None, None));
    case Id(None, Some(table)) =>
      var t := SpellingIsIdent(s, table);
      assert Match(None, Some(t)).Text() == s;
      ParseCompletes(Match(None, Some(t)));
    case Id(Some(schema), None) =>
      var a :| Spells(a, schema) && s == a + ".";
      var x := SpellingIsIdent(a, schema);
      assert Match(Some(x), None).Text() == s;
      ParseCompletes(Match(Some(x), None));
    case Id(Some(schema), Some(table)) =>
      var a, b :| Spells(a, schema) && Spells(b, table) && s == a + "." + b;
      var x := SpellingIsIdent(a, schema);
      var t := SpellingIsIdent(b, table);
      ParseCompletes(Match(Some(x), Some(t)));
  }

  /** Bare names, alone and in every mixture with quoted ones. */
  lemma {:induction false} BareForms(x: string, y: string, q: string)
    requires IsBareName(x) && IsBareName(y) && q != ""
    ensures Unquote(x) == Some(Id(None, Some(x)))
    ensures Unquote(x + ".") == Some(Id(Some(x), None))
    ensures Unquote(x + "." + y) == Some(Id(Some(x), Some(y)))
    ensures Unquote(x + "." + Quote(q)) == Some(Id(Some(x), Some(q)))
    ensures Unquote(Quote(q) + "." + y) == Some(Id(Some(q), Some(y)))
    ensures Unquote(Quote(q) + ".") == Some(Id(Some(q), None))
  {
    hide Quote, Unquote, IsBareName;
    assert Spells(x, x) && Spells(y, y) && Spells(Quote(q), q);
    UnquoteIsExact(x, Id(None, Some(x)));
    UnquoteIsExact(x + ".", Id(Some(x), None));
    UnquoteIsExact(x + "." + y, Id(Some(x), Some(y)));
    UnquoteIsExact(x + "." + Quote(q), Id(Some(x), Some(q)));
    UnquoteIsExact(Quote(q) + "." + y, Id(Some(q), Some(y)));
    UnquoteIsExact(Quote(q) + ".", Id(Some(q), None));
  }

  /** A quoted form is a body between backticks, in which every backtick of the name is doubled. */
  lemma {:induction false} QuoteIsDelimited(x: string)
    ensures var q := Quote(x);
            && |q| >= 2 && q[0] == '`' && q[|q| - 1] == '`'
            && IsBody(q[1..|q| - 1]) && Undouble(q[1..|q| - 1]) == x
  {
    UndoubleDouble(x);
    assert Quote(x)[1..|Quote(x)| - 1] == Double(x);
  }

  // ----- Round trips

  /** Unquoting the quoted form of a name returns it, without a schema; exactly the empty name has no
      quoted form that can be unquoted. */
  lemma {:induction false} QuoteRoundTrip(x: string)
    ensures x != "" ==> Unquote(Quote(x)) == Some(Id(None, Some(x)))
    ensures x == "" ==> Unquote(Quote(x)) == None
  {
    UndoubleDouble(x);
    if x != "" {
      var m := Match(None, Some(Quoted(Double(x))));
      assert m.Text() == Quote(x);
      ParseCompletes(m);
    } else {
      assert Quote(x) == "``";
      assert "``"[1..] == "`";
      assert BodyLength("`") == 0;
    }
  }

  /** The same for a qualified name, whatever backticks, dots or spaces its parts contain. */
  lemma {:induction false} QualifiedRoundTrip(schema: string, table: string)
    requires schema != "" && table != ""
    ensures Unquote(Quote(schema) + "." + Quote(table)) == Some(Id(Some(schema), Some(table)))
  {
    UndoubleDouble(schema);
    UndoubleDouble(table);
    var m := Match(Some(Quoted(Double(schema))), Some(Quoted(Double(table))));
    assert m.Text() == Quote(schema) + "." + Quote(table);
    ParseCompletes(m);
  }

  /** Distinct names have distinct quoted forms. */
  lemma {:induction false} QuoteIsInjective(x: string, y: string)
    requires Quote(x) == Quote(y)
    ensures x == y
  {
    UndoubleDouble(x);
    UndoubleDouble(y);
    assert Quote(x)[1..|Quote(x)| - 1] == Double(x);
    assert Quote(y)[1..|Quote(y)| - 1] == Double(y);
  }

  /** A vector of non-empty names survives quoting and unquoting element by element. */
  lemma {:induction false} QuoteAllRoundTrip(xs: seq<string>)
    requires forall i :: 0 <= i < |xs| ==> xs[i] != ""
    ensures UnquoteAll(QuoteAll(xs)).Success?
    ensures forall i :: 0 <= i < |xs| ==> UnquoteAll(QuoteAll(xs)).value[i] == Id(None, Some(xs[i]))
  {
    forall i | 0 <= i < |xs| ensures Unquote(QuoteAll(xs)[i]) == Some(Id(None, Some(xs[i]))) {
      QuoteRoundTrip(xs[i]);
    }
  }
}
