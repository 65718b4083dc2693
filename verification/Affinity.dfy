/** The affinity scan of a declared column type (src/affinity.c) and the rule it implements:
    the substring table of section 3.1 of "Datatypes In SQLite". */
module Affinity {
  import opened ColumnTypes

  datatype Aff = AffBlob | AffText | AffNumeric | AffInteger | AffReal

  // The sought words, in lower case.
  const INT3: Bytes := [105, 110, 116]
  const CHAR4: Bytes := [99, 104, 97, 114]
  const CLOB4: Bytes := [99, 108, 111, 98]
  const TEXT4: Bytes := [116, 101, 120, 116]
  const BLOB4: Bytes := [98, 108, 111, 98]
  const REAL4: Bytes := [114, 101, 97, 108]
  const FLOA4: Bytes := [102, 108, 111, 97]
  const DOUB4: Bytes := [100, 111, 117, 98]

  /** The `sqlite3UpperToLower` table: ASCII upper case to lower case, all else unchanged. */
  function Lower(b: bv8): bv8 {
    if 65 <= b <= 90 then b + 32 else b
  }

  function Lowered(s: Bytes): (r: Bytes)
    ensures |r| == |s|
    ensures forall i :: 0 <= i < |s| ==> r[i] == Lower(s[i])
  {
    if s == [] then [] else [Lower(s[0])] + Lowered(s[1..])
  }

  ghost predicate Contains(s: Bytes, w: Bytes) {
    exists k :: OccursAt(s, w, k)
  }

  /** The documented table, most significant line first, without the INT line. */
  ghost function RuleWithoutInt(l: Bytes): Aff {
    if Contains(l, CHAR4) || Contains(l, CLOB4) || Contains(l, TEXT4) then AffText
    else if Contains(l, BLOB4) then AffBlob
    else if Contains(l, REAL4) || Contains(l, FLOA4) || Contains(l, DOUB4) then AffReal
    else AffNumeric
  }

  /** The documented table: INT first. */
  ghost function RuleOf(l: Bytes): Aff {
    if Contains(l, INT3) then AffInteger else RuleWithoutInt(l)
  }

  /** The documented affinity of a declared type; a missing declaration has NUMERIC affinity. */
  ghost function Rule(decl: Option<Bytes>): Aff {
    match decl
    case None => AffNumeric
    case Some(s) => RuleOf(Lowered(s))
  }

  /** Byte `k` of `l`, or 0 to the left of its start. */
  function At(l: Bytes, k: int): bv8
    requires k < |l|
  {
    if k < 0 then 0 else l[k]
  }

  /** Four bytes packed big-endian into 32 bits. */
  function Pack4(a: bv8, b: bv8, c: bv8, d: bv8): bv32 {
    (a as bv32 << 24) + (b as bv32 << 16) + (c as bv32 << 8) + d as bv32
  }

  lemma {:induction false} Pack4Injective(a: bv8, b: bv8, c: bv8, d: bv8, a': bv8, b': bv8, c': bv8, d': bv8)
    ensures Pack4(a, b, c, d) == Pack4(a', b', c', d') <==> a == a' && b == b' && c == c' && d == d'
  {
  }

  /** The last four bytes of `l[..k]`, packed big-endian into 32 bits. */
  function Window(l: Bytes, k: nat): bv32
    requires k <= |l|
  {
    Pack4(At(l, k - 4), At(l, k - 3), At(l, k - 2), At(l, k - 1))
  }

  function Roll(h: bv32, b: bv8): bv32 {
    (h << 8) + b as bv32
  }

  /** The 32-bit rolling hash after `k` bytes. */
  function Hash(l: Bytes, k: nat): bv32
    requires k <= |l|
  {
    if k == 0 then 0 else Roll(Hash(l, k - 1), l[k - 1])
  }

  lemma {:induction false} ContainsSnoc(l: Bytes, k: nat, w: Bytes)
    requires k < |l| && |w| > 0
    ensures Contains(l[..k + 1], w) <==> Contains(l[..k], w) || OccursAt(l, w, k + 1 - |w|)
  {
    var a, b := l[..k], l[..k + 1];
    forall j | OccursAt(a, w, j) ensures OccursAt(b, w, j) {
      assert a[j..j + |w|] == b[j..j + |w|];
    }
    forall j | OccursAt(b, w, j) ensures OccursAt(a, w, j) || OccursAt(l, w, k + 1 - |w|) {
      assert b[j..j + |w|] == l[j..j + |w|];
      if j + |w| <= k { assert a[j..j + |w|] == b[j..j + |w|]; }
    }
    if OccursAt(l, w, k + 1 - |w|) {
      assert b[k + 1 - |w|..k + 1] == l[k + 1 - |w|..k + 1];
      assert OccursAt(b, w, k + 1 - |w|);
    }
  }

  /** The rolling hash recognises exactly the four-byte word that ends at `k`. */
  lemma {:induction false} WindowIsWord(l: Bytes, k: nat, w: Bytes)
    requires k <= |l| && 0 !in l
    requires |w| == 4 && 0 !in w
    ensures Window(l, k) == Pack4(w[0], w[1], w[2], w[3])
            <==> OccursAt(l, w, k - 4)
  {
    assert w[0] in w;
    Pack4Injective(At(l, k - 4), At(l, k - 3), At(l, k - 2), At(l, k - 1), w[0], w[1], w[2], w[3]);
    if k >= 4 {
      assert l[k - 4..k] == [l[k - 4], l[k - 3], l[k - 2], l[k - 1]];
      assert w == [w[0], w[1], w[2], w[3]];
    }
  }

  lemma {:induction false} WindowIsInt(l: Bytes, k: nat)
    requires k <= |l| && 0 !in l
    ensures Window(l, k) & 0xFF_FFFF == Pack4(0, 105, 110, 116) <==> OccursAt(l, INT3, k - 3)
  {
    LowBytes(At(l, k - 4), At(l, k - 3), At(l, k - 2), At(l, k - 1));
    if k >= 3 {
      assert l[k - 3..k] == [l[k - 3], l[k - 2], l[k - 1]];
    }
  }

  lemma {:induction false} LowBytes(a: bv8, b: bv8, c: bv8, d: bv8)
    ensures Pack4(a, b, c, d) & 0xFF_FFFF == Pack4(0, 105, 110, 116) <==> b == 105 && c == 110 && d == 116
  {
  }

  lemma {:induction false} Pack4Shift(a: bv8, b: bv8, c: bv8, d: bv8, e: bv8)
    ensures Roll(Pack4(a, b, c, d), e) == Pack4(b, c, d, e)
  {
  }

  /** The hash never remembers anything but the last four bytes. */
  lemma {:induction false} HashIsWindow(l: Bytes, k: nat)
    requires k <= |l|
    ensures Hash(l, k) == Window(l, k)
  {
    if k > 0 {
      HashIsWindow(l, k - 1);
      Pack4Shift(At(l, k - 5), At(l, k - 4), At(l, k - 3), At(l, k - 2), At(l, k - 1));
    }
  }

  /** What the comparisons after reading byte `k` mean for the prefix that now ends at `k + 1`. */
  lemma {:induction false} WordStep(l: Bytes, k: nat, w: Bytes)
    requires k < |l| && 0 !in l
    requires |w| == 4 && 0 !in w
    ensures Contains(l[..k + 1], w) <==>
            (Contains(l[..k], w) || Window(l, k + 1) == Pack4(w[0], w[1], w[2], w[3]))
  {
    ContainsSnoc(l, k, w);
    WindowIsWord(l, k + 1, w);
  }

  lemma {:induction false} LoweredIsCString(s: CString)
    ensures 0 !in Lowered(s)
  {
    forall b | b in Lowered(s) ensures b != 0 {
      var i :| 0 <= i < |s| && Lowered(s)[i] == b;
      assert s[i] in s;
    }
  }

  /** The effect of the four-letter words on the affinity found so far. */
  function Updated(aff: Aff, h: bv32): Aff {
    if h == Pack4(99, 104, 97, 114) || h == Pack4(99, 108, 111, 98) || h == Pack4(116, 101, 120, 116) then AffText
    else if h == Pack4(98, 108, 111, 98) && (aff == AffNumeric || aff == AffReal) then AffBlob
    else if (h == Pack4(114, 101, 97, 108) || h == Pack4(102, 108, 111, 97) || h == Pack4(100, 111, 117, 98))
            && aff == AffNumeric then AffReal
    else aff
  }

  /** Reading one more byte: the priorities kept in `aff` follow the table. */
  lemma {:induction false} RuleStep(l: Bytes, k: nat)
    requires k < |l| && 0 !in l
    ensures RuleWithoutInt(l[..k + 1]) == Updated(RuleWithoutInt(l[..k]), Window(l, k + 1))
  {
    WordStep(l, k, CHAR4);
    WordStep(l, k, CLOB4);
    WordStep(l, k, TEXT4);
    WordStep(l, k, BLOB4);
    WordStep(l, k, REAL4);
    WordStep(l, k, FLOA4);
    WordStep(l, k, DOUB4);
  }

  predicate IsInt(h: bv32) {
    h & 0xFF_FFFF == Pack4(0, 105, 110, 116)
  }

  /** One round of comparisons; INT outranks everything. */
  function Next(aff: Aff, h: bv32): Aff {
    if IsInt(h) then AffInteger else Updated(aff, h)
  }

  /** The affinity held after `k` bytes, INT being final. */
  ghost function Scanned(l: Bytes, k: nat): Aff
    requires k <= |l|
  {
    if k == 0 then AffNumeric
    else if Scanned(l, k - 1) == AffInteger then AffInteger
    else Next(Scanned(l, k - 1), Hash(l, k))
  }

  lemma {:induction false} ScannedMeetsRule(l: Bytes, k: nat)
    requires k <= |l| && 0 !in l
    ensures Scanned(l, k) == RuleOf(l[..k])
  {
    if k > 0 {
      ScannedMeetsRule(l, k - 1);
      HashIsWindow(l, k);
      WindowIsInt(l, k);
      ContainsSnoc(l, k - 1, INT3);
      RuleStep(l, k - 1);
    }
  }

  lemma {:induction false} IntIsFinal(l: Bytes, k: nat, n: nat)
    requires k <= n <= |l| && Scanned(l, k) == AffInteger
    ensures Scanned(l, n) == AffInteger
  {
    if k < n { IntIsFinal(l, k, n - 1); }
  }

  /** A scan of the whole declared type meets the table. */
  lemma {:induction false} ScanMeetsRule(s: CString)
    ensures Scanned(Lowered(s), |s|) == Rule(Some(s))
  {
    var l := Lowered(s);
    assert l[..|s|] == l;
    assert Scanned(l, |s|) == RuleOf(l) by {
      LoweredIsCString(s);
      ScannedMeetsRule(l, |s|);
    }
  }

  // ----- The table in terms of the declaration itself

  /** Is `b` the lower-case letter `l`, in either case? */
  predicate SameLetter(b: bv8, l: bv8) {
    b == l || (97 <= l <= 122 && b == l - 32)
  }

  predicate MentionedAt(s: Bytes, w: Bytes, k: int) {
    0 <= k <= |s| - |w| && forall j :: 0 <= j < |w| ==> SameLetter(s[k + j], w[j])
  }

  /** Does `s` contain the word `w`, given in lower case, in any mixture of cases? */
  ghost predicate Mentions(s: Bytes, w: Bytes) {
    exists k :: MentionedAt(s, w, k)
  }

  predicate IsWord(w: Bytes) {
    forall j :: 0 <= j < |w| ==> 97 <= w[j] <= 122
  }

  lemma {:induction false} LowerIsLetter(b: bv8, l: bv8)
    requires 97 <= l <= 122
    ensures Lower(b) == l <==> SameLetter(b, l)
  {
  }

  lemma {:induction false} OccursIsMentioned(s: Bytes, w: Bytes, k: int)
    requires IsWord(w)
    ensures OccursAt(Lowered(s), w, k) <==> MentionedAt(s, w, k)
  {
    hide Lower, SameLetter;
    var l := Lowered(s);
    if 0 <= k <= |s| - |w| {
      forall j | 0 <= j < |w| ensures l[k..k + |w|][j] == w[j] <==> SameLetter(s[k + j], w[j]) {
        LowerIsLetter(s[k + j], w[j]);
      }
      assert OccursAt(l, w, k) <==> forall j :: 0 <= j < |w| ==> l[k..k + |w|][j] == w[j];
    }
  }

  lemma {:induction false} ContainsIsMentions(s: Bytes, w: Bytes)
    requires IsWord(w)
    ensures Contains(Lowered(s), w) <==> Mentions(s, w)
  {
    hide OccursAt, MentionedAt;
    forall k ensures OccursAt(Lowered(s), w, k) <==> MentionedAt(s, w, k) {
      OccursIsMentioned(s, w, k);
    }
  }

  /** The documented table, spelled out: int, char, clob, text, blob, real, floa, doub in any case. */
  lemma {:induction false} RuleIsTable(s: Bytes)
    ensures Rule(Some(s)) ==
            if Mentions(s, [105, 110, 116]) then AffInteger
            else if Mentions(s, [99, 104, 97, 114]) || Mentions(s, [99, 108, 111, 98])
                    || Mentions(s, [116, 101, 120, 116]) then AffText
            else if Mentions(s, [98, 108, 111, 98]) then AffBlob
            else if Mentions(s, [114, 101, 97, 108]) || Mentions(s, [102, 108, 111, 97])
                    || Mentions(s, [100, 111, 117, 98]) then AffReal
            else AffNumeric
    ensures Rule(None) == AffNumeric
  {
    hide Contains, Mentions;
    ContainsIsMentions(s, [105, 110, 116]);
    ContainsIsMentions(s, [99, 104, 97, 114]);
    ContainsIsMentions(s, [99, 108, 111, 98]);
    ContainsIsMentions(s, [116, 101, 120, 116]);
    ContainsIsMentions(s, [98, 108, 111, 98]);
    ContainsIsMentions(s, [114, 101, 97, 108]);
    ContainsIsMentions(s, [102, 108, 111, 97]);
    ContainsIsMentions(s, [100, 111, 117, 98]);
  }

  /** Is `s` the word `w` in any mixture of cases? */
  predicate SpelledAs(s: Bytes, w: Bytes) {
    |s| == |w| && forall j :: 0 <= j < |w| ==> SameLetter(s[j], w[j])
  }

  lemma {:induction false} LoweredIsWord(s: Bytes, w: Bytes)
    requires IsWord(w)
    ensures Lowered(s) == w <==> SpelledAs(s, w)
  {
    hide Lower, SameLetter;
    if |s| == |w| {
      forall j | 0 <= j < |w| ensures Lowered(s)[j] == w[j] <==> SameLetter(s[j], w[j]) {
        LowerIsLetter(s[j], w[j]);
      }
    }
  }

  // ----- The scan

  /** The comparisons of the loop body, in the order of the code. */
  method Compare(aff: Aff, h: bv32) returns (next: Aff, stop: bool)
    requires aff != AffInteger
    ensures next == Next(aff, h)
    ensures stop == (next == AffInteger)
  {
    next, stop := aff, false;
    if h == Pack4(99, 104, 97, 114) {
      next := AffText;
    } else if h == Pack4(99, 108, 111, 98) {
      next := AffText;
    } else if h == Pack4(116, 101, 120, 116) {
      next := AffText;
    } else if h == Pack4(98, 108, 111, 98) && (aff == AffNumeric || aff == AffReal) {
      next := AffBlob;
    } else if h == Pack4(114, 101, 97, 108) && aff == AffNumeric {
      next := AffReal;
    } else if h == Pack4(102, 108, 111, 97) && aff == AffNumeric {
      next := AffReal;
    } else if h == Pack4(100, 111, 117, 98) && aff == AffNumeric {
      next := AffReal;
    } else if h & 0xFF_FFFF == Pack4(0, 105, 110, 116) {
      next, stop := AffInteger, true;
    }
  }

  /** `sqlite3AffinityType`: one pass with a 32-bit rolling hash, priorities kept in `aff`. */
  method AffinityType(decl: Option<CString>) returns (aff: Aff)
    ensures aff == Rule(decl)
  {
    aff := AffNumeric;
    if decl.None? { return; }
    var zIn := decl.value;
    ghost var l := Lowered(zIn);
    ScanMeetsRule(zIn);
    var h: bv32, k := 0, 0;
    while k < |zIn|
      invariant 0 <= k <= |zIn|
      invariant h == Hash(l, k)
      invariant aff == Scanned(l, k) && aff != AffInteger
    {
      h := Roll(h, Lower(zIn[k]));
      k := k + 1;
      var stop;
      aff, stop := Compare(aff, h);
      if stop {
        IntIsFinal(l, k, |l|);
        return;
      }
    }
  }
}
