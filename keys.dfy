/** Lines 103-114 of etl/02_transform_to_parquet.py: the three key columns
    are created when missing, then cleaned. */
module Keys {
  import opened Text
  import opened Tables

  const ProvNum := "PROVNUM"
  const ProvName := "PROVNAME"
  const State := "STATE"
  const UnknownName := "UNKNOWN"
  const UnknownState := "UNK"

  /** The width `zfill` pads identifiers to. */
  const IdWidth := 6

  // ---------- Default-fill (lines 104-109) ----------

  /** Row i's synthesised identifier: `str(i).zfill(6)`. */
  function IndexId(i: nat): string {
    ZFill(NatToString(i), IdWidth)
  }

  /** `df.reset_index().index.astype(str).str.zfill(6)`. */
  function IndexIds(n: nat): (col: seq<Cell>)
    ensures |col| == n && forall i :: 0 <= i < n ==> col[i] == Str(IndexId(i))
  {
    seq(n, (i: int) requires 0 <= i < n => Str(IndexId(i)))
  }

  /** A synthesised identifier is the row number in decimal, padded with
      zeros to six characters (no more are added once it is longer). */
  lemma IndexIdValue(i: nat)
    ensures AllDigits(IndexId(i)) && DigitsValue(IndexId(i)) == i
    ensures |IndexId(i)| >= IdWidth
    ensures i < 1000000 ==> |IndexId(i)| == IdWidth
  {
    IndexIdDigits(i);
    if i < 1000000 {
      IndexIdShort(i);
    }
  }

  lemma IndexIdDigits(i: nat)
    ensures AllDigits(IndexId(i)) && DigitsValue(IndexId(i)) == i
  {
    var s := NatToString(i);
    var r := IndexId(i);
    var k := |r| - |s|;
    assert r == r[..k] + r[k..];
    assert r[..k] == Zeros(k);
    DigitsValueLeadingZeros(k, s);
    NatToStringRoundTrip(i);
  }

  lemma IndexIdShort(i: nat)
    requires i < 1000000
    ensures |IndexId(i)| == IdWidth
  {
    assert Pow10(IdWidth) == 1000000;
    NatToStringShort(i, IdWidth, 1000000);
  }

  /** Different rows get different identifiers. */
  lemma IndexIdsDistinct(i: nat, j: nat)
    requires i != j
    ensures IndexId(i) != IndexId(j)
  {
    IndexIdValue(i);
    IndexIdValue(j);
  }

  lemma KeyNamesDiffer()
    ensures ProvNum != ProvName && ProvNum != State && ProvName != State
  {
    assert |ProvNum| == 7 && |ProvName| == 8 && |State| == 5;
  }

  /** `if name not in df.columns: df[name] = col`. */
  function FillMissing(t: Table, name: string, col: seq<Cell>): (r: Table)
    requires WellFormed(t) && |col| == t.rows
    ensures WellFormed(r) && r.rows == t.rows
    ensures Has(r, name) && r.cols[name] == if Has(t, name) then t.cols[name] else col
    ensures forall n :: n != name ==> SameColumn(r, t, n)
    ensures t.names <= r.names
    ensures forall i :: |t.names| <= i < |r.names| ==> r.names[i] == name
  {
    if Has(t, name) then t else Put(t, name, col)
  }

  /** Lines 104-109: each missing key column is created; present ones and
      every other column are left alone. */
  function FillDefaults(t: Table): (r: Table)
    requires WellFormed(t)
    ensures WellFormed(r) && r.rows == t.rows
    ensures Has(r, ProvNum) && Has(r, ProvName) && Has(r, State)
    ensures r.cols[ProvNum] == if Has(t, ProvNum) then t.cols[ProvNum] else IndexIds(t.rows)
    ensures r.cols[ProvName] == if Has(t, ProvName) then t.cols[ProvName] else Filled(Str(UnknownName), t.rows)
    ensures r.cols[State] == if Has(t, State) then t.cols[State] else Filled(Str(UnknownState), t.rows)
    ensures forall n :: n != ProvNum && n != ProvName && n != State ==> SameColumn(r, t, n)
  {
    KeyNamesDiffer();
    var t1 := FillMissing(t, ProvNum, IndexIds(t.rows));
    var t2 := FillMissing(t1, ProvName, Filled(Str(UnknownName), t.rows));
    var t3 := FillMissing(t2, State, Filled(Str(UnknownState), t.rows));
    assert SameColumn(t1, t, State) && SameColumn(t2, t1, State);
    assert SameColumn(t1, t, ProvName) && SameColumn(t3, t2, ProvName);
    assert SameColumn(t2, t1, ProvNum) && SameColumn(t3, t2, ProvNum);
    assert forall n :: n != ProvNum && n != ProvName && n != State ==> SameColumn(t3, t, n) by {
      forall n | n != ProvNum && n != ProvName && n != State ensures SameColumn(t3, t, n) {
        assert SameColumn(t1, t, n) && SameColumn(t2, t1, n) && SameColumn(t3, t2, n);
      }
    }
    t3
  }

  /** The missing key columns are appended after the existing header, in
      the order PROVNUM, PROVNAME, STATE. */
  lemma FillDefaultsAppends(t: Table)
    requires WellFormed(t)
    ensures var r := FillDefaults(t);
            && t.names <= r.names
            && forall i :: |t.names| <= i < |r.names| ==>
                 r.names[i] == ProvNum || r.names[i] == ProvName || r.names[i] == State
  {
    var t1 := FillMissing(t, ProvNum, IndexIds(t.rows));
    var t2 := FillMissing(t1, ProvName, Filled(Str(UnknownName), t.rows));
    var t3 := FillMissing(t2, State, Filled(Str(UnknownState), t.rows));
    assert t3 == FillDefaults(t);
    assert t1.names <= t2.names <= t3.names;
    forall i | |t.names| <= i < |t3.names|
      ensures t3.names[i] == ProvNum || t3.names[i] == ProvName || t3.names[i] == State
    {
      if i < |t1.names| {
        assert t3.names[i] == t1.names[i];
      } else if i < |t2.names| {
        assert t3.names[i] == t2.names[i];
      }
    }
  }

  /** Lines 104-109 only append to the header, and never a name twice. */
  lemma FillDefaultsExtends(t: Table)
    requires WellFormed(t)
    ensures Extends(t, FillDefaults(t))
  {
    KeyNamesDiffer();
    var t1 := FillMissing(t, ProvNum, IndexIds(t.rows));
    var t2 := FillMissing(t1, ProvName, Filled(Str(UnknownName), t.rows));
    var t3 := FillMissing(t2, State, Filled(Str(UnknownState), t.rows));
    assert t3 == FillDefaults(t);
    FillMissingExtends(t, ProvNum, IndexIds(t.rows));
    FillMissingExtends(t1, ProvName, Filled(Str(UnknownName), t.rows));
    FillMissingExtends(t2, State, Filled(Str(UnknownState), t.rows));
    ExtendsTransitive(t, t1, t2);
    ExtendsTransitive(t, t2, t3);
  }

  lemma FillMissingExtends(t: Table, name: string, col: seq<Cell>)
    requires WellFormed(t) && |col| == t.rows
    ensures Extends(t, FillMissing(t, name, col))
  {
    if !Has(t, name) {
      PutExtends(t, name, col);
    }
  }

  lemma FillDefaultsPreservesText(t: Table)
    requires WellFormed(t) && AllText(t)
    ensures AllText(FillDefaults(t))
  {
    var r := FillDefaults(t);
    forall n | n in r.cols ensures IsText(r.cols[n]) {
      if n != ProvNum && n != ProvName && n != State {
        assert SameColumn(r, t, n);
      }
    }
  }

  // ---------- Cleaning (lines 112-114) ----------

  /** `astype(str)` of a text cell: NaN renders as "nan". */
  function AsText(c: Cell): string
    requires c.Str? || c.Null?
  {
    if c.Str? then c.s else "nan"
  }

  /** A cleaning step of lines 112-114: `astype(str)`, then a string
      operation, on every cell. */
  function MapText(f: string -> string, col: seq<Cell>): (r: seq<Cell>)
    requires IsText(col)
    ensures |r| == |col| && forall i :: 0 <= i < |col| ==> r[i] == Str(f(AsText(col[i])))
  {
    seq(|col|, i requires 0 <= i < |col| => Str(f(AsText(col[i]))))
  }

  predicate EndsWithDotZero(s: string) {
    |s| >= 2 && s[|s| - 2] == '.' && s[|s| - 1] == '0'
  }

  /** `$` also matches just before a final newline. */
  predicate DotZeroBeforeNewline(s: string) {
    |s| >= 3 && s[|s| - 3] == '.' && s[|s| - 2] == '0' && s[|s| - 1] == '\n'
  }

  /** `str.replace(r"\.0$", "", regex=True)`: one ".0" at the very end, or
      just before a final newline, is removed; nothing else is touched. */
  function StripDotZero(s: string): (r: string)
    ensures EndsWithDotZero(s) ==> s == r + ".0"
    ensures DotZeroBeforeNewline(s) ==> |r| >= 1 && s == r[..|r| - 1] + ".0" + "\n" && r[|r| - 1] == '\n'
    ensures !EndsWithDotZero(s) && !DotZeroBeforeNewline(s) ==> r == s
    ensures |r| == |s| || |r| == |s| - 2
  {
    if EndsWithDotZero(s) then
      assert s == s[..|s| - 2] + ".0";
      s[..|s| - 2]
    else if DotZeroBeforeNewline(s) then
      var r := s[..|s| - 3] + "\n";
      assert r[..|r| - 1] == s[..|s| - 3];
      assert s == s[..|s| - 3] + ".0" + "\n";
      r
    else s
  }

  function CleanId(s: string): (r: string)
    ensures |r| >= IdWidth
  {
    ZFill(StripDotZero(s), IdWidth)
  }

  function CleanName(s: string): (r: string)
    ensures r == [] || (!IsSpace(r[0]) && !IsSpace(r[|r| - 1]))
  {
    Strip(s)
  }

  function CleanState(s: string): (r: string)
    ensures forall i :: 0 <= i < |r| ==> !IsLowerLetter(r[i])
    ensures r == [] || (!IsSpace(r[0]) && !IsSpace(r[|r| - 1]))
  {
    var u := Upper(s);
    StripKeepsCharacters(u);
    Strip(u)
  }

  /** The identifier cleaning keeps what is left after the ".0" removal as
      the tail and pads in front with zeros, or for a signed value between
      the sign and the digits. */
  lemma CleanIdPads(s: string)
    ensures var d := StripDotZero(s);
            var r := CleanId(s);
            && |r| == (if |d| < IdWidth then IdWidth else |d|)
            && (!HasSign(d) ==> r == Zeros(|r| - |d|) + d)
            && (HasSign(d) ==> r == [d[0]] + Zeros(|r| - |d|) + d[1..])
  {
    var d := StripDotZero(s);
    var r := CleanId(s);
    var k := |r| - |d|;
    if !HasSign(d) {
      assert r == r[..k] + r[k..];
      assert r[..k] == Zeros(k);
    } else {
      assert r == [r[0]] + r[1..k + 1] + r[k + 1..];
      assert r[1..k + 1] == Zeros(k);
    }
  }

  /** Trimming a name twice is trimming it once. */
  lemma CleanNameIdempotent(s: string)
    ensures CleanName(CleanName(s)) == CleanName(s)
  {
    StripIdempotent(s);
  }

  /** Upper-casing and trimming a state code twice is doing it once. */
  lemma CleanStateIdempotent(s: string)
    ensures CleanState(CleanState(s)) == CleanState(s)
  {
    var u := Upper(s);
    var r := Strip(u);
    assert r == CleanState(s);
    UpperOfUpperCase(r);
    assert CleanState(r) == Strip(r);
    StripIdempotent(u);
  }

  /** A synthesised identifier passes the cleaning unchanged. */
  lemma IndexIdSurvivesCleaning(i: nat)
    ensures CleanId(IndexId(i)) == IndexId(i)
  {
    var s := NatToString(i);
    var r := IndexId(i);
    IndexIdValue(i);
    assert !EndsWithDotZero(r) && !DotZeroBeforeNewline(r);
    ZFillIdempotent(s, IdWidth);
  }

  /** Lines 112-114 on a table whose key columns exist and hold text. */
  function CleanFormats(t: Table): (r: Table)
    requires WellFormed(t) && Has(t, ProvNum) && Has(t, ProvName) && Has(t, State)
    requires IsText(t.cols[ProvNum]) && IsText(t.cols[ProvName]) && IsText(t.cols[State])
    ensures WellFormed(r) && r.rows == t.rows && r.names == t.names
    ensures r.cols[ProvNum] == MapText(CleanId, t.cols[ProvNum])
    ensures r.cols[ProvName] == MapText(CleanName, t.cols[ProvName])
    ensures r.cols[State] == MapText(CleanState, t.cols[State])
    ensures forall n :: n != ProvNum && n != ProvName && n != State ==> SameColumn(r, t, n)
  {
    var t1 := Put(t, ProvNum, MapText(CleanId, t.cols[ProvNum]));
    var t2 := Put(t1, ProvName, MapText(CleanName, t1.cols[ProvName]));
    Put(t2, State, MapText(CleanState, t2.cols[State]))
  }

  /** After cleaning, every identifier has at least six characters, and
      every name and state code is trimmed; state codes have no lower-case
      letter. */
  lemma CleanKeysShape(t: Table, i: nat)
    requires WellFormed(t) && Has(t, ProvNum) && Has(t, ProvName) && Has(t, State)
    requires IsText(t.cols[ProvNum]) && IsText(t.cols[ProvName]) && IsText(t.cols[State])
    requires i < t.rows
    ensures var r := CleanFormats(t);
            && r.cols[ProvNum][i].Str? && |r.cols[ProvNum][i].s| >= IdWidth
            && r.cols[ProvName][i] == Str(Strip(AsText(t.cols[ProvName][i])))
            && r.cols[State][i] == Str(Strip(Upper(AsText(t.cols[State][i]))))
  {
  }

  lemma CleanFormatsPreservesText(t: Table)
    requires WellFormed(t) && AllText(t) && Has(t, ProvNum) && Has(t, ProvName) && Has(t, State)
    ensures AllText(CleanFormats(t))
  {
    var r := CleanFormats(t);
    forall n | n in r.cols ensures IsText(r.cols[n]) {
      if n != ProvNum && n != ProvName && n != State {
        assert SameColumn(r, t, n);
      }
    }
  }

  // ---------- Examples ----------

  /** A numeric-typed identifier loses its ".0" and is padded to six. */
  lemma ExampleFloatId()
    ensures CleanId("15009.0") == "015009"
  {
    assert StripDotZero("15009.0") == "15009";
  }

  /** Only one ".0" goes. */
  lemma ExampleDoubleDotZero()
    ensures CleanId("12.0.0") == "0012.0"
  {
    assert StripDotZero("12.0.0") == "12.0";
  }

  /** An identifier longer than six is not cut. */
  lemma ExampleLongId()
    ensures CleanId("1234567") == "1234567"
  {
    assert StripDotZero("1234567") == "1234567";
  }

  /** A missing identifier cell becomes the padded text "nan". */
  lemma ExampleMissingId()
    ensures CleanId(AsText(Null)) == "000nan"
  {
    assert StripDotZero("nan") == "nan";
  }

  /** A missing facility-name cell becomes the text "nan". */
  lemma ExampleMissingName()
    ensures CleanName(AsText(Null)) == "nan"
  {
    assert !IsSpace('n') && !IsSpace('a');
  }

  /** A missing state cell becomes "NAN", upper-cased like any other. */
  lemma ExampleMissingState()
    ensures CleanState(AsText(Null)) == "NAN"
  {
    var u := Upper("nan");
    assert u[0] == UpperChar('n') == 'N';
    assert u[1] == UpperChar('a') == 'A';
    assert u[2] == UpperChar('n') == 'N';
    assert u == "NAN";
    assert !IsSpace('N');
    assert TrimStart(u) == u;
    assert TrimEnd(u) == u;
  }
}
