/** Lines 116-130 of etl/02_transform_to_parquet.py: the `month` column,
    taken from PROCESSING_DATE where it parses, from the file name
    otherwise, and forced to a fixed period when neither gives one. */
module Months {
  import opened Wrappers
  import opened Text
  import opened Tables
  import PeriodInference

  const ProcessingDate := "PROCESSING_DATE"
  const Month := "month"

  /** Line 130: the period assigned to a single-snapshot extract. */
  const FallbackPeriod := "2024-10"

  // ---------- Rendering a period (line 121) ----------

  /** n in exactly w decimal digits, with leading zeros. */
  function PaddedDigits(n: nat, w: nat): (r: string)
    requires n < Pow10(w)
    ensures |r| == w && AllDigits(r) && DigitsValue(r) == n
  {
    if w == 0 then []
    else
      var r := PaddedDigits(n / 10, w - 1) + [DigitChar(n % 10)];
      assert r[..|r| - 1] == PaddedDigits(n / 10, w - 1);
      r
  }

  /** `str(Period(..., "M"))`: the year in four digits, a dash, the month in
      two; the digits read back as the year and the month. */
  function FormatYearMonth(ym: YearMonth): (r: string)
    ensures PeriodInference.IsPeriod(r)
    ensures AllDigits(r[..4]) && DigitsValue(r[..4]) == ym.year
    ensures AllDigits(r[5..]) && DigitsValue(r[5..]) == ym.month
  {
    assert Pow10(4) == 10000 && Pow10(2) == 100;
    var y := PaddedDigits(ym.year, 4);
    var m := PaddedDigits(ym.month, 2);
    var r := y + "-" + m;
    assert r[..4] == y && r[5..] == m;
    assert m[..1] == [m[0]];
    assert DigitsValue(m) == (m[0] as int - '0' as int) * 10 + (m[1] as int - '0' as int);
    r
  }

  lemma FormatYearMonthInjective(a: YearMonth, b: YearMonth)
    requires FormatYearMonth(a) == FormatYearMonth(b)
    ensures a == b
  {
  }

  lemma FallbackIsPeriod()
    ensures PeriodInference.IsPeriod(FallbackPeriod)
  {
  }

  // ---------- The month column before the post-pass (lines 118-126) ----------

  /** Line 120, `pd.to_datetime(..., errors="coerce")`, with the parser as
      a parameter: a cell that does not parse becomes Null (NaT). */
  function ParseDates(parse: string -> Option<YearMonth>, col: seq<Cell>): (r: seq<Cell>)
    requires IsText(col)
    ensures |r| == |col|
    ensures forall i :: 0 <= i < |col| ==> r[i] == ParsedCell(parse, col[i])
  {
    seq(|col|, i requires 0 <= i < |col| => ParsedCell(parse, col[i]))
  }

  function ParsedCell(parse: string -> Option<YearMonth>, c: Cell): Cell {
    if c.Str? && parse(c.s).Some? then Date(parse(c.s).value) else Null
  }

  /** Line 121, `.dt.to_period("M").astype(str)`, with NaT kept as Null. */
  function Periods(col: seq<Cell>): (r: seq<Cell>)
    ensures |r| == |col|
    ensures forall i :: 0 <= i < |col| ==>
              r[i] == if col[i].Date? then Str(FormatYearMonth(col[i].ym)) else Null
  {
    seq(|col|, i requires 0 <= i < |col| =>
      if col[i].Date? then Str(FormatYearMonth(col[i].ym)) else Null)
  }

  predicate AllNull(col: seq<Cell>) {
    forall i :: 0 <= i < |col| ==> col[i].Null?
  }

  /** `set(col.dropna().unique())`. */
  function NonNullValues(col: seq<Cell>): set<Cell> {
    set i | 0 <= i < |col| && !col[i].Null? :: col[i]
  }

  /** Row i of the date column holds a date that parses. */
  predicate Parses(parse: string -> Option<YearMonth>, col: seq<Cell>, i: nat)
    requires i < |col|
  {
    col[i].Str? && parse(col[i].s).Some?
  }

  lemma ColumnNamesDiffer()
    ensures ProcessingDate != Month
  {
    assert |ProcessingDate| == 15 && |Month| == 5;
  }

  /** Lines 120-124: the date column is parsed in place, its periods become
      the month, and an all-null month is replaced by the file-name
      period. */
  function MonthFromDateColumn(t: Table, fromName: seq<Cell>, parse: string -> Option<YearMonth>): (r: Table)
    requires WellFormed(t) && Has(t, ProcessingDate) && IsText(t.cols[ProcessingDate])
    requires |fromName| == t.rows
    ensures WellFormed(r) && r.rows == t.rows && Has(r, Month) && Has(r, ProcessingDate)
    ensures r.cols[ProcessingDate] == ParseDates(parse, t.cols[ProcessingDate])
    ensures var periods := Periods(ParseDates(parse, t.cols[ProcessingDate]));
            r.cols[Month] == if AllNull(periods) then fromName else periods
    ensures forall n :: n != ProcessingDate && n != Month ==> SameColumn(r, t, n)
  {
    ColumnNamesDiffer();
    var t1 := Put(t, ProcessingDate, ParseDates(parse, t.cols[ProcessingDate]));
    var t2 := Put(t1, Month, Periods(t1.cols[ProcessingDate]));
    if AllNull(t2.cols[Month]) then Put(t2, Month, fromName) else t2
  }

  /** Lines 119-126. */
  function InferMonth(t: Table, fname: string, parse: string -> Option<YearMonth>): (r: Table)
    requires WellFormed(t) && (Has(t, ProcessingDate) ==> IsText(t.cols[ProcessingDate]))
    ensures WellFormed(r) && r.rows == t.rows && Has(r, Month)
    ensures Has(r, ProcessingDate) == Has(t, ProcessingDate)
    ensures Has(t, ProcessingDate) ==> r.cols[ProcessingDate] == ParseDates(parse, t.cols[ProcessingDate])
    ensures forall n :: n != ProcessingDate && n != Month ==> SameColumn(r, t, n)
  {
    ColumnNamesDiffer();
    var fromName := Filled(Str(PeriodInference.MonthFromFilename(fname)), t.rows);
    if Has(t, ProcessingDate) then MonthFromDateColumn(t, fromName, parse)
    else Put(t, Month, fromName)
  }

  /** With no date column, or one where no row parses, every row takes the
      period inferred from the file name. */
  lemma InferMonthFromName(t: Table, fname: string, parse: string -> Option<YearMonth>)
    requires WellFormed(t) && (Has(t, ProcessingDate) ==> IsText(t.cols[ProcessingDate]))
    requires Has(t, ProcessingDate) ==>
               forall i :: 0 <= i < t.rows ==> !Parses(parse, t.cols[ProcessingDate], i)
    ensures InferMonth(t, fname, parse).cols[Month]
            == Filled(Str(PeriodInference.MonthFromFilename(fname)), t.rows)
  {
    if Has(t, ProcessingDate) {
      var col := t.cols[ProcessingDate];
      var dates := ParseDates(parse, col);
      forall i | 0 <= i < |dates| ensures dates[i].Null? {
        assert !Parses(parse, col, i);
      }
      assert AllNull(Periods(dates));
    }
  }

  /** When some row of the date column parses, each row gets its own
      date's period, and rows that do not parse stay Null. */
  lemma InferMonthFromDates(t: Table, fname: string, parse: string -> Option<YearMonth>, k: nat)
    requires WellFormed(t) && Has(t, ProcessingDate) && IsText(t.cols[ProcessingDate])
    requires k < t.rows && Parses(parse, t.cols[ProcessingDate], k)
    ensures var month := InferMonth(t, fname, parse).cols[Month];
            forall i :: 0 <= i < t.rows ==>
              month[i] == if Parses(parse, t.cols[ProcessingDate], i)
                          then Str(FormatYearMonth(parse(t.cols[ProcessingDate][i].s).value))
                          else Null
  {
    var dates := ParseDates(parse, t.cols[ProcessingDate]);
    assert !Periods(dates)[k].Null?;
  }

  // ---------- The post-pass (lines 128-130) ----------

  /** Line 129: the month column is all NaN, or its only value is "ALL". */
  predicate NeedsFallback(col: seq<Cell>) {
    AllNull(col) || NonNullValues(col) == {Str(PeriodInference.Unknown)}
  }

  function PostPass(t: Table): (r: Table)
    requires WellFormed(t) && Has(t, Month)
    ensures WellFormed(r) && r.rows == t.rows && r.names == t.names
    ensures r.cols[Month] == if NeedsFallback(t.cols[Month]) then Filled(Str(FallbackPeriod), t.rows) else t.cols[Month]
    ensures forall n :: n != Month ==> SameColumn(r, t, n)
  {
    if NeedsFallback(t.cols[Month]) then Put(t, Month, Filled(Str(FallbackPeriod), t.rows)) else t
  }

  /** Lines 118-130. */
  function DeriveMonth(t: Table, fname: string, parse: string -> Option<YearMonth>): (r: Table)
    requires WellFormed(t) && (Has(t, ProcessingDate) ==> IsText(t.cols[ProcessingDate]))
    ensures WellFormed(r) && r.rows == t.rows && Has(r, Month)
    ensures Has(r, ProcessingDate) == Has(t, ProcessingDate)
    ensures Has(t, ProcessingDate) ==> r.cols[ProcessingDate] == ParseDates(parse, t.cols[ProcessingDate])
    ensures forall n :: n != ProcessingDate && n != Month ==> SameColumn(r, t, n)
  {
    ColumnNamesDiffer();
    var m := InferMonth(t, fname, parse);
    var r := PostPass(m);
    assert SameColumn(r, m, ProcessingDate);
    assert forall n :: n != ProcessingDate && n != Month ==> SameColumn(r, t, n) by {
      forall n | n != ProcessingDate && n != Month ensures SameColumn(r, t, n) {
        assert SameColumn(r, m, n) && SameColumn(m, t, n);
      }
    }
    r
  }

  /** Lines 118-130 only append to the header (the month column, when it
      was not there), and never a name twice. */
  lemma DeriveMonthExtends(t: Table, fname: string, parse: string -> Option<YearMonth>)
    requires WellFormed(t) && (Has(t, ProcessingDate) ==> IsText(t.cols[ProcessingDate]))
    ensures Extends(t, DeriveMonth(t, fname, parse))
  {
    var m := InferMonth(t, fname, parse);
    InferMonthExtends(t, fname, parse);
    if NeedsFallback(m.cols[Month]) {
      PutExtends(m, Month, Filled(Str(FallbackPeriod), t.rows));
      ExtendsTransitive(t, m, PostPass(m));
    }
  }

  lemma InferMonthExtends(t: Table, fname: string, parse: string -> Option<YearMonth>)
    requires WellFormed(t) && (Has(t, ProcessingDate) ==> IsText(t.cols[ProcessingDate]))
    ensures Extends(t, InferMonth(t, fname, parse))
  {
    var fromName := Filled(Str(PeriodInference.MonthFromFilename(fname)), t.rows);
    if Has(t, ProcessingDate) {
      var t1 := Put(t, ProcessingDate, ParseDates(parse, t.cols[ProcessingDate]));
      var t2 := Put(t1, Month, Periods(t1.cols[ProcessingDate]));
      PutExtends(t, ProcessingDate, ParseDates(parse, t.cols[ProcessingDate]));
      PutExtends(t1, Month, Periods(t1.cols[ProcessingDate]));
      ExtendsTransitive(t, t1, t2);
      if AllNull(t2.cols[Month]) {
        PutExtends(t2, Month, fromName);
        ExtendsTransitive(t, t2, Put(t2, Month, fromName));
      }
    } else {
      PutExtends(t, Month, fromName);
    }
  }

  // ---------- What the month column holds ----------

  /** A column in which at least one row holds a YYYY-MM period is left
      alone by the post-pass. */
  lemma NoFallbackForPeriod(col: seq<Cell>, k: nat)
    requires k < |col| && col[k].Str? && PeriodInference.IsPeriod(col[k].s)
    ensures !NeedsFallback(col)
  {
    assert col[k] in NonNullValues(col);
    assert col[k] != Str(PeriodInference.Unknown);
  }

  lemma FallbackForAll(rows: nat)
    requires rows > 0
    ensures NeedsFallback(Filled(Str(PeriodInference.Unknown), rows))
  {
    var col := Filled(Str(PeriodInference.Unknown), rows);
    assert col[0] in NonNullValues(col);
    assert NonNullValues(col) == {Str(PeriodInference.Unknown)};
  }

  /** Without usable dates the month is the file-name period, or the
      fallback when the file name gives "ALL". */
  lemma MonthFromNameOrFallback(t: Table, fname: string, parse: string -> Option<YearMonth>)
    requires WellFormed(t) && (Has(t, ProcessingDate) ==> IsText(t.cols[ProcessingDate]))
    requires Has(t, ProcessingDate) ==>
               forall i :: 0 <= i < t.rows ==> !Parses(parse, t.cols[ProcessingDate], i)
    ensures var m := PeriodInference.MonthFromFilename(fname);
            DeriveMonth(t, fname, parse).cols[Month]
            == Filled(Str(if m == PeriodInference.Unknown then FallbackPeriod else m), t.rows)
  {
    var m := PeriodInference.MonthFromFilename(fname);
    InferMonthFromName(t, fname, parse);
    if t.rows > 0 {
      if m == PeriodInference.Unknown {
        FallbackForAll(t.rows);
      } else {
        NoFallbackForPeriod(Filled(Str(m), t.rows), 0);
      }
    }
  }

  /** With a row that parses, the post-pass does nothing: each row keeps
      its own date's period or Null. */
  lemma MonthFromDates(t: Table, fname: string, parse: string -> Option<YearMonth>, k: nat)
    requires WellFormed(t) && Has(t, ProcessingDate) && IsText(t.cols[ProcessingDate])
    requires k < t.rows && Parses(parse, t.cols[ProcessingDate], k)
    ensures var month := DeriveMonth(t, fname, parse).cols[Month];
            forall i :: 0 <= i < t.rows ==>
              month[i] == if Parses(parse, t.cols[ProcessingDate], i)
                          then Str(FormatYearMonth(parse(t.cols[ProcessingDate][i].s).value))
                          else Null
  {
    InferMonthFromDates(t, fname, parse, k);
    var month := InferMonth(t, fname, parse).cols[Month];
    NoFallbackForPeriod(month, k);
  }

  /** A month cell after the post-pass: a `YYYY-MM` period, or Null. */
  predicate PeriodOrNull(c: Cell) {
    c.Null? || (c.Str? && PeriodInference.IsPeriod(c.s))
  }

  lemma KnownFromDates(t: Table, fname: string, parse: string -> Option<YearMonth>, k: nat)
    requires WellFormed(t) && Has(t, ProcessingDate) && IsText(t.cols[ProcessingDate])
    requires k < t.rows && Parses(parse, t.cols[ProcessingDate], k)
    ensures var month := DeriveMonth(t, fname, parse).cols[Month];
            !month[k].Null? && forall i :: 0 <= i < t.rows ==> PeriodOrNull(month[i])
  {
    MonthFromDates(t, fname, parse, k);
  }

  lemma KnownFromName(t: Table, fname: string, parse: string -> Option<YearMonth>)
    requires WellFormed(t) && (Has(t, ProcessingDate) ==> IsText(t.cols[ProcessingDate]))
    requires Has(t, ProcessingDate) ==>
               forall i :: 0 <= i < t.rows ==> !Parses(parse, t.cols[ProcessingDate], i)
    requires t.rows > 0
    ensures var month := DeriveMonth(t, fname, parse).cols[Month];
            !month[0].Null? && forall i :: 0 <= i < t.rows ==> PeriodOrNull(month[i])
  {
    var m := PeriodInference.MonthFromFilename(fname);
    MonthFromNameOrFallback(t, fname, parse);
    FallbackIsPeriod();
    var p := if m == PeriodInference.Unknown then FallbackPeriod else m;
    assert PeriodInference.IsPeriod(p);
  }

  /** After the post-pass the month column is never all null and never
      "ALL": some row holds a period, and every row holds a period or is
      Null (the unparsed rows of a partly parsed date column). */
  lemma MonthAlwaysKnown(t: Table, fname: string, parse: string -> Option<YearMonth>)
    requires WellFormed(t) && (Has(t, ProcessingDate) ==> IsText(t.cols[ProcessingDate]))
    requires t.rows > 0
    ensures var month := DeriveMonth(t, fname, parse).cols[Month];
            && (exists i :: 0 <= i < t.rows && !month[i].Null?)
            && (forall i :: 0 <= i < t.rows ==> PeriodOrNull(month[i]))
  {
    if Has(t, ProcessingDate) && exists k :: 0 <= k < t.rows && Parses(parse, t.cols[ProcessingDate], k) {
      var k :| 0 <= k < t.rows && Parses(parse, t.cols[ProcessingDate], k);
      KnownFromDates(t, fname, parse, k);
    } else {
      KnownFromName(t, fname, parse);
    }
  }
}
