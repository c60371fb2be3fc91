/** Lines 100-157 of etl/02_transform_to_parquet.py as one pipeline: the
    steps of `main` between reading the CSV and writing the parquet file,
    each a function on the table, composed in the order `main` runs them. */
module Normalise {
  import opened Wrappers
  import opened Text
  import opened Tables
  import Headers
  import Keys
  import Months
  import Hours

  /** What `main` demands of the table it reads: `read_csv(dtype=str)` gives
      text cells, and no two headers may canonicalise to the same name. */
  predicate Admissible(t: Table) {
    WellFormed(t) && AllText(t) && Distinct(Headers.CanonicalHeaders(t.names))
  }

  /** Lines 100-114: canonical headers, the key columns filled and cleaned. */
  function Cleaned(t: Table): (r: Table)
    requires Admissible(t)
    ensures WellFormed(r) && r.rows == t.rows && AllText(r)
    ensures Has(r, Keys.ProvNum) && Has(r, Keys.ProvName) && Has(r, Keys.State)
  {
    var t1 := Headers.Canonicalise(t);
    Headers.CanonicalisePreservesText(t);
    var t2 := Keys.FillDefaults(t1);
    Keys.FillDefaultsPreservesText(t1);
    Keys.CleanFormatsPreservesText(t2);
    Keys.CleanFormats(t2)
  }

  /** Lines 116-157: the month, the numeric staffing hours and the totals. */
  function Finish(u: Table, fname: string, parseDate: string -> Option<YearMonth>,
                  parseNum: string -> Option<real>): (r: Table)
    requires WellFormed(u) && AllText(u)
    ensures WellFormed(r) && r.rows == u.rows
    ensures Has(r, Months.Month)
    ensures Has(r, Hours.TotalReported) && Has(r, Hours.TotalAdjusted) && Has(r, Hours.Total)
  {
    var t4 := Months.DeriveMonth(u, fname, parseDate);
    var t5 := Hours.ConvertNumeric(t4, parseNum);
    Hours.TotalNamesDiffer();
    MonthIsNoTotal();
    Hours.BuildTotals(t5)
  }

  /** The whole transformation of `main`, I/O aside. What the output
      promises is proved below: HeaderKept (the canonicalised header is a
      prefix, with no duplicate), KeysClean (the key columns are clean),
      MonthKnown (the month is known on a non-empty table, in this model)
      and HoursNumeric (the hour columns and the totals are numeric). */
  function Normalise(t: Table, fname: string, parseDate: string -> Option<YearMonth>,
                     parseNum: string -> Option<real>): (r: Table)
    requires Admissible(t)
    ensures WellFormed(r) && r.rows == t.rows
    ensures Has(r, Keys.ProvNum) && Has(r, Keys.ProvName) && Has(r, Keys.State)
    ensures Has(r, Months.Month)
    ensures Has(r, Hours.TotalReported) && Has(r, Hours.TotalAdjusted) && Has(r, Hours.Total)
  {
    var u := Cleaned(t);
    FinishKeepsKeys(u, fname, parseDate, parseNum);
    Finish(u, fname, parseDate, parseNum)
  }

  // ---------- Which later step touches which column ----------

  lemma MonthIsNoTotal()
    ensures Months.Month != Hours.TotalReported && Months.Month != Hours.TotalAdjusted
    ensures Months.Month != Hours.Total && !Hours.IsHprd(Months.Month)
  {
    assert |Months.Month| == 5;
  }

  /** The key columns are none of the columns lines 116-157 write. */
  lemma KeysAreLeftAlone(n: string)
    requires n == Keys.ProvNum || n == Keys.ProvName || n == Keys.State
    ensures n != Months.ProcessingDate && n != Months.Month && !Hours.IsHprd(n)
    ensures n != Hours.TotalReported && n != Hours.TotalAdjusted && n != Hours.Total
  {
    assert n[0] == 'P' || n[0] == 'S';
    assert |n| == 7 || |n| == 8 || |n| == 5;
  }

  /** Lines 116-157 leave every column they do not name as it was. */
  lemma FinishKeeps(u: Table, fname: string, parseDate: string -> Option<YearMonth>,
                    parseNum: string -> Option<real>, n: string)
    requires WellFormed(u) && AllText(u)
    requires n != Months.ProcessingDate && n != Months.Month && !Hours.IsHprd(n)
    requires n != Hours.TotalReported && n != Hours.TotalAdjusted && n != Hours.Total
    ensures SameColumn(Finish(u, fname, parseDate, parseNum), u, n)
  {
    var t4 := Months.DeriveMonth(u, fname, parseDate);
    var t5 := Hours.ConvertNumeric(t4, parseNum);
    var r := Hours.BuildTotals(t5);
    assert SameColumn(r, t5, n) && SameColumn(t5, t4, n) && SameColumn(t4, u, n);
  }

  lemma FinishKeepsKeys(u: Table, fname: string, parseDate: string -> Option<YearMonth>,
                        parseNum: string -> Option<real>)
    requires WellFormed(u) && AllText(u)
    ensures var r := Finish(u, fname, parseDate, parseNum);
            && SameColumn(r, u, Keys.ProvNum) && SameColumn(r, u, Keys.ProvName)
            && SameColumn(r, u, Keys.State)
  {
    KeysAreLeftAlone(Keys.ProvNum);
    FinishKeeps(u, fname, parseDate, parseNum, Keys.ProvNum);
    KeysAreLeftAlone(Keys.ProvName);
    FinishKeeps(u, fname, parseDate, parseNum, Keys.ProvName);
    KeysAreLeftAlone(Keys.State);
    FinishKeeps(u, fname, parseDate, parseNum, Keys.State);
  }

  /** The month column is the one lines 116-130 leave; the staffing and
      total steps do not touch it. */
  lemma FinishMonth(u: Table, fname: string, parseDate: string -> Option<YearMonth>,
                    parseNum: string -> Option<real>)
    requires WellFormed(u) && AllText(u)
    ensures Finish(u, fname, parseDate, parseNum).cols[Months.Month]
            == Months.DeriveMonth(u, fname, parseDate).cols[Months.Month]
  {
    var t4 := Months.DeriveMonth(u, fname, parseDate);
    var t5 := Hours.ConvertNumeric(t4, parseNum);
    MonthIsNoTotal();
    assert SameColumn(Hours.BuildTotals(t5), t5, Months.Month);
  }

  // ---------- What the output promises ----------

  /** The output header is the canonicalised input header followed by the
      columns the steps add, and it names no column twice. */
  lemma HeaderKept(t: Table, fname: string, parseDate: string -> Option<YearMonth>,
                   parseNum: string -> Option<real>)
    requires Admissible(t)
    ensures var r := Normalise(t, fname, parseDate, parseNum);
            Headers.CanonicalHeaders(t.names) <= r.names && Distinct(r.names)
  {
    var t1 := Headers.Canonicalise(t);
    Headers.CanonicaliseNames(t);
    Headers.CanonicalisePreservesText(t);
    var t2 := Keys.FillDefaults(t1);
    Keys.FillDefaultsExtends(t1);
    Keys.FillDefaultsPreservesText(t1);
    var u := Keys.CleanFormats(t2);
    assert u == Cleaned(t);
    var t4 := Months.DeriveMonth(u, fname, parseDate);
    Months.DeriveMonthExtends(u, fname, parseDate);
    var t5 := Hours.ConvertNumeric(t4, parseNum);
    var r := Hours.BuildTotals(t5);
    Hours.BuildTotalsExtends(t5);
    assert r == Normalise(t, fname, parseDate, parseNum);
    ExtendsTransitive(t1, t2, t4);
    ExtendsTransitive(t1, t4, r);
  }

  predicate Trimmed(s: string) {
    s == [] || (!IsSpace(s[0]) && !IsSpace(s[|s| - 1]))
  }

  predicate NoLowerCase(s: string) {
    forall k :: 0 <= k < |s| ==> !IsLowerLetter(s[k])
  }

  /** The shape of the key columns once lines 104-114 have run. */
  lemma CleanedKeys(t: Table)
    requires Admissible(t)
    ensures var u := Cleaned(t);
            forall i :: 0 <= i < t.rows ==>
              && u.cols[Keys.ProvNum][i].Str? && |u.cols[Keys.ProvNum][i].s| >= Keys.IdWidth
              && u.cols[Keys.ProvName][i].Str? && Trimmed(u.cols[Keys.ProvName][i].s)
              && u.cols[Keys.State][i].Str? && Trimmed(u.cols[Keys.State][i].s)
              && NoLowerCase(u.cols[Keys.State][i].s)
  {
    var t1 := Headers.Canonicalise(t);
    Headers.CanonicalisePreservesText(t);
    var t2 := Keys.FillDefaults(t1);
    Keys.FillDefaultsPreservesText(t1);
    var u := Keys.CleanFormats(t2);
    assert u == Cleaned(t);
    forall i | 0 <= i < t.rows
      ensures u.cols[Keys.ProvNum][i].Str? && |u.cols[Keys.ProvNum][i].s| >= Keys.IdWidth
      ensures u.cols[Keys.ProvName][i].Str? && Trimmed(u.cols[Keys.ProvName][i].s)
      ensures u.cols[Keys.State][i].Str? && Trimmed(u.cols[Keys.State][i].s)
      ensures NoLowerCase(u.cols[Keys.State][i].s)
    {
      var name := Keys.CleanName(AsTextOf(t2, Keys.ProvName, i));
      var state := Keys.CleanState(AsTextOf(t2, Keys.State, i));
      assert u.cols[Keys.ProvName][i] == Str(name);
      assert u.cols[Keys.State][i] == Str(state);
      assert u.cols[Keys.ProvNum][i] == Str(Keys.CleanId(AsTextOf(t2, Keys.ProvNum, i)));
    }
  }

  /** A key cell of a text table, as `astype(str)` renders it. */
  function AsTextOf(t: Table, name: string, i: nat): string
    requires WellFormed(t) && Has(t, name) && IsText(t.cols[name]) && i < t.rows
  {
    Keys.AsText(t.cols[name][i])
  }

  /** Every identifier is text of at least six characters, every name is
      trimmed text, every state trimmed text with no lower-case letter. */
  lemma KeysClean(t: Table, fname: string, parseDate: string -> Option<YearMonth>,
                  parseNum: string -> Option<real>)
    requires Admissible(t)
    ensures var r := Normalise(t, fname, parseDate, parseNum);
            forall i :: 0 <= i < t.rows ==>
              && r.cols[Keys.ProvNum][i].Str? && |r.cols[Keys.ProvNum][i].s| >= Keys.IdWidth
              && r.cols[Keys.ProvName][i].Str? && Trimmed(r.cols[Keys.ProvName][i].s)
              && r.cols[Keys.State][i].Str? && Trimmed(r.cols[Keys.State][i].s)
              && NoLowerCase(r.cols[Keys.State][i].s)
  {
    var u := Cleaned(t);
    FinishKeepsKeys(u, fname, parseDate, parseNum);
    CleanedKeys(t);
  }

  /** A non-empty table always ends up with a known month: some row holds a
      period, and every row holds a period or nothing. */
  lemma MonthKnown(t: Table, fname: string, parseDate: string -> Option<YearMonth>,
                   parseNum: string -> Option<real>)
    requires Admissible(t) && t.rows > 0
    ensures var month := Normalise(t, fname, parseDate, parseNum).cols[Months.Month];
            && (exists i :: 0 <= i < t.rows && !month[i].Null?)
            && (forall i :: 0 <= i < t.rows ==> Months.PeriodOrNull(month[i]))
  {
    var u := Cleaned(t);
    FinishKeepsKeys(u, fname, parseDate, parseNum);
    FinishMonth(u, fname, parseDate, parseNum);
    Months.MonthAlwaysKnown(u, fname, parseDate);
  }

  /** Staffing hours that are present end up numeric, and so do the totals. */
  lemma HoursNumeric(t: Table, fname: string, parseDate: string -> Option<YearMonth>,
                     parseNum: string -> Option<real>)
    requires Admissible(t)
    ensures var r := Normalise(t, fname, parseDate, parseNum);
            && Hours.HprdNumeric(r)
            && Hours.IsNumeric(r.cols[Hours.TotalReported])
            && Hours.IsNumeric(r.cols[Hours.TotalAdjusted])
            && Hours.IsNumeric(r.cols[Hours.Total])
  {
    var u := Cleaned(t);
    FinishKeepsKeys(u, fname, parseDate, parseNum);
    var t4 := Months.DeriveMonth(u, fname, parseDate);
    var t5 := Hours.ConvertNumeric(t4, parseNum);
    Hours.BuildTotalsNumeric(t5);
  }
}
