/** The data frame `main` of etl/02_transform_to_parquet.py updates in
    place: `df` is reassigned column by column between reading the CSV and
    writing the parquet file. Each method is one block of `main` and leaves
    the frame holding what the corresponding function on tables computes. */
module Frames {
  import opened Wrappers
  import opened Tables
  import Headers
  import Keys
  import Months
  import PeriodInference
  import Hours
  import Normalise

  class Frame {
    var names: seq<string>
    var cols: map<string, seq<Cell>>
    const rows: nat

    /** The frame as a value. */
    function Snapshot(): Table
      reads this
    {
      Table(names, cols, rows)
    }

    ghost predicate Valid()
      reads this
    {
      WellFormed(Snapshot())
    }

    /** `pd.read_csv(..., dtype=str)`, with the file's contents given. */
    constructor (t: Table)
      requires WellFormed(t)
      ensures Valid() && Snapshot() == t
    {
      names := t.names;
      cols := t.cols;
      rows := t.rows;
    }

    /** `df[name] = col`. */
    method SetColumn(name: string, col: seq<Cell>)
      requires Valid() && |col| == rows
      modifies this
      ensures Valid() && Snapshot() == Put(old(Snapshot()), name, col)
    {
      if name !in cols {
        names := names + [name];
      }
      cols := cols[name := col];
    }

    /** Lines 100-101. */
    method CanonicaliseHeaders()
      requires Valid() && Distinct(Headers.CanonicalHeaders(names))
      modifies this
      ensures Valid() && Snapshot() == Headers.Canonicalise(old(Snapshot()))
    {
      var t := Headers.Canonicalise(Snapshot());
      assert t.rows == rows;
      names, cols := t.names, t.cols;
      assert Snapshot() == Table(t.names, t.cols, t.rows);
    }

    /** Lines 104-109. */
    method FillDefaults()
      requires Valid()
      modifies this
      ensures Valid() && Snapshot() == Keys.FillDefaults(old(Snapshot()))
    {
      if Keys.ProvNum !in cols {
        SetColumn(Keys.ProvNum, Keys.IndexIds(rows));
      }
      if Keys.ProvName !in cols {
        SetColumn(Keys.ProvName, Filled(Str(Keys.UnknownName), rows));
      }
      if Keys.State !in cols {
        SetColumn(Keys.State, Filled(Str(Keys.UnknownState), rows));
      }
    }

    /** Lines 112-114. */
    method CleanFormats()
      requires Valid() && Has(Snapshot(), Keys.ProvNum) && Has(Snapshot(), Keys.ProvName)
      requires Has(Snapshot(), Keys.State)
      requires IsText(cols[Keys.ProvNum]) && IsText(cols[Keys.ProvName]) && IsText(cols[Keys.State])
      modifies this
      ensures Valid() && Snapshot() == Keys.CleanFormats(old(Snapshot()))
    {
      Keys.KeyNamesDiffer();
      SetColumn(Keys.ProvNum, Keys.MapText(Keys.CleanId, cols[Keys.ProvNum]));
      SetColumn(Keys.ProvName, Keys.MapText(Keys.CleanName, cols[Keys.ProvName]));
      SetColumn(Keys.State, Keys.MapText(Keys.CleanState, cols[Keys.State]));
    }

    /** Lines 118-130. */
    method DeriveMonth(fname: string, parse: string -> Option<YearMonth>)
      requires Valid()
      requires Months.ProcessingDate in cols ==> IsText(cols[Months.ProcessingDate])
      modifies this
      ensures Valid() && Snapshot() == Months.DeriveMonth(old(Snapshot()), fname, parse)
    {
      Months.ColumnNamesDiffer();
      var fromName := Filled(Str(PeriodInference.MonthFromFilename(fname)), rows);
      if Months.ProcessingDate in cols {
        SetColumn(Months.ProcessingDate, Months.ParseDates(parse, cols[Months.ProcessingDate]));
        SetColumn(Months.Month, Months.Periods(cols[Months.ProcessingDate]));
        if Months.AllNull(cols[Months.Month]) {
          SetColumn(Months.Month, fromName);
        }
      } else {
        SetColumn(Months.Month, fromName);
      }
      if Months.NeedsFallback(cols[Months.Month]) {
        SetColumn(Months.Month, Filled(Str(Months.FallbackPeriod), rows));
      }
    }

    /** Lines 133-136: the loop over the staffing-hour columns. */
    method ConvertNumeric(parse: string -> Option<real>)
      requires Valid()
      modifies this
      ensures Valid() && Snapshot() == Hours.ConvertNumeric(old(Snapshot()), parse)
    {
      ghost var t := Snapshot();
      var k := 0;
      while k < |Hours.HprdColumns|
        invariant 0 <= k <= |Hours.HprdColumns|
        invariant Valid() && Snapshot() == Hours.ConvertPrefix(t, parse, k)
      {
        var name := Hours.HprdColumns[k];
        Hours.ConvertPrefixStep(t, parse, k);
        if name in cols {
          SetColumn(name, Hours.NumericColumn(parse, cols[name]));
        }
        k := k + 1;
      }
      Hours.ConvertPrefixAll(t, parse);
    }

    /** Lines 139-157. */
    method BuildTotals()
      requires Valid()
      modifies this
      ensures Valid() && Snapshot() == Hours.BuildTotals(old(Snapshot()))
    {
      Hours.TotalNamesDiffer();
      SetColumn(Hours.TotalReported, Hours.SumColumn(Snapshot(), Hours.ReportedColumns));
      SetColumn(Hours.TotalAdjusted, Hours.SumColumn(Snapshot(), Hours.AdjustedColumns));
      SetColumn(Hours.Total, Hours.ChooseColumn(Snapshot(), cols[Hours.TotalReported], cols[Hours.TotalAdjusted]));
    }

    /** Lines 100-157, in the order `main` runs them. */
    method Run(fname: string, parseDate: string -> Option<YearMonth>,
               parseNum: string -> Option<real>)
      requires Valid() && Normalise.Admissible(Snapshot())
      modifies this
      ensures Valid() && Snapshot() == Normalise.Normalise(old(Snapshot()), fname, parseDate, parseNum)
    {
      ghost var t := Snapshot();
      CanonicaliseHeaders();
      Headers.CanonicalisePreservesText(t);
      ghost var t1 := Snapshot();
      FillDefaults();
      Keys.FillDefaultsPreservesText(t1);
      ghost var t2 := Snapshot();
      CleanFormats();
      Keys.CleanFormatsPreservesText(t2);
      assert Snapshot() == Normalise.Cleaned(t);
      DeriveMonth(fname, parseDate);
      ConvertNumeric(parseNum);
      BuildTotals();
    }
  }
}
