# Nursing-home staffing normaliser, modelled in Dafny

`etl/02_transform_to_parquet.py` turns one raw CMS nursing-home staffing
extract into the project's canonical table. It reads the CSV as strings,
renames the headers through a fixed alias table, makes sure the key columns
`PROVNUM`, `PROVNAME` and `STATE` exist, and cleans them. It then derives a
`month` column, from `PROCESSING_DATE` or from the file name, with a
fallback period. Finally it turns the staffing-hour columns into numbers and
adds the totals `TOTAL_HPRD_REPORTED`, `TOTAL_HPRD_ADJ` and `TOTAL_HPRD`.

The model has one module per block of the script:

- `PeriodInference` (period_inference.dfy) models `month_from_filename`. Each
  of its four regular expressions is written out as a matcher at one start
  position, and `re.search` is the leftmost start that matches.
- `Tables` (tables.dfy) models the data frame as a value: a header, a map
  from column name to column, and a row count. A cell is `Null` (NaN or NaT),
  a string, a number or a parsed date. `Put` models `df[name] = col`.
- `Headers`, `Keys`, `Months` and `Hours` hold one function per step of
  `main`, each stated by what it keeps and what it sets, with lemmas about
  the columns it produces.
- `Text` (text.dfy) models the Python string methods the script uses:
  `strip`, `lower`, `upper`, `zfill`, and `str` of a row number.
- `Normalise` (normalise.dfy) composes the steps in the order `main` runs
  them. It proves what the output table promises:
  - the input header, canonicalised, is kept as a prefix, and no column is
    listed twice;
  - every key is clean;
  - in the model, the month is always known (this rests on the model's
    reading of an unparsed date as Null; see "Months.Periods" under
    "## Left out");
  - every staffing-hour column and every total is numeric.
- `Frames` (frame.dfy) holds `Frame`, the data frame that `main` updates in
  place. Each block of `main` is a method of it, and the loop over the
  staffing-hour columns is a `while` loop. Each method ends with the frame
  equal to the result of the matching function.

`pd.to_datetime` and `pd.to_numeric` are parameters of the model: a
function from a string to an optional parsed value. The file name is a
parameter too.

## Model

| member | source | states |
|---|---|---|
| PeriodInference.MonthFromFilename | etl/02_transform_to_parquet.py:19-52 | the result is either the sentinel "ALL" or a `YYYY-MM` string whose month is 01 to 12 |
| PeriodInference.SearchFrom | etl/02_transform_to_parquet.py:26 | `re.search` from a position: a hit is a match at its start, and no earlier position matches; no hit means no position matches |
| PeriodInference.LeftmostMatchIsFound | etl/02_transform_to_parquet.py:26 | the converse: a match with no match before it is exactly the hit `re.search` returns |
| PeriodInference.LetterRunEnd | etl/02_transform_to_parquet.py:26 | the greedy `[a-z]*` under `re.I` stops at the first non-letter, and everything it skips is a letter |
| PeriodInference.MonthNameAt | etl/02_transform_to_parquet.py:26 | a month-name match starts at `_`, and captures three letters that lowercase to a `month_map` key and four digits |
| PeriodInference.YearSepMonthAt | etl/02_transform_to_parquet.py:38 | a match of `_(20\d{2})[_-]?` followed by a month starts at `_`, and captures a 20xx year and a month 01 to 12 |
| PeriodInference.YearMonthAt | etl/02_transform_to_parquet.py:43 | the same shape of groups for the pattern without a separator |
| PeriodInference.YearMonthDayAt | etl/02_transform_to_parquet.py:48 | the same shape of groups for the pattern with a trailing day |
| PeriodInference.MonthNumbersAreMonths | etl/02_transform_to_parquet.py:28-32 | every value of `month_map` is a two-digit month 01 to 12 |
| PeriodInference.MonthNameMeaningIsPeriod | etl/02_transform_to_parquet.py:26-35 | a month-name match yields a `YYYY-MM` period |
| PeriodInference.NumericMeaningIsPeriod | etl/02_transform_to_parquet.py:38-50 | a match of any of the three numeric patterns yields a `YYYY-MM` period |
| PeriodInference.YearMonthIsYearSepMonth | etl/02_transform_to_parquet.py:38-45 | wherever the pattern of line 43 matches, the pattern of line 38 matches at the same position with the same groups |
| PeriodInference.YearMonthDayIsYearMonth | etl/02_transform_to_parquet.py:43-50 | wherever the pattern of line 48 matches, the pattern of line 43 matches with the same groups |
| PeriodInference.LaterNumericPatternsUnreachable | etl/02_transform_to_parquet.py:37-50 | if either later numeric pattern has a match, the pattern of line 38 has one too, so the branches at lines 43-50 are never taken |
| PeriodInference.TwoPatternsSuffice | etl/02_transform_to_parquet.py:19-52 | the function equals "month-name match, else year[_-]?month match, else ALL" for every file name |
| PeriodInference.NoUnderscoreMeansUnknown | etl/02_transform_to_parquet.py:19-52 | a file name without `_` always gives "ALL" |
| PeriodInference.MonthNameWins | etl/02_transform_to_parquet.py:25-35 | a month-name match anywhere decides the result, whatever numeric tokens the name holds, and the deciding match starts no later than it |
| PeriodInference.SearchTransfers | etl/02_transform_to_parquet.py:26 | two names that differ only in letter case have their leftmost match at the same position, with the same meaning |
| PeriodInference.CaseInsensitive | etl/02_transform_to_parquet.py:26 | two file names that differ only in the case of their letters give the same result |
| PeriodInference.ExampleMonthName | etl/02_transform_to_parquet.py:21 | `NH_ProviderInfo_Oct2024.csv` gives "2024-10" |
| PeriodInference.ExampleYearMonthDay | etl/02_transform_to_parquet.py:22 | `export_20241027.csv` gives "2024-10" |
| PeriodInference.ExampleYearSepMonth | etl/02_transform_to_parquet.py:23 | `data_2024_10.csv` gives "2024-10" |
| PeriodInference.ExampleSpeltOutMonth | etl/02_transform_to_parquet.py:26 | `report_october-2024.csv` gives "2024-10": the rest of the month word and the separator are skipped |
| PeriodInference.ExampleCapitalMonth | etl/02_transform_to_parquet.py:26 | `report_OCT2024.csv` gives "2024-10" |
| PeriodInference.ExampleAnyYearAfterMonthName | etl/02_transform_to_parquet.py:26 | `archive_Jan1999.csv` gives "1999-01": after a month name, any four digits count as a year |
| PeriodInference.ExampleNumericNeeds20xx | etl/02_transform_to_parquet.py:38-52 | `data_1999_01.csv` gives "ALL": the numeric patterns need a 20xx year |
| Text.Strip | etl/02_transform_to_parquet.py:100 | `strip()` never lengthens a string, and its result neither starts nor ends with whitespace |
| Text.StripSplits | etl/02_transform_to_parquet.py:100 | every string is its whitespace prefix, its stripped form, then its whitespace suffix |
| Text.StripUnique | etl/02_transform_to_parquet.py:100 | conversely, whitespace around a string that does not start or end with whitespace is exactly what `strip()` removes |
| Text.StripKeepsCharacters | etl/02_transform_to_parquet.py:113 | `strip()` only removes characters and introduces none |
| Text.StripIdempotent | etl/02_transform_to_parquet.py:113 | stripping twice is stripping once |
| Text.Lower | etl/02_transform_to_parquet.py:100 | `lower()` keeps the length and maps each character on its own |
| Text.LowerChar | etl/02_transform_to_parquet.py:100 | an ASCII capital becomes the lower-case letter at the same place in the alphabet; every other character, lower-case letters included, is unchanged |
| Text.Upper | etl/02_transform_to_parquet.py:114 | `upper()` keeps the length and maps each character on its own |
| Text.UpperChar | etl/02_transform_to_parquet.py:114 | an ASCII lower-case letter becomes the capital at the same place in the alphabet; every other character, capitals included, is unchanged |
| Text.CaseRoundTrip | etl/02_transform_to_parquet.py:100-114 | lower-casing an upper-cased lower-case letter gives it back, and upper-casing a lower-cased capital gives it back |
| Text.UpperOfUpperCase | etl/02_transform_to_parquet.py:114 | a string with no lower-case letter is its own upper case |
| Text.ZFill | etl/02_transform_to_parquet.py:112 | `zfill(w)` reaches length w and never truncates; it keeps the input as a suffix behind zeros, or keeps a leading sign in front of the zeros |
| Text.ZFillIdempotent | etl/02_transform_to_parquet.py:112 | padding twice is padding once |
| Text.NatToString | etl/02_transform_to_parquet.py:105 | `str(i)` is a non-empty run of digits without a leading zero |
| Text.NatToStringRoundTrip | etl/02_transform_to_parquet.py:105 | reading the digits of `str(i)` gives back i |
| Tables.Put | etl/02_transform_to_parquet.py:105 | `df[name] = col` sets that column; it replaces an existing column in place or appends a new one to the header; every other column is unchanged |
| Tables.PutExtends | etl/02_transform_to_parquet.py:105 | assigning a column keeps the old header as a prefix and never lists a column twice |
| Tables.Filled | etl/02_transform_to_parquet.py:107 | a scalar assignment puts the same cell on every row |
| Headers.CanonicalHeaders | etl/02_transform_to_parquet.py:100-101 | one canonical name per header, in header order |
| Headers.RenameAll | etl/02_transform_to_parquet.py:101 | renaming to distinct new names moves each column to its new name and loses none |
| Headers.Canonicalise | etl/02_transform_to_parquet.py:100-101 | after the rename, header i is the canonical form of input header i and holds input column i |
| Headers.CanonicaliseNames | etl/02_transform_to_parquet.py:100-101 | the new header is exactly the canonicalised old header, with no name twice |
| Headers.CanonicalisePreservesText | etl/02_transform_to_parquet.py:100-101 | renaming does not change any cell, so a table of strings stays one |
| Headers.AliasTargetsHaveUpper | etl/02_transform_to_parquet.py:67-97 | every canonical name of the alias table contains a capital letter |
| Headers.RecognisedExactlyViaAlias | etl/02_transform_to_parquet.py:99-101 | a header becomes a given canonical name exactly when its trimmed, lower-cased form is an alias of that name |
| Headers.UnknownHeaderIsStable | etl/02_transform_to_parquet.py:100-101 | an unknown header is passed on trimmed and lower-cased, and canonicalising it again changes nothing |
| Headers.TrimmedLowerIsFixed | etl/02_transform_to_parquet.py:100 | trimming and lower-casing a header twice is doing it once |
| Headers.CanonicalSpellingIsNotKept | etl/02_transform_to_parquet.py:99-101 | a header already spelt `PROVNUM` comes out as `provnum`, which is not recognised |
| Headers.StateSpellingIsKept | etl/02_transform_to_parquet.py:99-101 | a header spelt `STATE` comes out as `STATE`, because `state` is an alias |
| Keys.IndexIds | etl/02_transform_to_parquet.py:105 | the synthesised column holds, on row i, `str(i).zfill(6)` |
| Keys.IndexIdValue | etl/02_transform_to_parquet.py:105 | a synthesised identifier is all digits, reads back as its row number, has at least six characters, and exactly six below a million rows |
| Keys.IndexIdsDistinct | etl/02_transform_to_parquet.py:105 | different rows get different synthesised identifiers |
| Keys.FillMissing | etl/02_transform_to_parquet.py:104-109 | a missing column is added with the default; a present one is kept as it is; the header only grows, by that name |
| Keys.FillDefaults | etl/02_transform_to_parquet.py:104-109 | afterwards all three keys exist; each present key is unchanged and each missing one holds its default; no other column changes |
| Keys.FillDefaultsAppends | etl/02_transform_to_parquet.py:104-109 | the old header is a prefix of the new, and only key names are appended |
| Keys.FillDefaultsExtends | etl/02_transform_to_parquet.py:104-109 | the old header is kept as a prefix, and no name is listed twice |
| Keys.FillDefaultsPreservesText | etl/02_transform_to_parquet.py:104-109 | the defaults are strings, so a table of strings stays one |
| Keys.MapText | etl/02_transform_to_parquet.py:112-114 | `astype(str)` then a string method, cell by cell: every cell becomes a string, and NaN is read as "nan" |
| Keys.StripDotZero | etl/02_transform_to_parquet.py:112 | `\.0$` removes one final ".0", or one ".0" just before a final newline; any other string is unchanged |
| Keys.CleanId | etl/02_transform_to_parquet.py:112 | a cleaned identifier has at least six characters |
| Keys.CleanIdPads | etl/02_transform_to_parquet.py:112 | the cleaned identifier is what remains after the ".0" removal, padded in front with zeros up to six (after the sign, if there is one) |
| Keys.IndexIdSurvivesCleaning | etl/02_transform_to_parquet.py:105-112 | a synthesised identifier passes the cleaning unchanged |
| Keys.CleanName | etl/02_transform_to_parquet.py:113 | a cleaned name neither starts nor ends with whitespace |
| Keys.CleanNameIdempotent | etl/02_transform_to_parquet.py:113 | cleaning a name twice is cleaning it once |
| Keys.CleanState | etl/02_transform_to_parquet.py:114 | a cleaned state has no lower-case letter and is trimmed |
| Keys.CleanStateIdempotent | etl/02_transform_to_parquet.py:114 | cleaning a state twice is cleaning it once |
| Keys.CleanFormats | etl/02_transform_to_parquet.py:112-114 | the three key columns are cleaned cell by cell; the header and every other column are unchanged |
| Keys.CleanKeysShape | etl/02_transform_to_parquet.py:112-114 | row by row: the identifier has at least six characters, the name is the stripped text, the state the upper-cased stripped text |
| Keys.CleanFormatsPreservesText | etl/02_transform_to_parquet.py:112-114 | the cleaned table is still all strings |
| Keys.ExampleFloatId | etl/02_transform_to_parquet.py:112 | "15009.0" becomes "015009" |
| Keys.ExampleDoubleDotZero | etl/02_transform_to_parquet.py:112 | "12.0.0" becomes "0012.0": only one ".0" goes |
| Keys.ExampleLongId | etl/02_transform_to_parquet.py:112 | "1234567" is kept at seven characters |
| Keys.ExampleMissingId | etl/02_transform_to_parquet.py:112 | a missing identifier becomes "000nan" |
| Keys.ExampleMissingName | etl/02_transform_to_parquet.py:113 | a missing facility name becomes "nan" |
| Keys.ExampleMissingState | etl/02_transform_to_parquet.py:114 | a missing state becomes "NAN" |
| Months.PaddedDigits | etl/02_transform_to_parquet.py:121 | a number below 10^w is written in exactly w digits that read back as it |
| Months.FormatYearMonth | etl/02_transform_to_parquet.py:121 | `to_period("M").astype(str)` writes a `YYYY-MM` period whose digits read back as the date's year and month |
| Months.FormatYearMonthInjective | etl/02_transform_to_parquet.py:121 | two dates with the same rendered period have the same year and month |
| Months.FallbackIsPeriod | etl/02_transform_to_parquet.py:130 | the fallback "2024-10" is a `YYYY-MM` period |
| Months.ParseDates | etl/02_transform_to_parquet.py:120 | `to_datetime(errors="coerce")` parses each cell on its own, and what does not parse becomes Null |
| Months.Periods | etl/02_transform_to_parquet.py:121 | each parsed date becomes its period; Null stays Null |
| Months.MonthFromDateColumn | etl/02_transform_to_parquet.py:120-124 | the date column is replaced by its parse; the month is the periods, or the file-name column when every period is Null; nothing else changes |
| Months.InferMonth | etl/02_transform_to_parquet.py:119-126 | a month column is set; the date column is parsed when present; no other column changes |
| Months.InferMonthFromName | etl/02_transform_to_parquet.py:119-126 | with no date column, or one where no row parses, every row gets the file-name period |
| Months.InferMonthFromDates | etl/02_transform_to_parquet.py:119-124 | when one row parses, each row gets its own date's period, and rows that do not parse stay Null |
| Months.PostPass | etl/02_transform_to_parquet.py:129-130 | an all-null month, or one whose only value is "ALL", is replaced by the fallback on every row; otherwise nothing changes |
| Months.DeriveMonth | etl/02_transform_to_parquet.py:118-130 | the month column exists afterwards; the date column is parsed when present; no other column changes |
| Months.DeriveMonthExtends | etl/02_transform_to_parquet.py:118-130 | the old header is kept as a prefix, and no name is listed twice |
| Months.NoFallbackForPeriod | etl/02_transform_to_parquet.py:129 | a month column holding a real period on some row is left alone |
| Months.FallbackForAll | etl/02_transform_to_parquet.py:129 | a non-empty column that is "ALL" everywhere triggers the fallback |
| Months.MonthFromNameOrFallback | etl/02_transform_to_parquet.py:118-130 | without usable dates, every row gets the file-name period, or the fallback when the name gives "ALL" |
| Months.MonthFromDates | etl/02_transform_to_parquet.py:118-130 | with a row that parses, the post-pass does nothing: each row keeps its own period, or Null |
| Months.KnownFromDates | etl/02_transform_to_parquet.py:118-130 | the row that parses holds a period, and every row holds a period or Null |
| Months.KnownFromName | etl/02_transform_to_parquet.py:118-130 | without usable dates the first row holds a period, and so does every other row |
| Months.MonthAlwaysKnown | etl/02_transform_to_parquet.py:128-130 | for a non-empty table the month is never all null and never "ALL": some row holds a period, and every row holds a period or Null |
| Hours.NumericCell | etl/02_transform_to_parquet.py:136 | `to_numeric(errors="coerce")` gives a number or NaN, and NaN stays NaN |
| Hours.NumericColumn | etl/02_transform_to_parquet.py:136 | a converted column is numeric, cell by cell |
| Hours.ConvertOne | etl/02_transform_to_parquet.py:135-136 | a present column is converted; an absent one is not created; no other column or the header changes |
| Hours.ConvertPrefix | etl/02_transform_to_parquet.py:134-136 | after k turns of the loop, exactly the first k listed columns that are present are converted |
| Hours.ConvertNumeric | etl/02_transform_to_parquet.py:133-136 | every present staffing-hour column is converted and is numeric; none is added; no other column changes |
| Hours.HprdColumnsDistinct | etl/02_transform_to_parquet.py:134 | the loop lists six different columns |
| Hours.Add | etl/02_transform_to_parquet.py:139-143 | pandas `+` gives a number exactly when both sides are numbers, and then it is their sum |
| Hours.AddThree | etl/02_transform_to_parquet.py:139-143 | a sum of three is NaN exactly when one addend is NaN, and otherwise it is their sum |
| Hours.SumColumn | etl/02_transform_to_parquet.py:139-148 | row by row, the sum of the three named operands, with 0 for an absent column |
| Hours.SumColumnAgrees | etl/02_transform_to_parquet.py:144-148 | a sum reads only its three columns, so setting `TOTAL_HPRD_REPORTED` first does not change the adjusted sum |
| Hours.ChooseColumn | etl/02_transform_to_parquet.py:151-157 | `np.where` row by row: the reported total when any reported column is present and not NaN on that row, else the adjusted total |
| Hours.ChooseColumnAgrees | etl/02_transform_to_parquet.py:151-157 | the choice reads only the three reported columns |
| Hours.BuildTotals | etl/02_transform_to_parquet.py:138-157 | the three totals are those sums and that choice, computed on the input table; no other column changes |
| Hours.BuildTotalsExtends | etl/02_transform_to_parquet.py:139-157 | the old header is kept as a prefix, and no name is listed twice |
| Hours.SumColumnNumeric | etl/02_transform_to_parquet.py:139-148 | a sum column holds numbers or NaN |
| Hours.BuildTotalsNumeric | etl/02_transform_to_parquet.py:138-157 | the totals hold numbers or NaN, and the staffing-hour columns stay numeric |
| Hours.OperandMeaning | etl/02_transform_to_parquet.py:140-142 | an operand is NaN exactly when its column is present and NaN on that row; otherwise it is the value, or 0 for an absent column |
| Hours.SumCharacterised | etl/02_transform_to_parquet.py:139-148 | a row's sum is NaN exactly when a present column is NaN on that row; otherwise it adds the present values |
| Hours.TotalChoosesPerRow | etl/02_transform_to_parquet.py:139-157 | on numeric hour columns, per row: where some reported column holds a value, `TOTAL_HPRD` is NaN exactly when a present reported column is NaN and otherwise the sum of the reported values (an absent column counting 0); where none does, the same holds of the adjusted columns |
| Hours.NoReportedColumnsMeansAdjusted | etl/02_transform_to_parquet.py:151-157 | with no reported column at all, `TOTAL_HPRD` equals `TOTAL_HPRD_ADJ` |
| Hours.MissingReportedCellPoisonsTotal | etl/02_transform_to_parquet.py:139-157 | one reported NaN next to a reported value makes that row's `TOTAL_HPRD` NaN, whatever the adjusted figures |
| Normalise.Cleaned | etl/02_transform_to_parquet.py:100-114 | after renaming, default-fill and cleaning, the table is still all strings and holds the three keys |
| Normalise.Finish | etl/02_transform_to_parquet.py:116-157 | after month, conversion and totals, the month and the three totals exist |
| Normalise.Normalise | etl/02_transform_to_parquet.py:100-157 | the whole transformation keeps the row count, and the output holds the keys, the month and the totals |
| Normalise.FinishKeeps | etl/02_transform_to_parquet.py:116-157 | lines 116-157 leave every column they do not name as it was |
| Normalise.FinishKeepsKeys | etl/02_transform_to_parquet.py:116-157 | in particular the three cleaned key columns reach the output unchanged |
| Normalise.FinishMonth | etl/02_transform_to_parquet.py:128-157 | the staffing and total steps do not touch the month column |
| Normalise.HeaderKept | etl/02_transform_to_parquet.py:100-157 | the output header starts with the canonicalised input header and lists no column twice |
| Normalise.CleanedKeys | etl/02_transform_to_parquet.py:104-114 | after cleaning, every identifier has at least six characters, every name and state is trimmed, and no state has a lower-case letter |
| Normalise.KeysClean | etl/02_transform_to_parquet.py:100-157 | the same holds for every row of the output table |
| Normalise.MonthKnown | etl/02_transform_to_parquet.py:116-130 | for a non-empty input, some output row holds a period, and every row holds a period or Null |
| Normalise.HoursNumeric | etl/02_transform_to_parquet.py:133-157 | every staffing-hour column present in the output, and every total, holds numbers or NaN |
| Frames.Frame.constructor | etl/02_transform_to_parquet.py:66 | the frame starts out as the table read |
| Frames.Frame.SetColumn | etl/02_transform_to_parquet.py:105 | `df[name] = col` in place leaves the frame equal to `Put` of the old frame |
| Frames.Frame.CanonicaliseHeaders | etl/02_transform_to_parquet.py:100-101 | in place, equal to `Canonicalise` of the old frame |
| Frames.Frame.FillDefaults | etl/02_transform_to_parquet.py:104-109 | the three conditional assignments equal `FillDefaults` of the old frame |
| Frames.Frame.CleanFormats | etl/02_transform_to_parquet.py:112-114 | the three assignments equal `CleanFormats` of the old frame |
| Frames.Frame.DeriveMonth | etl/02_transform_to_parquet.py:118-130 | the branches of lines 119-130 equal `DeriveMonth` of the old frame |
| Frames.Frame.ConvertNumeric | etl/02_transform_to_parquet.py:133-136 | the loop over the six columns equals `ConvertNumeric` of the old frame |
| Frames.Frame.BuildTotals | etl/02_transform_to_parquet.py:138-157 | the three assignments, each reading the frame as it then is, equal `BuildTotals` of the old frame |
| Frames.Frame.Run | etl/02_transform_to_parquet.py:100-157 | the blocks of `main` run in order equal `Normalise` of the table read |

## Left out

- Reading and writing files is outside the model: the check for the master file (lines 58-63), `read_csv` (line 66), `os.path.basename` (line 118), and the parquet write and the printed preview (lines 159-167). The table read, and the file name, are inputs.
- The directory constants and the creation of the output directory (lines 9-16) are not part of this model.
- `pd.to_datetime` and `pd.to_numeric` are parameters: any function from a string to an optional date or number. Dates and times are kept only to their year and month.
- Months.Periods: an unparsed date is Null, the value that the check at line 123 expects. pandas would render NaT as the text "NaT" under `astype(str)` at line 121, and that rendering is not modelled. In the code, then, a row whose date does not parse gets the month "NaT"; and when a non-empty `PROCESSING_DATE` column has no date that parses, the check at line 123 does not fire, the file name is not consulted, no fallback happens, and every row's month is "NaT". The model instead keeps such rows Null and, when no date parses, falls back to the file name and then to the fixed period. Months.InferMonthFromDates, Months.MonthFromNameOrFallback, Months.MonthAlwaysKnown and Normalise.MonthKnown state this model behaviour, not the code's.
- Numbers are mathematical reals, so IEEE rounding, infinities and NaN payloads are not modelled. NaN is `Null`.
- Case mapping (`lower`, `upper`) and `\d` cover ASCII only. Letters outside ASCII are left as they are. `strip` uses Python's full whitespace set.
- Normalise.Admissible: the model requires that no two input headers canonicalise to the same name. pandas would then hold two columns under one name, and the later steps would act on both; that case is not modelled.
- Keys.FillDefaults: when `PROVNUM` is absent, line 105 calls `reset_index()`, which raises a ValueError if the header already holds both `index` and `level_0`. The model always synthesises the identifiers and does not model that error.
- PeriodInference.MonthFromFilename: case-insensitive matching is ASCII only. Python's `re.I` also folds some non-ASCII letters onto ASCII ones (the long s `ſ` matches `s`), and then the `month_map` lookup at line 33 raises a KeyError, for example on `x_ſep2024.csv`. That error is not modelled.
- The rest of the repository is not part of this model: downloading extracts, profiling raw files, and building the summary tables.

## Behaviour of the code worth knowing

The model follows the code as written. Some of what it does is easy to miss:

- `zfill(6)` pads identifiers to at least six characters. A longer identifier keeps its length (Keys.ExampleLongId).
- A header already spelt `PROVNUM` (or `PROVNAME`, or any other canonical name except `STATE`) is lower-cased and then no longer recognised. So canonical headers are not kept as they are (Headers.CanonicalSpellingIsNotKept), and a file with a real `PROVNUM` column gets synthesised identifiers in a new column.
- A reported column that is present but NaN on a row, next to another reported value, makes that row's total NaN (Hours.MissingReportedCellPoisonsTotal).
- Without a `PROCESSING_DATE` column, a file name that gives "ALL" is replaced by the fallback period in the post-pass, so "ALL" does not reach the output. In the model this also covers a date column in which no date parses (Months.MonthAlwaysKnown); the code writes "NaT" there instead (see "Months.Periods" under "## Left out").
- In the model, in a date column where some rows parse, rows that do not parse keep a Null month (Months.InferMonthFromDates); the code writes "NaT" for them (see "Months.Periods" under "## Left out").
- Only the first two file-name patterns can ever decide the period (PeriodInference.LaterNumericPatternsUnreachable).
- With no reported column at all, `TOTAL_HPRD_REPORTED` is 0 on every row, not absent.
- A missing `PROVNAME` cell becomes the text "nan" and a missing `STATE` cell becomes "NAN", because `astype(str)` runs before the string operations (Keys.ExampleMissingName, Keys.ExampleMissingState).
