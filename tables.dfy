/** The data frame the normaliser works on, as a value: a header (column
    order), a map from column name to column, and a row count that every
    column shares. Cells are what pandas holds after each step: strings as
    read (`dtype=str`), numbers after `to_numeric`, dates after
    `to_datetime`, and Null for NaN / NaT. */
module Tables {

  /** The year range of a pandas Timestamp. */
  type Year = y: int | 1677 <= y <= 2262 witness 2000
  type MonthOfYear = m: int | 1 <= m <= 12 witness 1

  /** A parsed date, kept only to its month (all that `to_period("M")`
      uses). */
  datatype YearMonth = YearMonth(year: Year, month: MonthOfYear)

  datatype Cell = Null | Str(s: string) | Num(v: real) | Date(ym: YearMonth)

  datatype Table = Table(names: seq<string>, cols: map<string, seq<Cell>>, rows: nat)

  predicate Distinct(xs: seq<string>) {
    forall i, j :: 0 <= i < j < |xs| ==> xs[i] != xs[j]
  }

  /** The header names exactly the columns held, and every column has one
      cell per row. That the header names each column once is the separate
      invariant Distinct(t.names), which every step keeps. */
  predicate WellFormed(t: Table) {
    && (forall n :: n in t.names ==> n in t.cols)
    && (forall n :: n in t.cols ==> n in t.names)
    && (forall n :: n in t.cols ==> |t.cols[n]| == t.rows)
  }

  predicate Has(t: Table, name: string) {
    name in t.cols
  }

  /** A column as `read_csv(dtype=str)` produces it: strings and NaN. */
  predicate IsText(col: seq<Cell>) {
    forall i :: 0 <= i < |col| ==> col[i].Str? || col[i].Null?
  }

  predicate AllText(t: Table) {
    forall n :: n in t.cols ==> IsText(t.cols[n])
  }

  /** Two tables agree on a column (both lack it, or both have it equal). */
  predicate SameColumn(t: Table, u: Table, n: string) {
    (Has(t, n) <==> Has(u, n)) && (Has(t, n) ==> t.cols[n] == u.cols[n])
  }

  /** `df[name] = col`: an existing column is replaced where it stands, a new
      one is appended at the end of the header; nothing else changes. */
  function Put(t: Table, name: string, col: seq<Cell>): (r: Table)
    requires WellFormed(t) && |col| == t.rows
    ensures WellFormed(r) && r.rows == t.rows
    ensures Has(r, name) && r.cols[name] == col
    ensures forall n :: n != name ==> SameColumn(r, t, n)
    ensures Has(t, name) ==> r.names == t.names
    ensures !Has(t, name) ==> r.names == t.names + [name]
  {
    var names := if name in t.cols then t.names else t.names + [name];
    Table(names, t.cols[name := col], t.rows)
  }

  /** The header of r starts with the header of t, and lists no column
      twice if the header of t did not. */
  predicate Extends(t: Table, r: Table) {
    t.names <= r.names && (Distinct(t.names) ==> Distinct(r.names))
  }

  /** Setting a column never lists a column twice in the header. */
  lemma PutExtends(t: Table, name: string, col: seq<Cell>)
    requires WellFormed(t) && |col| == t.rows
    ensures Extends(t, Put(t, name, col))
  {
  }

  lemma ExtendsTransitive(a: Table, b: Table, c: Table)
    requires Extends(a, b) && Extends(b, c)
    ensures Extends(a, c)
  {
  }

  /** `df[name] = scalar`: the same cell on every row. */
  function Filled(c: Cell, rows: nat): (col: seq<Cell>)
    ensures |col| == rows && forall i :: 0 <= i < rows ==> col[i] == c
  {
    seq(rows, _ => c)
  }
}
