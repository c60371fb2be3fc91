/** Lines 133-157 of etl/02_transform_to_parquet.py: the staffing-hour
    columns become numbers, and three totals are added per row. A numeric
    cell is Num(v), or Null for NaN. */
module Hours {
  import opened Wrappers
  import opened Tables

  const RnHprd := "RN_HPRD"
  const LpnHprd := "LPN_HPRD"
  const CnaHprd := "CNA_HPRD"
  const RnHprdAdj := "RN_HPRD_ADJ"
  const LpnHprdAdj := "LPN_HPRD_ADJ"
  const CnaHprdAdj := "CNA_HPRD_ADJ"
  const TotalReported := "TOTAL_HPRD_REPORTED"
  const TotalAdjusted := "TOTAL_HPRD_ADJ"
  const Total := "TOTAL_HPRD"

  /** Line 134, in its order. */
  const HprdColumns := [RnHprd, LpnHprd, CnaHprd, RnHprdAdj, LpnHprdAdj, CnaHprdAdj]
  const ReportedColumns := [RnHprd, LpnHprd, CnaHprd]
  const AdjustedColumns := [RnHprdAdj, LpnHprdAdj, CnaHprdAdj]

  predicate IsHprd(n: string) {
    n in HprdColumns
  }

  predicate IsNumeric(col: seq<Cell>) {
    forall i :: 0 <= i < |col| ==> col[i].Num? || col[i].Null?
  }

  /** Every staffing-hour column that is present holds numbers. */
  predicate HprdNumeric(t: Table) {
    forall n :: n in HprdColumns && Has(t, n) ==> IsNumeric(t.cols[n])
  }

  // ---------- Conversion (lines 133-136) ----------

  /** `pd.to_numeric(..., errors="coerce")` on one cell, with the parser as
      a parameter: text that does not parse, and NaN, become Null. */
  function NumericCell(parse: string -> Option<real>, c: Cell): (r: Cell)
    ensures r.Num? || r.Null?
    ensures c.Null? ==> r.Null?
  {
    if c.Str? && parse(c.s).Some? then Num(parse(c.s).value) else Null
  }

  function NumericColumn(parse: string -> Option<real>, col: seq<Cell>): (r: seq<Cell>)
    ensures |r| == |col| && IsNumeric(r)
    ensures forall i :: 0 <= i < |col| ==> r[i] == NumericCell(parse, col[i])
  {
    seq(|col|, i requires 0 <= i < |col| => NumericCell(parse, col[i]))
  }

  /** One turn of the loop at line 134. */
  function ConvertOne(t: Table, parse: string -> Option<real>, name: string): (r: Table)
    requires WellFormed(t)
    ensures WellFormed(r) && r.rows == t.rows && r.names == t.names
    ensures Has(t, name) ==> Has(r, name) && r.cols[name] == NumericColumn(parse, t.cols[name])
    ensures forall n :: n != name ==> SameColumn(r, t, n)
    ensures !Has(t, name) ==> r == t
  {
    if Has(t, name) then Put(t, name, NumericColumn(parse, t.cols[name])) else t
  }

  /** The table after the first k turns of the loop at line 134. */
  function ConvertPrefix(t: Table, parse: string -> Option<real>, k: nat): (r: Table)
    requires WellFormed(t) && k <= |HprdColumns|
    ensures WellFormed(r) && r.rows == t.rows && r.names == t.names
    ensures forall n :: n !in HprdColumns[..k] ==> SameColumn(r, t, n)
    ensures forall j :: 0 <= j < k && Has(t, HprdColumns[j]) ==>
              Has(r, HprdColumns[j]) && r.cols[HprdColumns[j]] == NumericColumn(parse, t.cols[HprdColumns[j]])
    ensures forall j :: 0 <= j < k ==> (Has(r, HprdColumns[j]) <==> Has(t, HprdColumns[j]))
  {
    if k == 0 then t
    else
      var p := ConvertPrefix(t, parse, k - 1);
      var name := HprdColumns[k - 1];
      assert name !in HprdColumns[..k - 1] by { HprdColumnsDistinct(); }
      assert HprdColumns[..k] == HprdColumns[..k - 1] + [name];
      ConvertOne(p, parse, name)
  }

  /** One more turn of the loop at line 134. */
  lemma ConvertPrefixStep(t: Table, parse: string -> Option<real>, k: nat)
    requires WellFormed(t) && k < |HprdColumns|
    ensures ConvertPrefix(t, parse, k + 1) == ConvertOne(ConvertPrefix(t, parse, k), parse, HprdColumns[k])
  {
  }

  lemma ConvertPrefixAll(t: Table, parse: string -> Option<real>)
    requires WellFormed(t)
    ensures ConvertPrefix(t, parse, |HprdColumns|) == ConvertNumeric(t, parse)
  {
  }

  lemma HprdColumnsDistinct()
    ensures Distinct(HprdColumns)
  {
    assert |RnHprd| == 7 && |LpnHprd| == 8 && |CnaHprd| == 8;
    assert |RnHprdAdj| == 11 && |LpnHprdAdj| == 12 && |CnaHprdAdj| == 12;
    assert LpnHprd[0] != CnaHprd[0] && LpnHprdAdj[0] != CnaHprdAdj[0];
  }

  /** Lines 133-136: every staffing-hour column present is parsed to
      numbers; nothing else changes, and no column is added. */
  function ConvertNumeric(t: Table, parse: string -> Option<real>): (r: Table)
    requires WellFormed(t)
    ensures WellFormed(r) && r.rows == t.rows && r.names == t.names
    ensures forall n :: !IsHprd(n) ==> SameColumn(r, t, n)
    ensures forall n :: IsHprd(n) ==> (Has(r, n) <==> Has(t, n))
    ensures forall n :: IsHprd(n) && Has(t, n) ==> r.cols[n] == NumericColumn(parse, t.cols[n])
    ensures HprdNumeric(r)
  {
    assert HprdColumns[..|HprdColumns|] == HprdColumns;
    ConvertPrefix(t, parse, |HprdColumns|)
  }

  // ---------- Totals (lines 138-157) ----------

  /** `(df[name] if name in df.columns else 0)` on row i. */
  function Operand(t: Table, name: string, i: nat): Cell
    requires WellFormed(t) && i < t.rows
  {
    if Has(t, name) then t.cols[name][i] else Num(0.0)
  }

  /** pandas `+`: NaN on either side gives NaN. */
  function Add(a: Cell, b: Cell): (r: Cell)
    ensures r.Num? <==> a.Num? && b.Num?
    ensures r.Num? ==> r.v == a.v + b.v
  {
    if a.Num? && b.Num? then Num(a.v + b.v) else Null
  }

  /** `a + b + c` over the three columns named, on row i. */
  function Sum3(t: Table, names: seq<string>, i: nat): Cell
    requires WellFormed(t) && |names| == 3 && i < t.rows
  {
    var a := Operand(t, names[0], i);
    var b := Operand(t, names[1], i);
    var c := Operand(t, names[2], i);
    Add(Add(a, b), c)
  }

  function SumColumn(t: Table, names: seq<string>): (r: seq<Cell>)
    requires WellFormed(t) && |names| == 3
    ensures |r| == t.rows && forall i :: 0 <= i < t.rows ==> r[i] == Sum3(t, names, i)
  {
    seq(t.rows, i requires 0 <= i < t.rows => Sum3(t, names, i))
  }

  /** `pd.notna(df.get(name, np.nan))` on row i: an absent column is NaN. */
  predicate NotNa(t: Table, name: string, i: nat)
    requires WellFormed(t) && i < t.rows
  {
    Has(t, name) && !t.cols[name][i].Null?
  }

  predicate AnyReported(t: Table, i: nat)
    requires WellFormed(t) && i < t.rows
  {
    NotNa(t, RnHprd, i) || NotNa(t, LpnHprd, i) || NotNa(t, CnaHprd, i)
  }

  /** Lines 151-157, `np.where(...)` row by row. */
  function ChooseColumn(t: Table, reported: seq<Cell>, adjusted: seq<Cell>): (r: seq<Cell>)
    requires WellFormed(t) && |reported| == t.rows && |adjusted| == t.rows
    ensures |r| == t.rows
    ensures forall i :: 0 <= i < t.rows ==> r[i] == if AnyReported(t, i) then reported[i] else adjusted[i]
  {
    seq(t.rows, i requires 0 <= i < t.rows => if AnyReported(t, i) then reported[i] else adjusted[i])
  }

  lemma TotalNamesDiffer()
    ensures TotalReported != TotalAdjusted && TotalReported != Total && TotalAdjusted != Total
    ensures forall n :: IsHprd(n) ==> n != TotalReported && n != TotalAdjusted && n != Total
  {
    assert |TotalReported| == 19 && |TotalAdjusted| == 14 && |Total| == 10;
    assert TotalAdjusted[6] != RnHprdAdj[6] && TotalAdjusted[6] != LpnHprdAdj[6];
    assert TotalAdjusted[6] != CnaHprdAdj[6];
  }

  /** A sum reads only its three columns. */
  lemma SumColumnAgrees(t: Table, u: Table, names: seq<string>)
    requires WellFormed(t) && WellFormed(u) && t.rows == u.rows && |names| == 3
    requires SameColumn(t, u, names[0]) && SameColumn(t, u, names[1]) && SameColumn(t, u, names[2])
    ensures SumColumn(t, names) == SumColumn(u, names)
  {
    var a := SumColumn(t, names);
    var b := SumColumn(u, names);
    forall i | 0 <= i < t.rows ensures a[i] == b[i] {
      OperandAgrees(t, u, names[0], i);
      OperandAgrees(t, u, names[1], i);
      OperandAgrees(t, u, names[2], i);
    }
    SameCells(a, b);
  }

  lemma SameCells(a: seq<Cell>, b: seq<Cell>)
    requires |a| == |b| && forall i :: 0 <= i < |a| ==> a[i] == b[i]
    ensures a == b
  {
  }

  lemma OperandAgrees(t: Table, u: Table, name: string, i: nat)
    requires WellFormed(t) && WellFormed(u) && i < t.rows == u.rows && SameColumn(t, u, name)
    ensures Operand(t, name, i) == Operand(u, name, i)
  {
  }

  /** The choice reads only the reported columns. */
  lemma ChooseColumnAgrees(t: Table, u: Table, reported: seq<Cell>, adjusted: seq<Cell>)
    requires WellFormed(t) && WellFormed(u) && t.rows == u.rows
    requires |reported| == t.rows && |adjusted| == t.rows
    requires SameColumn(t, u, RnHprd) && SameColumn(t, u, LpnHprd) && SameColumn(t, u, CnaHprd)
    ensures ChooseColumn(t, reported, adjusted) == ChooseColumn(u, reported, adjusted)
  {
    forall i | 0 <= i < t.rows ensures AnyReported(t, i) == AnyReported(u, i) {
    }
  }

  /** Lines 139-157: the reported and adjusted sums and the chosen total
      are set; every other column is left alone. */
  function BuildTotals(t: Table): (r: Table)
    requires WellFormed(t)
    ensures WellFormed(r) && r.rows == t.rows
    ensures Has(r, TotalReported) && Has(r, TotalAdjusted) && Has(r, Total)
    ensures r.cols[TotalReported] == SumColumn(t, ReportedColumns)
    ensures r.cols[TotalAdjusted] == SumColumn(t, AdjustedColumns)
    ensures r.cols[Total] == ChooseColumn(t, SumColumn(t, ReportedColumns), SumColumn(t, AdjustedColumns))
    ensures forall n :: n != TotalReported && n != TotalAdjusted && n != Total ==> SameColumn(r, t, n)
  {
    TotalNamesDiffer();
    var reported := SumColumn(t, ReportedColumns);
    var t1 := Put(t, TotalReported, reported);
    SumColumnAgrees(t1, t, AdjustedColumns);
    var adjusted := SumColumn(t1, AdjustedColumns);
    var t2 := Put(t1, TotalAdjusted, adjusted);
    assert t2.cols[TotalReported] == reported;
    assert SameColumn(t2, t1, RnHprd) && SameColumn(t2, t1, LpnHprd) && SameColumn(t2, t1, CnaHprd);
    ChooseColumnAgrees(t2, t, reported, adjusted);
    var r := Put(t2, Total, ChooseColumn(t2, t2.cols[TotalReported], t2.cols[TotalAdjusted]));
    assert forall n :: n != TotalReported && n != TotalAdjusted && n != Total ==> SameColumn(r, t, n) by {
      forall n | n != TotalReported && n != TotalAdjusted && n != Total ensures SameColumn(r, t, n) {
        assert SameColumn(r, t2, n) && SameColumn(t2, t1, n) && SameColumn(t1, t, n);
      }
    }
    r
  }

  /** Lines 139-157 only append to the header, and never a name twice. */
  lemma BuildTotalsExtends(t: Table)
    requires WellFormed(t)
    ensures Extends(t, BuildTotals(t))
  {
    TotalNamesDiffer();
    var reported := SumColumn(t, ReportedColumns);
    var t1 := Put(t, TotalReported, reported);
    var adjusted := SumColumn(t1, AdjustedColumns);
    var t2 := Put(t1, TotalAdjusted, adjusted);
    var r := Put(t2, Total, ChooseColumn(t2, t2.cols[TotalReported], t2.cols[TotalAdjusted]));
    assert r == BuildTotals(t);
    PutExtends(t, TotalReported, reported);
    PutExtends(t1, TotalAdjusted, adjusted);
    PutExtends(t2, Total, ChooseColumn(t2, t2.cols[TotalReported], t2.cols[TotalAdjusted]));
    ExtendsTransitive(t, t1, t2);
    ExtendsTransitive(t, t2, r);
  }

  // ---------- What the totals hold ----------

  /** The totals are numbers or NaN, and the staffing-hour columns are left
      numeric. */
  lemma BuildTotalsNumeric(t: Table)
    requires WellFormed(t) && HprdNumeric(t)
    ensures var r := BuildTotals(t);
            && HprdNumeric(r) && IsNumeric(r.cols[TotalReported])
            && IsNumeric(r.cols[TotalAdjusted]) && IsNumeric(r.cols[Total])
  {
    BuildTotalsKeepsHprd(t);
    var reported, adjusted := SumColumn(t, ReportedColumns), SumColumn(t, AdjustedColumns);
    SumColumnNumeric(t, ReportedColumns);
    SumColumnNumeric(t, AdjustedColumns);
    ChooseColumnNumeric(t, reported, adjusted);
  }

  lemma BuildTotalsKeepsHprd(t: Table)
    requires WellFormed(t) && HprdNumeric(t)
    ensures HprdNumeric(BuildTotals(t))
  {
    var r := BuildTotals(t);
    TotalNamesDiffer();
    SameHprdNumeric(r, t);
  }

  lemma SameHprdNumeric(r: Table, t: Table)
    requires HprdNumeric(t) && forall n :: IsHprd(n) ==> SameColumn(r, t, n)
    ensures HprdNumeric(r)
  {
    forall n | n in HprdColumns && Has(r, n) ensures IsNumeric(r.cols[n]) {
      assert IsHprd(n) && SameColumn(r, t, n);
    }
  }

  lemma SumColumnNumeric(t: Table, names: seq<string>)
    requires WellFormed(t) && |names| == 3
    ensures IsNumeric(SumColumn(t, names))
  {
    var s := SumColumn(t, names);
    forall i | 0 <= i < |s| ensures s[i].Num? || s[i].Null? {
      assert s[i] == Sum3(t, names, i);
    }
  }

  lemma ChooseColumnNumeric(t: Table, reported: seq<Cell>, adjusted: seq<Cell>)
    requires WellFormed(t) && |reported| == t.rows && |adjusted| == t.rows
    requires IsNumeric(reported) && IsNumeric(adjusted)
    ensures IsNumeric(ChooseColumn(t, reported, adjusted))
  {
  }

  /** The three named columns, where present, hold numbers. */
  predicate NumericOperands(t: Table, names: seq<string>)
    requires |names| == 3
  {
    forall j :: 0 <= j < 3 && Has(t, names[j]) ==> IsNumeric(t.cols[names[j]])
  }

  /** One operand's contribution to the sum on row i: its value, or 0 for an
      absent column. */
  function Contribution(t: Table, name: string, i: nat): real
    requires WellFormed(t) && i < t.rows
  {
    if Has(t, name) && t.cols[name][i].Num? then t.cols[name][i].v else 0.0
  }

  /** The column is present and NaN on row i. */
  predicate NaNAt(t: Table, name: string, i: nat)
    requires WellFormed(t) && i < t.rows
  {
    Has(t, name) && t.cols[name][i].Null?
  }

  lemma OperandMeaning(t: Table, name: string, i: nat)
    requires WellFormed(t) && i < t.rows && (Has(t, name) ==> IsNumeric(t.cols[name]))
    ensures Operand(t, name, i).Null? <==> NaNAt(t, name, i)
    ensures Operand(t, name, i).Num? || Operand(t, name, i).Null?
    ensures Operand(t, name, i).Num? ==> Operand(t, name, i).v == Contribution(t, name, i)
  {
  }

  /** A row's sum is NaN exactly when one of the present columns is NaN on
      that row; otherwise it adds the present values, an absent column
      counting 0. */
  lemma SumCharacterised(t: Table, names: seq<string>, i: nat)
    requires WellFormed(t) && |names| == 3 && i < t.rows && NumericOperands(t, names)
    ensures Sum3(t, names, i).Null?
            <==> NaNAt(t, names[0], i) || NaNAt(t, names[1], i) || NaNAt(t, names[2], i)
    ensures Sum3(t, names, i).Num? ==>
              Sum3(t, names, i).v
              == Contribution(t, names[0], i) + Contribution(t, names[1], i) + Contribution(t, names[2], i)
  {
    var a, b, c := Operand(t, names[0], i), Operand(t, names[1], i), Operand(t, names[2], i);
    assert Has(t, names[0]) ==> IsNumeric(t.cols[names[0]]);
    assert Has(t, names[1]) ==> IsNumeric(t.cols[names[1]]);
    assert Has(t, names[2]) ==> IsNumeric(t.cols[names[2]]);
    OperandMeaning(t, names[0], i);
    OperandMeaning(t, names[1], i);
    OperandMeaning(t, names[2], i);
    AddThree(a, b, c);
    assert Sum3(t, names, i) == Add(Add(a, b), c);
  }

  /** Adding three numbers-or-NaNs. */
  lemma AddThree(a: Cell, b: Cell, c: Cell)
    requires (a.Num? || a.Null?) && (b.Num? || b.Null?) && (c.Num? || c.Null?)
    ensures Add(Add(a, b), c).Null? <==> a.Null? || b.Null? || c.Null?
    ensures Add(Add(a, b), c).Num? ==> Add(Add(a, b), c).v == a.v + b.v + c.v
  {
  }

  /** `cell` is what `a + b + c` over the three columns named gives on row
      i: NaN exactly when one of the present columns is NaN there, and
      otherwise the sum of the present values. */
  ghost predicate SumMeans(t: Table, names: seq<string>, i: nat, cell: Cell)
    requires WellFormed(t) && |names| == 3 && i < t.rows
  {
    && (cell.Null? <==> NaNAt(t, names[0], i) || NaNAt(t, names[1], i) || NaNAt(t, names[2], i))
    && (cell.Num? ==>
          cell.v == Contribution(t, names[0], i) + Contribution(t, names[1], i) + Contribution(t, names[2], i))
  }

  /** Per row, once the staffing-hour columns are numeric, TOTAL_HPRD is the
      sum of the reported columns where one of them holds a value, and the
      sum of the adjusted columns where none does. */
  lemma TotalChoosesPerRow(t: Table, i: nat)
    requires WellFormed(t) && i < t.rows
    requires NumericOperands(t, ReportedColumns) && NumericOperands(t, AdjustedColumns)
    ensures AnyReported(t, i) ==> SumMeans(t, ReportedColumns, i, BuildTotals(t).cols[Total][i])
    ensures !AnyReported(t, i) ==> SumMeans(t, AdjustedColumns, i, BuildTotals(t).cols[Total][i])
  {
    ChosenSumMeans(t, i, BuildTotals(t).cols[Total]);
  }

  /** The same, for any column equal to the choice `np.where` makes. */
  lemma ChosenSumMeans(t: Table, i: nat, total: seq<Cell>)
    requires WellFormed(t) && i < t.rows
    requires NumericOperands(t, ReportedColumns) && NumericOperands(t, AdjustedColumns)
    requires total == ChooseColumn(t, SumColumn(t, ReportedColumns), SumColumn(t, AdjustedColumns))
    ensures AnyReported(t, i) ==> SumMeans(t, ReportedColumns, i, total[i])
    ensures !AnyReported(t, i) ==> SumMeans(t, AdjustedColumns, i, total[i])
  {
    if AnyReported(t, i) {
      SumMeansSum(t, ReportedColumns, i, total[i]);
    } else {
      SumMeansSum(t, AdjustedColumns, i, total[i]);
    }
  }

  lemma SumMeansSum(t: Table, names: seq<string>, i: nat, c: Cell)
    requires WellFormed(t) && |names| == 3 && i < t.rows && NumericOperands(t, names)
    requires c == Sum3(t, names, i)
    ensures SumMeans(t, names, i, c)
  {
    SumCharacterised(t, names, i);
  }

  /** With no reported column at all, every row takes the adjusted total. */
  lemma NoReportedColumnsMeansAdjusted(t: Table)
    requires WellFormed(t) && !Has(t, RnHprd) && !Has(t, LpnHprd) && !Has(t, CnaHprd)
    ensures BuildTotals(t).cols[Total] == BuildTotals(t).cols[TotalAdjusted]
  {
    var r := BuildTotals(t);
    forall i | 0 <= i < t.rows ensures r.cols[Total][i] == r.cols[TotalAdjusted][i] {
      assert !AnyReported(t, i);
    }
    SameCells(r.cols[Total], r.cols[TotalAdjusted]);
  }

  /** A reported column that is present but NaN on a row makes that row's
      total NaN as soon as another reported value is there, even though the
      adjusted figures may be complete. */
  lemma MissingReportedCellPoisonsTotal(t: Table, i: nat, missing: nat, present: nat)
    requires WellFormed(t) && i < t.rows && NumericOperands(t, ReportedColumns)
    requires missing < 3 && Has(t, ReportedColumns[missing]) && t.cols[ReportedColumns[missing]][i].Null?
    requires present < 3 && NotNa(t, ReportedColumns[present], i)
    ensures BuildTotals(t).cols[Total][i].Null?
  {
    SumCharacterised(t, ReportedColumns, i);
    assert NaNAt(t, ReportedColumns[missing], i);
    assert AnyReported(t, i);
  }
}
