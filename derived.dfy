/** The derived-metrics step the dashboard applies to the merged table in place: default the
    applicant count and the quota, add `student_draft_ratio`, and turn monthly and lump-sum
    salaries into per-day amounts (divide by 22 working days, round half to even). */
module Derived {
  import opened Wrappers
  import opened Text
  import opened Listings
  import Merge

  /** `salary_type` markers of a monthly and of a lump-sum salary. */
  const MonthlyPattern: string := "บาท/เดือน"
  const LumpSumPattern: string := "เหมาจ่าย"

  /** Working days a monthly or lump-sum salary is spread over. */
  const WorkingDaysPerMonth: real := 22.0

  /** `fillna` values: no applicants recorded means none, no quota recorded means one place. */
  const DefaultDraftCount: real := 0.0
  const DefaultQuota: real := 1.0

  // ---------------------------------------------------------------------------
  // Float operations the step relies on
  // ---------------------------------------------------------------------------

  /** `k` is `x` rounded to the nearest integer, a tie going to the even neighbour. */
  predicate IsRoundHalfEven(x: real, k: int) {
    && -0.5 <= k as real - x <= 0.5
    && ((k as real - x == 0.5 || x - k as real == 0.5) ==> k % 2 == 0)
  }

  /** `Series.round(0)`, which rounds half to even as numpy does. */
  function RoundHalfEven(x: real): (k: int)
    ensures IsRoundHalfEven(x, k)
  {
    var f := x.Floor;
    var d := x - f as real;
    if d < 0.5 then f
    else if d > 0.5 then f + 1
    else if f % 2 == 0 then f
    else f + 1
  }

  /** Only one integer is `x` rounded half to even. */
  lemma RoundHalfEvenUnique(x: real, k: int)
    requires IsRoundHalfEven(x, k)
    ensures k == RoundHalfEven(x)
  {
  }

  /** Float division of two finite numbers: a quotient, an infinity for a non-zero number over
      zero, and NaN (`None`) for zero over zero. */
  function Divide(a: real, b: real): (r: Option<Ext>)
    ensures r.None? <==> a == 0.0 && b == 0.0
    ensures r == Some(PosInf) <==> b == 0.0 && a > 0.0
    ensures r == Some(NegInf) <==> b == 0.0 && a < 0.0
    ensures r.Some? && r.value.Fin? ==> b != 0.0 && r.value.r * b == a
  {
    if b != 0.0 then Some(Fin(a / b))
    else if a > 0.0 then Some(PosInf)
    else if a < 0.0 then Some(NegInf)
    else None
  }

  /** The rescaling mask: `salary_type` contains either marker. `case=False` changes nothing for
      these markers, whose characters have no upper or lower case; a missing type never matches. */
  predicate PaidPerMonth(salaryType: Option<string>) {
    salaryType.Some? && (Contains(salaryType.value, MonthlyPattern) || Contains(salaryType.value, LumpSumPattern))
  }

  // ---------------------------------------------------------------------------
  // The statements of the step, each as a function of the rows
  // ---------------------------------------------------------------------------

  /** `df['inStudentDraftCount'] = df['inStudentDraftCount'].fillna(0)` */
  function FillDraftCounts(rows: seq<Listing>): (r: seq<Listing>)
    ensures |r| == |rows|
  {
    seq(|rows|, i requires 0 <= i < |rows| =>
      rows[i].(inStudentDraftCount := Some(rows[i].inStudentDraftCount.GetOr(DefaultDraftCount))))
  }

  /** `df['quota'] = df['quota'].fillna(1)` */
  function FillQuotas(rows: seq<Listing>): (r: seq<Listing>)
    ensures |r| == |rows|
  {
    seq(|rows|, i requires 0 <= i < |rows| => rows[i].(quota := Some(rows[i].quota.GetOr(DefaultQuota))))
  }

  /** `df['student_draft_ratio'] = df['inStudentDraftCount'] / df['quota']` */
  function AddRatios(rows: seq<Listing>): (r: seq<Listing>)
    ensures |r| == |rows|
  {
    seq(|rows|, i requires 0 <= i < |rows| =>
      rows[i].(studentDraftRatio := Divide(rows[i].inStudentDraftCount.GetOr(DefaultDraftCount),
                                           rows[i].quota.GetOr(DefaultQuota))))
  }

  /** `df.loc[mask, 'salary_amount'] = df.loc[mask, 'salary_amount'] / 22` */
  function DivideSalaries(rows: seq<Listing>): (r: seq<Listing>)
    ensures |r| == |rows|
  {
    seq(|rows|, i requires 0 <= i < |rows| =>
      if PaidPerMonth(rows[i].salaryType) && rows[i].salaryAmount.Some?
      then rows[i].(salaryAmount := Some(rows[i].salaryAmount.value / WorkingDaysPerMonth))
      else rows[i])
  }

  /** `df.loc[mask, 'salary_amount'] = df.loc[mask, 'salary_amount'].round(0)` */
  function RoundSalaries(rows: seq<Listing>): (r: seq<Listing>)
    ensures |r| == |rows|
  {
    seq(|rows|, i requires 0 <= i < |rows| =>
      if PaidPerMonth(rows[i].salaryType) && rows[i].salaryAmount.Some?
      then rows[i].(salaryAmount := Some(RoundHalfEven(rows[i].salaryAmount.value) as real))
      else rows[i])
  }

  /** Why the step stops: a `KeyError` for a missing column, or the `AttributeError` of `.str`
      on a `salary_type` column that pandas holds as floats. */
  datatype DeriveError = MissingColumn(column: Column) | NoTextValues(column: Column)

  /** The table after the step, changed up to the statement that raised, and the error if one did. */
  datatype Derivation = Derivation(table: Table, error: Option<DeriveError>)

  /** The whole step, statement by statement. */
  function Derive(t: Table): Derivation {
    if InStudentDraftCount !in t.columns then Derivation(t, Some(MissingColumn(InStudentDraftCount)))
    else
      var filled := FillDraftCounts(t.rows);
      var text := t.textSalaryType;
      if Quota !in t.columns then Derivation(Table(t.columns, filled, text), Some(MissingColumn(Quota)))
      else
        var withRatio := AddRatios(FillQuotas(filled));
        var columns := t.columns + {StudentDraftRatio};
        if SalaryType !in columns then Derivation(Table(columns, withRatio, text), Some(MissingColumn(SalaryType)))
        else if !text then Derivation(Table(columns, withRatio, text), Some(NoTextValues(SalaryType)))
        else if SalaryAmount !in columns then Derivation(Table(columns, withRatio, text), Some(MissingColumn(SalaryAmount)))
        else Derivation(Table(columns, RoundSalaries(DivideSalaries(withRatio)), text), None)
  }

  // ---------------------------------------------------------------------------
  // The merged table, changed in place
  // ---------------------------------------------------------------------------

  /** `merged_df`, the DataFrame the step mutates (the session keeps a reference to the same object). */
  class Frame {
    var columns: set<Column>
    var rows: seq<Listing>
    var textSalaryType: bool

    constructor (t: Table)
      ensures columns == t.columns && rows == t.rows && textSalaryType == t.textSalaryType
    {
      columns := t.columns;
      rows := t.rows;
      textSalaryType := t.textSalaryType;
    }

    function Snapshot(): Table
      reads this
    {
      Table(columns, rows, textSalaryType)
    }

    /** Runs the derived-metrics statements in order; a statement that raises leaves the frame as
        the earlier statements left it. */
    method AddDerivedMetrics() returns (err: Option<DeriveError>)
      modifies this
      ensures Derivation(Snapshot(), err) == Derive(old(Snapshot()))
    {
      if InStudentDraftCount !in columns {
        return Some(MissingColumn(InStudentDraftCount));
      }
      rows := FillDraftCounts(rows);
      if Quota !in columns {
        return Some(MissingColumn(Quota));
      }
      rows := FillQuotas(rows);
      rows := AddRatios(rows);
      columns := columns + {StudentDraftRatio};
      if SalaryType !in columns {
        return Some(MissingColumn(SalaryType));
      }
      if !textSalaryType {
        return Some(NoTextValues(SalaryType));
      }
      if SalaryAmount !in columns {
        return Some(MissingColumn(SalaryAmount));
      }
      rows := DivideSalaries(rows);
      rows := RoundSalaries(rows);
      err := None;
    }
  }

  // ---------------------------------------------------------------------------
  // What the step does to one row
  // ---------------------------------------------------------------------------

  /** One row after every statement of the step. */
  function DerivedRow(r: Listing): Listing {
    var count := r.inStudentDraftCount.GetOr(DefaultDraftCount);
    var quota := r.quota.GetOr(DefaultQuota);
    var amount :=
      if PaidPerMonth(r.salaryType) && r.salaryAmount.Some?
      then Some(RoundHalfEven(r.salaryAmount.value / WorkingDaysPerMonth) as real)
      else r.salaryAmount;
    r.(inStudentDraftCount := Some(count), quota := Some(quota), studentDraftRatio := Divide(count, quota),
       salaryAmount := amount)
  }

  /** The step on a table with all its columns: every row becomes `DerivedRow` of itself, the
      ratio column is added and nothing fails. */
  lemma DeriveComplete(t: Table)
    requires {InStudentDraftCount, Quota, SalaryType, SalaryAmount} <= t.columns
    requires t.textSalaryType
    ensures Derive(t).error == None
    ensures Derive(t).table.columns == t.columns + {StudentDraftRatio}
    ensures |Derive(t).table.rows| == |t.rows|
    ensures forall i :: 0 <= i < |t.rows| ==> Derive(t).table.rows[i] == DerivedRow(t.rows[i])
  {
    var withRatio := AddRatios(FillQuotas(FillDraftCounts(t.rows)));
    assert Derive(t).table.rows == RoundSalaries(DivideSalaries(withRatio));
    forall i | 0 <= i < |t.rows| ensures Derive(t).table.rows[i] == DerivedRow(t.rows[i]) {
      StatementsAt(t.rows, i);
    }
  }

  /** Row `i` after all five statements is `DerivedRow` of row `i`. */
  lemma StatementsAt(rows: seq<Listing>, i: int)
    requires 0 <= i < |rows|
    ensures RoundSalaries(DivideSalaries(AddRatios(FillQuotas(FillDraftCounts(rows)))))[i] == DerivedRow(rows[i])
  {
    var r := rows[i];
    var filled := FillDraftCounts(rows);
    assert filled[i].salaryType == r.salaryType && filled[i].salaryAmount == r.salaryAmount;
    var quotas := FillQuotas(filled);
    var withRatio := AddRatios(quotas);
    assert withRatio[i].salaryType == r.salaryType && withRatio[i].salaryAmount == r.salaryAmount;
  }

  /** A row keeps its id and every column the step does not write; missing counts and quotas get
      their defaults and present ones are kept. */
  lemma DerivedRowKeepsIdentity(r: Listing)
    ensures DerivedRow(r).(inStudentDraftCount := r.inStudentDraftCount, quota := r.quota,
                           salaryAmount := r.salaryAmount, studentDraftRatio := r.studentDraftRatio) == r
    ensures DerivedRow(r).id == r.id
    ensures r.inStudentDraftCount.Some? ==> DerivedRow(r).inStudentDraftCount == r.inStudentDraftCount
    ensures r.inStudentDraftCount.None? ==> DerivedRow(r).inStudentDraftCount == Some(0.0)
    ensures r.quota.Some? ==> DerivedRow(r).quota == r.quota
    ensures r.quota.None? ==> DerivedRow(r).quota == Some(1.0)
  {
  }

  /** Every row gets a ratio of its (defaulted) count over its (defaulted) quota. A missing quota
      counts as one place, so the ratio is then the applicant count itself; only an explicit quota of
      zero gives an infinity, or NaN when there are no applicants either. */
  lemma RatioOfDerivedRow(r: Listing)
    ensures var d := DerivedRow(r);
      && (r.quota != Some(0.0) <==>
           d.studentDraftRatio.Some? && d.studentDraftRatio.value.Fin?
           && d.studentDraftRatio.value.r * d.quota.value == d.inStudentDraftCount.value)
      && (r.quota.None? ==> d.studentDraftRatio == Some(Fin(r.inStudentDraftCount.GetOr(0.0))))
      && (d.studentDraftRatio.None? <==> r.quota == Some(0.0) && r.inStudentDraftCount.GetOr(0.0) == 0.0)
      && (d.studentDraftRatio == Some(PosInf) <==> r.quota == Some(0.0) && r.inStudentDraftCount.GetOr(0.0) > 0.0)
  {
  }

  /** Only monthly and lump-sum rows are rescaled; a rescaled amount is the per-day amount rounded
      half to even, and a missing amount stays missing. */
  lemma SalaryOfDerivedRow(r: Listing)
    ensures var d := DerivedRow(r);
      && (!PaidPerMonth(r.salaryType) ==> d.salaryAmount == r.salaryAmount)
      && (d.salaryAmount.Some? <==> r.salaryAmount.Some?)
      && (PaidPerMonth(r.salaryType) && r.salaryAmount.Some? ==>
           d.salaryAmount == Some(RoundHalfEven(r.salaryAmount.value / 22.0) as real))
  {
  }

  // ---------------------------------------------------------------------------
  // What the step does to a table
  // ---------------------------------------------------------------------------

  /** The step succeeds exactly when the four columns it reads exist and pandas holds
      `salary_type` as text; the error names the first statement that fails. */
  lemma DeriveFailsExactly(t: Table)
    ensures Derive(t).error == Some(MissingColumn(InStudentDraftCount)) <==> InStudentDraftCount !in t.columns
    ensures Derive(t).error == Some(MissingColumn(Quota)) <==>
      InStudentDraftCount in t.columns && Quota !in t.columns
    ensures Derive(t).error == Some(MissingColumn(SalaryType)) <==>
      {InStudentDraftCount, Quota} <= t.columns && SalaryType !in t.columns
    ensures Derive(t).error == Some(NoTextValues(SalaryType)) <==>
      {InStudentDraftCount, Quota, SalaryType} <= t.columns && !t.textSalaryType
    ensures Derive(t).error == Some(MissingColumn(SalaryAmount)) <==>
      {InStudentDraftCount, Quota, SalaryType} <= t.columns && t.textSalaryType && SalaryAmount !in t.columns
    ensures Derive(t).error.None? <==>
      {InStudentDraftCount, Quota, SalaryType, SalaryAmount} <= t.columns && t.textSalaryType
  {
  }

  /** Whatever happens, the step keeps the number of rows, their order and their ids. */
  lemma DeriveKeepsRows(t: Table)
    ensures |Derive(t).table.rows| == |t.rows|
    ensures forall i :: 0 <= i < |t.rows| ==> Derive(t).table.rows[i].id == t.rows[i].id
    ensures t.columns <= Derive(t).table.columns <= t.columns + {StudentDraftRatio}
  {
  }

  /** Tables from the detail scraper alone, and the empty table of a merge that loaded nothing,
      have no `inStudentDraftCount`: the step fails on its first statement and changes nothing. */
  lemma DetailOnlyCannotDerive(t: Table)
    requires t.columns <= DetailColumns
    ensures Derive(t) == Derivation(t, Some(MissingColumn(InStudentDraftCount)))
  {
  }

  /** The columns of a concatenation are those of its parts. */
  lemma {:induction false} ConcatColumnsWithin(tables: seq<Table>, allowed: set<Column>)
    requires forall i :: 0 <= i < |tables| ==> tables[i].columns <= allowed
    ensures Merge.Concat(tables).columns <= allowed
  {
    if tables != [] {
      ConcatColumnsWithin(tables[..|tables| - 1], allowed);
    }
  }

  /** Merging only detail snapshots (or nothing) and then deriving always stops at the first
      statement, with the merged table as it was. */
  lemma DetailMergeCannotDerive(paths: seq<string>, disk: map<string, Merge.FileState>)
    requires forall p :: p in disk && disk[p].Csv? ==> disk[p].table.columns <= DetailColumns
    requires Merge.MergeResult(paths, disk).Success?
    ensures Derive(Merge.MergeResult(paths, disk).value).error == Some(MissingColumn(InStudentDraftCount))
  {
    var tables := Merge.LoadedTables(paths, disk);
    LoadedWithin(paths, disk, DetailColumns);
    ConcatColumnsWithin(tables, DetailColumns);
  }

  /** A merge of files as `read_csv` types them, with the four columns the step reads, derives
      without error as soon as one loaded row has a `salary_type` string, whether or not
      deduplication keeps that row. */
  lemma MergedTableDerives(paths: seq<string>, disk: map<string, Merge.FileState>)
    requires forall p :: p in disk && disk[p].Csv? ==> ReadDtype(disk[p].table) && Conforms(disk[p].table)
    requires Merge.MergeResult(paths, disk).Success?
    requires {InStudentDraftCount, Quota, SalaryType, SalaryAmount} <= Merge.MergeResult(paths, disk).value.columns
    requires HasSalaryType(Merge.Concat(Merge.LoadedTables(paths, disk)).rows)
    ensures Derive(Merge.MergeResult(paths, disk).value).error == None
  {
    Merge.MergedSalaryTypeText(paths, disk);
  }

  lemma {:induction false} LoadedWithin(paths: seq<string>, disk: map<string, Merge.FileState>, allowed: set<Column>)
    requires forall p :: p in disk && disk[p].Csv? ==> disk[p].table.columns <= allowed
    ensures forall i :: 0 <= i < |Merge.LoadedTables(paths, disk)| ==> Merge.LoadedTables(paths, disk)[i].columns <= allowed
  {
    if paths != [] {
      LoadedWithin(paths[..|paths| - 1], disk, allowed);
    }
  }

  // ---------------------------------------------------------------------------
  // Worked examples
  // ---------------------------------------------------------------------------

  const Blank := Listing(None, None, None, None, None, None, None, None, None, None, None, None, None,
                         None, None, None, None)

  /** A snapshot in which listing 1 first has a monthly salary and later no salary type: only the
      later row survives deduplication, yet `salary_type` stays text and the step runs. */
  lemma SupersededSalaryTypeExample()
    ensures var older := Blank.(id := Some(1), salaryType := Some(MonthlyPattern));
      var newer := Blank.(id := Some(1));
      var t := Table(PaginatedColumns, [older, newer], true);
      var disk := map["jobs.csv" := Merge.Csv(t)];
      && ReadDtype(t)
      && Merge.MergeResult(["jobs.csv"], disk) == Success(Table(PaginatedColumns, [newer], true))
      && Derive(Merge.MergeResult(["jobs.csv"], disk).value).error == None
  {
    var older := Blank.(id := Some(1), salaryType := Some(MonthlyPattern));
    var newer := Blank.(id := Some(1));
    var t := Table(PaginatedColumns, [older, newer], true);
    var disk := map["jobs.csv" := Merge.Csv(t)];
    assert t.rows[0].salaryType.Some?;
    assert Merge.LoadedTables(["jobs.csv"], disk) == [t];
    assert Merge.Concat([t]) == Table(PaginatedColumns, [older, newer], true);
    assert [older, newer][1..] == [newer] && [newer][1..] == [];
    assert older.id in Merge.Ids([newer]);
    assert Merge.KeepLast([newer]) == [newer];
    assert Merge.KeepLast([older, newer]) == [newer];
  }

  /** 22 000 baht a month is 1 000 baht a day; a per-day salary is left alone. */
  lemma MonthlySalaryExample()
    ensures DerivedRow(Blank.(salaryType := Some(MonthlyPattern), salaryAmount := Some(22000.0))).salaryAmount
      == Some(1000.0)
    ensures DerivedRow(Blank.(salaryType := Some("บาท/วัน"), salaryAmount := Some(300.0))).salaryAmount
      == Some(300.0)
  {
    var r := Blank.(salaryType := Some(MonthlyPattern), salaryAmount := Some(22000.0));
    assert OccursAt(MonthlyPattern, MonthlyPattern, 0);
    ContainsIff(MonthlyPattern, MonthlyPattern);
    RoundHalfEvenUnique(1000.0, 1000);
    var s := "บาท/วัน";
    assert !Contains(s, MonthlyPattern) && !Contains(s, LumpSumPattern) by {
      ContainsIff(s, MonthlyPattern);
      ContainsIff(s, LumpSumPattern);
    }
  }

  /** Ties go to the even neighbour: 11 baht a month is 0.5 a day and rounds to 0, 33 (1.5 a day)
      rounds to 2, and 55 (2.5 a day) also rounds to 2. */
  lemma HalfToEvenExample()
    ensures RoundHalfEven(11.0 / 22.0) == 0
    ensures RoundHalfEven(33.0 / 22.0) == 2
    ensures RoundHalfEven(55.0 / 22.0) == 2
  {
    RoundHalfEvenUnique(0.5, 0);
    RoundHalfEvenUnique(1.5, 2);
    RoundHalfEvenUnique(2.5, 2);
  }

  /** The step is not idempotent: running it again on a monthly row divides by 22 once more. */
  lemma DeriveTwiceRescalesTwice()
    ensures var r := Blank.(salaryType := Some(MonthlyPattern), salaryAmount := Some(22000.0));
      DerivedRow(DerivedRow(r)).salaryAmount == Some(45.0)
  {
    MonthlySalaryExample();
    var r := Blank.(salaryType := Some(MonthlyPattern), salaryAmount := Some(22000.0));
    assert PaidPerMonth(DerivedRow(r).salaryType) by {
      assert OccursAt(MonthlyPattern, MonthlyPattern, 0);
      ContainsIff(MonthlyPattern, MonthlyPattern);
    }
    RoundHalfEvenUnique(1000.0 / 22.0, 45);
  }
}
