/** The canonical row of a snapshot table after it has been read back from a CSV file, and the table
    itself: a set of columns and a sequence of rows (pandas' positional index is the row's position). */
module Listings {
  import opened Wrappers

  /** A float as pandas holds it in a numeric column: a finite number or an infinity.
      NaN is a missing cell, `None` in an `Option<Ext>`. */
  datatype Ext = Fin(r: real) | PosInf | NegInf

  /** The columns of the scraped CSV files (their header names are in the comments),
      plus the derived `student_draft_ratio`. */
  datatype Column =
    | Id                  // id
    | CompanyNameTh       // company_nameTh   (paginated snapshots)
    | CompanyNameEn       // company_nameEn   (paginated snapshots)
    | CompanyName         // company_name     (detail snapshots)
    | PositionTitle       // position_title
    | Quota               // quota
    | SalaryAmount        // salary_amount
    | SalaryType          // salary_type
    | WorkType            // work_type
    | Location            // location
    | StartDate           // Start Date       (paginated snapshots)
    | EndDate             // End Date         (paginated snapshots)
    | InStudentDraftCount // inStudentDraftCount (paginated snapshots)
    | Tags                // tags
    | DescriptionHtml     // description_html
    | ApiUrl              // api_url
    | StudentDraftRatio   // student_draft_ratio (added by the dashboard)

  /** One row; a missing cell (NaN) is `None`. Numeric cells are floats, as `read_csv` gives them. */
  datatype Listing = Listing(
    id: Option<int>,
    companyNameTh: Option<string>,
    companyNameEn: Option<string>,
    companyName: Option<string>,
    positionTitle: Option<string>,
    quota: Option<real>,
    salaryAmount: Option<real>,
    salaryType: Option<string>,
    workType: Option<string>,
    location: Option<string>,
    startDate: Option<string>,
    endDate: Option<string>,
    inStudentDraftCount: Option<real>,
    tags: Option<string>,
    descriptionHtml: Option<string>,
    apiUrl: Option<string>,
    studentDraftRatio: Option<Ext>)

  /** A DataFrame: its column labels, its rows in index order, and whether pandas holds its
      `salary_type` column as text (object dtype) rather than as floats. */
  datatype Table = Table(columns: set<Column>, rows: seq<Listing>, textSalaryType: bool)

  /** `pd.DataFrame()`: no columns, no rows. */
  const EmptyTable := Table({}, [], false)

  /** Some row has a `salary_type` string. */
  predicate HasSalaryType(rows: seq<Listing>) {
    exists i :: 0 <= i < |rows| && rows[i].salaryType.Some?
  }

  /** The dtype `read_csv` gives `salary_type`: text when the column holds a string, and also when
      the file has a header but no rows; floats (all NaN) when every cell is empty. */
  predicate ReadDtype(t: Table) {
    t.textSalaryType <==> SalaryType in t.columns && (t.rows == [] || HasSalaryType(t.rows))
  }

  /** The row has a value (not NaN) in column `c`. */
  predicate Present(r: Listing, c: Column) {
    match c
    case Id => r.id.Some?
    case CompanyNameTh => r.companyNameTh.Some?
    case CompanyNameEn => r.companyNameEn.Some?
    case CompanyName => r.companyName.Some?
    case PositionTitle => r.positionTitle.Some?
    case Quota => r.quota.Some?
    case SalaryAmount => r.salaryAmount.Some?
    case SalaryType => r.salaryType.Some?
    case WorkType => r.workType.Some?
    case Location => r.location.Some?
    case StartDate => r.startDate.Some?
    case EndDate => r.endDate.Some?
    case InStudentDraftCount => r.inStudentDraftCount.Some?
    case Tags => r.tags.Some?
    case DescriptionHtml => r.descriptionHtml.Some?
    case ApiUrl => r.apiUrl.Some?
    case StudentDraftRatio => r.studentDraftRatio.Some?
  }

  /** Rows hold values only in the table's own columns (a column the table lacks reads as NaN
      everywhere once another table with that column is concatenated). */
  ghost predicate Conforms(t: Table) {
    forall i, c :: 0 <= i < |t.rows| && c !in t.columns ==> !Present(t.rows[i], c)
  }

  /** The header of a CSV written by the paginated scraper. */
  const PaginatedColumns: set<Column> :=
    {Id, CompanyNameTh, CompanyNameEn, PositionTitle, Quota, SalaryAmount, SalaryType, WorkType,
     Location, StartDate, EndDate, InStudentDraftCount, Tags, DescriptionHtml, ApiUrl}

  /** The header of a CSV written by the detail scraper. */
  const DetailColumns: set<Column> :=
    {Id, CompanyName, PositionTitle, Quota, SalaryAmount, SalaryType, WorkType, Location, Tags,
     DescriptionHtml, ApiUrl}

  /** Detail snapshots name the company differently and carry no applicant count or dates. */
  lemma SchemasDiffer()
    ensures DetailColumns - PaginatedColumns == {CompanyName}
    ensures PaginatedColumns - DetailColumns == {CompanyNameTh, CompanyNameEn, StartDate, EndDate, InStudentDraftCount}
  {
  }
}
