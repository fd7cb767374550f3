/** The bookmark tab: the work-type choices offered, the previous choices kept, the rows that pass
    the filters and the ids handed to the bookmarking call. */
module Filtering {
  import opened Wrappers
  import opened Text
  import opened Sorting
  import opened Listings

  // ---------------------------------------------------------------------------
  // Sequences of strings: distinct elements and subsequences
  // ---------------------------------------------------------------------------

  ghost predicate NoDuplicates<T>(s: seq<T>) {
    forall i, j :: 0 <= i < j < |s| ==> s[i] != s[j]
  }

  /** `a` is `b` with some elements left out, the rest in their order. */
  predicate Subsequence<T(==)>(a: seq<T>, b: seq<T>) {
    a == [] || (b != [] && if a[0] == b[0] then Subsequence(a[1..], b[1..]) else Subsequence(a, b[1..]))
  }

  /** `Series.unique()`: each value once, where it first occurs. */
  function Unique(s: seq<string>): (u: seq<string>)
    ensures NoDuplicates(u)
    ensures forall x :: x in u <==> x in s
  {
    if s == [] then []
    else
      var front := Unique(s[..|s| - 1]);
      assert forall x :: x in s <==> x in s[..|s| - 1] || x == s[|s| - 1];
      if s[|s| - 1] in front then front else front + [s[|s| - 1]]
  }

  lemma {:induction false} CountAtMostOne(s: seq<string>, x: string)
    requires NoDuplicates(s)
    ensures multiset(s)[x] <= 1
  {
    if s != [] {
      var last := s[|s| - 1];
      assert s == s[..|s| - 1] + [last];
      assert NoDuplicates(s[..|s| - 1]);
      CountAtMostOne(s[..|s| - 1], x);
      if x == last {
        assert x !in s[..|s| - 1];
      }
    }
  }

  /** Rearranging a sequence without duplicates gives one without duplicates. */
  lemma PermutationKeepsNoDuplicates(a: seq<string>, b: seq<string>)
    requires multiset(a) == multiset(b) && NoDuplicates(b)
    ensures NoDuplicates(a)
  {
    forall i, j | 0 <= i < j < |a| ensures a[i] != a[j] {
      if a[i] == a[j] {
        var x := a[i];
        assert a == a[..j] + a[j..];
        assert x in a[..j] && x in a[j..];
        assert multiset(a)[x] == multiset(a[..j])[x] + multiset(a[j..])[x];
        CountAtMostOne(b, x);
        assert false;
      }
    }
  }

  // ---------------------------------------------------------------------------
  // Work-type options and the previous selection
  // ---------------------------------------------------------------------------

  /** `df['work_type'].dropna()`, in row order. */
  function PresentWorkTypes(rows: seq<Listing>): (w: seq<string>)
    ensures forall x :: x in w <==> exists i :: 0 <= i < |rows| && rows[i].workType == Some(x)
  {
    if rows == [] then []
    else
      var front := PresentWorkTypes(rows[..|rows| - 1]);
      assert forall i :: 0 <= i < |rows| - 1 ==> rows[..|rows| - 1][i] == rows[i];
      match rows[|rows| - 1].workType
      case Some(x) => front + [x]
      case None => front
  }

  /** `sorted(df['work_type'].dropna().unique().tolist())`, or the `KeyError` of a table without
      the column. */
  function WorkTypeOptions(t: Table): Result<seq<string>, Column> {
    if WorkType !in t.columns then Failure(WorkType)
    else Success(Sort(Unique(PresentWorkTypes(t.rows)), StrLe))
  }

  /** The options are in ascending order, each once, and are exactly the work types some row has. */
  lemma WorkTypeOptionsExact(t: Table)
    requires WorkType in t.columns
    ensures var options := WorkTypeOptions(t).value;
      && (forall i, j :: 0 <= i < j < |options| ==> StrLe(options[i], options[j]) && options[i] != options[j])
      && (forall x :: x in options <==> exists i :: 0 <= i < |t.rows| && t.rows[i].workType == Some(x))
  {
    var u := Unique(PresentWorkTypes(t.rows));
    var options := Sort(u, StrLe);
    StrLeTotal();
    SortSorted(u, StrLe);
    PermutationKeepsNoDuplicates(options, u);
    forall x ensures x in options <==> x in u {
      assert x in options <==> x in multiset(options);
    }
  }

  /** The previous selection, filtered to the choices still offered. */
  function ValidDefaults(previous: seq<string>, options: seq<string>): (r: seq<string>) {
    if previous == [] then []
    else
      var rest := ValidDefaults(previous[1..], options);
      if previous[0] in options then [previous[0]] + rest else rest
  }

  /** The kept selections are, in their order, exactly the previous ones that are still options. */
  lemma {:induction false} ValidDefaultsExact(previous: seq<string>, options: seq<string>)
    ensures Subsequence(ValidDefaults(previous, options), previous)
    ensures forall x :: x in ValidDefaults(previous, options) <==> x in previous && x in options
  {
    if previous != [] {
      ValidDefaultsExact(previous[1..], options);
      assert forall x :: x in previous <==> x == previous[0] || x in previous[1..];
      var rest := ValidDefaults(previous[1..], options);
      if previous[0] !in options {
        SubsequenceOfTail(rest, previous);
      }
    }
  }

  /** A subsequence of the tail is a subsequence of the whole. */
  lemma {:induction false} SubsequenceOfTail<T>(a: seq<T>, b: seq<T>)
    requires b != [] && Subsequence(a, b[1..])
    ensures Subsequence(a, b)
    decreases |b|, 0
  {
    if a != [] && a[0] == b[0] {
      SubsequenceDropFirst(a, b[1..]);
    }
  }

  /** Dropping the first element of a subsequence keeps it a subsequence. */
  lemma {:induction false} SubsequenceDropFirst<T>(a: seq<T>, c: seq<T>)
    requires a != [] && Subsequence(a, c)
    ensures Subsequence(a[1..], c)
    decreases |c|, 1
  {
    if a[0] == c[0] {
      if a[1..] != [] {
        SubsequenceOfTail(a[1..], c);
      }
    } else {
      SubsequenceDropFirst(a, c[1..]);
      if a[1..] != [] {
        SubsequenceOfTail(a[1..], c);
      }
    }
  }

  // ---------------------------------------------------------------------------
  // The filters
  // ---------------------------------------------------------------------------

  /** The filter inputs: the slider, the two salary bounds and the chosen work types. */
  datatype Settings = Settings(maxRatio: real, minSalary: real, maxSalary: real, workTypes: seq<string>)

  /** The values the tab starts with. */
  const DefaultSettings := Settings(2.0, 150.0, 400.0, [])

  /** `ratio <= maxRatio` on a float: NaN and `+inf` fail, `-inf` passes. */
  predicate RatioAtMost(ratio: Option<Ext>, maxRatio: real) {
    match ratio
    case None => false
    case Some(Fin(x)) => x <= maxRatio
    case Some(PosInf) => false
    case Some(NegInf) => true
  }

  /** `min <= amount <= max` on a float: a missing amount fails both. */
  predicate SalaryWithin(amount: Option<real>, minSalary: real, maxSalary: real) {
    amount.Some? && minSalary <= amount.value <= maxSalary
  }

  /** A row passes: its ratio and salary are within the bounds and, when work types are chosen,
      its work type is one of them (`isin` never matches a missing value). */
  predicate Passes(r: Listing, s: Settings) {
    && RatioAtMost(r.studentDraftRatio, s.maxRatio)
    && SalaryWithin(r.salaryAmount, s.minSalary, s.maxSalary)
    && (s.workTypes != [] ==> r.workType.Some? && r.workType.value in s.workTypes)
  }

  function Keep(rows: seq<Listing>, s: Settings): seq<Listing> {
    if rows == [] then []
    else if Passes(rows[0], s) then [rows[0]] + Keep(rows[1..], s)
    else Keep(rows[1..], s)
  }

  /** With the starting values a ratio of 1.5 and 300 baht a day pass; 500 baht a day, an infinite
      ratio (a quota of zero) and a missing salary do not, and no work type is required. */
  lemma DefaultSettingsExample()
    ensures var r := Listing(None, None, None, None, None, None, Some(300.0), None, None, None, None, None,
                             None, None, None, None, Some(Fin(1.5)));
      && Passes(r, DefaultSettings)
      && !Passes(r.(salaryAmount := Some(500.0)), DefaultSettings)
      && !Passes(r.(studentDraftRatio := Some(PosInf)), DefaultSettings)
      && !Passes(r.(salaryAmount := None), DefaultSettings)
      && Keep([r, r.(salaryAmount := Some(500.0))], DefaultSettings) == [r]
  {
    var r := Listing(None, None, None, None, None, None, Some(300.0), None, None, None, None, None,
                     None, None, None, None, Some(Fin(1.5)));
    var rows := [r, r.(salaryAmount := Some(500.0))];
    assert rows[1..] == [r.(salaryAmount := Some(500.0))] && rows[1..][1..] == [];
    assert Keep(rows[1..], DefaultSettings) == [];
    assert Keep(rows, DefaultSettings) == [r] + Keep(rows[1..], DefaultSettings);
  }

  /** The rows kept are the passing rows, in their order: a subsequence of the table holding every
      row that passes and no other. */
  lemma {:induction false} KeepExact(rows: seq<Listing>, s: Settings)
    ensures Subsequence(Keep(rows, s), rows)
    ensures forall r :: r in Keep(rows, s) <==> r in rows && Passes(r, s)
    ensures |Keep(rows, s)| <= |rows|
  {
    if rows != [] {
      KeepExact(rows[1..], s);
      assert forall r :: r in rows <==> r == rows[0] || r in rows[1..];
      if !Passes(rows[0], s) {
        SubsequenceOfTail(Keep(rows[1..], s), rows);
      }
    }
  }

  /** The filtered table, or the `KeyError` of the first column the filter reads that is missing. */
  function FilterRows(t: Table, s: Settings): Result<seq<Listing>, Column> {
    if StudentDraftRatio !in t.columns then Failure(StudentDraftRatio)
    else if SalaryAmount !in t.columns then Failure(SalaryAmount)
    else if s.workTypes != [] && WorkType !in t.columns then Failure(WorkType)
    else Success(Keep(t.rows, s))
  }

  /** With no work type chosen the work-type column is not read and does not narrow the result. */
  lemma {:induction false} NoWorkTypeChosenKeepsAllTypes(rows: seq<Listing>, s: Settings)
    requires s.workTypes == []
    ensures forall r :: r in Keep(rows, s) <==>
      r in rows && RatioAtMost(r.studentDraftRatio, s.maxRatio) && SalaryWithin(r.salaryAmount, s.minSalary, s.maxSalary)
  {
    KeepExact(rows, s);
  }

  /** Choosing work types only removes rows. */
  lemma {:induction false} ChoosingWorkTypesNarrows(rows: seq<Listing>, s: Settings)
    ensures Subsequence(Keep(rows, s), Keep(rows, s.(workTypes := [])))
  {
    if rows != [] {
      ChoosingWorkTypesNarrows(rows[1..], s);
      var all := s.(workTypes := []);
      if Passes(rows[0], all) && !Passes(rows[0], s) {
        SubsequenceOfTail(Keep(rows[1..], s), Keep(rows, all));
      }
    }
  }

  // ---------------------------------------------------------------------------
  // Bookmarking
  // ---------------------------------------------------------------------------

  /** `filtered_df['id'].tolist()` */
  function BookmarkIds(rows: seq<Listing>): (ids: seq<Option<int>>)
    ensures |ids| == |rows|
  {
    seq(|rows|, i requires 0 <= i < |rows| => rows[i].id)
  }

  /** What the bookmark button does. */
  datatype BookmarkAction =
    | BlankCookie           // ❌ Please enter a valid COOKIE value!
    | NothingToBookmark     // ⚠️ No positions to bookmark!
    | Bookmark(ids: seq<Option<int>>)

  function OnBookmarkClick(cookie: string, ids: seq<Option<int>>): BookmarkAction {
    if Strip(cookie) == "" then BlankCookie
    else if ids == [] then NothingToBookmark
    else Bookmark(ids)
  }

  /** The call is made only with a cookie that is not all white space and a non-empty id list,
      and it receives the filtered ids as they are. */
  lemma OnBookmarkClickExact(cookie: string, ids: seq<Option<int>>)
    ensures OnBookmarkClick(cookie, ids).BlankCookie? <==>
      forall i :: 0 <= i < |cookie| ==> IsPythonSpace(cookie[i])
    ensures OnBookmarkClick(cookie, ids).NothingToBookmark? <==>
      (exists i :: 0 <= i < |cookie| && !IsPythonSpace(cookie[i])) && ids == []
    ensures OnBookmarkClick(cookie, ids).Bookmark? ==>
      OnBookmarkClick(cookie, ids).ids == ids != [] && exists i :: 0 <= i < |cookie| && !IsPythonSpace(cookie[i])
  {
    StripEmptyIffBlank(cookie);
  }

  /** What the tab computes from the merged table. */
  datatype View = View(options: seq<string>, defaults: seq<string>, filtered: seq<Listing>, ids: seq<Option<int>>)

  /** The tab's logic: the options, the kept previous choices, the filtered rows and their ids.
      `s.workTypes` is what the user leaves selected in the work-type box. */
  function BookmarkTab(t: Table, previous: seq<string>, s: Settings): (r: Result<View, Column>) {
    match WorkTypeOptions(t)
    case Failure(c) => Failure(c)
    case Success(options) =>
      match FilterRows(t, s)
      case Failure(c) => Failure(c)
      case Success(rows) =>
        if Id !in t.columns then Failure(Id)
        else Success(View(options, ValidDefaults(previous, options), rows, BookmarkIds(rows)))
  }

  /** On success, the ids are those of the passing rows in table order, and each kept default is
      a work type present in the table. */
  lemma BookmarkTabExact(t: Table, previous: seq<string>, s: Settings)
    requires BookmarkTab(t, previous, s).Success?
    ensures var v := BookmarkTab(t, previous, s).value;
      && Subsequence(v.filtered, t.rows)
      && (forall r :: r in v.filtered <==> r in t.rows && Passes(r, s))
      && |v.ids| == |v.filtered| <= |t.rows|
      && (forall i :: 0 <= i < |v.ids| ==> v.ids[i] == v.filtered[i].id)
      && (forall x :: x in v.defaults <==> x in previous && exists i :: 0 <= i < |t.rows| && t.rows[i].workType == Some(x))
  {
    KeepExact(t.rows, s);
    WorkTypeOptionsExact(t);
    ValidDefaultsExact(previous, WorkTypeOptions(t).value);
  }
}
