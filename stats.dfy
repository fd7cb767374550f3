/** The arithmetic of `log_data_stats`: coerce a column to numbers, keep the values that are present
    and strictly positive, and summarise them (count, min, max, mean, median, modes, quartiles with
    pandas' default linear interpolation, interquartile range and Tukey fences). */
module Stats {
  import opened Wrappers
  import opened Listings
  import opened Sorting

  /** One cell of a column before `pd.to_numeric`: missing, already a number, or text. */
  datatype Cell = Missing | Number(x: Ext) | Text(s: string)

  /** `pd.to_numeric(..., errors='coerce')` on one cell. `parse` is pandas' reading of text as a
      number (`None` where it gives NaN). */
  function Coerce(c: Cell, parse: string -> Option<Ext>): Option<Ext> {
    match c
    case Missing => None
    case Number(x) => Some(x)
    case Text(s) => parse(s)
  }

  /** `valid > 0` on a float that is not NaN: positive numbers and `+inf`. */
  predicate IsPositive(e: Ext) {
    (e.Fin? && e.r > 0.0) || e.PosInf?
  }

  /** `dropna()` then `valid[valid > 0]`, keeping the order of the column. */
  function ValidValues(cells: seq<Cell>, parse: string -> Option<Ext>): seq<Ext> {
    if cells == [] then []
    else
      var rest := ValidValues(cells[1..], parse);
      match Coerce(cells[0], parse)
      case Some(e) => if IsPositive(e) then [e] + rest else rest
      case None => rest
  }

  /** The cell at `i` coerces to a value that `valid > 0` keeps. */
  predicate KeptAt(cells: seq<Cell>, parse: string -> Option<Ext>, i: int)
    requires 0 <= i < |cells|
  {
    Coerce(cells[i], parse).Some? && IsPositive(Coerce(cells[i], parse).value)
  }

  /** `valid` is read off the cells at the ascending positions `at`, which are all the kept ones. */
  ghost predicate ReadAt(cells: seq<Cell>, parse: string -> Option<Ext>, valid: seq<Ext>, at: seq<int>) {
    && |at| == |valid|
    && (forall j :: 0 <= j < |at| ==> 0 <= at[j] < |cells| && Coerce(cells[at[j]], parse) == Some(valid[j]))
    && (forall j, k :: 0 <= j < k < |at| ==> at[j] < at[k])
    && (forall i :: 0 <= i < |cells| && KeptAt(cells, parse, i) ==> i in at)
  }

  /** The positions `at`, one cell further on. */
  function Shift(at: seq<int>): (r: seq<int>)
    ensures |r| == |at| && forall j :: 0 <= j < |at| ==> r[j] == at[j] + 1
  {
    seq(|at|, j requires 0 <= j < |at| => at[j] + 1)
  }

  /** Positions read off the cells after the first are, shifted by one, positions in all the cells
      that account for every kept cell after the first. */
  lemma ReadAtShift(cells: seq<Cell>, parse: string -> Option<Ext>, rest: seq<Ext>, at: seq<int>)
    requires cells != [] && ReadAt(cells[1..], parse, rest, at)
    ensures |Shift(at)| == |rest|
    ensures forall j :: 0 <= j < |at| ==> 1 <= Shift(at)[j] < |cells| && Coerce(cells[Shift(at)[j]], parse) == Some(rest[j])
    ensures forall j, k :: 0 <= j < k < |at| ==> Shift(at)[j] < Shift(at)[k]
    ensures forall i :: 1 <= i < |cells| && KeptAt(cells, parse, i) ==> i in Shift(at)
  {
    var shifted := Shift(at);
    forall j | 0 <= j < |at| ensures Coerce(cells[shifted[j]], parse) == Some(rest[j]) {
      assert cells[shifted[j]] == cells[1..][at[j]];
    }
    forall i | 1 <= i < |cells| && KeptAt(cells, parse, i) ensures i in shifted {
      assert cells[i] == cells[1..][i - 1];
      assert KeptAt(cells[1..], parse, i - 1);
      var j :| 0 <= j < |at| && at[j] == i - 1;
      assert shifted[j] == i;
    }
  }

  /** A first cell that is not kept adds no position. */
  lemma ReadAtSkip(cells: seq<Cell>, parse: string -> Option<Ext>, rest: seq<Ext>, at: seq<int>)
    requires cells != [] && ReadAt(cells[1..], parse, rest, at)
    requires !KeptAt(cells, parse, 0)
    ensures ReadAt(cells, parse, rest, Shift(at))
  {
    ReadAtShift(cells, parse, rest, at);
  }

  /** A first cell that is kept adds position 0 in front. */
  lemma ReadAtTake(cells: seq<Cell>, parse: string -> Option<Ext>, rest: seq<Ext>, at: seq<int>)
    requires cells != [] && ReadAt(cells[1..], parse, rest, at)
    requires KeptAt(cells, parse, 0)
    ensures ReadAt(cells, parse, [Coerce(cells[0], parse).value] + rest, [0] + Shift(at))
  {
    ReadAtShift(cells, parse, rest, at);
    var shifted := Shift(at);
    var full := [0] + shifted;
    var valid := [Coerce(cells[0], parse).value] + rest;
    forall j | 0 <= j < |full|
      ensures 0 <= full[j] < |cells| && Coerce(cells[full[j]], parse) == Some(valid[j])
    {
      if j > 0 {
        assert full[j] == shifted[j - 1] && valid[j] == rest[j - 1];
      }
    }
    forall j, k | 0 <= j < k < |full| ensures full[j] < full[k] {
      assert full[k] == shifted[k - 1];
      if j > 0 {
        assert full[j] == shifted[j - 1];
      }
    }
    forall i | 0 <= i < |cells| && KeptAt(cells, parse, i) ensures i in full {
      if i > 0 {
        assert i in shifted;
      }
    }
  }

  /** `valid` holds the coerced values that are present and strictly positive, each as often as
      it occurs and in the order of the column. */
  lemma {:induction false} ValidValuesExact(cells: seq<Cell>, parse: string -> Option<Ext>)
    ensures |ValidValues(cells, parse)| <= |cells|
    ensures forall e :: e in ValidValues(cells, parse) ==> IsPositive(e)
    ensures exists at :: ReadAt(cells, parse, ValidValues(cells, parse), at)
  {
    if cells == [] {
      assert ReadAt(cells, parse, ValidValues(cells, parse), []);
    } else {
      ValidValuesExact(cells[1..], parse);
      var rest := ValidValues(cells[1..], parse);
      var at :| ReadAt(cells[1..], parse, rest, at);
      if KeptAt(cells, parse, 0) {
        assert ValidValues(cells, parse) == [Coerce(cells[0], parse).value] + rest;
        ReadAtTake(cells, parse, rest, at);
      } else {
        assert ValidValues(cells, parse) == rest;
        ReadAtSkip(cells, parse, rest, at);
      }
    }
  }

  /** The cells of column `c`, as `df[c]` holds them. */
  function ColumnCells(rows: seq<Listing>, c: Column): (cells: seq<Cell>)
    ensures |cells| == |rows|
  {
    seq(|rows|, i requires 0 <= i < |rows| => CellOf(rows[i], c))
  }

  function NumberCell(v: Option<real>): Cell {
    match v
    case Some(x) => Number(Fin(x))
    case None => Missing
  }

  function TextCell(v: Option<string>): Cell {
    match v
    case Some(s) => Text(s)
    case None => Missing
  }

  function CellOf(r: Listing, c: Column): Cell {
    match c
    case Id => (match r.id case Some(n) => Number(Fin(n as real)) case None => Missing)
    case Quota => NumberCell(r.quota)
    case SalaryAmount => NumberCell(r.salaryAmount)
    case InStudentDraftCount => NumberCell(r.inStudentDraftCount)
    case StudentDraftRatio => (match r.studentDraftRatio case Some(e) => Number(e) case None => Missing)
    case CompanyNameTh => TextCell(r.companyNameTh)
    case CompanyNameEn => TextCell(r.companyNameEn)
    case CompanyName => TextCell(r.companyName)
    case PositionTitle => TextCell(r.positionTitle)
    case SalaryType => TextCell(r.salaryType)
    case WorkType => TextCell(r.workType)
    case Location => TextCell(r.location)
    case StartDate => TextCell(r.startDate)
    case EndDate => TextCell(r.endDate)
    case Tags => TextCell(r.tags)
    case DescriptionHtml => TextCell(r.descriptionHtml)
    case ApiUrl => TextCell(r.apiUrl)
  }

  // ---------------------------------------------------------------------------
  // Order statistics and averages over a non-empty sequence of numbers
  // ---------------------------------------------------------------------------

  function Min(s: seq<real>): (m: real)
    requires |s| > 0
    ensures m in s && forall x :: x in s ==> m <= x
  {
    if |s| == 1 then s[0]
    else
      var m := Min(s[1..]);
      assert forall x :: x in s ==> x == s[0] || x in s[1..];
      if s[0] <= m then s[0] else m
  }

  function Max(s: seq<real>): (m: real)
    requires |s| > 0
    ensures m in s && forall x :: x in s ==> x <= m
  {
    if |s| == 1 then s[0]
    else
      var m := Max(s[1..]);
      assert forall x :: x in s ==> x == s[0] || x in s[1..];
      if s[0] >= m then s[0] else m
  }

  function Sum(s: seq<real>): real {
    if s == [] then 0.0 else s[0] + Sum(s[1..])
  }

  function Mean(s: seq<real>): real
    requires |s| > 0
  {
    Sum(s) / (|s| as real)
  }

  /** `x` added to itself `n` times. */
  function Repeat(n: nat, x: real): real {
    if n == 0 then 0.0 else x + Repeat(n - 1, x)
  }

  lemma {:induction false} RepeatIsProduct(n: nat, x: real)
    ensures Repeat(n, x) == (n as real) * x
  {
    if n > 0 {
      RepeatIsProduct(n - 1, x);
      assert (n as real) * x == ((n - 1) as real) * x + x;
    }
  }

  /** A sum of `n` values lies between `n` copies of their lower and of their upper bound. */
  lemma {:induction false} SumBetweenRepeats(s: seq<real>, lo: real, hi: real)
    requires forall x :: x in s ==> lo <= x <= hi
    ensures Repeat(|s|, lo) <= Sum(s) <= Repeat(|s|, hi)
  {
    if s != [] {
      assert forall x :: x in s[1..] ==> x in s;
      SumBetweenRepeats(s[1..], lo, hi);
      assert s[0] in s;
    }
  }

  /** A sum of `n` values lies between `n` times their lower and upper bounds. */
  lemma SumBetween(s: seq<real>, lo: real, hi: real)
    requires forall x :: x in s ==> lo <= x <= hi
    ensures (|s| as real) * lo <= Sum(s) <= (|s| as real) * hi
  {
    SumBetweenRepeats(s, lo, hi);
    RepeatIsProduct(|s|, lo);
    RepeatIsProduct(|s|, hi);
  }

  /** The mean of values within bounds is within the same bounds. */
  lemma MeanWithin(s: seq<real>, lo: real, hi: real)
    requires |s| > 0
    requires forall x :: x in s ==> lo <= x <= hi
    ensures lo <= Mean(s) <= hi
  {
    SumBetween(s, lo, hi);
    DivideBounds(Sum(s), |s| as real, lo, hi);
  }

  /** The mean lies between the minimum and the maximum. */
  lemma MeanBetweenMinAndMax(s: seq<real>)
    requires |s| > 0
    ensures Min(s) <= Mean(s) <= Max(s)
  {
    MeanWithin(s, Min(s), Max(s));
  }

  /** Dividing `n * lo <= x <= n * hi` by a positive `n`. */
  lemma DivideBounds(x: real, n: real, lo: real, hi: real)
    requires n > 0.0 && n * lo <= x <= n * hi
    ensures lo <= x / n <= hi
  {
    var m := x / n;
    assert x == m * n;
    if m < lo {
      MultiplyMonotone(m, lo, n);
    }
    if m > hi {
      MultiplyMonotone(hi, m, n);
    }
  }

  /** Multiplying by a positive number keeps a strict order. */
  lemma MultiplyMonotone(a: real, b: real, n: real)
    requires a < b && n > 0.0
    ensures a * n < b * n
  {
    assert b * n - a * n == (b - a) * n;
  }

  /** Scaling a non-negative number by factors in order keeps the order. */
  lemma ScaleMonotone(f1: real, f2: real, d: real)
    requires f1 <= f2 && d >= 0.0
    ensures f1 * d <= f2 * d && d * f1 <= d * f2
  {
    assert f2 * d - f1 * d == (f2 - f1) * d;
  }

  // ---------------------------------------------------------------------------
  // Quartiles: pandas' default linear interpolation at position (n - 1) * k / 4
  // ---------------------------------------------------------------------------

  /** Where quartile `k` (0 to 4; 2 is the median) falls among `n` sorted values: the index
      below it, and how many quarters of the way to the next value. */
  datatype Position = Position(below: nat, quarters: nat)

  function QuartilePosition(n: nat, k: nat): (pos: Position)
    requires n > 0 && k <= 4
    ensures pos.below < n && pos.quarters < 4
    ensures 4 * pos.below + pos.quarters == (n - 1) * k
    ensures pos.quarters > 0 ==> pos.below + 1 < n
  {
    var w := (n - 1) * k;
    assert w <= (n - 1) * 4;
    Position(w / 4, w % 4)
  }

  /** The fraction `quarters / 4` of the way from one value to the next. */
  function Fraction(quarters: nat): (f: real)
    requires quarters < 4
    ensures 0.0 <= f <= 1.0
  {
    quarters as real / 4.0
  }

  /** The point the fraction `f` of the way from `a` to `b`. */
  function Interpolate(a: real, b: real, f: real): real {
    a + f * (b - a)
  }

  /** `Series.quantile(k / 4)` over the values `sorted`, already in ascending order:
      `sorted[i] + f * (sorted[i + 1] - sorted[i])` at position `i + f`. */
  function Quartile(sorted: seq<real>, k: nat): real
    requires |sorted| > 0 && k <= 4
  {
    var pos := QuartilePosition(|sorted|, k);
    if pos.quarters == 0 then sorted[pos.below]
    else Interpolate(sorted[pos.below], sorted[pos.below + 1], Fraction(pos.quarters))
  }

  /** Every earlier value is at most every later one. */
  ghost predicate Ascending(s: seq<real>) {
    forall i, j :: 0 <= i < j < |s| ==> s[i] <= s[j]
  }

  /** What `Sort` guarantees under `RealLe` is `Ascending`. */
  lemma SortedAscending(s: seq<real>)
    requires Sorted(s, RealLe)
    ensures Ascending(s)
  {
    forall i, j | 0 <= i < j < |s| ensures s[i] <= s[j] {
      assert RealLe(s[i], s[j]);
    }
  }

  /** `a + f * (b - a)` for `0 <= f <= 1` lies between `a` and `b`. */
  lemma InterpolateBetween(a: real, b: real, f: real)
    requires a <= b && 0.0 <= f <= 1.0
    ensures a <= Interpolate(a, b, f) <= b
  {
    ScaleMonotone(0.0, f, b - a);
    ScaleMonotone(f, 1.0, b - a);
  }

  /** `a + f * (b - a)` grows with `f` when `a <= b`. */
  lemma InterpolateMonotone(a: real, b: real, f1: real, f2: real)
    requires a <= b && f1 <= f2
    ensures Interpolate(a, b, f1) <= Interpolate(a, b, f2)
  {
    ScaleMonotone(f1, f2, b - a);
  }

  /** A quartile lies between the two neighbouring values it interpolates, hence between the
      smallest and the largest value. */
  lemma QuartileBetween(sorted: seq<real>, k: nat)
    requires |sorted| > 0 && k <= 4
    requires Ascending(sorted)
    ensures sorted[QuartilePosition(|sorted|, k).below] <= Quartile(sorted, k)
    ensures QuartilePosition(|sorted|, k).quarters > 0 ==>
      Quartile(sorted, k) <= sorted[QuartilePosition(|sorted|, k).below + 1]
    ensures sorted[0] <= Quartile(sorted, k) <= sorted[|sorted| - 1]
  {
    var n := |sorted|;
    var pos := QuartilePosition(n, k);
    var i := pos.below;
    assert sorted[0] <= sorted[i];
    if pos.quarters > 0 {
      var a, b := sorted[i], sorted[i + 1];
      assert a <= b <= sorted[n - 1];
      InterpolateBetween(a, b, Fraction(pos.quarters));
    }
  }

  /** A higher quartile is at least as large as a lower one. */
  lemma QuartileMonotone(sorted: seq<real>, k1: nat, k2: nat)
    requires |sorted| > 0 && k1 <= k2 <= 4
    requires Ascending(sorted)
    ensures Quartile(sorted, k1) <= Quartile(sorted, k2)
  {
    var n := |sorted|;
    var pos1 := QuartilePosition(n, k1);
    var pos2 := QuartilePosition(n, k2);
    assert (n - 1) * k1 <= (n - 1) * k2 by {
      assert (n - 1) * k2 - (n - 1) * k1 == (n - 1) * (k2 - k1);
    }
    assert pos1.below <= pos2.below;
    QuartileBetween(sorted, k1);
    QuartileBetween(sorted, k2);
    if pos1.below == pos2.below {
      if pos1.quarters > 0 {
        var a, b := sorted[pos1.below], sorted[pos1.below + 1];
        assert Fraction(pos1.quarters) <= Fraction(pos2.quarters);
        InterpolateMonotone(a, b, Fraction(pos1.quarters), Fraction(pos2.quarters));
      }
    } else if pos1.below + 1 < pos2.below {
      assert sorted[pos1.below + 1] <= sorted[pos2.below];
    }
  }

  // ---------------------------------------------------------------------------
  // Modes: every value reaching the highest frequency, ascending
  // ---------------------------------------------------------------------------

  function CountOf(s: seq<real>, v: real): nat {
    multiset(s)[v]
  }

  /** The highest number of times any of `candidates` occurs in `s`. */
  function HighestCount(candidates: seq<real>, s: seq<real>): (m: nat)
    ensures forall v :: v in candidates ==> CountOf(s, v) <= m
    ensures candidates != [] ==> exists v :: v in candidates && CountOf(s, v) == m
  {
    if candidates == [] then 0
    else
      var m := HighestCount(candidates[1..], s);
      assert forall v :: v in candidates ==> v == candidates[0] || v in candidates[1..];
      if CountOf(s, candidates[0]) >= m then CountOf(s, candidates[0]) else m
  }

  /** The frequency of the most frequent value. */
  function MaxFrequency(s: seq<real>): nat {
    HighestCount(s, s)
  }

  /** The values of an ascending sequence, each once. */
  function Distinct(sorted: seq<real>): seq<real> {
    if |sorted| <= 1 then sorted
    else if sorted[0] == sorted[1] then Distinct(sorted[1..])
    else [sorted[0]] + Distinct(sorted[1..])
  }

  ghost predicate StrictlyAscending(s: seq<real>) {
    forall i, j :: 0 <= i < j < |s| ==> s[i] < s[j]
  }

  lemma {:induction false} DistinctAscending(sorted: seq<real>)
    requires Ascending(sorted)
    ensures StrictlyAscending(Distinct(sorted))
    ensures forall v :: v in Distinct(sorted) <==> v in sorted
  {
    if |sorted| > 1 {
      assert Ascending(sorted[1..]) by {
        forall i, j | 0 <= i < j < |sorted[1..]| ensures sorted[1..][i] <= sorted[1..][j] {
          assert sorted[i + 1] <= sorted[j + 1];
        }
      }
      DistinctAscending(sorted[1..]);
      assert forall v :: v in sorted <==> v == sorted[0] || v in sorted[1..];
      if sorted[0] != sorted[1] {
        var d := Distinct(sorted[1..]);
        forall k | 0 <= k < |d| ensures sorted[0] < d[k] {
          assert d[k] in sorted[1..];
          var j :| 0 <= j < |sorted[1..]| && sorted[1..][j] == d[k];
          assert sorted[0] <= sorted[j + 1];
        }
      }
    }
  }

  /** The values of `vs` that occur exactly `f` times in `s`, in the order of `vs`. */
  function WithFrequency(vs: seq<real>, s: seq<real>, f: nat): (r: seq<real>)
    ensures forall v :: v in r <==> v in vs && CountOf(s, v) == f
    ensures StrictlyAscending(vs) ==> StrictlyAscending(r)
  {
    if vs == [] then []
    else
      var rest := WithFrequency(vs[1..], s, f);
      assert forall v :: v in vs <==> v == vs[0] || v in vs[1..];
      assert StrictlyAscending(vs) ==> StrictlyAscending(vs[1..]) by {
        if StrictlyAscending(vs) {
          forall i, j | 0 <= i < j < |vs[1..]| ensures vs[1..][i] < vs[1..][j] {
            assert vs[i + 1] < vs[j + 1];
          }
        }
      }
      if CountOf(s, vs[0]) == f then
        assert StrictlyAscending(vs) ==> forall v :: v in rest ==> vs[0] < v by {
          if StrictlyAscending(vs) {
            forall v | v in rest ensures vs[0] < v {
              var j :| 0 <= j < |vs[1..]| && vs[1..][j] == v;
              assert vs[j + 1] == v;
            }
          }
        }
        assert StrictlyAscending(vs) ==> StrictlyAscending([vs[0]] + rest) by {
          if StrictlyAscending(vs) {
            forall i, j | 0 <= i < j < |[vs[0]] + rest| ensures ([vs[0]] + rest)[i] < ([vs[0]] + rest)[j] {
              if i == 0 {
                assert ([vs[0]] + rest)[j] == rest[j - 1];
                assert rest[j - 1] in rest;
              } else {
                assert ([vs[0]] + rest)[i] == rest[i - 1];
              }
            }
          }
        }
        [vs[0]] + rest
      else rest
  }

  /** `Series.mode()`. */
  function Modes(s: seq<real>): seq<real> {
    WithFrequency(Distinct(Sort(s, RealLe)), s, MaxFrequency(s))
  }

  /** The modes are, in ascending order and each once, exactly the values reaching the highest
      frequency; there is at least one mode. */
  lemma ModesExact(s: seq<real>)
    requires |s| > 0
    ensures StrictlyAscending(Modes(s))
    ensures forall v :: v in Modes(s) <==> v in s && CountOf(s, v) == MaxFrequency(s)
    ensures forall v :: v in s ==> CountOf(s, v) <= MaxFrequency(s)
    ensures Modes(s) != []
  {
    RealLeTotal();
    SortSorted(s, RealLe);
    var sorted := Sort(s, RealLe);
    SortedAscending(sorted);
    assert forall v :: v in sorted <==> v in s by {
      forall v ensures v in sorted <==> v in s {
        assert v in sorted <==> v in multiset(sorted);
      }
    }
    DistinctAscending(sorted);
    var v :| v in s && CountOf(s, v) == MaxFrequency(s);
    assert v in Modes(s);
  }

  // ---------------------------------------------------------------------------
  // The summary
  // ---------------------------------------------------------------------------

  /** The statistics shown for a column. The standard deviation is not part of the model. */
  datatype Summary = Summary(
    count: nat, min: real, max: real, mean: real, median: real, modes: seq<real>,
    q1: real, q3: real, iqr: real, lowerBound: real, upperBound: real)

  /** `describe()`, `mode()` and the Tukey fences of `log_data_stats` over the valid values: the
      quartiles are those of the values in ascending order, and the fences lie one and a half
      interquartile ranges below Q1 and above Q3. */
  function Summarize(values: seq<real>): (r: Summary)
    requires |values| > 0
    ensures r.count == |values|
    ensures r.min == Min(values) && r.max == Max(values) && r.mean == Mean(values)
    ensures var sorted := Sort(values, RealLe);
      && r.q1 == Quartile(sorted, 1)
      && r.median == Quartile(sorted, 2)
      && r.q3 == Quartile(sorted, 3)
    ensures r.lowerBound == r.q1 - 1.5 * r.iqr && r.upperBound == r.q3 + 1.5 * r.iqr
    ensures r.modes == Modes(values)
    ensures r.min in values && r.max in values
    ensures forall x :: x in values ==> r.min <= x <= r.max
    ensures r.min <= r.mean <= r.max
    ensures r.min <= r.q1 <= r.median <= r.q3 <= r.max
    ensures r.iqr == r.q3 - r.q1 >= 0.0
    ensures r.lowerBound <= r.q1 && r.q3 <= r.upperBound
    ensures r.upperBound - r.lowerBound == 4.0 * r.iqr
    ensures StrictlyAscending(r.modes) && r.modes != []
    ensures forall v :: v in r.modes <==> v in values && CountOf(values, v) == MaxFrequency(values)
  {
    RealLeTotal();
    SortSorted(values, RealLe);
    var sorted := Sort(values, RealLe);
    SortedAscending(sorted);
    SortedEnds(values, sorted);
    QuartileMonotone(sorted, 1, 2);
    QuartileMonotone(sorted, 2, 3);
    QuartileBetween(sorted, 1);
    QuartileBetween(sorted, 3);
    MeanBetweenMinAndMax(values);
    ModesExact(values);
    var q1 := Quartile(sorted, 1);
    var q3 := Quartile(sorted, 3);
    var iqr := q3 - q1;
    Summary(|values|, Min(values), Max(values), Mean(values), Quartile(sorted, 2), Modes(values),
      q1, q3, iqr, q1 - 1.5 * iqr, q3 + 1.5 * iqr)
  }

  /** The ends of the sorted values are the minimum and the maximum. */
  lemma SortedEnds(values: seq<real>, sorted: seq<real>)
    requires |values| > 0
    requires Ascending(sorted) && multiset(sorted) == multiset(values)
    ensures |sorted| == |values|
    ensures sorted[0] == Min(values) && sorted[|sorted| - 1] == Max(values)
  {
    assert |sorted| == |multiset(sorted)| == |values|;
    assert forall v :: v in sorted <==> v in values by {
      forall v ensures v in sorted <==> v in values {
        assert v in sorted <==> v in multiset(sorted);
      }
    }
    assert sorted[0] in sorted && sorted[|sorted| - 1] in sorted;
    assert Min(values) in sorted && Max(values) in sorted;
    var i :| 0 <= i < |sorted| && sorted[i] == Min(values);
    if i > 0 {
      assert sorted[0] <= sorted[i];
    }
    var j :| 0 <= j < |sorted| && sorted[j] == Max(values);
    if j < |sorted| - 1 {
      assert sorted[j] <= sorted[|sorted| - 1];
    }
  }

  /** What `log_data_stats` arrives at for one column. */
  datatype StatsOutcome =
    | ColumnNotFound      // [ERROR] Column '<name>' not found.
    | NoValidData         // No valid data found (all are NaN or 0).
    | Unbounded(count: nat) // an infinite value is valid: pandas' statistics are inf or NaN
    | Computed(summary: Summary)

  /** The finite values, when there is no infinity among them. */
  function FiniteValues(vs: seq<Ext>): (r: Option<seq<real>>)
    ensures r.Some? <==> forall k :: 0 <= k < |vs| ==> vs[k].Fin?
    ensures r.Some? ==> |r.value| == |vs| && forall k :: 0 <= k < |vs| ==> r.value[k] == vs[k].r
  {
    if vs == [] then Some([])
    else if !vs[0].Fin? then None
    else match FiniteValues(vs[1..])
      case None => None
      case Some(rest) => Some([vs[0].r] + rest)
  }

  /** `log_data_stats(df, column_name)` without its display. */
  function LogDataStats(t: Table, c: Column, parse: string -> Option<Ext>): (r: StatsOutcome)
    ensures r.ColumnNotFound? <==> c !in t.columns
    ensures r.NoValidData? <==> c in t.columns && ValidValues(ColumnCells(t.rows, c), parse) == []
    ensures r.Unbounded? ==> r.count == |ValidValues(ColumnCells(t.rows, c), parse)| > 0
    ensures var valid := ValidValues(ColumnCells(t.rows, c), parse);
      r.Unbounded? <==> c in t.columns && exists k :: 0 <= k < |valid| && !valid[k].Fin?
    ensures var valid := ValidValues(ColumnCells(t.rows, c), parse);
      r.Computed? <==> c in t.columns && valid != [] && forall k :: 0 <= k < |valid| ==> valid[k].Fin?
    ensures var valid := ValidValues(ColumnCells(t.rows, c), parse);
      r.Computed? ==> |valid| > 0 && FiniteValues(valid).Some? && r.summary == Summarize(FiniteValues(valid).value)
    ensures r.Computed? ==>
      var valid := ValidValues(ColumnCells(t.rows, c), parse);
      && r.summary.count == |valid| > 0
      && (forall k :: 0 <= k < |valid| ==> valid[k].Fin? && r.summary.min <= valid[k].r <= r.summary.max)
      && r.summary.min <= r.summary.mean <= r.summary.max
      && r.summary.lowerBound <= r.summary.q1 <= r.summary.median <= r.summary.q3 <= r.summary.upperBound
  {
    if c !in t.columns then ColumnNotFound
    else
      var valid := ValidValues(ColumnCells(t.rows, c), parse);
      if |valid| == 0 then NoValidData
      else match FiniteValues(valid)
        case None => Unbounded(|valid|)
        case Some(values) =>
          var s := Summarize(values);
          assert forall k :: 0 <= k < |valid| ==> values[k] in values;
          Computed(s)
  }

  // ---------------------------------------------------------------------------
  // Worked examples
  // ---------------------------------------------------------------------------

  /** Zero and negative values are not observations: of 0, 0, 100, 200 and -5 only 100 and 200
      count, and their mean is 150. */
  lemma ZeroAndNegativeExcluded()
    ensures var valid := ValidValues([Number(Fin(0.0)), Number(Fin(0.0)), Number(Fin(100.0)),
                                      Number(Fin(200.0)), Number(Fin(-5.0))], s => None);
      && valid == [Fin(100.0), Fin(200.0)]
      && Mean([100.0, 200.0]) == 150.0
  {
  }

  /** Quartiles of 10, 20, 30, 40, 50: Q1 = 20, Q3 = 40, so IQR = 20 and the fences are -10 and 70. */
  lemma QuartileExample()
    ensures var r := Summarize([10.0, 20.0, 30.0, 40.0, 50.0]);
      && r.q1 == 20.0 && r.median == 30.0 && r.q3 == 40.0 && r.iqr == 20.0
      && r.lowerBound == -10.0 && r.upperBound == 70.0
  {
    ExampleAlreadySorted([10.0, 20.0, 30.0, 40.0, 50.0]);
    ExampleQuartiles([10.0, 20.0, 30.0, 40.0, 50.0]);
  }

  lemma ExampleAlreadySorted(s: seq<real>)
    requires s == [10.0, 20.0, 30.0, 40.0, 50.0]
    ensures Sort(s, RealLe) == s
  {
    forall i | 0 <= i < |s| - 1 ensures RealLe(s[i], s[i + 1]) {
      if i == 0 {} else if i == 1 {} else if i == 2 {} else {}
    }
    SortKeepsOrdered(s, RealLe);
  }

  lemma ExampleQuartiles(s: seq<real>)
    requires s == [10.0, 20.0, 30.0, 40.0, 50.0]
    ensures Quartile(s, 1) == 20.0 && Quartile(s, 2) == 30.0 && Quartile(s, 3) == 40.0
  {
    assert QuartilePosition(5, 1) == Position(1, 0);
    assert QuartilePosition(5, 2) == Position(2, 0);
    assert QuartilePosition(5, 3) == Position(3, 0);
  }
}
