# CEDT internship listings: scraping, merging, statistics and filtering, in Dafny

This project models the data path of a small Streamlit tool that collects internship openings from
the CEDT internship API, one page of listings or one opening id at a time. It saves each run as a
CSV snapshot, and then works on a chosen set of snapshots:

- merges them, keeping the newest row of every opening id;
- adds two derived columns: an applicants-per-place ratio and a per-day salary;
- prints descriptive statistics for a column;
- filters the openings by ratio, salary and work type, and hands the ids of the openings kept to
  the bookmarking call.

The modules, one file each:

| module | file | what it holds |
|---|---|---|
| `Wrappers` | `wrappers.dfy` | `Option` and `Result` |
| `Text` | `text.dfy` | decimal formatting and parsing of integers, `", "` joining and splitting, substring search, Python's `strip` |
| `Sorting` | `sorting.dfy` | insertion sort under a total preorder, the order on floats and Python's order on strings |
| `Listings` | `listings.dfy` | a row of a loaded snapshot (every cell optional, NaN is `None`), a DataFrame as columns plus rows plus the dtype of `salary_type`, and the two scrapers' CSV headers |
| `Merge` | `merge.dfy` | `merge_and_deduplicate_data` |
| `Stats` | `stats.dfy` | the arithmetic of `log_data_stats` |
| `Derived` | `derived.dfy` | the derived-metrics statements of `main.py`, run by the class `Frame`, which models the DataFrame changed in place |
| `Filtering` | `filtering.dfy` | the bookmark tab: work-type options and defaults, the filter, the ids, and the button |
| `Scraping` | `scraping.dfy` | what both scrapers share: decoded JSON with Python's `.get`, responses, log entries and their batching, the loop over a range, and the code after the loop |
| `Paginated` | `paginated.dfy` | the list scraper |
| `Detail` | `detail.dfy` | the detail scraper |

Modelling choices:

- **Network.** The API is a parameter: a function `net` from a URL to a `Response`. The two URL
  lemmas show that a run never asks for the same URL twice, so this loses nothing.
- **Floats.** Floats are `real` numbers. A division by zero gives an explicit infinity (`Ext`) or
  NaN (`None`), as pandas does.
- **Exceptions.** An exception that Python raises becomes a `Failure`, a `None`, or a `raised`
  flag, depending on what catches it.
- **Scraper loops.** Both scraper loops are one generic fold, `Scraping.Iterate`, with a step per
  page or id:
  - `Config.progressRaises` records whether the progress update raises;
  - `FinishAsWritten` models the code after the loop as written;
  - `FinishCorrected` models it as intended.
- **Scraper methods.** `Scraping.RunLoop` runs that loop imperatively, one `while` loop over the
  range with the loop variables of both scrapers (`all_job_data`, `temp_log`, `idx`, `log_entry`
  and the lines printed), and is proved to end in the fold's state. The methods
  `Paginated.ScrapePaginated` and `Detail.ScrapeDetail` run it with their own step, with the fixes
  described under Findings, and are proved equal to reference definitions of every row and every
  log entry.

Behaviour of the code that the model keeps as written:

- **Present `null` objects raise.** A listing whose `company` (or, in the detail scraper,
  `compensationType`) is present but `null` is not given empty fields. `.get` on `None` raises:
  - the detail scraper loses that opening;
  - the list scraper loses that listing and every later listing on the page (`FlattenExact`,
    `DescribeExact`).
- **Rows without an id are deduplicated together.** pandas treats NaN ids as one key, so only the
  last row without an id survives the merge (`Merge.Ids`).
- **A quota of zero is not defaulted.** Only a missing quota becomes 1. An explicit `0` gives an
  infinite ratio, or NaN when there are no applicants either (`Derived.RatioOfDerivedRow`).
- **Rounding is half to even.** Per-day salaries are rounded as pandas `round(0)` does
  (`Derived.HalfToEvenExample`).
- **A 404 is logged.** It adds a `[SKIP]` log entry like any other, rather than being skipped
  silently.
- **One DataFrame is shared.** The bookmark tab reads the DataFrame kept in the session. That is the
  same object the derived-metrics statements changed in place, so the tab sees the derived
  columns. When a statement raises, the frame keeps the changes made before it
  (`Derived.Frame.AddDerivedMetrics`).

## Model

| member | source | states |
|---|---|---|
| Merge.MergeAndDeduplicate | Helper/Visualize.py:8-62 | reads the paths in order, skipping missing and unreadable files, and returns the concatenated, deduplicated table or the `KeyError` for a missing `id` column; the summary is printed exactly when something was loaded and deduplicated, with rows before = rows read, rows after = number of distinct ids, duplicates removed = their difference |
| Merge.MergeResultProperties | Helper/Visualize.py:43-60 | the merged ids are pairwise distinct, every id read survives exactly once with the row of its last occurrence, kept rows are in concatenated order, and rows hold values only in the table's columns |
| Merge.KeepLastIsLastOccurrence | Helper/Visualize.py:49 | `keep='last'`: every kept row is the last row of the input with its id |
| Merge.KeepLastKeepsOrder | Helper/Visualize.py:49-60 | kept rows appear in the order of their last occurrences |
| Merge.KeepLastIds | Helper/Visualize.py:49 | after deduplication ids are pairwise distinct and no id is lost |
| Merge.KeepLastCount | Helper/Visualize.py:49-52 | rows after = number of distinct ids ≤ rows before |
| Merge.KeepLastOfUnique | Helper/Visualize.py:49 | input whose ids are already distinct comes out unchanged |
| Merge.LaterSnapshotWins | Helper/Visualize.py:43-49 | a row whose id occurs in a later snapshot is taken from that snapshot |
| Merge.DisjointSnapshotsMergeWhole | Helper/Visualize.py:43-49 | merging snapshots with disjoint, duplicate-free ids loses no row |
| Merge.RawRowsAreReadCounts | Helper/Visualize.py:30-44 | the raw row total is the sum of the `[READ]` counts |
| Merge.ConcatText | Helper/Visualize.py:43 | `salary_type` of the concatenation is text exactly when it is text in one of the snapshots |
| Merge.MergedSalaryTypeText | Helper/Visualize.py:30-49 | with snapshots typed as `read_csv` types them, the merged `salary_type` is text exactly when it is text in a loaded snapshot, and so whenever a loaded row has a salary type, even a row that deduplication drops |
| Merge.NothingLoadedGivesEmptyTable | Helper/Visualize.py:38-40 | with no readable file the result is the empty DataFrame and the last note is "No data loaded." |
| Listings.SchemasDiffer | Helper/scraping_Detail.py:43-57 | the detail header has `company_name` where the list header has both company names, the dates and the draft count |
| Stats.ValidValuesExact | Helper/Visualize.py:82-85 | the valid values are read, in column order and one per cell, off exactly the cells that coerce to a number greater than zero (missing, unparseable, zero and negative cells are dropped), so repeated values keep their multiplicity |
| Stats.LogDataStats | Helper/Visualize.py:77-105 | reports a missing column exactly when it is missing, no valid data exactly when nothing is valid, an unbounded column exactly when some valid value is infinite, and otherwise exactly the `Summarize` of the valid values |
| Stats.Summarize | Helper/Visualize.py:92-105 | min, max and mean are `Min`, `Max` and `Mean` of the values; q1, median and q3 are the interpolated quartiles of the sorted values; the fences are q1 − 1.5·iqr and q3 + 1.5·iqr; min ≤ mean ≤ max; min ≤ q1 ≤ median ≤ q3 ≤ max; iqr = q3 − q1 ≥ 0; the modes are, in ascending order, exactly the most frequent values |
| Stats.Min | Helper/Visualize.py:92 | the minimum is one of the values and no value is smaller |
| Stats.Max | Helper/Visualize.py:93 | the maximum is one of the values and no value is larger |
| Stats.MeanBetweenMinAndMax | Helper/Visualize.py:94 | the mean lies between the minimum and the maximum |
| Stats.ModesExact | Helper/Visualize.py:97 | the modes are strictly ascending, non-empty, and are exactly the values whose count is the highest count |
| Stats.QuartilePosition | Helper/Visualize.py:101-102 | the interpolation position of quartile k among n sorted values is below + quarters/4 with 4·below + quarters = (n − 1)·k, below < n, and a next value exists when quarters > 0 |
| Stats.QuartileBetween | Helper/Visualize.py:101-102 | a quartile lies between the two sorted values it interpolates, and between the smallest and the largest value |
| Stats.QuartileMonotone | Helper/Visualize.py:101-103 | a lower quartile never exceeds a higher one, so the IQR is never negative |
| Stats.QuartileExample | Helper/Visualize.py:101-105 | the summary of 10, 20, 30, 40, 50 has Q1 = 20, median 30, Q3 = 40, IQR 20 and fences −10 and 70 |
| Stats.ZeroAndNegativeExcluded | Helper/Visualize.py:84-85 | zeros, negatives and missing cells are not valid values |
| Derived.Frame.AddDerivedMetrics | main.py:116-124 | the frame after the statements is what `Derive` gives for the frame before: each statement in order, stopping at the first that raises, with earlier changes kept |
| Derived.DeriveFailsExactly | main.py:117-124 | the step fails with the `KeyError` of the draft count, the quota, `salary_type` or the salary amount exactly when that is the first of them missing, with the `AttributeError` of `.str` exactly when `salary_type` exists but pandas holds it as floats, and succeeds exactly when the four columns exist and `salary_type` is text |
| Derived.DeriveComplete | main.py:116-124 | on a table with the four columns and a text `salary_type` the ratio column is added, every row becomes its derived row and nothing fails |
| Derived.MergedTableDerives | main.py:113-124 | a merge of snapshots with the four columns, one loaded row of which has a salary type, derives without error, whether or not deduplication kept that row |
| Derived.SupersededSalaryTypeExample | main.py:113-124 | a snapshot whose only monthly salary type is on a row replaced by a later row of the same id merges to that later row alone, and the step still succeeds |
| Derived.DeriveKeepsRows | main.py:116-124 | whatever happens, the number of rows, their order and their ids are kept, and only the ratio column can be added |
| Derived.DerivedRowKeepsIdentity | main.py:117-118 | a missing draft count becomes 0, a missing quota 1, present values stay, and no other field than the four derived ones changes |
| Derived.RatioOfDerivedRow | main.py:119 | the ratio times the quota is the draft count unless the quota is an explicit 0; a missing quota gives the count itself; an explicit 0 gives +inf with applicants and NaN without |
| Derived.SalaryOfDerivedRow | main.py:122-124 | only monthly or lump-sum rows change; their amount becomes amount / 22 rounded half to even; presence of the amount is kept |
| Derived.RoundHalfEven | main.py:124 | the result is the nearest integer, the even one on a tie |
| Derived.RoundHalfEvenUnique | main.py:124 | that rounding has only one possible result |
| Derived.Divide | main.py:119 | float division: NaN exactly for 0/0, ±inf exactly for a nonzero over 0, otherwise the quotient q with q·b = a |
| Derived.DetailOnlyCannotDerive | main.py:117 | a table with only detail-scraper columns fails at once with the `KeyError` on the draft count, unchanged |
| Derived.DetailMergeCannotDerive | main.py:113-117 | merging only detail-scraper snapshots always ends in that `KeyError` |
| Derived.MonthlySalaryExample | main.py:122-124 | 22000 a month becomes 1000 a day; 300 a day is left alone |
| Derived.HalfToEvenExample | main.py:124 | 11/22, 33/22 and 55/22 round to 0, 2 and 2 |
| Derived.DeriveTwiceRescalesTwice | main.py:122-124 | deriving a row a second time divides its salary by 22 again (45 from 22000) |
| Filtering.WorkTypeOptionsExact | main.py:196 | the options are strictly ascending in Python's string order and are exactly the work types some row has |
| Filtering.ValidDefaultsExact | main.py:198-204 | the defaults keep the previous choices, in their order, that are still options, and no others |
| Filtering.DefaultSettingsExample | main.py:149-222 | with the starting ratio 2.0 and salaries 150 to 400, a row with ratio 1.5 and 300 a day passes; 500 a day, an infinite ratio or a missing salary fails |
| Filtering.KeepExact | main.py:214-222 | the filtered rows are a subsequence of the table holding exactly the rows that pass the ratio, salary and (when chosen) work-type tests |
| Filtering.NoWorkTypeChosenKeepsAllTypes | main.py:221-222 | with no work type chosen only the ratio and salary tests apply |
| Filtering.ChoosingWorkTypesNarrows | main.py:221-222 | choosing work types only removes rows |
| Filtering.OnBookmarkClickExact | main.py:253-261 | an all-whitespace cookie is refused, otherwise an empty id list is refused, otherwise the call gets the filtered ids unchanged |
| Filtering.BookmarkTabExact | main.py:196-247 | the tab's ids are those of the passing rows in table order and the kept defaults are previous choices present in the table |
| Filtering.PresentWorkTypes | main.py:196 | a work type is listed exactly when some row has it |
| Sorting.SortSorted | main.py:196 | `sorted` returns its input reordered into ascending order |
| Sorting.StrLeTotal | main.py:196 | Python's string comparison is a total preorder |
| Text.JoinSplitRoundTrip | Helper/scraping_Paginated.py:74 | tag names without `", "` in them come back from the joined field by splitting |
| Text.JoinIsLossyForSeparatorInName | Helper/scraping_Paginated.py:74 | a tag name containing `", "` cannot be told apart from two tags |
| Text.StripEmptyIffBlank | main.py:256 | `cookie.strip() == ""` exactly when every character is whitespace |
| Scraping.NestedGet | Helper/scraping_Paginated.py:62 | `d.get(k, {}).get(j)` raises exactly when `k` is present with a value that is not an object, is `None` when `k` is absent, and is the object's `j` entry otherwise |
| Scraping.TagNamesOf | Helper/scraping_Paginated.py:74 | the names are read exactly when every tag is an object with a string `tagName`, one name per tag in order |
| Scraping.TagsFieldExact | Helper/scraping_Detail.py:52 | absent or empty tags give `""`; a non-empty list of tag names none of which contains `", "` gives a field that splits back into exactly those names |
| Scraping.RunLoop | Helper/scraping_Detail.py:29-80 | for the detail loop and the page loop alike (Helper/scraping_Paginated.py:42-97), after the `while` loop over `n` pages or ids the loop variables are exactly the state of `Iterate`: rows appended per iteration, entries buffered and flushed in lines of `threshold`, and an error note per iteration that raised |
| Scraping.IterateAccounts | Helper/scraping_Detail.py:29-80 | after the loop the rows are every row of every iteration in order, the written lines plus the buffer are every log entry in order, an error is shown for exactly the iterations that raised, `idx` counts the others, and flushed lines hold at least the threshold |
| Scraping.IterateExactBatches | Helper/scraping_Detail.py:70-76 | when an iteration logs at most one entry, and none when it raises, the buffer stays below the threshold and every flushed line holds exactly the threshold |
| Scraping.IterateAlwaysRaising | Helper/scraping_Paginated.py:84-98 | when the progress update raises, no line is ever written out, `log_entry` stays unbound and `idx` stays 0, while rows and log entries still accumulate |
| Scraping.FinishCorrectedWritesAll | Helper/scraping_Paginated.py:106-109 | writing out the leftover entries on their own never raises and writes every buffered entry |
| Scraping.FinishAsWrittenExact | Helper/scraping_Detail.py:89-92 | the code after the loop raises exactly when nothing was flushed, and otherwise writes the last flushed batch again ahead of the leftovers |
| Paginated.PageUrlInjective | Helper/scraping_Paginated.py:23 | different pages or limits give different URLs |
| Paginated.FlattenExact | Helper/scraping_Paginated.py:60-76 | a listing is rejected exactly when it is not an object, its `company` is present but not an object, a truthy `compensationType` is not an object, or its tags cannot be joined; a built row holds, field by field, the listing's id, both company names, title, quota, salary amount, salary type (null unless `compensationType` is truthy), work type, location, dates, draft count, joined tags, description and the page URL |
| Paginated.FlattenAll | Helper/scraping_Paginated.py:57-78 | the rows of a page are the flattened listings up to the first one that raises, and the page raised exactly when one did |
| Paginated.PageEffectExact | Helper/scraping_Paginated.py:47-81 | a page logs at most one entry; no response raises; a non-200 status adds only its error entry; a 200 body that is not an object raises; a 200 object without `items` logs a count of 0 and nothing else; a 200 page with a list of listings logs their count, raises exactly when one listing does, and when none does adds one row per listing in order |
| Paginated.AsWrittenNeverSaves | Helper/scraping_Paginated.py:84-120 | as written, every run raises: without a cookie at the check, with one after the loop on the unbound `log_entry`, having written only an error per page |
| Paginated.ScrapePaginated | Helper/scraping_Paginated.py:9-120 | with the progress update and the code after the loop fixed, a run raises exactly without a cookie, and otherwise keeps every row of every page in page order, writes every log entry exactly once in order, and shows an error for exactly the pages that raised |
| Paginated.RowsComeFromPages | Helper/scraping_Paginated.py:75 | every row carries the URL of one of the pages asked for |
| Paginated.OnlyAnsweredPagesGiveRows | Helper/scraping_Paginated.py:50-81 | when no page answers 200 there are no rows |
| Detail.DetailUrlInjective | Helper/scraping_Detail.py:17 | different ids give different URLs |
| Detail.DescribeExact | Helper/scraping_Detail.py:43-57 | an opening is rejected exactly when it is not an object, its `company` or `compensationType` is present but not an object, or its tags cannot be joined; a built row holds, field by field, the opening's id, Thai company name, title, quota, salary amount, salary type, work type, location, joined tags, description and the URL |
| Detail.NullCompensationTypeSplitsScrapers | Helper/scraping_Detail.py:48 | a `null` `compensationType` is kept with no salary type by the list scraper but raises in the detail scraper |
| Detail.DetailEffectExact | Helper/scraping_Detail.py:34-65 | each id gives at most one row, which exists exactly for a 200 whose body describes an opening and comes with a `Found` entry; 404 gives `NotFound`; other statuses give their status; an entry is logged exactly when nothing raised |
| Detail.AsWrittenRaisesIffFewEntries | Helper/scraping_Detail.py:70-92 | as written, a run raises after the loop, saving nothing, exactly when fewer than ten entries were logged |
| Detail.AsWrittenRepeatsLastBatch | Helper/scraping_Detail.py:89-92 | as written, a run that finishes writes ten log entries twice |
| Detail.OneFoundOpeningIsLost | Helper/scraping_Detail.py:89-100 | a run over id 1000 alone that finds the opening collects one row and then raises, so the row is never saved |
| Detail.ScrapeDetail | Helper/scraping_Detail.py:29-110 | with the code after the loop fixed, a run always finishes, keeps every row found in id order, writes every log entry exactly once in order, and shows an error for exactly the ids that raised |
| Detail.RowsComeFromIds | Helper/scraping_Detail.py:29-59 | a run keeps at most one row per id, each carrying the URL of an id asked for |

## Left out

- The Streamlit interface is not modelled: titles, tabs, sliders, number inputs, multiselects, the
  progress bar widget, `st.dataframe`, and the show-filtered toggle. Its values enter as parameters
  (`Settings`, the previous work-type choice, the cookie).
- The plots and the outlier table of `log_data_stats` (after line 105) are display only. The
  standard deviation it shows is not modelled either.
- HTTP (`requests.get`, headers, timeouts) and the random delays (`time.sleep`) are not modelled.
  The network is the parameter `net`, and a request that raises is `NoResponse`.
- CSV files are not modelled: `read_csv`, `to_csv`, encodings, and pandas' type inference.
  - A loaded snapshot is a typed `Table`, or `Unreadable`.
  - The scrapers' rows keep the decoded JSON values, and are not converted into loaded rows.
  - Type inference is modelled only for the dtype of `salary_type`, the one the code depends on
    (`.str` raises on a float column). A snapshot's `salary_type` is text when a cell holds a
    string or the file has a header but no rows (`Listings.ReadDtype`). A concatenation's is text
    when some part's is, as pandas 2 sets empty and all-NaN parts aside when choosing the dtype
    (`Merge.Concat`). Deduplication keeps the dtype. A salary type that looks like a number,
    which `read_csv` would parse as one, is not modelled.
- `print` output and the exact text of log lines are not modelled. Log entries are structured
  values (`LogEntry`), each with the separator that follows it.
- Exception classes and messages are not modelled: only where an exception is raised and where it
  is caught.
- Floats are real numbers, so 64-bit rounding and `-0.0` are not modelled. Infinities and NaN
  arise only where the code divides (`Derived.Divide`).
- Stats.LogDataStats: a column with an infinite valid value reports only the count of valid
  values, not pandas' infinite or NaN statistics.
- `case=False` in the salary-type test is the identity: the two Thai patterns have no letter case.
- `merge_and_deduplicate_data`'s `output_filename` argument is never used by the function, so it
  is not modelled.
- Helper/bookmark.py is not part of this model. The bookmark button's call is the value
  `Bookmark(ids)`.
- Filtering.BookmarkTab: session state across reruns is reduced to the previous work-type choice
  passed in.

## Findings

| source | as written | input that shows it | evidently intended | confidence | as-written member | corrected member |
|---|---|---|---|---|---|---|
| Helper/scraping_Paginated.py:85 | The progress update divides by `End_ID - Start_ID + 1`, but the function never defines those names. Every page therefore ends in the `NameError` handler, `idx` never grows and the log is never flushed. `log_entry` is never assigned, so line 107 raises `UnboundLocalError` and nothing is ever saved. | any run with a cookie, e.g. pages 1 to 1 answered with 200 | divide by `End_Page - Start_Page + 1` and flush every five entries; after the loop, write the leftover entries on their own | high (not executed) | Paginated.AsWrittenNeverSaves | Paginated.ScrapePaginated |
| Helper/scraping_Detail.py:89-91 | The leftover entries are appended to `log_entry`, which only a flush of ten ever assigns. With fewer than ten log entries the run raises `UnboundLocalError` before the export, and the rows are lost. Otherwise the last flushed batch is written a second time. | `Start_ID = End_ID = 1000`, answered with 200 and an opening object | start a fresh line for the leftover entries, so the run always reaches the export and each entry is written once | high (not executed) | Detail.AsWrittenRaisesIffFewEntries | Detail.ScrapeDetail |
