/** `merge_and_deduplicate_data`: read snapshot CSV files in the given order, skip the ones that
    are missing or unreadable, concatenate the rest, keep the last row of every `id`, renumber. */
module Merge {
  import opened Wrappers
  import opened Listings

  /** What is at a path: a file `read_csv` rejects, or one it reads as a table.
      A path outside the disk map is one for which `os.path.exists` is false. */
  datatype FileState = Unreadable | Csv(table: Table)

  /** The diagnostics printed while merging. */
  datatype ReadNote =
    | Read(path: string, rowCount: nat)   // [READ] <file>: Found <n> rows
    | ReadError(path: string)             // [ERROR] Could not read <file>
    | Skipped(path: string)               // [SKIP] File not found: <file>
    | NoDataLoaded                        // No data loaded.

  /** The counts printed in the merge summary. */
  datatype MergeSummary = MergeSummary(rowsBefore: nat, duplicatesRemoved: nat, rowsAfter: nat)

  // ---------------------------------------------------------------------------
  // Step 1: reading the files
  // ---------------------------------------------------------------------------

  /** The tables read from `paths`, in path order, skipping missing and unreadable files. */
  function LoadedTables(paths: seq<string>, disk: map<string, FileState>): seq<Table> {
    if paths == [] then []
    else
      var p := paths[|paths| - 1];
      LoadedTables(paths[..|paths| - 1], disk)
        + (if p in disk && disk[p].Csv? then [disk[p].table] else [])
  }

  /** The note printed for one path. */
  function ReadNoteFor(p: string, disk: map<string, FileState>): ReadNote {
    if p !in disk then Skipped(p)
    else match disk[p]
      case Unreadable => ReadError(p)
      case Csv(t) => Read(p, |t.rows|)
  }

  /** The notes printed while reading `paths`, one per path. */
  function ReadNotes(paths: seq<string>, disk: map<string, FileState>): seq<ReadNote> {
    if paths == [] then []
    else ReadNotes(paths[..|paths| - 1], disk) + [ReadNoteFor(paths[|paths| - 1], disk)]
  }

  /** The row counts reported by `[READ]` notes, added up. */
  function ReadRowTotal(notes: seq<ReadNote>): nat {
    if notes == [] then 0
    else
      var count := match notes[|notes| - 1] case Read(_, n) => n case _ => 0;
      ReadRowTotal(notes[..|notes| - 1]) + count
  }

  // ---------------------------------------------------------------------------
  // Step 2: `pd.concat(all_dfs, ignore_index=True)`
  // ---------------------------------------------------------------------------

  /** The union of the columns and the rows one table after another. `salary_type` is text when
      it is text in some part: pandas sets empty and all-NaN parts aside when it chooses the dtype
      unless every part is one, so a part holding a string makes it text, and otherwise a part
      read without rows (text) outweighs parts whose cells are all NaN (floats). */
  function Concat(tables: seq<Table>): Table {
    if tables == [] then EmptyTable
    else
      var front := Concat(tables[..|tables| - 1]);
      var last := tables[|tables| - 1];
      Table(front.columns + last.columns, front.rows + last.rows, front.textSalaryType || last.textSalaryType)
  }

  // ---------------------------------------------------------------------------
  // Step 3: `drop_duplicates(subset=['id'], keep='last')`
  // ---------------------------------------------------------------------------

  /** The distinct ids of `rows`; all rows without an id share the one key `None`, as pandas
      treats NaN ids as equal. */
  function Ids(rows: seq<Listing>): set<Option<int>> {
    if rows == [] then {} else {rows[0].id} + Ids(rows[1..])
  }

  /** No two rows share an id. */
  ghost predicate UniqueIds(rows: seq<Listing>) {
    forall i, j :: 0 <= i < j < |rows| ==> rows[i].id != rows[j].id
  }

  /** Keeps a row exactly when no later row has its id. */
  function KeepLast(rows: seq<Listing>): seq<Listing> {
    if rows == [] then []
    else if rows[0].id in Ids(rows[1..]) then KeepLast(rows[1..])
    else [rows[0]] + KeepLast(rows[1..])
  }

  /** The position of the last row whose id is `x`. */
  function LastIndex(rows: seq<Listing>, x: Option<int>): (k: nat)
    requires x in Ids(rows)
    ensures k < |rows| && rows[k].id == x
    ensures forall j :: k < j < |rows| ==> rows[j].id != x
  {
    if rows[0].id == x && x !in Ids(rows[1..]) then
      IdsHasEveryId(rows[1..]);
      0
    else
      1 + LastIndex(rows[1..], x)
  }

  /** `Ids` holds exactly the ids found in the rows. */
  lemma {:induction false} IdsHasEveryId(rows: seq<Listing>)
    ensures forall j :: 0 <= j < |rows| ==> rows[j].id in Ids(rows)
    ensures forall x :: x in Ids(rows) ==> exists j :: 0 <= j < |rows| && rows[j].id == x
  {
    if rows != [] {
      IdsHasEveryId(rows[1..]);
      forall x | x in Ids(rows)
        ensures exists j :: 0 <= j < |rows| && rows[j].id == x
      {
        if x != rows[0].id {
          var j :| 0 <= j < |rows[1..]| && rows[1..][j].id == x;
          assert rows[j + 1].id == x;
        }
      }
    }
  }

  /** In rows with distinct ids the first id does not occur again. */
  lemma FirstIdIsNew(rows: seq<Listing>)
    requires rows != [] && UniqueIds(rows)
    ensures rows[0].id !in Ids(rows[1..])
  {
    IdsHasEveryId(rows[1..]);
    forall j | 0 <= j < |rows[1..]|
      ensures rows[1..][j].id != rows[0].id
    {
      assert rows[1..][j] == rows[j + 1];
    }
  }

  /** Rows with pairwise distinct ids have as many distinct ids as rows, and in general there
      are at most as many distinct ids as rows. */
  lemma {:induction false} IdsCount(rows: seq<Listing>)
    ensures |Ids(rows)| <= |rows|
    ensures UniqueIds(rows) ==> |Ids(rows)| == |rows|
  {
    if rows != [] {
      IdsCount(rows[1..]);
      if UniqueIds(rows) {
        FirstIdIsNew(rows);
        assert UniqueIds(rows[1..]) by {
          forall i, j | 0 <= i < j < |rows[1..]| ensures rows[1..][i].id != rows[1..][j].id {
            assert rows[i + 1].id != rows[j + 1].id;
          }
        }
      }
    }
  }

  /** After deduplication the ids are pairwise distinct and no id is lost. */
  lemma {:induction false} KeepLastIds(rows: seq<Listing>)
    ensures UniqueIds(KeepLast(rows))
    ensures Ids(KeepLast(rows)) == Ids(rows)
  {
    if rows != [] {
      KeepLastIds(rows[1..]);
      var rest := KeepLast(rows[1..]);
      if rows[0].id !in Ids(rows[1..]) {
        IdsHasEveryId(rest);
        var kept := [rows[0]] + rest;
        assert kept[1..] == rest;
        forall i, j | 0 <= i < j < |kept| ensures kept[i].id != kept[j].id {
          if i > 0 {
            assert kept[i].id == rest[i - 1].id && kept[j].id == rest[j - 1].id;
          }
        }
      }
    }
  }

  /** `total_rows_after` is the number of distinct ids and never exceeds `total_rows_before`. */
  lemma KeepLastCount(rows: seq<Listing>)
    ensures |KeepLast(rows)| == |Ids(rows)| <= |rows|
  {
    KeepLastIds(rows);
    IdsCount(KeepLast(rows));
    IdsCount(rows);
  }

  /** For ids that also occur further on, the last occurrence moves by one with the first row. */
  lemma LastIndexTail(rows: seq<Listing>, y: Option<int>)
    requires rows != [] && y in Ids(rows[1..])
    ensures y in Ids(rows) && LastIndex(rows, y) == 1 + LastIndex(rows[1..], y)
  {
  }

  /** Last write wins: every kept row is the last row in the input that has its id. */
  lemma {:induction false} KeepLastIsLastOccurrence(rows: seq<Listing>, k: nat)
    requires k < |KeepLast(rows)|
    ensures KeepLast(rows)[k].id in Ids(rows)
    ensures KeepLast(rows)[k] == rows[LastIndex(rows, KeepLast(rows)[k].id)]
  {
    KeepLastIds(rows);
    IdsHasEveryId(KeepLast(rows));
    var rest := rows[1..];
    if rows[0].id in Ids(rest) {
      KeepLastIds(rest);
      IdsHasEveryId(KeepLast(rest));
      KeepLastIsLastOccurrence(rest, k);
      LastIndexTail(rows, KeepLast(rest)[k].id);
    } else if k > 0 {
      var kept := KeepLast(rows);
      assert kept[k] == KeepLast(rest)[k - 1];
      KeepLastIds(rest);
      IdsHasEveryId(KeepLast(rest));
      KeepLastIsLastOccurrence(rest, k - 1);
      LastIndexTail(rows, kept[k].id);
    }
  }

  /** Kept rows stay in their concatenated order: positions of last occurrences increase. */
  lemma {:induction false} KeepLastKeepsOrder(rows: seq<Listing>, k: nat, l: nat)
    requires k < l < |KeepLast(rows)|
    ensures KeepLast(rows)[k].id in Ids(rows) && KeepLast(rows)[l].id in Ids(rows)
    ensures LastIndex(rows, KeepLast(rows)[k].id) < LastIndex(rows, KeepLast(rows)[l].id)
  {
    KeepLastIsLastOccurrence(rows, k);
    KeepLastIsLastOccurrence(rows, l);
    var rest := rows[1..];
    var kept := KeepLast(rows);
    if rows[0].id in Ids(rest) {
      KeepLastKeepsOrder(rest, k, l);
      LastIndexTail(rows, kept[k].id);
      LastIndexTail(rows, kept[l].id);
    } else {
      assert kept[l] == KeepLast(rest)[l - 1];
      KeepLastIsLastOccurrence(rest, l - 1);
      LastIndexTail(rows, kept[l].id);
      if k > 0 {
        assert kept[k] == KeepLast(rest)[k - 1];
        KeepLastKeepsOrder(rest, k - 1, l - 1);
        LastIndexTail(rows, kept[k].id);
      }
    }
  }

  /** Input whose ids are already distinct comes out unchanged. */
  lemma {:induction false} KeepLastOfUnique(rows: seq<Listing>)
    requires UniqueIds(rows)
    ensures KeepLast(rows) == rows
  {
    if rows != [] {
      FirstIdIsNew(rows);
      assert UniqueIds(rows[1..]) by {
        forall i, j | 0 <= i < j < |rows[1..]| ensures rows[1..][i].id != rows[1..][j].id {
          assert rows[i + 1].id != rows[j + 1].id;
        }
      }
      KeepLastOfUnique(rows[1..]);
    }
  }

  lemma {:induction false} IdsAppend(a: seq<Listing>, b: seq<Listing>)
    ensures Ids(a + b) == Ids(a) + Ids(b)
  {
    if a != [] {
      assert (a + b)[0] == a[0];
      assert (a + b)[1..] == a[1..] + b;
      IdsAppend(a[1..], b);
    } else {
      assert a + b == b;
    }
  }

  /** An id found in a later snapshot has its last occurrence there. */
  lemma {:induction false} LastIndexInLaterPart(a: seq<Listing>, b: seq<Listing>, x: Option<int>)
    requires x in Ids(b)
    ensures x in Ids(a + b)
    ensures LastIndex(a + b, x) == |a| + LastIndex(b, x)
  {
    IdsAppend(a, b);
    if a != [] {
      var ab := a + b;
      assert ab[1..] == a[1..] + b;
      LastIndexInLaterPart(a[1..], b, x);
      IdsAppend(a[1..], b);
      assert x in Ids(ab[1..]);
      LastIndexTail(ab, x);
    } else {
      assert a + b == b;
    }
  }

  /** Newer snapshots supersede older ones: when the rows of `b` are concatenated after those of
      `a`, every kept row whose id occurs in `b` is the last row of `b` with that id. */
  lemma LaterSnapshotWins(a: seq<Listing>, b: seq<Listing>, k: nat)
    requires k < |KeepLast(a + b)|
    requires KeepLast(a + b)[k].id in Ids(b)
    ensures KeepLast(a + b)[k] == b[LastIndex(b, KeepLast(a + b)[k].id)]
  {
    KeepLastIsLastOccurrence(a + b, k);
    LastIndexInLaterPart(a, b, KeepLast(a + b)[k].id);
  }

  /** Merging snapshots whose ids are disjoint, each without duplicates, loses no row. */
  lemma DisjointSnapshotsMergeWhole(a: seq<Listing>, b: seq<Listing>)
    requires UniqueIds(a) && UniqueIds(b)
    requires Ids(a) !! Ids(b)
    ensures KeepLast(a + b) == a + b
    ensures |KeepLast(a + b)| == |a| + |b|
  {
    IdsHasEveryId(a);
    IdsHasEveryId(b);
    var ab := a + b;
    forall i, j | 0 <= i < j < |ab| ensures ab[i].id != ab[j].id {
      if j < |a| {
        assert ab[i] == a[i] && ab[j] == a[j];
      } else if i >= |a| {
        assert ab[i] == b[i - |a|] && ab[j] == b[j - |a|];
      } else {
        assert ab[i].id in Ids(a) && ab[j].id in Ids(b);
      }
    }
    KeepLastOfUnique(ab);
  }

  // ---------------------------------------------------------------------------
  // The whole operation
  // ---------------------------------------------------------------------------

  /** The table `merge_and_deduplicate_data` returns, or `Failure(Id)` for the `KeyError` that
      `drop_duplicates` raises when none of the loaded files has an `id` column. */
  function MergeResult(paths: seq<string>, disk: map<string, FileState>): Result<Table, Column> {
    var tables := LoadedTables(paths, disk);
    if tables == [] then Success(EmptyTable)
    else
      var merged := Concat(tables);
      if Id !in merged.columns then Failure(Id)
      else Success(Table(merged.columns, KeepLast(merged.rows), merged.textSalaryType))
  }

  /** Everything printed before the summary. */
  function MergeNotes(paths: seq<string>, disk: map<string, FileState>): seq<ReadNote> {
    ReadNotes(paths, disk) + (if LoadedTables(paths, disk) == [] then [NoDataLoaded] else [])
  }

  /** Reads the files in order, then concatenates and deduplicates them. */
  method MergeAndDeduplicate(paths: seq<string>, disk: map<string, FileState>)
      returns (result: Result<Table, Column>, notes: seq<ReadNote>, summary: Option<MergeSummary>)
    ensures result == MergeResult(paths, disk)
    ensures notes == MergeNotes(paths, disk)
    ensures summary.Some? <==> result.Success? && LoadedTables(paths, disk) != []
    ensures summary.Some? ==>
      var raw := Concat(LoadedTables(paths, disk)).rows;
      && summary.value.rowsBefore == |raw|
      && summary.value.rowsAfter == |result.value.rows| == |Ids(raw)|
      && summary.value.duplicatesRemoved == |raw| - |Ids(raw)|
  {
    var allDfs: seq<Table> := [];
    notes := [];
    var i := 0;
    while i < |paths|
      invariant 0 <= i <= |paths|
      invariant allDfs == LoadedTables(paths[..i], disk)
      invariant notes == ReadNotes(paths[..i], disk)
    {
      var file := paths[i];
      if file in disk {
        match disk[file]
        case Csv(df) =>
          allDfs := allDfs + [df];
          notes := notes + [Read(file, |df.rows|)];
        case Unreadable =>
          notes := notes + [ReadError(file)];
      } else {
        notes := notes + [Skipped(file)];
      }
      assert paths[..i + 1][..i] == paths[..i];
      i := i + 1;
    }
    assert paths[..|paths|] == paths;

    if allDfs == [] {
      notes := notes + [NoDataLoaded];
      return Success(EmptyTable), notes, None;
    }

    var merged := Concat(allDfs);
    var totalRowsBefore := |merged.rows|;
    if Id !in merged.columns {
      return Failure(Id), notes, None;
    }
    var cleaned := KeepLast(merged.rows);
    var totalRowsAfter := |cleaned|;
    KeepLastCount(merged.rows);
    summary := Some(MergeSummary(totalRowsBefore, totalRowsBefore - totalRowsAfter, totalRowsAfter));
    result := Success(Table(merged.columns, cleaned, merged.textSalaryType));
  }

  // ---------------------------------------------------------------------------
  // Properties of the whole operation
  // ---------------------------------------------------------------------------

  /** The raw row total is the sum of the `[READ]` counts. */
  lemma {:induction false} RawRowsAreReadCounts(paths: seq<string>, disk: map<string, FileState>)
    ensures |Concat(LoadedTables(paths, disk)).rows| == ReadRowTotal(ReadNotes(paths, disk))
  {
    if paths != [] {
      var front := paths[..|paths| - 1];
      RawRowsAreReadCounts(front, disk);
      var notes := ReadNotes(paths, disk);
      assert notes[..|notes| - 1] == ReadNotes(front, disk);
      var p := paths[|paths| - 1];
      var ts := LoadedTables(paths, disk);
      if p in disk && disk[p].Csv? {
        assert ts[..|ts| - 1] == LoadedTables(front, disk);
      } else {
        assert ts == LoadedTables(front, disk);
      }
    }
  }

  /** Concatenation keeps rows within their tables' columns. */
  lemma {:induction false} ConcatConforms(tables: seq<Table>)
    requires forall i :: 0 <= i < |tables| ==> Conforms(tables[i])
    ensures Conforms(Concat(tables))
  {
    if tables != [] {
      ConcatConforms(tables[..|tables| - 1]);
      var front := Concat(tables[..|tables| - 1]);
      var last := tables[|tables| - 1];
      var rows := front.rows + last.rows;
      forall i, c | 0 <= i < |rows| && c !in front.columns + last.columns
        ensures !Present(rows[i], c)
      {
        if i < |front.rows| {
          assert rows[i] == front.rows[i];
        } else {
          assert rows[i] == last.rows[i - |front.rows|];
        }
      }
    }
  }

  /** The merged table: ids are unique, every id read is present exactly once with the row of its
      last occurrence, kept rows are in concatenated order, and the table conforms to its columns. */
  lemma MergeResultProperties(paths: seq<string>, disk: map<string, FileState>)
    requires forall p :: p in disk && disk[p].Csv? ==> Conforms(disk[p].table)
    requires MergeResult(paths, disk).Success?
    ensures var t := MergeResult(paths, disk).value;
      var raw := Concat(LoadedTables(paths, disk)).rows;
      && UniqueIds(t.rows)
      && Ids(t.rows) == Ids(raw)
      && |t.rows| == |Ids(raw)| <= |raw|
      && (forall k :: 0 <= k < |t.rows| ==> t.rows[k].id in Ids(raw) && t.rows[k] == raw[LastIndex(raw, t.rows[k].id)])
      && (forall k, l :: 0 <= k < l < |t.rows| ==> LastIndex(raw, t.rows[k].id) < LastIndex(raw, t.rows[l].id))
      && Conforms(t)
  {
    var tables := LoadedTables(paths, disk);
    var raw := Concat(tables).rows;
    if tables != [] {
      KeepLastIds(raw);
      KeepLastCount(raw);
      forall k | 0 <= k < |KeepLast(raw)|
        ensures KeepLast(raw)[k].id in Ids(raw) && KeepLast(raw)[k] == raw[LastIndex(raw, KeepLast(raw)[k].id)]
      {
        KeepLastIsLastOccurrence(raw, k);
      }
      forall k, l | 0 <= k < l < |KeepLast(raw)|
        ensures LastIndex(raw, KeepLast(raw)[k].id) < LastIndex(raw, KeepLast(raw)[l].id)
      {
        KeepLastKeepsOrder(raw, k, l);
      }
      LoadedTablesConform(paths, disk);
      ConcatConforms(tables);
    }
  }

  lemma {:induction false} LoadedTablesConform(paths: seq<string>, disk: map<string, FileState>)
    requires forall p :: p in disk && disk[p].Csv? ==> Conforms(disk[p].table)
    ensures forall i :: 0 <= i < |LoadedTables(paths, disk)| ==> Conforms(LoadedTables(paths, disk)[i])
  {
    if paths != [] {
      LoadedTablesConform(paths[..|paths| - 1], disk);
    }
  }

  /** `salary_type` of a concatenation is text exactly when it is text in one of the parts. */
  lemma {:induction false} ConcatText(tables: seq<Table>)
    ensures Concat(tables).textSalaryType <==> exists k :: 0 <= k < |tables| && tables[k].textSalaryType
  {
    if tables != [] {
      var front := tables[..|tables| - 1];
      ConcatText(front);
      assert forall k :: 0 <= k < |front| ==> front[k] == tables[k];
    }
  }

  /** Parts typed as `read_csv` types them: a `salary_type` string in any row of the
      concatenation makes the column text. */
  lemma {:induction false} ConcatRowTextMakesText(tables: seq<Table>, i: int)
    requires forall k :: 0 <= k < |tables| ==> ReadDtype(tables[k]) && Conforms(tables[k])
    requires 0 <= i < |Concat(tables).rows| && Concat(tables).rows[i].salaryType.Some?
    ensures Concat(tables).textSalaryType
  {
    var front := Concat(tables[..|tables| - 1]);
    var last := tables[|tables| - 1];
    if i < |front.rows| {
      assert Concat(tables).rows[i] == front.rows[i];
      ConcatRowTextMakesText(tables[..|tables| - 1], i);
    } else {
      assert last.rows[i - |front.rows|] == Concat(tables).rows[i];
      assert Present(last.rows[i - |front.rows|], SalaryType);
      assert HasSalaryType(last.rows);
    }
  }

  lemma {:induction false} LoadedTablesReadDtype(paths: seq<string>, disk: map<string, FileState>)
    requires forall p :: p in disk && disk[p].Csv? ==> ReadDtype(disk[p].table) && Conforms(disk[p].table)
    ensures forall i :: 0 <= i < |LoadedTables(paths, disk)| ==>
      ReadDtype(LoadedTables(paths, disk)[i]) && Conforms(LoadedTables(paths, disk)[i])
  {
    if paths != [] {
      LoadedTablesReadDtype(paths[..|paths| - 1], disk);
    }
  }

  /** `salary_type` of the merged table is text exactly when some loaded file has it as text, and
      so whenever some loaded row has a `salary_type` string, even a row that deduplication drops:
      the dtype is fixed when the files are read and concatenated. */
  lemma MergedSalaryTypeText(paths: seq<string>, disk: map<string, FileState>)
    requires forall p :: p in disk && disk[p].Csv? ==> ReadDtype(disk[p].table) && Conforms(disk[p].table)
    requires MergeResult(paths, disk).Success?
    ensures var tables := LoadedTables(paths, disk);
      MergeResult(paths, disk).value.textSalaryType <==>
        exists k :: 0 <= k < |tables| && tables[k].textSalaryType
    ensures HasSalaryType(Concat(LoadedTables(paths, disk)).rows) ==> MergeResult(paths, disk).value.textSalaryType
  {
    var tables := LoadedTables(paths, disk);
    ConcatText(tables);
    assert tables != [] ==> MergeResult(paths, disk).value.textSalaryType == Concat(tables).textSalaryType;
    if HasSalaryType(Concat(tables).rows) {
      var i :| 0 <= i < |Concat(tables).rows| && Concat(tables).rows[i].salaryType.Some?;
      LoadedTablesReadDtype(paths, disk);
      ConcatRowTextMakesText(tables, i);
    }
  }

  /** With no readable file the result is the empty table. */
  lemma NothingLoadedGivesEmptyTable(paths: seq<string>, disk: map<string, FileState>)
    requires forall i :: 0 <= i < |paths| ==> paths[i] !in disk || disk[paths[i]].Unreadable?
    ensures MergeResult(paths, disk) == Success(EmptyTable)
    ensures MergeNotes(paths, disk)[|MergeNotes(paths, disk)| - 1] == NoDataLoaded
  {
    NothingLoaded(paths, disk);
  }

  lemma {:induction false} NothingLoaded(paths: seq<string>, disk: map<string, FileState>)
    requires forall i :: 0 <= i < |paths| ==> paths[i] !in disk || disk[paths[i]].Unreadable?
    ensures LoadedTables(paths, disk) == []
  {
    if paths != [] {
      NothingLoaded(paths[..|paths| - 1], disk);
    }
  }
}
