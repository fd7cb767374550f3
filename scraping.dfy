/** What the two scrapers share: decoded JSON, the responses the API gives, the log buffer that is
    written out in batches, and the loop that visits a range of pages or ids, accumulating rows. */
module Scraping {
  import opened Wrappers
  import opened Text

  // ---------------------------------------------------------------------------
  // Decoded JSON and Python's dictionary access
  // ---------------------------------------------------------------------------

  datatype Json =
    | JNull
    | JBool(b: bool)
    | JNum(n: real)
    | JStr(s: string)
    | JArr(elems: seq<Json>)
    | JObj(fields: map<string, Json>)

  /** `d.get(key)`: the value, or `None` when the key is absent. */
  function Get(d: map<string, Json>, key: string): Json {
    if key in d then d[key] else JNull
  }

  /** `d.get(key, default)` */
  function GetOr(d: map<string, Json>, key: string, default: Json): Json {
    if key in d then d[key] else default
  }

  /** Python truthiness of a decoded value. */
  predicate Truthy(v: Json) {
    match v
    case JNull => false
    case JBool(b) => b
    case JNum(n) => n != 0.0
    case JStr(s) => s != ""
    case JArr(elems) => elems != []
    case JObj(fields) => fields != map[]
  }

  /** `d.get(outer, {}).get(inner)`; `None` where `.get` is called on something that is not a
      dictionary and raises (a present `null`, string, number or list). */
  function NestedGet(d: map<string, Json>, outer: string, inner: string): (r: Option<Json>)
    ensures r.None? <==> outer in d && !d[outer].JObj?
    ensures outer !in d ==> r == Some(JNull)
    ensures outer in d && d[outer].JObj? ==> r == Some(Get(d[outer].fields, inner))
  {
    match GetOr(d, outer, JObj(map[]))
    case JObj(fields) => Some(Get(fields, inner))
    case _ => None
  }

  /** The value at `d[outer][inner]` where `d[outer]` is an object, and `null` otherwise. */
  function Inner(d: map<string, Json>, outer: string, inner: string): Json {
    if outer in d && d[outer].JObj? then Get(d[outer].fields, inner) else JNull
  }

  /** `[t['tagName'] for t in tags]`: `None` where it raises (a tag that is not an object with a
      string `tagName`, or a value that cannot be iterated). Iterating a string or an object goes
      over characters or keys, so only an empty one gets through. */
  function TagNames(tags: Json): Option<seq<string>> {
    match tags
    case JArr(elems) => TagNamesOf(elems)
    case JStr(s) => if s == "" then Some([]) else None
    case JObj(fields) => if fields == map[] then Some([]) else None
    case _ => None
  }

  predicate IsTag(t: Json) {
    t.JObj? && "tagName" in t.fields && t.fields["tagName"].JStr?
  }

  function TagNamesOf(elems: seq<Json>): (r: Option<seq<string>>)
    ensures r.Some? <==> forall i :: 0 <= i < |elems| ==> IsTag(elems[i])
    ensures r.Some? ==> (|r.value| == |elems| &&
      forall i :: 0 <= i < |elems| ==> r.value[i] == elems[i].fields["tagName"].s)
  {
    if elems == [] then Some([])
    else if !IsTag(elems[0]) then None
    else match TagNamesOf(elems[1..])
      case None => None
      case Some(rest) => Some([elems[0].fields["tagName"].s] + rest)
  }

  /** `", ".join([t['tagName'] for t in d.get("tags", [])])` */
  function TagsField(d: map<string, Json>): Option<string> {
    match TagNames(GetOr(d, "tags", JArr([])))
    case None => None
    case Some(names) => Some(Join(names, TagSeparator))
  }

  /** Absent tags give `""`, and the tag names of a list come back from the joined field by
      splitting on `", "` when none of them contains it. */
  lemma TagsFieldExact(d: map<string, Json>, names: seq<string>)
    ensures "tags" !in d ==> TagsField(d) == Some("")
    ensures "tags" in d && d["tags"] == JArr([]) ==> TagsField(d) == Some("")
    ensures "tags" in d && d["tags"].JArr? && TagNamesOf(d["tags"].elems) == Some(names) && names != []
      && (forall i :: 0 <= i < |names| ==> !Contains(names[i], TagSeparator))
      ==> TagsField(d).Some? && Split(TagsField(d).value, TagSeparator) == names
  {
    if "tags" in d && d["tags"].JArr? && TagNamesOf(d["tags"].elems) == Some(names) && names != []
      && (forall i :: 0 <= i < |names| ==> !Contains(names[i], TagSeparator)) {
      JoinSplitRoundTrip(names);
    }
  }

  // ---------------------------------------------------------------------------
  // Responses and the log
  // ---------------------------------------------------------------------------

  /** The answer to one request: a status code and the body decoded as JSON (`None` when
      `response.json()` raises), or no response at all (`requests.get` raised). */
  datatype Response = Reply(status: int, body: Option<Json>) | NoResponse

  /** One entry of `temp_log`. */
  datatype LogEntry =
    | PageFound(page: int, count: nat)          // [PAGE p] Found n items.
    | PageError(page: int, status: int)         // [ERR] Page p: Status s
    | Found(id: int, title: Json)               // [OK] ID i: Found 'title'
    | NotFound(id: int)                         // [SKIP] ID i: Not Found
    | StatusError(id: int, status: int)         // [ERR] ID i: Status s

  /** An entry followed by the separator appended after it. */
  datatype LogPiece = LogPiece(entry: LogEntry, sep: string)

  /** What reaches the page: a batch of log entries written as one line, or the error shown when an
      iteration raised. */
  datatype Emission = LogLine(pieces: seq<LogPiece>) | ExceptionNote(at: int)

  /** `for log_i in entries: log_entry += log_i + sep` */
  function Pieces(entries: seq<LogEntry>, sep: string): (p: seq<LogPiece>)
    ensures |p| == |entries|
    ensures forall k :: 0 <= k < |p| ==> p[k] == LogPiece(entries[k], sep)
  {
    seq(|entries|, k requires 0 <= k < |entries| => LogPiece(entries[k], sep))
  }

  function EntriesOf(pieces: seq<LogPiece>): (e: seq<LogEntry>)
    ensures |e| == |pieces|
  {
    seq(|pieces|, k requires 0 <= k < |pieces| => pieces[k].entry)
  }

  lemma EntriesOfPieces(entries: seq<LogEntry>, sep: string)
    ensures EntriesOf(Pieces(entries, sep)) == entries
  {
  }

  /** The log entries written out, line after line, in order. */
  function Written(emitted: seq<Emission>): seq<LogEntry> {
    if emitted == [] then []
    else
      var front := Written(emitted[..|emitted| - 1]);
      match emitted[|emitted| - 1]
      case LogLine(pieces) => front + EntriesOf(pieces)
      case ExceptionNote(_) => front
  }

  function CountLines(emitted: seq<Emission>): nat {
    if emitted == [] then 0
    else CountLines(emitted[..|emitted| - 1]) + (if emitted[|emitted| - 1].LogLine? then 1 else 0)
  }

  lemma WrittenAppend(emitted: seq<Emission>, e: Emission)
    ensures Written(emitted + [e]) == Written(emitted) + (if e.LogLine? then EntriesOf(e.pieces) else [])
    ensures CountLines(emitted + [e]) == CountLines(emitted) + (if e.LogLine? then 1 else 0)
  {
    assert (emitted + [e])[..|emitted|] == emitted;
  }

  // ---------------------------------------------------------------------------
  // The loop over a range of pages or ids
  // ---------------------------------------------------------------------------

  /** What the body of one iteration contributes before the progress update: the rows appended,
      the log entries appended, and whether it raised (the exception is caught by the loop). */
  datatype Effect<R> = Effect(rows: seq<R>, log: seq<LogEntry>, raised: bool)

  /** The loop variables: `all_job_data`, `temp_log`, what has been written out, `idx`, and the
      last line built in `log_entry` (`None` while the variable is still unbound). */
  datatype LoopState<R> = LoopState(
    rows: seq<R>, tempLog: seq<LogEntry>, emitted: seq<Emission>, idx: nat, logEntry: Option<seq<LogPiece>>)

  /** How the loop ends each iteration: the size at which `temp_log` is written out and cleared,
      the separator after each entry of a flushed line, and whether the progress update raises. */
  datatype Config = Config(threshold: nat, sep: string, progressRaises: bool)

  function Initial<R>(): LoopState<R> {
    LoopState([], [], [], 0, None)
  }

  /** One iteration at page or id `at`. */
  function Step<R>(st: LoopState<R>, e: Effect<R>, at: int, cfg: Config): LoopState<R> {
    var st1 := st.(rows := st.rows + e.rows, tempLog := st.tempLog + e.log);
    if e.raised || cfg.progressRaises then st1.(emitted := st1.emitted + [ExceptionNote(at)])
    else if |st1.tempLog| >= cfg.threshold then
      var line := Pieces(st1.tempLog, cfg.sep);
      st1.(emitted := st1.emitted + [LogLine(line)], idx := st1.idx + 1, logEntry := Some(line), tempLog := [])
    else st1.(idx := st1.idx + 1)
  }

  /** The loop state after the first `n` iterations, over `start`, `start + 1`, ... */
  function Iterate<R>(start: int, n: nat, effects: int -> Effect<R>, cfg: Config): LoopState<R> {
    if n == 0 then Initial()
    else Step(Iterate(start, n - 1, effects, cfg), effects(start + n - 1), start + n - 1, cfg)
  }

  /** Reference definitions: every row and every log entry the iterations produce, in order. */
  function AllRows<R>(start: int, n: nat, effects: int -> Effect<R>): seq<R> {
    if n == 0 then [] else AllRows(start, n - 1, effects) + effects(start + n - 1).rows
  }

  function AllLog<R>(start: int, n: nat, effects: int -> Effect<R>): seq<LogEntry> {
    if n == 0 then [] else AllLog(start, n - 1, effects) + effects(start + n - 1).log
  }

  /** The iterations that raised. */
  function Raising<R>(start: int, n: nat, effects: int -> Effect<R>): seq<int> {
    if n == 0 then []
    else Raising(start, n - 1, effects) + (if effects(start + n - 1).raised then [start + n - 1] else [])
  }

  /** Iterations that give no rows give no rows together. */
  lemma {:induction false} AllRowsEmpty<R>(start: int, n: nat, effects: int -> Effect<R>)
    requires forall k :: start <= k < start + n ==> effects(k).rows == []
    ensures AllRows(start, n, effects) == []
  {
    if n > 0 {
      AllRowsEmpty(start, n - 1, effects);
    }
  }

  /** Iterations that give at most one row each give at most one row per iteration together. */
  lemma {:induction false} AllRowsAtMostOneEach<R>(start: int, n: nat, effects: int -> Effect<R>)
    requires forall k :: start <= k < start + n ==> |effects(k).rows| <= 1
    ensures |AllRows(start, n, effects)| <= n
  {
    if n > 0 {
      AllRowsAtMostOneEach(start, n - 1, effects);
    }
  }

  /** A property every iteration's rows have of that iteration, the collected rows have of some
      iteration in the range. */
  lemma {:induction false} AllRowsTagged<R>(start: int, n: nat, effects: int -> Effect<R>, q: (int, R) -> bool)
    requires forall k, r :: start <= k < start + n && r in effects(k).rows ==> q(k, r)
    ensures forall r :: r in AllRows(start, n, effects) ==> exists k :: start <= k < start + n && q(k, r)
  {
    if n > 0 {
      AllRowsTagged(start, n - 1, effects, q);
      var last := start + n - 1;
      forall r | r in AllRows(start, n, effects) ensures exists k :: start <= k < start + n && q(k, r) {
        if r !in AllRows(start, n - 1, effects) {
          assert r in effects(last).rows;
          assert q(last, r);
        }
      }
    }
  }

  function Notes(emitted: seq<Emission>): seq<int> {
    if emitted == [] then []
    else
      var front := Notes(emitted[..|emitted| - 1]);
      match emitted[|emitted| - 1]
      case ExceptionNote(at) => front + [at]
      case LogLine(_) => front
  }

  /** Every line written out is a flushed batch: at least `threshold` entries, each followed by the
      separator; the last of them is what `log_entry` still holds. */
  ghost predicate Batches(emitted: seq<Emission>, logEntry: Option<seq<LogPiece>>, cfg: Config) {
    && (forall k :: 0 <= k < |emitted| && emitted[k].LogLine? ==>
          |emitted[k].pieces| >= cfg.threshold && forall m :: 0 <= m < |emitted[k].pieces| ==> emitted[k].pieces[m].sep == cfg.sep)
    && (logEntry.None? <==> CountLines(emitted) == 0)
    && (logEntry.Some? ==> exists k :: 0 <= k < |emitted| && emitted[k] == LogLine(logEntry.value))
  }

  /** What the loop keeps track of when the progress update does not raise: every row in order, every
      log entry written out exactly once or still buffered, an error note for exactly the iterations
      that raised, `idx` counting the others (so the progress `(idx + 1) / n` never passes 1), and
      flushed lines of at least `threshold` entries. */
  lemma {:induction false} IterateAccounts<R>(start: int, n: nat, effects: int -> Effect<R>, cfg: Config)
    requires !cfg.progressRaises
    ensures var st := Iterate(start, n, effects, cfg);
      && st.rows == AllRows(start, n, effects)
      && Written(st.emitted) + st.tempLog == AllLog(start, n, effects)
      && Notes(st.emitted) == Raising(start, n, effects)
      && st.idx + |Raising(start, n, effects)| == n
      && Batches(st.emitted, st.logEntry, cfg)
  {
    IterateLogs(start, n, effects, cfg);
    IterateBatches(start, n, effects, cfg);
  }

  lemma {:induction false} IterateLogs<R>(start: int, n: nat, effects: int -> Effect<R>, cfg: Config)
    requires !cfg.progressRaises
    ensures var st := Iterate(start, n, effects, cfg);
      && st.rows == AllRows(start, n, effects)
      && Written(st.emitted) + st.tempLog == AllLog(start, n, effects)
      && Notes(st.emitted) == Raising(start, n, effects)
      && st.idx + |Raising(start, n, effects)| == n
  {
    if n > 0 {
      IterateLogs(start, n - 1, effects, cfg);
      var st := Iterate(start, n - 1, effects, cfg);
      var e := effects(start + n - 1);
      assert Iterate(start, n, effects, cfg) == Step(st, e, start + n - 1, cfg);
      StepAccounts(st, e, start + n - 1, cfg);
      assert AllRows(start, n, effects) == AllRows(start, n - 1, effects) + e.rows;
      assert AllLog(start, n, effects) == AllLog(start, n - 1, effects) + e.log;
      assert Raising(start, n, effects) == Raising(start, n - 1, effects) + (if e.raised then [start + n - 1] else []);
    }
  }

  lemma {:induction false} IterateBatches<R>(start: int, n: nat, effects: int -> Effect<R>, cfg: Config)
    requires !cfg.progressRaises
    ensures var st := Iterate(start, n, effects, cfg); Batches(st.emitted, st.logEntry, cfg)
  {
    if n > 0 {
      IterateBatches(start, n - 1, effects, cfg);
      IterateBatchesStep(start, n, effects, cfg);
    }
  }

  lemma IterateBatchesStep<R>(start: int, n: nat, effects: int -> Effect<R>, cfg: Config)
    requires n > 0 && !cfg.progressRaises
    requires var st := Iterate(start, n - 1, effects, cfg); Batches(st.emitted, st.logEntry, cfg)
    ensures var st := Iterate(start, n, effects, cfg); Batches(st.emitted, st.logEntry, cfg)
  {
    var st := Iterate(start, n - 1, effects, cfg);
    var e := effects(start + n - 1);
    var st' := Step(st, e, start + n - 1, cfg);
    assert Iterate(start, n, effects, cfg) == st';
    StepBatches(st, e, start + n - 1, cfg);
    assert Batches(st'.emitted, st'.logEntry, cfg);
  }

  lemma StepAccounts<R>(st: LoopState<R>, e: Effect<R>, at: int, cfg: Config)
    requires !cfg.progressRaises
    ensures var st' := Step(st, e, at, cfg);
      && st'.rows == st.rows + e.rows
      && Written(st'.emitted) + st'.tempLog == Written(st.emitted) + st.tempLog + e.log
      && Notes(st'.emitted) == Notes(st.emitted) + (if e.raised then [at] else [])
      && st'.idx == st.idx + (if e.raised then 0 else 1)
  {
    var log := st.tempLog + e.log;
    if e.raised {
      WrittenAppend(st.emitted, ExceptionNote(at));
      NotesAppend(st.emitted, ExceptionNote(at));
    } else if |log| >= cfg.threshold {
      var line := Pieces(log, cfg.sep);
      WrittenAppend(st.emitted, LogLine(line));
      NotesAppend(st.emitted, LogLine(line));
      EntriesOfPieces(log, cfg.sep);
    }
  }

  lemma StepBatches<R>(st: LoopState<R>, e: Effect<R>, at: int, cfg: Config)
    requires !cfg.progressRaises && Batches(st.emitted, st.logEntry, cfg)
    ensures var st' := Step(st, e, at, cfg); Batches(st'.emitted, st'.logEntry, cfg)
  {
    var log := st.tempLog + e.log;
    if e.raised {
      BatchesAppend(st.emitted, st.logEntry, cfg, ExceptionNote(at));
    } else if |log| >= cfg.threshold {
      var line := Pieces(log, cfg.sep);
      BatchesAppend(st.emitted, st.logEntry, cfg, LogLine(line));
      var emitted' := st.emitted + [LogLine(line)];
      WrittenAppend(st.emitted, LogLine(line));
      assert emitted'[|emitted'| - 1] == LogLine(line);
    }
  }

  lemma NotesAppend(emitted: seq<Emission>, e: Emission)
    ensures Notes(emitted + [e]) == Notes(emitted) + (if e.ExceptionNote? then [e.at] else [])
  {
    assert (emitted + [e])[..|emitted|] == emitted;
  }

  /** Appending an error note, or a line of at least `threshold` entries each followed by the
      separator, keeps every line a batch; `log_entry` is then left alone or set to the new line. */
  lemma BatchesAppend(emitted: seq<Emission>, logEntry: Option<seq<LogPiece>>, cfg: Config, e: Emission)
    requires Batches(emitted, logEntry, cfg)
    requires e.LogLine? ==> |e.pieces| >= cfg.threshold && forall m :: 0 <= m < |e.pieces| ==> e.pieces[m].sep == cfg.sep
    ensures e.ExceptionNote? ==> Batches(emitted + [e], logEntry, cfg)
    ensures e.LogLine? ==> Batches(emitted + [e], Some(e.pieces), cfg)
  {
    WrittenAppend(emitted, e);
    var emitted' := emitted + [e];
    forall k | 0 <= k < |emitted'| && emitted'[k].LogLine?
      ensures |emitted'[k].pieces| >= cfg.threshold
      ensures forall m :: 0 <= m < |emitted'[k].pieces| ==> emitted'[k].pieces[m].sep == cfg.sep
    {
      if k < |emitted| {
        assert emitted'[k] == emitted[k];
      }
    }
    if e.LogLine? {
      assert emitted'[|emitted|] == e;
    } else if logEntry.Some? {
      var k :| 0 <= k < |emitted| && emitted[k] == LogLine(logEntry.value);
      assert emitted'[k] == LogLine(logEntry.value);
    }
  }

  /** An iteration adds at most one log entry, and none when it raises. */
  ghost predicate Modest<R>(e: Effect<R>) {
    |e.log| <= 1 && (e.raised ==> e.log == [])
  }

  /** Every line written out holds exactly `t` entries. */
  ghost predicate ExactLines(emitted: seq<Emission>, t: nat) {
    forall k :: 0 <= k < |emitted| && emitted[k].LogLine? ==> |emitted[k].pieces| == t
  }

  /** With such iterations the buffer stays below the threshold and every flushed line holds exactly
      `threshold` entries. */
  lemma {:induction false} IterateExactBatches<R>(start: int, n: nat, effects: int -> Effect<R>, cfg: Config)
    requires !cfg.progressRaises && cfg.threshold > 0
    requires forall p :: start <= p < start + n ==> Modest(effects(p))
    ensures var st := Iterate(start, n, effects, cfg);
      |st.tempLog| < cfg.threshold && ExactLines(st.emitted, cfg.threshold)
  {
    if n > 0 {
      IterateExactBatches(start, n - 1, effects, cfg);
      StepExactBatch(Iterate(start, n - 1, effects, cfg), effects(start + n - 1), start + n - 1, cfg);
    }
  }

  lemma StepExactBatch<R>(st: LoopState<R>, e: Effect<R>, at: int, cfg: Config)
    requires !cfg.progressRaises && cfg.threshold > 0 && Modest(e)
    requires |st.tempLog| < cfg.threshold && ExactLines(st.emitted, cfg.threshold)
    ensures var st' := Step(st, e, at, cfg); |st'.tempLog| < cfg.threshold && ExactLines(st'.emitted, cfg.threshold)
  {
    var log := st.tempLog + e.log;
    var e' := if e.raised then ExceptionNote(at) else LogLine(Pieces(log, cfg.sep));
    if e.raised || |log| >= cfg.threshold {
      var emitted' := st.emitted + [e'];
      forall k | 0 <= k < |emitted'| && emitted'[k].LogLine?
        ensures |emitted'[k].pieces| == cfg.threshold
      {
        if k < |st.emitted| {
          assert emitted'[k] == st.emitted[k];
        }
      }
    }
  }

  /** Nothing is written out until a line is, and a line holds `t` entries. */
  lemma {:induction false} WrittenByLines(emitted: seq<Emission>, t: nat)
    requires ExactLines(emitted, t)
    ensures CountLines(emitted) == 0 ==> Written(emitted) == []
    ensures CountLines(emitted) > 0 ==> |Written(emitted)| >= t
  {
    if emitted != [] {
      var front := emitted[..|emitted| - 1];
      assert ExactLines(front, t) by {
        forall k | 0 <= k < |front| && front[k].LogLine? ensures |front[k].pieces| == t {
          assert front[k] == emitted[k];
        }
      }
      WrittenByLines(front, t);
    }
  }

  /** When the progress update raises, every iteration ends in the handler: nothing is ever written
      out as a line, `log_entry` stays unbound and `idx` stays 0. */
  lemma {:induction false} IterateAlwaysRaising<R>(start: int, n: nat, effects: int -> Effect<R>, cfg: Config)
    requires cfg.progressRaises
    ensures var st := Iterate(start, n, effects, cfg);
      && st.logEntry.None? && st.idx == 0 && CountLines(st.emitted) == 0
      && st.rows == AllRows(start, n, effects)
      && st.tempLog == AllLog(start, n, effects)
      && |st.emitted| == n
  {
    if n > 0 {
      IterateAlwaysRaising(start, n - 1, effects, cfg);
      WrittenAppend(Iterate(start, n - 1, effects, cfg).emitted, ExceptionNote(start + n - 1));
    }
  }

  /** The loop itself, as both scrapers run it over `start`, `start + 1`, ...: append the
      iteration's rows and log entries, then either note the error or count the iteration and, once
      the buffer holds `threshold` entries, write it out as one line and empty it. After `n`
      iterations its variables are those of `Iterate`. */
  method RunLoop<R>(start: int, n: nat, effects: int -> Effect<R>, cfg: Config)
    returns (rows: seq<R>, tempLog: seq<LogEntry>, emitted: seq<Emission>, idx: nat,
             logEntry: Option<seq<LogPiece>>)
    ensures LoopState(rows, tempLog, emitted, idx, logEntry) == Iterate(start, n, effects, cfg)
  {
    rows, tempLog, emitted, idx, logEntry := [], [], [], 0, None;
    var i := 0;
    while i < n
      invariant 0 <= i <= n
      invariant LoopState(rows, tempLog, emitted, idx, logEntry) == Iterate(start, i, effects, cfg)
    {
      var at := start + i;
      var e := effects(at);
      rows := rows + e.rows;
      tempLog := tempLog + e.log;
      if e.raised || cfg.progressRaises {
        emitted := emitted + [ExceptionNote(at)];
      } else {
        idx := idx + 1;
        if |tempLog| >= cfg.threshold {
          var line := Pieces(tempLog, cfg.sep);
          emitted := emitted + [LogLine(line)];
          logEntry := Some(line);
          tempLog := [];
        }
      }
      i := i + 1;
    }
  }

  // ---------------------------------------------------------------------------
  // After the loop
  // ---------------------------------------------------------------------------

  datatype ScrapeError =
    | MissingCookie     // ValueError: COOKIE not found
    | UnboundLogEntry   // UnboundLocalError: log_entry referenced before assignment

  /** How a run ends: the rows collected and everything written out, or the exception that escaped.
      A finished run with rows saves them as the CSV file; an escaped exception saves nothing. */
  datatype Outcome<R> = Finished(rows: seq<R>, emitted: seq<Emission>) | Raised(error: ScrapeError, emitted: seq<Emission>)

  /** The code after the loop as written: the remaining entries are appended to `log_entry`, which
      still holds the last flushed line, or is unbound if nothing was ever flushed. */
  function FinishAsWritten<R>(st: LoopState<R>): Outcome<R> {
    match st.logEntry
    case None => Raised(UnboundLogEntry, st.emitted)
    case Some(previous) => Finished(st.rows, st.emitted + [LogLine(previous + Pieces(st.tempLog, " "))])
  }

  /** The code after the loop as intended: the entries still buffered are written out as one line. */
  function FinishCorrected<R>(st: LoopState<R>): Outcome<R> {
    if st.tempLog == [] then Finished(st.rows, st.emitted)
    else Finished(st.rows, st.emitted + [LogLine(Pieces(st.tempLog, " "))])
  }

  /** Finishing as intended writes out every buffered entry, and never raises. */
  lemma FinishCorrectedWritesAll<R>(st: LoopState<R>)
    ensures FinishCorrected(st).Finished? && FinishCorrected(st).rows == st.rows
    ensures Written(FinishCorrected(st).emitted) == Written(st.emitted) + st.tempLog
  {
    if st.tempLog != [] {
      WrittenAppend(st.emitted, LogLine(Pieces(st.tempLog, " ")));
      EntriesOfPieces(st.tempLog, " ");
    }
  }

  /** Finishing as written raises exactly when nothing was flushed; otherwise the last flushed batch
      is written out a second time, ahead of the buffered entries. */
  lemma FinishAsWrittenExact<R>(st: LoopState<R>, cfg: Config)
    requires Batches(st.emitted, st.logEntry, cfg)
    ensures FinishAsWritten(st).Raised? <==> CountLines(st.emitted) == 0
    ensures FinishAsWritten(st).Finished? ==>
      exists k :: 0 <= k < |st.emitted| && st.emitted[k].LogLine? &&
        Written(FinishAsWritten(st).emitted) == Written(st.emitted) + EntriesOf(st.emitted[k].pieces) + st.tempLog
  {
    if st.logEntry.Some? {
      var previous := st.logEntry.value;
      var k :| 0 <= k < |st.emitted| && st.emitted[k] == LogLine(previous);
      var line := LogLine(previous + Pieces(st.tempLog, " "));
      WrittenAppend(st.emitted, line);
      EntriesOfPieces(st.tempLog, " ");
      assert EntriesOf(previous + Pieces(st.tempLog, " ")) == EntriesOf(previous) + EntriesOf(Pieces(st.tempLog, " "));
    }
  }
}
