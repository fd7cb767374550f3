/** The detail scraper: it asks for every opening id in `start..end` one at a time, keeps one CSV row
    per opening found, and writes its progress log in batches of ten. */
module Detail {
  import opened Wrappers
  import opened Text
  import opened Scraping
  import Paginated

  const DetailPrefix: string := "https://cedtintern.cp.eng.chula.ac.th/api/sessions/5/openings/"

  function DetailUrl(id: int): string {
    DetailPrefix + IntToString(id)
  }

  /** Different ids are asked for at different addresses. */
  lemma DetailUrlInjective(id1: int, id2: int)
    requires DetailUrl(id1) == DetailUrl(id2)
    ensures id1 == id2
  {
    assert IntToString(id1) == DetailUrl(id1)[|DetailPrefix|..];
    assert IntToString(id2) == DetailUrl(id2)[|DetailPrefix|..];
    IntToStringInjective(id1, id2);
  }

  /** One row of the detail scraper's CSV file. It has a single company name, and no dates or draft
      count, unlike the list scraper's row. */
  datatype DetailRecord = DetailRecord(
    id: Json,
    companyName: Json,
    positionTitle: Json,
    quota: Json,
    salaryAmount: Json,
    salaryType: Json,
    workType: Json,
    location: Json,
    tags: string,
    descriptionHtml: Json,
    apiUrl: string)

  /** The row built from one opening's details, or `None` where building it raises. Unlike the list
      scraper, the salary type is read without checking `compensationType` first. */
  function Describe(data: Json, url: string): Option<DetailRecord> {
    match data
    case JObj(d) =>
      var company := NestedGet(d, "company", "companyNameTh");
      var salaryType := NestedGet(d, "compensationType", "compensationType");
      var tags := TagsField(d);
      if company.None? || salaryType.None? || tags.None? then None
      else Some(DetailRecord(
        Get(d, "openingId"), company.value, Get(d, "title"), Get(d, "quota"),
        Get(d, "compensationAmount"), salaryType.value, Get(d, "workingCondition"),
        Get(d, "officeName"), tags.value, Get(d, "description"), url))
    case _ => None
  }

  /** An opening's details are rejected exactly when they are not an object, or their `company` or
      `compensationType` is present but not an object, or their tags cannot be joined. */
  lemma DescribeExact(data: Json, url: string)
    ensures Describe(data, url).None? <==>
      || !data.JObj?
      || ("company" in data.fields && !data.fields["company"].JObj?)
      || ("compensationType" in data.fields && !data.fields["compensationType"].JObj?)
      || TagsField(data.fields).None?
    ensures Describe(data, url).Some? ==>
      var r := Describe(data, url).value;
      var d := data.fields;
      && r.apiUrl == url
      && r.id == Get(d, "openingId")
      && r.companyName == Inner(d, "company", "companyNameTh")
      && r.positionTitle == Get(d, "title")
      && r.quota == Get(d, "quota")
      && r.salaryAmount == Get(d, "compensationAmount")
      && r.salaryType == Inner(d, "compensationType", "compensationType")
      && r.workType == Get(d, "workingCondition")
      && r.location == Get(d, "officeName")
      && r.tags == TagsField(d).value
      && r.descriptionHtml == Get(d, "description")
  {
  }

  /** An opening whose `compensationType` is `null` is kept by the list scraper, with no salary
      type, but raises in the detail scraper. */
  lemma NullCompensationTypeSplitsScrapers(url: string)
    ensures var data := JObj(map["compensationType" := JNull]);
      && Paginated.Flatten(data, url).Some?
      && Paginated.Flatten(data, url).value.salaryType == JNull
      && Describe(data, url).None?
  {
    var d := map["compensationType" := JNull];
    assert !Truthy(Get(d, "compensationType"));
    assert TagsField(d) == Some(Join([], TagSeparator));
  }

  /** The body of one iteration of the id loop, up to the progress update. */
  function DetailEffect(id: int, url: string, response: Response): Effect<DetailRecord> {
    match response
    case NoResponse => Effect([], [], true)
    case Reply(status, body) =>
      if status == 200 then
        if body.None? then Effect([], [], true)
        else match Describe(body.value, url)
          case None => Effect([], [], true)
          case Some(row) => Effect([row], [Found(id, row.positionTitle)], false)
      else if status == 404 then Effect([], [NotFound(id)], false)
      else Effect([], [StatusError(id, status)], false)
  }

  /** Each id gives at most one row, and a log entry exactly when it did not raise: `Found` with the
      row for a 200 whose details describe an opening, `NotFound` for 404, and the status otherwise. */
  lemma DetailEffectExact(id: int, url: string, response: Response)
    ensures var e := DetailEffect(id, url, response);
      && Modest(e)
      && |e.rows| <= 1
      && (e.raised <==> e.log == [])
      && (response.Reply? && response.status == 200 && response.body.Some? && Describe(response.body.value, url).Some?
          <==> e.rows != [])
      && (e.rows != [] ==> e.rows[0].apiUrl == url && e.log == [Found(id, e.rows[0].positionTitle)])
      && (response.Reply? && response.status == 404 ==> e == Effect([], [NotFound(id)], false))
      && (response.Reply? && response.status != 200 && response.status != 404 ==>
          e == Effect([], [StatusError(id, response.status)], false))
  {
    if response.Reply? && response.status == 200 && response.body.Some? {
      DescribeExact(response.body.value, url);
    }
  }

  function DetailEffects(net: string -> Response): int -> Effect<DetailRecord> {
    id => DetailEffect(id, DetailUrl(id), net(DetailUrl(id)))
  }

  function IdCount(start: int, end: int): nat {
    if end >= start then end - start + 1 else 0
  }

  /** The loop: flushed lines of ten entries, each followed by `", "`. */
  const IdLoop: Config := Config(10, ", ", false)

  /** The run as written, up to the export. */
  function RunAsWritten(start: int, end: int, net: string -> Response): Outcome<DetailRecord> {
    FinishAsWritten(Iterate(start, IdCount(start, end), DetailEffects(net), IdLoop))
  }

  /** The run as intended: the entries still buffered after the loop are written out on their own. */
  function RunCorrected(start: int, end: int, net: string -> Response): Outcome<DetailRecord> {
    FinishCorrected(Iterate(start, IdCount(start, end), DetailEffects(net), IdLoop))
  }

  lemma {:induction false} DetailEffectsModest(start: int, n: nat, net: string -> Response)
    ensures forall id :: start <= id < start + n ==> Modest(DetailEffects(net)(id))
  {
    forall id | start <= id < start + n ensures Modest(DetailEffects(net)(id)) {
      DetailEffectExact(id, DetailUrl(id), net(DetailUrl(id)));
    }
  }

  /** As written, a run raises after the loop, and so saves nothing, exactly when fewer than ten log
      entries were made: `log_entry` is only ever assigned by a flush of ten. */
  lemma AsWrittenRaisesIffFewEntries(start: int, end: int, net: string -> Response)
    ensures var n := IdCount(start, end);
      RunAsWritten(start, end, net).Raised? <==> |AllLog(start, n, DetailEffects(net))| < 10
    ensures RunAsWritten(start, end, net).Raised? ==> RunAsWritten(start, end, net).error == UnboundLogEntry
  {
    var n := IdCount(start, end);
    var st := Iterate(start, n, DetailEffects(net), IdLoop);
    IterateAccounts(start, n, DetailEffects(net), IdLoop);
    DetailEffectsModest(start, n, net);
    IterateExactBatches(start, n, DetailEffects(net), IdLoop);
    WrittenByLines(st.emitted, 10);
    FinishAsWrittenExact(st, IdLoop);
  }

  /** As written, a run that does finish writes ten entries twice: the last flushed batch is written
      again in front of the entries left over. */
  lemma AsWrittenRepeatsLastBatch(start: int, end: int, net: string -> Response)
    ensures var n := IdCount(start, end);
      RunAsWritten(start, end, net).Finished? ==>
        |Written(RunAsWritten(start, end, net).emitted)| == |AllLog(start, n, DetailEffects(net))| + 10
  {
    var n := IdCount(start, end);
    var st := Iterate(start, n, DetailEffects(net), IdLoop);
    IterateAccounts(start, n, DetailEffects(net), IdLoop);
    DetailEffectsModest(start, n, net);
    IterateExactBatches(start, n, DetailEffects(net), IdLoop);
    FinishAsWrittenExact(st, IdLoop);
    if FinishAsWritten(st).Finished? {
      var k :| 0 <= k < |st.emitted| && st.emitted[k].LogLine? &&
        Written(FinishAsWritten(st).emitted) == Written(st.emitted) + EntriesOf(st.emitted[k].pieces) + st.tempLog;
      assert |st.emitted[k].pieces| == 10;
    }
  }

  /** A run over the single id 1000 that finds an opening collects its row and then raises, so the
      row is never saved. */
  lemma OneFoundOpeningIsLost(net: string -> Response)
    requires net(DetailUrl(1000)) == Reply(200, Some(JObj(map[])))
    ensures |AllRows(1000, IdCount(1000, 1000), DetailEffects(net))| == 1
    ensures RunAsWritten(1000, 1000, net).Raised?
  {
    var d: map<string, Json> := map[];
    assert TagsField(d) == Some(Join([], TagSeparator));
    assert Describe(JObj(d), DetailUrl(1000)).Some?;
    var e := DetailEffects(net)(1000);
    assert e.rows != [] && |e.log| == 1;
    assert AllRows(1000, 1, DetailEffects(net)) == AllRows(1000, 0, DetailEffects(net)) + e.rows;
    assert AllLog(1000, 1, DetailEffects(net)) == AllLog(1000, 0, DetailEffects(net)) + e.log;
    AsWrittenRaisesIffFewEntries(1000, 1000, net);
  }

  /** The scraper with the code after the loop fixed: a run always finishes, keeps every row found in
      id order, writes out every log entry exactly once in order, and shows an error for exactly the
      ids that raised. The rows returned are the list the export writes out only when it is
      non-empty (Helper/scraping_Detail.py:98), so a file is saved exactly when some opening was
      found; the export itself is not modelled. */
  method ScrapeDetail(start: int, end: int, net: string -> Response) returns (outcome: Outcome<DetailRecord>)
    ensures outcome == RunCorrected(start, end, net)
    ensures outcome.Finished?
    ensures var effects := DetailEffects(net);
      var n := IdCount(start, end);
      && outcome.rows == AllRows(start, n, effects)
      && Written(outcome.emitted) == AllLog(start, n, effects)
      && Notes(outcome.emitted) == Raising(start, n, effects)
  {
    var effects := DetailEffects(net);
    var n := IdCount(start, end);
    var rows, tempLog, emitted, idx, logEntry := RunLoop(start, n, effects, IdLoop);
    var st := LoopState(rows, tempLog, emitted, idx, logEntry);
    if tempLog != [] {
      emitted := emitted + [LogLine(Pieces(tempLog, " "))];
    }
    outcome := Finished(rows, emitted);
    IterateAccounts(start, n, effects, IdLoop);
    FinishCorrectedWritesAll(st);
    NotesAppend(st.emitted, LogLine(Pieces(tempLog, " ")));
  }

  /** A run keeps at most one row per id, and every row carries the address of an id asked for. */
  lemma RowsComeFromIds(start: int, n: nat, net: string -> Response)
    ensures |AllRows(start, n, DetailEffects(net))| <= n
    ensures forall r :: r in AllRows(start, n, DetailEffects(net)) ==>
      exists id :: start <= id < start + n && r.apiUrl == DetailUrl(id)
  {
    var effects := DetailEffects(net);
    var fromId := (id: int, r: DetailRecord) => r.apiUrl == DetailUrl(id);
    forall id | start <= id < start + n
      ensures |effects(id).rows| <= 1 && forall r :: r in effects(id).rows ==> fromId(id, r)
    {
      DetailEffectExact(id, DetailUrl(id), net(DetailUrl(id)));
    }
    AllRowsAtMostOneEach(start, n, effects);
    AllRowsTagged(start, n, effects, fromId);
  }
}
