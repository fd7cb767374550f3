/** The list scraper: it asks the openings endpoint for pages `start..end`, `limit` listings per page,
    flattens every listing into one CSV row, and writes its progress log in batches of five. */
module Paginated {
  import opened Wrappers
  import opened Text
  import opened Scraping

  /** The list endpoint's address up to the page number, the limit parameter, and the flags after
      the limit. */
  const ListPrefix: string := "https://cedtintern.cp.eng.chula.ac.th/api/sessions/5/openings?search=&page="
  const LimitPart: string := "limit="
  const Flags: string := "onlyBookmarked=false&onlyAvailablePositions=false"

  function PageUrl(page: int, limit: int): string {
    ListPrefix + IntToString(page) + "&" + LimitPart + IntToString(limit) + "&" + Flags
  }

  lemma AmpersandFree(n: int)
    ensures '&' !in IntToString(n)
  {
  }

  /** Two numbers written between the same fixed parts, each followed by an `&`, are read back
      unchanged. */
  lemma TwoFieldsApart(prefix: string, middle: string, rest: string, a1: string, a2: string, b1: string, b2: string)
    requires '&' !in a1 && '&' !in a2 && '&' !in b1 && '&' !in b2
    requires prefix + a1 + "&" + middle + b1 + "&" + rest == prefix + a2 + "&" + middle + b2 + "&" + rest
    ensures a1 == a2 && b1 == b2
  {
    var x1, x2 := middle + b1 + "&" + rest, middle + b2 + "&" + rest;
    assert prefix + a1 + "&" + middle + b1 + "&" + rest == prefix + (a1 + ['&'] + x1);
    assert prefix + a2 + "&" + middle + b2 + "&" + rest == prefix + (a2 + ['&'] + x2);
    assert a1 + ['&'] + x1 == (prefix + (a1 + ['&'] + x1))[|prefix|..];
    assert a2 + ['&'] + x2 == (prefix + (a2 + ['&'] + x2))[|prefix|..];
    SplitAtMarker(a1, a2, '&', x1, x2);
    assert b1 + ['&'] + rest == x1[|middle|..];
    assert b2 + ['&'] + rest == x2[|middle|..];
    SplitAtMarker(b1, b2, '&', rest, rest);
  }

  /** Different pages or limits are asked for at different addresses, so every page of a run is a
      request of its own. */
  lemma PageUrlInjective(p1: int, l1: int, p2: int, l2: int)
    requires PageUrl(p1, l1) == PageUrl(p2, l2)
    ensures p1 == p2 && l1 == l2
  {
    AmpersandFree(p1);
    AmpersandFree(p2);
    AmpersandFree(l1);
    AmpersandFree(l2);
    TwoFieldsApart(ListPrefix, LimitPart, Flags, IntToString(p1), IntToString(p2), IntToString(l1), IntToString(l2));
    IntToStringInjective(p1, p2);
    IntToStringInjective(l1, l2);
  }

  /** One row of the list scraper's CSV file: each field is the listing's value as decoded (`null`
      where the listing lacks the key), except the joined tags and the page's address. */
  datatype PageRecord = PageRecord(
    id: Json,
    companyNameTh: Json,
    companyNameEn: Json,
    positionTitle: Json,
    quota: Json,
    salaryAmount: Json,
    salaryType: Json,
    workType: Json,
    location: Json,
    startDate: Json,
    endDate: Json,
    inStudentDraftCount: Json,
    tags: string,
    descriptionHtml: Json,
    apiUrl: string)

  /** The salary type: read from the nested `compensationType` only when the listing's own
      `compensationType` is truthy. */
  function SalaryType(d: map<string, Json>): Option<Json> {
    if Truthy(Get(d, "compensationType")) then NestedGet(d, "compensationType", "compensationType")
    else Some(JNull)
  }

  /** The row built from one listing of a page, or `None` where building it raises. */
  function Flatten(item: Json, url: string): Option<PageRecord> {
    match item
    case JObj(d) =>
      var th := NestedGet(d, "company", "companyNameTh");
      var en := NestedGet(d, "company", "companyNameEn");
      var salaryType := SalaryType(d);
      var tags := TagsField(d);
      if th.None? || en.None? || salaryType.None? || tags.None? then None
      else Some(PageRecord(
        Get(d, "openingId"), th.value, en.value, Get(d, "title"), Get(d, "quota"),
        Get(d, "compensationAmount"), salaryType.value, Get(d, "workingCondition"),
        Get(d, "officeName"), Get(d, "startDate"), Get(d, "endDate"),
        Get(d, "inStudentDraftCount"), tags.value, Get(d, "description"), url))
    case _ => None
  }

  /** A listing is rejected exactly when it is not an object, its `company` is present but not an
      object, a truthy `compensationType` is not an object, or its tags cannot be joined; a row that
      is built carries the listing's own fields and the page's address. */
  lemma FlattenExact(item: Json, url: string)
    ensures Flatten(item, url).None? <==>
      || !item.JObj?
      || ("company" in item.fields && !item.fields["company"].JObj?)
      || (Truthy(Get(item.fields, "compensationType")) && !item.fields["compensationType"].JObj?)
      || TagsField(item.fields).None?
    ensures Flatten(item, url).Some? ==>
      var r := Flatten(item, url).value;
      var d := item.fields;
      && r.apiUrl == url
      && r.id == Get(d, "openingId")
      && r.companyNameTh == Inner(d, "company", "companyNameTh")
      && r.companyNameEn == Inner(d, "company", "companyNameEn")
      && r.positionTitle == Get(d, "title")
      && r.quota == Get(d, "quota")
      && r.salaryAmount == Get(d, "compensationAmount")
      && r.salaryType == (if Truthy(Get(d, "compensationType")) then Inner(d, "compensationType", "compensationType") else JNull)
      && r.workType == Get(d, "workingCondition")
      && r.location == Get(d, "officeName")
      && r.startDate == Get(d, "startDate")
      && r.endDate == Get(d, "endDate")
      && r.inStudentDraftCount == Get(d, "inStudentDraftCount")
      && r.tags == TagsField(d).value
      && r.descriptionHtml == Get(d, "description")
  {
  }

  /** `for item in items: all_job_data.append(...)`: the rows built before the first listing that
      raises, and whether one raised. */
  function FlattenAll(items: seq<Json>, url: string): (r: (seq<PageRecord>, bool))
    ensures |r.0| <= |items|
    ensures forall i :: 0 <= i < |r.0| ==> Flatten(items[i], url) == Some(r.0[i])
    ensures r.1 <==> |r.0| < |items|
    ensures r.1 ==> Flatten(items[|r.0|], url).None?
  {
    if items == [] then ([], false)
    else match Flatten(items[0], url)
      case None => ([], true)
      case Some(row) =>
        var rest := FlattenAll(items[1..], url);
        ([row] + rest.0, rest.1)
  }

  /** Python's `len` of the `items` value: `None` where `len` raises. */
  function Length(v: Json): Option<nat> {
    match v
    case JArr(elems) => Some(|elems|)
    case JStr(s) => Some(|s|)
    case JObj(fields) => Some(|fields|)
    case _ => None
  }

  /** The body of one iteration of the page loop, up to the progress update. */
  function PageEffect(page: int, url: string, response: Response): Effect<PageRecord> {
    match response
    case NoResponse => Effect([], [], true)
    case Reply(status, body) =>
      if status != 200 then Effect([], [PageError(page, status)], false)
      else if body.None? || !body.value.JObj? then Effect([], [], true)
      else
        var items := GetOr(body.value.fields, "items", JArr([]));
        match Length(items)
        case None => Effect([], [], true)
        case Some(count) =>
          var log := [PageFound(page, count)];
          match items
          case JArr(elems) =>
            var r := FlattenAll(elems, url);
            Effect(r.0, log, r.1)
          case _ => Effect([], log, count > 0)
  }

  /** What a page contributes: nothing but an error entry for a status other than 200; one row per
      listing, in order, and a count entry, for a page whose listings all flatten; and always at most
      one log entry and only rows carrying the page's address. */
  lemma PageEffectExact(page: int, url: string, response: Response)
    ensures var e := PageEffect(page, url, response);
      && |e.log| <= 1
      && (forall i :: 0 <= i < |e.rows| ==> e.rows[i].apiUrl == url)
      && (response.NoResponse? ==> e == Effect([], [], true))
      && (response.Reply? && response.status != 200 ==> e == Effect([], [PageError(page, response.status)], false))
      && (response.Reply? && response.status == 200 && (response.body.None? || !response.body.value.JObj?) ==>
           e == Effect([], [], true))
      && ((response.Reply? && response.status == 200 && response.body.Some? && response.body.value.JObj? &&
            "items" !in response.body.value.fields) ==> e == Effect([], [PageFound(page, 0)], false))
    ensures (response.Reply? && response.status == 200 && response.body.Some? && response.body.value.JObj?
      && "items" in response.body.value.fields && response.body.value.fields["items"].JArr?)
      ==>
      var elems := response.body.value.fields["items"].elems;
      var e := PageEffect(page, url, response);
      && e.log == [PageFound(page, |elems|)]
      && ((forall i :: 0 <= i < |elems| ==> Flatten(elems[i], url).Some?) <==> !e.raised)
      && (!e.raised ==> |e.rows| == |elems| && forall i :: 0 <= i < |elems| ==> Some(e.rows[i]) == Flatten(elems[i], url))
  {
    var e := PageEffect(page, url, response);
    forall i | 0 <= i < |e.rows| ensures e.rows[i].apiUrl == url {
      var elems := response.body.value.fields["items"].elems;
      FlattenKeepsUrl(elems[i], url);
    }
  }

  lemma FlattenKeepsUrl(item: Json, url: string)
    ensures Flatten(item, url).Some? ==> Flatten(item, url).value.apiUrl == url
  {
  }

  lemma PageRowsCarryUrl(page: int, url: string, response: Response)
    ensures forall r :: r in PageEffect(page, url, response).rows ==> r.apiUrl == url
  {
    PageEffectExact(page, url, response);
  }

  /** The page loop's iterations, page by page. */
  function PageEffects(limit: int, net: string -> Response): int -> Effect<PageRecord> {
    page => PageEffect(page, PageUrl(page, limit), net(PageUrl(page, limit)))
  }

  /** The number of pages `start..end` visits. */
  function PageCount(start: int, end: int): nat {
    if end >= start then end - start + 1 else 0
  }

  /** A run needs a cookie: `None` and the empty string are refused. */
  predicate HasCookie(cookie: Option<string>) {
    cookie.Some? && cookie.value != ""
  }

  /** The loop as written: the progress update reads `End_ID` and `Start_ID`, which this function
      never defines, so every iteration raises there and ends in the handler. */
  const AsWrittenLoop: Config := Config(5, " ", true)

  /** The loop as intended: the progress update succeeds and the buffer is written out once it
      holds five entries. */
  const IntendedLoop: Config := Config(5, " ", false)

  /** The run as written, from the cookie check to the code after the loop. */
  function RunAsWritten(start: int, end: int, limit: int, cookie: Option<string>, net: string -> Response): Outcome<PageRecord> {
    if !HasCookie(cookie) then Raised(MissingCookie, [])
    else FinishAsWritten(Iterate(start, PageCount(start, end), PageEffects(limit, net), AsWrittenLoop))
  }

  /** As written, no run ever saves anything: with a cookie, every page ends in the handler, so
      `log_entry` is never assigned and the code after the loop raises before the export. The rows
      collected are lost, however many pages answered. */
  lemma AsWrittenNeverSaves(start: int, end: int, limit: int, cookie: Option<string>, net: string -> Response)
    ensures RunAsWritten(start, end, limit, cookie, net).Raised?
    ensures HasCookie(cookie) ==>
      && RunAsWritten(start, end, limit, cookie, net).error == UnboundLogEntry
      && RunAsWritten(start, end, limit, cookie, net).emitted == Iterate(start, PageCount(start, end), PageEffects(limit, net), AsWrittenLoop).emitted
      && |RunAsWritten(start, end, limit, cookie, net).emitted| == PageCount(start, end)
      && Written(RunAsWritten(start, end, limit, cookie, net).emitted) == []
  {
    if HasCookie(cookie) {
      var n := PageCount(start, end);
      IterateAlwaysRaising(start, n, PageEffects(limit, net), AsWrittenLoop);
      WrittenWithoutLines(Iterate(start, n, PageEffects(limit, net), AsWrittenLoop).emitted);
    }
  }

  lemma {:induction false} WrittenWithoutLines(emitted: seq<Emission>)
    requires CountLines(emitted) == 0
    ensures Written(emitted) == []
  {
    if emitted != [] {
      WrittenWithoutLines(emitted[..|emitted| - 1]);
    }
  }

  /** The run as intended. */
  function RunCorrected(start: int, end: int, limit: int, cookie: Option<string>, net: string -> Response): Outcome<PageRecord> {
    if !HasCookie(cookie) then Raised(MissingCookie, [])
    else FinishCorrected(Iterate(start, PageCount(start, end), PageEffects(limit, net), IntendedLoop))
  }

  /** The scraper with the progress update and the code after the loop fixed: a run with a cookie
      finishes, keeps every row every page produced in page order, writes out every log entry
      exactly once in order, and shows an error for exactly the pages that raised. */
  method ScrapePaginated(start: int, end: int, limit: int, cookie: Option<string>, net: string -> Response)
    returns (outcome: Outcome<PageRecord>)
    ensures outcome == RunCorrected(start, end, limit, cookie, net)
    ensures outcome.Raised? <==> !HasCookie(cookie)
    ensures outcome.Finished? ==>
      var effects := PageEffects(limit, net);
      var n := PageCount(start, end);
      && outcome.rows == AllRows(start, n, effects)
      && Written(outcome.emitted) == AllLog(start, n, effects)
      && Notes(outcome.emitted) == Raising(start, n, effects)
  {
    if cookie.None? || cookie.value == "" {
      return Raised(MissingCookie, []);
    }
    var effects := PageEffects(limit, net);
    var n := PageCount(start, end);
    var rows, tempLog, emitted, idx, logEntry := RunLoop(start, n, effects, IntendedLoop);
    var st := LoopState(rows, tempLog, emitted, idx, logEntry);
    if tempLog != [] {
      emitted := emitted + [LogLine(Pieces(tempLog, " "))];
    }
    outcome := Finished(rows, emitted);
    IterateAccounts(start, n, effects, IntendedLoop);
    FinishCorrectedWritesAll(st);
    NotesAppend(st.emitted, LogLine(Pieces(tempLog, " ")));
  }

  /** Every row of a finished run comes from one of the pages asked for and carries its address. */
  lemma RowsComeFromPages(start: int, n: nat, limit: int, net: string -> Response)
    ensures forall r :: r in AllRows(start, n, PageEffects(limit, net)) ==>
      exists page :: start <= page < start + n && r.apiUrl == PageUrl(page, limit)
  {
    var effects := PageEffects(limit, net);
    var fromPage := (page: int, r: PageRecord) => r.apiUrl == PageUrl(page, limit);
    forall page, r | start <= page < start + n && r in effects(page).rows ensures fromPage(page, r) {
      var url := PageUrl(page, limit);
      assert effects(page) == PageEffect(page, url, net(url));
      PageRowsCarryUrl(page, url, net(url));
    }
    AllRowsTagged(start, n, effects, fromPage);
  }

  /** Pages whose answer is not 200 contribute no rows: only the pages that answered 200 fill the
      file. */
  lemma OnlyAnsweredPagesGiveRows(start: int, n: nat, limit: int, net: string -> Response)
    requires forall page :: start <= page < start + n ==>
      net(PageUrl(page, limit)).NoResponse? || net(PageUrl(page, limit)).status != 200
    ensures AllRows(start, n, PageEffects(limit, net)) == []
  {
    var effects := PageEffects(limit, net);
    forall page | start <= page < start + n ensures effects(page).rows == [] {
      var url := PageUrl(page, limit);
      assert effects(page) == PageEffect(page, url, net(url));
      UnansweredPageGivesNoRows(page, url, net(url));
    }
    AllRowsEmpty(start, n, effects);
  }

  lemma UnansweredPageGivesNoRows(page: int, url: string, response: Response)
    requires response.NoResponse? || response.status != 200
    ensures PageEffect(page, url, response).rows == []
  {
  }
}
