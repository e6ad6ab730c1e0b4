/**
 * The request handlers of server.js over the `links` table: create, list,
 * look up, delete, redirect with click accounting, and the dashboard totals.
 * Handlers run one at a time; each query sees the table as the previous
 * statement left it.
 */
module Server {
  import opened Wrappers
  import opened Validation
  import opened Links
  import opened Allocation

  /** A field of the JSON request body: missing, a string, or any other JSON value. */
  datatype Field = Absent | Text(s: string) | NonText

  /** What a handler answers with. */
  datatype Body =
    | NoContent                                  // `res.status(...).end()` / `.send()`
    | ErrorJson(error: string)                   // `res.json({ error })`
    | LinkJson(link: LinkSummary)
    | LinkListJson(summaries: seq<LinkSummary>)
    | NotFoundPage(message: string)              // the rendered `404` view
    | RedirectTo(location: string)
    | DashboardPage(table: seq<Link>, totalLinks: nat, totalClicks: nat, baseUrl: string)

  datatype Response = Response(status: nat, body: Body)

  const TargetRequired := "targetUrl is required."
  const InvalidUrl := "Please provide a valid http/https URL."
  const InvalidCode := "Custom code must be 6-8 characters long and only contain letters and numbers."
  const GenerationFailed := "Failed to generate a unique short code. Please try again."
  const CodeTaken := "That short code is already taken. Try another one."
  const LinkNotFound := "Short link not found."
  const PageNotFound := "Short link not found"

  /**
   * The custom code a create request carries: a string field whose trimmed
   * form is not empty. A missing, non-string or blank `code` asks for a
   * generated one.
   */
  function CustomCode(code: Field): (c: Option<string>)
    ensures c.Some? ==> code.Text? && c.value == Trim(code.s) && c.value != ""
  {
    if code.Text? && code.s != "" && Trim(code.s) != "" then Some(Trim(code.s)) else None
  }

  /** A missing, non-string or whitespace-only `code` takes the generation path. */
  lemma BlankCodeIsGenerated(code: Field)
    ensures CustomCode(code).None? <==>
      !code.Text? || forall i :: 0 <= i < |code.s| ==> IsTrimmable(code.s[i])
  {
    if code.Text? {
      TrimEmptyIffBlank(code.s);
    }
  }

  /** A create request that passed validation: trimmed target, optional custom code. */
  datatype CreateRequest = CreateRequest(targetUrl: string, customCode: Option<string>)

  datatype Checked = Accepted(request: CreateRequest) | Rejected(message: string)

  /**
   * The checks of `POST /api/links` before the table is queried, in the
   * order the handler makes them; the first that fails picks the message.
   */
  function CheckCreateRequest(targetUrl: Field, code: Field, urlProtocol: string -> Option<string>): (r: Checked)
    ensures r.Accepted? <==>
      targetUrl.Text? && targetUrl.s != "" && IsValidUrl(urlProtocol(Trim(targetUrl.s))) &&
      (CustomCode(code).Some? ==> IsValidCode(CustomCode(code).value))
    ensures !(targetUrl.Text? && targetUrl.s != "") ==> r == Rejected(TargetRequired)
    ensures targetUrl.Text? && targetUrl.s != "" && !IsValidUrl(urlProtocol(Trim(targetUrl.s))) ==>
      r == Rejected(InvalidUrl)
    ensures (targetUrl.Text? && targetUrl.s != "" && IsValidUrl(urlProtocol(Trim(targetUrl.s))) &&
             CustomCode(code).Some? && !IsValidCode(CustomCode(code).value)) ==>
      r == Rejected(InvalidCode)
    ensures r.Rejected? ==> r.message in {TargetRequired, InvalidUrl, InvalidCode}
    ensures r.Accepted? ==> r.request == CreateRequest(Trim(targetUrl.s), CustomCode(code))
    ensures r.Accepted? && r.request.customCode.Some? ==> IsValidCode(r.request.customCode.value)
  {
    if !targetUrl.Text? || targetUrl.s == "" then Rejected(TargetRequired)
    else
      var url := Trim(targetUrl.s);
      if !IsValidUrl(urlProtocol(url)) then Rejected(InvalidUrl)
      else match CustomCode(code)
        case Some(c) => if IsValidCode(c) then Accepted(CreateRequest(url, Some(c))) else Rejected(InvalidCode)
        case None => Accepted(CreateRequest(url, None))
  }

  /** What `POST /api/links` decides from the request and the table it queries. */
  datatype CreateOutcome = Fail(status: nat, message: string) | Insert(code: string, targetUrl: string)

  /**
   * The decision of `POST /api/links`: a status for a request turned away,
   * or the insert of a valid code the table lacks.
   */
  function DecideCreate(targetUrl: Field, code: Field, urlProtocol: string -> Option<string>,
                        rows: seq<Link>, draws: seq<AttemptDraws>): (o: CreateOutcome)
    requires Randomness(draws)
    ensures o.Fail? ==> o.status in {400, 409, 500}
    ensures o.Insert? ==> IsValidCode(o.code) && !HasCode(rows, o.code)
  {
    match CheckCreateRequest(targetUrl, code, urlProtocol)
    case Rejected(message) => Fail(400, message)
    case Accepted(request) =>
      var chosen := if request.customCode.Some? then request.customCode else AllocatedCode(rows, draws);
      if chosen.None? then Fail(500, GenerationFailed)
      else if HasCode(rows, chosen.value) then Fail(409, CodeTaken)
      else Insert(chosen.value, request.targetUrl)
  }

  /**
   * The 400 answers come from the request alone, whatever the table holds,
   * with the message of the first check that failed.
   */
  lemma CreateRejectsBeforeTableAccess(targetUrl: Field, code: Field, urlProtocol: string -> Option<string>,
                                       rows: seq<Link>, draws: seq<AttemptDraws>)
    requires Randomness(draws)
    ensures var o := DecideCreate(targetUrl, code, urlProtocol, rows, draws);
      var checked := CheckCreateRequest(targetUrl, code, urlProtocol);
      (o.Fail? && o.status == 400 <==> checked.Rejected?) &&
      (checked.Rejected? ==> o == Fail(400, checked.message))
  {
  }

  /** 409 happens exactly for a custom code already in the table: a generated code never conflicts. */
  lemma CreateConflictsOnlyOnCustomCode(targetUrl: Field, code: Field, urlProtocol: string -> Option<string>,
                                        rows: seq<Link>, draws: seq<AttemptDraws>)
    requires Randomness(draws)
    ensures var o := DecideCreate(targetUrl, code, urlProtocol, rows, draws);
      (o.Fail? && o.status == 409 <==>
        CheckCreateRequest(targetUrl, code, urlProtocol).Accepted? &&
        CustomCode(code).Some? && HasCode(rows, CustomCode(code).value)) &&
      (o.Fail? && o.status == 409 ==> o.message == CodeTaken)
  {
  }

  /** 500 happens exactly on the generation path when all ten candidates are taken. */
  lemma CreateExhaustsOnlyWhenAllTaken(targetUrl: Field, code: Field, urlProtocol: string -> Option<string>,
                                       rows: seq<Link>, draws: seq<AttemptDraws>)
    requires Randomness(draws)
    ensures var o := DecideCreate(targetUrl, code, urlProtocol, rows, draws);
      (o.Fail? && o.status == 500 <==>
        CheckCreateRequest(targetUrl, code, urlProtocol).Accepted? && CustomCode(code).None? &&
        forall j :: 0 <= j < MaxAttempts ==> HasCode(rows, Candidate(draws[j]))) &&
      (o.Fail? && o.status == 500 ==> o.message == GenerationFailed)
  {
    var checked := CheckCreateRequest(targetUrl, code, urlProtocol);
    if checked.Accepted? && checked.request.customCode.None? {
      AllocatedCodeIsFirstFree(rows, draws);
    }
  }

  /**
   * An insert stores the trimmed target under the custom code when one was
   * given, and otherwise under the first free generated candidate.
   */
  lemma CreateInsertsChosenCode(targetUrl: Field, code: Field, urlProtocol: string -> Option<string>,
                                rows: seq<Link>, draws: seq<AttemptDraws>)
    requires Randomness(draws)
    ensures var o := DecideCreate(targetUrl, code, urlProtocol, rows, draws);
      o.Insert? ==>
        targetUrl.Text? && o.targetUrl == Trim(targetUrl.s) &&
        (CustomCode(code).Some? ==> o.code == CustomCode(code).value) &&
        (CustomCode(code).None? ==> Some(o.code) == AllocatedCode(rows, draws))
  {
    match CheckCreateRequest(targetUrl, code, urlProtocol)
    case Rejected(_) =>
    case Accepted(request) =>
      assert request == CreateRequest(Trim(targetUrl.s), CustomCode(code));
  }

  class LinkService {
    /** `BASE_URL`. */
    const baseUrl: string
    /** The `links` table, oldest row first. */
    var rows: seq<Link>
    /** The next `AUTO_INCREMENT` value. */
    var nextId: nat

    /** Codes and ids are unique, and every id was handed out already. */
    ghost predicate Valid()
      reads this
    {
      DistinctCodes(rows) && DistinctIds(rows) && 1 <= nextId &&
      forall i :: 0 <= i < |rows| ==> rows[i].id < nextId
    }

    constructor (baseUrl: string)
      ensures Valid() && this.baseUrl == baseUrl && rows == []
    {
      this.baseUrl := baseUrl;
      rows := [];
      nextId := 1;
    }

    /**
     * `POST /api/links`. A rejected request is 400 and a generation path
     * whose ten candidates are all taken is 500, both before any insert.
     * Otherwise a code already in the table is 409 (only a custom code can
     * be); anything else appends exactly one row with that code and the
     * trimmed target, and answers 201 with the re-read row.
     */
    method CreateLink(targetUrl: Field, code: Field, urlProtocol: string -> Option<string>,
                      draws: seq<AttemptDraws>, now: Timestamp) returns (resp: Response)
      requires Valid() && Randomness(draws)
      modifies this
      ensures Valid()
      ensures match DecideCreate(targetUrl, code, urlProtocol, old(rows), draws)
        case Fail(status, message) =>
          resp == Response(status, ErrorJson(message)) && rows == old(rows) && nextId == old(nextId)
        case Insert(c, url) =>
          var link := Link(old(nextId), c, url, 0, None, now);
          rows == old(rows) + [link] && nextId == old(nextId) + 1 &&
          resp == Response(201, LinkJson(Summary(baseUrl, link)))
    {
      var checked := CheckCreateRequest(targetUrl, code, urlProtocol);
      if checked.Rejected? {
        return Response(400, ErrorJson(checked.message));
      }
      var url := checked.request.targetUrl;
      var chosen: string;
      if checked.request.customCode.Some? {
        chosen := checked.request.customCode.value;
      } else {
        var generated, attempts := AllocateCode(rows, draws);
        if generated.None? {
          return Response(500, ErrorJson(GenerationFailed));
        }
        chosen := generated.value;
      }

      var existing := HasCode(rows, chosen);
      if existing {
        return Response(409, ErrorJson(CodeTaken));
      }
      resp := InsertLink(chosen, url, now);
    }

    /**
     * The INSERT of `POST /api/links` and the re-read by the new id: one row
     * appended under a fresh id, with no clicks yet, answered with 201.
     */
    method InsertLink(code: string, url: string, now: Timestamp) returns (resp: Response)
      requires Valid() && !HasCode(rows, code)
      modifies this
      ensures Valid()
      ensures rows == old(rows) + [Link(old(nextId), code, url, 0, None, now)]
      ensures nextId == old(nextId) + 1
      ensures resp == Response(201, LinkJson(Summary(baseUrl, Link(old(nextId), code, url, 0, None, now))))
    {
      var insertedId := nextId;
      var inserted := Link(insertedId, code, url, 0, None, now);
      AppendKeepsDistinct(rows, inserted);
      rows := rows + [inserted];
      nextId := nextId + 1;

      assert rows[|rows| - 1].id == insertedId;
      var found := FindById(rows, insertedId);
      if found.None? {
        // `rows[0]` of an empty result: reading `link.code` would throw and
        // the handler would answer 500, but the row was just inserted
        assert false;
      }
      var link := rows[found.value];
      resp := Response(201, LinkJson(Summary(baseUrl, link)));
    }

    /** `GET /api/links`: one summary per row. */
    method ListLinks() returns (resp: Response)
      ensures resp.status == 200 && resp.body.LinkListJson?
      ensures |resp.body.summaries| == |rows|
      ensures forall i :: 0 <= i < |rows| ==> resp.body.summaries[i] == Summary(baseUrl, rows[i])
    {
      resp := Response(200, LinkListJson(Summaries(baseUrl, rows)));
    }

    /** `GET /api/links/:code`: the summary of the row with that code, or 404. */
    method GetLink(code: string) returns (resp: Response)
      requires Valid()
      ensures resp.status == 404 <==> !HasCode(rows, code)
      ensures resp.status == 404 ==> resp.body == ErrorJson(LinkNotFound)
      ensures resp.status != 404 ==>
        resp.status == 200 &&
        exists i :: 0 <= i < |rows| && rows[i].code == code && resp.body == LinkJson(Summary(baseUrl, rows[i]))
    {
      match FindByCode(rows, code)
      case None =>
        resp := Response(404, ErrorJson(LinkNotFound));
      case Some(i) =>
        resp := Response(200, LinkJson(Summary(baseUrl, rows[i])));
    }

    /**
     * `DELETE /api/links/:code`: removes the row with that code and answers
     * 204; when no row matched (zero affected rows) answers 404 and the table
     * is unchanged. No other row is touched.
     */
    method DeleteLink(code: string) returns (resp: Response)
      requires Valid()
      modifies this
      ensures Valid() && nextId == old(nextId)
      ensures rows == RemoveCode(old(rows), code)
      ensures forall r :: r in rows <==> r in old(rows) && r.code != code
      ensures HasCode(old(rows), code) ==> resp == Response(204, NoContent) && |rows| == |old(rows)| - 1
      ensures !HasCode(old(rows), code) ==> resp == Response(404, ErrorJson(LinkNotFound)) && rows == old(rows)
    {
      var before := |rows|;
      RemoveCodeKeepsDistinct(rows, code);
      if HasCode(rows, code) {
        RemoveCodeRemovesOne(rows, code);
      }
      rows := RemoveCode(rows, code);
      var rowCount := before - |rows|;
      if rowCount == 0 {
        return Response(404, ErrorJson(LinkNotFound));
      }
      return Response(204, NoContent);
    }

    /**
     * The lookup of `GET /:code`: reserved asset paths and unknown codes are
     * 404, a known code is a 302 to its target. Also gives the id whose
     * click is to be accounted. Reads the table only.
     */
    method Resolve(code: string) returns (resp: Response, clicked: Option<nat>)
      requires Valid()
      ensures code == "favicon.ico" || code == "robots.txt" ==> resp == Response(404, NoContent) && clicked == None
      ensures code != "favicon.ico" && code != "robots.txt" && !HasCode(rows, code) ==>
        resp == Response(404, NotFoundPage(PageNotFound)) && clicked == None
      ensures resp.status == 302 <==> code != "favicon.ico" && code != "robots.txt" && HasCode(rows, code)
      ensures resp.status == 302 ==>
        exists i :: 0 <= i < |rows| && rows[i].code == code &&
          resp.body == RedirectTo(rows[i].targetUrl) && clicked == Some(rows[i].id)
    {
      if code == "favicon.ico" || code == "robots.txt" {
        return Response(404, NoContent), None;
      }
      match FindByCode(rows, code)
      case None =>
        resp, clicked := Response(404, NotFoundPage(PageNotFound)), None;
      case Some(i) =>
        resp, clicked := Response(302, RedirectTo(rows[i].targetUrl)), Some(rows[i].id);
    }

    /**
     * The click accounting of `GET /:code`: `total_clicks` plus one and
     * `last_clicked_at` set, on the row with that id.
     */
    method RecordClick(id: nat, now: Timestamp)
      requires Valid()
      modifies this
      ensures Valid() && nextId == old(nextId)
      ensures rows == ClickById(old(rows), id, now)
    {
      ClickTouchesOnlyCounters(rows, id, now);
      var after := ClickById(rows, id, now);
      assert forall i :: 0 <= i < |rows| ==> after[i].code == rows[i].code && after[i].id == rows[i].id;
      rows := after;
    }

    /**
     * The `GET /:code` handler. The click update is not awaited:
     * `clickDropped` says whether it failed (and was only logged). The
     * response is the same either way; a delivered click adds one to that
     * row's counter and changes nothing else. Routes registered earlier
     * (`/healthz`, matched without regard to letter case) never reach it.
     */
    method Redirect(code: string, now: Timestamp, clickDropped: bool) returns (resp: Response)
      requires Valid()
      modifies this
      ensures Valid() && nextId == old(nextId) && |rows| == |old(rows)|
      ensures resp.status == 302 <==> code != "favicon.ico" && code != "robots.txt" && HasCode(old(rows), code)
      ensures resp.status != 302 ==> resp.status == 404 && rows == old(rows)
      ensures resp.status != 302 ==>
        resp.body == (if code == "favicon.ico" || code == "robots.txt" then NoContent else NotFoundPage(PageNotFound))
      ensures resp.status == 302 ==>
        exists i :: 0 <= i < |rows| && old(rows)[i].code == code &&
          resp.body == RedirectTo(old(rows)[i].targetUrl) &&
          rows == (if clickDropped then old(rows) else ClickById(old(rows), old(rows)[i].id, now))
      ensures forall i :: 0 <= i < |rows| ==>
        rows[i].code == old(rows)[i].code && rows[i].targetUrl == old(rows)[i].targetUrl &&
        rows[i].totalClicks >= old(rows)[i].totalClicks
      ensures resp.status == 302 && !clickDropped ==> TotalClicks(rows) == TotalClicks(old(rows)) + 1
    {
      var clicked;
      resp, clicked := Resolve(code);
      if clicked.Some? && !clickDropped {
        ghost var k :| 0 <= k < |rows| && rows[k].code == code && clicked == Some(rows[k].id);
        ClickTouchesOnlyCounters(rows, clicked.value, now);
        ClickAddsOne(rows, clicked.value, now, k);
        RecordClick(clicked.value, now);
      }
    }

    /** `GET /`: the rows, their count and the sum of their click counters. */
    method Dashboard() returns (resp: Response)
      ensures resp.status == 200
      ensures resp.body == DashboardPage(rows, |rows|, TotalClicks(rows), baseUrl)
    {
      var totalLinks := |rows|;
      var totalClicks := TotalClicks(rows);
      resp := Response(200, DashboardPage(rows, totalLinks, totalClicks, baseUrl));
    }
  }
}
