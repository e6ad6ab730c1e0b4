/**
 * Handler calls in sequence on a fresh service, as the handlers answer them
 * (the router in front of them is not modelled): each is proved from the
 * handlers' contracts alone.
 */
module Scenarios {
  import opened Wrappers
  import opened Validation
  import opened Links
  import opened Allocation
  import opened Server

  /** A target with nothing to trim that the URL parser reads as http or https. */
  predicate PlainHttpTarget(url: string, urlProtocol: string -> Option<string>) {
    url != [] && !IsTrimmable(url[0]) && !IsTrimmable(url[|url| - 1]) && IsValidUrl(urlProtocol(url))
  }

  /** Such a target, with a valid custom code or with none, passes validation unchanged. */
  lemma PlainRequestAccepted(url: string, custom: Field, urlProtocol: string -> Option<string>)
    requires PlainHttpTarget(url, urlProtocol)
    requires custom == Absent || (custom.Text? && IsValidCode(custom.s))
    ensures CheckCreateRequest(Text(url), custom, urlProtocol)
      == Accepted(CreateRequest(url, if custom.Text? then Some(custom.s) else None))
  {
    TrimOfTrimmed(url);
    var chosen := if custom.Text? then Some(custom.s) else None;
    if custom.Text? {
      ValidCodeIsTrimmed(custom.s);
    }
    assert CustomCode(custom) == chosen;
    var checked := CheckCreateRequest(Text(url), custom, urlProtocol);
    assert checked.Accepted?;
  }

  /**
   * Creating a link without a code on an empty table succeeds with a valid
   * generated code, and the redirect handler answers that code with a 302 to
   * the target.
   */
  method CreateThenVisit(url: string, urlProtocol: string -> Option<string>, draws: seq<AttemptDraws>, now: Timestamp)
    returns (created: Response, visited: Response)
    requires PlainHttpTarget(url, urlProtocol)
    requires Randomness(draws)
    ensures created.status == 201 && created.body.LinkJson?
    ensures IsValidCode(created.body.link.code) && created.body.link.targetUrl == url
    ensures created.body.link.totalClicks == 0 && created.body.link.lastClickedAt == None
    ensures visited == Response(302, RedirectTo(url))
  {
    var service := new LinkService("http://localhost:3000");
    PlainRequestAccepted(url, Absent, urlProtocol);
    assert AllocatedCode([], draws).Some?;
    created := service.CreateLink(Text(url), Absent, urlProtocol, draws, now);
    var code := created.body.link.code;
    assert service.rows[0].code == code;
    assert |code| <= 8 < |"robots.txt"| < |"favicon.ico"|;
    visited := service.Redirect(code, now, false);
  }

  /** A fresh service after creating `code` for `url`. */
  method CreateWithCode(url: string, code: string, urlProtocol: string -> Option<string>,
                        draws: seq<AttemptDraws>, now: Timestamp)
    returns (service: LinkService, created: Response)
    requires PlainHttpTarget(url, urlProtocol) && IsValidCode(code)
    requires Randomness(draws)
    ensures fresh(service) && service.Valid() && service.baseUrl == "http://localhost:3000"
    ensures |service.rows| == 1 && service.rows[0].code == code
    ensures created.status == 201 && created.body.LinkJson? && created.body.link.code == code
    ensures created.body.link.shortUrl == ShortUrl("http://localhost:3000", code)
  {
    service := new LinkService("http://localhost:3000");
    PlainRequestAccepted(url, Text(code), urlProtocol);
    assert DecideCreate(Text(url), Text(code), urlProtocol, [], draws) == Insert(code, url);
    created := service.CreateLink(Text(url), Text(code), urlProtocol, draws, now);
  }

  /** Creating twice with the same custom code: 201, then 409 with the table unchanged. */
  method SameCustomCodeTwice(url: string, code: string, urlProtocol: string -> Option<string>,
                             draws: seq<AttemptDraws>, now: Timestamp)
    returns (first: Response, second: Response, linksAfter: nat)
    requires PlainHttpTarget(url, urlProtocol) && IsValidCode(code)
    requires Randomness(draws)
    ensures first.status == 201 && first.body.LinkJson? && first.body.link.code == code
    ensures first.body.link.shortUrl == ShortUrl("http://localhost:3000", code)
    ensures second == Response(409, ErrorJson(CodeTaken))
    ensures linksAfter == 1
  {
    var service;
    service, first := CreateWithCode(url, code, urlProtocol, draws, now);
    assert HasCode(service.rows, code);
    PlainRequestAccepted(url, Text(code), urlProtocol);
    assert DecideCreate(Text(url), Text(code), urlProtocol, service.rows, draws) == Fail(409, CodeTaken);
    second := service.CreateLink(Text(url), Text(code), urlProtocol, draws, now + 1);
    linksAfter := |service.rows|;
  }

  /** Deleting any code on an empty table is 404. */
  method DeleteUnknown(code: string) returns (resp: Response)
    ensures resp == Response(404, ErrorJson(LinkNotFound))
  {
    var service := new LinkService("http://localhost:3000");
    resp := service.DeleteLink(code);
  }
}
