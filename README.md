# TinyLink request logic in Dafny

A model of the request handlers of TinyLink, a URL shortener (`server.js`):
short alphanumeric codes map to target URLs, visiting a code redirects to its
target and counts a click. The MySQL `links` table is modelled as an in-memory
sequence of rows (`id`, `code`, `target_url`, `total_clicks`,
`last_clicked_at`, `created_at`) held by the class `Server.LinkService`, whose
methods are the handlers:

- `POST /api/links` (`CreateLink`, with `InsertLink` for the INSERT and the
  re-read): the ordered 400 checks, the bounded generation loop
  (`Allocation.AllocateCode`, ten attempts, 500 when all are taken), the
  second existence check (409), the insert (201);
- `GET /api/links` (`ListLinks`), `GET /api/links/:code` (`GetLink`),
  `DELETE /api/links/:code` (`DeleteLink`);
- `GET /:code` (`Redirect`, split into the read-only lookup `Resolve` and the
  click update `RecordClick`);
- `GET /` (`Dashboard`): the row count and the click total.

The string logic is pure: `Validation` holds the code pattern
`^[A-Za-z0-9]{6,8}$`, the http/https scheme test and `String.prototype.trim`;
`CodeGen` holds `generateCode` over the 62-character alphabet; `Links` holds
the table queries (lookup by code and by id, delete by code, the click
update, the click total, the row summaries) and their lemmas. `Scenarios`
calls the handlers in sequence on a fresh service and proves the outcomes from
the handlers' contracts.

Handlers run one at a time. In that setting the check-then-insert of the
create handler (`server.js` lines 137-147) is what keeps codes unique: no
unique index appears in the code, and the class invariant `Valid()` (distinct
codes, distinct ids, ids below the next auto-increment value) is preserved by
every handler. The handler checks, then inserts; a code found at the second
check (`server.js` lines 137-140) is answered with 409 and not retried, even
on the generation path. The model follows that.

Randomness is injected: each generation attempt receives an `AttemptDraws`
value (the length draw in 0..2 and one alphabet position per character), the
values `Math.floor(Math.random() * k)` can produce. The URL parser is a
parameter `urlProtocol` that yields the parsed `protocol` or `None` when
`new URL` throws. Clock values (`NOW()`, the `created_at` default) are
parameters of type `Timestamp`.

## Model

| member | source | states |
|---|---|---|
| `Validation.IsValidCode` | tinylink-project/tinylink/server.js:31-33 | the pattern `^[A-Za-z0-9]{6,8}$`, read as greedy matching from the start anchor, accepts exactly the strings of length 6 to 8 whose every character is an ASCII letter or digit |
| `Validation.HealthzIsValidCode` | tinylink-project/tinylink/server.js:31-33 | the path `healthz` of the health-check route passes `isValidCode`, so it can be a link's code |
| `Validation.CodeCharRun` | tinylink-project/tinylink/server.js:32 | the run of class characters after the start anchor is all letters or digits and stops at the first other character |
| `Validation.IsValidUrl` | tinylink-project/tinylink/server.js:22-29 | false when `new URL` throws; true exactly for the parsed protocols `http:` and `https:` |
| `Validation.LeadingBlanks` | tinylink-project/tinylink/server.js:106 | counts the whitespace characters at the start of the string: all of them are whitespace and the next one, if any, is not |
| `Validation.TrailingBlanks` | tinylink-project/tinylink/server.js:106 | counts the whitespace characters at the end of the string: all of them are whitespace and the one before them, if any, is not |
| `Validation.TrimStart` | tinylink-project/tinylink/server.js:106 | leaves a suffix of the input, everything cut off is JavaScript whitespace, and what remains does not start with whitespace |
| `Validation.TrimEnd` | tinylink-project/tinylink/server.js:106 | leaves a prefix of the input, everything cut off is whitespace, and what remains does not end with whitespace |
| `Validation.Trim` | tinylink-project/tinylink/server.js:106 | `trim()` keeps the contiguous part of the string that starts right after its leading whitespace, and everything after that part is whitespace; a non-empty result starts and ends with a non-whitespace character |
| `Validation.TrimEmptyIffBlank` | tinylink-project/tinylink/server.js:112 | trimming yields the empty string exactly when every character is whitespace |
| `Validation.TrimOfTrimmed` | tinylink-project/tinylink/server.js:113 | a string with no whitespace at either end is unchanged by `trim()` |
| `Validation.TrimIdempotent` | tinylink-project/tinylink/server.js:113 | trimming twice gives the same as trimming once |
| `Validation.ValidCodeIsTrimmed` | tinylink-project/tinylink/server.js:112-114 | a code that passes `isValidCode` has no whitespace at either end, so `trim()` leaves it unchanged |
| `CodeGen.AlphabetIsLiteral` | tinylink-project/tinylink/server.js:36 | the alphabet is exactly the `chars` literal of `generateCode` |
| `CodeGen.AlphabetIsCodeChars` | tinylink-project/tinylink/server.js:36 | the alphabet has 62 characters, each an ASCII letter or digit |
| `CodeGen.AlphabetIndex` | tinylink-project/tinylink/server.js:36 | every ASCII letter and digit occurs in the alphabet |
| `CodeGen.GenerateCode` | tinylink-project/tinylink/server.js:35-42 | the loop returns exactly `length` characters, the i-th being the alphabet character at the i-th draw, each a letter or digit |
| `CodeGen.SpeltCodeIsValid` | tinylink-project/tinylink/server.js:35-42 | any 6 to 8 alphabet draws give a string that passes `isValidCode` |
| `CodeGen.EveryValidCodeIsSpelt` | tinylink-project/tinylink/server.js:31-42 | conversely, every string passing `isValidCode` is produced by some draws of its length |
| `Allocation.CandidateIsValid` | tinylink-project/tinylink/server.js:124-125 | a candidate of length `6 + k`, `k < 3`, always passes `isValidCode` |
| `Allocation.FirstFreeAttempt` | tinylink-project/tinylink/server.js:122-131 | names the first attempt whose candidate the table lacks, every earlier candidate being taken; `None` exactly when all are taken |
| `Allocation.FirstFreeAttemptIs` | tinylink-project/tinylink/server.js:127-130 | a free candidate preceded only by taken ones is the one the loop stops at |
| `Allocation.AllocatedCode` | tinylink-project/tinylink/server.js:120-134 | a code the loop settles on passes `isValidCode` and is absent from the table |
| `Allocation.AllocatedCodeIsFirstFree` | tinylink-project/tinylink/server.js:120-134 | no code is allocated exactly when all ten candidates are taken; otherwise it is the candidate of some attempt all of whose predecessors were taken |
| `Allocation.AllocateCode` | tinylink-project/tinylink/server.js:120-131 | the `while` loop makes between 1 and 10 attempts, stops right after the first free candidate and returns it, and gives up after exactly 10 when every candidate is taken |
| `Links.HasCode` | tinylink-project/tinylink/server.js:137-138 | `SELECT 1 … WHERE code = ?` returns a row exactly when some row of the table carries the code; an empty table has none |
| `Links.FindByCode` | tinylink-project/tinylink/server.js:247-252 | `rows[0]` of the lookup by code: found exactly when some row has the code, and then the first such row |
| `Links.FindById` | tinylink-project/tinylink/server.js:150-155 | `rows[0]` of the re-read by id: found exactly when some row has the id, and then the first such row |
| `Links.FoundRowIsOnly` | tinylink-project/tinylink/server.js:198-207 | with distinct codes the lookup returns the one row carrying the code |
| `Links.AppendKeepsDistinct` | tinylink-project/tinylink/server.js:137-147 | inserting after the existence check, under a fresh id, keeps codes and ids pairwise distinct |
| `Links.RemoveCode` | tinylink-project/tinylink/server.js:227 | the DELETE keeps exactly the rows with another code; it removes something exactly when the code was present, and otherwise leaves the table as it was |
| `Links.RemoveCodeRemovesOne` | tinylink-project/tinylink/db.js:27-31 | with distinct codes, deleting a present code affects exactly one row |
| `Links.RemoveCodeKeepsDistinct` | tinylink-project/tinylink/server.js:227 | deleting keeps codes and ids pairwise distinct |
| `Links.ClickById` | tinylink-project/tinylink/server.js:254-256 | the UPDATE keeps the number of rows and every row's id and code |
| `Links.ClickTouchesOnlyCounters` | tinylink-project/tinylink/server.js:254-256 | the UPDATE keeps every row's id, code, target and creation time, adds exactly 1 to the matched row's counter and stamps its last-click time, and leaves other rows equal |
| `Links.TotalClicks` | tinylink-project/tinylink/server.js:59 | the `reduce` sum is at least every row's counter |
| `Links.TotalClicksAppend` | tinylink-project/tinylink/server.js:59 | a new row adds its own counter to the total |
| `Links.TotalClicksSame` | tinylink-project/tinylink/server.js:59 | tables whose counters agree row by row have the same total |
| `Links.TotalClicksOneMore` | tinylink-project/tinylink/server.js:59 | tables that differ only by one extra click on one row differ by one in the total |
| `Links.ClickAddsOne` | tinylink-project/tinylink/server.js:254-256 | with distinct ids, one click update on a present id raises the total by exactly 1 |
| `Links.ShortUrlDeterminesCode` | tinylink-project/tinylink/server.js:163 | for a fixed `BASE_URL`, two short URLs are equal exactly when their codes are |
| `Links.Summary` | tinylink-project/tinylink/server.js:157-164 | the JSON object echoes the row's code, target, click count, last-click time and creation time, and its `shortUrl` is `BASE_URL`, a slash, then that code |
| `Links.Summaries` | tinylink-project/tinylink/server.js:178-185 | `rows.map` gives one entry per row, each with that row's code |
| `Links.SummariesFaithful` | tinylink-project/tinylink/server.js:178-185 | the list has one entry per row, in row order, echoing the row's fields with `shortUrl = BASE_URL + "/" + code`; distinct codes give distinct short URLs |
| `Server.CustomCode` | tinylink-project/tinylink/server.js:112-113 | a custom code is present only for a string field, and is its non-empty trimmed form |
| `Server.BlankCodeIsGenerated` | tinylink-project/tinylink/server.js:112-119 | a missing, non-string or whitespace-only `code` takes the generation path, and only those do |
| `Server.CheckCreateRequest` | tinylink-project/tinylink/server.js:102-118 | accepts exactly a non-empty string target whose trimmed form has scheme http or https, with either no custom code or a valid one; the first failing check picks the message (target required, invalid URL, then the 6-8 characters message for a non-blank invalid custom code); an accepted request carries the trimmed target and trimmed custom code |
| `Server.DecideCreate` | tinylink-project/tinylink/server.js:100-147 | the create handler ends in 400, 409 or 500, or inserts a valid code the table lacks |
| `Server.CreateRejectsBeforeTableAccess` | tinylink-project/tinylink/server.js:102-118 | 400 happens exactly for a rejected request, whatever the table holds, with the message of the failed check |
| `Server.CreateConflictsOnlyOnCustomCode` | tinylink-project/tinylink/server.js:137-140 | 409 happens exactly when a valid custom code is already in the table; a generated code never conflicts |
| `Server.CreateExhaustsOnlyWhenAllTaken` | tinylink-project/tinylink/server.js:132-134 | 500 happens exactly on the generation path when all ten candidates are taken |
| `Server.CreateInsertsChosenCode` | tinylink-project/tinylink/server.js:142-147 | an insert stores the trimmed target under the custom code, or else under the first free generated candidate |
| `Server.LinkService.CreateLink` | tinylink-project/tinylink/server.js:98-169 | every turn-away answers its status and message with table and id counter unchanged; an insert appends exactly one row (fresh id, chosen code, trimmed target, no clicks) and answers 201 with its summary; codes stay distinct |
| `Server.LinkService.InsertLink` | tinylink-project/tinylink/server.js:142-164 | the INSERT appends one row under the next id, the re-read finds it, and the 201 body echoes that row with its short URL |
| `Server.LinkService.ListLinks` | tinylink-project/tinylink/server.js:172-192 | answers 200 with one summary per row, in table order |
| `Server.LinkService.GetLink` | tinylink-project/tinylink/server.js:195-221 | 404 with "Short link not found." exactly when no row has the code; otherwise 200 with the summary of the row that has it |
| `Server.LinkService.DeleteLink` | tinylink-project/tinylink/server.js:224-236 | removes the row with the code and answers 204 when one was there (exactly one row fewer); otherwise 404 and the table unchanged; no other row is touched |
| `Server.LinkService.Resolve` | tinylink-project/tinylink/server.js:242-252 | `favicon.ico` and `robots.txt` are 404 before any lookup, an unknown code is the rendered 404, a known code is a 302 to that row's target and names its id for the click update |
| `Server.LinkService.RecordClick` | tinylink-project/tinylink/server.js:254-259 | the click update applies to the rows with that id and keeps the invariant |
| `Server.LinkService.Redirect` | tinylink-project/tinylink/server.js:239-269 | `favicon.ico` and `robots.txt` get an empty 404, an unknown code the rendered 404 page, a known code a 302 to its target; the response does not depend on whether the click update is delivered; on a delivered click exactly that row gains one click and the total rises by one; no code or target changes and no counter decreases |
| `Server.LinkService.Dashboard` | tinylink-project/tinylink/server.js:55-73 | renders the rows with `totalLinks` their number and `totalClicks` the sum of their counters |
| `Scenarios.PlainRequestAccepted` | tinylink-project/tinylink/server.js:102-118 | an http(s) target with nothing to trim, with no custom code or a valid one, passes validation unchanged |
| `Scenarios.CreateThenVisit` | tinylink-project/tinylink/server.js:119-164 | on an empty table, creating without a code gives 201 with a valid code, no clicks and the target; visiting that code is a 302 to the target |
| `Scenarios.CreateWithCode` | tinylink-project/tinylink/server.js:112-164 | on an empty table, creating with a valid custom code gives 201 and one row with that code |
| `Scenarios.SameCustomCodeTwice` | tinylink-project/tinylink/server.js:137-140 | creating twice with the same custom code gives 201 then 409, leaving one row |
| `Scenarios.DeleteUnknown` | tinylink-project/tinylink/server.js:224-230 | deleting any code on an empty table is 404 |

## Left out

- `Server.LinkService.Redirect`: models the `GET /:code` handler only, not the router in front of it. Express matches `/healthz` (registered first, at `server.js` line 45) without regard to letter case, so a link whose code is any letter-case variant of `healthz` (a valid 7-character code, see `Validation.HealthzIsValidCode`, which create accepts and the generator can draw) is answered with the health check and never redirected. The same holds for `Scenarios.CreateThenVisit`, which calls the handler directly.
- `Validation.IsValidUrl`: only the comparison of the parsed protocol with `http:` and `https:` is modelled; URL parsing itself (the WHATWG URL Standard behind `new URL`) is an injected function.
- `Math.random()` is replaced by injected draws in range; their uniformity is not modelled.
- Concurrency: handlers run one at a time, so the window between the existence checks and the INSERT is not modelled; the un-awaited click UPDATE is a separate step that is either applied or dropped (its `.catch` only logs).
- Storage failures: the `catch` blocks that answer 500 (or render the error page) when a query throws are not modelled; every query succeeds.
- `Server.LinkService.ListLinks`: returns rows in table (insertion) order; the database's `ORDER BY created_at DESC` is not modelled. The same holds for the rows the dashboard renders.
- `Server.LinkService.InsertLink`: the 500 the handler would give if the re-read by id found nothing (reading `link.code` of `undefined` throws) is proved impossible in the sequential model and not kept as a branch.
- Column defaults are assumed, as the schema is not in the source: a new row has 0 clicks, no last-click time and `created_at` equal to the clock value given to the handler; `AUTO_INCREMENT` is the counter `nextId`, starting at 1. Counters are never NULL, so `row.total_clicks || 0` is the counter itself.
- Codes are compared as exact, case-sensitive strings in every `WHERE code = ?` (lookup, existence checks, DELETE): an assumption about the column's collation, which the code does not show. Under a case-insensitive collation `GET /ABCDEF` would reach the row `abcdef`, and a custom `ABCdef` would conflict with it.
- Strings are sequences of Unicode scalar values, not UTF-16 code units; every character `trim()` strips lies in the Basic Multilingual Plane.
- Rendered views are represented by the data passed to them (the 404 page's message, the dashboard's rows and totals); the HTML stats page at `GET /code/:code`, `/healthz`, static files, the catch-all 404, the error middleware, `app.listen` and `dotenv` configuration (`BASE_URL` is a constructor argument) are not modelled.
- `public/js/main.js` (browser UI) and the connection pool of `db.js` are not part of this model; from `db.js` only the affected-row count of DELETE is carried over.
