/**
 * The `links` table as the handlers see it: rows with `id`, `code`,
 * `target_url`, `total_clicks`, `last_clicked_at` and `created_at`, and the
 * queries server.js issues against it, each stated over the rows.
 */
module Links {
  import opened Wrappers

  /** An opaque clock value (`NOW()` and the `created_at` default). */
  type Timestamp = nat

  /** One row of the `links` table. */
  datatype Link = Link(
    id: nat,
    code: string,
    targetUrl: string,
    totalClicks: nat,
    lastClickedAt: Option<Timestamp>,
    createdAt: Timestamp)

  /** The JSON object the API returns for a row. */
  datatype LinkSummary = LinkSummary(
    code: string,
    targetUrl: string,
    totalClicks: nat,
    lastClickedAt: Option<Timestamp>,
    createdAt: Timestamp,
    shortUrl: string)

  /** Some row carries `code` (`SELECT 1 FROM links WHERE code = ?` returns a row). */
  predicate HasCode(rows: seq<Link>, code: string): (found: bool)
    ensures found <==> exists r :: r in rows && r.code == code
    ensures found ==> rows != []
  {
    exists i :: 0 <= i < |rows| && rows[i].code == code
  }

  /** No two rows share a code. */
  predicate DistinctCodes(rows: seq<Link>) {
    forall i, j :: 0 <= i < j < |rows| ==> rows[i].code != rows[j].code
  }

  /** No two rows share an id. */
  predicate DistinctIds(rows: seq<Link>) {
    forall i, j :: 0 <= i < j < |rows| ==> rows[i].id != rows[j].id
  }

  /** `rows[0]` of `SELECT ... WHERE code = ?`: the first row with that code, if any. */
  function FindByCode(rows: seq<Link>, code: string): (r: Option<nat>)
    ensures r.None? <==> !HasCode(rows, code)
    ensures r.Some? ==> r.value < |rows| && rows[r.value].code == code
    ensures r.Some? ==> forall j :: 0 <= j < r.value ==> rows[j].code != code
  {
    if rows == [] then None
    else if rows[0].code == code then Some(0)
    else match FindByCode(rows[1..], code)
      case None => None
      case Some(k) => Some(k + 1)
  }

  /** `rows[0]` of `SELECT ... WHERE id = ?`: the first row with that id, if any. */
  function FindById(rows: seq<Link>, id: nat): (r: Option<nat>)
    ensures r.None? <==> forall j :: 0 <= j < |rows| ==> rows[j].id != id
    ensures r.Some? ==> r.value < |rows| && rows[r.value].id == id
    ensures r.Some? ==> forall j :: 0 <= j < r.value ==> rows[j].id != id
  {
    if rows == [] then None
    else if rows[0].id == id then Some(0)
    else match FindById(rows[1..], id)
      case None => None
      case Some(k) => Some(k + 1)
  }

  /** Under distinct codes, the row found for a code is the only one carrying it. */
  lemma FoundRowIsOnly(rows: seq<Link>, code: string, j: nat)
    requires DistinctCodes(rows)
    requires j < |rows| && rows[j].code == code
    ensures FindByCode(rows, code) == Some(j)
  {
    var k := FindByCode(rows, code).value;
    assert rows[k].code == rows[j].code;
  }

  /**
   * `DELETE FROM links WHERE code = ?`: keeps, in order, every row with
   * another code. The number of affected rows is the drop in length.
   */
  function RemoveCode(rows: seq<Link>, code: string): (kept: seq<Link>)
    ensures |kept| <= |rows|
    ensures forall r :: r in kept <==> r in rows && r.code != code
    ensures |kept| == |rows| <==> !HasCode(rows, code)
    ensures !HasCode(rows, code) ==> kept == rows
  {
    if rows == [] then []
    else
      var last := rows[|rows| - 1];
      var init := RemoveCode(rows[..|rows| - 1], code);
      assert rows == rows[..|rows| - 1] + [last];
      assert HasCode(rows, code) <==> HasCode(rows[..|rows| - 1], code) || last.code == code by {
        if HasCode(rows, code) && last.code != code {
          var i :| 0 <= i < |rows| && rows[i].code == code;
          assert rows[..|rows| - 1][i].code == code;
        }
      }
      if last.code == code then init else init + [last]
  }

  /**
   * Inserting a row whose code is absent and whose id is above every id in
   * use keeps codes and ids distinct: the check-then-insert of the create
   * handler is what keeps codes unique.
   */
  lemma AppendKeepsDistinct(rows: seq<Link>, link: Link)
    requires DistinctCodes(rows) && DistinctIds(rows)
    requires !HasCode(rows, link.code)
    requires forall i :: 0 <= i < |rows| ==> rows[i].id < link.id
    ensures DistinctCodes(rows + [link]) && DistinctIds(rows + [link])
  {
    var all := rows + [link];
    forall i, j | 0 <= i < j < |all| ensures all[i].code != all[j].code && all[i].id != all[j].id {
      if j == |rows| {
        assert all[i] == rows[i];
      }
    }
  }

  /** With distinct codes, deleting a present code removes exactly one row. */
  lemma {:induction false} RemoveCodeRemovesOne(rows: seq<Link>, code: string)
    requires DistinctCodes(rows) && HasCode(rows, code)
    ensures |RemoveCode(rows, code)| == |rows| - 1
  {
    var n := |rows|;
    var init := rows[..n - 1];
    assert rows == init + [rows[n - 1]];
    assert DistinctCodes(init);
    if rows[n - 1].code == code {
      forall i | 0 <= i < |init| ensures init[i].code != code {
        assert rows[i].code != rows[n - 1].code;
      }
    } else {
      var i :| 0 <= i < n && rows[i].code == code;
      assert init[i].code == code;
      RemoveCodeRemovesOne(init, code);
    }
  }

  /** Deleting rows keeps the codes distinct and the ids distinct. */
  lemma {:induction false} RemoveCodeKeepsDistinct(rows: seq<Link>, code: string)
    requires DistinctCodes(rows) && DistinctIds(rows)
    ensures DistinctCodes(RemoveCode(rows, code)) && DistinctIds(RemoveCode(rows, code))
  {
    if rows != [] {
      var n := |rows|;
      var init := rows[..n - 1];
      var last := rows[n - 1];
      assert rows == init + [last];
      assert DistinctCodes(init) && DistinctIds(init);
      RemoveCodeKeepsDistinct(init, code);
      var kept := RemoveCode(init, code);
      if last.code != code {
        forall r | r in kept ensures r.code != last.code && r.id != last.id {
          var i :| 0 <= i < |init| && init[i] == r;
          assert rows[i] == r;
        }
        var all := kept + [last];
        forall i, j | 0 <= i < j < |all| ensures all[i].code != all[j].code && all[i].id != all[j].id {
          if j == |kept| {
            assert all[i] in kept;
          }
        }
      }
    }
  }

  /** The row after one accounted click: one more click, stamped `now`. */
  function Clicked(link: Link, now: Timestamp): Link {
    link.(totalClicks := link.totalClicks + 1, lastClickedAt := Some(now))
  }

  /**
   * `UPDATE links SET total_clicks = total_clicks + 1, last_clicked_at = NOW()
   * WHERE id = ?`.
   */
  function ClickById(rows: seq<Link>, id: nat, now: Timestamp): (after: seq<Link>)
    ensures |after| == |rows|
    ensures forall i :: 0 <= i < |rows| ==> after[i].id == rows[i].id && after[i].code == rows[i].code
  {
    seq(|rows|, i requires 0 <= i < |rows| => if rows[i].id == id then Clicked(rows[i], now) else rows[i])
  }

  /**
   * A click changes only the counter and the last-click time of the rows
   * with that id: every row keeps its id, code, target and creation time,
   * no counter decreases, and the matched rows gain exactly one click.
   */
  lemma ClickTouchesOnlyCounters(rows: seq<Link>, id: nat, now: Timestamp)
    ensures |ClickById(rows, id, now)| == |rows|
    ensures forall i :: 0 <= i < |rows| ==>
      var after := ClickById(rows, id, now)[i];
      after.id == rows[i].id && after.code == rows[i].code &&
      after.targetUrl == rows[i].targetUrl && after.createdAt == rows[i].createdAt &&
      after.totalClicks == rows[i].totalClicks + (if rows[i].id == id then 1 else 0) &&
      (rows[i].id != id ==> after == rows[i]) &&
      (rows[i].id == id ==> after.lastClickedAt == Some(now))
  {
  }

  /**
   * The dashboard's `rows.reduce((sum, row) => sum + row.total_clicks, 0)`,
   * a left fold: no row's counter exceeds the sum.
   */
  function TotalClicks(rows: seq<Link>): (sum: nat)
    ensures forall i :: 0 <= i < |rows| ==> rows[i].totalClicks <= sum
  {
    if rows == [] then 0
    else TotalClicks(rows[..|rows| - 1]) + rows[|rows| - 1].totalClicks
  }

  /** A new row adds its own counter to the total (zero for a fresh link). */
  lemma TotalClicksAppend(rows: seq<Link>, link: Link)
    ensures TotalClicks(rows + [link]) == TotalClicks(rows) + link.totalClicks
  {
    assert (rows + [link])[..|rows|] == rows;
  }

  /**
   * Two tables that agree except that row `k` has one more click differ by
   * exactly one in the total.
   */
  lemma {:induction false} TotalClicksOneMore(before: seq<Link>, after: seq<Link>, k: nat)
    requires |before| == |after| && k < |before|
    requires forall i :: 0 <= i < |before| && i != k ==> after[i].totalClicks == before[i].totalClicks
    requires after[k].totalClicks == before[k].totalClicks + 1
    ensures TotalClicks(after) == TotalClicks(before) + 1
  {
    var n := |before|;
    if k == n - 1 {
      TotalClicksSame(before[..n - 1], after[..n - 1]);
    } else {
      TotalClicksOneMore(before[..n - 1], after[..n - 1], k);
    }
  }

  /** Tables whose counters agree row by row have the same total. */
  lemma {:induction false} TotalClicksSame(before: seq<Link>, after: seq<Link>)
    requires |before| == |after|
    requires forall i :: 0 <= i < |before| ==> after[i].totalClicks == before[i].totalClicks
    ensures TotalClicks(after) == TotalClicks(before)
  {
    if before != [] {
      TotalClicksSame(before[..|before| - 1], after[..|after| - 1]);
    }
  }

  /** With distinct ids, a click on a present id adds exactly one to the total. */
  lemma ClickAddsOne(rows: seq<Link>, id: nat, now: Timestamp, k: nat)
    requires DistinctIds(rows) && k < |rows| && rows[k].id == id
    ensures TotalClicks(ClickById(rows, id, now)) == TotalClicks(rows) + 1
  {
    ClickTouchesOnlyCounters(rows, id, now);
    var after := ClickById(rows, id, now);
    forall i | 0 <= i < |rows| && i != k ensures after[i].totalClicks == rows[i].totalClicks {
      if i < k {
        assert rows[i].id != rows[k].id;
      } else {
        assert rows[k].id != rows[i].id;
      }
    }
    TotalClicksOneMore(rows, after, k);
  }

  /** `${BASE_URL}/${code}`. */
  function ShortUrl(baseUrl: string, code: string): string {
    baseUrl + "/" + code
  }

  /** The short URL determines the code: distinct codes give distinct short URLs. */
  lemma ShortUrlDeterminesCode(baseUrl: string, code1: string, code2: string)
    ensures ShortUrl(baseUrl, code1) == ShortUrl(baseUrl, code2) <==> code1 == code2
  {
    var u1, u2 := ShortUrl(baseUrl, code1), ShortUrl(baseUrl, code2);
    if u1 == u2 {
      assert code1 == u1[|baseUrl| + 1..];
      assert code2 == u2[|baseUrl| + 1..];
    }
  }

  /** The JSON object for a row (server.js builds the same object in three handlers). */
  function Summary(baseUrl: string, link: Link): (s: LinkSummary)
    ensures s.code == link.code && |s.shortUrl| == |baseUrl| + 1 + |link.code|
    ensures s.shortUrl[..|baseUrl|] == baseUrl && s.shortUrl[|baseUrl|] == '/' && s.shortUrl[|baseUrl| + 1..] == link.code
    ensures s.targetUrl == link.targetUrl && s.totalClicks == link.totalClicks &&
            s.lastClickedAt == link.lastClickedAt && s.createdAt == link.createdAt
  {
    LinkSummary(link.code, link.targetUrl, link.totalClicks, link.lastClickedAt,
                link.createdAt, ShortUrl(baseUrl, link.code))
  }

  /** `rows.map(...)` of the list endpoint. */
  function Summaries(baseUrl: string, rows: seq<Link>): (out: seq<LinkSummary>)
    ensures |out| == |rows|
    ensures forall i :: 0 <= i < |rows| ==> out[i].code == rows[i].code
  {
    seq(|rows|, i requires 0 <= i < |rows| => Summary(baseUrl, rows[i]))
  }

  /**
   * The list has one entry per row, in row order, echoing the row's fields,
   * and when the codes are distinct no two entries share a short URL.
   */
  lemma SummariesFaithful(baseUrl: string, rows: seq<Link>)
    ensures |Summaries(baseUrl, rows)| == |rows|
    ensures forall i :: 0 <= i < |rows| ==>
      var s := Summaries(baseUrl, rows)[i];
      s.code == rows[i].code && s.targetUrl == rows[i].targetUrl &&
      s.totalClicks == rows[i].totalClicks && s.lastClickedAt == rows[i].lastClickedAt &&
      s.createdAt == rows[i].createdAt && s.shortUrl == baseUrl + "/" + rows[i].code
    ensures DistinctCodes(rows) ==> forall i, j :: 0 <= i < j < |rows| ==>
      Summaries(baseUrl, rows)[i].shortUrl != Summaries(baseUrl, rows)[j].shortUrl
  {
    var out := Summaries(baseUrl, rows);
    if DistinctCodes(rows) {
      forall i, j | 0 <= i < j < |rows| ensures out[i].shortUrl != out[j].shortUrl {
        ShortUrlDeterminesCode(baseUrl, rows[i].code, rows[j].code);
      }
    }
  }
}
