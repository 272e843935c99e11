/**
 * Building one sample row (`fetch_current_badge_numbers`): the timestamp,
 * then for every group in registry order its path count and its exam count.
 * The scraper is the function `fetch` from an id to the page's number text,
 * or None when the HTTP request fails; the clock is the `timestamp` argument.
 */
module Fetcher {
  import opened Options
  import opened Decimal
  import opened Registry

  /** `fetch_badge_number`: "0" for an absent id or a failed request. */
  function FetchBadgeNumber(fetch: string -> Option<string>, id: Option<string>): string {
    if !Present(id) then "0"
    else match fetch(id.value)
      case None => "0"
      case Some(text) => text
  }

  /** The ids a call of `fetch_badge_number(id)` hands to the scraper. */
  function Queried(id: Option<string>): seq<string> {
    if Present(id) then [id.value] else []
  }

  /**
   * `Queried` is the request log of `FetchBadgeNumber`: the number depends on
   * the scraper only at the logged ids, so an unlogged (absent or empty) id
   * is never looked up and gives "0".
   */
  lemma RequestLogMatchesFetch(id: Option<string>)
    ensures forall f1: string -> Option<string>, f2: string -> Option<string> ::
      (forall q :: q in Queried(id) ==> f1(q) == f2(q)) ==> FetchBadgeNumber(f1, id) == FetchBadgeNumber(f2, id)
    ensures Queried(id) == [] ==> forall f: string -> Option<string> :: FetchBadgeNumber(f, id) == "0"
    ensures |Queried(id)| <= 1
  {
    forall f1: string -> Option<string>, f2: string -> Option<string> |
      forall q :: q in Queried(id) ==> f1(q) == f2(q)
      ensures FetchBadgeNumber(f1, id) == FetchBadgeNumber(f2, id)
    {
      if Present(id) {
        assert id.value in Queried(id);
      }
    }
  }

  /** Every scraper request one sample makes, in order: path id then exam id, per group. */
  function Queries(reg: seq<Badge>): seq<string>
    decreases |reg|
  {
    if reg == [] then []
    else
      var b := reg[|reg| - 1];
      Queries(reg[..|reg| - 1]) + Queried(b.pathId) + Queried(b.examId)
  }

  /** The scraper yields decimal text whenever the request succeeds. */
  ghost predicate DecimalFetcher(fetch: string -> Option<string>) {
    forall id :: fetch(id).Some? ==> IsDecimal(fetch(id).value)
  }

  /** A stored sample: the registry's width, integer text after the timestamp. */
  predicate WellFormedRow(reg: seq<Badge>, row: seq<string>) {
    |row| == RowWidth(reg) && forall k :: 1 <= k < |row| ==> IsDecimal(row[k])
  }

  /**
   * `fetch_current_badge_numbers`. `calls` lists the ids handed to the scraper;
   * an absent or empty id never reaches it.
   */
  method FetchCurrent(reg: seq<Badge>, timestamp: string, fetch: string -> Option<string>)
    returns (row: seq<string>, calls: seq<string>)
    ensures |row| == RowWidth(reg) && row[0] == timestamp
    ensures forall i :: 0 <= i < |reg| ==>
      row[2 * i + 1] == FetchBadgeNumber(fetch, reg[i].pathId) &&
      row[2 * i + 2] == FetchBadgeNumber(fetch, reg[i].examId)
    ensures calls == Queries(reg)
    ensures DecimalFetcher(fetch) ==> WellFormedRow(reg, row)
  {
    row, calls := [timestamp], [];
    for i := 0 to |reg|
      invariant |row| == 2 * i + 1 && row[0] == timestamp
      invariant forall j :: 0 <= j < i ==>
        row[2 * j + 1] == FetchBadgeNumber(fetch, reg[j].pathId) &&
        row[2 * j + 2] == FetchBadgeNumber(fetch, reg[j].examId)
      invariant calls == Queries(reg[..i])
    {
      var path := FetchBadgeNumber(fetch, reg[i].pathId);
      var exam := FetchBadgeNumber(fetch, reg[i].examId);
      row := row + [path, exam];
      calls := calls + Queried(reg[i].pathId) + Queried(reg[i].examId);
      assert reg[..i + 1][..i] == reg[..i];
    }
    assert reg[..|reg|] == reg;
    if DecimalFetcher(fetch) {
      SampleIsWellFormed(reg, fetch, row);
    }
  }

  /** A sample taken with a scraper that yields decimal text is a well-formed row. */
  lemma SampleIsWellFormed(reg: seq<Badge>, fetch: string -> Option<string>, row: seq<string>)
    requires DecimalFetcher(fetch)
    requires |row| == RowWidth(reg)
    requires forall i :: 0 <= i < |reg| ==>
      row[2 * i + 1] == FetchBadgeNumber(fetch, reg[i].pathId) &&
      row[2 * i + 2] == FetchBadgeNumber(fetch, reg[i].examId)
    ensures WellFormedRow(reg, row)
  {
    forall k | 1 <= k < |row| ensures IsDecimal(row[k]) {
      var i := (k - 1) / 2;
      assert k == 2 * i + 1 || k == 2 * i + 2;
      FetchedTextIsDecimal(fetch, reg[i].pathId);
      FetchedTextIsDecimal(fetch, reg[i].examId);
    }
  }

  lemma FetchedTextIsDecimal(fetch: string -> Option<string>, id: Option<string>)
    requires DecimalFetcher(fetch)
    ensures IsDecimal(FetchBadgeNumber(fetch, id))
  {
    assert AllDigits("0");
    if Present(id) && fetch(id.value).Some? {
      assert IsDecimal(fetch(id.value).value);
    }
  }

  /** Only present ids are ever requested, and each one belongs to a registry group. */
  lemma {:induction false} QueriesArePresentIds(reg: seq<Badge>)
    ensures forall c :: c in Queries(reg) ==>
      (c != "" && exists i :: 0 <= i < |reg| && (reg[i].pathId == Some(c) || reg[i].examId == Some(c)))
    ensures |Queries(reg)| <= 2 * |reg|
    decreases |reg|
  {
    if reg != [] {
      var n := |reg| - 1;
      var pre := reg[..n];
      QueriesArePresentIds(pre);
      forall c | c in Queries(reg)
        ensures c != "" && exists i :: 0 <= i < |reg| && (reg[i].pathId == Some(c) || reg[i].examId == Some(c))
      {
        if c in Queries(pre) {
          var i :| 0 <= i < |pre| && (pre[i].pathId == Some(c) || pre[i].examId == Some(c));
          assert reg[i] == pre[i];
        } else {
          assert reg[n].pathId == Some(c) || reg[n].examId == Some(c);
        }
      }
    }
  }

  /** Every present id is requested: no tracked counter is skipped. */
  lemma {:induction false} PresentIdsAreQueried(reg: seq<Badge>, i: nat)
    requires i < |reg|
    ensures Present(reg[i].pathId) ==> reg[i].pathId.value in Queries(reg)
    ensures Present(reg[i].examId) ==> reg[i].examId.value in Queries(reg)
    decreases |reg|
  {
    var n := |reg| - 1;
    if i < n {
      PresentIdsAreQueried(reg[..n], i);
    }
  }

  /** A sample reads the scraper only at the logged requests: scrapers that agree there give the same counters. */
  lemma SampleUsesOnlyLoggedRequests(reg: seq<Badge>, f1: string -> Option<string>, f2: string -> Option<string>, i: nat)
    requires i < |reg|
    requires forall q :: q in Queries(reg) ==> f1(q) == f2(q)
    ensures FetchBadgeNumber(f1, reg[i].pathId) == FetchBadgeNumber(f2, reg[i].pathId)
    ensures FetchBadgeNumber(f1, reg[i].examId) == FetchBadgeNumber(f2, reg[i].examId)
  {
    PresentIdsAreQueried(reg, i);
    RequestLogMatchesFetch(reg[i].pathId);
    RequestLogMatchesFetch(reg[i].examId);
  }
}
