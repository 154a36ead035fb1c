/** `getProducts` of the Uniqlo US adapter: page through the products
    listing with an offset/limit loop and collect the product ids. */
module UniqloDiscovery {
  import opened Results
  import opened UniqloApi

  /** `increment`: the most items one page asks for. */
  const PageSize := 100

  /** The `offset` and `limit` query parameters of one page request. */
  datatype PageRequest = PageRequest(offset: int, count: int)

  /** The listing endpoint, as the response it gives for each request. */
  type PageSource = PageRequest -> Reply<ProductsResult>

  /** What one discovery call does: the requests it issues, in order, and
      what it returns or throws. */
  datatype Crawl = Crawl(requests: seq<PageRequest>, outcome: Result<seq<string>, Error>)

  function Min(a: int, b: int): int { if a < b then a else b }
  function Max(a: int, b: int): int { if a < b then b else a }

  /** `limit ?? increment`: the total the loop starts with. */
  function InitialTotal(limit: Option<int>): int {
    if limit.Some? then limit.value else PageSize
  }

  /** `limit` is truthy, so the reported total never replaces it. */
  predicate LimitGiven(limit: Option<int>) {
    limit.Some? && limit.value != 0
  }

  function ReadPage(reply: Reply<ProductsResult>): (r: Result<ProductsResult, Error>)
    ensures r.Ok? <==> Accepted(reply)
    ensures r.Ok? ==> r.value == reply.body.value.result
  {
    Validated(reply, ProductsHttpStatus(reply.httpStatus), ProductsNok)
  }

  /** `items.map((item) => item.productId)`. */
  function ProductIds(items: seq<ListedProduct>): (ids: seq<string>)
    ensures |ids| == |items|
    ensures forall k :: 0 <= k < |items| ==> ids[k] == items[k].productId
  {
    seq(|items|, k requires 0 <= k < |items| => items[k].productId)
  }

  /** `pagination.total` of a validated page (0 for a page that was refused). */
  function ReportedTotal(reply: Reply<ProductsResult>): int {
    if reply.body.Some? then reply.body.value.result.total else 0
  }

  /** The product ids of a validated page ([] for a page that was refused). */
  function PageIds(reply: Reply<ProductsResult>): seq<string> {
    if reply.body.Some? then ProductIds(reply.body.value.result.items) else []
  }

  /** Every total the listing reports is at most `bound`. The source loop
      stops only because the store's listing is finite; this states it. */
  ghost predicate TotalsBounded(source: PageSource, bound: int) {
    forall request :: ReportedTotal(source(request)) <= bound
  }

  /** The loop from a given `offset` and `total`, as a function: the
      specification `GetProducts` is proved against. `keepTotal` is whether
      the limit was truthy. */
  function CrawlFrom(source: PageSource, keepTotal: bool, offset: int, total: int, bound: int): Crawl
    requires !keepTotal && offset < total ==> TotalsBounded(source, bound)
    decreases Max(total, bound) - offset
  {
    if offset >= total then Crawl([], Ok([]))
    else
      var request := PageRequest(offset, Min(total - offset, PageSize));
      match ReadPage(source(request))
      case Err(e) => Crawl([request], Err(e))
      case Ok(page) =>
        var rest := CrawlFrom(source, keepTotal, offset + PageSize, if keepTotal then total else page.total, bound);
        Crawl([request] + rest.requests,
              if rest.outcome.Ok? then Ok(ProductIds(page.items) + rest.outcome.value) else rest.outcome)
  }

  /** The whole discovery call. */
  function Discover(source: PageSource, limit: Option<int>, bound: int): Crawl
    requires limit.None? ==> TotalsBounded(source, bound)
  {
    CrawlFrom(source, LimitGiven(limit), 0, InitialTotal(limit), bound)
  }

  /** `requests` issued and `ids` collected so far, followed by the rest of the crawl. */
  function After(requests: seq<PageRequest>, ids: seq<string>, rest: Crawl): Crawl {
    Crawl(requests + rest.requests, if rest.outcome.Ok? then Ok(ids + rest.outcome.value) else rest.outcome)
  }

  lemma AfterNothing(c: Crawl)
    ensures After([], [], c) == c
  {
    assert [] + c.requests == c.requests;
    if c.outcome.Ok? {
      assert [] + c.outcome.value == c.outcome.value;
    }
  }

  /** One accepted page moves its request and its ids from the rest of the
      crawl into what has been done. */
  lemma AfterPage(source: PageSource, keepTotal: bool, offset: int, total: int, bound: int,
                  issued: seq<PageRequest>, ids: seq<string>)
    requires !keepTotal ==> TotalsBounded(source, bound)
    requires offset < total
    requires ReadPage(source(PageRequest(offset, Min(total - offset, PageSize)))).Ok?
    ensures
      var request := PageRequest(offset, Min(total - offset, PageSize));
      var page := ReadPage(source(request)).value;
      After(issued, ids, CrawlFrom(source, keepTotal, offset, total, bound)) ==
      After(issued + [request], ids + ProductIds(page.items),
            CrawlFrom(source, keepTotal, offset + PageSize, if keepTotal then total else page.total, bound))
  {
    var request := PageRequest(offset, Min(total - offset, PageSize));
    var page := ReadPage(source(request)).value;
    var rest := CrawlFrom(source, keepTotal, offset + PageSize, if keepTotal then total else page.total, bound);
    assert issued + ([request] + rest.requests) == issued + [request] + rest.requests;
    if rest.outcome.Ok? {
      assert ids + (ProductIds(page.items) + rest.outcome.value) == ids + ProductIds(page.items) + rest.outcome.value;
    }
  }

  /** `getProducts(limit)`. `bound` bounds the reported totals and serves only
      termination; `requests` is the sequence of page requests issued. */
  method GetProducts(source: PageSource, limit: Option<int>, ghost bound: int)
    returns (result: Result<seq<string>, Error>, ghost requests: seq<PageRequest>)
    requires limit.None? ==> TotalsBounded(source, bound)
    ensures result == Discover(source, limit, bound).outcome
    ensures requests == Discover(source, limit, bound).requests
  {
    var keepTotal := LimitGiven(limit);
    var productCodes: seq<string> := [];
    ghost var issued: seq<PageRequest> := [];
    var offset, total := 0, InitialTotal(limit);
    AfterNothing(Discover(source, limit, bound));
    while offset < total
      invariant limit.Some? && !keepTotal ==> offset >= total
      invariant Discover(source, limit, bound) == After(issued, productCodes, CrawlFrom(source, keepTotal, offset, total, bound))
      decreases Max(total, bound) - offset
    {
      var request := PageRequest(offset, Min(total - offset, PageSize));
      var page := ReadPage(source(request));
      if page.Err? {
        return Err(page.error), issued + [request];
      }
      AfterPage(source, keepTotal, offset, total, bound, issued, productCodes);
      issued := issued + [request];
      productCodes := productCodes + ProductIds(page.value.items);
      if !keepTotal {
        total := page.value.total;
      }
      offset := offset + PageSize;
    }
    assert issued + [] == issued && productCodes + [] == productCodes;
    return Ok(productCodes), issued;
  }

  // ---------------------------------------------------------------------
  // Page geometry

  /** The requests a crawl with a fixed total issues when every page is
      accepted: offsets step by 100 up to the total, each asking for what
      is left, at most 100. */
  function PlanFrom(offset: int, total: int): seq<PageRequest>
    decreases total - offset
  {
    if offset >= total then []
    else [PageRequest(offset, Min(total - offset, PageSize))] + PlanFrom(offset + PageSize, total)
  }

  /** The items asked for, summed over the requests. */
  function TotalCount(requests: seq<PageRequest>): int {
    if requests == [] then 0 else requests[0].count + TotalCount(requests[1..])
  }

  /** The concatenation, in request order, of the ids on each page. */
  function Harvest(source: PageSource, requests: seq<PageRequest>): seq<string> {
    if requests == [] then [] else PageIds(source(requests[0])) + Harvest(source, requests[1..])
  }

  /** Request k is at `offset + 100 k` and asks for between 1 and 100 items. */
  ghost predicate SteppedFrom(rs: seq<PageRequest>, offset: int) {
    forall k :: 0 <= k < |rs| ==> rs[k].offset == offset + PageSize * k && 1 <= rs[k].count <= PageSize
  }

  lemma {:induction false} CrawlOffsets(source: PageSource, keepTotal: bool, offset: int, total: int, bound: int)
    requires !keepTotal && offset < total ==> TotalsBounded(source, bound)
    ensures SteppedFrom(CrawlFrom(source, keepTotal, offset, total, bound).requests, offset)
    decreases Max(total, bound) - offset
  {
    if offset < total {
      var request := PageRequest(offset, Min(total - offset, PageSize));
      match ReadPage(source(request))
      case Err(_) =>
      case Ok(page) =>
        var next := if keepTotal then total else page.total;
        CrawlOffsets(source, keepTotal, offset + PageSize, next, bound);
        var rest := CrawlFrom(source, keepTotal, offset + PageSize, next, bound).requests;
        var rs := [request] + rest;
        forall k | 0 < k < |rs|
          ensures rs[k].offset == offset + PageSize * k && 1 <= rs[k].count <= PageSize
        {
          assert rs[k] == rest[k - 1];
        }
    }
  }

  /** Offsets go 0, 100, 200, … and every page asks for between 1 and 100 items. */
  lemma DiscoveryPageGeometry(source: PageSource, limit: Option<int>, bound: int)
    requires limit.None? ==> TotalsBounded(source, bound)
    ensures var rs := Discover(source, limit, bound).requests;
      forall k :: 0 <= k < |rs| ==> rs[k].offset == PageSize * k && 1 <= rs[k].count <= PageSize
  {
    CrawlOffsets(source, LimitGiven(limit), 0, InitialTotal(limit), bound);
  }

  lemma {:induction false} KeptTotalFollowsPlan(source: PageSource, offset: int, total: int, bound: int)
    ensures var c := CrawlFrom(source, true, offset, total, bound);
      var plan := PlanFrom(offset, total);
      |c.requests| <= |plan| && c.requests == plan[..|c.requests|] &&
      (c.outcome.Ok? ==> c.requests == plan)
    decreases total - offset
  {
    if offset < total {
      var request := PageRequest(offset, Min(total - offset, PageSize));
      match ReadPage(source(request))
      case Err(_) =>
      case Ok(page) =>
        KeptTotalFollowsPlan(source, offset + PageSize, total, bound);
    }
  }

  lemma {:induction false} PlanTotals(offset: int, total: int)
    requires offset < total
    ensures TotalCount(PlanFrom(offset, total)) == total - offset
    ensures |PlanFrom(offset, total)| == (total - offset + PageSize - 1) / PageSize
    decreases total - offset
  {
    var rest := PlanFrom(offset + PageSize, total);
    assert PlanFrom(offset, total)[1..] == rest;
    if offset + PageSize < total {
      PlanTotals(offset + PageSize, total);
    }
  }

  /** With a positive limit the requests never depend on what the store
      reports: they are a prefix of the plan for `limit` and, when the call
      succeeds, all of it; its counts sum to exactly `limit` over
      ceil(limit / 100) pages. */
  lemma DiscoveryWithLimit(source: PageSource, limit: int, bound: int)
    requires limit > 0
    ensures var c := Discover(source, Some(limit), bound);
      var plan := PlanFrom(0, limit);
      |c.requests| <= |plan| && c.requests == plan[..|c.requests|] && (c.outcome.Ok? ==> c.requests == plan)
    ensures TotalCount(PlanFrom(0, limit)) == limit
    ensures |PlanFrom(0, limit)| == (limit + PageSize - 1) / PageSize
  {
    KeptTotalFollowsPlan(source, 0, limit, bound);
    PlanTotals(0, limit);
  }

  /** Discovery with `limit = 250`: three pages, of 100, 100 and 50 items. */
  lemma PlanFor250()
    ensures PlanFrom(0, 250) == [PageRequest(0, 100), PageRequest(100, 100), PageRequest(200, 50)]
  {
  }

  /** A limit of 0 (or less) issues no request and returns no ids. */
  lemma NonPositiveLimitFetchesNothing(source: PageSource, limit: int, bound: int)
    requires limit <= 0
    ensures Discover(source, Some(limit), bound) == Crawl([], Ok([]))
  {
  }

  /** The total the crawl compares against before request `k` (k >= 1). */
  function TotalAfter(source: PageSource, keepTotal: bool, total: int, previous: PageRequest): int {
    if keepTotal then total else ReportedTotal(source(previous))
  }

  lemma CrawlStart(source: PageSource, keepTotal: bool, offset: int, total: int, bound: int)
    requires !keepTotal && offset < total ==> TotalsBounded(source, bound)
    ensures var rs := CrawlFrom(source, keepTotal, offset, total, bound).requests;
      (offset < total <==> rs != []) &&
      (rs != [] ==> rs[0] == PageRequest(offset, Min(total - offset, PageSize)))
  {
  }

  /** Between consecutive requests the page was accepted, and the next
      request is measured against the total in force after it. */
  ghost predicate ChainedBy(source: PageSource, keepTotal: bool, total: int, rs: seq<PageRequest>) {
    forall k :: 0 <= k < |rs| - 1 ==>
      Accepted(source(rs[k])) &&
      rs[k + 1].offset < TotalAfter(source, keepTotal, total, rs[k]) &&
      rs[k + 1].count == Min(TotalAfter(source, keepTotal, total, rs[k]) - rs[k + 1].offset, PageSize)
  }

  /** Putting an accepted request in front of a chained sequence whose first
      request is measured against the total that request leaves in force. */
  lemma ChainedCons(source: PageSource, keepTotal: bool, total: int, next: int,
                    request: PageRequest, rest: seq<PageRequest>)
    requires Accepted(source(request))
    requires next == TotalAfter(source, keepTotal, total, request)
    requires ChainedBy(source, keepTotal, next, rest)
    requires rest != [] ==> rest[0].offset < next && rest[0].count == Min(next - rest[0].offset, PageSize)
    ensures ChainedBy(source, keepTotal, total, [request] + rest)
  {
    var rs := [request] + rest;
    forall k | 0 <= k < |rs| - 1
      ensures Accepted(source(rs[k]))
      ensures rs[k + 1].offset < TotalAfter(source, keepTotal, total, rs[k])
      ensures rs[k + 1].count == Min(TotalAfter(source, keepTotal, total, rs[k]) - rs[k + 1].offset, PageSize)
    {
      if k > 0 {
        assert rs[k] == rest[k - 1] && rs[k + 1] == rest[k];
        assert TotalAfter(source, keepTotal, total, rs[k]) == TotalAfter(source, keepTotal, next, rs[k]);
      } else {
        assert rs[1] == rest[0];
      }
    }
  }

  lemma {:induction false} CrawlChain(source: PageSource, keepTotal: bool, offset: int, total: int, bound: int)
    requires !keepTotal && offset < total ==> TotalsBounded(source, bound)
    ensures ChainedBy(source, keepTotal, total, CrawlFrom(source, keepTotal, offset, total, bound).requests)
    decreases Max(total, bound) - offset
  {
    if offset < total {
      var request := PageRequest(offset, Min(total - offset, PageSize));
      match ReadPage(source(request))
      case Err(_) =>
      case Ok(page) =>
        var next := if keepTotal then total else page.total;
        CrawlChain(source, keepTotal, offset + PageSize, next, bound);
        CrawlStart(source, keepTotal, offset + PageSize, next, bound);
        var rest := CrawlFrom(source, keepTotal, offset + PageSize, next, bound).requests;
        ChainedCons(source, keepTotal, total, next, request, rest);
    }
  }

  /** The total in force after the last request is within its page. */
  ghost predicate StopsAt(source: PageSource, keepTotal: bool, total: int, rs: seq<PageRequest>) {
    rs != [] ==> TotalAfter(source, keepTotal, total, rs[|rs| - 1]) <= rs[|rs| - 1].offset + PageSize
  }

  lemma StopsCons(source: PageSource, keepTotal: bool, total: int, next: int,
                  request: PageRequest, rest: seq<PageRequest>)
    requires next == TotalAfter(source, keepTotal, total, request)
    requires rest == [] ==> next <= request.offset + PageSize
    requires StopsAt(source, keepTotal, next, rest)
    ensures StopsAt(source, keepTotal, total, [request] + rest)
  {
    var rs := [request] + rest;
    if rest != [] {
      assert rs[|rs| - 1] == rest[|rest| - 1];
      assert TotalAfter(source, keepTotal, total, rs[|rs| - 1]) == TotalAfter(source, keepTotal, next, rs[|rs| - 1]);
    }
  }

  /** A successful crawl ends because its last request reached the total in force. */
  lemma {:induction false} CrawlStop(source: PageSource, keepTotal: bool, offset: int, total: int, bound: int)
    requires !keepTotal && offset < total ==> TotalsBounded(source, bound)
    ensures CrawlFrom(source, keepTotal, offset, total, bound).outcome.Ok? ==>
            StopsAt(source, keepTotal, total, CrawlFrom(source, keepTotal, offset, total, bound).requests)
    decreases Max(total, bound) - offset
  {
    if offset < total {
      var request := PageRequest(offset, Min(total - offset, PageSize));
      match ReadPage(source(request))
      case Err(_) =>
      case Ok(page) =>
        var next := if keepTotal then total else page.total;
        CrawlStop(source, keepTotal, offset + PageSize, next, bound);
        CrawlStart(source, keepTotal, offset + PageSize, next, bound);
        var rest := CrawlFrom(source, keepTotal, offset + PageSize, next, bound);
        if rest.outcome.Ok? {
          StopsCons(source, keepTotal, total, next, request, rest.requests);
        }
    }
  }

  /** With no limit the crawl starts with a page of 100 at offset 0; each
      later request is driven by the total the previous page reported
      (its offset below that total, its count what is left of it, at most
      100); a successful crawl stops once the last reported total is
      reached. */
  lemma DiscoveryWithoutLimit(source: PageSource, bound: int)
    requires TotalsBounded(source, bound)
    ensures var c := Discover(source, None, bound);
      var rs := c.requests;
      rs != [] && rs[0] == PageRequest(0, PageSize) &&
      (forall k :: 0 <= k < |rs| - 1 ==>
         rs[k + 1].offset < ReportedTotal(source(rs[k])) &&
         rs[k + 1].count == Min(ReportedTotal(source(rs[k])) - rs[k + 1].offset, PageSize)) &&
      (c.outcome.Ok? ==> ReportedTotal(source(rs[|rs| - 1])) <= PageSize * |rs|)
  {
    CrawlStart(source, false, 0, PageSize, bound);
    CrawlChain(source, false, 0, PageSize, bound);
    CrawlStop(source, false, 0, PageSize, bound);
    CrawlOffsets(source, false, 0, PageSize, bound);
  }

  ghost predicate AllAccepted(source: PageSource, rs: seq<PageRequest>) {
    forall k :: 0 <= k < |rs| ==> Accepted(source(rs[k]))
  }

  /** The call succeeds exactly when every request was accepted, then
      returning the pages' ids in order, and otherwise stops at a refused one. */
  ghost predicate OutcomeFits(source: PageSource, c: Crawl) {
    (c.outcome.Ok? <==> AllAccepted(source, c.requests)) &&
    (c.outcome.Ok? ==> c.outcome.value == Harvest(source, c.requests)) &&
    (c.outcome.Err? ==> c.requests != [] && ReadPage(source(c.requests[|c.requests| - 1])) == Err(c.outcome.error))
  }

  /** An accepted request in front keeps the outcome fitting. */
  lemma OutcomeCons(source: PageSource, request: PageRequest, rest: Crawl)
    requires Accepted(source(request))
    requires OutcomeFits(source, rest)
    ensures OutcomeFits(source, After([request], PageIds(source(request)), rest))
  {
    var rs := [request] + rest.requests;
    assert rs[1..] == rest.requests;
    assert forall k :: 1 <= k < |rs| ==> rs[k] == rest.requests[k - 1];
    assert Harvest(source, rs) == PageIds(source(request)) + Harvest(source, rest.requests);
    if rest.outcome.Err? {
      assert rs[|rs| - 1] == rest.requests[|rest.requests| - 1];
    }
  }

  lemma {:induction false} CrawlOutcome(source: PageSource, keepTotal: bool, offset: int, total: int, bound: int)
    requires !keepTotal && offset < total ==> TotalsBounded(source, bound)
    ensures OutcomeFits(source, CrawlFrom(source, keepTotal, offset, total, bound))
    decreases Max(total, bound) - offset
  {
    if offset < total {
      var request := PageRequest(offset, Min(total - offset, PageSize));
      match ReadPage(source(request))
      case Err(e) =>
        assert CrawlFrom(source, keepTotal, offset, total, bound) == Crawl([request], Err(e));
        assert !Accepted(source([request][0]));
      case Ok(page) =>
        var next := if keepTotal then total else page.total;
        CrawlOutcome(source, keepTotal, offset + PageSize, next, bound);
        var rest := CrawlFrom(source, keepTotal, offset + PageSize, next, bound);
        assert PageIds(source(request)) == ProductIds(page.items);
        assert CrawlFrom(source, keepTotal, offset, total, bound) == After([request], PageIds(source(request)), rest);
        OutcomeCons(source, request, rest);
    }
  }

  /** All or nothing: the call succeeds exactly when every page it asked
      for was accepted, and then returns every page's ids in request order;
      otherwise it throws the error of the page it stopped at, which is the
      first refused one, and returns no partial list. */
  lemma DiscoveryOutcome(source: PageSource, limit: Option<int>, bound: int)
    requires limit.None? ==> TotalsBounded(source, bound)
    ensures var c := Discover(source, limit, bound);
      var rs := c.requests;
      (c.outcome.Ok? <==> forall k :: 0 <= k < |rs| ==> Accepted(source(rs[k]))) &&
      (c.outcome.Ok? ==> c.outcome.value == Harvest(source, rs)) &&
      (c.outcome.Err? ==> rs != [] && ReadPage(source(rs[|rs| - 1])) == Err(c.outcome.error) &&
                          forall k :: 0 <= k < |rs| - 1 ==> Accepted(source(rs[k])))
  {
    CrawlOutcome(source, LimitGiven(limit), 0, InitialTotal(limit), bound);
    CrawlChain(source, LimitGiven(limit), 0, InitialTotal(limit), bound);
  }

  lemma {:induction false} HarvestLength(source: PageSource, requests: seq<PageRequest>)
    requires forall k :: 0 <= k < |requests| ==> |PageIds(source(requests[k]))| == requests[k].count
    ensures |Harvest(source, requests)| == TotalCount(requests)
  {
    if requests != [] {
      HarvestLength(source, requests[1..]);
    }
  }

  /** When the store fills every page it is asked for, a successful
      discovery with a positive limit returns exactly `limit` ids. */
  lemma FullPagesGiveExactlyLimit(source: PageSource, limit: int, bound: int)
    requires limit > 0
    requires forall r :: Accepted(source(r)) ==> |PageIds(source(r))| == r.count
    ensures var c := Discover(source, Some(limit), bound);
      c.outcome.Ok? ==> |c.outcome.value| == limit
  {
    var c := Discover(source, Some(limit), bound);
    DiscoveryOutcome(source, Some(limit), bound);
    DiscoveryWithLimit(source, limit, bound);
    if c.outcome.Ok? {
      HarvestLength(source, c.requests);
    }
  }
}
