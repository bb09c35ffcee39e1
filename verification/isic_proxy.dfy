/** GET `/isic-images`: the proxy that follows the image archive's `next` links and returns every
    image it collected. The archive is an abstract page source: a function from a URL to either a
    failed fetch or a page of results with an optional link to the following page. */
module IsicProxy {

  import opened Common
  import opened Text

  /** One page of the archive's listing. A `next` that is absent or empty ends the listing. */
  datatype Page<R> = Page(results: seq<R>, next: Option<string>)

  /** What fetching a URL produces: a page, or a failure (a non-OK status, a body that is not a
      page) that makes the handler give up. */
  datatype Fetch<R> = Failed | Fetched(page: Page<R>)

  /** At most this many pages are fetched per request. */
  const MaxPages := 20

  /** The page size asked for in the first URL. */
  const Limit := 100

  const FirstUrl := "https://api.isic-archive.com/api/v2/images?limit=" + NatToString(Limit)

  const FetchFailure := "Failed to fetch ISIC images."

  predicate HasNext<R>(p: Page<R>)
  {
    Truthy(p.next)
  }

  /** The reference listing: the results of the pages reachable from `url` in at most `budget`
      fetches, or the failure if any of those fetches fails. */
  function Listing<R>(source: string -> Fetch<R>, url: string, budget: nat): Reply<seq<R>>
    decreases budget
  {
    if budget == 0 then Ok([])
    else
      match source(url)
      case Failed => Err(500, FetchFailure)
      case Fetched(p) =>
        if !HasNext(p) then Ok(p.results)
        else
          match Listing(source, p.next.value, budget - 1)
          case Err(s, m) => Err(s, m)
          case Ok(rest) => Ok(p.results + rest)
  }

  /** The number of fetches the listing makes. */
  function Fetches<R>(source: string -> Fetch<R>, url: string, budget: nat): (n: nat)
    ensures n <= budget
    ensures budget > 0 ==> n >= 1
    decreases budget
  {
    if budget == 0 then 0
    else
      match source(url)
      case Failed => 1
      case Fetched(p) => if !HasNext(p) then 1 else 1 + Fetches(source, p.next.value, budget - 1)
  }

  /** `acc` followed by a reply's results; a failure stays a failure. */
  function Prepend<R>(acc: seq<R>, reply: Reply<seq<R>>): Reply<seq<R>>
  {
    match reply
    case Err(s, m) => Err(s, m)
    case Ok(rest) => Ok(acc + rest)
  }

  lemma PrependAssoc<R>(a: seq<R>, b: seq<R>, reply: Reply<seq<R>>)
    ensures Prepend(a, Prepend(b, reply)) == Prepend(a + b, reply)
  {
    if reply.Ok? {
      assert a + (b + reply.body) == (a + b) + reply.body;
    }
  }

  /** One step of the listing: a fetched page with a `next` link contributes its results ahead of
      the listing from that link, which is one fetch further on. */
  lemma ListingStep<R>(source: string -> Fetch<R>, url: string, budget: nat, p: Page<R>)
    requires budget > 0 && source(url) == Fetched(p) && HasNext(p)
    ensures Listing(source, url, budget) == Prepend(p.results, Listing(source, p.next.value, budget - 1))
    ensures Fetches(source, url, budget) == 1 + Fetches(source, p.next.value, budget - 1)
  {
  }

  /** The handler's loop: fetch, append the page's results, follow `next` while it is present, at
      most `MaxPages` times. */
  method CollectImages<R>(source: string -> Fetch<R>) returns (reply: Reply<seq<R>>, fetches: nat)
    ensures reply == Listing(source, FirstUrl, MaxPages)
    ensures fetches == Fetches(source, FirstUrl, MaxPages) && 1 <= fetches <= MaxPages
    ensures reply.Err? ==> reply == Err(500, FetchFailure)
  {
    ListingErrIsFailure(source, FirstUrl, MaxPages);
    var all: seq<R> := [];
    var url := FirstUrl;
    var i := 0;
    fetches := 0;
    assert Prepend(all, Listing(source, url, MaxPages)) == Listing(source, FirstUrl, MaxPages) by {
      var l := Listing(source, url, MaxPages);
      if l.Ok? {
        assert [] + l.body == l.body;
      }
    }
    while i < MaxPages
      invariant 0 <= i <= MaxPages
      invariant Prepend(all, Listing(source, url, MaxPages - i)) == Listing(source, FirstUrl, MaxPages)
      invariant fetches + Fetches(source, url, MaxPages - i) == Fetches(source, FirstUrl, MaxPages)
      invariant fetches == i
      decreases MaxPages - i
    {
      var response := source(url);
      fetches := fetches + 1;
      if response.Failed? {
        return Err(500, FetchFailure), fetches;
      }
      var page := response.page;
      if !HasNext(page) {
        return Ok(all + page.results), fetches;
      }
      ListingStep(source, url, MaxPages - i, page);
      PrependAssoc(all, page.results, Listing(source, page.next.value, MaxPages - i - 1));
      all := all + page.results;
      url := page.next.value;
      i := i + 1;
    }
    assert all + [] == all;
    reply := Ok(all);
  }

  /** The only failure the listing reports is the handler's 500. */
  lemma {:induction false} ListingErrIsFailure<R>(source: string -> Fetch<R>, url: string, budget: nat)
    ensures Listing(source, url, budget).Err? ==> Listing(source, url, budget) == Err(500, FetchFailure)
    decreases budget
  {
    if budget > 0 && source(url).Fetched? && HasNext(source(url).page) {
      ListingErrIsFailure(source, source(url).page.next.value, budget - 1);
    }
  }

  /** Where every page links to another and every fetch succeeds, exactly `budget` pages are
      fetched and the listing is their results in order, each page contributing `Limit` images
      when it is full. */
  lemma {:induction false} EndlessListingIsCapped<R>(source: string -> Fetch<R>, url: string, budget: nat)
    requires forall u :: source(u).Fetched? && HasNext(source(u).page) && |source(u).page.results| == Limit
    ensures Fetches(source, url, budget) == budget
    ensures Listing(source, url, budget).Ok? && |Listing(source, url, budget).body| == budget * Limit
    decreases budget
  {
    if budget > 0 {
      var p := source(url).page;
      EndlessListingIsCapped(source, p.next.value, budget - 1);
    }
  }
}
