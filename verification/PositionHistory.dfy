/** Paging through KuCoin position history. */
module PositionHistory {
  import opened Common
  import opened Fields

  const PAGE_SIZE := 50
  const MAX_PAGES := 100

  // Times are milliseconds, 0 when absent or unreadable; sides and types are upper-cased.
  // hasKeys is false only for a record with no key at all, which the source treats as no record.
  datatype Record = Record(
    symbol: string, closeId: string, openTime: int, closeTime: int, size: Field,
    closeType: string, side: string, hasKeys: bool,
    pnl: Field, realisedPnl: Field, realizedPnl: Field, realisedPNL: Field,
    tradeFee: Field, fee: Field, closeFee: Field, fundingFee: Field,
    avgEntryPrice: Field, openPrice: Field, closePrice: Field, avgExitPrice: Field)

  // The four accepted body shapes all reduce to a list of records; any other body is the empty page.
  datatype Response = Page(records: seq<Record>) | CallFailed

  // A query for one page: with or without the symbol filter.
  type Api = (bool, nat) -> Response

  function HasSymbol(symbol: string): Record -> bool {
    (r: Record) => r.symbol == symbol
  }

  /** The records taken from one page, or None when a call fails. */
  function PageRecords(api: Api, symbol: string, page: nat): Option<seq<Record>> {
    match api(true, page)
    case CallFailed => None
    case Page(records) =>
      if records != [] then Some(records)
      else if page != 1 then Some([])
      else
        match api(false, page)
        case CallFailed => None
        case Page(mixed) => Some(Filter(HasSymbol(symbol), mixed))
  }

  /** What the loop collects from the given page on. */
  function CollectFrom(api: Api, symbol: string, page: nat): seq<Record>
    decreases MAX_PAGES + 1 - page
  {
    if page > MAX_PAGES then []
    else
      match PageRecords(api, symbol, page)
      case None => []
      case Some(records) =>
        if |records| < PAGE_SIZE then records
        else records + CollectFrom(api, symbol, page + 1)
  }

  /** Collects pages until one is short, empty or failed, or the page limit is reached. */
  method FetchAllPositionHistory(api: Api, symbol: string) returns (all: seq<Record>, currentPage: nat)
    ensures all == CollectFrom(api, symbol, 1)
    ensures 1 <= currentPage <= MAX_PAGES + 1
  {
    all := [];
    currentPage := 1;
    while currentPage <= MAX_PAGES
      invariant 1 <= currentPage <= MAX_PAGES + 1
      invariant all + CollectFrom(api, symbol, currentPage) == CollectFrom(api, symbol, 1)
    {
      var response := api(true, currentPage);
      if response.CallFailed? {
        break;
      }
      var pageRecords := response.records;
      if pageRecords == [] && currentPage == 1 {
        var unfiltered := api(false, currentPage);
        if unfiltered.CallFailed? {
          break;
        }
        pageRecords := Filter(HasSymbol(symbol), unfiltered.records);
      }
      if pageRecords == [] {
        break;
      }
      all := all + pageRecords;
      if |pageRecords| < PAGE_SIZE {
        return;
      }
      currentPage := currentPage + 1;
    }
  }

  /** Page number `page` of a list served fifty records at a time. */
  function PageOf(list: seq<Record>, page: nat): seq<Record>
    requires page >= 1
  {
    var from := (page - 1) * PAGE_SIZE;
    if from >= |list| then []
    else if from + PAGE_SIZE <= |list| then list[from..from + PAGE_SIZE]
    else list[from..]
  }

  /** The server pages through `all`, and through its records of the symbol when filtered. */
  ghost predicate Serves(api: Api, symbol: string, all: seq<Record>) {
    forall page: nat :: page >= 1 ==>
      && api(true, page) == Page(PageOf(Filter(HasSymbol(symbol), all), page))
      && api(false, page) == Page(PageOf(all, page))
  }

  /** The same server, whose calls may also fail. */
  ghost predicate ServesUnlessFailing(api: Api, symbol: string, all: seq<Record>) {
    forall page: nat :: page >= 1 ==>
      && (api(true, page).Page? ==> api(true, page).records == PageOf(Filter(HasSymbol(symbol), all), page))
      && (api(false, page).Page? ==> api(false, page).records == PageOf(all, page))
  }

  /** With nothing of the symbol on record, the unfiltered first page adds nothing. */
  lemma NoMatchOnMixedPage(symbol: string, all: seq<Record>)
    requires Filter(HasSymbol(symbol), all) == []
    ensures Filter(HasSymbol(symbol), PageOf(all, 1)) == []
  {
    FilterMembers(HasSymbol(symbol), all);
    forall r | r in PageOf(all, 1)
      ensures !HasSymbol(symbol)(r)
    {
      assert r in all && r !in Filter(HasSymbol(symbol), all);
    }
    FilterNone(HasSymbol(symbol), PageOf(all, 1));
  }

  /** The first 5000 records. */
  function Cut(list: seq<Record>): seq<Record> {
    if |list| <= MAX_PAGES * PAGE_SIZE then list else list[..MAX_PAGES * PAGE_SIZE]
  }

  lemma PageServed(api: Api, symbol: string, all: seq<Record>, page: nat)
    requires page >= 1 && Serves(api, symbol, all)
    ensures PageRecords(api, symbol, page) == Some(PageOf(Filter(HasSymbol(symbol), all), page))
  {
    if Filter(HasSymbol(symbol), all) == [] {
      NoMatchOnMixedPage(symbol, all);
    }
  }

  lemma {:induction false} CollectFromPages(api: Api, symbol: string, list: seq<Record>, page: nat)
    requires 1 <= page <= MAX_PAGES + 1 && (page - 1) * PAGE_SIZE <= |list|
    requires forall p: nat :: p >= 1 ==> PageRecords(api, symbol, p) == Some(PageOf(list, p))
    ensures CollectFrom(api, symbol, page) == Cut(list)[(page - 1) * PAGE_SIZE..]
    decreases MAX_PAGES + 1 - page
  {
    if page <= MAX_PAGES {
      PageThenRest(list, page);
      if page * PAGE_SIZE <= |list| {
        CollectFromPages(api, symbol, list, page + 1);
      }
    }
  }

  lemma PageThenRest(list: seq<Record>, page: nat)
    requires 1 <= page <= MAX_PAGES && (page - 1) * PAGE_SIZE <= |list|
    ensures
      var here := Cut(list)[(page - 1) * PAGE_SIZE..];
      if page * PAGE_SIZE <= |list| then
        |PageOf(list, page)| == PAGE_SIZE && here == PageOf(list, page) + Cut(list)[page * PAGE_SIZE..]
      else |PageOf(list, page)| < PAGE_SIZE && here == PageOf(list, page)
  {
  }

  /** A faithful server's list is returned in order, cut at 5000 records: complete exactly when it fits. */
  lemma PagingIsComplete(api: Api, symbol: string, all: seq<Record>)
    requires Serves(api, symbol, all)
    ensures
      var list := Filter(HasSymbol(symbol), all);
      && CollectFrom(api, symbol, 1) == (if |list| <= 5000 then list else list[..5000])
      && (CollectFrom(api, symbol, 1) == list <==> |list| <= 5000)
  {
    forall p: nat | p >= 1
      ensures PageRecords(api, symbol, p) == Some(PageOf(Filter(HasSymbol(symbol), all), p))
    {
      PageServed(api, symbol, all, p);
    }
    CollectFromPages(api, symbol, Filter(HasSymbol(symbol), all), 1);
  }

  lemma {:induction false} CollectIsPrefixFrom(api: Api, symbol: string, all: seq<Record>, page: nat)
    requires 1 <= page <= MAX_PAGES + 1
    requires ServesUnlessFailing(api, symbol, all)
    requires (page - 1) * PAGE_SIZE <= |Filter(HasSymbol(symbol), all)|
    ensures CollectFrom(api, symbol, page) <= Filter(HasSymbol(symbol), all)[(page - 1) * PAGE_SIZE..]
    decreases MAX_PAGES + 1 - page
  {
    var list := Filter(HasSymbol(symbol), all);
    if page <= MAX_PAGES && PageRecords(api, symbol, page).Some? {
      if list == [] {
        NoMatchOnMixedPage(symbol, all);
      }
      if page * PAGE_SIZE <= |list| {
        CollectIsPrefixFrom(api, symbol, all, page + 1);
        var here := list[(page - 1) * PAGE_SIZE..];
        assert here == PageOf(list, page) + list[page * PAGE_SIZE..];
      }
    }
  }

  /** When calls fail, what was collected is still an initial part of the list: no gap, no repeat. */
  lemma FailedPagingIsPrefix(api: Api, symbol: string, all: seq<Record>)
    requires ServesUnlessFailing(api, symbol, all)
    ensures CollectFrom(api, symbol, 1) <= Filter(HasSymbol(symbol), all)
  {
    CollectIsPrefixFrom(api, symbol, all, 1);
  }

  /** When the filtered first page is empty, the symbol's records of the unfiltered one stand in for it, and the
      filtered second page is only asked for after fifty of them. */
  lemma UnfilteredPageStandsIn(api: Api, symbol: string, mixed: seq<Record>)
    requires api(true, 1) == Page([]) && api(false, 1) == Page(mixed)
    ensures
      var own := Filter(HasSymbol(symbol), mixed);
      CollectFrom(api, symbol, 1) == if |own| < 50 then own else own + CollectFrom(api, symbol, 2)
  {
  }
}
