/** The listing of verified contracts, page by page, one page ahead of its reader. */
module PageIterator {
  import opened Prelude

  /** What the server asks back to continue a listing. */
  datatype Cursor = Cursor(itemsCount: nat, smartContractId: nat)

  datatype Item = Item(address: Bytes, verifiedAt: int, language: string, compilerVersion: string)

  datatype Response = Response(items: seq<Item>, next: Option<Cursor>)

  /** The answer to the request with that number and cursor; none if the request fails. */
  type Server = (nat, Option<Cursor>) -> Option<Response>

  // ---- the chain of pages ----

  /** The answer to the `k`-th request of a listing that follows the cursors and stops at an empty page. */
  function PageAt(server: Server, k: nat): Option<Response> {
    if k == 0 then server(0, None)
    else match PageAt(server, k - 1)
      case None => None
      case Some(r) => if r.items == [] || r.next.None? then None else server(k, r.next)
  }

  /** The listing has a `k`-th page. */
  predicate Listed(server: Server, k: nat) {
    PageAt(server, k).Some? && PageAt(server, k).value.items != []
  }

  /** The request for the page after the `k`-th fails. */
  predicate FailsAfter(server: Server, k: nat) {
    Listed(server, k) && PageAt(server, k).value.next.Some? && PageAt(server, k + 1).None?
  }

  // ---- the iterator ----

  datatype Iter = Iter(items: seq<Item>, next: Option<Cursor>, requests: nat)

  datatype Answer = Page(items: seq<Item>) | End | RequestError

  function Open(server: Server): Option<Iter> {
    match server(0, None) case None => None case Some(r) => Some(Iter(r.items, r.next, 1))
  }

  /** One call: hands out the page in store after loading the next. When loading fails the page in store is gone. */
  function Call(server: Server, it: Iter): (Iter, Answer) {
    if it.items == [] then (it, End)
    else if it.next.None? then (it.(items := []), Page(it.items))
    else match server(it.requests, it.next)
      case None => (Iter([], it.next, it.requests + 1), RequestError)
      case Some(r) => (Iter(r.items, r.next, it.requests + 1), Page(it.items))
  }

  function Calls(server: Server, it: Iter, k: nat): Iter {
    if k == 0 then it else Call(server, Calls(server, it, k - 1)).0
  }

  /** Before its `k`-th call the iterator stores page `k` and its cursor, or nothing for ever. */
  ghost predicate Stores(server: Server, it: Iter, k: nat) {
    if Listed(server, k) then it == Iter(PageAt(server, k).value.items, PageAt(server, k).value.next, k + 1)
    else it.items == []
  }

  /** What the listing answers to the `k`-th call. */
  ghost function Answered(server: Server, k: nat): Answer {
    if !Listed(server, k) then End
    else if FailsAfter(server, k) then RequestError
    else Page(PageAt(server, k).value.items)
  }

  lemma CallStores(server: Server, it: Iter, k: nat)
    requires Stores(server, it, k)
    ensures Stores(server, Call(server, it).0, k + 1) && Call(server, it).1 == Answered(server, k)
  {
  }

  lemma {:induction false} CallsStore(server: Server, it: Iter, k: nat)
    requires Open(server) == Some(it)
    ensures Stores(server, Calls(server, it, k), k)
  {
    if k > 0 {
      CallsStore(server, it, k - 1);
      CallStores(server, Calls(server, it, k - 1), k - 1);
    }
  }

  /** The `k`-th call answers with the `k`-th page of the listing, and with the end for ever after the last page;
      the page before a failed request is lost, and the end follows. */
  lemma NthCall(server: Server, it: Iter, k: nat)
    requires Open(server) == Some(it)
    ensures Call(server, Calls(server, it, k)).1 == Answered(server, k)
  {
    CallsStore(server, it, k);
    CallStores(server, Calls(server, it, k), k);
  }

  lemma {:induction false} NotListedAfter(server: Server, k: nat, m: nat)
    requires !Listed(server, k) && k <= m
    ensures !Listed(server, m)
  {
    if k < m {
      NotListedAfter(server, k, m - 1);
    }
  }

  /** After the end, or after a failed request, every call answers with the end. */
  lemma EndForEver(server: Server, it: Iter, k: nat, m: nat)
    requires Open(server) == Some(it) && k < m && !Call(server, Calls(server, it, k)).1.Page?
    ensures Call(server, Calls(server, it, m)).1 == End
  {
    NthCall(server, it, k);
    NotListedAfter(server, k + 1, m);
    NthCall(server, it, m);
  }

  /** A server with one page and a cursor to a second, the request for which fails. */
  function FailingServer(item: Item): Server {
    (k, cursor) => if k == 0 then Some(Response([item], Some(Cursor(1, 1)))) else None
  }

  /** The first call to it reports the failed request and every other one the end: its page is never handed out. */
  lemma PageLost(item: Item, k: nat)
    ensures var server := FailingServer(item);
            && Listed(server, 0) && FailsAfter(server, 0) && Open(server).Some?
            && Call(server, Calls(server, Open(server).value, k)).1 == if k == 0 then RequestError else End
  {
    var server := FailingServer(item);
    assert PageAt(server, 0) == Some(Response([item], Some(Cursor(1, 1))));
    assert PageAt(server, 1).None?;
    NthCall(server, Open(server).value, 0);
    if k > 0 {
      EndForEver(server, Open(server).value, 0, k);
    }
  }

  class VerifiedContractsIterator {
    const server: Server
    var items: seq<Item>
    var nextPageParams: Option<Cursor>
    var requests: nat

    constructor (server: Server, first: Response)
      ensures this.server == server && Value() == Iter(first.items, first.next, 1)
    {
      this.server := server;
      items, nextPageParams, requests := first.items, first.next, 1;
    }

    function Value(): Iter
      reads this
    {
      Iter(items, nextPageParams, requests)
    }

    method NextPage() returns (r: Answer)
      modifies this
      ensures Value() == Call(server, old(Value())).0 && r == Call(server, old(Value())).1
    {
      if items == [] {
        return End;
      }
      var page := items;
      items := [];
      if nextPageParams.Some? {
        var response := server(requests, nextPageParams);
        requests := requests + 1;
        if response.None? {
          return RequestError;
        }
        nextPageParams := response.value.next;
        items := response.value.items;
      }
      r := Page(page);
    }
  }

  method NewIterator(server: Server) returns (r: Option<VerifiedContractsIterator>)
    ensures r.Some? <==> Open(server).Some?
    ensures r.Some? ==> fresh(r.value) && r.value.server == server && Some(r.value.Value()) == Open(server)
  {
    var response := server(0, None);
    if response.None? {
      return None;
    }
    var it := new VerifiedContractsIterator(server, response.value);
    r := Some(it);
  }
}
