/** Importing the listed contracts into the table of addresses, with an early stop at a page that adds nothing. */
module AddressImport {
  import opened Prelude
  import WorkQueue
  import opened PageIterator

  datatype Language = Solidity | Yul | Vyper

  datatype Row = Row(status: WorkQueue.Status, verifiedAt: int, language: Language, compilerVersion: string)

  type Addresses = map<Bytes, Row>

  function LanguageOf(name: string): Option<Language> {
    if name == "solidity" then Some(Solidity) else if name == "yul" then Some(Yul)
    else if name == "vyper" then Some(Vyper) else None
  }

  predicate Readable(items: seq<Item>) {
    forall i :: 0 <= i < |items| ==> LanguageOf(items[i].language).Some?
  }

  /** A new row is waiting. */
  function RowOf(item: Item): Row {
    var language := LanguageOf(item.language);
    Row(WorkQueue.Waiting, item.verifiedAt, if language.Some? then language.value else Solidity, item.compilerVersion)
  }

  /** Inserts the rows whose address is not there yet. */
  function InsertMany(t: Addresses, items: seq<Item>): (r: Addresses)
    ensures Submap(t, r)
    decreases |items|
  {
    if items == [] then t
    else InsertMany(if items[0].address in t then t else t[items[0].address := RowOf(items[0])], items[1..])
  }

  datatype ImportError = RequestFailed | InvalidLanguage

  datatype Outcome = Outcome(table: Addresses, result: Result<nat, ImportError>)

  /** The import of the pages that the iterator hands out; `failed` tells whether it ends with a failed request. */
  function ImportPages(t: Addresses, pages: seq<seq<Item>>, failed: bool, processed: nat, force: bool): Outcome
    decreases |pages|
  {
    if pages == [] then Outcome(t, if failed then Err(RequestFailed) else Ok(processed))
    else if !Readable(pages[0]) then Outcome(t, Err(InvalidLanguage))
    else
      var after := InsertMany(t, pages[0]);
      if after.Keys == t.Keys && !force then Outcome(t, Ok(processed + |pages[0]|))
      else ImportPages(after, pages[1..], failed, processed + |pages[0]|, force)
  }

  // ---- the pages of a listing that ends ----

  ghost function PagesFrom(server: Server, k: nat, limit: nat): seq<seq<Item>>
    requires k <= limit && !Listed(server, limit)
    decreases limit - k
  {
    if !Listed(server, k) || FailsAfter(server, k) then []
    else [PageAt(server, k).value.items] + PagesFrom(server, k + 1, limit)
  }

  ghost predicate FailsFrom(server: Server, k: nat, limit: nat)
    requires k <= limit && !Listed(server, limit)
    decreases limit - k
  {
    Listed(server, k) && (FailsAfter(server, k) || FailsFrom(server, k + 1, limit))
  }

  /** The import from the `k`-th page on. */
  ghost function ImportFrom(server: Server, k: nat, limit: nat, t: Addresses, processed: nat, force: bool): Outcome
    requires k <= limit && !Listed(server, limit)
  {
    ImportPages(t, PagesFrom(server, k, limit), FailsFrom(server, k, limit), processed, force)
  }

  /** The import of a page and those after it. */
  lemma ImportFirst(t: Addresses, items: seq<Item>, rest: seq<seq<Item>>, failed: bool, processed: nat, force: bool)
    ensures ImportPages(t, [items] + rest, failed, processed, force)
            == if !Readable(items) then Outcome(t, Err(InvalidLanguage))
               else if Known(t, items) && !force then Outcome(t, Ok(processed + |items|))
               else ImportPages(InsertMany(t, items), rest, failed, processed + |items|, force)
  {
    assert ([items] + rest)[1..] == rest;
    NothingInserted(t, items);
  }

  lemma ImportOne(server: Server, k: nat, limit: nat, t: Addresses, processed: nat, force: bool, items: seq<Item>)
    requires k <= limit && !Listed(server, limit) && Answered(server, k) == Page(items)
    ensures k < limit
    ensures ImportFrom(server, k, limit, t, processed, force)
            == if !Readable(items) then Outcome(t, Err(InvalidLanguage))
               else if Known(t, items) && !force then Outcome(t, Ok(processed + |items|))
               else ImportFrom(server, k + 1, limit, InsertMany(t, items), processed + |items|, force)
  {
    ImportFirst(t, items, PagesFrom(server, k + 1, limit), FailsFrom(server, k + 1, limit), processed, force);
  }

  lemma ImportEnd(server: Server, k: nat, limit: nat, t: Addresses, processed: nat, force: bool)
    requires k <= limit && !Listed(server, limit) && !Answered(server, k).Page?
    ensures ImportFrom(server, k, limit, t, processed, force)
            == Outcome(t, if Answered(server, k).RequestError? then Err(RequestFailed) else Ok(processed))
  {
  }

  /** Where an import stands after a number of turns. */
  datatype Progress =
    | Running(table: Addresses, processed: nat)
    | Finished(table: Addresses, result: Result<nat, ImportError>)

  function Done(o: Outcome): Progress {
    Finished(o.table, o.result)
  }

  /** The answers of an iterator, call by call. */
  type Answers = nat -> Answer

  ghost function AnswersOf(server: Server): Answers {
    (k: nat) => Answered(server, k)
  }

  ghost predicate Agree(server: Server, answers: Answers) {
    forall k: nat {:trigger Answered(server, k)} :: answers(k) == Answered(server, k)
  }

  /** The import from the `k`-th answer on, for so many turns. */
  ghost function ImportTurns(answers: Answers, k: nat, turns: nat, t: Addresses, processed: nat, force: bool): Progress
    decreases turns
  {
    if turns == 0 then Running(t, processed)
    else match answers(k)
      case End => Finished(t, Ok(processed))
      case RequestError => Finished(t, Err(RequestFailed))
      case Page(items) =>
        if !Readable(items) then Finished(t, Err(InvalidLanguage))
        else if Known(t, items) && !force then Finished(t, Ok(processed + |items|))
        else ImportTurns(answers, k + 1, turns - 1, InsertMany(t, items), processed + |items|, force)
  }

  class Importer {
    var table: Addresses

    constructor (t: Addresses)
      ensures table == t
    {
      table := t;
    }

    /** Inserts one page; tells whether to stop. */
    method ImportPage(items: seq<Item>, force: bool) returns (r: Result<bool, ImportError>)
      modifies this
      ensures !Readable(items) ==> r == Err(InvalidLanguage) && table == old(table)
      ensures Readable(items) ==> r == Ok(Known(old(table), items) && !force)
      ensures Readable(items) ==> table == InsertMany(old(table), items)
    {
      if !Readable(items) {
        return Err(InvalidLanguage);
      }
      var after := InsertMany(table, items);
      NothingInserted(table, items);
      r := Ok(after.Keys == table.Keys && !force);
      table := after;
    }

    /** One turn of the import loop. */
    method ImportTurn(pages: VerifiedContractsIterator, processed: nat, force: bool, ghost k: nat,
                      ghost answers: Answers) returns (r: Progress)
      requires Stores(pages.server, pages.Value(), k) && Agree(pages.server, answers)
      modifies this, pages
      ensures Stores(pages.server, pages.Value(), k + 1) && r.table == table
      ensures r == ImportTurns(answers, k, 1, old(table), processed, force)
    {
      CallStores(pages.server, pages.Value(), k);
      var page := pages.NextPage();
      if !page.Page? {
        return Finished(table, if page.RequestError? then Err(RequestFailed) else Ok(processed));
      }
      NothingInserted(table, page.items);
      var stop := ImportPage(page.items, force);
      if stop.Err? {
        return Finished(table, Err(stop.error));
      }
      r := if stop.value then Finished(table, Ok(processed + |page.items|))
           else Running(table, processed + |page.items|);
    }

    method ImportListing(pages: VerifiedContractsIterator, force: bool, turns: nat, ghost answers: Answers)
      returns (r: Progress)
      requires Stores(pages.server, pages.Value(), 0) && Agree(pages.server, answers)
      modifies this, pages
      ensures r == ImportTurns(answers, 0, turns, old(table), 0, force) && r.table == table
    {
      r := Running(table, 0);
      for k := 0 to turns
        invariant Stores(pages.server, pages.Value(), k) && r.Running? && r.table == table
        invariant ImportTurns(answers, 0, turns, old(table), 0, force)
                  == ImportTurns(answers, k, turns - k, table, r.processed, force)
      {
        OneTurn(answers, k, turns - k, table, r.processed, force);
        r := ImportTurn(pages, r.processed, force, k, answers);
        if r.Finished? {
          return;
        }
      }
    }

    /** The first `turns` turns of the import loop, from any server; a listing may have no end. */
    method ImportContractAddresses(server: Server, force: bool, turns: nat) returns (r: Progress)
      modifies this
      ensures r.table == table
      ensures Open(server).None? ==> r == Finished(old(table), Err(RequestFailed))
      ensures Open(server).Some? ==> r == ImportTurns(AnswersOf(server), 0, turns, old(table), 0, force)
    {
      var listing := NewIterator(server);
      if listing.None? {
        return Finished(table, Err(RequestFailed));
      }
      r := ImportListing(listing.value, force, turns, AnswersOf(server));
    }
  }

  // ---- the import of a listing that ends ----

  lemma OneTurn(answers: Answers, k: nat, turns: nat, t: Addresses, processed: nat, force: bool)
    requires turns > 0
    ensures var one := ImportTurns(answers, k, 1, t, processed, force);
            ImportTurns(answers, k, turns, t, processed, force)
            == if one.Finished? then one
               else ImportTurns(answers, k + 1, turns - 1, one.table, one.processed, force)
  {
    if answers(k).Page? {
      TurnPage(answers, k, turns, t, processed, force, answers(k).items);
      TurnPage(answers, k, 1, t, processed, force, answers(k).items);
    }
  }

  lemma TurnPage(answers: Answers, k: nat, turns: nat, t: Addresses, processed: nat, force: bool, items: seq<Item>)
    requires turns > 0 && answers(k) == Page(items)
    ensures ImportTurns(answers, k, turns, t, processed, force)
            == if !Readable(items) then Finished(t, Err(InvalidLanguage))
               else if Known(t, items) && !force then Finished(t, Ok(processed + |items|))
               else ImportTurns(answers, k + 1, turns - 1, InsertMany(t, items), processed + |items|, force)
  {
  }

  lemma TurnEnd(answers: Answers, k: nat, turns: nat, t: Addresses, processed: nat, force: bool)
    requires turns > 0 && !answers(k).Page?
    ensures ImportTurns(answers, k, turns, t, processed, force)
            == Finished(t, if answers(k).RequestError? then Err(RequestFailed) else Ok(processed))
  {
  }

  lemma {:induction false} TurnsReach(server: Server, answers: Answers, k: nat, limit: nat, turns: nat, t: Addresses,
                                      processed: nat, force: bool)
    requires Agree(server, answers) && k <= limit && !Listed(server, limit) && limit - k < turns
    ensures ImportTurns(answers, k, turns, t, processed, force)
            == Done(ImportFrom(server, k, limit, t, processed, force))
    decreases limit - k
  {
    assert answers(k) == Answered(server, k);
    if answers(k).Page? {
      var items := answers(k).items;
      TurnPage(answers, k, turns, t, processed, force, items);
      ImportOne(server, k, limit, t, processed, force, items);
      if Readable(items) && (force || !Known(t, items)) {
        TurnsReach(server, answers, k + 1, limit, turns - 1, InsertMany(t, items), processed + |items|, force);
      }
    } else {
      TurnEnd(answers, k, turns, t, processed, force);
      ImportEnd(server, k, limit, t, processed, force);
    }
  }

  /** Given enough turns, the import of a listing that ends comes to an end, which further turns do not change. */
  lemma TurnsSuffice(server: Server, limit: nat, turns: nat, t: Addresses, force: bool)
    requires !Listed(server, limit) && limit < turns
    ensures ImportTurns(AnswersOf(server), 0, turns, t, 0, force) == Done(ImportFrom(server, 0, limit, t, 0, force))
  {
    TurnsReach(server, AnswersOf(server), 0, limit, turns, t, 0, force);
  }

  /** At no turn of an import, of any listing, has a row that existed been changed. */
  lemma {:induction false} RowsKeptAtEveryTurn(answers: Answers, k: nat, turns: nat, t: Addresses, processed: nat,
                                               force: bool)
    ensures Submap(t, ImportTurns(answers, k, turns, t, processed, force).table)
    decreases turns
  {
    if turns > 0 && answers(k).Page? {
      var items := answers(k).items;
      RowsKeptAtEveryTurn(answers, k + 1, turns - 1, InsertMany(t, items), processed + |items|, force);
    }
  }

  // ---- inserting ----

  predicate Known(t: Addresses, items: seq<Item>) {
    forall i :: 0 <= i < |items| ==> items[i].address in t
  }

  /** Nothing is inserted precisely when every address is there. */
  lemma {:induction false} NothingInserted(t: Addresses, items: seq<Item>)
    ensures InsertMany(t, items).Keys == t.Keys <==> Known(t, items)
    ensures Known(t, items) ==> InsertMany(t, items) == t
    decreases |items|
  {
    if items != [] {
      var first := items[0].address;
      if first in t {
        NothingInserted(t, items[1..]);
        assert Known(t, items) <==> Known(t, items[1..]);
      } else {
        var next := t[first := RowOf(items[0])];
        assert first in next && Submap(next, InsertMany(next, items[1..]));
      }
    }
  }

  function InsertPages(t: Addresses, pages: seq<seq<Item>>): (r: Addresses)
    ensures Submap(t, r)
    decreases |pages|
  {
    if pages == [] then t else InsertPages(InsertMany(t, pages[0]), pages[1..])
  }

  predicate AllKnown(t: Addresses, pages: seq<seq<Item>>) {
    forall i :: 0 <= i < |pages| ==> Known(t, pages[i])
  }

  lemma {:induction false} NoPageInserted(t: Addresses, pages: seq<seq<Item>>)
    ensures InsertPages(t, pages) == t <==> AllKnown(t, pages)
    decreases |pages|
  {
    if pages != [] {
      NothingInserted(t, pages[0]);
      assert AllKnown(t, pages) <==> Known(t, pages[0]) && AllKnown(t, pages[1..]);
      if Known(t, pages[0]) {
        NoPageInserted(t, pages[1..]);
      } else {
        var next := InsertMany(t, pages[0]);
        assert Submap(t, next) && next.Keys != t.Keys;
        var a :| a in next.Keys && a !in t.Keys;
        assert a in InsertPages(next, pages[1..]);
      }
    }
  }

  // ---- early stop ----

  /** The pages before the first one with an unknown language. */
  function ReadablePages(pages: seq<seq<Item>>): seq<seq<Item>> {
    if pages == [] || !Readable(pages[0]) then [] else [pages[0]] + ReadablePages(pages[1..])
  }

  /** The number of pages before the first one that adds nothing. */
  function StopAt(t: Addresses, pages: seq<seq<Item>>): (n: nat)
    ensures n <= |pages|
    decreases |pages|
  {
    if pages == [] || Known(t, pages[0]) then 0 else 1 + StopAt(InsertMany(t, pages[0]), pages[1..])
  }

  lemma {:induction false} ForcedTable(t: Addresses, pages: seq<seq<Item>>, failed: bool, processed: nat)
    ensures ImportPages(t, pages, failed, processed, true).table == InsertPages(t, ReadablePages(pages))
    decreases |pages|
  {
    if pages != [] && Readable(pages[0]) {
      ForcedTable(InsertMany(t, pages[0]), pages[1..], failed, processed + |pages[0]|);
      assert ReadablePages(pages)[1..] == ReadablePages(pages[1..]);
    }
  }

  lemma {:induction false} EarlyTable(t: Addresses, pages: seq<seq<Item>>, failed: bool, processed: nat)
    ensures var read := ReadablePages(pages);
            ImportPages(t, pages, failed, processed, false).table == InsertPages(t, read[..StopAt(t, read)])
    decreases |pages|
  {
    if pages != [] && Readable(pages[0]) {
      var read := ReadablePages(pages);
      NothingInserted(t, pages[0]);
      assert read[1..] == ReadablePages(pages[1..]);
      if !Known(t, pages[0]) {
        var next := InsertMany(t, pages[0]);
        EarlyTable(next, pages[1..], failed, processed + |pages[0]|);
        var n := StopAt(next, read[1..]);
        assert read[..n + 1][0] == pages[0] && read[..n + 1][1..] == read[1..][..n];
      }
    }
  }

  lemma {:induction false} InsertPagesConcat(t: Addresses, a: seq<seq<Item>>, b: seq<seq<Item>>)
    ensures InsertPages(t, a + b) == InsertPages(InsertPages(t, a), b)
    decreases |a|
  {
    if a == [] {
      assert a + b == b;
    } else {
      assert (a + b)[0] == a[0] && (a + b)[1..] == a[1..] + b;
      InsertPagesConcat(InsertMany(t, a[0]), a[1..], b);
    }
  }

  /** The import never changes a row that exists, whether forced or not, stopped or failed. */
  lemma {:induction false} ExistingRowsKept(t: Addresses, pages: seq<seq<Item>>, failed: bool, processed: nat,
                                            force: bool)
    ensures Submap(t, ImportPages(t, pages, failed, processed, force).table)
    decreases |pages|
  {
    if pages != [] && Readable(pages[0]) {
      ExistingRowsKept(InsertMany(t, pages[0]), pages[1..], failed, processed + |pages[0]|, force);
    }
  }

  /** The early stop ends with the table of a forced import precisely when the pages from the first one that adds
      nothing on list only addresses known by then. */
  lemma EarlyStopIff(t: Addresses, pages: seq<seq<Item>>, failed: bool)
    ensures var read := ReadablePages(pages);
            var n := StopAt(t, read);
            ImportPages(t, pages, failed, 0, false).table == ImportPages(t, pages, failed, 0, true).table
            <==> AllKnown(InsertPages(t, read[..n]), read[n..])
  {
    var read := ReadablePages(pages);
    var n := StopAt(t, read);
    ForcedTable(t, pages, failed, 0);
    EarlyTable(t, pages, failed, 0);
    InsertPagesConcat(t, read[..n], read[n..]);
    assert read[..n] + read[n..] == read;
    NoPageInserted(InsertPages(t, read[..n]), read[n..]);
  }

  // ---- new contracts first ----

  function Flat(pages: seq<seq<Item>>): seq<Item> {
    if pages == [] then [] else pages[0] + Flat(pages[1..])
  }

  /** New contracts come first, each once; everything after them is in the table. */
  ghost predicate NewFirst(t: Addresses, items: seq<Item>, cut: nat) {
    && cut <= |items|
    && (forall i :: 0 <= i < cut ==> items[i].address !in t)
    && (forall i, j :: 0 <= i < j < cut ==> items[i].address != items[j].address)
    && (forall i :: cut <= i < |items| ==> items[i].address in t)
  }

  lemma NewFirstNext(t: Addresses, items: seq<Item>, cut: nat)
    requires NewFirst(t, items, cut) && cut > 0
    ensures NewFirst(t[items[0].address := RowOf(items[0])], items[1..], cut - 1)
  {
  }

  /** What inserting a page leaves of such a list. */
  lemma {:induction false} NewFirstAfter(t: Addresses, page: seq<Item>, rest: seq<Item>, cut: nat)
    requires NewFirst(t, page + rest, cut)
    ensures NewFirst(InsertMany(t, page), rest, if cut < |page| then 0 else cut - |page|)
    decreases |page|
  {
    var all := page + rest;
    if page == [] {
      assert all == rest;
    } else {
      assert all[0] == page[0] && all[1..] == page[1..] + rest;
      if cut > 0 {
        NewFirstNext(t, all, cut);
        NewFirstAfter(t[page[0].address := RowOf(page[0])], page[1..], rest, cut - 1);
      } else {
        assert NewFirst(t, all[1..], 0);
        NewFirstAfter(t, page[1..], rest, 0);
      }
    }
  }

  /** On a page that adds nothing the new contracts are over. */
  lemma NewOver(t: Addresses, page: seq<Item>, rest: seq<Item>, cut: nat)
    requires NewFirst(t, page + rest, cut) && page != [] && Known(t, page)
    ensures Known(t, rest)
  {
    assert (page + rest)[0] == page[0];
    assert cut == 0;
    forall i | 0 <= i < |rest| ensures rest[i].address in t {
      assert (page + rest)[|page| + i] == rest[i];
    }
  }

  lemma {:induction false} FlatKnown(t: Addresses, pages: seq<seq<Item>>)
    requires Known(t, Flat(pages))
    ensures AllKnown(t, pages)
  {
    if pages != [] {
      var flat := Flat(pages);
      forall i | 0 <= i < |pages[0]| ensures pages[0][i].address in t {
        assert flat[i] == pages[0][i];
      }
      forall i | 0 <= i < |Flat(pages[1..])| ensures Flat(pages[1..])[i].address in t {
        assert flat[|pages[0]| + i] == Flat(pages[1..])[i];
      }
      FlatKnown(t, pages[1..]);
    }
  }

  lemma {:induction false} NewFirstStops(t: Addresses, pages: seq<seq<Item>>, cut: nat)
    requires NewFirst(t, Flat(pages), cut) && forall i :: 0 <= i < |pages| ==> pages[i] != []
    ensures var n := StopAt(t, pages); AllKnown(InsertPages(t, pages[..n]), pages[n..])
    decreases |pages|
  {
    if pages != [] {
      var rest := Flat(pages[1..]);
      if Known(t, pages[0]) {
        NewOver(t, pages[0], rest, cut);
        FlatKnown(t, pages[1..]);
      } else {
        var next := InsertMany(t, pages[0]);
        NewFirstAfter(t, pages[0], rest, cut);
        NewFirstStops(next, pages[1..], if cut < |pages[0]| then 0 else cut - |pages[0]|);
        var n := StopAt(next, pages[1..]);
        assert pages[..n + 1][0] == pages[0] && pages[..n + 1][1..] == pages[1..][..n];
        assert pages[1..][n..] == pages[n + 1..];
      }
    }
  }

  lemma {:induction false} AllReadable(pages: seq<seq<Item>>)
    requires forall i :: 0 <= i < |pages| ==> Readable(pages[i])
    ensures ReadablePages(pages) == pages
  {
    if pages != [] {
      AllReadable(pages[1..]);
    }
  }

  /** If the server lists the contracts not imported yet first, each once, and everything after them is in the table,
      then the early stop ends with the table of a forced import. */
  lemma NewFirstSuffices(t: Addresses, pages: seq<seq<Item>>, failed: bool, cut: nat)
    requires forall i :: 0 <= i < |pages| ==> pages[i] != [] && Readable(pages[i])
    requires NewFirst(t, Flat(pages), cut)
    ensures ImportPages(t, pages, failed, 0, false).table == ImportPages(t, pages, failed, 0, true).table
  {
    AllReadable(pages);
    NewFirstStops(t, pages, cut);
    EarlyStopIff(t, pages, failed);
  }

  /** A known contract listed before a new one: the early stop misses the new one. */
  lemma EarlyStopMisses(known: Item, unseen: Item, t: Addresses)
    requires known.address in t && unseen.address !in t
    requires LanguageOf(known.language).Some? && LanguageOf(unseen.language).Some?
    ensures unseen.address !in ImportPages(t, [[known], [unseen]], false, 0, false).table
    ensures unseen.address in ImportPages(t, [[known], [unseen]], false, 0, true).table
  {
    var pages := [[known], [unseen]];
    NothingInserted(t, [known]);
    NothingInserted(t, [unseen]);
    assert pages[1..] == [[unseen]] && [[unseen]][1..] == [];
    assert [unseen][0] == unseen && !Known(t, [unseen]);
    var after := InsertMany(t, [unseen]);
    assert unseen.address in after by {
      assert after == InsertMany(t[unseen.address := RowOf(unseen)], [unseen][1..]);
    }
    assert ImportPages(after, [], false, 2, true).table == after;
    assert ImportPages(t, [[unseen]], false, 1, true).table == after;
  }

  /** Every page handed out holds something. */
  lemma {:induction false} PagesNotEmpty(server: Server, k: nat, limit: nat)
    requires k <= limit && !Listed(server, limit)
    ensures forall i :: 0 <= i < |PagesFrom(server, k, limit)| ==> PagesFrom(server, k, limit)[i] != []
    decreases limit - k
  {
    if Listed(server, k) && !FailsAfter(server, k) {
      PagesNotEmpty(server, k + 1, limit);
    }
  }

  /** For a listing that ends, with the contracts not imported yet first: importing with the early stop and importing
      by force end with the same table. */
  lemma ListingNewFirst(server: Server, limit: nat, t: Addresses, cut: nat)
    requires !Listed(server, limit) && NewFirst(t, Flat(PagesFrom(server, 0, limit)), cut)
    requires forall i :: 0 <= i < |PagesFrom(server, 0, limit)| ==> Readable(PagesFrom(server, 0, limit)[i])
    ensures ImportFrom(server, 0, limit, t, 0, false).table == ImportFrom(server, 0, limit, t, 0, true).table
  {
    PagesNotEmpty(server, 0, limit);
    NewFirstSuffices(t, PagesFrom(server, 0, limit), FailsFrom(server, 0, limit), cut);
  }

  // ---- what a forced import inserts ----

  /** Item `i` is the first of its address. */
  predicate FirstListed(items: seq<Item>, i: nat) {
    i < |items| && forall j :: 0 <= j < i ==> items[j].address != items[i].address
  }

  /** Every address is there afterwards; a new one with the row of its first item. */
  lemma {:induction false} Inserted(t: Addresses, items: seq<Item>, i: nat)
    requires FirstListed(items, i)
    ensures items[i].address in InsertMany(t, items)
    ensures items[i].address !in t ==> InsertMany(t, items)[items[i].address] == RowOf(items[i])
    decreases |items|
  {
    var next := if items[0].address in t then t else t[items[0].address := RowOf(items[0])];
    assert Submap(next, InsertMany(next, items[1..]));
    if i > 0 {
      assert FirstListed(items[1..], i - 1);
      Inserted(next, items[1..], i - 1);
    }
  }

  lemma {:induction false} InsertManyConcat(t: Addresses, a: seq<Item>, b: seq<Item>)
    ensures InsertMany(t, a + b) == InsertMany(InsertMany(t, a), b)
    decreases |a|
  {
    if a == [] {
      assert a + b == b;
    } else {
      assert (a + b)[0] == a[0] && (a + b)[1..] == a[1..] + b;
      InsertManyConcat(if a[0].address in t then t else t[a[0].address := RowOf(a[0])], a[1..], b);
    }
  }

  lemma {:induction false} InsertPagesFlat(t: Addresses, pages: seq<seq<Item>>)
    ensures InsertPages(t, pages) == InsertMany(t, Flat(pages))
    decreases |pages|
  {
    if pages != [] {
      InsertPagesFlat(InsertMany(t, pages[0]), pages[1..]);
      InsertManyConcat(t, pages[0], Flat(pages[1..]));
    }
  }

  /** The language is one of the three that are known, in this spelling. */
  ghost predicate KnownLanguage(item: Item) {
    item.language == "solidity" || item.language == "yul" || item.language == "vyper"
  }

  /** A page is read precisely if every item on it has a known language. */
  lemma ReadableIff(items: seq<Item>)
    ensures Readable(items) <==> forall i :: 0 <= i < |items| ==> KnownLanguage(items[i])
  {
  }

  /** Nothing is added that is not listed. */
  lemma {:induction false} OnlyListed(t: Addresses, items: seq<Item>)
    ensures InsertMany(t, items).Keys == t.Keys + set i | 0 <= i < |items| :: items[i].address
    decreases |items|
  {
    if items != [] {
      var next := if items[0].address in t then t else t[items[0].address := RowOf(items[0])];
      OnlyListed(next, items[1..]);
      var all := set i | 0 <= i < |items| :: items[i].address;
      var rest := set i | 0 <= i < |items[1..]| :: items[1..][i].address;
      forall a ensures a in all <==> a == items[0].address || a in rest {
        if i :| 0 <= i < |items| && items[i].address == a && i > 0 {
          assert items[1..][i - 1].address == a;
        }
        if i :| 0 <= i < |items[1..]| && items[1..][i].address == a {
          assert items[i + 1].address == a;
        }
      }
    }
  }

  /** A forced import counts every item it lists, repeated or known. */
  lemma {:induction false} ForcedCount(t: Addresses, pages: seq<seq<Item>>, failed: bool, processed: nat)
    requires forall k :: 0 <= k < |pages| ==> Readable(pages[k])
    ensures ImportPages(t, pages, failed, processed, true).result
            == if failed then Err(RequestFailed) else Ok(processed + |Flat(pages)|)
    decreases |pages|
  {
    if pages != [] {
      assert pages == [pages[0]] + pages[1..];
      ImportFirst(t, pages[0], pages[1..], failed, processed, true);
      ForcedCount(InsertMany(t, pages[0]), pages[1..], failed, processed + |pages[0]|);
    }
  }

  /** The row waits and has the data and the language of the item. */
  ghost predicate RowFor(row: Row, item: Item) {
    && row.status == WorkQueue.Waiting
    && row.verifiedAt == item.verifiedAt && row.compilerVersion == item.compilerVersion
    && (item.language == "solidity" ==> row.language == Solidity)
    && (item.language == "yul" ==> row.language == Yul)
    && (item.language == "vyper" ==> row.language == Vyper)
  }

  lemma RowsListed(t: Addresses, items: seq<Item>, after: Addresses)
    requires after == InsertMany(t, items)
    ensures forall i :: 0 <= i < |items| && (forall j :: 0 <= j < i ==> items[j].address != items[i].address)
                        && items[i].address !in t
                        ==> items[i].address in after && RowFor(after[items[i].address], items[i])
  {
    forall i | 0 <= i < |items| && (forall j :: 0 <= j < i ==> items[j].address != items[i].address)
               && items[i].address !in t
      ensures items[i].address in after && RowFor(after[items[i].address], items[i])
    {
      assert FirstListed(items, i);
      Inserted(t, items, i);
      assert RowFor(RowOf(items[i]), items[i]);
    }
  }

  lemma ForcedOutcome(t: Addresses, pages: seq<seq<Item>>, failed: bool)
    requires forall i :: 0 <= i < |Flat(pages)| ==> KnownLanguage(Flat(pages)[i])
    ensures ImportPages(t, pages, failed, 0, true)
            == Outcome(InsertMany(t, Flat(pages)), if failed then Err(RequestFailed) else Ok(|Flat(pages)|))
  {
    FlatReadable(pages);
    ForcedTable(t, pages, failed, 0);
    ForcedCount(t, pages, failed, 0);
    AllReadable(pages);
    InsertPagesFlat(t, pages);
  }

  /** A forced import of pages in known languages adds exactly the listed addresses, each new one waiting and with the
      data of the item that listed it first; it returns the number of items listed, or the failed request. */
  lemma ForcedImportsAll(t: Addresses, pages: seq<seq<Item>>, failed: bool)
    requires forall i :: 0 <= i < |Flat(pages)| ==> KnownLanguage(Flat(pages)[i])
    ensures var items := Flat(pages);
            var outcome := ImportPages(t, pages, failed, 0, true);
            var after := outcome.table;
            && after.Keys == t.Keys + (set i | 0 <= i < |items| :: items[i].address)
            && Submap(t, after)
            && outcome.result == (if failed then Err(RequestFailed) else Ok(|items|))
            && forall i :: 0 <= i < |items| && (forall j :: 0 <= j < i ==> items[j].address != items[i].address)
                           && items[i].address !in t
                           ==> items[i].address in after && RowFor(after[items[i].address], items[i])
  {
    ForcedOutcome(t, pages, failed);
    OnlyListed(t, Flat(pages));
    RowsListed(t, Flat(pages), InsertMany(t, Flat(pages)));
  }

  lemma {:induction false} FlatReadable(pages: seq<seq<Item>>)
    requires forall i :: 0 <= i < |Flat(pages)| ==> KnownLanguage(Flat(pages)[i])
    ensures forall k :: 0 <= k < |pages| ==> Readable(pages[k])
  {
    if pages != [] {
      var flat, rest := Flat(pages), Flat(pages[1..]);
      forall i | 0 <= i < |pages[0]| ensures KnownLanguage(pages[0][i]) {
        assert flat[i] == pages[0][i];
      }
      forall i | 0 <= i < |rest| ensures KnownLanguage(rest[i]) {
        assert flat[|pages[0]| + i] == rest[i];
      }
      FlatReadable(pages[1..]);
      forall k | 0 <= k < |pages| ensures Readable(pages[k]) {
        assert k > 0 ==> pages[k] == pages[1..][k - 1];
      }
    }
  }
}
