/**
 * Reading the store's category list page by page (100 per page):
 * the name-to-id index that `sync-categories` and `category-sync` build
 * (index.php:83-101, repeated at 168-187), and the page collection that
 * `delete-categories` deletes (index.php:33-57).
 *
 * The store is an oracle: `listing(p)` / `fetch(p)` is what a request for
 * page p returns.
 */
module CategoryListing {

  datatype Category = Category(name: string, id: int)

  /** Category display name (as the store returns it) to category id. */
  type Index = map<string, int>

  // -----------------------------------------------------------------------
  // The name-to-id index (index.php:83-101)
  // -----------------------------------------------------------------------

  /** `$index[$category['name']] = $category['id']` for each category of a page, in order. */
  function Ingest(index: Index, page: seq<Category>): Index {
    if page == [] then index
    else Ingest(index, page[..|page| - 1])[page[|page| - 1].name := page[|page| - 1].id]
  }

  /**
   * The loop requests page p and moves on while p <= total, so the last
   * page it requests is the first one above `total`.
   */
  function LastRequestedPage(total: int): nat {
    if total >= 1 then total + 1 else 1
  }

  /** The index after ingesting pages 1..n. */
  function IndexOfPages(listing: int -> seq<Category>, n: nat): Index {
    if n == 0 then map[] else Ingest(IndexOfPages(listing, n - 1), listing(n))
  }

  /** All categories of pages 1..n, in the order they were returned. */
  function ListedUpTo(listing: int -> seq<Category>, n: nat): seq<Category> {
    if n == 0 then [] else ListedUpTo(listing, n - 1) + listing(n)
  }

  /**
   * The listing loop: `total` is the `x-wp-totalpages` header. It returns
   * the index and the pages it requested.
   */
  method BuildIndex(listing: int -> seq<Category>, total: int) returns (index: Index, requested: seq<int>)
    ensures |requested| == LastRequestedPage(total)
    ensures forall i :: 0 <= i < |requested| ==> requested[i] == i + 1
    ensures index == IndexOfPages(listing, LastRequestedPage(total))
  {
    index := map[];
    requested := [];
    var page := 1;
    var more := true;
    while more
      invariant 1 <= page <= LastRequestedPage(total)
      invariant more ==> |requested| == page - 1 && index == IndexOfPages(listing, page - 1)
      invariant !more ==> page == LastRequestedPage(total) && |requested| == page
      invariant !more ==> index == IndexOfPages(listing, page)
      invariant forall i :: 0 <= i < |requested| ==> requested[i] == i + 1
      decreases (if more then 1 else 0) + LastRequestedPage(total) - page
    {
      var response := listing(page);
      requested := requested + [page];
      var fetched := page;
      if page <= total {
        page := page + 1;
      } else {
        more := false;
      }
      ghost var before := index;
      for k := 0 to |response|
        invariant index == Ingest(before, response[..k])
      {
        assert response[..k + 1][..k] == response[..k];
        index := index[response[k].name := response[k].id];
      }
      assert response[..|response|] == response;
    }
  }

  /** Ingesting two lists one after the other is ingesting their concatenation. */
  lemma {:induction false} IngestAppend(index: Index, a: seq<Category>, b: seq<Category>)
    ensures Ingest(index, a + b) == Ingest(Ingest(index, a), b)
  {
    if b == [] {
      assert a + b == a;
    } else {
      assert (a + b)[..|a + b| - 1] == a + b[..|b| - 1];
      assert (a + b)[|a + b| - 1] == b[|b| - 1];
      IngestAppend(index, a, b[..|b| - 1]);
    }
  }

  /** The index of pages 1..n is the index of everything they returned, in order. */
  lemma {:induction false} IndexOfPagesIsIngest(listing: int -> seq<Category>, n: nat)
    ensures IndexOfPages(listing, n) == Ingest(map[], ListedUpTo(listing, n))
  {
    if n > 0 {
      IndexOfPagesIsIngest(listing, n - 1);
      IngestAppend(map[], ListedUpTo(listing, n - 1), listing(n));
    }
  }

  /** The names ingested are the old names plus every name of the list. */
  lemma {:induction false} IngestKeys(index: Index, page: seq<Category>, name: string)
    ensures name in Ingest(index, page) <==>
      name in index || exists i :: 0 <= i < |page| && page[i].name == name
  {
    if page != [] {
      var init := page[..|page| - 1];
      IngestKeys(index, init, name);
      if exists i :: 0 <= i < |page| && page[i].name == name {
        var i :| 0 <= i < |page| && page[i].name == name;
        if i < |page| - 1 {
          assert init[i] == page[i];
        }
      }
      if exists i :: 0 <= i < |init| && init[i].name == name {
        var i :| 0 <= i < |init| && init[i].name == name;
        assert page[i] == init[i];
      }
    }
  }

  /** A name takes the id of its last occurrence: later entries overwrite earlier ones. */
  lemma {:induction false} IngestLastWins(index: Index, page: seq<Category>, i: nat)
    requires i < |page|
    requires forall j :: i < j < |page| ==> page[j].name != page[i].name
    ensures page[i].name in Ingest(index, page)
    ensures Ingest(index, page)[page[i].name] == page[i].id
  {
    if i < |page| - 1 {
      var init := page[..|page| - 1];
      assert forall j :: i < j < |init| ==> init[j].name != init[i].name by {
        forall j | i < j < |init| ensures init[j].name != init[i].name {
          assert init[j] == page[j];
        }
      }
      IngestLastWins(index, init, i);
    }
  }

  /** A name the list does not mention keeps its old id. */
  lemma {:induction false} IngestKeeps(index: Index, page: seq<Category>, name: string)
    requires name in index
    requires forall j :: 0 <= j < |page| ==> page[j].name != name
    ensures name in Ingest(index, page) && Ingest(index, page)[name] == index[name]
  {
    if page != [] {
      var init := page[..|page| - 1];
      assert forall j :: 0 <= j < |init| ==> init[j].name != name by {
        forall j | 0 <= j < |init| ensures init[j].name != name {
          assert init[j] == page[j];
        }
      }
      IngestKeeps(index, init, name);
    }
  }

  /**
   * What the listing loop builds: every category returned on pages
   * 1..T+1 is indexed under its raw name, and a name listed more than
   * once takes the id of its last listing.
   */
  lemma ListedIndex(listing: int -> seq<Category>, total: int, i: nat, name: string)
    requires var all := ListedUpTo(listing, LastRequestedPage(total));
      i < |all| && forall j :: i < j < |all| ==> all[j].name != all[i].name
    ensures var all := ListedUpTo(listing, LastRequestedPage(total));
      var index := IndexOfPages(listing, LastRequestedPage(total));
      (name in index <==> exists k :: 0 <= k < |all| && all[k].name == name) &&
      all[i].name in index && index[all[i].name] == all[i].id
  {
    var all := ListedUpTo(listing, LastRequestedPage(total));
    IndexOfPagesIsIngest(listing, LastRequestedPage(total));
    IngestKeys(map[], all, name);
    IngestLastWins(map[], all, i);
  }

  // -----------------------------------------------------------------------
  // delete-categories (index.php:33-57)
  // -----------------------------------------------------------------------

  /** A page as requested: the HTTP status and the decoded list. */
  datatype PageReply = PageReply(status: int, items: seq<Category>)

  /** The collection loop gives up after this page. */
  const MaxPages: nat := 1000

  /** Collection goes on past a page whose status is 200 and whose list is not empty. */
  predicate Continues(r: PageReply) {
    r.status == 200 && |r.items| > 0
  }

  /** The page numbers 1..n, in order. */
  function PageNumbers(n: nat): (r: seq<int>)
    ensures |r| == n && forall i :: 0 <= i < n ==> r[i] == i + 1
  {
    if n == 0 then [] else PageNumbers(n - 1) + [n]
  }

  /** The categories collected from `page` on. */
  function CollectFrom(fetch: int -> PageReply, page: nat): seq<Category>
    decreases MaxPages + 1 - page
  {
    if page > MaxPages then []
    else if Continues(fetch(page)) then fetch(page).items + CollectFrom(fetch, page + 1)
    else []
  }

  /** The number of pages requested from `page` on. */
  function RequestsFrom(fetch: int -> PageReply, page: nat): nat
    decreases MaxPages + 1 - page
  {
    if page > MaxPages then 0
    else if Continues(fetch(page)) then 1 + RequestsFrom(fetch, page + 1)
    else 1
  }

  function Ids(cs: seq<Category>): (r: seq<int>)
    ensures |r| == |cs| && forall i :: 0 <= i < |cs| ==> r[i] == cs[i].id
  {
    seq(|cs|, i requires 0 <= i < |cs| => cs[i].id)
  }

  /**
   * delete-categories: collect pages until one is empty or not 200, or
   * until page 1000, then issue one delete per collected category, in order.
   */
  method DeleteCategories(fetch: int -> PageReply) returns (requested: seq<int>, deleted: seq<int>)
    ensures requested == PageNumbers(RequestsFrom(fetch, 1))
    ensures deleted == Ids(CollectFrom(fetch, 1))
  {
    var contents;
    requested, contents := CollectPages(fetch);
    deleted := [];
    for i := 0 to |contents|
      invariant deleted == Ids(contents[..i])
    {
      IdsSnoc(contents, i);
      deleted := deleted + [contents[i].id];
    }
    assert contents[..|contents|] == contents;
  }

  /** The ids of one more category are the ids so far and its id. */
  lemma IdsSnoc(cs: seq<Category>, i: nat)
    requires i < |cs|
    ensures Ids(cs[..i + 1]) == Ids(cs[..i]) + [cs[i].id]
  {
  }

  /** The collection loop of delete-categories. */
  method CollectPages(fetch: int -> PageReply) returns (requested: seq<int>, contents: seq<Category>)
    ensures requested == PageNumbers(RequestsFrom(fetch, 1))
    ensures contents == CollectFrom(fetch, 1)
  {
    contents := [];
    requested := [];
    ghost var first: nat := 1;
    ghost var all := CollectFrom(fetch, first);
    ghost var total := RequestsFrom(fetch, first);
    ghost var ended := false;
    var page := 1;
    while page <= 1000
      invariant !ended ==> 1 <= page <= MaxPages + 1 && |requested| == page - 1
      invariant !ended ==> contents + CollectFrom(fetch, page) == all
      invariant !ended ==> |requested| + RequestsFrom(fetch, page) == total
      invariant ended ==> page == 100001 && contents == all && |requested| == total
      invariant requested == PageNumbers(|requested|)
      decreases 100002 - page
    {
      var response := fetch(page);
      requested := requested + [page];
      CollectStep(fetch, page);
      if response.status == 200 && |response.items| > 0 {
        AppendAssoc(contents, response.items, CollectFrom(fetch, page + 1));
        contents := contents + response.items;
        page := page + 1;
      } else {
        assert contents + [] == contents;
        ended := true;
        page := 100000;
        page := page + 1;
      }
    }
    if !ended {
      CollectEnd(fetch, page);
    }
  }

  lemma AppendAssoc(a: seq<Category>, b: seq<Category>, c: seq<Category>)
    ensures a + b + c == a + (b + c)
  {
  }

  /** Past page 1000 nothing is collected or requested. */
  lemma CollectEnd(fetch: int -> PageReply, page: nat)
    requires page == MaxPages + 1
    ensures CollectFrom(fetch, page) == [] && RequestsFrom(fetch, page) == 0
  {
  }

  /** One page of the collection: it either continues to the next page or ends the collection. */
  lemma CollectStep(fetch: int -> PageReply, page: nat)
    requires 1 <= page <= MaxPages
    ensures Continues(fetch(page)) ==>
      && CollectFrom(fetch, page) == fetch(page).items + CollectFrom(fetch, page + 1)
      && RequestsFrom(fetch, page) == 1 + RequestsFrom(fetch, page + 1)
    ensures !Continues(fetch(page)) ==> CollectFrom(fetch, page) == [] && RequestsFrom(fetch, page) == 1
  {
  }

  /**
   * The pages requested are 1..n with n <= 1000; every one before the last
   * answered 200 with a non-empty list, and the last one did not or was
   * page 1000.
   */
  lemma {:induction false} RequestsStopAtFirstEnd(fetch: int -> PageReply, page: nat)
    requires 1 <= page <= MaxPages + 1
    ensures var n := RequestsFrom(fetch, page);
      && page + n <= MaxPages + 1
      && (page <= MaxPages ==> n >= 1)
      && (forall p :: page <= p < page + n - 1 ==> Continues(fetch(p)))
      && (n >= 1 ==> !Continues(fetch(page + n - 1)) || page + n - 1 == MaxPages)
    decreases MaxPages + 1 - page
  {
    if page <= MaxPages && Continues(fetch(page)) {
      RequestsStopAtFirstEnd(fetch, page + 1);
    }
  }

  /** What is collected is the lists of exactly the requested pages that continued. */
  lemma {:induction false} CollectedFromRequested(fetch: int -> PageReply, page: nat, c: Category)
    requires 1 <= page <= MaxPages + 1
    ensures c in CollectFrom(fetch, page) <==>
      exists p :: page <= p < page + RequestsFrom(fetch, page) && Continues(fetch(p)) && c in fetch(p).items
    decreases MaxPages + 1 - page
  {
    var n := RequestsFrom(fetch, page);
    if page <= MaxPages && Continues(fetch(page)) {
      var rest := CollectFrom(fetch, page + 1);
      CollectedFromRequested(fetch, page + 1, c);
      assert CollectFrom(fetch, page) == fetch(page).items + rest;
      assert n == 1 + RequestsFrom(fetch, page + 1);
      if c in fetch(page).items {
        assert page <= page < page + n && Continues(fetch(page));
      }
      if c in rest {
        var p :| page + 1 <= p < page + 1 + RequestsFrom(fetch, page + 1) && Continues(fetch(p)) && c in fetch(p).items;
        assert page <= p < page + n;
      }
      if exists p :: page <= p < page + n && Continues(fetch(p)) && c in fetch(p).items {
        var p :| page <= p < page + n && Continues(fetch(p)) && c in fetch(p).items;
        if p > page {
          assert page + 1 <= p < page + 1 + RequestsFrom(fetch, page + 1);
        }
      }
    } else {
      assert CollectFrom(fetch, page) == [];
      assert n <= 1;
    }
  }
}
