/**
 * category-sync (index.php:191-214): for every row, fetch the product by
 * its store id, drop the `uncategorized` category from it, append the
 * row's leaf category by id, and put the product back.
 *
 * The store is an oracle: `fetch(path)` is the product a GET of `path`
 * returns. The index is the one the listing loop builds.
 */
module CategorySync {
  import opened Wrappers
  import opened PhpStrings
  import opened Json
  import opened CategoryPath
  import opened CategoryListing
  import opened CategoryReconcile
  import opened ProductRecords

  /** A category reference whose `slug` is `uncategorized`. */
  predicate IsUncategorized(c: Json) {
    c.JObject? && "slug" in c.fields && c.fields["slug"] == JStr("uncategorized")
  }

  /** The references other than `uncategorized`, in their order. */
  function WithoutUncategorized(cs: seq<Json>): seq<Json> {
    if cs == [] then []
    else
      WithoutUncategorized(cs[..|cs| - 1]) +
        (if IsUncategorized(cs[|cs| - 1]) then [] else [cs[|cs| - 1]])
  }

  /** The product's category list; a missing or non-list value reads as empty. */
  function CategoriesOf(product: Product): seq<Json> {
    if "categories" in product && product["categories"].JList? then product["categories"].items else []
  }

  /** `['id' => $index[escape(lastCategory)]]`: null when the index lacks the leaf. */
  function LeafRef(index: Index, p: ProductToImport): Json {
    var key := Escape(p.lastCategory.GetOr(""));
    IdRef(if key in index then JInt(index[key]) else JNull)
  }

  /** The product with `uncategorized` removed from its categories and the leaf appended. */
  function Recategorized(product: Product, leaf: Json): Product {
    product["categories" := JList(WithoutUncategorized(CategoriesOf(product)) + [leaf])]
  }

  /** The unset loop and the append, on the category list. */
  method StripAndAppend(cats: seq<Json>, leaf: Json) returns (r: seq<Json>)
    ensures r == WithoutUncategorized(cats) + [leaf]
  {
    r := [];
    for i := 0 to |cats|
      invariant r == WithoutUncategorized(cats[..i])
    {
      assert cats[..i + 1][..i] == cats[..i];
      if !IsUncategorized(cats[i]) {
        r := r + [cats[i]];
      }
    }
    assert cats[..|cats|] == cats;
    r := r + [leaf];
  }

  /** The request path of a record's product; without an id it is the bare collection path. */
  function ProductPath(p: ProductToImport): string {
    "products/" + p.wooId.GetOr("")
  }

  datatype Put = Put(path: string, body: Product)

  /** The put one row leads to. */
  function SyncedProduct(index: Index, row: seq<string>, fetch: string -> Product): Put {
    var p := FromRow(row);
    var path := ProductPath(p);
    Put(path, Recategorized(fetch(path), LeafRef(index, p)))
  }

  /** The puts of the whole run: one per row, in order, with no gate. */
  function CategorySyncCalls(index: Index, rows: seq<seq<string>>, fetch: string -> Product): (r: seq<Put>)
    ensures |r| == |rows|
  {
    if rows == [] then []
    else CategorySyncCalls(index, rows[..|rows| - 1], fetch) + [SyncedProduct(index, rows[|rows| - 1], fetch)]
  }

  /** The body of the row loop. */
  method SyncOne(index: Index, row: seq<string>, fetch: string -> Product) returns (put: Put)
    ensures put == SyncedProduct(index, row, fetch)
  {
    var productToImport := NewProductToImport(row);
    var path := ProductPath(productToImport);
    var product := fetch(path);
    var categories := StripAndAppend(CategoriesOf(product), LeafRef(index, productToImport));
    product := product["categories" := JList(categories)];
    put := Put(path, product);
  }

  /** The category-sync row loop. */
  method CategorySyncJob(index: Index, rows: seq<seq<string>>, fetch: string -> Product) returns (puts: seq<Put>)
    ensures puts == CategorySyncCalls(index, rows, fetch)
  {
    puts := [];
    for i := 0 to |rows|
      invariant puts == CategorySyncCalls(index, rows[..i], fetch)
    {
      var put := SyncOne(index, rows[i], fetch);
      CallsSnoc(index, rows, fetch, i);
      puts := puts + [put];
    }
    assert rows[..|rows|] == rows;
  }

  /** The puts of one more row are the puts so far and that row's put. */
  lemma CallsSnoc(index: Index, rows: seq<seq<string>>, fetch: string -> Product, i: nat)
    requires i < |rows|
    ensures CategorySyncCalls(index, rows[..i + 1], fetch) ==
      CategorySyncCalls(index, rows[..i], fetch) + [SyncedProduct(index, rows[i], fetch)]
  {
    assert rows[..i + 1][..i] == rows[..i];
  }

  // -----------------------------------------------------------------------
  // Properties
  // -----------------------------------------------------------------------

  /** A reference survives exactly when it is not `uncategorized`. */
  lemma {:induction false} WithoutUncategorizedMembers(cs: seq<Json>, x: Json)
    ensures x in WithoutUncategorized(cs) <==> x in cs && !IsUncategorized(x)
  {
    if cs != [] {
      var init := cs[..|cs| - 1];
      WithoutUncategorizedMembers(init, x);
      assert cs == init + [cs[|cs| - 1]];
    }
  }

  /** The filter keeps the order: it distributes over concatenation. */
  lemma {:induction false} WithoutUncategorizedAppend(a: seq<Json>, b: seq<Json>)
    ensures WithoutUncategorized(a + b) == WithoutUncategorized(a) + WithoutUncategorized(b)
  {
    if b == [] {
      assert a + b == a;
    } else {
      var ab := a + b;
      assert ab[..|ab| - 1] == a + b[..|b| - 1];
      assert ab[|ab| - 1] == b[|b| - 1];
      WithoutUncategorizedAppend(a, b[..|b| - 1]);
    }
  }

  /** A list without `uncategorized` is left as it is. */
  lemma {:induction false} WithoutUncategorizedOfClean(cs: seq<Json>)
    requires forall i :: 0 <= i < |cs| ==> !IsUncategorized(cs[i])
    ensures WithoutUncategorized(cs) == cs
  {
    if cs != [] {
      WithoutUncategorizedOfClean(cs[..|cs| - 1]);
      assert cs == cs[..|cs| - 1] + [cs[|cs| - 1]];
    }
  }

  /** Filtering twice is filtering once. */
  lemma WithoutUncategorizedIdempotent(cs: seq<Json>)
    ensures WithoutUncategorized(WithoutUncategorized(cs)) == WithoutUncategorized(cs)
  {
    var w := WithoutUncategorized(cs);
    forall i | 0 <= i < |w|
      ensures !IsUncategorized(w[i])
    {
      WithoutUncategorizedMembers(cs, w[i]);
    }
    WithoutUncategorizedOfClean(w);
  }

  /**
   * The product put back: only `categories` changes; it holds the old
   * references other than `uncategorized`, in order, then the leaf.
   */
  lemma RecategorizedFields(product: Product, leaf: Json)
    ensures var r := Recategorized(product, leaf);
      && r.Keys == product.Keys + {"categories"}
      && (forall k :: k in product && k != "categories" ==> r[k] == product[k])
      && r["categories"].JList?
      && var items := r["categories"].items;
      && |items| >= 1 && items[|items| - 1] == leaf
      && (forall x :: x in items[..|items| - 1] <==> x in CategoriesOf(product) && !IsUncategorized(x))
  {
    var items := WithoutUncategorized(CategoriesOf(product)) + [leaf];
    assert items[..|items| - 1] == WithoutUncategorized(CategoriesOf(product));
    forall x
      ensures x in items[..|items| - 1] <==> x in CategoriesOf(product) && !IsUncategorized(x)
    {
      WithoutUncategorizedMembers(CategoriesOf(product), x);
    }
  }

  /** The appended reference is never `uncategorized`, so a later run keeps it. */
  lemma LeafSurvives(index: Index, p: ProductToImport)
    ensures !IsUncategorized(LeafRef(index, p))
  {
  }

  /**
   * Running category-sync twice on a product appends the leaf twice: the
   * job does not check whether the product already has it.
   */
  lemma RecategorizeTwice(product: Product, leaf: Json)
    requires !IsUncategorized(leaf)
    ensures CategoriesOf(Recategorized(Recategorized(product, leaf), leaf)) ==
      WithoutUncategorized(CategoriesOf(product)) + [leaf, leaf]
  {
    var w := WithoutUncategorized(CategoriesOf(product));
    var once := Recategorized(product, leaf);
    assert CategoriesOf(once) == w + [leaf];
    WithoutUncategorizedAppend(w, [leaf]);
    WithoutUncategorizedIdempotent(CategoriesOf(product));
    assert [leaf][..0] == [];
    assert WithoutUncategorized([leaf]) == [leaf];
    assert WithoutUncategorized(w + [leaf]) == w + [leaf];
    assert CategoriesOf(Recategorized(once, leaf)) == WithoutUncategorized(w + [leaf]) + [leaf];
  }

  /** Every row gives one put, to the path of its own product, in row order. */
  lemma {:induction false} CallsPerRow(index: Index, rows: seq<seq<string>>, fetch: string -> Product, i: nat)
    requires i < |rows|
    ensures var put := CategorySyncCalls(index, rows, fetch)[i];
      && put == SyncedProduct(index, rows[i], fetch)
      && put.path == "products/" + CellAt(rows[i], 2).GetOr("")
  {
    if i < |rows| - 1 {
      var init := rows[..|rows| - 1];
      CallsPerRow(index, init, fetch, i);
      assert init[i] == rows[i];
    }
  }

  // -----------------------------------------------------------------------
  // After sync-categories, every leaf has an id
  // -----------------------------------------------------------------------

  /** The record's leaf category is one of the segments sync-categories visits for the same cell. */
  lemma LeafInPath(v: string)
    requires LastOf(NonEmptySegments(Explode('>', v))).Some?
    ensures LastOf(NonEmptySegments(Explode('>', v))).value in PathSegments(v)
  {
    var parts := Explode('>', v);
    var rest := NonEmptySegments(parts[1..]);
    var segs := PathSegments(v);
    assert segs == [Trim(parts[0])] + rest;
    assert parts == [parts[0]] + parts[1..];
    NonEmptySegmentsAppend([parts[0]], parts[1..]);
    NonEmptySegmentsSingle(parts[0]);
    if rest == [] {
      LeafOfHead(parts[0]);
    } else {
      assert segs[|segs| - 1] == rest[|rest| - 1];
    }
  }

  /** For a piece without `>`, cleaning it is trimming it. */
  lemma LeafOfHead(p0: string)
    requires '>' !in p0
    ensures CleanSegment(p0) == Trim(p0)
  {
    ReplaceAbsent(p0, '>', "");
  }

  /**
   * category-sync does not see the index sync-categories built: it lists
   * the store's categories again (pages 1..T+1, `total` being the
   * `x-wp-totalpages` header it reads). When that listing names every key
   * sync-categories ended with, and column E of the product row holds the
   * path sync-categories reconciled, the leaf is found in the rebuilt
   * index: the reference category-sync appends is never null.
   */
  lemma LeafFound(st: Reconciled, eRows: seq<seq<string>>, nextId: nat -> int, j: nat, row: seq<string>,
                  listing: int -> seq<Category>, total: int)
    requires j < |eRows| && PathCell(eRows[j]) == CellAt(row, 4).GetOr("")
    requires FromRow(row).lastCategory.Some?
    requires forall k :: k in ReconcileRows(st, eRows, nextId).index ==> ListsName(listing, total, k)
    ensures var index := IndexOfPages(listing, LastRequestedPage(total));
      var key := Escape(FromRow(row).lastCategory.value);
      key in index && LeafRef(index, FromRow(row)) == IdRef(JInt(index[key]))
  {
    var v := CellAt(row, 4).GetOr("");
    LeafInPath(v);
    ReconcileCovers(st, eRows, nextId);
    var segs := PathSegments(PathCell(eRows[j]));
    var k :| 0 <= k < |segs| && segs[k] == FromRow(row).lastCategory.value;
    var key := Escape(segs[k]);
    assert key in ReconcileRows(st, eRows, nextId).index;
    var n := LastRequestedPage(total);
    IndexOfPagesIsIngest(listing, n);
    IngestKeys(map[], ListedUpTo(listing, n), key);
  }

  /** Some category on the pages the listing loop requests has the name `name`. */
  predicate ListsName(listing: int -> seq<Category>, total: int, name: string) {
    var all := ListedUpTo(listing, LastRequestedPage(total));
    exists i :: 0 <= i < |all| && all[i].name == name
  }
}
