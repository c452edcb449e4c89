/**
 * One spreadsheet row as the synchronisation jobs read it
 * (src/ProductToImport.php): a positional mapping of the row's cells, the
 * category path split into clean segments, the two `YES` gates, and the
 * create/update payload merged into an existing product.
 */
module ProductRecords {
  import opened Wrappers
  import opened PhpStrings
  import opened Json
  import opened CategoryPath

  /** A cell of the row: its text, or null when the row is shorter (no length check is made). */
  type Cell = Option<string>

  function CellAt(row: seq<string>, i: nat): Cell {
    if i < |row| then Some(row[i]) else None
  }

  datatype ProductToImport = ProductToImport(
    avgCost: Cell,
    importToWoo: Cell,
    wooId: Cell,
    shouldUpdate: Cell,
    categories: seq<string>,
    lastCategory: Option<string>,
    name: Cell,
    longDescription: Cell,
    crossReference: Cell,
    sku: Cell,
    price1: Cell,
    price2: Cell,
    price3: Cell,
    price7: Cell,
    quantityAvailable: Cell,
    replacementCost: Cell,
    length: Cell,
    width: Cell,
    height: Cell,
    tags: Cell,
    supplier: Cell,
    unitOfMeasure: Cell,
    modifiedDate: Cell,
    slug: Cell)
  {
    /** `import()`: the import flag is exactly `YES`. */
    predicate Import() {
      importToWoo == Some("YES")
    }

    /** `update()`: the update flag is exactly `YES`. */
    predicate Update() {
      shouldUpdate == Some("YES")
    }
  }

  /** The pieces of the category cell; a missing cell explodes like "". */
  function CategoryParts(row: seq<string>): seq<string> {
    Explode('>', CellAt(row, 4).GetOr(""))
  }

  /** The last element of a list, or null for an empty one (`array_pop`). */
  function LastOf(s: seq<string>): Option<string> {
    if s == [] then None else Some(s[|s| - 1])
  }

  /** The record the constructor builds from a row. */
  function FromRow(row: seq<string>): ProductToImport {
    var categories := NonEmptySegments(CategoryParts(row));
    ProductToImport(
      CellAt(row, 0), CellAt(row, 1), CellAt(row, 2), CellAt(row, 3),
      categories, LastOf(categories),
      CellAt(row, 5), CellAt(row, 6), CellAt(row, 7), CellAt(row, 8),
      CellAt(row, 9), CellAt(row, 10), CellAt(row, 11), CellAt(row, 12),
      CellAt(row, 13), CellAt(row, 14), CellAt(row, 15), CellAt(row, 16),
      CellAt(row, 17), CellAt(row, 18), CellAt(row, 19), CellAt(row, 20),
      CellAt(row, 21), CellAt(row, 22))
  }

  /** The constructor: positional fields, then the category filter loop and the leaf. */
  method NewProductToImport(row: seq<string>) returns (p: ProductToImport)
    ensures p == FromRow(row)
  {
    var categories := FilterSegments(CategoryParts(row));
    var lastCategory := if categories == [] then None else Some(categories[|categories| - 1]);
    p := ProductToImport(
      CellAt(row, 0), CellAt(row, 1), CellAt(row, 2), CellAt(row, 3),
      categories, lastCategory,
      CellAt(row, 5), CellAt(row, 6), CellAt(row, 7), CellAt(row, 8),
      CellAt(row, 9), CellAt(row, 10), CellAt(row, 11), CellAt(row, 12),
      CellAt(row, 13), CellAt(row, 14), CellAt(row, 15), CellAt(row, 16),
      CellAt(row, 17), CellAt(row, 18), CellAt(row, 19), CellAt(row, 20),
      CellAt(row, 21), CellAt(row, 22));
  }

  /**
   * The attributes other than the category path, by the column they come
   * from, in the order the spreadsheet lays them out.
   */
  function Attribute(p: ProductToImport, column: nat): Cell
    requires column < 23 && column != 4
  {
    match column
    case 0 => p.avgCost
    case 1 => p.importToWoo
    case 2 => p.wooId
    case 3 => p.shouldUpdate
    case 5 => p.name
    case 6 => p.longDescription
    case 7 => p.crossReference
    case 8 => p.sku
    case 9 => p.price1
    case 10 => p.price2
    case 11 => p.price3
    case 12 => p.price7
    case 13 => p.quantityAvailable
    case 14 => p.replacementCost
    case 15 => p.length
    case 16 => p.width
    case 17 => p.height
    case 18 => p.tags
    case 19 => p.supplier
    case 20 => p.unitOfMeasure
    case 21 => p.modifiedDate
    case 22 => p.slug
  }

  /**
   * Column i of the row becomes attribute i; a row too short for a column
   * leaves that attribute null instead of being rejected.
   */
  lemma PositionalMapping(row: seq<string>, column: nat)
    requires column < 23 && column != 4
    ensures Attribute(FromRow(row), column) == if column < |row| then Some(row[column]) else None
  {
  }

  /** The categories are the trimmed non-empty segments of column 4 split on `>`, in order. */
  lemma CategoriesOfRow(row: seq<string>, x: string)
    ensures x in FromRow(row).categories <==>
      x != "" && exists i :: 0 <= i < |CategoryParts(row)| && Trim(CategoryParts(row)[i]) == x
  {
    var parts := CategoryParts(row);
    NonEmptySegmentsMembers(parts, x);
    forall i | 0 <= i < |parts|
      ensures CleanSegment(parts[i]) == Trim(parts[i])
    {
      ReplaceAbsent(parts[i], '>', "");
    }
  }

  /** Every category is non-empty and trimmed: filtering the list again changes nothing. */
  lemma CategoriesAreClean(row: seq<string>)
    ensures forall x :: x in FromRow(row).categories ==> x != "" && IsTrimmed(x)
    ensures NonEmptySegments(FromRow(row).categories) == FromRow(row).categories
  {
    forall x | x in FromRow(row).categories
      ensures x != "" && IsTrimmed(x)
    {
      NonEmptySegmentsClean(CategoryParts(row), x);
    }
    NonEmptySegmentsIdempotent(CategoryParts(row));
  }

  /**
   * The leaf is the last category, null exactly when there is none, and it
   * stays in the list (the pop acts on a copy).
   */
  lemma LeafCategory(row: seq<string>)
    ensures var p := FromRow(row);
      (p.lastCategory.None? <==> p.categories == []) &&
      (p.lastCategory.Some? ==> p.lastCategory.value == p.categories[|p.categories| - 1]) &&
      (p.lastCategory.Some? ==> p.lastCategory.value in p.categories)
  {
  }

  /** The import gate reads column 1 and accepts only the exact text `YES`. */
  lemma ImportGate(row: seq<string>)
    ensures FromRow(row).Import() <==> |row| > 1 && row[1] == "YES"
  {
  }

  /** The update gate reads column 3 and accepts only the exact text `YES`. */
  lemma UpdateGate(row: seq<string>)
    ensures FromRow(row).Update() <==> |row| > 3 && row[3] == "YES"
  {
  }

  /** The comparison is strict and case-sensitive: `yes`, "" and `NO` are all refused. */
  lemma GatesAreStrict(p: ProductToImport)
    requires p.importToWoo in {Some("yes"), Some(""), Some("NO"), None}
    requires p.shouldUpdate in {Some("yes"), Some(""), Some("NO"), None}
    ensures !p.Import() && !p.Update()
  {
  }

  // -----------------------------------------------------------------------
  // getWooObject
  // -----------------------------------------------------------------------

  /** The five keys every payload sets. */
  const PayloadKeys: set<string> := {"name", "type", "regular_price", "description", "categories"}

  /** The payload proper, with the given category references. */
  function Payload(p: ProductToImport, categories: seq<Json>): (r: Product)
    ensures r.Keys == PayloadKeys
  {
    map[
      "name" := CellJson(p.name),
      "type" := JStr("simple"),
      "regular_price" := CellJson(p.price7),
      "description" := CellJson(p.longDescription),
      "categories" := JList(categories)]
  }

  /**
   * `array_merge` of the existing product (without its `categories` and
   * `tags` when it is not empty) and the payload: payload keys win.
   */
  function Merge(existing: Product, payload: Product): Product {
    var base := if existing != map[] then existing - {"categories", "tags"} else existing;
    base + payload
  }

  /**
   * The intended category rule: a `{name}` reference for each category whose
   * trimmed form is not `empty` (so neither "" nor "0"), in order.
   */
  function NameRefs(categories: seq<string>): seq<Json> {
    if categories == [] then []
    else
      var t := Trim(categories[|categories| - 1]);
      NameRefs(categories[..|categories| - 1]) + (if PhpEmpty(t) then [] else [NameRef(t)])
  }

  /** The category loop of getWooObject, over the record's categories. */
  method BuildNameRefs(categories: seq<string>) returns (refs: seq<Json>)
    ensures refs == NameRefs(categories)
  {
    refs := [];
    for i := 0 to |categories|
      invariant refs == NameRefs(categories[..i])
    {
      var t := Trim(categories[i]);
      assert categories[..i + 1][..i] == categories[..i];
      if !PhpEmpty(t) {
        refs := refs + [NameRef(t)];
      }
    }
    assert categories[..|categories|] == categories;
  }

  /**
   * getWooObject as written: the loop reads `$this->category`, a property
   * the constructor never sets, so it runs zero times.
   */
  function WooObjectAsWritten(p: ProductToImport, existing: Product): Product {
    Merge(existing, Payload(p, []))
  }

  /**
   * getWooObject as the jobs run it: the category list starts empty and the
   * loop over the unset property adds nothing; a non-empty existing product
   * loses its `categories` and `tags` before the merge.
   */
  method GetWooObjectAsWritten(p: ProductToImport, existing: Product) returns (r: Product)
    ensures r == WooObjectAsWritten(p, existing)
    ensures r["categories"] == JList([])
  {
    var categories: seq<Json> := [];
    var product := existing;
    if product != map[] {
      product := product - {"categories"};
      product := product - {"tags"};
    }
    assert product == (if existing != map[] then existing - {"categories", "tags"} else existing);
    r := product + Payload(p, categories);
  }

  /** getWooObject as intended: the loop runs over the record's categories. */
  function WooObject(p: ProductToImport, existing: Product): Product {
    Merge(existing, Payload(p, NameRefs(p.categories)))
  }

  /** getWooObject as intended, with its loop and the key removal. */
  method GetWooObject(p: ProductToImport, existing: Product) returns (r: Product)
    ensures r == WooObject(p, existing)
  {
    var categories := BuildNameRefs(p.categories);
    var product := existing;
    if product != map[] {
      product := product - {"categories"};
      product := product - {"tags"};
    }
    assert product == (if existing != map[] then existing - {"categories", "tags"} else existing);
    r := product + Payload(p, categories);
  }

  /** The categories other than `"0"`, in order. */
  function WithoutZero(categories: seq<string>): seq<string> {
    if categories == [] then []
    else
      var last := categories[|categories| - 1];
      WithoutZero(categories[..|categories| - 1]) + (if last == "0" then [] else [last])
  }

  /** One `{name}` reference per name, in order. */
  function RefsTo(names: seq<string>): seq<Json> {
    seq(|names|, i requires 0 <= i < |names| => NameRef(names[i]))
  }

  lemma RefsToSnoc(names: seq<string>, name: string)
    ensures RefsTo(names + [name]) == RefsTo(names) + [NameRef(name)]
  {
    var all := names + [name];
    assert forall i :: 0 <= i < |names| ==> all[i] == names[i];
  }

  /**
   * On the record's categories, which are trimmed and non-empty, the loop
   * gives one `{name}` reference per category, in order, except that a
   * category `0` gives none, since PHP's `empty("0")` holds.
   */
  lemma {:induction false} NameRefsOfClean(categories: seq<string>)
    requires forall i :: 0 <= i < |categories| ==> IsTrimmed(categories[i])
    ensures |NameRefs(categories)| <= |categories|
    ensures (forall i :: 0 <= i < |categories| ==> categories[i] != "") ==>
      NameRefs(categories) == RefsTo(WithoutZero(categories))
  {
    if categories != [] {
      var init := categories[..|categories| - 1];
      var last := categories[|categories| - 1];
      NameRefsOfClean(init);
      TrimmedIsFixedPoint(last);
      if forall i :: 0 <= i < |categories| ==> categories[i] != "" {
        assert forall i :: 0 <= i < |init| ==> init[i] != "" by {
          forall i | 0 <= i < |init| ensures init[i] != "" {
            assert init[i] == categories[i];
          }
        }
        if last != "0" {
          RefsToSnoc(WithoutZero(init), last);
        }
      }
    }
  }

  /** A name survives the `"0"` drop exactly when it is a category other than `"0"`. */
  lemma {:induction false} WithoutZeroMembers(categories: seq<string>, name: string)
    ensures name in WithoutZero(categories) <==> name in categories && name != "0"
  {
    if categories != [] {
      var init := categories[..|categories| - 1];
      WithoutZeroMembers(init, name);
      assert categories == init + [categories[|categories| - 1]];
    }
  }

  /** Without a `"0"` category nothing is dropped. */
  lemma {:induction false} WithoutZeroOfNoZero(categories: seq<string>)
    requires forall i :: 0 <= i < |categories| ==> categories[i] != "0"
    ensures WithoutZero(categories) == categories
  {
    if categories != [] {
      var init := categories[..|categories| - 1];
      assert forall i :: 0 <= i < |init| ==> init[i] == categories[i];
      WithoutZeroOfNoZero(init);
      assert categories == init + [categories[|categories| - 1]];
    }
  }

  /**
   * The payload always says type `simple`, takes name, price 7 and the long
   * description from the record, and drops the existing `tags`; any other
   * key of a non-empty existing product is kept as it was.
   */
  lemma PayloadFields(p: ProductToImport, existing: Product, categories: seq<Json>)
    ensures var r := Merge(existing, Payload(p, categories));
      && r.Keys == (existing.Keys - {"categories", "tags"}) + PayloadKeys
      && r["type"] == JStr("simple")
      && r["name"] == CellJson(p.name)
      && r["regular_price"] == CellJson(p.price7)
      && r["description"] == CellJson(p.longDescription)
      && r["categories"] == JList(categories)
      && "tags" !in r
      && forall k :: k in existing && k !in PayloadKeys && k != "tags" ==> k in r && r[k] == existing[k]
  {
  }

  /** The cross-reference text built in getWooObject never reaches the payload. */
  lemma CrossReferenceIgnored(p: ProductToImport, existing: Product, crossReference: Cell)
    ensures WooObject(p.(crossReference := crossReference), existing) == WooObject(p, existing)
    ensures WooObjectAsWritten(p.(crossReference := crossReference), existing) == WooObjectAsWritten(p, existing)
  {
  }

  /** The as-written object always carries an empty category list. */
  lemma AsWrittenHasNoCategories(p: ProductToImport, existing: Product)
    ensures WooObjectAsWritten(p, existing)["categories"] == JList([])
    ensures WooObjectAsWritten(p, existing) == WooObject(p, existing)["categories" := JList([])]
  {
    assert Payload(p, []) == Payload(p, NameRefs(p.categories))["categories" := JList([])];
  }

  /** A row whose path is `Tools>Saws` loses both categories as written. */
  lemma AsWrittenLosesCategories()
    ensures var p := FromRow(["", "YES", "", "", "Tools>Saws"]);
      WooObjectAsWritten(p, map[])["categories"] == JList([]) &&
      WooObject(p, map[])["categories"] == JList([NameRef("Tools"), NameRef("Saws")])
  {
    var row := ["", "YES", "", "", "Tools>Saws"];
    assert CategoryParts(row) == Explode('>', "Tools>Saws");
    ToolsSawsSegments();
    ToolsSawsRefs();
    var p := FromRow(row);
    assert p.categories == ["Tools", "Saws"];
    PayloadFields(p, map[], NameRefs(p.categories));
  }

  lemma ToolsSawsSegments()
    ensures NonEmptySegments(Explode('>', "Tools>Saws")) == ["Tools", "Saws"]
  {
    var parts := ["Tools", "Saws"];
    ToolsSawsParts();
    ToolsSawsClean();
    DropEmptyOfNonEmpty(parts);
  }

  lemma ToolsSawsParts()
    ensures Explode('>', "Tools>Saws") == ["Tools", "Saws"]
  {
    var parts := ["Tools", "Saws"];
    ExplodeImplode('>', parts);
    assert Implode('>', parts) == "Tools>Saws";
  }

  lemma ToolsSawsClean()
    ensures Cleaned(["Tools", "Saws"]) == ["Tools", "Saws"]
  {
    var parts := ["Tools", "Saws"];
    assert IsTrimmed(parts[0]) && '>' !in parts[0];
    assert IsTrimmed(parts[1]) && '>' !in parts[1];
    CleanedOfClean(parts);
  }

  lemma ToolsSawsRefs()
    ensures NameRefs(["Tools", "Saws"]) == [NameRef("Tools"), NameRef("Saws")]
  {
    assert IsTrimmed("Tools") && IsTrimmed("Saws");
    NameRefsOfTwo("Tools", "Saws");
  }

  lemma NameRefsOfTwo(a: string, b: string)
    requires IsTrimmed(a) && IsTrimmed(b) && !PhpEmpty(a) && !PhpEmpty(b)
    ensures NameRefs([a, b]) == [NameRef(a), NameRef(b)]
  {
    var parts := [a, b];
    NameRefsOfClean(parts);
    WithoutZeroOfNoZero(parts);
  }
}
