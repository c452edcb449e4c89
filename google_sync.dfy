/**
 * google-sync (index.php:243-269): every row marked for import is either
 * updated in the store (when it has a store id and is marked for update)
 * or created, and the store's reply is written back into the row's cells
 * C, D, W and X.
 *
 * The store and the spreadsheet are oracles: `fetch(path)` is the product
 * a GET of `path` returns, `replies(key)` is the store's reply to the call
 * made for row `key` (counted from 0; the sheet row is `key + 2`).
 */
module GoogleSync {
  import opened Wrappers
  import opened PhpStrings
  import opened Json
  import opened ProductRecords

  datatype Decision = Skip | UpdateExisting(id: string) | CreateNew

  /** Import gate first, then `wooId && update()`; every other imported row is created. */
  function Decide(p: ProductToImport): Decision {
    if !p.Import() then Skip
    else if Truthy(p.wooId) && p.Update() then UpdateExisting(p.wooId.value)
    else CreateNew
  }

  datatype StoreCall =
    | PutProduct(path: string, body: Product)
    | PostProduct(path: string, body: Product)

  /** The store call a record leads to, with getWooObject as written (no categories). */
  function StoreCallFor(p: ProductToImport, fetch: string -> Product): Option<StoreCall> {
    match Decide(p)
    case Skip => None
    case UpdateExisting(id) =>
      var path := "products/" + id;
      Some(PutProduct(path, WooObjectAsWritten(p, fetch(path))))
    case CreateNew => Some(PostProduct("products", WooObjectAsWritten(p, map[])))
  }

  /** The store call the job would make with the corrected getWooObject. */
  function IntendedStoreCallFor(p: ProductToImport, fetch: string -> Product): Option<StoreCall> {
    match Decide(p)
    case Skip => None
    case UpdateExisting(id) =>
      var path := "products/" + id;
      Some(PutProduct(path, WooObject(p, fetch(path))))
    case CreateNew => Some(PostProduct("products", WooObject(p, map[])))
  }

  /** What the write-back reads from the store's reply. */
  datatype Reply = Reply(id: Json, dateModified: Json, permalink: Json)

  datatype CellWrite = CellWrite(range: string, value: Json)

  /** `'KOLSTAD!' . column . $key + 2`: the addition happens first. */
  function ColumnRange(column: char, key: nat): string {
    "KOLSTAD!" + [column] + Decimal(key + 2)
  }

  /** The four cell updates after a call: store id, `NO`, modified date, permalink. */
  function WriteBack(key: nat, reply: Reply): seq<CellWrite> {
    [ CellWrite(ColumnRange('C', key), reply.id),
      CellWrite(ColumnRange('D', key), JStr("NO")),
      CellWrite(ColumnRange('W', key), reply.dateModified),
      CellWrite(ColumnRange('X', key), reply.permalink) ]
  }

  datatype Effects = Effects(calls: seq<StoreCall>, writes: seq<CellWrite>)

  /** The calls and writes of row `key`. */
  function RowEffects(key: nat, row: seq<string>, fetch: string -> Product, replies: nat -> Reply): Effects {
    match StoreCallFor(FromRow(row), fetch)
    case None => Effects([], [])
    case Some(c) => Effects([c], WriteBack(key, replies(key)))
  }

  /** The calls and writes of the whole run, row by row. */
  function Run(rows: seq<seq<string>>, fetch: string -> Product, replies: nat -> Reply): Effects {
    if rows == [] then Effects([], [])
    else
      var prev := Run(rows[..|rows| - 1], fetch, replies);
      var e := RowEffects(|rows| - 1, rows[|rows| - 1], fetch, replies);
      Effects(prev.calls + e.calls, prev.writes + e.writes)
  }

  /** The body of the row loop. */
  method SyncRow(key: nat, row: seq<string>, fetch: string -> Product, replies: nat -> Reply) returns (e: Effects)
    ensures e == RowEffects(key, row, fetch, replies)
  {
    var productToImport := NewProductToImport(row);
    if productToImport.Import() {
      var call;
      if Truthy(productToImport.wooId) && productToImport.Update() {
        var path := "products/" + productToImport.wooId.value;
        var product := fetch(path);
        var body := GetWooObjectAsWritten(productToImport, product);
        call := PutProduct(path, body);
      } else {
        var body := GetWooObjectAsWritten(productToImport, map[]);
        call := PostProduct("products", body);
      }
      var response := replies(key);
      e := Effects([call], WriteBack(key, response));
    } else {
      e := Effects([], []);
    }
  }

  /** The google-sync row loop. */
  method GoogleSyncJob(rows: seq<seq<string>>, fetch: string -> Product, replies: nat -> Reply)
    returns (calls: seq<StoreCall>, writes: seq<CellWrite>)
    ensures Effects(calls, writes) == Run(rows, fetch, replies)
  {
    calls, writes := [], [];
    for key := 0 to |rows|
      invariant Effects(calls, writes) == Run(rows[..key], fetch, replies)
    {
      assert rows[..key + 1][..key] == rows[..key];
      var e := SyncRow(key, rows[key], fetch, replies);
      calls := calls + e.calls;
      writes := writes + e.writes;
    }
    assert rows[..|rows|] == rows;
  }

  // -----------------------------------------------------------------------
  // Properties
  // -----------------------------------------------------------------------

  /**
   * The decision read off the row: skipped unless B is `YES`; updated
   * exactly when B and D are `YES` and C is neither empty nor "0".
   */
  lemma DecideFromRow(row: seq<string>)
    ensures Decide(FromRow(row)) == Skip <==> !(|row| > 1 && row[1] == "YES")
    ensures Decide(FromRow(row)).UpdateExisting? <==>
      |row| > 3 && row[1] == "YES" && row[3] == "YES" && row[2] != "" && row[2] != "0"
    ensures Decide(FromRow(row)).UpdateExisting? ==> Decide(FromRow(row)).id == row[2]
  {
    ImportGate(row);
    UpdateGate(row);
  }

  /** The rows that pass the import gate. */
  function ImportedCount(rows: seq<seq<string>>): nat {
    if rows == [] then 0
    else ImportedCount(rows[..|rows| - 1]) + (if FromRow(rows[|rows| - 1]).Import() then 1 else 0)
  }

  /** One call per imported row and none for the others; four cell writes per call. */
  lemma {:induction false} RunCounts(rows: seq<seq<string>>, fetch: string -> Product, replies: nat -> Reply)
    ensures |Run(rows, fetch, replies).calls| == ImportedCount(rows)
    ensures |Run(rows, fetch, replies).writes| == 4 * |Run(rows, fetch, replies).calls|
  {
    if rows != [] {
      RunCounts(rows[..|rows| - 1], fetch, replies);
    }
  }

  /** A row that is not imported adds no call and no write. */
  lemma SkippedRowIgnored(rows: seq<seq<string>>, row: seq<string>, fetch: string -> Product, replies: nat -> Reply)
    requires !FromRow(row).Import()
    ensures Run(rows + [row], fetch, replies) == Run(rows, fetch, replies)
  {
    var all := rows + [row];
    assert all[..|all| - 1] == rows;
  }

  /**
   * An update is a put to the record's product, of its merged object: the
   * fetched keys other than `categories` and `tags` are kept unless the
   * payload sets them. A creation posts the payload alone. Either way the
   * body's `categories` is the empty list, so an update clears the
   * product's categories.
   */
  lemma CallBodies(p: ProductToImport, fetch: string -> Product)
    ensures Decide(p).UpdateExisting? ==>
      var path := "products/" + p.wooId.value;
      var extra := fetch(path).Keys - {"categories", "tags"} - PayloadKeys;
      && StoreCallFor(p, fetch) == Some(PutProduct(path, WooObjectAsWritten(p, fetch(path))))
      && WooObjectAsWritten(p, fetch(path))["categories"] == JList([])
      && forall k :: k in extra ==> WooObjectAsWritten(p, fetch(path))[k] == fetch(path)[k]
    ensures Decide(p) == CreateNew ==>
      && StoreCallFor(p, fetch) == Some(PostProduct("products", WooObjectAsWritten(p, map[])))
      && WooObjectAsWritten(p, map[]).Keys == PayloadKeys
      && WooObjectAsWritten(p, map[])["categories"] == JList([])
  {
    if Decide(p).UpdateExisting? {
      PayloadFields(p, fetch("products/" + p.wooId.value), []);
    }
    PayloadFields(p, map[], []);
  }

  /**
   * The job as written and the job with the corrected getWooObject make the
   * same calls to the same paths; their bodies differ only in `categories`,
   * which is empty as written and the `{name}` references when corrected.
   */
  lemma IntendedDiffersInCategories(p: ProductToImport, fetch: string -> Product)
    ensures StoreCallFor(p, fetch).Some? <==> IntendedStoreCallFor(p, fetch).Some?
    ensures StoreCallFor(p, fetch).Some? ==>
      var c := StoreCallFor(p, fetch).value;
      var d := IntendedStoreCallFor(p, fetch).value;
      && c.PutProduct? == d.PutProduct? && c.path == d.path
      && c.body == d.body["categories" := JList([])]
      && d.body["categories"] == JList(NameRefs(p.categories))
  {
    match Decide(p)
    case Skip =>
    case UpdateExisting(id) =>
      var e := fetch("products/" + id);
      AsWrittenHasNoCategories(p, e);
      PayloadFields(p, e, NameRefs(p.categories));
    case CreateNew =>
      AsWrittenHasNoCategories(p, map[]);
      PayloadFields(p, map[], NameRefs(p.categories));
  }

  /** The range names the column and the sheet row `key + 2`. */
  lemma ColumnRangeParts(column: char, key: nat)
    ensures var r := ColumnRange(column, key);
      && |r| >= 10 && r[..8] == "KOLSTAD!" && r[8] == column
      && (forall i :: 9 <= i < |r| ==> IsDigit(r[i]))
      && DecimalValue(r[9..]) == key + 2
  {
    var r := ColumnRange(column, key);
    assert r[9..] == Decimal(key + 2);
    DecimalRoundTrip(key + 2);
  }

  /** Distinct columns or rows never share a range. */
  lemma ColumnRangeInjective(c1: char, k1: nat, c2: char, k2: nat)
    requires ColumnRange(c1, k1) == ColumnRange(c2, k2)
    ensures c1 == c2 && k1 == k2
  {
    ColumnRangeParts(c1, k1);
    ColumnRangeParts(c2, k2);
  }

  /**
   * Where the write-back lands relative to the columns the record reads:
   * the store id goes to C (column 2, `wooId`) and `NO` to D (column 3,
   * `shouldUpdate`); the modified date goes to W (column 22), which the
   * record reads as `slug` (it reads `modifiedDate` from column 21, see
   * ProductRecords.PositionalMapping), and the permalink to X (column 23),
   * which the record does not read. All four are in the row the call was
   * made for.
   */
  lemma WriteBackColumns(key: nat, reply: Reply)
    ensures var w := WriteBack(key, reply);
      && |w| == 4
      && Targets(w[0].range, 2, key) && w[0].value == reply.id
      && Targets(w[1].range, 3, key) && w[1].value == JStr("NO")
      && Targets(w[2].range, 22, key) && w[2].value == reply.dateModified
      && Targets(w[3].range, 23, key) && w[3].value == reply.permalink
  {
    RangeTargets('C', key);
    RangeTargets('D', key);
    RangeTargets('W', key);
    RangeTargets('X', key);
  }

  /** The range names column `column` (A is 0) of sheet row `key + 2`. */
  predicate Targets(range: string, column: int, key: nat) {
    && |range| >= 10 && range[..8] == "KOLSTAD!" && range[8] as int - 'A' as int == column
    && (forall i :: 9 <= i < |range| ==> IsDigit(range[i]))
    && DecimalValue(range[9..]) == key + 2
  }

  lemma RangeTargets(column: char, key: nat)
    ensures Targets(ColumnRange(column, key), column as int - 'A' as int, key)
  {
    ColumnRangeParts(column, key);
  }

  /**
   * After the write-back sets D to `NO`, the row no longer takes the update
   * path: a later run creates its product again however C reads.
   */
  lemma RerunAfterWriteBack(row: seq<string>)
    requires |row| > 3 && row[1] == "YES"
    ensures Decide(FromRow(row[3 := "NO"])) == CreateNew
  {
    DecideFromRow(row[3 := "NO"]);
  }
}
