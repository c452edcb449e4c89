# kolstad-sync in Dafny

kolstad-sync is a set of console jobs. They keep a WooCommerce store in step
with a Google Sheets product sheet (tab `KOLSTAD`) and with an SFTP directory
of product images. This project models the jobs' core logic and proves
properties of that model:

- **ProductRecords** (`product_to_import.dfy`): the row record
  `ProductToImport`. It covers:
  - the positional columns;
  - the category path of column E, split on `>`, trimmed, with empty
    segments dropped, and its leaf;
  - the exact `YES` gates;
  - the payload that `getWooObject` merges over an existing product.
- **CategoryListing** (`category_listing.dfy`): two page loops.
  - The one that builds the name-to-id index of the store's categories. It
    reads the `x-wp-totalpages` header and requests pages 1..T+1.
  - The one that delete-categories uses. It collects pages until one is
    empty or not 200, stops at page 1000, and issues one delete per
    collected category.
- **CategoryReconcile** (`category_reconcile.dfy`): sync-categories. For
  each path it creates the top segment and each later segment, under the
  previous one, whenever the `&amp;`-escaped name is not yet in the index.
- **CategorySync** (`category_sync.dfy`): category-sync. It drops the
  `uncategorized` reference from each product and appends the leaf
  category by id.
- **GoogleSync** (`google_sync.dfy`): google-sync. It does update-or-create
  per imported row, then writes the reply into cells C, D, W and X of the
  same sheet row.
- **FtpSync** (`ftp_sync.dfy`): ftp-sync. The SKU is the file's path up to
  its first `-`, with `_` read as `/`. The file is then handled by how many
  products match:
  - one match: upload the file, append the image, delete the file;
  - several matches: skip the file;
  - no match: move the file to `notfound/`;
  - any failure on the one-match path: move the file to `error/`.

  The SFTP directory is a `FileStore` class whose `files` map the methods
  change in place.
- **PhpStrings**, **Json** and **Wrappers**: the PHP string functions the
  jobs rely on, modelled exactly. These are `explode`, `trim`,
  `str_replace`, the `&` to `&amp;` escape, `empty`, and decimal
  formatting. `implode` is there only to state the `explode` round trip;
  no job calls it. Json and Wrappers hold the JSON values and `Option`.

Remote services are parameters of the model, never called:

- the category listing and the product fetches are functions from
  request to reply;
- the ids the store assigns to new categories are `nextId(k)`, for the
  k-th creation of a run;
- the store's replies to product calls are `replies(key)`, one per sheet
  row;
- the outcome of each upload attempt is `attempts(i)`.

Each job is a method whose result equals a recursive specification
function of its inputs. The lemmas state the properties of those
functions.

## Model

| member | source | states |
|---|---|---|
| PhpStrings.Explode | index.php:105 | explode always yields at least one piece, and no piece contains the delimiter |
| PhpStrings.ImplodeExplode | index.php:105 | joining the exploded pieces with the delimiter gives the original string back: the split loses no text |
| PhpStrings.ExplodeImplode | index.php:105 | pieces that contain no delimiter are exactly recovered by exploding their join |
| PhpStrings.ExplodeCons | index.php:105-106 | exploding `a + d + b`, where `a` has no delimiter, yields `a` as the first piece, followed by the pieces of `b` |
| PhpStrings.FirstPiece | index.php:300 | piece 0 is the text before the first delimiter, or the whole string when there is none |
| PhpStrings.TrimLeftSpec | src/ProductToImport.php:17 | ltrim removes only trimmable characters, and what it keeps is empty or starts with a non-trimmable one |
| PhpStrings.TrimRightSpec | src/ProductToImport.php:17 | rtrim removes only trimmable characters, and what it keeps is empty or ends with a non-trimmable one |
| PhpStrings.TrimSpec | src/ProductToImport.php:17 | trim keeps a contiguous middle of the string; every removed character is trimmable; the result is trimmed at both ends |
| PhpStrings.TrimmedIsFixedPoint | src/ProductToImport.php:17 | a string is unchanged by trim exactly when neither end is trimmable |
| PhpStrings.TrimIdempotent | index.php:106 | trimming twice is trimming once |
| PhpStrings.ReplaceChar | src/ProductToImport.php:17 | after str_replace by a text without the character, the character no longer occurs |
| PhpStrings.ReplaceAbsent | index.php:118 | str_replace of a character that does not occur changes nothing |
| PhpStrings.ReplaceAppend | index.php:302 | str_replace works piece by piece over a concatenation |
| PhpStrings.ReplaceOne | index.php:302 | a string with exactly one occurrence gets the replacement at that place and nowhere else |
| PhpStrings.ReplaceByOne | index.php:302 | replacing by a single character keeps the length and changes exactly the matching positions |
| PhpStrings.UnescapeEscape | index.php:108 | the `&` to `&amp;` escape used for index keys can be undone, so no name information is lost |
| PhpStrings.EscapeInjective | index.php:108 | two different category names never share an index key |
| PhpStrings.DigitChar | index.php:264 | the digit character of a number below ten denotes that number |
| PhpStrings.Decimal | index.php:264-267 | the decimal text of a row number is non-empty digits without a leading zero |
| PhpStrings.DecimalRoundTrip | index.php:264-267 | reading the decimal text back gives the number |
| PhpStrings.DecimalInjective | index.php:264-267 | different row numbers are written differently |
| CategoryPath.FilterSegments | src/ProductToImport.php:15-24 | the constructor's filter loop yields exactly the trimmed non-empty pieces, in order |
| CategoryPath.DropEmptyAppend | src/ProductToImport.php:18-22 | dropping empty strings distributes over concatenation |
| CategoryPath.NonEmptySegmentsAppend | src/ProductToImport.php:16-23 | the filter never reorders: it distributes over concatenation |
| CategoryPath.NonEmptySegmentsSnoc | index.php:117-119 | filtering one more piece appends its clean form when that form is not empty |
| CategoryPath.NonEmptySegmentsSingle | index.php:117-119 | a single piece is kept, cleaned, unless it cleans to "" |
| CategoryPath.DropEmptyMembers | src/ProductToImport.php:18-22 | a string survives the drop exactly when it is non-empty and present |
| CategoryPath.NonEmptySegmentsMembers | src/ProductToImport.php:16-23 | a segment is kept exactly when it is non-empty and some piece cleans to it (both directions) |
| CategoryPath.NonEmptySegmentsClean | src/ProductToImport.php:17-19 | every kept segment is non-empty, trimmed and free of `>` |
| CategoryPath.CleanSegmentOfClean | src/ProductToImport.php:17 | a segment that is trimmed and has no `>` is its own clean form |
| CategoryPath.CleanSegmentIsClean | src/ProductToImport.php:17 | cleaning yields a trimmed segment without `>` |
| CategoryPath.DropEmptyOfNonEmpty | src/ProductToImport.php:18-22 | a list with no empty strings is left as it is |
| CategoryPath.NonEmptySegmentsIdempotent | src/ProductToImport.php:15-24 | filtering a filtered path changes nothing |
| ProductRecords.NewProductToImport | src/ProductToImport.php:9-44 | the constructor builds the record the positional reading of the row gives |
| ProductRecords.PositionalMapping | src/ProductToImport.php:11-43 | fields 0..22, except 4, read the cell of their own column, or null when the row is shorter |
| ProductRecords.CategoriesOfRow | src/ProductToImport.php:15-24 | a name is a category exactly when some `>`-piece of column 4 trims to it and it is not empty |
| ProductRecords.CategoriesAreClean | src/ProductToImport.php:15-24 | every category is non-empty and trimmed, and filtering the list again changes nothing |
| ProductRecords.LeafCategory | src/ProductToImport.php:24-25 | the leaf is the last category, or null when there are none |
| ProductRecords.ImportGate | src/ProductToImport.php:46-49 | import() holds exactly when column 1 is the text `YES` |
| ProductRecords.UpdateGate | src/ProductToImport.php:51-54 | update() holds exactly when column 3 is the text `YES` |
| ProductRecords.GatesAreStrict | src/ProductToImport.php:46-54 | `yes`, "", `NO` and a missing cell all fail both gates |
| ProductRecords.PayloadFields | src/ProductToImport.php:71-82 | the merged object has the payload's values for the five keys; it drops the existing categories and tags; it keeps every other existing key unchanged |
| ProductRecords.CrossReferenceIgnored | src/ProductToImport.php:58-61 | the cross-reference description is built but never sent: changing it does not change the object |
| ProductRecords.BuildNameRefs | src/ProductToImport.php:63-68 | the category loop yields one `{name}` reference per category that is not PHP-empty, in order |
| ProductRecords.NameRefsOfClean | src/ProductToImport.php:63-68 | on the record's trimmed, non-empty categories, the loop gives one `{name}` reference per category other than `0`, in order; a `0` category gives none |
| ProductRecords.WithoutZeroMembers | src/ProductToImport.php:65 | a category survives the `empty` test exactly when it is not `0` |
| ProductRecords.WithoutZeroOfNoZero | src/ProductToImport.php:65 | categories with no `0` among them are all kept |
| ProductRecords.GetWooObjectAsWritten | src/ProductToImport.php:56-83 | getWooObject as the jobs run it: the existing product without categories and tags, merged with the payload, whose category list is always empty |
| ProductRecords.GetWooObject | src/ProductToImport.php:56-83 | getWooObject, with its loop over the categories, gives the intended merged object |
| ProductRecords.AsWrittenHasNoCategories | src/ProductToImport.php:64 | as written, the object always has an empty category list; this is its only difference from the intended object |
| ProductRecords.AsWrittenLosesCategories | src/ProductToImport.php:64 | for the path `Tools>Saws`, the intended categories are `[{Tools}, {Saws}]`, but the as-written object sends `[]` |
| CategoryListing.BuildIndex | index.php:83-101 | the loop requests pages 1..T+1 (page 1 alone when T < 1); the index it returns is that of those pages, ingested in order |
| CategoryListing.IngestAppend | index.php:98-100 | ingesting two lists one after the other is ingesting their concatenation |
| CategoryListing.IndexOfPagesIsIngest | index.php:84-100 | the index of pages 1..n is the ingest of everything they returned |
| CategoryListing.IngestKeys | index.php:98-100 | a name is in the index exactly when it was there before or was listed |
| CategoryListing.IngestLastWins | index.php:98-100 | a name listed more than once takes the id of its last occurrence |
| CategoryListing.IngestKeeps | index.php:98-100 | a name the list does not mention keeps its old id |
| CategoryListing.ListedIndex | index.php:83-101 | the built index holds exactly the listed names, each under the id of its last listing |
| CategoryListing.PageNumbers | index.php:33-37 | the pages requested are numbered 1..n, in request order |
| CategoryListing.CollectPages | index.php:33-48 | the loop requests pages 1..n and collects the lists of the pages that answered 200 with a non-empty list |
| CategoryListing.DeleteCategories | index.php:33-57 | the deletes are the ids of the collected categories, in collection order |
| CategoryListing.RequestsStopAtFirstEnd | index.php:33-47 | at most 1000 pages are requested; each page before the last continued; the last is the first that did not, or page 1000 |
| CategoryListing.CollectedFromRequested | index.php:38-44 | a category is collected exactly when a requested page that continued listed it |
| CategoryReconcile.ExtendsTransitive | index.php:104-137 | "only adds to the index and creations" composes |
| CategoryReconcile.LinkChain | index.php:105-136 | one path only adds to the index: no key is dropped or rebound; afterwards every segment of the path has an escaped key |
| CategoryReconcile.ReconcileRows | index.php:104-137 | the whole run only adds to the index and appends creations |
| CategoryReconcile.SyncRow | index.php:105-136 | the per-row loop issues the creations, and reaches the index, that the path's chain gives |
| CategoryReconcile.SyncCategories | index.php:104-137 | the job issues the creations, and reaches the index, that reconciling the rows in order gives |
| CategoryReconcile.ChainSnoc | index.php:117-135 | linking one more segment is ensuring it under the id of the segment before it |
| CategoryReconcile.GrowsTransitive | index.php:104-137 | growth only by fresh, created categories composes |
| CategoryReconcile.EnsureGrows | index.php:108-116 | a lookup-or-create adds at most the created name, under the id the store returned |
| CategoryReconcile.LinkChainGrows | index.php:105-136 | a path adds only the names it created, under the ids the store returned |
| CategoryReconcile.ReconcileGrows | index.php:104-137 | after the run, the old keys keep their ids, and every new key is the escaped name of a creation carrying the store's id |
| CategoryReconcile.EnsureDistinct | index.php:108-116 | a lookup-or-create never creates a name already created since the start of the run |
| CategoryReconcile.ChainDistinct | index.php:105-136 | one path creates no escaped name twice |
| CategoryReconcile.DistinctCompose | index.php:104-137 | "no name created twice" composes across rows, because each row creates only names missing from the index the earlier rows left |
| CategoryReconcile.ReconcileDistinct | index.php:104-137 | a run creates each escaped name at most once, however many rows share it: no duplicates |
| CategoryReconcile.ChainParents | index.php:111-131 | each category a row creates is one of its segments; a top segment is created without a parent; any later one under the id of the segment before it |
| CategoryReconcile.ReconcileCovers | index.php:104-137 | after the run, every segment of every row has an id in the index |
| CategoryReconcile.ChainNoop | index.php:108-125 | a path whose segments are all known creates nothing |
| CategoryReconcile.ReconcileNoop | index.php:108-125 | rows whose segments are all known create nothing and leave the index as it is |
| CategoryReconcile.ReconcileIdempotent | index.php:104-137 | a second run over the same rows, with the index the first run left, creates nothing |
| CategoryReconcile.EscapeOneAmpersand | index.php:108 | a name with one `&` is looked up with `&amp;` in its place |
| CategoryReconcile.EscapedNameMatches | index.php:108-116 | a name with `&` matches the store's `&amp;` listing and is not created again |
| CategoryReconcile.PathSegmentsShape | index.php:105-119 | the top segment is the trimmed first piece, and every later segment is non-empty, trimmed and free of `>` |
| CategoryReconcile.PathOfThree | index.php:105-119 | `a>b>c` with clean names is the path a, b, c |
| CategoryReconcile.NewBranch | index.php:104-137 | with a known and b, c new, the row `a>b>c` creates b under a's id, then c under b's new id, and indexes both |
| CategorySync.StripAndAppend | index.php:200-209 | the category list afterwards is the old references other than `uncategorized`, in order, then the leaf |
| CategorySync.CategorySyncCalls | index.php:192-214 | one put per row |
| CategorySync.SyncOne | index.php:193-211 | one row yields the put of its fetched product, with its categories stripped and the leaf appended |
| CategorySync.CategorySyncJob | index.php:192-214 | the job's puts are the rows' puts, one per row, in row order |
| CategorySync.WithoutUncategorizedMembers | index.php:200-204 | a reference survives exactly when it is not `uncategorized` |
| CategorySync.WithoutUncategorizedAppend | index.php:200-204 | the removal keeps order: it distributes over concatenation |
| CategorySync.WithoutUncategorizedOfClean | index.php:200-204 | a list without `uncategorized` is left as it is |
| CategorySync.WithoutUncategorizedIdempotent | index.php:200-204 | removing twice is removing once |
| CategorySync.RecategorizedFields | index.php:195-211 | only `categories` changes; it holds the old references other than `uncategorized`, then the leaf |
| CategorySync.LeafSurvives | index.php:209 | the appended `{id}` reference is never taken for `uncategorized` |
| CategorySync.RecategorizeTwice | index.php:200-211 | a second run appends the leaf again: nothing checks that the product already has it |
| CategorySync.CallsPerRow | index.php:195-211 | put i goes to `products/` followed by row i's column C, with row i's recategorized product |
| CategorySync.LeafInPath | index.php:105-119 | the record's leaf category is one of the segments sync-categories visits for the same cell |
| CategorySync.LeafOfHead | index.php:106 | for a piece without `>`, cleaning it is just trimming it |
| CategorySync.LeafFound | index.php:168-209 | assuming the store's listing, as category-sync re-reads it, names every key sync-categories ended with, and column E holds the paths sync-categories reconciled: the leaf is in the rebuilt index, so the appended id is never null |
| GoogleSync.SyncRow | index.php:245-267 | one row yields the store call its gates choose, with the as-written getWooObject body, and the four cell writes of the reply |
| GoogleSync.GoogleSyncJob | index.php:244-269 | the job's calls and writes are the rows' effects, in row order |
| GoogleSync.DecideFromRow | index.php:248-257 | a row is skipped unless B is `YES`; it is updated exactly when, in addition, D is `YES` and C is neither "" nor "0", and the update uses C as the id |
| GoogleSync.RunCounts | index.php:244-268 | there is one call per imported row and four writes per call |
| GoogleSync.SkippedRowIgnored | index.php:248 | a row that is not imported adds no call and no write |
| GoogleSync.CallBodies | index.php:250-257 | an update puts the merged object to the row's product, keeping the other fetched keys; a creation posts the payload alone; both send an empty category list |
| GoogleSync.IntendedDiffersInCategories | index.php:250-257 | with the corrected getWooObject the job would make the same calls to the same paths, with bodies that differ only in `categories`, which would hold the `{name}` references |
| GoogleSync.ColumnRangeParts | index.php:264-267 | the range is `KOLSTAD!`, then the column, then the digits of key + 2 |
| GoogleSync.ColumnRangeInjective | index.php:264-267 | distinct columns or rows never share a range |
| GoogleSync.WriteBackColumns | index.php:259-267 | the reply writes id to C, `NO` to D, the modified date to W (the column the record reads as slug), and the permalink to X, all in the row's own sheet row |
| GoogleSync.RerunAfterWriteBack | index.php:250-265 | once D reads `NO`, a later run creates the product again, whatever C holds |
| FtpSync.SkuOfPath | index.php:300-302 | the SKU is as long as the text before the first `-` (all of the path when there is none), and matches it position by position, with `_` read as `/` |
| FtpSync.SkuOfName | index.php:300-302 | for `prefix-rest`, where the prefix has no `-`, the SKU is the prefix with `_` replaced by `/` |
| FtpSync.SkuExampleUnderscore | index.php:300-302 | `AB_12-img.png` has SKU `AB/12` |
| FtpSync.SkuExamplePlain | index.php:300-302 | `ABC123-photo1.jpg` has SKU `ABC123` |
| FtpSync.FileStore.constructor | index.php:279-289 | the store starts with the given files |
| FtpSync.FileStore.Delete | index.php:336 | the file is gone and nothing else changes |
| FtpSync.FileStore.Move | index.php:339 | the content moves to the new path, and nothing else changes |
| FtpSync.Matches | index.php:311 | the search returns only products of the catalogue that carry the searched SKU, and no more of them than the catalogue has |
| FtpSync.SyncFiles | index.php:298-351 | the loop leaves the store's files, and the catalogue, as running the entries in order gives |
| FtpSync.MatchesMembers | index.php:311 | a product matches exactly when its SKU is the one searched |
| FtpSync.NonFileUntouched | index.php:299 | a non-file entry changes nothing |
| FtpSync.NoMatchMovesToNotFound | index.php:345-347 | with no match, the file moves to `notfound/<path>` and the products are unchanged |
| FtpSync.ManyMatchesSkipped | index.php:341-344 | with several matches, nothing changes |
| FtpSync.MatchesCount | index.php:311-341 | two matching products give at least two matches |
| FtpSync.OneMatchUploaded | index.php:313-336 | with one match and a successful upload, the matched product's images get the uploaded url appended; products with another id are unchanged; the file is deleted |
| FtpSync.OneMatchFailed | index.php:316-339 | when the one-match path fails, the file moves to `error/<path>`; unless only the delete failed, the products are unchanged |
| FtpSync.StepFrame | index.php:298-348 | an entry touches only its own path and its `error/` or `notfound/` destination |
| FtpSync.ImagesOnlyAppendedTransitive | index.php:332-334 | "images only appended" composes |
| FtpSync.StepAppendsImages | index.php:332-334 | an entry only appends images, and leaves ids and SKUs alone |
| FtpSync.RunAppendsImages | index.php:298-351 | over a run, every product keeps its id and SKU, and its images are only ever appended to |
| FtpSync.RunOnlyRelocates | index.php:298-351 | every path after a run existed before, or is a listed file moved to `error/` or `notfound/` |

## Left out

- HTTP, Google Sheets and SFTP clients, authentication, and environment settings are left out. Their answers are parameters of the model (listing pages, fetched products, store replies, new category ids, upload outcomes).
- Console output, progress bars, timestamps (`date`), and the stray `echo '1234'` are left out, as is the registration of the console commands.
- The karmak-sync job, the one command registered after ftp-sync, is not part of this model.
- The listing loop that category-sync repeats (index.php:168-187) is the same as the one at 83-101. It is modelled once, by CategoryListing.BuildIndex.
- CategoryListing.BuildIndex: the `x-wp-totalpages` header is one number for the whole run. A header that changes between pages is not modelled.
- CategoryListing.DeleteCategories: a non-200 reply is a status the page loop stops on. The HTTP client's own exception on 4xx and 5xx replies, which aborts the job, is not modelled. The delete replies are ignored, as in the code.
- JSON decoding and encoding are left out. A product is a map from key to JSON value, so its key order is not modelled. Neither is the way PHP turns a list with holes, left by `unset`, into a JSON object.
- PHP loose comparison (`==`, `!=`) is modelled as string equality. That is what it is for the strings compared here. Integer-like array keys (PHP turns `"12"` into `12`) are not modelled.
- The category-sync slug test also assumes string equality: a non-string `slug` is taken as not `uncategorized`.
- ProductRecords.NewProductToImport: a row shorter than the cells it reads does not fail. A missing cell reads as null, as PHP reads a missing index after its warning.
- CategorySync.SyncOne: a row with no store id fetches and puts `products/`. A leaf missing from the index is sent as `{id: null}`. Neither fails; that is the code's own behaviour.
- FtpSync.FileStore.Move: moving a path that does not exist is a no-op here, whereas the filesystem library throws. An exception from a move inside the error handler, which would end the job, is not modelled.
- FtpSync.SyncFiles: the listing is given as a list of entries, in the order the library returns it. The library's default non-recursive listing is not modelled. Reading the stream, detecting the mime type and the upload body are left out; only the upload's outcome is modelled.
- FtpSync.RunAppendsImages: requires the store's product ids to be unique (UniqueIds). The store guarantees this; the code does not check it.
- FtpSync.Matches: the SKU search is a store call. The model computes it as an exact-equality filter over a catalogue carried from file to file, and NoMatchMovesToNotFound, ManyMatchesSkipped and MatchesMembers rest on that. The store's own matching rules, paging of the search and changes to the store made by anything but this job are not modelled.
- Uncaught failures that end a job are not modelled: the category creates (index.php:111, 127), the product get and put calls of category-sync (195, 211) and google-sync (251-257), the category-listing GETs (85, 171), the SKU search (311), the move to `notfound/` (346), and google-sync's four sheet writes (264-267). Each is modelled as if it returned.
- GoogleSync.WriteBack: the sheet writes pass no `valueInputOption` and a one-dimensional `values` array. The model takes each write as accepted. If the Sheets API rejects such a request, google-sync ends after its first store call, leaving that row's D at `YES` and C empty; that outcome is not modelled.
- GoogleSync.WriteBackColumns: the reply's id, date and permalink are opaque JSON values. The model does not check whether they are present.
- The row number in `'KOLSTAD!C' . $key + $i` follows PHP 8 precedence, where `+` binds tighter than `.`. The range is therefore the column followed by key + 2.

## Behaviour worth knowing

These follow from the code and are proved about the model:

- google-sync writes the modified date to column W and the permalink to column X. The record reads column W as `slug` and never reads X. It reads `modifiedDate` from column V (GoogleSync.WriteBackColumns).
- After google-sync sets D to `NO`, a later run no longer takes the update path. A row still marked for import therefore creates its product again (GoogleSync.RerunAfterWriteBack).
- google-sync sends `categories: []` with every create and update, because of the defect in the Findings. An update therefore clears the product's categories (GoogleSync.CallBodies). GoogleSync.IntendedStoreCallFor is the job with the corrected getWooObject.
- category-sync has no import gate. Each run appends the leaf again, even if the product already has it (CategorySync.RecategorizeTwice).
- On the corrected getWooObject, a category named `0` is dropped, because PHP's `empty` treats `"0"` as empty (ProductRecords.BuildNameRefs, ProductRecords.NameRefsOfClean).
- In ftp-sync, `$contents` is reassigned inside the loop over `$contents`. PHP's `foreach` iterates over a copy of the array, so the loop still visits every listed entry, and the model does the same.

## Findings

| source | as written | input that shows it | evidently intended | confidence | as-written member | corrected member |
|---|---|---|---|---|---|---|
| src/ProductToImport.php:64 | the category loop iterates `$this->category`, a property that is never set, so it runs zero times and every payload sends `categories: []`, wiping the product's categories | row `["", "YES", "", "", "Tools>Saws"]` | iterate `$this->categories`, sending `[{name: Tools}, {name: Saws}]` | not executed; high | ProductRecords.AsWrittenLosesCategories | ProductRecords.GetWooObject |
