/**
 * ftp-sync (index.php:298-351): every file of the remote directory is
 * matched to a store product by the SKU read off its name. With exactly
 * one match the file is uploaded as media, appended to the product's
 * images and deleted; any failure on that path moves it under `error/`.
 * With no match it moves under `notfound/`; with several it stays.
 *
 * The SFTP directory is a `FileStore` whose `files` map the methods change
 * in place. The store's products are a list threaded through the run, so
 * a later file for the same product sees the images already added. The
 * outcome of the upload, the product update and the delete for listing
 * entry i is the oracle `attempts(i)`.
 */
module FtpSync {
  import opened PhpStrings
  import opened Json

  type Bytes = seq<bv8>

  // -----------------------------------------------------------------------
  // SKU derivation (index.php:300-302)
  // -----------------------------------------------------------------------

  /** The text before the first `-`, with every `_` read as `/`. */
  function Sku(path: string): string {
    ReplaceChar(Explode('-', path)[0], '_', "/")
  }

  /**
   * The SKU has one character per character of the prefix before the
   * first `-` (all of the path when there is none): the same character,
   * except `_` becomes `/`.
   */
  lemma SkuOfPath(path: string)
    ensures var n := |Sku(path)|;
      && n <= |path| && '-' !in path[..n] && (n == |path| || path[n] == '-')
      && forall i :: 0 <= i < n ==> Sku(path)[i] == if path[i] == '_' then '/' else path[i]
  {
    FirstPiece('-', path);
    var p := Explode('-', path)[0];
    ReplaceByOne(p, '_', '/');
    assert forall i :: 0 <= i < |p| ==> p[i] == path[i];
  }

  /** A name `prefix-rest` whose prefix has no `-` has the prefix for SKU. */
  lemma SkuOfName(prefix: string, rest: string)
    requires '-' !in prefix
    ensures Sku(prefix + "-" + rest) == ReplaceChar(prefix, '_', "/")
  {
    assert prefix + "-" + rest == prefix + ['-'] + rest;
    ExplodeCons('-', prefix, rest);
  }

  lemma SkuExampleUnderscore()
    ensures Sku("AB_12-img.png") == "AB/12"
  {
    var prefix, rest := "AB_12", "img.png";
    assert prefix + "-" + rest == "AB_12-img.png";
    SkuOfName(prefix, rest);
    assert prefix == "AB" + ['_'] + "12";
    ReplaceOne("AB", '_', "12", "/");
    assert "AB" + "/" + "12" == "AB/12";
  }

  lemma SkuExamplePlain()
    ensures Sku("ABC123-photo1.jpg") == "ABC123"
  {
    var prefix, rest := "ABC123", "photo1.jpg";
    assert prefix + "-" + rest == "ABC123-photo1.jpg";
    SkuOfName(prefix, rest);
    ReplaceAbsent(prefix, '_', "/");
  }

  // -----------------------------------------------------------------------
  // The file store
  // -----------------------------------------------------------------------

  /** `move(from, to)` on the files; moving a path that is not there changes nothing. */
  function MoveFile(files: map<string, Bytes>, from: string, to: string): map<string, Bytes> {
    if from in files then (files - {from})[to := files[from]] else files
  }

  /** The remote directory, path to content. */
  class FileStore {
    var files: map<string, Bytes>

    constructor (initial: map<string, Bytes>)
      ensures files == initial
    {
      files := initial;
    }

    method Delete(path: string)
      modifies this
      ensures files == old(files) - {path}
    {
      files := files - {path};
    }

    method Move(from: string, to: string)
      modifies this
      ensures files == MoveFile(old(files), from, to)
    {
      if from in files {
        var content := files[from];
        files := (files - {from})[to := content];
      }
    }
  }

  // -----------------------------------------------------------------------
  // Products and routing
  // -----------------------------------------------------------------------

  datatype Entry = Entry(path: string, isFile: bool)

  datatype RemoteProduct = RemoteProduct(id: int, sku: string, images: seq<Json>)

  /** How the one-match path went: every step succeeded, or the one that threw. */
  datatype Attempt =
    | Uploaded(url: string)
    | UploadFailed
    | UpdateFailed
    | DeleteFailed(url: string)

  /** The products whose SKU is `sku`, in store order: the search by SKU. */
  function Matches(catalog: seq<RemoteProduct>, sku: string): (r: seq<RemoteProduct>)
    ensures |r| <= |catalog|
    ensures forall q :: q in r ==> q in catalog && q.sku == sku
  {
    if catalog == [] then []
    else
      var last := catalog[|catalog| - 1];
      Matches(catalog[..|catalog| - 1], sku) + (if last.sku == sku then [last] else [])
  }

  /** The image reference the product update appends: `['src' => url]`. */
  function ImageRef(url: string): Json {
    JObject(map["src" := JStr(url)])
  }

  /** `put('products/' . id, ['images' => images])`: only that product's images change. */
  function SetImages(catalog: seq<RemoteProduct>, id: int, images: seq<Json>): (r: seq<RemoteProduct>)
    ensures |r| == |catalog|
  {
    seq(|catalog|, i requires 0 <= i < |catalog| =>
      if catalog[i].id == id then catalog[i].(images := images) else catalog[i])
  }

  datatype State = State(files: map<string, Bytes>, catalog: seq<RemoteProduct>)

  /** One listing entry. */
  function Step(st: State, e: Entry, attempt: Attempt): State {
    if !e.isFile then st
    else
      var products := Matches(st.catalog, Sku(e.path));
      if |products| == 1 then
        var product := products[0];
        match attempt
        case Uploaded(url) =>
          State(st.files - {e.path}, SetImages(st.catalog, product.id, product.images + [ImageRef(url)]))
        case UploadFailed =>
          State(MoveFile(st.files, e.path, "error/" + e.path), st.catalog)
        case UpdateFailed =>
          State(MoveFile(st.files, e.path, "error/" + e.path), st.catalog)
        case DeleteFailed(url) =>
          State(MoveFile(st.files, e.path, "error/" + e.path),
            SetImages(st.catalog, product.id, product.images + [ImageRef(url)]))
      else if |products| > 1 then st
      else State(MoveFile(st.files, e.path, "notfound/" + e.path), st.catalog)
  }

  /** The whole listing, in order; entry i goes with `attempts(i)`. */
  function Run(st: State, entries: seq<Entry>, attempts: nat -> Attempt): State {
    if entries == [] then st
    else Step(Run(st, entries[..|entries| - 1], attempts), entries[|entries| - 1], attempts(|entries| - 1))
  }

  /** The ftp-sync loop over the listing, changing the store in place. */
  method SyncFiles(store: FileStore, entries: seq<Entry>, catalog0: seq<RemoteProduct>, attempts: nat -> Attempt)
    returns (catalog: seq<RemoteProduct>)
    modifies store
    ensures State(store.files, catalog) == Run(State(old(store.files), catalog0), entries, attempts)
  {
    catalog := catalog0;
    ghost var start := State(store.files, catalog0);
    for i := 0 to |entries|
      invariant State(store.files, catalog) == Run(start, entries[..i], attempts)
    {
      assert entries[..i + 1][..i] == entries[..i];
      var file := entries[i];
      if file.isFile {
        var sku := Explode('-', file.path)[0];
        sku := ReplaceChar(sku, '_', "/");
        var products := Matches(catalog, sku);
        if |products| == 1 {
          var product := products[0];
          match attempts(i)
          case Uploaded(url) =>
            var images := product.images + [ImageRef(url)];
            catalog := SetImages(catalog, product.id, images);
            store.Delete(file.path);
          case UploadFailed =>
            store.Move(file.path, "error/" + file.path);
          case UpdateFailed =>
            store.Move(file.path, "error/" + file.path);
          case DeleteFailed(url) =>
            var images := product.images + [ImageRef(url)];
            catalog := SetImages(catalog, product.id, images);
            store.Move(file.path, "error/" + file.path);
        } else if |products| > 1 {
        } else {
          store.Move(file.path, "notfound/" + file.path);
        }
      }
    }
    assert entries[..|entries|] == entries;
  }

  // -----------------------------------------------------------------------
  // Properties of one entry
  // -----------------------------------------------------------------------

  /** A product is matched exactly when its SKU is the one searched. */
  lemma {:induction false} MatchesMembers(catalog: seq<RemoteProduct>, sku: string, p: RemoteProduct)
    ensures p in Matches(catalog, sku) <==> p in catalog && p.sku == sku
  {
    if catalog != [] {
      var init := catalog[..|catalog| - 1];
      MatchesMembers(init, sku, p);
      assert catalog == init + [catalog[|catalog| - 1]];
    }
  }

  /** A directory or other non-file entry changes nothing. */
  lemma NonFileUntouched(st: State, e: Entry, attempt: Attempt)
    requires !e.isFile
    ensures Step(st, e, attempt) == st
  {
  }

  /** No match: the file moves to `notfound/<path>` and the products stay as they are. */
  lemma NoMatchMovesToNotFound(st: State, e: Entry, attempt: Attempt)
    requires e.isFile && e.path in st.files
    requires forall p :: p in st.catalog ==> p.sku != Sku(e.path)
    ensures var r := Step(st, e, attempt);
      && r.catalog == st.catalog
      && r.files == (st.files - {e.path})["notfound/" + e.path := st.files[e.path]]
  {
    var ms := Matches(st.catalog, Sku(e.path));
    if |ms| > 0 {
      MatchesMembers(st.catalog, Sku(e.path), ms[0]);
    }
  }

  /** Several matches: the entry is skipped and nothing changes. */
  lemma ManyMatchesSkipped(st: State, e: Entry, attempt: Attempt, i: nat, j: nat)
    requires e.isFile && i < j < |st.catalog|
    requires st.catalog[i].sku == Sku(e.path) && st.catalog[j].sku == Sku(e.path)
    ensures Step(st, e, attempt) == st
  {
    MatchesCount(st.catalog, Sku(e.path), i, j);
  }

  /** Two matching positions give at least two matches. */
  lemma {:induction false} MatchesCount(catalog: seq<RemoteProduct>, sku: string, i: nat, j: nat)
    requires i < j < |catalog| && catalog[i].sku == sku && catalog[j].sku == sku
    ensures |Matches(catalog, sku)| >= 2
  {
    var init := catalog[..|catalog| - 1];
    if j < |catalog| - 1 {
      assert init[i] == catalog[i] && init[j] == catalog[j];
      MatchesCount(init, sku, i, j);
    } else {
      assert init[i] == catalog[i];
      MatchesMembers(init, sku, catalog[i]);
    }
  }

  /**
   * One match and every step succeeded: the file is deleted and the
   * product's images are its old images with the new one at the end; no
   * other product changes.
   */
  lemma OneMatchUploaded(st: State, e: Entry, url: string)
    requires e.isFile && |Matches(st.catalog, Sku(e.path))| == 1
    ensures var product := Matches(st.catalog, Sku(e.path))[0];
      var r := Step(st, e, Uploaded(url));
      && r.files == st.files - {e.path}
      && |r.catalog| == |st.catalog|
      && forall i :: 0 <= i < |st.catalog| ==>
        r.catalog[i] == if st.catalog[i].id == product.id
          then st.catalog[i].(images := product.images + [ImageRef(url)])
          else st.catalog[i]
  {
  }

  /**
   * One match and a step threw: the file moves to `error/<path>`; the
   * product keeps its images unless only the delete failed.
   */
  lemma OneMatchFailed(st: State, e: Entry, attempt: Attempt)
    requires e.isFile && |Matches(st.catalog, Sku(e.path))| == 1 && !attempt.Uploaded?
    requires e.path in st.files
    ensures var r := Step(st, e, attempt);
      && r.files == (st.files - {e.path})["error/" + e.path := st.files[e.path]]
      && (attempt.DeleteFailed? || r.catalog == st.catalog)
  {
  }

  /** An entry touches only its own path and the one it is moved to. */
  lemma StepFrame(st: State, e: Entry, attempt: Attempt, q: string)
    requires q != e.path && q != "error/" + e.path && q != "notfound/" + e.path
    ensures var r := Step(st, e, attempt);
      (q in r.files <==> q in st.files) && (q in st.files ==> r.files[q] == st.files[q])
  {
  }

  // -----------------------------------------------------------------------
  // Properties of a run
  // -----------------------------------------------------------------------

  /** Products keep their id and SKU, and images are only ever appended. */
  predicate ImagesOnlyAppended(c0: seq<RemoteProduct>, c1: seq<RemoteProduct>) {
    |c0| == |c1| &&
    forall i :: 0 <= i < |c0| ==>
      && c1[i].id == c0[i].id && c1[i].sku == c0[i].sku
      && |c0[i].images| <= |c1[i].images| && c1[i].images[..|c0[i].images|] == c0[i].images
  }

  lemma ImagesOnlyAppendedTransitive(a: seq<RemoteProduct>, b: seq<RemoteProduct>, c: seq<RemoteProduct>)
    requires ImagesOnlyAppended(a, b) && ImagesOnlyAppended(b, c)
    ensures ImagesOnlyAppended(a, c)
  {
    forall i | 0 <= i < |a|
      ensures c[i].images[..|a[i].images|] == a[i].images
    {
      assert c[i].images[..|a[i].images|] == c[i].images[..|b[i].images|][..|a[i].images|];
    }
  }

  /** Store ids are unique. */
  predicate UniqueIds(catalog: seq<RemoteProduct>) {
    forall i, j :: 0 <= i < j < |catalog| ==> catalog[i].id != catalog[j].id
  }

  /** An entry appends at most one image, to the matched product only. */
  lemma StepAppendsImages(st: State, e: Entry, attempt: Attempt)
    requires UniqueIds(st.catalog)
    ensures ImagesOnlyAppended(st.catalog, Step(st, e, attempt).catalog)
    ensures UniqueIds(Step(st, e, attempt).catalog)
  {
    if e.isFile {
      var ms := Matches(st.catalog, Sku(e.path));
      if |ms| == 1 && (attempt.Uploaded? || attempt.DeleteFailed?) {
        var product := ms[0];
        MatchesMembers(st.catalog, Sku(e.path), product);
        var k :| 0 <= k < |st.catalog| && st.catalog[k] == product;
        var url := attempt.url;
        assert Step(st, e, attempt).catalog == SetImages(st.catalog, product.id, product.images + [ImageRef(url)]);
        AppendImage(st.catalog, k, ImageRef(url));
      }
    }
  }

  /** Appending one image to the product at position `k` keeps every product's identity and images. */
  lemma AppendImage(catalog: seq<RemoteProduct>, k: nat, image: Json)
    requires UniqueIds(catalog) && k < |catalog|
    ensures var r := SetImages(catalog, catalog[k].id, catalog[k].images + [image]);
      ImagesOnlyAppended(catalog, r) && UniqueIds(r)
  {
    var r := SetImages(catalog, catalog[k].id, catalog[k].images + [image]);
    forall i | 0 <= i < |catalog|
      ensures r[i] == if i == k then catalog[k].(images := catalog[k].images + [image]) else catalog[i]
    {
    }
    assert (catalog[k].images + [image])[..|catalog[k].images|] == catalog[k].images;
  }

  /** Over a whole run, products keep their identity and images are only appended. */
  lemma {:induction false} RunAppendsImages(st: State, entries: seq<Entry>, attempts: nat -> Attempt)
    requires UniqueIds(st.catalog)
    ensures ImagesOnlyAppended(st.catalog, Run(st, entries, attempts).catalog)
    ensures UniqueIds(Run(st, entries, attempts).catalog)
  {
    if entries != [] {
      var prev := Run(st, entries[..|entries| - 1], attempts);
      RunAppendsImages(st, entries[..|entries| - 1], attempts);
      StepAppendsImages(prev, entries[|entries| - 1], attempts(|entries| - 1));
      ImagesOnlyAppendedTransitive(st.catalog, prev.catalog, Run(st, entries, attempts).catalog);
    }
  }

  /** A path after the run is a path from before, or a listed file moved under `error/` or `notfound/`. */
  predicate OnlyRelocated(f0: map<string, Bytes>, f1: map<string, Bytes>, entries: seq<Entry>) {
    forall q :: q in f1 ==> (q in f0 ||
      exists i :: 0 <= i < |entries| && (q == "error/" + entries[i].path || q == "notfound/" + entries[i].path))
  }

  /** Nothing is written anywhere else: the run creates no other path. */
  lemma {:induction false} RunOnlyRelocates(st: State, entries: seq<Entry>, attempts: nat -> Attempt)
    ensures OnlyRelocated(st.files, Run(st, entries, attempts).files, entries)
  {
    if entries != [] {
      var init := entries[..|entries| - 1];
      var e := entries[|entries| - 1];
      var prev := Run(st, init, attempts);
      RunOnlyRelocates(st, init, attempts);
      var r := Run(st, entries, attempts);
      forall q | q in r.files
        ensures (q in st.files ||
          exists i :: 0 <= i < |entries| && (q == "error/" + entries[i].path || q == "notfound/" + entries[i].path))
      {
        if q != "error/" + e.path && q != "notfound/" + e.path {
          if q != e.path {
            StepFrame(prev, e, attempts(|entries| - 1), q);
          }
          assert q in prev.files;
          if q !in st.files {
            var i :| 0 <= i < |init| && (q == "error/" + init[i].path || q == "notfound/" + init[i].path);
            assert init[i] == entries[i];
          }
        }
      }
    }
  }
}
