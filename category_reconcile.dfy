/**
 * sync-categories (index.php:104-137): every row's cell (sheet column E) is a category
 * path; each segment missing from the name-to-id index is created in the
 * store, with the previous segment of the path as its parent, and the
 * index is extended with the new id. Names are looked up with `&`
 * escaped as `&amp;`, the form in which the store lists them.
 *
 * The store's replies are an oracle: `nextId(k)` is the id the store
 * assigns to the k-th category created during the run.
 */
module CategoryReconcile {
  import opened Wrappers
  import opened PhpStrings
  import opened CategoryPath
  import opened CategoryListing

  /** One category creation request: its name, the parent id sent with it (none for a top segment), and the id returned. */
  datatype Creation = Creation(name: string, parent: Option<int>, id: int)

  /** The index as it stands and the creations issued so far. */
  datatype Reconciled = Reconciled(index: Index, created: seq<Creation>)

  /** `r` only adds to `st`: no key is dropped or rebound, and creations are appended. */
  predicate Extends(st: Reconciled, r: Reconciled) {
    && (forall k :: k in st.index ==> k in r.index && r.index[k] == st.index[k])
    && |st.created| <= |r.created|
    && r.created[..|st.created|] == st.created
  }

  lemma ExtendsTransitive(a: Reconciled, b: Reconciled, c: Reconciled)
    requires Extends(a, b) && Extends(b, c)
    ensures Extends(a, c)
  {
    assert c.created[..|a.created|] == c.created[..|b.created|][..|a.created|];
  }

  /** Look `name` up (escaped) and create it when it is missing. */
  function EnsureCategory(st: Reconciled, name: string, parent: Option<int>, nextId: nat -> int): Reconciled {
    var key := Escape(name);
    if key in st.index then st
    else
      var id := nextId(|st.created|);
      Reconciled(st.index[key := id], st.created + [Creation(name, parent, id)])
  }

  /**
   * The segments of a path as the loop visits them: the first piece
   * trimmed, kept even when it trims to nothing, then the cleaned pieces
   * that are not empty.
   */
  function PathSegments(value: string): (segs: seq<string>)
    ensures |segs| >= 1
  {
    var parts := Explode('>', value);
    [Trim(parts[0])] + NonEmptySegments(parts[1..])
  }

  /** The id the state gives the (escaped) name, when it has one. */
  function IdOf(st: Reconciled, name: string): Option<int> {
    if Escape(name) in st.index then Some(st.index[Escape(name)]) else None
  }

  /**
   * One row: the first segment is created without a parent, and each
   * later one with the id of the segment before it.
   */
  function LinkChain(st: Reconciled, segs: seq<string>, nextId: nat -> int): (r: Reconciled)
    requires |segs| >= 1
    ensures Extends(st, r)
    ensures forall k :: 0 <= k < |segs| ==> Escape(segs[k]) in r.index
    decreases |segs|
  {
    if |segs| == 1 then
      EnsureCategory(st, segs[0], None, nextId)
    else
      var init := segs[..|segs| - 1];
      var prev := LinkChain(st, init, nextId);
      assert Escape(init[|init| - 1]) in prev.index;
      var r := EnsureCategory(prev, segs[|segs| - 1], Some(prev.index[Escape(segs[|segs| - 2])]), nextId);
      ExtendsTransitive(st, prev, r);
      assert forall k :: 0 <= k < |segs| - 1 ==> segs[k] == init[k];
      r
  }

  /** The first cell of a row, read from sheet column E; a row without cells reads as the empty string. */
  function PathCell(row: seq<string>): string {
    if |row| > 0 then row[0] else ""
  }

  /** All rows, in order. */
  function ReconcileRows(st: Reconciled, rows: seq<seq<string>>, nextId: nat -> int): (r: Reconciled)
    ensures Extends(st, r)
  {
    if rows == [] then st
    else
      var prev := ReconcileRows(st, rows[..|rows| - 1], nextId);
      var r := LinkChain(prev, PathSegments(PathCell(rows[|rows| - 1])), nextId);
      ExtendsTransitive(st, prev, r);
      r
  }

  /** The sync-categories loop over the rows, starting from the listed index. */
  method SyncCategories(index: Index, rows: seq<seq<string>>, nextId: nat -> int)
    returns (result: Index, created: seq<Creation>)
    ensures Reconciled(result, created) == ReconcileRows(Reconciled(index, []), rows, nextId)
  {
    result := index;
    created := [];
    for i := 0 to |rows|
      invariant Reconciled(result, created) == ReconcileRows(Reconciled(index, []), rows[..i], nextId)
    {
      assert rows[..i + 1][..i] == rows[..i];
      result, created := SyncRow(result, created, PathCell(rows[i]), nextId);
    }
    assert rows[..|rows|] == rows;
  }

  /** LinkChain one segment further. */
  lemma ChainSnoc(st: Reconciled, segs: seq<string>, child: string, nextId: nat -> int)
    requires |segs| >= 1
    ensures var prev := LinkChain(st, segs, nextId);
      LinkChain(st, segs + [child], nextId) ==
        EnsureCategory(prev, child, Some(prev.index[Escape(segs[|segs| - 1])]), nextId)
  {
    var segs' := segs + [child];
    assert segs'[..|segs'| - 1] == segs;
  }

  /** The body of the row loop: one path, starting with its top segment. */
  method SyncRow(index: Index, created0: seq<Creation>, value: string, nextId: nat -> int)
    returns (result: Index, created: seq<Creation>)
    ensures Reconciled(result, created) == LinkChain(Reconciled(index, created0), PathSegments(value), nextId)
  {
    ghost var before := Reconciled(index, created0);
    result, created := index, created0;
    var catArr := Explode('>', value);
    var parent := Trim(catArr[0]);
    ghost var first := parent;
    if Escape(parent) !in result {
      var id := nextId(|created|);
      result := result[Escape(parent) := id];
      created := created + [Creation(parent, None, id)];
    }
    var rest := catArr[1..];
    assert rest[..0] == [];
    for j := 0 to |rest|
      invariant Reconciled(result, created) == LinkChain(before, [first] + NonEmptySegments(rest[..j]), nextId)
      invariant var segs := [first] + NonEmptySegments(rest[..j]); parent == segs[|segs| - 1]
    {
      ghost var segs := [first] + NonEmptySegments(rest[..j]);
      NonEmptySegmentsSnoc(rest, j);
      var child := Trim(ReplaceChar(rest[j], '>', ""));
      if child != "" {
        assert [first] + NonEmptySegments(rest[..j + 1]) == segs + [child];
        ChainSnoc(before, segs, child, nextId);
        var parentId := result[Escape(parent)];
        if Escape(child) !in result {
          var id := nextId(|created|);
          result := result[Escape(child) := id];
          created := created + [Creation(child, Some(parentId), id)];
        }
        parent := child;
      } else {
        assert [first] + NonEmptySegments(rest[..j + 1]) == segs;
      }
    }
    assert rest[..|rest|] == rest;
  }

  // -----------------------------------------------------------------------
  // What a run does to the index
  // -----------------------------------------------------------------------

  /**
   * Every creation after `st` was for a name missing from `st`, got the
   * next id from the store, and is in the index under that id.
   */
  predicate FreshCreations(st: Reconciled, r: Reconciled, nextId: nat -> int) {
    forall k :: |st.created| <= k < |r.created| ==>
      && Escape(r.created[k].name) !in st.index
      && Escape(r.created[k].name) in r.index
      && r.index[Escape(r.created[k].name)] == r.created[k].id
      && r.created[k].id == nextId(k)
  }

  /** Every key added after `st` is the name of a creation. */
  predicate OnlyCreated(st: Reconciled, r: Reconciled) {
    forall key :: key in r.index && key !in st.index ==>
      exists k :: |st.created| <= k < |r.created| && Escape(r.created[k].name) == key
  }

  /** The index only grows, and only by the categories created, under the ids the store returned. */
  predicate Grows(st: Reconciled, r: Reconciled, nextId: nat -> int) {
    Extends(st, r) && FreshCreations(st, r, nextId) && OnlyCreated(st, r)
  }

  lemma GrowsTransitive(a: Reconciled, b: Reconciled, c: Reconciled, nextId: nat -> int)
    requires Grows(a, b, nextId) && Grows(b, c, nextId)
    ensures Grows(a, c, nextId)
  {
    ExtendsTransitive(a, b, c);
    forall k | |a.created| <= k < |b.created|
      ensures c.created[k] == b.created[k]
    {
      assert c.created[..|b.created|][k] == c.created[k];
    }
    forall key | key in c.index && key !in a.index
      ensures exists k :: |a.created| <= k < |c.created| && Escape(c.created[k].name) == key
    {
      if key in b.index {
        var k :| |a.created| <= k < |b.created| && Escape(b.created[k].name) == key;
        assert Escape(c.created[k].name) == key;
      } else {
        var k :| |b.created| <= k < |c.created| && Escape(c.created[k].name) == key;
      }
    }
  }

  lemma EnsureGrows(st: Reconciled, name: string, parent: Option<int>, nextId: nat -> int)
    ensures Grows(st, EnsureCategory(st, name, parent, nextId), nextId)
  {
    var r := EnsureCategory(st, name, parent, nextId);
    if Escape(name) !in st.index {
      assert r.created[..|st.created|] == st.created;
      assert Escape(r.created[|st.created|].name) == Escape(name);
    }
  }

  lemma {:induction false} LinkChainGrows(st: Reconciled, segs: seq<string>, nextId: nat -> int)
    requires |segs| >= 1
    ensures Grows(st, LinkChain(st, segs, nextId), nextId)
    decreases |segs|
  {
    if |segs| == 1 {
      EnsureGrows(st, segs[0], None, nextId);
    } else {
      var init := segs[..|segs| - 1];
      var prev := LinkChain(st, init, nextId);
      LinkChainGrows(st, init, nextId);
      var parent := Some(prev.index[Escape(segs[|segs| - 2])]);
      var r := EnsureCategory(prev, segs[|segs| - 1], parent, nextId);
      assert LinkChain(st, segs, nextId) == r;
      EnsureGrows(prev, segs[|segs| - 1], parent, nextId);
      GrowsTransitive(st, prev, r, nextId);
    }
  }

  /**
   * A run never overwrites an index entry, creates only names that were
   * missing, each under the id the store returned for it, and adds no
   * other key.
   */
  lemma {:induction false} ReconcileGrows(st: Reconciled, rows: seq<seq<string>>, nextId: nat -> int)
    ensures Grows(st, ReconcileRows(st, rows, nextId), nextId)
  {
    if rows != [] {
      var prev := ReconcileRows(st, rows[..|rows| - 1], nextId);
      ReconcileGrows(st, rows[..|rows| - 1], nextId);
      LinkChainGrows(prev, PathSegments(PathCell(rows[|rows| - 1])), nextId);
      GrowsTransitive(st, prev, ReconcileRows(st, rows, nextId), nextId);
    }
  }

  /**
   * `c` is for segment i of `segs`: the top segment has no parent, and a
   * later one has the id that the index gives the segment before it.
   */
  predicate ParentFollowsPath(r: Reconciled, segs: seq<string>, c: Creation) {
    exists i :: 0 <= i < |segs| && c.name == segs[i] &&
      (i == 0 ==> c.parent == None) &&
      (i > 0 ==> Escape(segs[i - 1]) in r.index && c.parent == Some(r.index[Escape(segs[i - 1])]))
  }

  /** Every creation made after `st` follows the path `segs`. */
  predicate CreationsFollowPath(st: Reconciled, r: Reconciled, segs: seq<string>) {
    forall k :: |st.created| <= k < |r.created| ==> ParentFollowsPath(r, segs, r.created[k])
  }

  /** Each category a row creates is one of its segments, linked to the segment before it. */
  lemma {:induction false} ChainParents(st: Reconciled, segs: seq<string>, nextId: nat -> int)
    requires |segs| >= 1
    ensures CreationsFollowPath(st, LinkChain(st, segs, nextId), segs)
    decreases |segs|
  {
    var r := LinkChain(st, segs, nextId);
    if |segs| == 1 {
      forall k | |st.created| <= k < |r.created|
        ensures ParentFollowsPath(r, segs, r.created[k])
      {
        assert r.created[k].name == segs[0];
      }
    } else {
      var init := segs[..|segs| - 1];
      var prev := LinkChain(st, init, nextId);
      ChainParents(st, init, nextId);
      assert Extends(st, prev);
      assert Escape(init[|init| - 1]) in prev.index;
      var parent := Some(prev.index[Escape(segs[|segs| - 2])]);
      assert r == EnsureCategory(prev, segs[|segs| - 1], parent, nextId);
      ChainStepParents(st, prev, r, init, segs, parent, nextId);
    }
  }

  /** The step of ChainParents: ensuring the last segment keeps the earlier creations on the path and adds one that follows it. */
  lemma ChainStepParents(st: Reconciled, prev: Reconciled, r: Reconciled, init: seq<string>, segs: seq<string>,
                         parent: Option<int>, nextId: nat -> int)
    requires |segs| >= 2 && init == segs[..|segs| - 1]
    requires |st.created| <= |prev.created|
    requires Escape(segs[|segs| - 2]) in prev.index && parent == Some(prev.index[Escape(segs[|segs| - 2])])
    requires r == EnsureCategory(prev, segs[|segs| - 1], parent, nextId)
    requires CreationsFollowPath(st, prev, init)
    ensures CreationsFollowPath(st, r, segs)
  {
    EnsureGrows(prev, segs[|segs| - 1], parent, nextId);
    forall k | |st.created| <= k < |r.created|
      ensures ParentFollowsPath(r, segs, r.created[k])
    {
      if k < |prev.created| {
        assert r.created[k] == r.created[..|prev.created|][k];
        FollowsPathExtended(prev, r, init, segs, prev.created[k]);
      } else {
        var i := |segs| - 1;
        assert r.created[k].name == segs[i];
        assert segs[i - 1] == init[|init| - 1];
      }
    }
  }

  /** A creation that follows a path still follows it once the state grows and the path is extended. */
  lemma FollowsPathExtended(prev: Reconciled, r: Reconciled, init: seq<string>, segs: seq<string>, c: Creation)
    requires Extends(prev, r) && |init| < |segs| && init == segs[..|init|]
    requires ParentFollowsPath(prev, init, c)
    ensures ParentFollowsPath(r, segs, c)
  {
    var i :| 0 <= i < |init| && c.name == init[i] &&
      (i == 0 ==> c.parent == None) &&
      (i > 0 ==> (Escape(init[i - 1]) in prev.index && c.parent == Some(prev.index[Escape(init[i - 1])])));
    assert segs[i] == init[i];
    if i > 0 {
      assert init[i - 1] == segs[i - 1];
    }
  }

  // -----------------------------------------------------------------------
  // No duplicates
  // -----------------------------------------------------------------------

  /** The creations made after `st` are for pairwise different escaped names. */
  predicate DistinctFrom(st: Reconciled, r: Reconciled) {
    forall k1, k2 :: |st.created| <= k1 < k2 < |r.created| ==>
      Escape(r.created[k1].name) != Escape(r.created[k2].name)
  }

  /**
   * A lookup-or-create never repeats a name created since `st0`: the
   * earlier creations are all in the index, and a creation happens only
   * on a miss.
   */
  lemma EnsureDistinct(st0: Reconciled, st: Reconciled, name: string, parent: Option<int>, nextId: nat -> int)
    requires Grows(st0, st, nextId) && DistinctFrom(st0, st)
    ensures DistinctFrom(st0, EnsureCategory(st, name, parent, nextId))
  {
    var r := EnsureCategory(st, name, parent, nextId);
    if Escape(name) !in st.index {
      forall k1, k2 | |st0.created| <= k1 < k2 < |r.created|
        ensures Escape(r.created[k1].name) != Escape(r.created[k2].name)
      {
        assert r.created[k1] == st.created[k1];
        if k2 < |st.created| {
          assert r.created[k2] == st.created[k2];
        } else {
          assert r.created[k2].name == name;
          assert Escape(st.created[k1].name) in st.index;
        }
      }
    }
  }

  /** One path creates no escaped name twice. */
  lemma {:induction false} ChainDistinct(st: Reconciled, segs: seq<string>, nextId: nat -> int)
    requires |segs| >= 1
    ensures DistinctFrom(st, LinkChain(st, segs, nextId))
    decreases |segs|
  {
    if |segs| > 1 {
      var init := segs[..|segs| - 1];
      var last := segs[|segs| - 1];
      var prev := LinkChain(st, init, nextId);
      ChainDistinct(st, init, nextId);
      LinkChainGrows(st, init, nextId);
      assert segs == init + [last];
      ChainSnoc(st, init, last, nextId);
      EnsureDistinct(st, prev, last, Some(prev.index[Escape(init[|init| - 1])]), nextId);
    }
  }

  /** Duplicate-free growth composes: names created after `b` were missing from `b`, which holds all created before. */
  lemma DistinctCompose(a: Reconciled, b: Reconciled, c: Reconciled, nextId: nat -> int)
    requires Grows(a, b, nextId) && Grows(b, c, nextId)
    requires DistinctFrom(a, b) && DistinctFrom(b, c)
    ensures DistinctFrom(a, c)
  {
    forall k1, k2 | |a.created| <= k1 < k2 < |c.created|
      ensures Escape(c.created[k1].name) != Escape(c.created[k2].name)
    {
      if k1 < |b.created| {
        assert c.created[k1] == c.created[..|b.created|][k1] == b.created[k1];
        if k2 < |b.created| {
          assert c.created[k2] == c.created[..|b.created|][k2] == b.created[k2];
        } else {
          assert Escape(b.created[k1].name) in b.index;
        }
      }
    }
  }

  /**
   * A run creates each escaped name at most once, however many rows share
   * it: together with ReconcileGrows, every creation is for a name that
   * neither the starting index nor an earlier creation of the run had.
   */
  lemma {:induction false} ReconcileDistinct(st: Reconciled, rows: seq<seq<string>>, nextId: nat -> int)
    ensures DistinctFrom(st, ReconcileRows(st, rows, nextId))
  {
    if rows != [] {
      var init := rows[..|rows| - 1];
      var prev := ReconcileRows(st, init, nextId);
      var segs := PathSegments(PathCell(rows[|rows| - 1]));
      ReconcileDistinct(st, init, nextId);
      ReconcileGrows(st, init, nextId);
      ChainDistinct(prev, segs, nextId);
      LinkChainGrows(prev, segs, nextId);
      DistinctCompose(st, prev, LinkChain(prev, segs, nextId), nextId);
    }
  }

  // -----------------------------------------------------------------------
  // Coverage and re-running
  // -----------------------------------------------------------------------

  /** Every segment of every row is in the index. */
  predicate Covers(index: Index, rows: seq<seq<string>>) {
    forall j, k :: 0 <= j < |rows| && 0 <= k < |PathSegments(PathCell(rows[j]))| ==>
      Escape(PathSegments(PathCell(rows[j]))[k]) in index
  }

  /** After a run, every segment of every row has an id. */
  lemma {:induction false} ReconcileCovers(st: Reconciled, rows: seq<seq<string>>, nextId: nat -> int)
    ensures Covers(ReconcileRows(st, rows, nextId).index, rows)
  {
    if rows != [] {
      var init := rows[..|rows| - 1];
      ReconcileCovers(st, init, nextId);
      forall j | 0 <= j < |init|
        ensures rows[j] == init[j]
      {
      }
    }
  }

  lemma {:induction false} ChainNoop(st: Reconciled, segs: seq<string>, nextId: nat -> int)
    requires |segs| >= 1
    requires forall k :: 0 <= k < |segs| ==> Escape(segs[k]) in st.index
    ensures LinkChain(st, segs, nextId) == st
    decreases |segs|
  {
    if |segs| > 1 {
      ChainNoop(st, segs[..|segs| - 1], nextId);
    }
  }

  /** Rows that are already covered create nothing and leave the index as it is. */
  lemma {:induction false} ReconcileNoop(st: Reconciled, rows: seq<seq<string>>, nextId: nat -> int)
    requires Covers(st.index, rows)
    ensures ReconcileRows(st, rows, nextId) == st
  {
    if rows != [] {
      var init := rows[..|rows| - 1];
      assert Covers(st.index, init) by {
        forall j, k | 0 <= j < |init| && 0 <= k < |PathSegments(PathCell(init[j]))|
          ensures Escape(PathSegments(PathCell(init[j]))[k]) in st.index
        {
          assert init[j] == rows[j];
        }
      }
      ReconcileNoop(st, init, nextId);
      var segs := PathSegments(PathCell(rows[|rows| - 1]));
      ChainNoop(st, segs, nextId);
    }
  }

  /** Running the job again on the same rows, with the index it left, creates nothing. */
  lemma ReconcileIdempotent(index: Index, rows: seq<seq<string>>, nextId: nat -> int, nextId2: nat -> int)
    ensures var r := ReconcileRows(Reconciled(index, []), rows, nextId);
      ReconcileRows(Reconciled(r.index, []), rows, nextId2) == Reconciled(r.index, [])
  {
    var r := ReconcileRows(Reconciled(index, []), rows, nextId);
    ReconcileCovers(Reconciled(index, []), rows, nextId);
    ReconcileNoop(Reconciled(r.index, []), rows, nextId2);
  }

  // -----------------------------------------------------------------------
  // Where the escape matters
  // -----------------------------------------------------------------------

  /** A name with one `&` is looked up as the store lists it, with `&amp;`. */
  lemma EscapeOneAmpersand(a: string, b: string)
    requires '&' !in a && '&' !in b
    ensures Escape(a + "&" + b) == a + "&amp;" + b
  {
    assert a + "&" + b == a + ['&'] + b;
    ReplaceOne(a, '&', b, "&amp;");
  }

  /** A name such as `Nuts & Bolts` matches the listed `Nuts &amp; Bolts`, so it is not created again. */
  lemma EscapedNameMatches(st: Reconciled, a: string, b: string, parent: Option<int>, nextId: nat -> int)
    requires '&' !in a && '&' !in b
    requires a + "&amp;" + b in st.index
    ensures EnsureCategory(st, a + "&" + b, parent, nextId) == st
  {
    EscapeOneAmpersand(a, b);
  }

  // -----------------------------------------------------------------------
  // Paths
  // -----------------------------------------------------------------------

  /**
   * The top segment is the first piece trimmed, even when that leaves it
   * empty; every later segment is non-empty, trimmed and free of `>`.
   */
  lemma PathSegmentsShape(value: string)
    ensures var segs := PathSegments(value);
      && segs[0] == Trim(Explode('>', value)[0])
      && forall i :: 1 <= i < |segs| ==> segs[i] != "" && IsTrimmed(segs[i]) && '>' !in segs[i]
  {
    var parts := Explode('>', value);
    var rest := NonEmptySegments(parts[1..]);
    var segs := PathSegments(value);
    assert segs == [Trim(parts[0])] + rest;
    forall j | 0 <= j < |rest|
      ensures rest[j] != "" && IsTrimmed(rest[j]) && '>' !in rest[j]
    {
      NonEmptySegmentsClean(parts[1..], rest[j]);
    }
    forall i | 1 <= i < |segs|
      ensures segs[i] != "" && IsTrimmed(segs[i]) && '>' !in segs[i]
    {
      assert segs[i] == rest[i - 1];
    }
  }

  /** A clean segment: non-empty, trimmed, without `>`. */
  predicate CleanName(s: string) {
    s != "" && IsTrimmed(s) && '>' !in s
  }

  /** `a>b>c` with clean names is the path a, b, c. */
  lemma PathOfThree(a: string, b: string, c: string)
    requires CleanName(a) && CleanName(b) && CleanName(c)
    ensures PathSegments(a + ">" + b + ">" + c) == [a, b, c]
  {
    var ps := [a, b, c];
    assert ps[1..] == [b, c] && [b, c][1..] == [c];
    assert Implode('>', [c]) == c;
    assert Implode('>', [b, c]) == b + ">" + c;
    assert Implode('>', ps) == a + ">" + (b + ">" + c);
    assert a + ">" + (b + ">" + c) == a + ">" + b + ">" + c;
    ExplodeImplode('>', ps);
    TrimmedIsFixedPoint(a);
    CleanSegmentOfClean(b);
    CleanSegmentOfClean(c);
    assert Cleaned([b, c]) == [b, c];
    DropEmptyOfNonEmpty([b, c]);
  }

  /**
   * One row `a>b>c` whose top segment is already listed and whose other
   * two are new: b is created under a's id, then c under b's new id.
   */
  lemma NewBranch(index: Index, a: string, b: string, c: string, nextId: nat -> int)
    requires CleanName(a) && CleanName(b) && CleanName(c) && b != c
    requires Escape(a) in index && Escape(b) !in index && Escape(c) !in index
    ensures ReconcileRows(Reconciled(index, []), [[a + ">" + b + ">" + c]], nextId) ==
      Reconciled(index[Escape(b) := nextId(0)][Escape(c) := nextId(1)],
        [Creation(b, Some(index[Escape(a)]), nextId(0)), Creation(c, Some(nextId(0)), nextId(1))])
  {
    var rows := [[a + ">" + b + ">" + c]];
    assert rows[..0] == [];
    assert PathCell(rows[0]) == a + ">" + b + ">" + c;
    PathOfThree(a, b, c);
    var segs := [a, b, c];
    assert segs[..2] == [a, b] && [a, b][..1] == [a];
    if Escape(b) == Escape(c) {
      EscapeInjective(b, c);
    }
    var st0 := Reconciled(index, []);
    assert ReconcileRows(st0, rows, nextId) == LinkChain(st0, segs, nextId);
    assert LinkChain(st0, [a], nextId) == st0;
    var s2 := Reconciled(index[Escape(b) := nextId(0)], [Creation(b, Some(index[Escape(a)]), nextId(0))]);
    assert LinkChain(st0, [a, b], nextId) == s2;
    assert LinkChain(st0, segs, nextId) == EnsureCategory(s2, c, Some(nextId(0)), nextId);
  }
}
