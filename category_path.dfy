/**
 * Category paths: a spreadsheet cell such as `Tools > Hand Tools > Wrenches`
 * split on `>` into segments. Both the product constructor and the
 * category reconciliation clean each segment with
 * `trim(str_replace('>', '', segment))` and drop the ones that come out empty.
 */
module CategoryPath {
  import opened PhpStrings

  /** `trim(str_replace('>', '', s))`. */
  function CleanSegment(s: string): (r: string)
  {
    Trim(ReplaceChar(s, '>', ""))
  }

  /** Every piece cleaned, in order. */
  function Cleaned(parts: seq<string>): (r: seq<string>)
    ensures |r| == |parts|
  {
    seq(|parts|, i requires 0 <= i < |parts| => CleanSegment(parts[i]))
  }

  /** The strings that are not empty, in their original order. */
  function DropEmpty(xs: seq<string>): seq<string> {
    if xs == [] then []
    else DropEmpty(xs[..|xs| - 1]) + (if xs[|xs| - 1] == "" then [] else [xs[|xs| - 1]])
  }

  /** The cleaned segments that are not empty, in their original order. */
  function NonEmptySegments(parts: seq<string>): seq<string> {
    DropEmpty(Cleaned(parts))
  }

  /**
   * The constructor's filtering loop: each segment is cleaned, and removed
   * when it comes out empty.
   */
  method FilterSegments(parts: seq<string>) returns (kept: seq<string>)
    ensures kept == NonEmptySegments(parts)
  {
    kept := [];
    for i := 0 to |parts|
      invariant kept == DropEmpty(Cleaned(parts[..i]))
    {
      var trimmed := Trim(ReplaceChar(parts[i], '>', ""));
      assert Cleaned(parts[..i + 1])[..i] == Cleaned(parts[..i]);
      assert Cleaned(parts[..i + 1])[i] == trimmed;
      if trimmed != "" {
        kept := kept + [trimmed];
      }
    }
    assert parts[..|parts|] == parts;
  }

  lemma {:induction false} DropEmptyAppend(a: seq<string>, b: seq<string>)
    ensures DropEmpty(a + b) == DropEmpty(a) + DropEmpty(b)
  {
    if b == [] {
      assert a + b == a;
    } else {
      var ab := a + b;
      var init := b[..|b| - 1];
      assert ab[..|ab| - 1] == a + init;
      assert ab[|ab| - 1] == b[|b| - 1];
      DropEmptyAppend(a, init);
    }
  }

  /** Filtering never reorders: it distributes over concatenation. */
  lemma NonEmptySegmentsAppend(a: seq<string>, b: seq<string>)
    ensures NonEmptySegments(a + b) == NonEmptySegments(a) + NonEmptySegments(b)
  {
    assert Cleaned(a + b) == Cleaned(a) + Cleaned(b);
    DropEmptyAppend(Cleaned(a), Cleaned(b));
  }

  /** Filtering one more piece appends its clean form when that is not empty. */
  lemma NonEmptySegmentsSnoc(parts: seq<string>, j: nat)
    requires j < |parts|
    ensures NonEmptySegments(parts[..j + 1]) ==
      NonEmptySegments(parts[..j]) + (if CleanSegment(parts[j]) == "" then [] else [CleanSegment(parts[j])])
  {
    assert parts[..j + 1] == parts[..j] + [parts[j]];
    NonEmptySegmentsAppend(parts[..j], [parts[j]]);
    var c := CleanSegment(parts[j]);
    assert Cleaned([parts[j]]) == [c];
    assert [c][..0] == [];
    assert DropEmpty([c]) == DropEmpty([]) + (if c == "" then [] else [c]);
  }

  /** A single piece is kept, cleaned, unless it cleans to nothing. */
  lemma NonEmptySegmentsSingle(x: string)
    ensures NonEmptySegments([x]) == if CleanSegment(x) == "" then [] else [CleanSegment(x)]
  {
    var c := CleanSegment(x);
    assert Cleaned([x]) == [c];
    assert [c][..0] == [];
    assert DropEmpty([c]) == DropEmpty([]) + (if c == "" then [] else [c]);
  }

  lemma {:induction false} DropEmptyMembers(xs: seq<string>, x: string)
    ensures x in DropEmpty(xs) <==> x != "" && x in xs
  {
    if xs != [] {
      var init := xs[..|xs| - 1];
      DropEmptyMembers(init, x);
      assert xs == init + [xs[|xs| - 1]];
    }
  }

  /** A segment is kept exactly when some piece cleans to it and it is not empty. */
  lemma NonEmptySegmentsMembers(parts: seq<string>, x: string)
    ensures x in NonEmptySegments(parts) <==>
      x != "" && exists i :: 0 <= i < |parts| && CleanSegment(parts[i]) == x
  {
    var cs := Cleaned(parts);
    DropEmptyMembers(cs, x);
    if x in cs {
      var i :| 0 <= i < |cs| && cs[i] == x;
      assert CleanSegment(parts[i]) == x;
    }
    if exists i :: 0 <= i < |parts| && CleanSegment(parts[i]) == x {
      var i :| 0 <= i < |parts| && CleanSegment(parts[i]) == x;
      assert cs[i] == x;
    }
  }

  /** Every kept segment is non-empty, trimmed and free of `>`. */
  lemma NonEmptySegmentsClean(parts: seq<string>, x: string)
    requires x in NonEmptySegments(parts)
    ensures x != "" && IsTrimmed(x) && '>' !in x
  {
    NonEmptySegmentsMembers(parts, x);
    var i :| 0 <= i < |parts| && CleanSegment(parts[i]) == x;
    CleanSegmentIsClean(parts[i]);
  }

  /** A slice of a string without `c` has no `c` either. */
  lemma SliceWithout(s: string, c: char, i: nat, j: nat)
    requires c !in s && i <= j <= |s|
    ensures c !in s[i..j]
  {
  }

  /** A segment that is already trimmed and has no `>` is its own clean form. */
  lemma CleanSegmentOfClean(s: string)
    requires IsTrimmed(s) && '>' !in s
    ensures CleanSegment(s) == s
  {
    ReplaceAbsent(s, '>', "");
    TrimmedIsFixedPoint(s);
  }

  /** A clean segment is trimmed and has no `>`. */
  lemma CleanSegmentIsClean(s: string)
    ensures IsTrimmed(CleanSegment(s)) && '>' !in CleanSegment(s)
  {
    var t := ReplaceChar(s, '>', "");
    TrimSpec(t);
    var r := Trim(t);
    var i := |t| - |TrimLeft(t)|;
    SliceWithout(t, '>', i, i + |r|);
  }

  /** Pieces that are trimmed and have no `>` are left as they are by cleaning. */
  lemma CleanedOfClean(parts: seq<string>)
    requires forall i :: 0 <= i < |parts| ==> IsTrimmed(parts[i]) && '>' !in parts[i]
    ensures Cleaned(parts) == parts
  {
    forall i | 0 <= i < |parts|
      ensures Cleaned(parts)[i] == parts[i]
    {
      CleanSegmentOfClean(parts[i]);
    }
  }

  lemma {:induction false} DropEmptyOfNonEmpty(xs: seq<string>)
    requires forall i :: 0 <= i < |xs| ==> xs[i] != ""
    ensures DropEmpty(xs) == xs
  {
    if xs != [] {
      DropEmptyOfNonEmpty(xs[..|xs| - 1]);
      assert xs == xs[..|xs| - 1] + [xs[|xs| - 1]];
    }
  }

  /** Filtering a filtered path changes nothing. */
  lemma NonEmptySegmentsIdempotent(parts: seq<string>)
    ensures NonEmptySegments(NonEmptySegments(parts)) == NonEmptySegments(parts)
  {
    var kept := NonEmptySegments(parts);
    forall i | 0 <= i < |kept|
      ensures Cleaned(kept)[i] == kept[i] && kept[i] != ""
    {
      NonEmptySegmentsClean(parts, kept[i]);
      CleanSegmentOfClean(kept[i]);
    }
    assert Cleaned(kept) == kept;
    DropEmptyOfNonEmpty(kept);
  }
}
