/**
 * The PHP string built-ins the synchronisation jobs rely on, for the cases
 * they use: `explode` with a one-character delimiter, `trim` with its
 * default character set, `str_replace` of one character, `empty` and
 * truthiness of a string, and the decimal form of an integer in string
 * concatenation.
 */
module PhpStrings {
  import opened Wrappers

  // ---------------------------------------------------------------------
  // explode
  // ---------------------------------------------------------------------

  /** `explode(d, s)`: the pieces of `s` between occurrences of `d`. */
  function Explode(d: char, s: string): (r: seq<string>)
    ensures |r| >= 1
    ensures forall i :: 0 <= i < |r| ==> d !in r[i]
  {
    if s == [] then [""]
    else
      var rest := Explode(d, s[1..]);
      if s[0] == d then [""] + rest else [[s[0]] + rest[0]] + rest[1..]
  }

  /** `implode(d, ps)`: the pieces joined with `d` between them. */
  function Implode(d: char, ps: seq<string>): string
    requires |ps| >= 1
  {
    if |ps| == 1 then ps[0] else ps[0] + [d] + Implode(d, ps[1..])
  }

  /** Nothing is lost by exploding: joining the pieces gives the string back. */
  lemma {:induction false} ImplodeExplode(d: char, s: string)
    ensures Implode(d, Explode(d, s)) == s
  {
    if s != [] {
      var rest := Explode(d, s[1..]);
      ImplodeExplode(d, s[1..]);
      if s[0] == d {
        assert Explode(d, s) == [""] + rest;
        assert ([""] + rest)[1..] == rest;
      } else if |rest| == 1 {
        assert Explode(d, s) == [[s[0]] + rest[0]];
      } else {
        var r := Explode(d, s);
        assert r == [[s[0]] + rest[0]] + rest[1..];
        assert r[1..] == rest[1..];
        assert Implode(d, rest) == rest[0] + [d] + Implode(d, rest[1..]);
      }
    }
  }

  /** A string without the delimiter explodes into itself alone. */
  lemma {:induction false} ExplodeWithout(d: char, a: string)
    requires d !in a
    ensures Explode(d, a) == [a]
  {
    if a != [] {
      ExplodeWithout(d, a[1..]);
      assert a[0] != d;
      assert [a[0]] + a[1..] == a;
    }
  }

  /** Exploding `a + [d] + b` splits off `a` as the first piece. */
  lemma {:induction false} ExplodeCons(d: char, a: string, b: string)
    requires d !in a
    ensures Explode(d, a + [d] + b) == [a] + Explode(d, b)
  {
    var s := a + [d] + b;
    if a == [] {
      assert s[0] == d && s[1..] == b;
    } else {
      assert s[0] == a[0];
      assert s[1..] == a[1..] + [d] + b;
      ExplodeCons(d, a[1..], b);
      var rest := Explode(d, s[1..]);
      assert rest[0] == a[1..] && rest[1..] == Explode(d, b);
      assert [a[0]] + a[1..] == a;
    }
  }

  /** Pieces that do not contain the delimiter are recovered by exploding their join. */
  lemma {:induction false} ExplodeImplode(d: char, ps: seq<string>)
    requires |ps| >= 1
    requires forall i :: 0 <= i < |ps| ==> d !in ps[i]
    ensures Explode(d, Implode(d, ps)) == ps
  {
    if |ps| == 1 {
      ExplodeWithout(d, ps[0]);
    } else {
      ExplodeImplode(d, ps[1..]);
      ExplodeCons(d, ps[0], Implode(d, ps[1..]));
      assert [ps[0]] + ps[1..] == ps;
    }
  }

  /**
   * `explode(d, s)[0]` is the text before the first `d`: a prefix of `s`
   * without `d`, which is all of `s` or is followed by `d`.
   */
  lemma {:induction false} FirstPiece(d: char, s: string)
    ensures var p := Explode(d, s)[0];
      |p| <= |s| && p == s[..|p|] && d !in p && (|p| == |s| || s[|p|] == d)
  {
    if s != [] {
      FirstPiece(d, s[1..]);
    }
  }

  // ---------------------------------------------------------------------
  // trim
  // ---------------------------------------------------------------------

  /** The characters `trim` strips by default: space, \t, \n, \r, \0 and \x0B. */
  predicate IsTrimmable(c: char) {
    c == ' ' || c == '\t' || c == '\n' || c == '\r' || c == '\0' || c == '\U{B}'
  }

  /** `ltrim`: the characters before the first non-trimmable one removed. */
  function TrimLeft(s: string): string {
    if s != [] && IsTrimmable(s[0]) then TrimLeft(s[1..]) else s
  }

  /** `rtrim`: the characters after the last non-trimmable one removed. */
  function TrimRight(s: string): string {
    if s != [] && IsTrimmable(s[|s| - 1]) then TrimRight(s[..|s| - 1]) else s
  }

  /** `trim`: both ends stripped. */
  function Trim(s: string): string {
    TrimRight(TrimLeft(s))
  }

  /** `ltrim` keeps the longest suffix that does not start with a trimmable character. */
  lemma {:induction false} TrimLeftSpec(s: string)
    ensures var r := TrimLeft(s);
      && |r| <= |s| && r == s[|s| - |r|..]
      && (r == [] || !IsTrimmable(r[0]))
      && forall i :: 0 <= i < |s| - |r| ==> IsTrimmable(s[i])
  {
    if s != [] && IsTrimmable(s[0]) {
      var t := s[1..];
      TrimLeftSpec(t);
      var r := TrimLeft(t);
      assert TrimLeft(s) == r;
      assert t[|t| - |r|..] == s[|s| - |r|..];
      forall i | 0 <= i < |s| - |r|
        ensures IsTrimmable(s[i])
      {
        if i > 0 {
          assert s[i] == t[i - 1];
        }
      }
    }
  }

  /** `rtrim` keeps the longest prefix that does not end with a trimmable character. */
  lemma {:induction false} TrimRightSpec(s: string)
    ensures var r := TrimRight(s);
      && |r| <= |s| && r == s[..|r|]
      && (r == [] || !IsTrimmable(r[|r| - 1]))
      && forall i :: |r| <= i < |s| ==> IsTrimmable(s[i])
  {
    if s != [] && IsTrimmable(s[|s| - 1]) {
      var t := s[..|s| - 1];
      TrimRightSpec(t);
      var r := TrimRight(t);
      assert TrimRight(s) == r;
      assert t[..|r|] == s[..|r|];
      forall i | |r| <= i < |s|
        ensures IsTrimmable(s[i])
      {
        if i < |s| - 1 {
          assert s[i] == t[i];
        }
      }
    }
  }

  /** A string is trimmed when neither end is a trimmable character. */
  predicate IsTrimmed(s: string) {
    s == [] || (!IsTrimmable(s[0]) && !IsTrimmable(s[|s| - 1]))
  }

  /**
   * `trim` keeps a contiguous middle part of the string, everything cut
   * from either end is trimmable, and neither end of the result is.
   */
  lemma TrimSpec(s: string)
    ensures var r, i := Trim(s), |s| - |TrimLeft(s)|;
      && IsTrimmed(r)
      && 0 <= i <= |s| - |r| && r == s[i..i + |r|]
      && (forall k :: 0 <= k < i ==> IsTrimmable(s[k]))
      && (forall k :: i + |r| <= k < |s| ==> IsTrimmable(s[k]))
  {
    var l := TrimLeft(s);
    TrimLeftSpec(s);
    TrimRightOfTrimmedLeft(l);
    TrimRightSpec(l);
    PrefixOfSuffix(s, l, TrimRight(l));
  }

  /** A prefix `r` of the suffix `l` of `s` is a slice of `s`, and what follows it in `s` is what follows it in `l`. */
  lemma PrefixOfSuffix(s: string, l: string, r: string)
    requires |l| <= |s| && l == s[|s| - |l|..]
    requires |r| <= |l| && r == l[..|r|]
    requires forall k :: |r| <= k < |l| ==> IsTrimmable(l[k])
    ensures var i := |s| - |l|;
      r == s[i..i + |r|] && forall k :: i + |r| <= k < |s| ==> IsTrimmable(s[k])
  {
    var i := |s| - |l|;
    forall k | i + |r| <= k < |s|
      ensures IsTrimmable(s[k])
    {
      assert s[k] == l[k - i];
    }
  }

  /** rtrim of a string that does not start with a trimmable character gives a trimmed string. */
  lemma TrimRightOfTrimmedLeft(l: string)
    requires l == [] || !IsTrimmable(l[0])
    ensures IsTrimmed(TrimRight(l))
  {
    TrimRightSpec(l);
    var r := TrimRight(l);
    if r != [] {
      assert r[0] == l[0];
    }
  }

  /** The trimmed strings are exactly the fixed points of `trim`. */
  lemma TrimmedIsFixedPoint(s: string)
    ensures IsTrimmed(s) <==> Trim(s) == s
  {
    if IsTrimmed(s) {
      assert TrimLeft(s) == s;
      assert TrimRight(s) == s;
    } else if Trim(s) == s {
      TrimSpec(s);
    }
  }

  /** Trimming a trimmed string changes nothing. */
  lemma TrimIdempotent(s: string)
    ensures Trim(Trim(s)) == Trim(s)
  {
    TrimSpec(s);
    TrimmedIsFixedPoint(Trim(s));
  }

  // ---------------------------------------------------------------------
  // str_replace of one character
  // ---------------------------------------------------------------------

  /** `str_replace(c, rep, s)`: every `c` in `s` replaced by `rep`. */
  function ReplaceChar(s: string, c: char, rep: string): (r: string)
    ensures c !in rep ==> c !in r
  {
    if s == [] then []
    else (if s[0] == c then rep else [s[0]]) + ReplaceChar(s[1..], c, rep)
  }

  /** Replacing a character that does not occur changes nothing. */
  lemma {:induction false} ReplaceAbsent(s: string, c: char, rep: string)
    requires c !in s
    ensures ReplaceChar(s, c, rep) == s
  {
    if s != [] {
      ReplaceAbsent(s[1..], c, rep);
    }
  }

  /** Replacement works piece by piece. */
  lemma {:induction false} ReplaceAppend(a: string, b: string, c: char, rep: string)
    ensures ReplaceChar(a + b, c, rep) == ReplaceChar(a, c, rep) + ReplaceChar(b, c, rep)
  {
    if a == [] {
      assert a + b == b;
    } else {
      assert (a + b)[0] == a[0] && (a + b)[1..] == a[1..] + b;
      ReplaceAppend(a[1..], b, c, rep);
    }
  }

  /** A string with one occurrence of `c` gets `rep` in its place. */
  lemma ReplaceOne(a: string, c: char, b: string, rep: string)
    requires c !in a && c !in b
    ensures ReplaceChar(a + [c] + b, c, rep) == a + rep + b
  {
    var mid := [c];
    assert a + mid + b == a + (mid + b);
    ReplaceAppend(a, mid + b, c, rep);
    ReplaceAppend(mid, b, c, rep);
    assert mid[1..] == [];
    assert ReplaceChar(mid, c, rep) == rep + ReplaceChar([], c, rep);
    ReplaceAbsent(a, c, rep);
    ReplaceAbsent(b, c, rep);
  }

  /** Replacing by one character works position by position. */
  lemma {:induction false} ReplaceByOne(s: string, c: char, b: char)
    ensures |ReplaceChar(s, c, [b])| == |s|
    ensures forall i :: 0 <= i < |s| ==>
      ReplaceChar(s, c, [b])[i] == if s[i] == c then b else s[i]
  {
    if s != [] {
      ReplaceByOne(s[1..], c, b);
      var r := ReplaceChar(s, c, [b]);
      assert r == [if s[0] == c then b else s[0]] + ReplaceChar(s[1..], c, [b]);
      forall i | 1 <= i < |s|
        ensures r[i] == if s[i] == c then b else s[i]
      {
        assert r[i] == ReplaceChar(s[1..], c, [b])[i - 1];
        assert s[1..][i - 1] == s[i];
      }
    }
  }

  // ---------------------------------------------------------------------
  // The `&` to `&amp;` escape used for category index keys
  // ---------------------------------------------------------------------

  /** `str_replace('&', '&amp;', s)`: the form in which the store keeps `&` in names. */
  function Escape(s: string): string {
    ReplaceChar(s, '&', "&amp;")
  }

  /** The inverse of Escape: each `&amp;` read back as `&`. */
  function Unescape(s: string): string
    decreases |s|
  {
    if |s| >= 5 && s[..5] == "&amp;" then "&" + Unescape(s[5..])
    else if s == [] then []
    else [s[0]] + Unescape(s[1..])
  }

  /** Escaping loses nothing: Unescape recovers the name. */
  lemma {:induction false} UnescapeEscape(s: string)
    ensures Unescape(Escape(s)) == s
  {
    if s != [] {
      var e := Escape(s);
      UnescapeEscape(s[1..]);
      if s[0] == '&' {
        assert e == "&amp;" + Escape(s[1..]);
        assert e[..5] == "&amp;" && e[5..] == Escape(s[1..]);
      } else {
        assert e == [s[0]] + Escape(s[1..]);
        assert e[0] != '&';
        assert e[1..] == Escape(s[1..]);
      }
    }
  }

  /** Distinct category names never share an index key. */
  lemma EscapeInjective(a: string, b: string)
    requires Escape(a) == Escape(b)
    ensures a == b
  {
    UnescapeEscape(a);
    UnescapeEscape(b);
  }

  // ---------------------------------------------------------------------
  // empty() and truthiness of cell values
  // ---------------------------------------------------------------------

  /** `empty($s)` for a string: true for "" and for "0". */
  predicate PhpEmpty(s: string) {
    s == "" || s == "0"
  }

  /** Truthiness of a cell that may be null: neither null, "" nor "0". */
  predicate Truthy(cell: Option<string>) {
    cell.Some? && !PhpEmpty(cell.value)
  }

  // ---------------------------------------------------------------------
  // Decimal form of a natural number, as string concatenation writes it
  // ---------------------------------------------------------------------

  predicate IsDigit(c: char) {
    '0' <= c <= '9'
  }

  function DigitChar(n: nat): (c: char)
    requires n < 10
    ensures IsDigit(c) && c as int - '0' as int == n
  {
    ('0' as int + n) as char
  }

  /** The decimal digits of `n`, most significant first, no leading zeros. */
  function Decimal(n: nat): (r: string)
    ensures |r| >= 1
    ensures forall i :: 0 <= i < |r| ==> IsDigit(r[i])
    ensures |r| > 1 ==> r[0] != '0'
  {
    if n < 10 then [DigitChar(n)] else Decimal(n / 10) + [DigitChar(n % 10)]
  }

  /** The number a string of digits denotes. */
  function DecimalValue(s: string): nat
    requires forall i :: 0 <= i < |s| ==> IsDigit(s[i])
  {
    if s == [] then 0
    else
      assert IsDigit(s[|s| - 1]);
      DecimalValue(s[..|s| - 1]) * 10 + (s[|s| - 1] as int - '0' as int)
  }

  /** Reading the decimal form back gives the number. */
  lemma {:induction false} DecimalRoundTrip(n: nat)
    ensures DecimalValue(Decimal(n)) == n
  {
    if n >= 10 {
      DecimalRoundTrip(n / 10);
      var r := Decimal(n);
      assert r[..|r| - 1] == Decimal(n / 10);
    }
  }

  /** Different numbers are written differently. */
  lemma DecimalInjective(m: nat, n: nat)
    requires Decimal(m) == Decimal(n)
    ensures m == n
  {
    DecimalRoundTrip(m);
    DecimalRoundTrip(n);
  }
}
