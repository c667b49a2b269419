/** Models of the JavaScript built-ins the quote store relies on:
    `String.prototype.trim`, the default string order used by `Array.prototype.sort`,
    `Array.prototype.filter`, and `null`/`undefined` as an option value. */
module Builtins {

  datatype Option<T> = None | Some(value: T)

  // ---------------------------------------------------------------------------
  // String.prototype.trim
  // ---------------------------------------------------------------------------

  /** The characters `trim` strips: the ECMAScript WhiteSpace and LineTerminator code points. */
  const WhiteSpaceChars: set<char> := {
    '\t', '\n', '\U{000B}', '\U{000C}', '\r', ' ', '\U{00A0}', '\U{1680}',
    '\U{2000}', '\U{2001}', '\U{2002}', '\U{2003}', '\U{2004}', '\U{2005}',
    '\U{2006}', '\U{2007}', '\U{2008}', '\U{2009}', '\U{200A}',
    '\U{2028}', '\U{2029}', '\U{202F}', '\U{205F}', '\U{3000}', '\U{FEFF}'
  }

  predicate IsWhiteSpace(c: char) {
    c in WhiteSpaceChars
  }

  /** No printable ASCII character other than the space is white space. */
  lemma VisibleAsciiIsNotWhiteSpace(c: char)
    requires '!' <= c <= '~'
    ensures !IsWhiteSpace(c)
  {
  }

  /** The number of white-space characters `s` starts with. */
  function LeadingWhiteSpace(s: string): (n: nat)
    ensures n <= |s|
    ensures forall k :: 0 <= k < n ==> IsWhiteSpace(s[k])
    ensures n < |s| ==> !IsWhiteSpace(s[n])
  {
    if |s| > 0 && IsWhiteSpace(s[0]) then 1 + LeadingWhiteSpace(s[1..]) else 0
  }

  /** The number of white-space characters `s` ends with. */
  function TrailingWhiteSpace(s: string): (n: nat)
    ensures n <= |s|
    ensures forall k :: |s| - n <= k < |s| ==> IsWhiteSpace(s[k])
    ensures n < |s| ==> !IsWhiteSpace(s[|s| - 1 - n])
  {
    if |s| > 0 && IsWhiteSpace(s[|s| - 1]) then 1 + TrailingWhiteSpace(s[..|s| - 1]) else 0
  }

  /** `r` is `s` from position `i` on, with only white space cut off before and after it. */
  ghost predicate StrippedAt(s: string, i: nat, r: string) {
    && i + |r| <= |s|
    && r == s[i..i + |r|]
    && (forall k :: 0 <= k < i ==> IsWhiteSpace(s[k]))
    && (forall k :: i + |r| <= k < |s| ==> IsWhiteSpace(s[k]))
  }

  /** `s.trim()`: the leading, then the trailing white space removed. It is empty exactly
      when `s` consists of white space only, and otherwise starts and ends with a character
      that is not white space. */
  function Trim(s: string): (r: string)
    ensures |r| <= |s|
    ensures r == [] <==> forall k :: 0 <= k < |s| ==> IsWhiteSpace(s[k])
    ensures r != [] ==> !IsWhiteSpace(r[0]) && !IsWhiteSpace(r[|r| - 1])
    ensures exists i :: StrippedAt(s, i, r)
  {
    var i := LeadingWhiteSpace(s);
    var t := s[i..];
    var j := TrailingWhiteSpace(t);
    var r := t[..|t| - j];
    assert r != [] ==> r[0] == s[i] && r[|r| - 1] == t[|t| - 1 - j];
    assert i < |s| ==> t[0] == s[i];
    assert r == s[i..i + |r|];
    assert forall k :: i + |r| <= k < |s| ==> s[k] == t[k - i];
    assert StrippedAt(s, i, r);
    r
  }

  /** Trimming a string that neither starts nor ends with white space changes nothing;
      in particular `trim` is idempotent. */
  lemma TrimmedIsFixed(s: string)
    requires s == [] || (!IsWhiteSpace(s[0]) && !IsWhiteSpace(s[|s| - 1]))
    ensures Trim(s) == s
  {
  }

  lemma TrimIdempotent(s: string)
    ensures Trim(Trim(s)) == Trim(s)
  {
    TrimmedIsFixed(Trim(s));
  }

  // ---------------------------------------------------------------------------
  // The default comparison of Array.prototype.sort on strings
  // ---------------------------------------------------------------------------

  /** Lexicographic order on strings, character by character; a proper prefix comes first. */
  predicate Less(a: string, b: string) {
    if a == [] then b != []
    else if b == [] then false
    else if a[0] != b[0] then a[0] < b[0]
    else Less(a[1..], b[1..])
  }

  lemma {:induction false} LessIrreflexive(a: string)
    ensures !Less(a, a)
  {
    if a != [] {
      LessIrreflexive(a[1..]);
    }
  }

  lemma {:induction false} LessTransitive(a: string, b: string, c: string)
    requires Less(a, b) && Less(b, c)
    ensures Less(a, c)
  {
    if a != [] && b != [] && c != [] && a[0] == b[0] && b[0] == c[0] {
      LessTransitive(a[1..], b[1..], c[1..]);
    }
  }

  lemma {:induction false} LessTotal(a: string, b: string)
    requires a != b
    ensures Less(a, b) || Less(b, a)
  {
    if a != [] && b != [] && a[0] == b[0] {
      assert a == [a[0]] + a[1..] && b == [b[0]] + b[1..];
      LessTotal(a[1..], b[1..]);
    }
  }

  lemma LessAsymmetric(a: string, b: string)
    requires Less(a, b)
    ensures !Less(b, a)
  {
    if Less(b, a) {
      LessTransitive(a, b, a);
      LessIrreflexive(a);
    }
  }

  /** Every element is smaller than every later one: sorted and free of duplicates. */
  ghost predicate StrictlyAscending(s: seq<string>) {
    forall i, j :: 0 <= i < j < |s| ==> Less(s[i], s[j])
  }

  lemma AllAboveHead(x: string, s: seq<string>)
    requires StrictlyAscending(s) && s != [] && Less(x, s[0])
    ensures forall j :: 0 <= j < |s| ==> Less(x, s[j])
  {
    forall j | 0 < j < |s| ensures Less(x, s[j]) {
      LessTransitive(x, s[0], s[j]);
    }
  }

  /** One step of sorting a list of distinct strings: put `x` into its place in `s`,
      keeping the order strict (nothing is inserted if `x` is already there). */
  function Insert(s: seq<string>, x: string): (r: seq<string>)
    requires StrictlyAscending(s)
    ensures StrictlyAscending(r)
    ensures forall y :: y in r <==> y == x || y in s
    decreases |s|
  {
    if s == [] then [x]
    else if x == s[0] then s
    else if Less(x, s[0]) then
      AllAboveHead(x, s);
      [x] + s
    else
      LessTotal(x, s[0]);
      var t := Insert(s[1..], x);
      assert forall y :: y in t ==> Less(s[0], y) by {
        forall y | y in t ensures Less(s[0], y) {
          if y != x {
            var j :| 1 <= j < |s| && s[j] == y;
          }
        }
      }
      [s[0]] + t
  }

  /** Two strictly ascending lists with the same elements are the same list, so a
      sorted list of distinct strings is determined by its set of elements. */
  lemma {:induction false} AscendingUnique(a: seq<string>, b: seq<string>)
    requires StrictlyAscending(a) && StrictlyAscending(b)
    requires forall y :: y in a <==> y in b
    ensures a == b
  {
    assert a != [] ==> a[0] in a;
    assert b != [] ==> b[0] in b;
    if a != [] && b != [] {
      assert a[0] == b[0] by {
        if a[0] != b[0] {
          HeadIsLeast(a, b[0]);
          HeadIsLeast(b, a[0]);
          LessAsymmetric(a[0], b[0]);
        }
      }
      forall y ensures y in a[1..] <==> y in b[1..] {
        NotHeadInTail(a, y);
        NotHeadInTail(b, y);
      }
      AscendingUnique(a[1..], b[1..]);
    }
  }

  lemma HeadIsLeast(s: seq<string>, y: string)
    requires StrictlyAscending(s) && s != [] && y in s && y != s[0]
    ensures Less(s[0], y)
  {
  }

  lemma NotHeadInTail(s: seq<string>, y: string)
    requires StrictlyAscending(s) && s != []
    ensures y in s[1..] <==> y in s && y != s[0]
  {
    if y in s[1..] {
      var j :| 1 <= j < |s| && s[j] == y;
      LessIrreflexive(y);
    }
  }

  // ---------------------------------------------------------------------------
  // Array.prototype.filter
  // ---------------------------------------------------------------------------

  /** `a` can be obtained from `b` by deleting elements: it keeps `b`'s order. */
  ghost predicate IsSubsequence<T>(a: seq<T>, b: seq<T>)
    decreases |b|
  {
    if a == [] then true
    else if b == [] then false
    else (a[0] == b[0] && IsSubsequence(a[1..], b[1..])) || IsSubsequence(a, b[1..])
  }

  /** `s.filter(p)`: each element occurs as often as in `s` if it satisfies `p`, and not at all otherwise. */
  function Keep<T>(s: seq<T>, p: T -> bool): (r: seq<T>)
    ensures |r| <= |s|
    ensures forall k :: 0 <= k < |r| ==> p(r[k])
  {
    if s == [] then []
    else (if p(s[0]) then [s[0]] else []) + Keep(s[1..], p)
  }

  /** Each element occurs in `s.filter(p)` as often as in `s` if it satisfies `p`, and not at all otherwise. */
  lemma {:induction false} KeepCount<T>(s: seq<T>, p: T -> bool, x: T)
    ensures multiset(Keep(s, p))[x] == if p(x) then multiset(s)[x] else 0
  {
    if s != [] {
      assert s == [s[0]] + s[1..];
      KeepCount(s[1..], p, x);
    }
  }

  /** An element of `s` that satisfies `p` survives the filter. */
  lemma KeepMember<T>(s: seq<T>, p: T -> bool, x: T)
    requires x in s && p(x)
    ensures x in Keep(s, p)
  {
    KeepCount(s, p, x);
    assert x in multiset(Keep(s, p));
  }

  /** The elements `filter` keeps stay in their original order. */
  lemma {:induction false} KeepSubsequence<T>(s: seq<T>, p: T -> bool)
    ensures IsSubsequence(Keep(s, p), s)
  {
    if s != [] {
      KeepSubsequence(s[1..], p);
      var t := Keep(s[1..], p);
      if p(s[0]) {
        assert Keep(s, p) == [s[0]] + t;
        assert ([s[0]] + t)[1..] == t;
      } else {
        assert Keep(s, p) == t;
        if t != [] { assert IsSubsequence(t, s[1..]); }
      }
    }
  }

  /** Filtering a concatenation filters each part. */
  lemma {:induction false} KeepConcat<T>(a: seq<T>, b: seq<T>, p: T -> bool)
    ensures Keep(a + b, p) == Keep(a, p) + Keep(b, p)
  {
    if a != [] {
      var h := if p(a[0]) then [a[0]] else [];
      assert (a + b)[0] == a[0] && (a + b)[1..] == a[1..] + b;
      assert Keep(a + b, p) == h + Keep(a[1..] + b, p);
      KeepConcat(a[1..], b, p);
      assert Keep(a, p) == h + Keep(a[1..], p);
    } else {
      assert a + b == b;
    }
  }
}
