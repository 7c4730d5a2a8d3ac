/**
 * Character classes and the handful of string operations the recommender
 * applies to titles, names and queries: lower-casing, stripping, literal
 * substring search and the maximal run of a character class that a regular
 * expression's greedy repeat consumes.
 */
module Text {

  /** The characters Python's `str.isspace` accepts; `\s` in a `re` pattern over
      `str` and `str.strip()` without arguments both use this set. */
  predicate IsSpace(c: char) {
    || c == ' '
    || ('\t' <= c <= '\r')
    || ('\U{1C}' <= c <= '\U{1F}')
    || c == '\U{85}' || c == '\U{A0}' || c == '\U{1680}'
    || ('\U{2000}' <= c <= '\U{200A}')
    || c == '\U{2028}' || c == '\U{2029}' || c == '\U{202F}' || c == '\U{205F}' || c == '\U{3000}'
  }

  /** What `.` in a regular expression matches without the DOTALL flag. */
  predicate NotNewline(c: char) {
    c != '\n'
  }

  /** `\w` restricted to ASCII: letters, digits and underscore. */
  predicate IsWordChar(c: char) {
    ('a' <= c <= 'z') || ('A' <= c <= 'Z') || ('0' <= c <= '9') || c == '_'
  }

  /** The class `[a-z .'-]` the person patterns capture names with. */
  predicate IsNameChar(c: char) {
    ('a' <= c <= 'z') || c == ' ' || c == '.' || c == '\'' || c == '-'
  }

  /** `str.lower()` on ASCII letters. */
  function LowerChar(c: char): (r: char)
    ensures 'A' <= c <= 'Z' ==> 'a' <= r <= 'z' && r as int == c as int - 'A' as int + 'a' as int
    ensures !('A' <= c <= 'Z') ==> r == c
  {
    if 'A' <= c <= 'Z' then (c as int - 'A' as int + 'a' as int) as char else c
  }

  /** `str.lower()`: each character lower-cased on its own. */
  function Lower(s: string): (r: string)
    ensures |r| == |s|
    ensures forall i :: 0 <= i < |s| ==> r[i] == LowerChar(s[i])
  {
    seq(|s|, i requires 0 <= i < |s| => LowerChar(s[i]))
  }

  lemma LowerCharIdempotent(c: char)
    ensures LowerChar(LowerChar(c)) == LowerChar(c)
  {
  }

  /** Lower-casing twice is lower-casing once. */
  lemma LowerIdempotent(s: string)
    ensures Lower(Lower(s)) == Lower(s)
  {
    var l := Lower(s);
    forall i | 0 <= i < |s| ensures Lower(l)[i] == l[i] {
      assert Lower(l)[i] == LowerChar(l[i]);
    }
  }

  /** Every character of `s` from `i` (inclusive) to `j` (exclusive) is in class `p`. */
  predicate AllIn(s: string, i: nat, j: nat, p: char -> bool) {
    j <= |s| && forall k :: i <= k < j ==> p(s[k])
  }

  /** The length of the longest run of class-`p` characters starting at `i`:
      what a greedy `p+` or `p*` consumes before it backs off. */
  function Run(s: string, i: nat, p: char -> bool): (n: nat)
    decreases |s| - i
    ensures n > 0 ==> i + n <= |s|
    ensures forall k :: i <= k < i + n ==> k < |s| && p(s[k])
    ensures i + n < |s| ==> !p(s[i + n])
  {
    if i < |s| && p(s[i]) then 1 + Run(s, i + 1, p) else 0
  }

  /** A span from `i` is all of class `p` exactly when it fits inside the run from `i`. */
  lemma RunCovers(s: string, i: nat, j: nat, p: char -> bool)
    requires i <= j <= |s|
    ensures AllIn(s, i, j, p) <==> j <= i + Run(s, i, p)
  {
    var n := Run(s, i, p);
    if j > i + n {
      assert i + n < |s| && !p(s[i + n]);
    }
  }

  // ---- stripping ----

  /** The length of the longest run of class-`p` characters ending just
      before `j`. */
  function RunBack(s: string, j: nat, p: char -> bool): (n: nat)
    requires j <= |s|
    ensures n <= j
    ensures forall k :: j - n <= k < j ==> p(s[k])
    ensures n < j ==> !p(s[j - n - 1])
  {
    if j > 0 && p(s[j - 1]) then 1 + RunBack(s, j - 1, p) else 0
  }

  /** A run of class `p` from `i` that stops at the end or before a
      character outside `p` is the run from `i`. */
  lemma RunIs(s: string, i: nat, n: nat, p: char -> bool)
    requires i + n <= |s| && AllIn(s, i, i + n, p)
    requires i + n < |s| ==> !p(s[i + n])
    ensures Run(s, i, p) == n
  {
  }

  /** `lstrip()`: `s` from its first character that is not white space. */
  function TrimLeft(s: string): (r: string)
    ensures |r| <= |s| && r == s[|s| - |r|..]
    ensures forall k :: 0 <= k < |s| - |r| ==> IsSpace(s[k])
    ensures r == [] || !IsSpace(r[0])
  {
    s[Run(s, 0, IsSpace)..]
  }

  /** `rstrip()`: `s` up to and including its last character that is not white space. */
  function TrimRight(s: string): (r: string)
    ensures |r| <= |s| && r == s[..|r|]
    ensures forall k :: |r| <= k < |s| ==> IsSpace(s[k])
    ensures r == [] || !IsSpace(r[|r| - 1])
  {
    s[..|s| - RunBack(s, |s|, IsSpace)]
  }

  /** `r` is the slice of `s` from `a` and everything outside it is white space. */
  predicate StrippedAt(s: string, a: nat, r: string) {
    && a + |r| <= |s| && r == s[a..a + |r|]
    && (forall k :: 0 <= k < a ==> IsSpace(s[k]))
    && (forall k :: a + |r| <= k < |s| ==> IsSpace(s[k]))
  }

  /** A prefix of the suffix of `s` from `a` is the slice of `s` from `a`. */
  lemma PrefixOfSuffix(s: string, a: nat, l: string, r: string)
    requires a <= |s| && l == s[a..] && |r| <= |l| && r == l[..|r|]
    ensures r == s[a..a + |r|]
  {
    forall k | 0 <= k < |r| ensures r[k] == s[a + k] {
      assert r[k] == l[k];
    }
  }

  /** White space at the end of the suffix of `s` from `a` is white space at the end of `s`. */
  lemma SpaceAfterInSuffix(s: string, a: nat, l: string, n: nat)
    requires a <= |s| && l == s[a..]
    requires forall k :: n <= k < |l| ==> IsSpace(l[k])
    ensures forall k :: a + n <= k < |s| ==> IsSpace(s[k])
  {
    forall k | a + n <= k < |s| ensures IsSpace(s[k]) {
      assert s[k] == l[k - a];
    }
  }

  /** Trimming both ends leaves the slice of `s` after its leading white
      space, with nothing but white space after it, and no white space at
      either of its own ends. */
  lemma TrimBoth(s: string)
    ensures StrippedAt(s, |s| - |TrimLeft(s)|, TrimRight(TrimLeft(s)))
    ensures var r := TrimRight(TrimLeft(s)); r == [] || (!IsSpace(r[0]) && !IsSpace(r[|r| - 1]))
  {
    var l := TrimLeft(s);
    var r := TrimRight(l);
    var a := |s| - |l|;
    PrefixOfSuffix(s, a, l, r);
    SpaceAfterInSuffix(s, a, l, |r|);
    if r != [] {
      assert r[0] == l[0];
    }
  }

  /** `str.strip()`: a slice of `s` whose removed ends are all white space and
      whose own ends are not. */
  function Strip(s: string): (r: string)
    ensures exists a :: StrippedAt(s, a, r)
    ensures r == [] || (!IsSpace(r[0]) && !IsSpace(r[|r| - 1]))
  {
    TrimBoth(s);
    TrimRight(TrimLeft(s))
  }

  /** Leading white space is trimmed from the first part of a concatenation
      when the second part starts with something else. */
  lemma TrimLeftAppend(a: string, b: string)
    requires b != [] && !IsSpace(b[0])
    ensures TrimLeft(a + b) == TrimLeft(a) + b
  {
    var n := Run(a, 0, IsSpace);
    assert (a + b)[n] == if n < |a| then a[n] else b[0];
    RunIs(a + b, 0, n, IsSpace);
    assert (a + b)[n..] == a[n..] + b;
  }

  /** Trimming the right of a string that does not end in white space changes nothing. */
  lemma TrimRightNoSpace(s: string)
    requires s == [] || !IsSpace(s[|s| - 1])
    ensures TrimRight(s) == s
  {
    assert RunBack(s, |s|, IsSpace) == 0;
  }

  /** Stripping `t + r`, where `r` neither starts nor ends with white space,
      trims only the left of `t`. */
  lemma StripBeforeSolid(t: string, r: string)
    requires r != [] && !IsSpace(r[0]) && !IsSpace(r[|r| - 1])
    ensures Strip(t + r) == TrimLeft(t) + r
  {
    TrimLeftAppend(t, r);
    var l := TrimLeft(t) + r;
    assert l[|l| - 1] == r[|r| - 1];
    TrimRightNoSpace(l);
  }

  /** Stripping a string with no white space at its ends changes nothing. */
  lemma StripNoSpace(s: string)
    requires s == [] || (!IsSpace(s[0]) && !IsSpace(s[|s| - 1]))
    ensures Strip(s) == s
  {
    assert TrimLeft(s) == s;
    assert TrimRight(s) == s;
  }

  // ---- literal search ----

  /** `lit` occurs in `s` at position `i`. */
  predicate StartsAt(s: string, i: int, lit: string) {
    0 <= i && i + |lit| <= |s| && s[i..i + |lit|] == lit
  }

  /** The literal substring test `needle in hay` (and `str.contains` of a
      pattern without metacharacters). */
  predicate Contains(hay: string, needle: string) {
    exists i :: 0 <= i <= |hay| - |needle| && StartsAt(hay, i, needle)
  }

  /** What occurs in `x` occurs in `x + y`. */
  lemma ContainsInLeft(x: string, y: string, n: string)
    requires Contains(x, n)
    ensures Contains(x + y, n)
  {
    var i :| 0 <= i <= |x| - |n| && StartsAt(x, i, n);
    assert (x + y)[i..i + |n|] == x[i..i + |n|];
    assert StartsAt(x + y, i, n);
  }

  /** What occurs in `y` occurs in `x + y`. */
  lemma ContainsInRight(x: string, y: string, n: string)
    requires Contains(y, n)
    ensures Contains(x + y, n)
  {
    var i :| 0 <= i <= |y| - |n| && StartsAt(y, i, n);
    assert (x + y)[|x| + i..|x| + i + |n|] == y[i..i + |n|];
    assert StartsAt(x + y, |x| + i, n);
  }

  /** `x + y` ends with `y`. */
  lemma ContainsEnd(x: string, y: string)
    ensures Contains(x + y, y)
    ensures (x + y)[|x + y| - |y|..] == y
  {
    assert (x + y)[|x|..] == y;
    assert StartsAt(x + y, |x|, y);
  }

  /** A prefix of `x` is a prefix of `x + y`. */
  lemma StartsInLeft(x: string, y: string, n: string)
    requires StartsAt(x, 0, n)
    ensures StartsAt(x + y, 0, n)
  {
    assert (x + y)[..|n|] == x[..|n|];
  }

  /** `x` followed by a prefix of `y` is a prefix of `x + y`. */
  lemma PrefixJoin(x: string, y: string, n: string)
    requires StartsAt(y, 0, n)
    ensures StartsAt(x + y, 0, x + n)
  {
    assert (x + y)[..|x| + |n|] == x + y[..|n|];
  }

  /** `\b` at position `p`: exactly one of the characters around `p` is a word character. */
  predicate WordBoundary(s: string, p: int) {
    (0 < p <= |s| && IsWordChar(s[p - 1])) != (0 <= p < |s| && IsWordChar(s[p]))
  }

  /** `$` without MULTILINE: the end of the string, or just before a final newline. */
  predicate EndAnchor(s: string, p: int) {
    p == |s| || (0 <= p == |s| - 1 && s[p] == '\n')
  }
}
