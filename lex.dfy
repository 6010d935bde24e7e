/** Building blocks for the hand-written matchers that stand in for the parsers' Go
    regular expressions: character classes, case-insensitive literals, and the
    leftmost search that Go's `FindStringSubmatch` performs. */
module Lex {
  import opened Wrappers
  import opened GoStrings

  /** `\w`: ASCII letters, digits and underscore. */
  predicate IsWordChar(c: char)
  {
    'a' <= c <= 'z' || 'A' <= c <= 'Z' || '0' <= c <= '9' || c == '_'
  }

  /** `\w` inside a `(?i)` pattern. Go case-folds the class, which adds the two
      non-ASCII characters that fold to ASCII letters: U+017F (long s) and U+212A
      (Kelvin sign). */
  predicate IsFoldedWordChar(c: char)
  {
    IsWordChar(c) || c == '\U{017F}' || c == '\U{212A}'
  }

  /** `\s`: Go's Perl class `[\t\n\f\r ]`. */
  predicate IsRegexSpace(c: char)
  {
    c == '\t' || c == '\n' || c == '\U{000C}' || c == '\r' || c == ' '
  }

  function AsciiLower(c: char): char
  {
    if 'A' <= c <= 'Z' then (c as int + 32) as char else c
  }

  /** Under `(?i)`, the ASCII pattern character `lit` matches `c`. */
  predicate FoldEq(c: char, lit: char)
  {
    || AsciiLower(c) == AsciiLower(lit)
    || (AsciiLower(lit) == 'k' && c == '\U{212A}')
    || (AsciiLower(lit) == 's' && c == '\U{017F}')
  }

  /** The literal `lit` occurs in `s` at position `i`. */
  predicate At(s: string, i: nat, lit: string)
  {
    i + |lit| <= |s| && s[i..i + |lit|] == lit
  }

  /** The literal `lit` occurs in `s` at position `i`, compared as a `(?i)` pattern. */
  predicate FoldAt(s: string, i: nat, lit: string)
  {
    i + |lit| <= |s| && forall j :: 0 <= j < |lit| ==> FoldEq(s[i + j], lit[j])
  }

  /** Length of the maximal run of characters satisfying `p` that starts at `i`:
      what a greedy `p+` or `p*` consumes there. */
  function Run(s: string, i: nat, p: char -> bool): (n: nat)
    ensures n == 0 || i + n <= |s|
    ensures forall j :: i <= j < i + n ==> p(s[j])
    ensures i + n < |s| ==> !p(s[i + n])
  {
    if i <= |s| then
      var n := PrefixLength(s[i..], p);
      assert forall j :: i <= j < i + n ==> s[j] == s[i..][j - i];
      n
    else 0
  }

  /** The first position at or after `i` holding `c`. */
  function IndexFrom(s: string, i: nat, c: char): (r: Option<nat>)
    ensures r.Some? ==> i <= r.value < |s| && s[r.value] == c
    ensures r.Some? ==> forall j :: i <= j < r.value ==> s[j] != c
    ensures r.None? ==> forall j :: i <= j < |s| ==> s[j] != c
    decreases |s| - i
  {
    if i >= |s| then None
    else if s[i] == c then Some(i)
    else IndexFrom(s, i + 1, c)
  }

  /** The last position in `[lo, hi)` holding `c`. */
  function LastIndexIn(s: string, lo: nat, hi: nat, c: char): (r: Option<nat>)
    requires hi <= |s|
    ensures r.Some? ==> lo <= r.value < hi && s[r.value] == c
    ensures r.Some? ==> forall j :: r.value < j < hi ==> s[j] != c
    ensures r.None? ==> forall j :: lo <= j < hi ==> s[j] != c
    decreases hi
  {
    if hi <= lo then None
    else if s[hi - 1] == c then Some(hi - 1)
    else LastIndexIn(s, lo, hi - 1, c)
  }

  /** Where the line holding position `i` ends: the first newline at or after `i`,
      or the end of the text. A `.` in a Go pattern never crosses it. */
  function LineEnd(s: string, i: nat): (e: nat)
    requires i <= |s|
    ensures i <= e <= |s|
    ensures forall j :: i <= j < e ==> s[j] != '\n'
    ensures e < |s| ==> s[e] == '\n'
  {
    match IndexFrom(s, i, '\n')
    case Some(e) => e
    case None => |s|
  }

  /** The leftmost start position in `[from, n]` at which `at` matches: the position
      an unanchored Go pattern reports. */
  function FirstMatch<T>(n: nat, from: nat, at: nat -> Option<T>): (r: Option<nat>)
    ensures r.Some? ==> from <= r.value <= n && at(r.value).Some?
    ensures r.Some? ==> forall q :: from <= q < r.value ==> at(q).None?
    ensures r.None? ==> forall q :: from <= q <= n ==> at(q).None?
    decreases n + 1 - from
  {
    if from > n then None
    else if at(from).Some? then Some(from)
    else FirstMatch(n, from + 1, at)
  }

  /** Searching from `c` or from a later `i` finds the same `ch` when none lies
      between them. */
  lemma {:induction false} IndexFromSkip(s: string, c: nat, i: nat, ch: char)
    requires c <= i && forall j :: c <= j < i && j < |s| ==> s[j] != ch
    ensures IndexFrom(s, c, ch) == IndexFrom(s, i, ch)
    decreases i - c
  {
    if c < i && c < |s| {
      IndexFromSkip(s, c + 1, i, ch);
    }
  }

  /** The line holding `c` is the line holding `i` when no newline lies between. */
  lemma LineEndSkip(s: string, c: nat, i: nat)
    requires c <= i <= |s| && forall j :: c <= j < i ==> s[j] != '\n'
    ensures LineEnd(s, c) == LineEnd(s, i)
  {
    IndexFromSkip(s, c, i, '\n');
  }
  /** Every character of `w` satisfies `p`. */
  predicate AllChars(w: string, p: char -> bool)
  {
    forall j :: 0 <= j < |w| ==> p(w[j])
  }

  /** The text from `i` up to the first `c` holds no `c`. */
  lemma IndexFromSlice(s: string, i: nat, c: char)
    requires IndexFrom(s, i, c).Some?
    ensures c !in s[i..IndexFrom(s, i, c).value]
  {
    var w := s[i..IndexFrom(s, i, c).value];
    assert forall k :: 0 <= k < |w| ==> w[k] == s[i + k];
  }

  /** The text of a run holds only characters of its class. */
  lemma RunSlice(s: string, i: nat, p: char -> bool)
    requires i <= |s|
    ensures AllChars(s[i..i + Run(s, i, p)], p)
  {
    var w := s[i..i + Run(s, i, p)];
    assert forall j :: 0 <= j < |w| ==> w[j] == s[i + j];
  }

  /** A greedy run that covers exactly `w` when `w` is of the class and the next
      character, if any, is not. */
  lemma RunExact(s: string, i: nat, w: string, p: char -> bool)
    requires i + |w| <= |s| && s[i..i + |w|] == w && AllChars(w, p)
    requires i + |w| < |s| ==> !p(s[i + |w|])
    ensures Run(s, i, p) == |w|
  {
    forall j | i <= j < i + |w|
      ensures p(s[j])
    {
      assert s[j] == w[j - i];
    }
  }

  /** The first `c` at or after `i` is at `e` when `s[e]` is `c` and none lies
      before it. */
  lemma IndexFromAt(s: string, i: nat, e: nat, c: char)
    requires i <= e < |s| && s[e] == c
    requires forall j :: i <= j < e ==> s[j] != c
    ensures IndexFrom(s, i, c) == Some(e)
  {
    IndexFromSkip(s, i, e, c);
  }

  /** A word of `\w` characters, folded or not, holds no `.`. */
  lemma WordHasNoDot(w: string)
    ensures AllChars(w, IsFoldedWordChar) ==> '.' !in w
  {
    if '.' in w {
      var j :| 0 <= j < |w| && w[j] == '.';
      assert !IsFoldedWordChar(w[j]);
    }
  }

  /** The leftmost match is at `p` when the pattern matches there and nowhere
      between `from` and `p`. */
  lemma {:induction false} FirstMatchIs<T>(n: nat, from: nat, at: nat -> Option<T>, p: nat)
    requires from <= p <= n && at(p).Some?
    requires forall q :: from <= q < p ==> at(q).None?
    ensures FirstMatch(n, from, at) == Some(p)
    decreases p - from
  {
    if from < p {
      FirstMatchIs(n, from + 1, at, p);
    }
  }
}
