/**
 * String primitives the post-processing is built from: substring search
 * (`indexOf` / `includes`), prefix and suffix tests, ASCII case folding as
 * a case-insensitive regular expression performs it, and the part of
 * `toLowerCase` that the keyword tests can observe.
 */
module Text {
  import opened Wrappers

  /** `pat` occurs in `s` starting at index `i`. */
  predicate OccursAt(s: string, pat: string, i: nat) {
    i + |pat| <= |s| && s[i..i + |pat|] == pat
  }

  /** The least index at or after `from` where `pat` occurs in `s`, if any. */
  function IndexFrom(s: string, pat: string, from: nat): (r: Option<nat>)
    ensures r.Some? ==> from <= r.value && OccursAt(s, pat, r.value)
    ensures r.Some? ==> forall j: nat :: from <= j < r.value ==> !OccursAt(s, pat, j)
    ensures r.None? ==> forall j: nat :: from <= j ==> !OccursAt(s, pat, j)
    decreases |s| - from
  {
    if from + |pat| > |s| then None
    else if OccursAt(s, pat, from) then Some(from)
    else IndexFrom(s, pat, from + 1)
  }

  /** `s.includes(pat)`. */
  predicate Contains(s: string, pat: string)
    ensures Contains(s, pat) <==> exists i: nat :: OccursAt(s, pat, i)
  {
    var r := IndexFrom(s, pat, 0);
    assert r.Some? ==> OccursAt(s, pat, r.value);
    r.Some?
  }

  predicate StartsWith(s: string, prefix: string) {
    |prefix| <= |s| && s[..|prefix|] == prefix
  }

  predicate EndsWith(s: string, suffix: string) {
    |suffix| <= |s| && s[|s| - |suffix|..] == suffix
  }

  lemma StartsWithAppend(a: string, b: string, prefix: string)
    requires StartsWith(a, prefix)
    ensures StartsWith(a + b, prefix)
  {
    assert (a + b)[..|prefix|] == a[..|prefix|];
  }

  lemma EndsWithPrepend(a: string, b: string, suffix: string)
    requires EndsWith(b, suffix)
    ensures EndsWith(a + b, suffix)
  {
    assert (a + b)[|a + b| - |suffix|..] == b[|b| - |suffix|..];
  }

  lemma StartsWithItself(prefix: string, rest: string)
    ensures StartsWith(prefix + rest, prefix)
  {
    assert (prefix + rest)[..|prefix|] == prefix;
  }

  lemma EndsWithItself(rest: string, suffix: string)
    ensures EndsWith(rest + suffix, suffix)
  {
    assert (rest + suffix)[|rest + suffix| - |suffix|..] == suffix;
  }

  /** An occurrence inside `b` is an occurrence inside `a + b + c`, shifted by `|a|`. */
  lemma OccursInContext(a: string, b: string, c: string, pat: string, i: nat)
    requires OccursAt(b, pat, i)
    ensures OccursAt(a + b + c, pat, |a| + i)
  {
    assert (a + b + c)[|a| + i..|a| + i + |pat|] == b[i..i + |pat|];
  }

  /** An occurrence inside a slice is an occurrence in the whole string, and conversely. */
  lemma OccursInSlice(s: string, lo: nat, hi: nat, pat: string, k: nat)
    requires lo <= hi <= |s|
    requires k + |pat| <= hi - lo
    ensures OccursAt(s[lo..hi], pat, k) <==> OccursAt(s, pat, lo + k)
  {
    var a, b := s[lo..hi][k..k + |pat|], s[lo + k..lo + k + |pat|];
    assert |a| == |b|;
    assert forall j :: 0 <= j < |a| ==> a[j] == s[lo + k + j] == b[j];
    assert a == b;
  }

  /** The ASCII letter case mapping; every other character is its own lower case. */
  function AsciiLower(c: char): (d: char)
    ensures IsAsciiUpper(c) ==> 'a' <= d <= 'z' && d as int - c as int == 32
    ensures !IsAsciiUpper(c) ==> d == c
  {
    if 'A' <= c <= 'Z' then (c as int + 32) as char else c
  }

  /** Is `c` an upper-case ASCII letter? */
  predicate IsAsciiUpper(c: char) {
    'A' <= c <= 'Z'
  }

  /**
   * The text with its ASCII letters folded to lower case: no upper-case
   * ASCII letter is left, every other character is kept in its place, and
   * each upper-case letter is replaced by a letter 32 code points above it.
   */
  function FoldAscii(s: string): (r: string)
    ensures |r| == |s|
    ensures forall i :: 0 <= i < |r| ==> !IsAsciiUpper(r[i])
    ensures forall i :: 0 <= i < |s| && !IsAsciiUpper(s[i]) ==> r[i] == s[i]
    ensures forall i :: 0 <= i < |s| && IsAsciiUpper(s[i]) ==> r[i] as int == s[i] as int + 32
    ensures forall i :: 0 <= i < |s| ==> r[i] == AsciiLower(s[i])
  {
    seq(|s|, i requires 0 <= i < |s| => AsciiLower(s[i]))
  }

  /**
   * `pat` occurs in `s` at `i` when characters are compared after ASCII
   * case folding. For a pattern of ASCII characters this is how the
   * case-insensitive flag of a non-Unicode JavaScript regular expression
   * compares: canonicalisation never maps a character above U+007F to an
   * ASCII one, so an ASCII pattern character matches only itself and its
   * ASCII case partner. A non-ASCII pattern character (`É` against `é`)
   * would be compared more loosely by JavaScript than here; every pattern
   * in generate-svg.ts and the flows is ASCII.
   */
  predicate OccursIgnoringCaseAt(s: string, pat: string, i: nat) {
    i + |pat| <= |s| && forall k :: 0 <= k < |pat| ==> AsciiLower(s[i + k]) == AsciiLower(pat[k])
  }

  /** Case-insensitive matching is matching of the folded strings. */
  lemma OccursIgnoringCaseIsFoldedOccurrence(s: string, pat: string, i: nat)
    ensures OccursIgnoringCaseAt(s, pat, i) <==> OccursAt(FoldAscii(s), FoldAscii(pat), i)
  {
    var fs, fp := FoldAscii(s), FoldAscii(pat);
    if i + |pat| <= |s| {
      var w := fs[i..i + |pat|];
      assert forall k :: 0 <= k < |pat| ==> w[k] == AsciiLower(s[i + k]);
      if OccursIgnoringCaseAt(s, pat, i) {
        assert forall k :: 0 <= k < |pat| ==> w[k] == fp[k];
        assert w == fp;
      }
    }
  }

  /** A search for `pat` in `s` under the case-insensitive flag. */
  predicate ContainsIgnoringAsciiCase(s: string, pat: string)
    ensures ContainsIgnoringAsciiCase(s, pat) <==> exists i: nat :: OccursIgnoringCaseAt(s, pat, i)
  {
    var fs, fp := FoldAscii(s), FoldAscii(pat);
    forall i: nat ensures OccursIgnoringCaseAt(s, pat, i) <==> OccursAt(fs, fp, i) {
      OccursIgnoringCaseIsFoldedOccurrence(s, pat, i);
    }
    Contains(fs, fp)
  }

  /** A case-sensitive occurrence is also a case-insensitive one. */
  lemma ContainsIsContainsIgnoringCase(s: string, pat: string)
    requires Contains(s, pat)
    ensures ContainsIgnoringAsciiCase(s, pat)
  {
    var i: nat :| OccursAt(s, pat, i);
    assert forall k :: 0 <= k < |pat| ==> s[i..i + |pat|][k] == pat[k];
    assert OccursIgnoringCaseAt(s, pat, i);
  }

  /** COMBINING DOT ABOVE, which `toLowerCase` leaves after the i of a dotted capital I. */
  const CombiningDotAbove: char := '\U{0307}'

  /**
   * `toLowerCase` on one character, for every character whose lower case
   * contains a letter of the Turkish keywords (a-z, ç, ğ, ı, ö, ş, ü):
   * A-Z, the Kelvin sign, Ç Ğ Ö Ş Ü, and dotted capital İ, which becomes
   * two characters. Every other character is kept as it is; its lower
   * case holds no keyword letter either, so no keyword test can tell.
   */
  function LowerChar(c: char): (r: string)
    ensures 1 <= |r| <= 2
    ensures forall i :: 0 <= i < |r| ==> !IsAsciiUpper(r[i])
    ensures c < '\U{80}' ==> r == [AsciiLower(c)]
  {
    if 'A' <= c <= 'Z' then [AsciiLower(c)]
    else if c == 'İ' then ['i', CombiningDotAbove]
    else if c == '\U{212A}' then "k"
    else if c == 'Ç' then "ç"
    else if c == 'Ğ' then "ğ"
    else if c == 'Ö' then "ö"
    else if c == 'Ş' then "ş"
    else if c == 'Ü' then "ü"
    else [c]
  }

  /** `toLowerCase`, character by character (see `LowerChar`). */
  function ToLower(s: string): (r: string)
    ensures |s| <= |r| <= 2 * |s|
    ensures forall i :: 0 <= i < |r| ==> !IsAsciiUpper(r[i])
  {
    if s == [] then []
    else
      var head, tail := LowerChar(s[0]), ToLower(s[1..]);
      assert forall i :: |head| <= i < |head + tail| ==> (head + tail)[i] == tail[i - |head|];
      head + tail
  }

  /** Every character of `s` is ASCII. */
  predicate IsAscii(s: string) {
    forall i :: 0 <= i < |s| ==> s[i] < '\U{80}'
  }

  /** On ASCII text `toLowerCase` is exactly ASCII case folding. */
  lemma {:induction false} ToLowerOfAsciiIsFold(s: string)
    requires IsAscii(s)
    ensures ToLower(s) == FoldAscii(s)
  {
    if s != [] {
      ToLowerOfAsciiIsFold(s[1..]);
      var f := FoldAscii(s);
      assert f == [AsciiLower(s[0])] + FoldAscii(s[1..]);
    }
  }

  /** Lower-casing distributes over concatenation. */
  lemma {:induction false} ToLowerAppend(a: string, b: string)
    ensures ToLower(a + b) == ToLower(a) + ToLower(b)
  {
    if a == [] {
      assert a + b == b;
    } else {
      assert (a + b)[0] == a[0];
      assert (a + b)[1..] == a[1..] + b;
      ToLowerAppend(a[1..], b);
    }
  }

  /** Lower-casing a lower-cased string changes nothing, as with `toLowerCase`. */
  lemma {:induction false} ToLowerIdempotent(s: string)
    ensures ToLower(ToLower(s)) == ToLower(s)
  {
    if s != [] {
      var l := LowerChar(s[0]);
      ToLowerAppend(l, ToLower(s[1..]));
      ToLowerIdempotent(s[1..]);
      LowerCharIdempotent(s[0]);
    }
  }

  /** A lower-cased character lower-cases to itself. */
  lemma LowerCharIdempotent(c: char)
    ensures ToLower(LowerChar(c)) == LowerChar(c)
  {
  }
}
