/**
 * Extraction of the SVG fragment from the model's text with the regular
 * expression `/<svg[\s\S]*?<\/svg>/` (case-sensitive, no word boundary).
 * The match is specified declaratively, as JavaScript's search defines it,
 * and the search-based extraction is proved to produce exactly that match.
 */
module SvgExtraction {
  import opened Wrappers
  import opened Text

  const OpenTag := "<svg"
  const CloseTag := "</svg>"

  /**
   * `text[start..end]` matches the pattern: it begins with "<svg", ends
   * with "</svg>" that starts after the "<svg", and has anything between.
   */
  ghost predicate IsMatch(text: string, start: nat, end: nat) {
    && start + |OpenTag| + |CloseTag| <= end <= |text|
    && OccursAt(text, OpenTag, start)
    && OccursAt(text, CloseTag, end - |CloseTag|)
  }

  ghost predicate HasMatch(text: string) {
    exists start: nat, end: nat :: IsMatch(text, start, end)
  }

  /**
   * The match `String.prototype.match` returns: the leftmost start at which
   * the pattern matches at all, and from there the shortest match, since
   * `*?` is lazy.
   */
  ghost predicate IsFirstMatch(text: string, start: nat, end: nat) {
    && IsMatch(text, start, end)
    && (forall s: nat, e: nat :: IsMatch(text, s, e) ==> start <= s)
    && (forall e: nat :: IsMatch(text, start, e) ==> end <= e)
  }

  /** `fragment` is what the regular expression matches in `text`. */
  ghost predicate IsExtraction(text: string, fragment: string) {
    exists start: nat, end: nat :: IsFirstMatch(text, start, end) && fragment == text[start..end]
  }

  /** The first match is unique, so "the" match is well defined. */
  lemma FirstMatchUnique(text: string, s1: nat, e1: nat, s2: nat, e2: nat)
    requires IsFirstMatch(text, s1, e1) && IsFirstMatch(text, s2, e2)
    ensures s1 == s2 && e1 == e2
  {
  }

  /**
   * The bounds of the match: the first "<svg", then the first "</svg>"
   * that starts after it. No match exists when either search fails.
   */
  function FindSvgSpan(text: string): (r: Option<(nat, nat)>)
    ensures r.Some? ==> IsFirstMatch(text, r.value.0, r.value.1)
    ensures r.None? ==> !HasMatch(text)
  {
    match IndexFrom(text, OpenTag, 0)
    case None => None
    case Some(start) =>
      match IndexFrom(text, CloseTag, start + |OpenTag|)
      case None =>
        assert forall s: nat, e: nat :: IsMatch(text, s, e) ==> OccursAt(text, CloseTag, e - |CloseTag|) && start <= s;
        None
      case Some(close) =>
        Some((start, close + |CloseTag|))
  }

  /** `text.match(/<svg[\s\S]*?<\/svg>/)`, as the fragment it yields. */
  function ExtractSvg(text: string): (r: Option<string>)
    ensures r.Some? <==> HasMatch(text)
    ensures r.Some? ==> IsExtraction(text, r.value)
    ensures r.Some? ==> StartsWith(r.value, OpenTag) && EndsWith(r.value, CloseTag)
  {
    match FindSvgSpan(text)
    case None => None
    case Some((start, end)) =>
      var f := text[start..end];
      assert f[..|OpenTag|] == text[start..start + |OpenTag|];
      assert f[|f| - |CloseTag|..] == text[end - |CloseTag|..end];
      Some(f)
  }

  /** Extraction is exactly the regular expression's match, in both directions. */
  lemma ExtractSvgMeansFirstMatch(text: string, fragment: string)
    ensures ExtractSvg(text) == Some(fragment) <==> IsExtraction(text, fragment)
    ensures ExtractSvg(text) == None <==> !HasMatch(text)
  {
    if IsExtraction(text, fragment) {
      var s: nat, e: nat :| IsFirstMatch(text, s, e) && fragment == text[s..e];
      var span := FindSvgSpan(text);
      FirstMatchUnique(text, s, e, span.value.0, span.value.1);
    }
  }

  /**
   * An extracted fragment holds "</svg>" only at its very end: the lazy
   * quantifier stops at the first closing tag after the opening one.
   */
  lemma ExtractionClosesAtFirstCloseTag(text: string, fragment: string, k: nat)
    requires ExtractSvg(text) == Some(fragment)
    requires |OpenTag| <= k < |fragment| - |CloseTag|
    ensures !OccursAt(fragment, CloseTag, k)
  {
    var span := FindSvgSpan(text);
    var (s, e) := span.value;
    OccursInSlice(text, s, e, CloseTag, k);
    var shorter: nat := s + k + |CloseTag|;
    assert OccursAt(fragment, CloseTag, k) ==> IsMatch(text, s, shorter);
  }

  /** Extracting again from an extracted fragment yields the same fragment. */
  lemma ExtractSvgIdempotent(text: string, fragment: string)
    requires ExtractSvg(text) == Some(fragment)
    ensures ExtractSvg(fragment) == Some(fragment)
  {
    var n := |fragment|;
    assert fragment[0..n] == fragment;
    assert fragment[0..|OpenTag|] == fragment[..|OpenTag|];
    assert fragment[n - |CloseTag|..n] == fragment[n - |CloseTag|..];
    assert IsMatch(fragment, 0, n);
    forall e: nat | IsMatch(fragment, 0, e) ensures n <= e {
      if e < n {
        ExtractionClosesAtFirstCloseTag(text, fragment, e - |CloseTag|);
      }
    }
    assert IsFirstMatch(fragment, 0, n);
    ExtractSvgMeansFirstMatch(fragment, fragment);
  }
}
