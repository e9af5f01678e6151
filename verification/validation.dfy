/**
 * The heuristic checks applied to an extracted fragment: the strict check
 * (a drawing-element tag, case-insensitively, and a theme colour) and the
 * lenient check of the diagram action in generate-svg.ts.
 */
module Validation {
  import opened Text

  /** The alternatives of `/<path|<rect|<circle|<ellipse|<polygon|<polyline|<line/i`. */
  const RectTag := "<rect"
  const DrawingTags: seq<string> := ["<path", RectTag, "<circle", "<ellipse", "<polygon", "<polyline", "<line"]

  /** The reference to a theme colour variable, `hsl(var(--...))`. */
  const ThemeColorMarker := "hsl(var"

  /** The regular expression test: some drawing tag occurs, ignoring ASCII case. */
  predicate HasDrawingElements(svg: string)
    ensures HasDrawingElements(svg) <==>
      exists i, k: nat :: 0 <= i < |DrawingTags| && OccursIgnoringCaseAt(svg, DrawingTags[i], k)
  {
    exists i :: 0 <= i < |DrawingTags| && ContainsIgnoringAsciiCase(svg, DrawingTags[i])
  }

  /** `includes('hsl(var')`: the theme marker occurs somewhere, exactly as written. */
  predicate HasThemeColors(svg: string)
    ensures HasThemeColors(svg) <==> exists k: nat :: OccursAt(svg, ThemeColorMarker, k)
  {
    Contains(svg, ThemeColorMarker)
  }

  /** The check of `generateSvg` in generate-svg.ts, generate-diagram.ts and both flows. */
  predicate PassesStrictCheck(svg: string)
    ensures PassesStrictCheck(svg) <==>
      (exists i, k: nat :: 0 <= i < |DrawingTags| && OccursIgnoringCaseAt(svg, DrawingTags[i], k)) &&
      (exists k: nat :: OccursAt(svg, ThemeColorMarker, k))
  {
    HasDrawingElements(svg) && HasThemeColors(svg)
  }

  /** The three flags the lenient diagram check computes (and logs). */
  datatype DiagramChecks = DiagramChecks(hasDrawingElements: bool, hasThemeColors: bool, hasValidSvg: bool)

  function DiagramChecksOf(svg: string): (c: DiagramChecks)
    ensures HasDrawingElements(svg) && HasThemeColors(svg) ==> c.hasDrawingElements && c.hasThemeColors
    ensures LenientVerdict(c) <==> HasDrawingElements(svg) || Contains(svg, "viewBox") || Contains(svg, "width")
    ensures c.hasThemeColors <==> HasThemeColors(svg) || Contains(svg, "fill=")
  {
    DiagramChecks(
      HasDrawingElements(svg),
      HasThemeColors(svg) || Contains(svg, "fill="),
      Contains(svg, "viewBox") || Contains(svg, "width"))
  }

  /**
   * The lenient decision: a drawing tag or a `viewBox`/`width` suffices.
   * The theme-colour flag is computed but never consulted.
   */
  predicate LenientVerdict(c: DiagramChecks) {
    c.hasDrawingElements || c.hasValidSvg
  }

  /** Flipping the theme-colour flag never changes the lenient decision. */
  lemma ThemeColorsNeverDecide(c: DiagramChecks, themeColors: bool)
    ensures LenientVerdict(c.(hasThemeColors := themeColors)) == LenientVerdict(c)
  {
  }

  predicate PassesLenientCheck(svg: string)
    ensures PassesLenientCheck(svg) <==>
      HasDrawingElements(svg) || Contains(svg, "viewBox") || Contains(svg, "width")
  {
    LenientVerdict(DiagramChecksOf(svg))
  }

  /** Whatever passes the strict check passes the lenient one. */
  lemma StrictImpliesLenient(svg: string)
    requires PassesStrictCheck(svg)
    ensures PassesLenientCheck(svg)
  {
  }

  /** The drawing-tag test sees only the ASCII-folded text. */
  lemma DrawingCheckIgnoresCase(a: string, b: string)
    requires FoldAscii(a) == FoldAscii(b)
    ensures HasDrawingElements(a) == HasDrawingElements(b)
  {
  }

  /**
   * A fragment that holds "<rect" and a theme colour passes the strict
   * check; every fallback and placeholder is shown to pass this way.
   */
  lemma RectWithThemeColorPassesStrictCheck(svg: string)
    requires Contains(svg, RectTag) && Contains(svg, ThemeColorMarker)
    ensures PassesStrictCheck(svg)
  {
    ContainsIsContainsIgnoringCase(svg, RectTag);
    assert DrawingTags[1] == RectTag;
  }
}
