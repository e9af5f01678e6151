/**
 * The frame both keyword fallbacks of generate-svg.ts return: a 500x300
 * canvas with a background rectangle, the category's elements, the
 * category's title near the bottom and a banner at the top.
 */
module FallbackFrame {
  import opened Text
  import Validation
  import SvgExtraction

  /** What every fallback begins with. */
  const CanvasPrefix := SvgExtraction.OpenTag + " width=\"500\" height=\"300\" viewBox=\"0 0 500 300\""

  const SvgOpenTag := CanvasPrefix + " xmlns=\"http://www.w3.org/2000/svg\">"
  const Indent := "\n        "
  const BackgroundSize := " width=\"100%\" height=\"100%\" fill=\""
  /** `<rect width="100%" height="100%" fill="hsl(var(--background))"/>` */
  const BackgroundRect := Validation.RectTag + BackgroundSize + Validation.ThemeColorMarker + "(--background))\"/>"
  const TitleOpen := "<text x=\"250\" y=\"270\" text-anchor=\"middle\" fill=\"hsl(var(--muted-foreground))\" font-size=\"12\">"
  const BannerOpen := "<text x=\"250\" y=\"30\" text-anchor=\"middle\" fill=\"hsl(var(--foreground))\" font-size=\"14\" font-weight=\"bold\">"

  /** Whatever opens the canvas opens an svg element. */
  lemma CanvasOpensSvg(s: string)
    requires StartsWith(s, CanvasPrefix)
    ensures StartsWith(s, SvgExtraction.OpenTag)
  {
    StartsWithItself(SvgExtraction.OpenTag, " width=\"500\" height=\"300\" viewBox=\"0 0 500 300\"");
    assert s[..4] == s[..|CanvasPrefix|][..4];
  }

  /** Everything after the background rectangle. */
  function Body(elements: string, title: string, banner: string): string {
    Indent + elements + Indent + TitleOpen + title + Tail(banner)
  }

  /** Everything after the title. */
  function Tail(banner: string): string {
    "</text>" + Indent + BannerOpen + banner + "</text>\n      " + SvgExtraction.CloseTag
  }

  function Frame(elements: string, title: string, banner: string): string {
    SvgOpenTag + Indent + BackgroundRect + Body(elements, title, banner)
  }

  /** A frame opens the 500x300 canvas and closes the svg element. */
  lemma FrameShape(elements: string, title: string, banner: string)
    ensures StartsWith(Frame(elements, title, banner), CanvasPrefix)
    ensures EndsWith(Frame(elements, title, banner), SvgExtraction.CloseTag)
  {
    var body := Body(elements, title, banner);
    StartsWithItself(CanvasPrefix, " xmlns=\"http://www.w3.org/2000/svg\">");
    StartsWithAppend(SvgOpenTag, Indent, CanvasPrefix);
    StartsWithAppend(SvgOpenTag + Indent, BackgroundRect, CanvasPrefix);
    StartsWithAppend(SvgOpenTag + Indent + BackgroundRect, body, CanvasPrefix);
    EndsWithItself("</text>" + Indent + BannerOpen + banner + "</text>\n      ", SvgExtraction.CloseTag);
    EndsWithPrepend(Indent + elements + Indent + TitleOpen + title, Tail(banner), SvgExtraction.CloseTag);
    EndsWithPrepend(SvgOpenTag + Indent + BackgroundRect, body, SvgExtraction.CloseTag);
  }

  /** A frame holds a rectangle and a theme colour, so it passes the strict check. */
  lemma FramePassesStrictCheck(elements: string, title: string, banner: string)
    ensures Validation.PassesStrictCheck(Frame(elements, title, banner))
  {
    var f := Frame(elements, title, banner);
    var marker := Validation.ThemeColorMarker;
    var before := SvgOpenTag + Indent;
    var body := Body(elements, title, banner);
    OccursAtStart(Validation.RectTag, BackgroundSize + marker + "(--background))\"/>");
    assert BackgroundRect == Validation.RectTag + (BackgroundSize + marker + "(--background))\"/>");
    OccursInContext(before, BackgroundRect, body, Validation.RectTag, 0);
    OccursAtStart(marker, "(--background))\"/>");
    OccursInContext(Validation.RectTag + BackgroundSize, marker, "(--background))\"/>", marker, 0);
    OccursInContext(before, BackgroundRect, body, marker, |Validation.RectTag + BackgroundSize|);
    Validation.RectWithThemeColorPassesStrictCheck(f);
  }

  lemma OccursAtStart(pat: string, rest: string)
    ensures OccursAt(pat + rest, pat, 0)
  {
    assert (pat + rest)[0..|pat|] == pat;
  }

  /** Counting from the end, the frame shows the title right before the tail. */
  lemma FrameShowsTitle(elements: string, title: string, banner: string, k: nat)
    requires 1 <= k <= |title|
    ensures var f := Frame(elements, title, banner);
      f[|f| - |Tail(banner)| - k] == title[|title| - k]
  {
    var head := SvgOpenTag + Indent + BackgroundRect;
    var lead := Indent + elements + Indent + TitleOpen;
    var body := Body(elements, title, banner);
    assert body == lead + title + Tail(banner);
    assert body[|lead| + |title| - k] == title[|title| - k];
    assert (head + body)[|head| + |lead| + |title| - k] == body[|lead| + |title| - k];
  }

  /**
   * Two frames with the same banner differ when their titles differ at the
   * same distance from their ends.
   */
  lemma FramesDifferByTitle(e1: string, t1: string, e2: string, t2: string, banner: string, k: nat)
    requires 1 <= k <= |t1| && k <= |t2|
    requires t1[|t1| - k] != t2[|t2| - k]
    ensures Frame(e1, t1, banner) != Frame(e2, t2, banner)
  {
    FrameShowsTitle(e1, t1, banner, k);
    FrameShowsTitle(e2, t2, banner, k);
  }
}
