/**
 * The fixed placeholder card used by generate-diagram.ts and by both flows:
 * a 500x300 muted rectangle with one centred line of text.
 */
module MessageCard {
  import opened Text
  import opened FallbackFrame
  import Validation
  import SvgExtraction

  const CardOpen := CanvasPrefix + " xmlns=\"http://www.w3.org/2000/svg\" fill=\"hsl(var(--card-foreground))\">"
  /** `<rect width="100%" height="100%" fill="hsl(var(--muted))" />` */
  const CardRect := Validation.RectTag + BackgroundSize + Validation.ThemeColorMarker + "(--muted))\" />"
  const CaptionOpen := "<text x=\"50%\" y=\"50%\" dominant-baseline=\"middle\" text-anchor=\"middle\" font-family=\"sans-serif\" font-size=\"20px\">"

  function Caption(message: string): string {
    CaptionOpen + message + "</text>" + SvgExtraction.CloseTag
  }

  /** The card showing `message`: a 500x300 svg that passes the strict check. */
  function Card(message: string): (r: string)
    ensures StartsWith(r, CanvasPrefix) && EndsWith(r, SvgExtraction.CloseTag)
    ensures Validation.PassesStrictCheck(r)
  {
    var r := CardOpen + CardRect + Caption(message);
    CardShape(message, r);
    r
  }

  lemma CardShape(message: string, r: string)
    requires r == CardOpen + CardRect + Caption(message)
    ensures StartsWith(r, CanvasPrefix) && EndsWith(r, SvgExtraction.CloseTag)
    ensures Validation.PassesStrictCheck(r)
  {
    var caption := Caption(message);
    StartsWithItself(CanvasPrefix, " xmlns=\"http://www.w3.org/2000/svg\" fill=\"hsl(var(--card-foreground))\">");
    StartsWithAppend(CardOpen, CardRect, CanvasPrefix);
    StartsWithAppend(CardOpen + CardRect, caption, CanvasPrefix);
    EndsWithItself(CaptionOpen + message + "</text>", SvgExtraction.CloseTag);
    EndsWithPrepend(CardOpen + CardRect, caption, SvgExtraction.CloseTag);
    CardPassesStrictCheck(caption, r);
  }

  lemma CardPassesStrictCheck(caption: string, r: string)
    requires r == CardOpen + CardRect + caption
    ensures Validation.PassesStrictCheck(r)
  {
    var marker := Validation.ThemeColorMarker;
    var rest := "(--muted))\" />";
    OccursAtStart(Validation.RectTag, BackgroundSize + marker + rest);
    assert CardRect == Validation.RectTag + (BackgroundSize + marker + rest);
    OccursInContext(CardOpen, CardRect, caption, Validation.RectTag, 0);
    OccursAtStart(marker, rest);
    OccursInContext(Validation.RectTag + BackgroundSize, marker, rest, marker, 0);
    OccursInContext(CardOpen, CardRect, caption, marker, |Validation.RectTag + BackgroundSize|);
    Validation.RectWithThemeColorPassesStrictCheck(r);
  }

  /** Messages that begin with different letters give different cards. */
  lemma CardsDifferByMessage(m1: string, m2: string)
    requires m1 != [] && m2 != [] && m1[0] != m2[0]
    ensures Card(m1) != Card(m2)
  {
    FirstLetterShows(CaptionOpen, m1, "</text>", SvgExtraction.CloseTag);
    FirstLetterShows(CaptionOpen, m2, "</text>", SvgExtraction.CloseTag);
    assert Caption(m1) != Caption(m2);
    SamePrefixDifferentRest(CardOpen + CardRect, Caption(m1), Caption(m2));
  }

  lemma FirstLetterShows(head: string, m: string, t1: string, t2: string)
    requires m != []
    ensures (head + m + t1 + t2)[|head|] == m[0]
  {
  }

  lemma SamePrefixDifferentRest(head: string, a: string, b: string)
    requires a != b
    ensures head + a != head + b
  {
    assert (head + a)[|head|..] == a && (head + b)[|head|..] == b;
  }

  /** "Diagram could not be created." */
  const DiagramFailed := "Diyagram oluşturulamadı."
  /** "Visualization failed." */
  const VisualizationFailed := "Görselleştirme başarısız."
}
