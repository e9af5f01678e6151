/**
 * The server action of generate-diagram.ts: strict check, and one fixed
 * card ("Diyagram oluşturulamadı.") on every failure, whatever the
 * description.
 */
module DiagramAction {
  import opened Wrappers
  import opened Text
  import opened Validation
  import SvgExtraction
  import MessageCard
  import FallbackFrame

  function Fallback(): (r: string)
    ensures StartsWith(r, SvgExtraction.OpenTag) && EndsWith(r, SvgExtraction.CloseTag)
    ensures PassesStrictCheck(r)
  {
    var r := MessageCard.Card(MessageCard.DiagramFailed);
    FallbackFrame.CanvasOpensSvg(r);
    r
  }

  /**
   * `generateDiagram(description)`. The description only reaches the
   * prompt and the error log, so the result depends on the answer alone.
   */
  function GenerateDiagram(answer: Option<string>, description: string): (r: string)
    ensures StartsWith(r, SvgExtraction.OpenTag) && EndsWith(r, SvgExtraction.CloseTag)
    ensures PassesStrictCheck(r)
    ensures r == Fallback() || (answer.Some? && SvgExtraction.IsExtraction(answer.value, r))
  {
    match answer
    case None => Fallback()
    case Some(text) =>
      match SvgExtraction.ExtractSvg(text)
      case None => Fallback()
      case Some(fragment) => if PassesStrictCheck(fragment) then fragment else Fallback()
  }

  /**
   * The result is the answer's fragment exactly when the answer is text,
   * holds a fragment, and the fragment passes the strict check.
   */
  lemma GenerateDiagramKeepsFragmentIffValid(answer: Option<string>, description: string, fragment: string)
    requires answer.Some? && SvgExtraction.IsExtraction(answer.value, fragment)
    ensures GenerateDiagram(answer, description) == fragment <==> PassesStrictCheck(fragment)
  {
    SvgExtraction.ExtractSvgMeansFirstMatch(answer.value, fragment);
  }

  /** Each failure path gives the one fixed card. */
  lemma GenerateDiagramFailurePaths(answer: Option<string>, description: string)
    ensures answer.None? ==> GenerateDiagram(answer, description) == Fallback()
    ensures (answer.Some? && !SvgExtraction.HasMatch(answer.value)) ==>
              GenerateDiagram(answer, description) == Fallback()
    ensures (answer.Some? && SvgExtraction.HasMatch(answer.value) &&
             !PassesStrictCheck(SvgExtraction.ExtractSvg(answer.value).value)) ==>
              GenerateDiagram(answer, description) == Fallback()
  {
    if answer.Some? {
      SvgExtraction.ExtractSvgMeansFirstMatch(answer.value, "");
    }
  }

  /** The description never changes the result. */
  lemma GenerateDiagramIgnoresDescription(answer: Option<string>, d1: string, d2: string)
    ensures GenerateDiagram(answer, d1) == GenerateDiagram(answer, d2)
  {
  }
}
