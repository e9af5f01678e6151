/**
 * The two server actions of generate-svg.ts. Each takes the model's answer
 * (`None` when the call threw or its `text` was not a string) and the
 * description, and always returns an svg string: the fragment found in
 * the answer when it passes the action's check, otherwise the keyword
 * fallback for the description.
 */
module SvgActions {
  import opened Wrappers
  import opened Text
  import opened Validation
  import SvgExtraction
  import SvgFallback
  import DiagramFallback
  import FallbackFrame

  /** The fragment of the answer, if the answer is text holding one. */
  function FragmentOf(answer: Option<string>): (r: Option<string>)
    ensures r.Some? <==> answer.Some? && SvgExtraction.HasMatch(answer.value)
    ensures r.Some? ==> SvgExtraction.IsExtraction(answer.value, r.value)
  {
    match answer
    case None => None
    case Some(text) => SvgExtraction.ExtractSvg(text)
  }

  /** `generateSvg(description)`: strict check, keyword fallback on every failure. */
  function GenerateSvg(answer: Option<string>, description: string): (r: string)
    ensures StartsWith(r, SvgExtraction.OpenTag) && EndsWith(r, SvgExtraction.CloseTag)
    ensures PassesStrictCheck(r)
    ensures r == SvgFallback.CreateFallbackSvg(description) ||
            (answer.Some? && SvgExtraction.IsExtraction(answer.value, r))
  {
    var fallback := SvgFallback.CreateFallbackSvg(description);
    FallbackFrame.CanvasOpensSvg(fallback);
    match FragmentOf(answer)
    case None => fallback
    case Some(fragment) => if PassesStrictCheck(fragment) then fragment else fallback
  }

  /** The answer's fragment is returned unchanged exactly when it passes the strict check. */
  lemma GenerateSvgKeepsFragmentIffValid(answer: Option<string>, description: string, fragment: string)
    requires answer.Some? && SvgExtraction.IsExtraction(answer.value, fragment)
    ensures GenerateSvg(answer, description) == fragment <==> PassesStrictCheck(fragment)
  {
    SvgExtraction.ExtractSvgMeansFirstMatch(answer.value, fragment);
  }

  /** A failed call and an answer without an svg fragment both give the fallback. */
  lemma GenerateSvgFallsBackWithoutFragment(answer: Option<string>, description: string)
    requires answer.None? || !SvgExtraction.HasMatch(answer.value)
    ensures GenerateSvg(answer, description) == SvgFallback.CreateFallbackSvg(description)
  {
    if answer.Some? {
      SvgExtraction.ExtractSvgMeansFirstMatch(answer.value, "");
    }
  }

  /** A fragment that fails the strict check is replaced by the keyword fallback. */
  lemma GenerateSvgRejectsInvalidFragment(answer: Option<string>, description: string, fragment: string)
    requires answer.Some? && SvgExtraction.IsExtraction(answer.value, fragment)
    requires !PassesStrictCheck(fragment)
    ensures GenerateSvg(answer, description) == SvgFallback.CreateFallbackSvg(description)
  {
    SvgExtraction.ExtractSvgMeansFirstMatch(answer.value, fragment);
  }

  /** Feeding an accepted fragment back as the answer returns it again. */
  lemma GenerateSvgAcceptedIsFixedPoint(answer: Option<string>, d1: string, d2: string)
    requires FragmentOf(answer).Some? && PassesStrictCheck(FragmentOf(answer).value)
    ensures GenerateSvg(Some(GenerateSvg(answer, d1)), d2) == GenerateSvg(answer, d1)
  {
    SvgExtraction.ExtractSvgIdempotent(answer.value, FragmentOf(answer).value);
  }

  /**
   * `generateDiagram(description)`: lenient check (a drawing tag, or
   * `viewBox`/`width`), keyword fallback on every failure.
   */
  function GenerateDiagram(answer: Option<string>, description: string): (r: string)
    ensures StartsWith(r, SvgExtraction.OpenTag) && EndsWith(r, SvgExtraction.CloseTag)
    ensures PassesLenientCheck(r)
    ensures r == DiagramFallback.CreateFallbackDiagram(description) ||
            (answer.Some? && SvgExtraction.IsExtraction(answer.value, r))
  {
    var fallback := DiagramFallback.CreateFallbackDiagram(description);
    FallbackFrame.CanvasOpensSvg(fallback);
    StrictImpliesLenient(fallback);
    match FragmentOf(answer)
    case None => fallback
    case Some(fragment) =>
      var checks := DiagramChecksOf(fragment);
      if LenientVerdict(checks) then fragment else fallback
  }

  /** The answer's fragment is returned unchanged exactly when it passes the lenient check. */
  lemma GenerateDiagramKeepsFragmentIffLenient(answer: Option<string>, description: string, fragment: string)
    requires answer.Some? && SvgExtraction.IsExtraction(answer.value, fragment)
    ensures GenerateDiagram(answer, description) == fragment <==> PassesLenientCheck(fragment)
  {
    SvgExtraction.ExtractSvgMeansFirstMatch(answer.value, fragment);
  }

  /** A failed call and an answer without an svg fragment both give the fallback. */
  lemma GenerateDiagramFallsBackWithoutFragment(answer: Option<string>, description: string)
    requires answer.None? || !SvgExtraction.HasMatch(answer.value)
    ensures GenerateDiagram(answer, description) == DiagramFallback.CreateFallbackDiagram(description)
  {
    if answer.Some? {
      SvgExtraction.ExtractSvgMeansFirstMatch(answer.value, "");
    }
  }

  /** A fragment that fails the lenient check is replaced by the keyword fallback. */
  lemma GenerateDiagramRejectsInvalidFragment(answer: Option<string>, description: string, fragment: string)
    requires answer.Some? && SvgExtraction.IsExtraction(answer.value, fragment)
    requires !PassesLenientCheck(fragment)
    ensures GenerateDiagram(answer, description) == DiagramFallback.CreateFallbackDiagram(description)
  {
    SvgExtraction.ExtractSvgMeansFirstMatch(answer.value, fragment);
  }

  /** A fragment `generateSvg` accepts is accepted by `generateDiagram` as well. */
  lemma StrictAcceptanceCarriesOver(answer: Option<string>, d1: string, d2: string, fragment: string)
    requires answer.Some? && SvgExtraction.IsExtraction(answer.value, fragment)
    requires GenerateSvg(answer, d1) == fragment
    ensures GenerateDiagram(answer, d2) == fragment
  {
    GenerateSvgKeepsFragmentIffValid(answer, d1, fragment);
    StrictImpliesLenient(fragment);
    GenerateDiagramKeepsFragmentIffLenient(answer, d2, fragment);
  }
}
