/**
 * The flows of pdf-content-analyzer.ts. Unlike the server actions they
 * catch nothing: a failed model call rejects the flow. The model's answers
 * are inputs; the scene calls of `Promise.all` are taken in order.
 */
module PdfContentAnalyzer {
  import opened Wrappers
  import opened Text
  import opened Validation
  import opened FlowModel
  import SvgExtraction
  import FallbackFrame

  /**
   * The file's local `generateSvg`: the fragment when it passes the strict
   * check, the placeholder card when there is none or it fails; a failed
   * call (no text) rejects.
   */
  function GenerateSvg(answer: Option<string>): (r: Result<string, FlowError>)
    ensures r.Failure? <==> answer.None?
    ensures r.Failure? ==> r.error == ModelCallFailed
    ensures r.Success? ==> StartsWith(r.value, SvgExtraction.OpenTag) && EndsWith(r.value, SvgExtraction.CloseTag)
    ensures r.Success? ==> PassesStrictCheck(r.value)
    ensures r.Success? ==> r.value == Placeholder() || SvgExtraction.IsExtraction(answer.value, r.value)
  {
    FallbackFrame.CanvasOpensSvg(Placeholder());
    match answer
    case None => Failure(ModelCallFailed)
    case Some(text) =>
      match SvgExtraction.ExtractSvg(text)
      case None => Success(Placeholder())
      case Some(fragment) =>
        if PassesStrictCheck(fragment) then Success(fragment) else Success(Placeholder())
  }

  /**
   * Given text, the result is its fragment exactly when the fragment
   * passes the strict check; with no fragment it is the placeholder.
   */
  lemma GenerateSvgOutcome(text: string, fragment: string)
    ensures SvgExtraction.IsExtraction(text, fragment) ==>
      (GenerateSvg(Some(text)) == Success(fragment) <==> PassesStrictCheck(fragment))
    ensures !SvgExtraction.HasMatch(text) ==> GenerateSvg(Some(text)) == Success(Placeholder())
  {
    SvgExtraction.ExtractSvgMeansFirstMatch(text, fragment);
  }

  /**
   * The svg results of the scene calls, one per answer, in order: every
   * scene succeeds exactly when every call answered, a failed scene is a
   * failed call, and each svg that comes back passes the strict check.
   */
  function SceneSvgs(answers: seq<Option<string>>): (r: seq<Result<string, FlowError>>)
    ensures |r| == |answers|
    ensures AllSucceeded(r) <==> forall i :: 0 <= i < |answers| ==> answers[i].Some?
    ensures forall i :: 0 <= i < |r| ==> (r[i].Failure? <==> answers[i].None?)
    ensures forall i :: 0 <= i < |r| && r[i].Failure? ==> r[i].error == ModelCallFailed
    ensures forall i :: 0 <= i < |r| && r[i].Success? ==> PassesStrictCheck(r[i].value)
    ensures forall i :: 0 <= i < |answers| ==> r[i] == GenerateSvg(answers[i])
  {
    var r := seq(|answers|, i requires 0 <= i < |answers| => GenerateSvg(answers[i]));
    assert forall i :: 0 <= i < |r| ==> (r[i].Success? <==> answers[i].Some?);
    r
  }

  /**
   * `analyzePdfContentAsAnimation`: a missing script rejects; otherwise the
   * summary is copied and every scene description keeps its place, paired
   * with the svg of its own answer.
   */
  function AnalyzeAsAnimation(script: Option<Script>, answers: seq<Option<string>>): (r: Result<AnimationOutput, FlowError>)
    requires script.Some? ==> |answers| == |script.value.scenes|
    ensures script.None? ==> r == Failure(ScriptMissing)
    ensures script.Some? ==> (r.Failure? <==> exists i :: 0 <= i < |answers| && answers[i].None?)
    ensures script.Some? && r.Failure? ==> r.error == ModelCallFailed
    ensures r.Success? ==> r.value.summary == script.value.summary
    ensures r.Success? ==> |r.value.scenes| == |script.value.scenes|
    ensures r.Success? ==> forall i :: 0 <= i < |r.value.scenes| ==>
      r.value.scenes[i].description == script.value.scenes[i] &&
      GenerateSvg(answers[i]) == Success(r.value.scenes[i].svg)
  {
    match script
    case None => Failure(ScriptMissing)
    case Some(s) =>
      match AllScenes(s.scenes, SceneSvgs(answers))
      case Failure(e) => Failure(e)
      case Success(scenes) => Success(AnimationOutput(s.summary, scenes))
  }

  /**
   * `analyzePdfContentAsDiagram`: a missing or empty description rejects
   * (`!diagramDescription` holds for ""); otherwise the svg is the local
   * `generateSvg` of the answer.
   */
  function AnalyzeAsDiagram(description: Option<string>, answer: Option<string>): (r: Result<DiagramOutput, FlowError>)
    ensures r == Failure(DescriptionMissing) <==> description.None? || description.value == ""
    ensures description.Some? && description.value != "" ==>
      (r.Failure? <==> answer.None?) &&
      (r.Success? ==> GenerateSvg(answer) == Success(r.value.svg))
  {
    if description.None? || description.value == "" then Failure(DescriptionMissing)
    else
      match GenerateSvg(answer)
      case Failure(e) => Failure(e)
      case Success(svg) => Success(DiagramOutput(svg))
  }
}
