/**
 * The flows of topic-simplifier.ts. The file carries its own copy of the
 * svg post-processing and of the result assembly; they are modelled as
 * written there and proved to behave exactly like those of
 * pdf-content-analyzer.ts for the same model answers.
 */
module TopicSimplifier {
  import opened Wrappers
  import opened Text
  import opened Validation
  import opened FlowModel
  import SvgExtraction
  import FallbackFrame
  import PdfContentAnalyzer

  /** The file's local `generateSvg`. */
  function GenerateSvg(answer: Option<string>): (r: Result<string, FlowError>)
    ensures r.Failure? <==> answer.None?
    ensures r.Failure? ==> r.error == ModelCallFailed
    ensures r.Success? ==> StartsWith(r.value, SvgExtraction.OpenTag) && EndsWith(r.value, SvgExtraction.CloseTag)
    ensures r.Success? ==> PassesStrictCheck(r.value)
    ensures r.Success? ==> r.value == Placeholder() || SvgExtraction.IsExtraction(answer.value, r.value)
  {
    FallbackFrame.CanvasOpensSvg(Placeholder());
    match answer
    case None => Failure(ModelCallFailed)
    case Some(text) =>
      match SvgExtraction.ExtractSvg(text)
      case None => Success(Placeholder())
      case Some(fragment) =>
        if PassesStrictCheck(fragment) then Success(fragment) else Success(Placeholder())
  }

  /**
   * The svg results of the scene calls, one per answer, in order: every
   * scene succeeds exactly when every call answered, a failed scene is a
   * failed call, and each svg that comes back passes the strict check.
   */
  function SceneSvgs(answers: seq<Option<string>>): (r: seq<Result<string, FlowError>>)
    ensures |r| == |answers|
    ensures AllSucceeded(r) <==> forall i :: 0 <= i < |answers| ==> answers[i].Some?
    ensures forall i :: 0 <= i < |r| ==> (r[i].Failure? <==> answers[i].None?)
    ensures forall i :: 0 <= i < |r| && r[i].Failure? ==> r[i].error == ModelCallFailed
    ensures forall i :: 0 <= i < |r| && r[i].Success? ==> PassesStrictCheck(r[i].value)
    ensures forall i :: 0 <= i < |answers| ==> r[i] == GenerateSvg(answers[i])
  {
    var r := seq(|answers|, i requires 0 <= i < |answers| => GenerateSvg(answers[i]));
    assert forall i :: 0 <= i < |r| ==> (r[i].Success? <==> answers[i].Some?);
    r
  }

  /**
   * `simplifyTopicAsAnimation`: a missing script rejects, and so does any
   * failed scene call; otherwise the summary is copied and the scenes keep
   * the script's count and order.
   */
  function SimplifyAsAnimation(script: Option<Script>, answers: seq<Option<string>>): (r: Result<AnimationOutput, FlowError>)
    requires script.Some? ==> |answers| == |script.value.scenes|
    ensures script.None? ==> r == Failure(ScriptMissing)
    ensures script.Some? ==> (r.Failure? <==> exists i :: 0 <= i < |answers| && answers[i].None?)
    ensures script.Some? && r.Failure? ==> r.error == ModelCallFailed
    ensures r.Success? ==> r.value.summary == script.value.summary
    ensures r.Success? ==> |r.value.scenes| == |script.value.scenes|
    ensures r.Success? ==> forall i :: 0 <= i < |r.value.scenes| ==>
      r.value.scenes[i].description == script.value.scenes[i] &&
      GenerateSvg(answers[i]) == Success(r.value.scenes[i].svg)
  {
    match script
    case None => Failure(ScriptMissing)
    case Some(s) =>
      match AllScenes(s.scenes, SceneSvgs(answers))
      case Failure(e) => Failure(e)
      case Success(scenes) => Success(AnimationOutput(s.summary, scenes))
  }

  /** `simplifyTopicAsDiagram`: a missing or empty description rejects. */
  function SimplifyAsDiagram(description: Option<string>, answer: Option<string>): (r: Result<DiagramOutput, FlowError>)
    ensures r == Failure(DescriptionMissing) <==> description.None? || description.value == ""
    ensures description.Some? && description.value != "" ==>
      (r.Failure? <==> answer.None?) &&
      (r.Success? ==> GenerateSvg(answer) == Success(r.value.svg))
  {
    if description.None? || description.value == "" then Failure(DescriptionMissing)
    else
      match GenerateSvg(answer)
      case Failure(e) => Failure(e)
      case Success(svg) => Success(DiagramOutput(svg))
  }

  lemma SceneSvgsAgree(answers: seq<Option<string>>)
    ensures SceneSvgs(answers) == PdfContentAnalyzer.SceneSvgs(answers)
  {
    forall i | 0 <= i < |answers| ensures SceneSvgs(answers)[i] == PdfContentAnalyzer.SceneSvgs(answers)[i] {
      AgreesOnSvg(answers[i]);
    }
  }

  lemma AgreesOnSvg(answer: Option<string>)
    ensures GenerateSvg(answer) == PdfContentAnalyzer.GenerateSvg(answer)
  {
  }

  /**
   * The two files' copies agree: for the same model answers the topic
   * flows return exactly what the pdf flows return.
   */
  lemma AgreesWithPdfAnalyzer(script: Option<Script>, answers: seq<Option<string>>,
                              description: Option<string>, answer: Option<string>)
    requires script.Some? ==> |answers| == |script.value.scenes|
    ensures SimplifyAsAnimation(script, answers) == PdfContentAnalyzer.AnalyzeAsAnimation(script, answers)
    ensures SimplifyAsDiagram(description, answer) == PdfContentAnalyzer.AnalyzeAsDiagram(description, answer)
  {
    if script.Some? {
      SceneSvgsAgree(answers);
    }
    AgreesOnSvg(answer);
  }
}
