/**
 * What the two flows (pdf-content-analyzer.ts, topic-simplifier.ts) work
 * on: the animation script and diagram description the model returns, the
 * outputs they assemble, and the errors they reject with.
 */
module FlowModel {
  import opened Wrappers
  import opened Text
  import MessageCard
  import FallbackFrame
  import SvgExtraction
  import Validation

  /** The parsed `output` of the animation-script prompt. */
  datatype Script = Script(summary: string, scenes: seq<string>)

  datatype Scene = Scene(description: string, svg: string)

  datatype AnimationOutput = AnimationOutput(summary: string, scenes: seq<Scene>)

  datatype DiagramOutput = DiagramOutput(svg: string)

  /** The ways a flow's promise rejects. */
  datatype FlowError =
    | ScriptMissing        // "Failed to generate animation script."
    | DescriptionMissing   // "Failed to generate diagram description."
    | ModelCallFailed      // the svg call threw, or its text was not a string

  predicate AllSucceeded<T>(results: seq<Result<T, FlowError>>) {
    forall i :: 0 <= i < |results| ==> results[i].Success?
  }

  /**
   * `Promise.all` over the scene promises, each paired with its description:
   * the scenes in the order of the descriptions when every svg succeeded;
   * otherwise a rejection with the error of a failed one (the first by
   * position here; which one settles first is not modelled).
   */
  function AllScenes(descriptions: seq<string>, svgs: seq<Result<string, FlowError>>): (r: Result<seq<Scene>, FlowError>)
    requires |svgs| == |descriptions|
    ensures r.Failure? <==> !AllSucceeded(svgs)
    ensures r.Failure? ==> exists i :: 0 <= i < |svgs| && svgs[i] == Failure(r.error)
    ensures r.Success? ==> |r.value| == |descriptions|
    ensures r.Success? ==> forall i :: 0 <= i < |descriptions| ==>
      r.value[i] == Scene(descriptions[i], svgs[i].value)
  {
    if descriptions == [] then Success([])
    else
      var tail := svgs[1..];
      assert AllSucceeded(svgs) <==> svgs[0].Success? && AllSucceeded(tail) by {
        assert forall i :: 0 < i < |svgs| ==> svgs[i] == tail[i - 1];
      }
      match svgs[0]
      case Failure(e) => Failure(e)
      case Success(svg) =>
        match AllScenes(descriptions[1..], tail)
        case Failure(e) =>
          var j :| 0 <= j < |tail| && tail[j] == Failure(e);
          assert svgs[j + 1] == tail[j];
          Failure(e)
        case Success(rest) =>
          var scenes := [Scene(descriptions[0], svg)] + rest;
          assert forall i :: 0 < i < |scenes| ==>
            scenes[i] == rest[i - 1] && descriptions[i] == descriptions[1..][i - 1] && svgs[i] == tail[i - 1];
          Success(scenes)
  }

  /**
   * The card both flows return when the answer holds no svg or its svg
   * fails the strict check: a 500x300 svg that passes that check itself,
   * and not the card generate-diagram.ts falls back to.
   */
  function Placeholder(): (r: string)
    ensures StartsWith(r, FallbackFrame.CanvasPrefix) && EndsWith(r, SvgExtraction.CloseTag)
    ensures Validation.PassesStrictCheck(r)
    ensures r != MessageCard.Card(MessageCard.DiagramFailed)
  {
    MessageCard.CardsDifferByMessage(MessageCard.VisualizationFailed, MessageCard.DiagramFailed);
    MessageCard.Card(MessageCard.VisualizationFailed)
  }
}
