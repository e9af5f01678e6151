/**
 * Concrete answers and descriptions that show the edge cases of the
 * post-processing: what the regular expression does and does not match,
 * a fragment that only the lenient check accepts, and how `toLowerCase`
 * treats a capital dotted I in front of a keyword.
 */
module Examples {
  import opened Wrappers
  import opened Text
  import opened Validation
  import opened SvgExtraction
  import FlowModel
  import SvgFallback
  import DiagramFallback
  import SvgActions
  import DiagramAction
  import PdfContentAnalyzer
  import KeywordDispatch

  /** A pattern cannot occur where one of its characters is missing from the text. */
  lemma MissingCharacter(s: string, pat: string, k: nat)
    requires k < |pat|
    requires forall i :: 0 <= i < |s| ==> s[i] != pat[k]
    ensures !Contains(s, pat)
  {
    forall i: nat ensures !OccursAt(s, pat, i) {
      if i + |pat| <= |s| {
        assert s[i..i + |pat|][k] == s[i + k];
      }
    }
  }

  /** Text whose `toLowerCase` is itself. */
  lemma {:induction false} LowerCaseKept(s: string)
    requires forall i :: 0 <= i < |s| ==> LowerChar(s[i]) == [s[i]]
    ensures ToLower(s) == s
  {
    if s != [] {
      LowerCaseKept(s[1..]);
      assert s == [s[0]] + s[1..];
    }
  }

  /**
   * An opening tag, a body without "<", and a closing tag, followed by
   * anything: the match is the opening tag through that first closing tag.
   */
  lemma MatchStopsAtFirstClose(body: string, rest: string)
    requires forall i :: 0 <= i < |body| ==> body[i] != '<'
    ensures ExtractSvg(OpenTag + body + CloseTag + rest) == Some(OpenTag + body + CloseTag)
  {
    var head := OpenTag + body;
    var t := head + CloseTag + rest;
    var n := |head| + |CloseTag|;
    assert t[0..n] == OpenTag + body + CloseTag;
    assert t[0..|OpenTag|] == OpenTag;
    assert t[|head|..n] == CloseTag;
    forall e: nat | IsMatch(t, 0, e) ensures n <= e {
      var p := e - |CloseTag|;
      assert t[p..p + |CloseTag|][0] == t[p];
    }
    assert IsFirstMatch(t, 0, n);
    ExtractSvgMeansFirstMatch(t, t[0..n]);
  }

  /** The smallest match: nothing between the tags. */
  lemma BareElementMatches()
    ensures ExtractSvg(OpenTag + CloseTag) == Some(OpenTag + CloseTag)
  {
    MatchStopsAtFirstClose([], []);
    assert OpenTag + [] + CloseTag + [] == OpenTag + CloseTag;
  }

  /** The lazy quantifier stops at the first closing tag: `<svg></svg></svg>` gives `<svg></svg>`. */
  lemma LazyMatchStopsAtFirstClose()
    ensures ExtractSvg(OpenTag + ">" + CloseTag + CloseTag) == Some(OpenTag + ">" + CloseTag)
  {
    MatchStopsAtFirstClose(">", CloseTag);
  }

  /** The pattern is case-sensitive: upper-case tags are not matched. */
  lemma UpperCaseTagsNotMatched()
    ensures ExtractSvg("<SVG></SVG>") == None
  {
    var t := "<SVG></SVG>";
    MissingCharacter(t, OpenTag, 1);
    ExtractSvgMeansFirstMatch(t, "");
  }

  /** A closing tag before the only opening tag does not make a match: `</svg><svg>`. */
  lemma CloseBeforeOpenNotMatched()
    ensures ExtractSvg(CloseTag + OpenTag + ">") == None
  {
    var t := CloseTag + OpenTag + ">";
    assert |t| == 11 && t[1] == '/';
    forall s: nat, e: nat ensures !IsMatch(t, s, e) {
      if s + 10 <= 11 {
        assert t[s..s + 4][0] == t[s] && t[s..s + 4][1] == t[s + 1];
      }
    }
    ExtractSvgMeansFirstMatch(t, "");
  }

  /** An svg with a `viewBox` but no drawing element and no theme colour: `<svg viewBox></svg>`. */
  const OutlineBody := " " + "viewBox" + ">"
  const Outline := OpenTag + OutlineBody + CloseTag

  lemma OutlineIsItsOwnMatch()
    ensures ExtractSvg(Outline) == Some(Outline)
  {
    MatchStopsAtFirstClose(OutlineBody, []);
    assert OpenTag + OutlineBody + CloseTag + [] == Outline;
  }

  lemma OutlinePassesOnlyLenientCheck()
    ensures PassesLenientCheck(Outline) && !PassesStrictCheck(Outline)
  {
    MissingCharacter(Outline, ThemeColorMarker, 0);
    assert OccursAt("viewBox", "viewBox", 0);
    OccursInContext(" ", "viewBox", ">", "viewBox", 0);
    OccursInContext(OpenTag, OutlineBody, CloseTag, "viewBox", 1);
  }

  /**
   * An answer that is exactly one fragment passing only the lenient check
   * is kept by the lenient diagram action of generate-svg.ts and replaced
   * by the strict ones: the keyword fallback of `generateSvg`, the fixed
   * card of generate-diagram.ts and the placeholder of the flows.
   */
  lemma LenientOnlyFragment(t: string, description: string)
    requires ExtractSvg(t) == Some(t)
    requires PassesLenientCheck(t) && !PassesStrictCheck(t)
    ensures SvgActions.GenerateDiagram(Some(t), description) == t
    ensures SvgActions.GenerateSvg(Some(t), description) == SvgFallback.CreateFallbackSvg(description)
    ensures DiagramAction.GenerateDiagram(Some(t), description) == DiagramAction.Fallback()
    ensures PdfContentAnalyzer.GenerateSvg(Some(t)) == Success(FlowModel.Placeholder())
  {
    assert SvgActions.FragmentOf(Some(t)) == Some(t);
    assert LenientVerdict(DiagramChecksOf(t));
  }

  lemma OutlineKeptOnlyByLenientAction(description: string)
    ensures SvgActions.GenerateDiagram(Some(Outline), description) == Outline
    ensures SvgActions.GenerateSvg(Some(Outline), description) == SvgFallback.CreateFallbackSvg(description)
    ensures DiagramAction.GenerateDiagram(Some(Outline), description) == DiagramAction.Fallback()
    ensures PdfContentAnalyzer.GenerateSvg(Some(Outline)) == Success(FlowModel.Placeholder())
  {
    OutlineIsItsOwnMatch();
    OutlinePassesOnlyLenientCheck();
    LenientOnlyFragment(Outline, description);
  }

  /** Text shorter than every keyword of a group mentions none of them. */
  lemma ShorterThanKeywords(text: string, keywords: seq<string>)
    requires forall i :: 0 <= i < |keywords| ==> |text| < |keywords[i]|
    ensures !KeywordDispatch.Mentions(text, keywords)
  {
  }

  /** Lower-case "iş" selects the business picture. */
  lemma LowerCaseKeywordSelectsBusiness()
    ensures SvgFallback.CategoryOf("iş") == SvgFallback.Business
  {
    var text := "iş";
    LowerCaseKept(text);
    ShorterThanKeywords(text, SvgFallback.SpaceKeywords);
    ShorterThanKeywords(text, SvgFallback.LegalKeywords);
    ShorterThanKeywords(text, SvgFallback.EducationKeywords);
    assert text[0..2] == SvgFallback.BusinessKeywords[0];
    assert OccursAt(text, SvgFallback.BusinessKeywords[0], 0);
    assert SvgFallback.Rules[3].keywords == SvgFallback.BusinessKeywords;
    assert KeywordDispatch.Mentions(text, SvgFallback.Rules[3].keywords);
  }

  /**
   * `toLowerCase` turns the capital dotted I of "İş" into "i" followed by
   * a combining dot, so the keyword "iş" is not found and the generic
   * picture is drawn instead of the business one.
   */
  lemma DottedCapitalMissesBusiness()
    ensures SvgFallback.CategoryOf("İş") == SvgFallback.GenericVisual
  {
    assert ToLower("İş") == ['i', CombiningDotAbove, 'ş'] by {
      assert ToLower("İş") == LowerChar('İ') + ToLower("ş");
      assert ToLower("ş") == LowerChar('ş') + ToLower([]);
    }
    MentionsNoGroup(ToLower("İş"));
  }

  /** So "İş" and "iş" get different pictures. */
  lemma DottedCapitalChangesPicture()
    ensures SvgFallback.CreateFallbackSvg("İş") != SvgFallback.CreateFallbackSvg("iş")
  {
    DottedCapitalMissesBusiness();
    LowerCaseKeywordSelectsBusiness();
    GenericAndBusinessDiffer("İş", "iş");
  }

  lemma GenericAndBusinessDiffer(d1: string, d2: string)
    requires SvgFallback.CategoryOf(d1) == SvgFallback.GenericVisual
    requires SvgFallback.CategoryOf(d2) == SvgFallback.Business
    ensures SvgFallback.CreateFallbackSvg(d1) != SvgFallback.CreateFallbackSvg(d2)
  {
    SvgFallback.SameFallbackIffSameCategory(d1, d2);
  }

  /** "i", a combining dot, "ş": no keyword of the svg fallback occurs. */
  lemma MentionsNoGroup(lowered: string)
    requires lowered == ['i', CombiningDotAbove, 'ş']
    ensures forall r :: 0 <= r < |SvgFallback.Rules| ==>
      !KeywordDispatch.Mentions(lowered, SvgFallback.Rules[r].keywords)
  {
    ShorterThanKeywords(lowered, SvgFallback.SpaceKeywords);
    ShorterThanKeywords(lowered, SvgFallback.LegalKeywords);
    ShorterThanKeywords(lowered, SvgFallback.EducationKeywords);
    var business := SvgFallback.BusinessKeywords;
    forall i: nat ensures !OccursAt(lowered, business[0], i) {
      if i + 2 <= 3 {
        assert lowered[i..i + 2][1 - i] == lowered[1];
      }
    }
    ShorterThanKeywords(lowered, business[1..]);
    assert !KeywordDispatch.Mentions(lowered, business) by {
      forall i | 1 <= i < |business| ensures !Contains(lowered, business[i]) {
        assert business[i] == business[1..][i - 1];
      }
    }
  }

  /**
   * A description naming both a process and a path ("yol", a flow keyword)
   * is drawn as a process: that group is tested first.
   */
  lemma ProcessWinsOverFlow()
    ensures KeywordDispatch.Mentions(ToLower("süreç yol"), DiagramFallback.FlowKeywords)
    ensures DiagramFallback.CategoryOf("süreç yol") == DiagramFallback.Process
  {
    LowerCaseKept("süreç yol");
    ProcessAndPath("süreç yol");
  }

  /** Lower-case text naming a process first and a path after it. */
  lemma ProcessAndPath(text: string)
    requires ToLower(text) == text && |text| >= 9
    requires text[..5] == DiagramFallback.ProcessKeywords[0]
    requires text[6..9] == DiagramFallback.FlowKeywords[1]
    ensures KeywordDispatch.Mentions(ToLower(text), DiagramFallback.FlowKeywords)
    ensures DiagramFallback.CategoryOf(text) == DiagramFallback.Process
  {
    ProcessNamedFirst(text);
    PathNamedAt(text, 6);
  }

  /** Lower-case text opening with "süreç" is drawn as a process. */
  lemma ProcessNamedFirst(text: string)
    requires ToLower(text) == text && |text| >= 5 && text[..5] == DiagramFallback.ProcessKeywords[0]
    ensures DiagramFallback.CategoryOf(text) == DiagramFallback.Process
  {
    assert text[0..5] == DiagramFallback.ProcessKeywords[0];
    assert OccursAt(text, DiagramFallback.ProcessKeywords[0], 0);
    assert DiagramFallback.Rules[0].keywords == DiagramFallback.ProcessKeywords;
    assert KeywordDispatch.Mentions(text, DiagramFallback.Rules[0].keywords);
  }

  /** Text with "yol" at position `k` mentions the flow group. */
  lemma PathNamedAt(text: string, k: nat)
    requires k + 3 <= |text| && text[k..k + 3] == DiagramFallback.FlowKeywords[1]
    ensures KeywordDispatch.Mentions(text, DiagramFallback.FlowKeywords)
  {
    assert Contains(text, DiagramFallback.FlowKeywords[1]) by {
      assert OccursAt(text, DiagramFallback.FlowKeywords[1], k);
    }
  }
}
