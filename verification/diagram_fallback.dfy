/**
 * `createFallbackDiagram` of generate-svg.ts: the lower-cased description
 * is searched for keyword groups in the order process, hierarchy, flow,
 * comparison; the first group found decides the diagram, otherwise a
 * generic one is drawn.
 */
module DiagramFallback {
  import opened Text
  import opened KeywordDispatch
  import opened FallbackFrame
  import opened FallbackElements
  import Validation
  import SvgExtraction

  datatype Category = Process | Hierarchy | Flow | Comparison | GenericDiagram

  const ProcessKeywords: seq<string> := ["süreç", "adım", "aşama"]
  const HierarchyKeywords: seq<string> := ["yapı", "organizasyon", "hiyerarşi"]
  const FlowKeywords: seq<string> := ["akış", "yol", "sıra"]
  const ComparisonKeywords: seq<string> := ["karşılaştır", "fark", "benzer"]

  /** The keyword groups in the order the `if / else if` chain tests them. */
  const Rules: seq<Rule<Category>> := [
    Rule(Process, ProcessKeywords),
    Rule(Hierarchy, HierarchyKeywords),
    Rule(Flow, FlowKeywords),
    Rule(Comparison, ComparisonKeywords)
  ]

  /**
   * The picture's category: the generic one exactly when the lower-cased
   * description mentions no keyword group, otherwise that of a group it
   * mentions.
   */
  function CategoryOf(description: string): (c: Category)
    ensures c == GenericDiagram <==> forall i :: 0 <= i < |Rules| ==> !Mentions(ToLower(description), Rules[i].keywords)
    ensures c != GenericDiagram ==> exists i :: 0 <= i < |Rules| && Rules[i].category == c && Mentions(ToLower(description), Rules[i].keywords)
  {
    Classify(Rules, GenericDiagram, ToLower(description))
  }

  function Title(c: Category): string {
    match c
    case Process => "Süreç Diyagramı"
    case Hierarchy => "Yapı Diyagramı"
    case Flow => "Akış Diyagramı"
    case Comparison => "Karşılaştırma Diyagramı"
    case GenericDiagram => "Diyagram Şeması"
  }

  function Elements(c: Category): string {
    match c
    case Process => ProcessElements
    case Hierarchy => HierarchyElements
    case Flow => FlowElements
    case Comparison => ComparisonElements
    case GenericDiagram => GenericDiagramElements
  }

  const Banner := "Diyagram oluşturuluyor..."

  /** The diagram of a category. */
  function Picture(c: Category): string {
    Frame(Elements(c), Title(c), Banner)
  }

  /**
   * `createFallbackDiagram(description)`: a 500x300 svg that passes the
   * strict (hence also the lenient) check, chosen by the category alone.
   */
  function CreateFallbackDiagram(description: string): (r: string)
    ensures StartsWith(r, CanvasPrefix) && EndsWith(r, SvgExtraction.CloseTag)
    ensures Validation.PassesStrictCheck(r)
  {
    var c := CategoryOf(description);
    FrameShape(Elements(c), Title(c), Banner);
    FramePassesStrictCheck(Elements(c), Title(c), Banner);
    Picture(c)
  }

  /** The category is the first keyword group the lower-cased description mentions. */
  lemma CategoryPriority(description: string)
    ensures var text := ToLower(description);
      && (CategoryOf(description) == Process <==> Mentions(text, ProcessKeywords))
      && (CategoryOf(description) == Hierarchy <==>
            !Mentions(text, ProcessKeywords) && Mentions(text, HierarchyKeywords))
      && (CategoryOf(description) == Flow <==>
            !Mentions(text, ProcessKeywords) && !Mentions(text, HierarchyKeywords) &&
            Mentions(text, FlowKeywords))
      && (CategoryOf(description) == Comparison <==>
            !Mentions(text, ProcessKeywords) && !Mentions(text, HierarchyKeywords) &&
            !Mentions(text, FlowKeywords) && Mentions(text, ComparisonKeywords))
      && (CategoryOf(description) == GenericDiagram <==>
            !Mentions(text, ProcessKeywords) && !Mentions(text, HierarchyKeywords) &&
            !Mentions(text, FlowKeywords) && !Mentions(text, ComparisonKeywords))
  {
    var text := ToLower(description);
    assert Rules[0].keywords == ProcessKeywords && Rules[1].keywords == HierarchyKeywords;
    assert Rules[2].keywords == FlowKeywords && Rules[3].keywords == ComparisonKeywords;
    match FirstMatch(Rules, text)
    case Some(i) =>
      assert CategoryOf(description) == Rules[i].category;
    case None =>
      assert CategoryOf(description) == GenericDiagram;
  }

  /** Distinct categories draw distinct diagrams: their titles differ. */
  lemma PictureInjective(c1: Category, c2: Category)
    requires c1 != c2
    ensures Picture(c1) != Picture(c2)
  {
    TitleMark(c1);
    TitleMark(c2);
    MarkInjective(c1, c2);
    FramesDifferByTitle(Elements(c1), Title(c1), Elements(c2), Title(c2), Banner, 11);
  }

  /** The letter eleven places from the end of a title, different for every category. */
  function Mark(c: Category): char {
    match c
    case Process => 'ç'
    case Hierarchy => 'ı'
    case Flow => 'ş'
    case Comparison => 'a'
    case GenericDiagram => 'g'
  }

  lemma MarkInjective(c1: Category, c2: Category)
    requires c1 != c2
    ensures Mark(c1) != Mark(c2)
  {
  }

  lemma TitleMark(c: Category)
    ensures |Title(c)| >= 11 && Title(c)[|Title(c)| - 11] == Mark(c)
  {
    match c
    case Process =>
    case Hierarchy =>
    case Flow =>
    case Comparison =>
    case GenericDiagram =>
  }

  /** Two descriptions get the same fallback exactly when they fall in the same category. */
  lemma SameFallbackIffSameCategory(d1: string, d2: string)
    ensures CreateFallbackDiagram(d1) == CreateFallbackDiagram(d2) <==> CategoryOf(d1) == CategoryOf(d2)
  {
    if CategoryOf(d1) != CategoryOf(d2) {
      PictureInjective(CategoryOf(d1), CategoryOf(d2));
    }
  }
}
