/**
 * `createFallbackSvg` of generate-svg.ts: the lower-cased description is
 * searched for keyword groups in the order space, legal, education,
 * business; the first group found decides the picture, otherwise a generic
 * one is drawn.
 */
module SvgFallback {
  import opened Text
  import opened KeywordDispatch
  import opened FallbackFrame
  import opened FallbackElements
  import Validation
  import SvgExtraction

  datatype Category = Space | Legal | Education | Business | GenericVisual

  const SpaceKeywords: seq<string> := ["uzay", "gezegen", "güneş"]
  const LegalKeywords: seq<string> := ["dava", "hukuk", "mahkeme"]
  const EducationKeywords: seq<string> := ["eğitim", "öğretim", "ders"]
  const BusinessKeywords: seq<string> := ["iş", "şirket", "ticaret"]

  /** The keyword groups in the order the `if / else if` chain tests them. */
  const Rules: seq<Rule<Category>> := [
    Rule(Space, SpaceKeywords),
    Rule(Legal, LegalKeywords),
    Rule(Education, EducationKeywords),
    Rule(Business, BusinessKeywords)
  ]

  /**
   * The picture's category: the generic one exactly when the lower-cased
   * description mentions no keyword group, otherwise that of a group it
   * mentions.
   */
  function CategoryOf(description: string): (c: Category)
    ensures c == GenericVisual <==> forall i :: 0 <= i < |Rules| ==> !Mentions(ToLower(description), Rules[i].keywords)
    ensures c != GenericVisual ==> exists i :: 0 <= i < |Rules| && Rules[i].category == c && Mentions(ToLower(description), Rules[i].keywords)
  {
    Classify(Rules, GenericVisual, ToLower(description))
  }

  function Title(c: Category): string {
    match c
    case Space => "Uzay ve Gezegenler"
    case Legal => "Hukuki Süreç"
    case Education => "Eğitim Süreci"
    case Business => "İş Süreci"
    case GenericVisual => "Eğitici Görsel"
  }

  function Elements(c: Category): string {
    match c
    case Space => SpaceElements
    case Legal => LegalElements
    case Education => EducationElements
    case Business => BusinessElements
    case GenericVisual => GenericVisualElements
  }

  const Banner := "Görsel oluşturuluyor..."

  /** The picture of a category. */
  function Picture(c: Category): string {
    Frame(Elements(c), Title(c), Banner)
  }

  /**
   * `createFallbackSvg(description)`: a 500x300 svg that passes the strict
   * check, chosen by the description's category alone.
   */
  function CreateFallbackSvg(description: string): (r: string)
    ensures StartsWith(r, CanvasPrefix) && EndsWith(r, SvgExtraction.CloseTag)
    ensures Validation.PassesStrictCheck(r)
  {
    var c := CategoryOf(description);
    FrameShape(Elements(c), Title(c), Banner);
    FramePassesStrictCheck(Elements(c), Title(c), Banner);
    Picture(c)
  }

  /** The category is the first keyword group the lower-cased description mentions. */
  lemma CategoryPriority(description: string)
    ensures var text := ToLower(description);
      && (CategoryOf(description) == Space <==> Mentions(text, SpaceKeywords))
      && (CategoryOf(description) == Legal <==>
            !Mentions(text, SpaceKeywords) && Mentions(text, LegalKeywords))
      && (CategoryOf(description) == Education <==>
            !Mentions(text, SpaceKeywords) && !Mentions(text, LegalKeywords) &&
            Mentions(text, EducationKeywords))
      && (CategoryOf(description) == Business <==>
            !Mentions(text, SpaceKeywords) && !Mentions(text, LegalKeywords) &&
            !Mentions(text, EducationKeywords) && Mentions(text, BusinessKeywords))
      && (CategoryOf(description) == GenericVisual <==>
            !Mentions(text, SpaceKeywords) && !Mentions(text, LegalKeywords) &&
            !Mentions(text, EducationKeywords) && !Mentions(text, BusinessKeywords))
  {
    var text := ToLower(description);
    assert Rules[0].keywords == SpaceKeywords && Rules[1].keywords == LegalKeywords;
    assert Rules[2].keywords == EducationKeywords && Rules[3].keywords == BusinessKeywords;
    match FirstMatch(Rules, text)
    case Some(i) =>
      assert CategoryOf(description) == Rules[i].category;
    case None =>
      assert CategoryOf(description) == GenericVisual;
  }

  /** Distinct categories draw distinct pictures: their titles differ. */
  lemma PictureInjective(c1: Category, c2: Category)
    requires c1 != c2
    ensures Picture(c1) != Picture(c2)
  {
    var t1, t2 := Title(c1), Title(c2);
    if {c1, c2} == {Education, Business} {
      FramesDifferByTitle(Elements(c1), t1, Elements(c2), t2, Banner, 8);
    } else {
      FramesDifferByTitle(Elements(c1), t1, Elements(c2), t2, Banner, 1);
    }
  }

  /** Two descriptions get the same fallback exactly when they fall in the same category. */
  lemma SameFallbackIffSameCategory(d1: string, d2: string)
    ensures CreateFallbackSvg(d1) == CreateFallbackSvg(d2) <==> CategoryOf(d1) == CategoryOf(d2)
  {
    if CategoryOf(d1) != CategoryOf(d2) {
      PictureInjective(CategoryOf(d1), CategoryOf(d2));
    }
  }
}
