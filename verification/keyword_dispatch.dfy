/**
 * First-match keyword dispatch: a description is put in the category of the
 * first rule one of whose keywords occurs in it, or in a default category.
 * Both fallback builders of generate-svg.ts are instances.
 */
module KeywordDispatch {
  import opened Wrappers
  import opened Text

  /** A category together with the keywords that select it. */
  datatype Rule<C> = Rule(category: C, keywords: seq<string>)

  /** Some keyword occurs in `text` (the `||` of `includes` calls). */
  predicate Mentions(text: string, keywords: seq<string>) {
    exists i :: 0 <= i < |keywords| && Contains(text, keywords[i])
  }

  /** The index of the first rule that `text` mentions. */
  function FirstMatch<C>(rules: seq<Rule<C>>, text: string): (r: Option<nat>)
    ensures r.Some? ==> r.value < |rules| && Mentions(text, rules[r.value].keywords)
    ensures r.Some? ==> forall j :: 0 <= j < r.value ==> !Mentions(text, rules[j].keywords)
    ensures r.None? ==> forall j :: 0 <= j < |rules| ==> !Mentions(text, rules[j].keywords)
  {
    if rules == [] then None
    else if Mentions(text, rules[0].keywords) then Some(0)
    else
      match FirstMatch(rules[1..], text)
      case None => None
      case Some(i) => Some(i + 1)
  }

  /** The `if / else if / else` chain over the rules, with `default` last. */
  function Classify<C>(rules: seq<Rule<C>>, default: C, text: string): (c: C)
    ensures (exists i :: 0 <= i < |rules| && Mentions(text, rules[i].keywords)) ==>
      exists i :: 0 <= i < |rules| && Mentions(text, rules[i].keywords) && c == rules[i].category &&
        forall j :: 0 <= j < i ==> !Mentions(text, rules[j].keywords)
    ensures (forall i :: 0 <= i < |rules| ==> !Mentions(text, rules[i].keywords)) ==> c == default
  {
    match FirstMatch(rules, text)
    case Some(i) => rules[i].category
    case None => default
  }
}
