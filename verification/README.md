# SVG post-processing of pdfanimasyonu, in Dafny

pdfanimasyonu turns a PDF or a topic into short animations and diagrams.
A language model writes the scene scripts and the SVG drawings. This
project models what the server code does with the model's answer once it
arrives:

- it cuts an SVG fragment out of the answer with `/<svg[\s\S]*?<\/svg>/`;
- it checks the fragment heuristically. The strict check needs a drawing
  tag (`<path`, `<rect`, … matched without regard to ASCII case) and a
  theme colour `hsl(var`. The lenient check of the diagram action in
  `generate-svg.ts` needs a drawing tag, or `viewBox`, or `width`;
- it substitutes a fallback when anything fails. The fallback is either a
  fixed placeholder card or a canned picture chosen by Turkish keywords in
  the lower-cased description;
- the two flows assemble their results: a summary plus one scene per
  script line, or a single diagram.

The model's answer is an input, `Option<string>`. `None` covers both a call
that threw and an answer whose `text` is not a string. Each server action
is then a total function `(answer, description) -> string`. Each flow is a
function into `Result`, since the flows catch nothing.

Modules, one concept each:

- `Wrappers`: `Option` and `Result`.
- `Text`: substring search (`indexOf`/`includes`), prefix and suffix, ASCII
  case folding, which is what a non-Unicode `/i` regular expression does
  for the ASCII patterns of generate-svg.ts, and
  `toLowerCase`.
- `SvgExtraction`: the regular expression's match, defined declaratively
  (leftmost start, then shortest end), and the search that computes it.
- `Validation`: the strict check, the lenient check and its three flags.
- `KeywordDispatch`: first-match dispatch over keyword rules.
- `FallbackElements`, `FallbackFrame`, `SvgFallback`, `DiagramFallback`:
  `createFallbackSvg` and `createFallbackDiagram`, with their templates
  transcribed character for character.
- `MessageCard`: the fixed placeholder cards.
- `SvgActions` (`generate-svg.ts`), `DiagramAction` (`generate-diagram.ts`),
  `FlowModel`, `PdfContentAnalyzer`, `TopicSimplifier`: the actions and
  the flows.
  `topic-simplifier.ts` repeats the svg post-processing and result
  assembly of `pdf-content-analyzer.ts` line for line. `TopicSimplifier`
  repeats them in the same way, and `TopicSimplifier.AgreesWithPdfAnalyzer`
  proves that the two copies return the same results.
- `Examples`: concrete answers and descriptions at the edges of the
  behaviour.

Behaviour the model brings out:

- The flows reject on an empty diagram description as well as on a
  missing one, because `!diagramDescription` also holds for `""`.
- The flows have no `typeof` check and no `try`. A failed svg call
  therefore rejects the whole flow rather than yielding the placeholder.
- `toLowerCase` turns the capital dotted `İ` into `i` followed by
  U+0307 COMBINING DOT ABOVE. The description "İş" therefore does not
  mention the keyword "iş", and gets the generic picture instead of the
  business one (`Examples.DottedCapitalMissesBusiness`).
- The pattern has no word boundary and is case-sensitive. `<svgx…</svg>`
  is a match, `<SVG>…</SVG>` is not, and `<svg</svg>` is the smallest
  match.

## Model

| member | source | states |
|---|---|---|
| Text.IndexFrom | src/ai/actions/generate-svg.ts:64 | the least index at or after `from` where the pattern occurs; `None` exactly when it occurs nowhere from there |
| Text.Contains | src/ai/actions/generate-svg.ts:71 | `includes` holds exactly when the pattern occurs at some index |
| Text.ContainsIgnoringAsciiCase | src/ai/actions/generate-svg.ts:70 | the `/i` search holds exactly when the pattern occurs with each character compared after ASCII case folding; this is JavaScript's non-Unicode `/i` for ASCII patterns, which every tag pattern of generate-svg.ts is |
| Text.OccursIgnoringCaseIsFoldedOccurrence | src/ai/actions/generate-svg.ts:70 | a case-insensitive occurrence is an occurrence in the ASCII-folded strings, and conversely |
| Text.ContainsIsContainsIgnoringCase | src/ai/actions/generate-svg.ts:70 | a case-sensitive occurrence of a tag is also found by the `/i` test |
| Text.AsciiLower | src/ai/actions/generate-svg.ts:70 | A-Z move to a-z, 32 code points up; every other character is kept |
| Text.FoldAscii | src/ai/actions/generate-svg.ts:70 | folding keeps the length and leaves no ASCII capital: each capital moves 32 code points up in place and every other character is kept |
| Text.LowerChar | src/ai/actions/generate-svg.ts:85 | one character lower-cases to one or two characters, none an ASCII capital; an ASCII character lower-cases as the ASCII folding does |
| Text.ToLower | src/ai/actions/generate-svg.ts:85 | `toLowerCase` leaves no ASCII capital, and gives at least as many characters as it gets and at most twice as many |
| Text.ToLowerOfAsciiIsFold | src/ai/actions/generate-svg.ts:85 | on ASCII text, `toLowerCase` is the ASCII case folding the `/i` test uses |
| Text.ToLowerAppend | src/ai/actions/generate-svg.ts:85 | the modelled lower-casing, which maps each character on its own, distributes over concatenation |
| Text.ToLowerIdempotent | src/ai/actions/generate-svg.ts:85-88 | lower-casing the lower-cased description changes nothing |
| SvgExtraction.FirstMatchUnique | src/ai/actions/generate-svg.ts:64 | the leftmost-then-shortest match is unique |
| SvgExtraction.FindSvgSpan | src/ai/actions/generate-svg.ts:64-67 | the span found is the leftmost-then-shortest match; no span means no match exists anywhere |
| SvgExtraction.ExtractSvg | src/ai/actions/generate-svg.ts:64-69 | a fragment is found exactly when the pattern matches; it is the regular expression's match and runs from `<svg` to `</svg>` |
| SvgExtraction.ExtractSvgMeansFirstMatch | src/ai/actions/generate-svg.ts:64-69 | extraction yields a fragment exactly when that fragment is the match, and nothing exactly when there is no match |
| SvgExtraction.ExtractionClosesAtFirstCloseTag | src/ai/actions/generate-svg.ts:64 | the lazy `*?` leaves no `</svg>` inside the fragment before its end |
| SvgExtraction.ExtractSvgIdempotent | src/ai/actions/generate-svg.ts:64-69 | extracting from an extracted fragment gives the same fragment |
| Validation.HasDrawingElements | src/ai/actions/generate-svg.ts:70 | the tag test holds exactly when one of the seven drawing tags occurs somewhere, compared ignoring ASCII case |
| Validation.HasThemeColors | src/ai/actions/generate-svg.ts:71 | the colour test holds exactly when `hsl(var` occurs somewhere, case-sensitively |
| Validation.PassesStrictCheck | src/ai/actions/generate-svg.ts:70-73 | the strict check holds exactly when a drawing tag occurs ignoring ASCII case and `hsl(var` occurs as written |
| Validation.DiagramChecksOf | src/ai/actions/generate-svg.ts:234-239 | the theme flag holds exactly when `hsl(var` or `fill=` occurs, so a fragment passing the strict check has both flags set; the flags accept exactly when a drawing tag, `viewBox` or `width` occurs |
| Validation.ThemeColorsNeverDecide | src/ai/actions/generate-svg.ts:235-242 | the computed `hasThemeColors` never changes the lenient decision |
| Validation.PassesLenientCheck | src/ai/actions/generate-svg.ts:233-239 | the lenient check passes exactly when there is a drawing tag, `viewBox` or `width` |
| Validation.StrictImpliesLenient | src/ai/actions/generate-svg.ts:233-239 | whatever passes the strict check passes the lenient one |
| Validation.DrawingCheckIgnoresCase | src/ai/actions/generate-svg.ts:70 | two texts equal up to ASCII case get the same drawing-tag verdict |
| Validation.RectWithThemeColorPassesStrictCheck | src/ai/actions/generate-svg.ts:70-73 | `<rect` plus `hsl(var` is enough for the strict check |
| KeywordDispatch.FirstMatch | src/ai/actions/generate-svg.ts:93-165 | the index found is mentioned and no earlier rule is; `None` means no rule is mentioned |
| KeywordDispatch.Classify | src/ai/actions/generate-svg.ts:85-165 | the category of the first mentioned rule, and the default when none is mentioned |
| FallbackFrame.CanvasOpensSvg | src/ai/actions/generate-svg.ts:167 | a text opening with the 500x300 canvas opens with `<svg` |
| FallbackFrame.FrameShape | src/ai/actions/generate-svg.ts:167-172 | every fallback picture opens with the 500x300 canvas and ends with `</svg>` |
| FallbackFrame.FramePassesStrictCheck | src/ai/actions/generate-svg.ts:167-172 | every fallback picture passes the strict check, through its background rectangle |
| FallbackFrame.FrameShowsTitle | src/ai/actions/generate-svg.ts:170-172 | the title sits at a fixed distance from the end of the picture |
| FallbackFrame.FramesDifferByTitle | src/ai/actions/generate-svg.ts:167-172 | pictures whose titles differ at a fixed distance from their end are different |
| SvgFallback.CreateFallbackSvg | src/ai/actions/generate-svg.ts:83-175 | the fallback opens with the 500x300 canvas, ends with `</svg>` and passes the strict check |
| SvgFallback.CategoryOf | src/ai/actions/generate-svg.ts:85-165 | the picture is generic exactly when the lower-cased description mentions no keyword group; otherwise its category is that of a group it mentions |
| SvgFallback.CategoryPriority | src/ai/actions/generate-svg.ts:85-165 | space, then legal, education, business: each category is chosen exactly when its group is the first mentioned; generic exactly when none is |
| SvgFallback.PictureInjective | src/ai/actions/generate-svg.ts:93-172 | distinct categories draw distinct pictures |
| SvgFallback.SameFallbackIffSameCategory | src/ai/actions/generate-svg.ts:83-175 | two descriptions get the same fallback exactly when they fall in the same category |
| DiagramFallback.CreateFallbackDiagram | src/ai/actions/generate-svg.ts:256-356 | the fallback opens with the 500x300 canvas, ends with `</svg>` and passes the strict check |
| DiagramFallback.CategoryOf | src/ai/actions/generate-svg.ts:258-346 | the diagram is generic exactly when the lower-cased description mentions no keyword group; otherwise its category is that of a group it mentions |
| DiagramFallback.CategoryPriority | src/ai/actions/generate-svg.ts:258-346 | process, then hierarchy, flow, comparison: each category is chosen exactly when its group is the first mentioned; generic exactly when none is |
| DiagramFallback.PictureInjective | src/ai/actions/generate-svg.ts:266-353 | distinct categories draw distinct diagrams |
| DiagramFallback.SameFallbackIffSameCategory | src/ai/actions/generate-svg.ts:256-356 | two descriptions get the same fallback exactly when they fall in the same category |
| MessageCard.Card | src/ai/actions/generate-diagram.ts:67 | the card opens with the 500x300 canvas, ends with `</svg>` and passes the strict check |
| MessageCard.CardShape | src/ai/actions/generate-diagram.ts:67 | the card opens with the 500x300 canvas and ends with `</svg>` |
| MessageCard.CardPassesStrictCheck | src/ai/actions/generate-diagram.ts:67 | the card's muted rectangle makes it pass the strict check |
| MessageCard.CardsDifferByMessage | src/ai/actions/generate-diagram.ts:67 | cards whose messages begin with different letters are different |
| SvgActions.FragmentOf | src/ai/actions/generate-svg.ts:60-69 | a fragment comes out exactly when the answer is text in which the pattern matches, and it is that match |
| SvgActions.GenerateSvg | src/ai/actions/generate-svg.ts:57-176 | the result runs from `<svg` to `</svg>`, passes the strict check, and is the fallback or the answer's match |
| SvgActions.GenerateSvgKeepsFragmentIffValid | src/ai/actions/generate-svg.ts:64-75 | the answer's fragment comes back unchanged exactly when it passes the strict check |
| SvgActions.GenerateSvgFallsBackWithoutFragment | src/ai/actions/generate-svg.ts:60-67 | a failed call, non-text, or an answer without a match gives `createFallbackSvg(description)` |
| SvgActions.GenerateSvgRejectsInvalidFragment | src/ai/actions/generate-svg.ts:69-77 | a fragment that fails the strict check gives `createFallbackSvg(description)` |
| SvgActions.GenerateSvgAcceptedIsFixedPoint | src/ai/actions/generate-svg.ts:64-75 | an accepted fragment given back as the answer is returned again, whatever the description |
| SvgActions.GenerateDiagram | src/ai/actions/generate-svg.ts:221-356 | the result runs from `<svg` to `</svg>`, passes the lenient check, and is the fallback or the answer's match |
| SvgActions.GenerateDiagramKeepsFragmentIffLenient | src/ai/actions/generate-svg.ts:228-242 | the answer's fragment comes back unchanged exactly when it passes the lenient check |
| SvgActions.GenerateDiagramFallsBackWithoutFragment | src/ai/actions/generate-svg.ts:224-231 | a failed call, non-text, or an answer without a match gives `createFallbackDiagram(description)` |
| SvgActions.GenerateDiagramRejectsInvalidFragment | src/ai/actions/generate-svg.ts:233-250 | a fragment that fails the lenient check gives `createFallbackDiagram(description)` |
| SvgActions.StrictAcceptanceCarriesOver | src/ai/actions/generate-svg.ts:233-241 | a fragment `generateSvg` keeps is kept by `generateDiagram` too |
| DiagramAction.Fallback | src/ai/actions/generate-diagram.ts:67 | the fixed card runs from `<svg` to `</svg>` and passes the strict check |
| DiagramAction.GenerateDiagram | src/ai/actions/generate-diagram.ts:8-69 | the result runs from `<svg` to `</svg>`, passes the strict check, and is the fixed card or the answer's match |
| DiagramAction.GenerateDiagramKeepsFragmentIffValid | src/ai/actions/generate-diagram.ts:49-60 | the answer's fragment comes back exactly when it passes the strict check |
| DiagramAction.GenerateDiagramFailurePaths | src/ai/actions/generate-diagram.ts:45-67 | a failed call or non-text, no match, and a failed check each give the fixed card |
| DiagramAction.GenerateDiagramIgnoresDescription | src/ai/actions/generate-diagram.ts:64-67 | the description never changes the result |
| FlowModel.AllScenes | src/ai/flows/pdf-content-analyzer.ts:123-128 | rejects exactly when some scene svg failed, with that failure's error; otherwise one scene per description, in order, each paired with its own svg |
| FlowModel.Placeholder | src/ai/flows/pdf-content-analyzer.ts:102 | the flows' card opens with the 500x300 canvas, ends with `</svg>`, passes the strict check, and is not the card of generate-diagram.ts |
| PdfContentAnalyzer.GenerateSvg | src/ai/flows/pdf-content-analyzer.ts:73-115 | rejects exactly when the call failed; otherwise runs from `<svg` to `</svg>`, passes the strict check, and is the placeholder or the answer's match |
| PdfContentAnalyzer.GenerateSvgOutcome | src/ai/flows/pdf-content-analyzer.ts:99-114 | the fragment comes back exactly when it passes the strict check; no match gives the placeholder |
| PdfContentAnalyzer.SceneSvgs | src/ai/flows/pdf-content-analyzer.ts:123-126 | one svg result per scene answer, in order; all succeed exactly when every call answered; a scene fails exactly when its call failed, with the call error; every svg returned passes the strict check |
| PdfContentAnalyzer.AnalyzeAsAnimation | src/ai/flows/pdf-content-analyzer.ts:119-131 | a missing script rejects; a failed scene call rejects; otherwise the summary is copied and each scene keeps its description, place and own svg |
| PdfContentAnalyzer.AnalyzeAsDiagram | src/ai/flows/pdf-content-analyzer.ts:133-140 | a missing or empty description rejects; otherwise a failed call rejects and the svg is `generateSvg` of the answer |
| TopicSimplifier.GenerateSvg | src/ai/flows/topic-simplifier.ts:71-113 | rejects exactly when the call failed; otherwise runs from `<svg` to `</svg>`, passes the strict check, and is the placeholder or the answer's match |
| TopicSimplifier.SceneSvgs | src/ai/flows/topic-simplifier.ts:121-124 | one svg result per scene answer, in order; all succeed exactly when every call answered; a scene fails exactly when its call failed, with the call error; every svg returned passes the strict check |
| TopicSimplifier.SimplifyAsAnimation | src/ai/flows/topic-simplifier.ts:117-129 | a missing script rejects; a failed scene call rejects; otherwise the summary is copied and each scene keeps its description, place and own svg |
| TopicSimplifier.SimplifyAsDiagram | src/ai/flows/topic-simplifier.ts:131-138 | a missing or empty description rejects; otherwise a failed call rejects and the svg is `generateSvg` of the answer |
| TopicSimplifier.AgreesOnSvg | src/ai/flows/topic-simplifier.ts:97-112 | the file's `generateSvg` gives what the pdf flow's copy gives |
| TopicSimplifier.SceneSvgsAgree | src/ai/flows/topic-simplifier.ts:121-126 | the scene svgs agree with the pdf flow's |
| TopicSimplifier.AgreesWithPdfAnalyzer | src/ai/flows/topic-simplifier.ts:117-138 | both topic flows return exactly what the pdf flows return for the same answers |
| Examples.LowerCaseKept | src/ai/actions/generate-svg.ts:85 | text whose characters all lower-case to themselves is unchanged by `toLowerCase` |
| Examples.MatchStopsAtFirstClose | src/ai/actions/generate-svg.ts:64-69 | for `<svg`, a body without `<`, `</svg>` and anything after, the match ends at that first `</svg>` |
| Examples.BareElementMatches | src/ai/actions/generate-svg.ts:64 | `<svg</svg>` is matched whole |
| Examples.LazyMatchStopsAtFirstClose | src/ai/actions/generate-svg.ts:64 | `<svg></svg></svg>` yields `<svg></svg>` |
| Examples.UpperCaseTagsNotMatched | src/ai/actions/generate-svg.ts:64 | `<SVG></SVG>` has no match |
| Examples.CloseBeforeOpenNotMatched | src/ai/actions/generate-svg.ts:64 | `</svg><svg>` has no match |
| Examples.OutlineIsItsOwnMatch | src/ai/actions/generate-svg.ts:64-69 | `<svg viewBox></svg>` is matched whole |
| Examples.OutlinePassesOnlyLenientCheck | src/ai/actions/generate-svg.ts:233-239 | `<svg viewBox></svg>` passes the lenient check and fails the strict one |
| Examples.LenientOnlyFragment | src/ai/actions/generate-svg.ts:228-242 | an answer passing only the lenient check is kept by the lenient action and replaced by the fallback, the fixed card and the placeholder elsewhere |
| Examples.OutlineKeptOnlyByLenientAction | src/ai/actions/generate-svg.ts:228-242 | the same, for `<svg viewBox></svg>` |
| Examples.LowerCaseKeywordSelectsBusiness | src/ai/actions/generate-svg.ts:88 | "iş" selects the business picture |
| Examples.MentionsNoGroup | src/ai/actions/generate-svg.ts:85-88 | the lower case of "İş" mentions no keyword group |
| Examples.DottedCapitalMissesBusiness | src/ai/actions/generate-svg.ts:85-88 | "İş" falls in the generic category |
| Examples.DottedCapitalChangesPicture | src/ai/actions/generate-svg.ts:83-175 | "İş" and "iş" get different fallbacks |
| Examples.ProcessNamedFirst | src/ai/actions/generate-svg.ts:258-266 | lower-case text opening with "süreç" is drawn as a process |
| Examples.ProcessWinsOverFlow | src/ai/actions/generate-svg.ts:258-266 | "süreç yol" mentions both the process and the flow group and is drawn as a process |
| Examples.ProcessAndPath | src/ai/actions/generate-svg.ts:258-266 | lower-case text with "süreç" first and "yol" after it mentions the flow group yet is drawn as a process |
| Examples.PathNamedAt | src/ai/actions/generate-svg.ts:260 | text holding "yol" mentions the flow group |

## Left out

- The model calls (`ai.generate`, the prompts, `ai.defineFlow`) are not modelled: their answers are inputs, and the prompt texts are static prose.
- `console.error` and `console.log` are not modelled: they are logging only.
- `src/ai/flows/image-generator.ts` is not part of this model: it is a model-call wrapper with a null check.
- The Zod schemas of `src/ai/schemas.ts` and of the flows are not modelled: the library's validation is not visible. The parsed script is taken as a summary and a sequence of scene strings.
- The UI files are not part of this model, and neither are the names `simplifyTopic` and `analyzePdfContent` that the forms import but the flows do not export.
- `Promise.all` is modelled as an order-preserving map over the scene answers. Which failed scene settles first is not modelled.
- FlowModel.AllScenes: a scene fails when `ai.generate` rejects or when `.match` throws on a `text` that is not a string. The model merges both into the one error `ModelCallFailed`, so it does not say which of the two rejected the flow.
- Text.ToLowerAppend: holds of the modelled per-character table, not of JavaScript's `toLowerCase`, whose Final_Sigma rule looks at the neighbours of a capital sigma: `"AΣ"` lower-cases to `"aς"` but `"AΣB"` to `"aσb"`. No keyword contains a sigma, so the keyword tests are unaffected.
- PdfContentAnalyzer.AnalyzeAsAnimation: the script prompt's answer is an `Option`, so a rejected `pdfAnimationScriptPrompt` call is merged into `ScriptMissing`; in the source the flow rejects with that call's own error instead.
- PdfContentAnalyzer.AnalyzeAsDiagram: likewise a rejected `pdfDiagramDescriptionPrompt` call is merged into `DescriptionMissing`, where the source rejects with the call's own error.
- TopicSimplifier.SimplifyAsAnimation: a rejected `topicAnimationScriptPrompt` call is merged into `ScriptMissing`, where the source rejects with the call's own error.
- TopicSimplifier.SimplifyAsDiagram: a rejected `topicDiagramDescriptionPrompt` call is merged into `DescriptionMissing`, where the source rejects with the call's own error.
- Text.ContainsIgnoringAsciiCase: exact only for ASCII patterns. JavaScript's `/i` also matches a non-ASCII pattern letter such as É against é; every pattern in generate-svg.ts and the flows is ASCII.
- Text.ToLower: models `toLowerCase` only for the characters whose lower case contains a keyword letter (a-z, ç, ğ, ı, ö, ş, ü): A-Z, the Kelvin sign, Ç Ğ Ö Ş Ü and İ. Every other character is kept as it is. No other character lower-cases to a keyword letter, so every keyword test comes out as in JavaScript; the lower-cased text itself can differ.
- Strings are sequences of Unicode characters, not of UTF-16 code units. Every pattern and keyword in generate-svg.ts and the flows lies in the Basic Multilingual Plane, so searches agree.
- The contents of the fallback templates are transcribed, but only their shape, the strict check and their titles are stated. XML well-formedness is not modelled.
- The regular expression's `s` flag in the flows is not modelled separately: `[\s\S]` already matches every character.
