# Mobadroot strategy generator — a Dafny model of its text logic

Mobadroot is a small web application. A FastAPI backend (`backend/main.py`) asks a
language model for a business strategy and post-processes the reply. A React page
(`frontend/src/StrategyGenerator.jsx`) shows the result and exports it to PDF.
This project models the deterministic text logic of both halves and proves
properties of it.

Backend:

- `is_arabic`, `clean_arabic_text` and `ensure_complete_sentence` (module `ArabicText`).
- `extract_workflow_components` (module `WorkflowComponents`). It sorts the sentences of
  the strategy into four phase slots and an "additional" list. Its loop is modelled
  as a method proved against specification functions.
- `generate_dynamic_workflow` (module `WorkflowDiagram`). It builds the Mermaid
  flowchart source with a node counter and node and edge lists.
- The pure parts of the `/generate-strategy` endpoint (module `StrategyRequest`):
  - the strategy-type table;
  - request validation and the reply language;
  - Python's `str.split` with a string separator;
  - splitting the model's reply into a strategy and KPIs;
  - the endpoint flow from a request and a reply to a response.

Frontend:

- The four-regex `fixColors` chains for print and for screen (modules `MarkupRules` and
  `FixColors`). Each global case-insensitive regex is a matcher that gives the
  match length at a position, plus the left-to-right scan of `replace`.
- The first-`<rect` patch, the PDF filename, keyword parsing, and the header
  insertion and removal of `generatePDF` (module `PdfExport`). The page state that
  `generatePDF` changes is a class.

Shared string helpers live in module `Text`:

- the whitespace sets of Python's `str.strip()` and of JavaScript's `trim()`;
- `strip`, single-character split and join;
- first-occurrence search.

`Wrappers` holds `Option` and `Result`.

## Model

| member | source | states |
|---|---|---|
| ArabicText.IsArabic | backend/main.py:71-73 | true exactly when some character lies in U+0600–U+06FF |
| ArabicText.LanguageOf | frontend/src/StrategyGenerator.jsx:65-66 | Arabic exactly when the text holds a character of the Arabic block, English otherwise |
| ArabicText.KeepAllowed | backend/main.py:75-77 | the deletion keeps only allowed characters (Arabic block, whitespace, `.,:;`, digits, `-`), never lengthens, and leaves an all-allowed text as it is |
| ArabicText.KeepAllowedOne | backend/main.py:75-77 | one character survives exactly when the class allows it |
| ArabicText.KeepAllowedAppend | backend/main.py:75-77 | cleaning a concatenation concatenates the cleaned parts, so every allowed character survives in order |
| ArabicText.CleanArabicText | backend/main.py:75-77 | every character of the result is allowed, and the result has no leading or trailing whitespace |
| ArabicText.CleanIdempotent | backend/main.py:75-77 | cleaning twice equals cleaning once |
| ArabicText.CleanKeepsArabic | backend/main.py:75-77 | cleaning keeps an Arabic character exactly when the input had one |
| ArabicText.EnsureCompleteSentence | backend/main.py:79-88 | the result ends a sentence of the language (`.` for English; `،`, `۔` or `.` for Arabic); it is the stripped text when that already ends one, otherwise the stripped text plus `۔` (Arabic) or `.` |
| ArabicText.CompleteSentenceIdempotent | backend/main.py:79-88 | completing a completed sentence changes nothing |
| ArabicText.CompletedCleanTextStaysClean | backend/main.py:453-454 | a cleaned then completed Arabic strategy holds only allowed characters, its terminator included, since `۔` lies in the Arabic block |
| Text.IsPySpace | backend/main.py:80 | the characters Python's `str.isspace()` accepts, which `strip()` removes |
| Text.IsJsSpace | frontend/src/StrategyGenerator.jsx:59 | the WhiteSpace and LineTerminator characters JavaScript's `trim()` removes |
| Text.Strip | backend/main.py:80 | the result has no strippable character at either end |
| Text.StripIdempotent | backend/main.py:80 | stripping twice equals stripping once |
| Text.StripKeepsInner | backend/main.py:80 | every non-strippable character of the input survives, at its offset from the first kept one |
| Text.SplitWhere | backend/main.py:444 | splitting on a separator set gives one more piece than there are separators, and no piece holds a separator |
| Text.JoinSplit | backend/main.py:444 | joining the pieces with the separator gives back the input |
| Text.SplitJoin | frontend/src/StrategyGenerator.jsx:59 | splitting the join of separator-free pieces gives back the pieces |
| Text.IndexFromIsFirst | backend/main.py:440 | the search returns the first occurrence at or after the start, and returns none only when there is none |
| Text.IndexOfPrefix | backend/main.py:441-442 | the first occurrence within a prefix is the first occurrence in the whole text |
| Text.BetweenIs | backend/main.py:441-443 | a piece of a split is a slice that starts where asked and ends at the limit or where an occurrence of the separator lying within the limit starts, and no such occurrence starts inside it |
| Text.BetweenPrefix | backend/main.py:441-442 | the piece of a prefix is the same piece of the whole text, when it ends within the prefix |
| Text.BetweenSuffix | backend/main.py:442-443 | the piece after a point is the first piece of the suffix that starts there |
| Text.SplitNoSep | backend/main.py:101 | a text with no separator character splits into itself alone |
| Text.SplitAppend | backend/main.py:101 | the first piece ends at the first separator character, whichever of the set it is, and the pieces of the rest follow |
| MarkupRules.MatchLen | frontend/src/StrategyGenerator.jsx:139-142 | a match starts with the rule's `fill="` or `style="` anchor, case-insensitively, and ends on a closing quote |
| MarkupRules.ReplaceAll | frontend/src/StrategyGenerator.jsx:139-142 | a global replace leaves a text with no match unchanged |
| MarkupRules.ReplaceAllCopies | frontend/src/StrategyGenerator.jsx:139-142 | text before which no match starts is copied, and the scan goes on with what follows it |
| MarkupRules.ReplaceAllAround | frontend/src/StrategyGenerator.jsx:139-142 | a leftmost match after clean text is replaced, the text before it is copied, and the scan resumes right after the match |
| MarkupRules.NoMatchBeforeKept | frontend/src/StrategyGenerator.jsx:137-142 | an earlier replacement whose text starts with its anchor creates no match of another regex in clean text before it |
| MarkupRules.ReplacePreserves | frontend/src/StrategyGenerator.jsx:137-142 | a global replace whose text starts with the regex's anchor and holds no match leaves no match of its own regex behind, and creates none of another regex where there was none |
| FixColors.Replacement | frontend/src/StrategyGenerator.jsx:227-232 | each replacement text of the print and screen palettes starts with the anchor of the regex it replaces |
| FixColors.Chain | frontend/src/StrategyGenerator.jsx:137-142 | the four global replacements in source order: fill hex, fill white, style colour, style fill; ChainLeavesNoMatch and ChainCopies state its effect |
| FixColors.FixColors | frontend/src/StrategyGenerator.jsx:227-232 | one palette's `fixColors`: the chain with that palette's four replacement texts; FixColorsLeavesNoMatch, FixColorsIdempotent and the attribute lemmas state its effect |
| FixColors.ReplacementInert | frontend/src/StrategyGenerator.jsx:137-142 | no replacement text of either chain contains a match of any of the four regexes |
| FixColors.ChainLeavesNoMatch | frontend/src/StrategyGenerator.jsx:137-142 | after the four replacements, in order, no regex of the chain matches anywhere |
| FixColors.FixColorsLeavesNoMatch | frontend/src/StrategyGenerator.jsx:227-232 | the output of either chain, for any palette, has no match of any of its regexes |
| FixColors.FixColorsIdempotent | frontend/src/StrategyGenerator.jsx:137-142 | applying a chain twice equals applying it once |
| FixColors.FixColorsFillAttribute | frontend/src/StrategyGenerator.jsx:139-140 | `fill="v"` becomes the hex replacement when v is `fff`, `ffff`, `#fff` or `#ffff` in any case, the white replacement when v is `white` in any case, and is kept otherwise |
| FixColors.FixColorsStyleAttribute | frontend/src/StrategyGenerator.jsx:141-142 | a `style` attribute is replaced whole by the colour replacement when some `color:` declaration is white; otherwise by the fill replacement when some `fill:` declaration is white; otherwise it is kept |
| FixColors.ChainCopies | frontend/src/StrategyGenerator.jsx:137-142 | markup before which no regex of the chain matches is copied by all four passes, and the chain goes on with what follows |
| FixColors.FixColorsCopies | frontend/src/StrategyGenerator.jsx:227-232 | either chain copies markup in which no match starts and rewrites only what follows it |
| FixColors.FixColorsFillAttributeIn | frontend/src/StrategyGenerator.jsx:139-140 | inside longer markup a `fill="v"` attribute is rewritten as it is on its own, the markup before it is copied, and the chain goes on with the markup after it |
| FixColors.FixColorsStyleAttributeIn | frontend/src/StrategyGenerator.jsx:141-142 | inside longer markup a `style="v"` attribute is rewritten as it is on its own, the markup before it is copied, and the chain goes on with the markup after it |
| FixColors.SixDigitWhiteKept | frontend/src/StrategyGenerator.jsx:139 | `fill="#ffffff"` passes through both chains unchanged |
| FixColors.LightScreenHexWhiteToBlack | frontend/src/StrategyGenerator.jsx:229 | in light mode `fill="#FFF"` becomes `fill="#000000"` |
| FixColors.LightScreenNamedWhiteKeptWhite | frontend/src/StrategyGenerator.jsx:230 | in light mode `fill="White"` becomes `fill="#ffffff"` |
| WorkflowComponents.Lower | backend/main.py:127 | lower-casing keeps the length and folds character by character: ASCII capitals and the Kelvin sign to lower-case ASCII, everything else unchanged |
| WorkflowComponents.LowerKelvinSign | backend/main.py:127 | the Kelvin sign lowers to `k`, so `feedbac` followed by it lowers to `feedback` |
| WorkflowComponents.PhaseOf | backend/main.py:125-145 | the branch of the `if`/`elif` chain a sentence takes, `None` being `else`; PhaseOfIsFirstMentioned states its meaning |
| WorkflowComponents.PhaseOfIsFirstMentioned | backend/main.py:125-145 | a sentence takes the first phase, in `elif` order, whose keywords it mentions; it takes the `else` branch exactly when it mentions none |
| WorkflowComponents.Sentences | backend/main.py:101-102 | every sentence is non-empty and stripped |
| WorkflowComponents.NonBlank | backend/main.py:102 | the kept pieces are stripped, non-empty and no more than the pieces |
| WorkflowComponents.NonBlankOne | backend/main.py:102 | one piece is kept, stripped, exactly when stripping leaves something |
| WorkflowComponents.NonBlankAppend | backend/main.py:102 | the filter of a concatenation is the concatenation of the filters, so the sentences keep their order |
| WorkflowComponents.SentencesOfOnePiece | backend/main.py:101-102 | a paragraph with no `.`, `!` or `?` is one sentence, its stripped text, unless it is blank |
| WorkflowComponents.SentencesAppend | backend/main.py:101-102 | the stripped text before the first terminator is the first sentence unless blank, and the sentences of the rest follow in order |
| WorkflowComponents.FirstOfPhaseIsFirst | backend/main.py:125-145 | the found sentence is the first that takes the phase's branch, and none is found only when no sentence does |
| WorkflowComponents.UnmatchedSpec | backend/main.py:146-155 | the additional list holds exactly the sentences of no phase, without repeats, in the order of their first occurrence |
| WorkflowComponents.Unmatched | backend/main.py:146-155 | the `else`-branch sentences, each once, in the order of first occurrence; UnmatchedSpec states its meaning |
| WorkflowComponents.SlotIsFirstMatchOrFallback | backend/main.py:158-165 | a slot holds the first sentence of its phase, or the language's fallback label when there is none |
| WorkflowComponents.Slot | backend/main.py:158-165 | the entry a phase slot ends with; SlotIsFirstMatchOrFallback states its meaning |
| WorkflowComponents.ComponentsOf | backend/main.py:90-166 | each of the four phase slots holds exactly one entry |
| WorkflowComponents.PhaseCount | backend/main.py:148-153 | the count of mentioned phases is at most four |
| WorkflowComponents.ElseBranchCountsNoPhase | backend/main.py:146-155 | in the `else` branch the phase count is always zero, so its `<= 1` test never fails |
| WorkflowComponents.SortSentences | backend/main.py:125-155 | the loop leaves each phase list holding the first sentence of that phase (or nothing) and the additional list as specified |
| WorkflowComponents.ExtractWorkflowComponents | backend/main.py:90-166 | each slot is the one-element list of its first sentence or fallback; additional is the unmatched sentences |
| WorkflowDiagram.Decimal | backend/main.py:199 | the decimal form of an id is non-empty and all digits |
| WorkflowDiagram.DecimalRoundTrip | backend/main.py:199 | reading back the digits gives the id |
| WorkflowDiagram.NodeRefInjective | backend/main.py:199-220 | two node names are equal exactly when their ids are |
| WorkflowDiagram.Shorten | backend/main.py:221 | an additional label is the first 20 characters of a longer sentence plus `...`, and a sentence of at most 20 characters whole plus `...` |
| WorkflowDiagram.ExtraCount | backend/main.py:218 | at most two additional steps get a node, all of them when there are at most two |
| WorkflowDiagram.StepNodesAt | backend/main.py:218-221 | the i-th additional node is box `A(5+i)` labelled with its shortened sentence |
| WorkflowDiagram.ForkEdgesAt | backend/main.py:245-248 | each additional node i has the edges `A2 --> A(5+i)` and `A(5+i) --> A3`, in that order |
| WorkflowDiagram.Render | backend/main.py:174-265 | the counter-and-list construction yields the diagram text of the layout |
| WorkflowDiagram.DiagramText | backend/main.py:174-265 | the diagram text of a layout: `graph <style>`, the node lines, the edge lines and the style block, newline-separated; NodesLayout, EdgesLayout and DiagramFrame state its shape |
| WorkflowDiagram.GenerateDynamicWorkflow | backend/main.py:169-265 | the diagram is the layout of the components extracted from the strategy |
| WorkflowDiagram.NodesLayout | backend/main.py:196-242 | there are 6+k nodes: A1–A3 boxes, A4 the only diamond with the evaluation label, the additional boxes A5…A(4+k), success A(5+k), failure A(7+k) |
| WorkflowDiagram.NodeIds | backend/main.py:231-241 | an id names a node exactly when it is in 1..5+k or is 7+k; id 6+k is consumed but never declared |
| WorkflowDiagram.NodeIdsDistinct | backend/main.py:196-242 | no two nodes share an id |
| WorkflowDiagram.EdgesLayout | backend/main.py:224-248 | there are 6+2k edges: A1→A2→A3→A4; A4 to success, back to A3 and to failure with their labels; then the fork pairs of each additional node |
| WorkflowDiagram.EdgesJoinDeclared | backend/main.py:224-248 | every edge joins declared nodes |
| WorkflowDiagram.StylingNames | backend/main.py:255-265 | the style block names A4 as evaluation, A5 as success and A6 as failure, whatever k is |
| WorkflowDiagram.StyledNodes | backend/main.py:218-264 | A5 is the success node only when there are no additional steps; A6 is the success node when there is one, an additional step when there are two, and undeclared when there are none |
| WorkflowDiagram.DiagramFrame | backend/main.py:174-265 | the diagram starts with `graph <style>` and a newline, and ends with the style block |
| StrategyRequest.TypeTableShape | backend/main.py:272-328 | every type has three keywords per language, and its name holds an Arabic character exactly in the Arabic column |
| StrategyRequest.Validate | backend/main.py:334-356 | the three checks of the endpoint in source order, then acceptance; ValidateErrors and ValidateAccepts state its meaning |
| StrategyRequest.Accept | backend/main.py:346-368 | the model, language, enhanced keywords and type name of an accepted request; ValidateAccepts states its meaning |
| StrategyRequest.ValidateErrors | backend/main.py:334-356 | rejection, always with 400, happens exactly for an empty stage or industry, more than ten keywords, or a non-empty unknown model, with the message of the first failing check (`Stage and industry are required`, `Maximum 10 keywords allowed`, or the model list) |
| StrategyRequest.ModelOptionsText | backend/main.py:352-355 | the option list names the three models in declaration order, comma-separated |
| StrategyRequest.ValidateAccepts | backend/main.py:346-368 | an accepted request runs on an available model (the preferred one if given and non-empty, else `llama3-70b-8192`); its language is detected from the industry and keywords; its keywords are the user's followed by the three of its type in that language; the name is in that language |
| StrategyRequest.JoinIsArabic | backend/main.py:360 | a space join holds an Arabic character exactly when some part does |
| StrategyRequest.LanguageFromInput | backend/main.py:359-361 | the target language is Arabic exactly when the industry or some keyword holds an Arabic character |
| StrategyRequest.PySplit | backend/main.py:441-443 | the split has at least one piece, and at least two exactly when the separator occurs |
| StrategyRequest.PySplitJoin | backend/main.py:441-443 | joining the pieces with the separator gives back the text |
| StrategyRequest.PySplitPiecesFree | backend/main.py:441-443 | no piece contains the separator |
| StrategyRequest.PySplitHead | backend/main.py:441 | the first piece is the text up to the first occurrence of the separator, or all of it |
| StrategyRequest.PySplitSecond | backend/main.py:442-443 | the second piece starts right after the first occurrence, holds no separator, and runs up to the next occurrence or to the end |
| StrategyRequest.KpiLines | backend/main.py:444 | the KPI lines are stripped and no more than the input lines |
| StrategyRequest.KpiLinesOne | backend/main.py:444 | one line gives a KPI exactly when it is not blank, and that KPI is the line stripped of `-` and spaces, then of whitespace |
| StrategyRequest.KpiLinesAppend | backend/main.py:444 | the KPI lines of a concatenation are those of its parts, so they keep their order |
| StrategyRequest.KpiLinesLength | backend/main.py:444 | there is one KPI per non-blank line |
| StrategyRequest.TakeThree | backend/main.py:444 | slicing `[:3]` keeps the first three items, or all items when there are fewer |
| StrategyRequest.KpisOf | backend/main.py:443-444 | a KPI section yields at most three stripped KPIs |
| StrategyRequest.KpisOfLines | backend/main.py:443-444 | the KPIs are the first KPI lines of the stripped section: three, or all when fewer than three lines are non-blank |
| StrategyRequest.FallbackKpis | backend/main.py:446-451 | the fallback gives exactly three KPIs |
| StrategyRequest.CleanAll | backend/main.py:455 | each KPI is replaced by its cleaned form |
| StrategyRequest.Finish | backend/main.py:453-469 | the finished strategy ends a sentence, and the KPI count is kept; English KPIs are left as they are |
| StrategyRequest.SplitSectionsCases | backend/main.py:440-442 | the split is missing exactly when a header is absent, and broken exactly when the first strategy header does not end before the first KPI header |
| StrategyRequest.SplitSectionsFound | backend/main.py:440-443 | the strategy text starts right after the first strategy header and ends at the first KPI header or at the next strategy header that ends before it; the KPI text starts right after the first KPI header and ends at the next KPI header or at the end; no header occurrence starts inside either part |
| StrategyRequest.SplitSectionsBetween | backend/main.py:440-443 | when the first strategy header ends before the first KPI header, the split is found, and its two parts are exactly the pieces `Between` describes |
| StrategyRequest.SplitSections | backend/main.py:440-443 | the two `split` calls and the `[1]` indexing, as missing, broken or found; SplitSectionsCases, SplitSectionsFound and SplitSectionsBetween state its meaning |
| StrategyRequest.ParseReply | backend/main.py:439-469 | the reply handling of both language paths, with the 500 of a broken split; ParseReplyFails, ParseReplyMissing, ParseReplyBetween, ParseReplyShape and ArabicReplyIsClean state its meaning |
| StrategyRequest.ParseReplyMissing | backend/main.py:445-469 | without both headers, the whole reply becomes the strategy and the three fallback KPIs are used, before the same cleaning and completion |
| StrategyRequest.ParseReplyBetween | backend/main.py:440-469 | with the strategy header ending before the KPI header, the strategy is the stripped text between the headers and the KPIs come from the text after the KPI header, before the same cleaning and completion |
| StrategyRequest.ParseReplyFails | backend/main.py:440-491 | the reply fails, with status 500, exactly when both headers are present and the first strategy header does not end before the first KPI header |
| StrategyRequest.ParseReplyShape | backend/main.py:439-469 | a parsed reply has at most three KPIs and exactly three when a header is missing; the strategy ends a sentence; English KPIs are stripped |
| StrategyRequest.ArabicReplyIsClean | backend/main.py:452-455 | in the Arabic path the strategy, terminator included, holds only allowed characters, and every KPI is stripped and holds only allowed characters |
| StrategyRequest.GenerateStrategy | backend/main.py:331-491 | the endpoint answers the validation error, the reply error or the response built from the parsed reply and its diagram |
| StrategyRequest.ResponseOf | backend/main.py:331-491 | the validation error, the reply error or the response built from the parsed reply and its diagram; ResponseShape states its shape |
| StrategyRequest.ResponseShape | backend/main.py:472-484 | a response uses an available model, has at most three KPIs and a terminated strategy, and its diagram starts with the requested direction and ends with the style block |
| Text.StripAll | frontend/src/StrategyGenerator.jsx:59 | each piece is trimmed of JavaScript whitespace, in order |
| Text.DropEmpty | frontend/src/StrategyGenerator.jsx:59 | filtering keeps only non-empty items taken from the input, and keeps everything when nothing is empty |
| Text.DropEmptyAppend | frontend/src/StrategyGenerator.jsx:59 | filtering a concatenation concatenates the filtered parts, so order is kept |
| PdfExport.ParseKeywords | frontend/src/StrategyGenerator.jsx:59 | split on `,`, trim each piece, drop the empty ones; ParseKeywordsItems, ParseKeywordsJoin and ParseKeywordsStable state its meaning |
| PdfExport.ParseKeywordsItems | frontend/src/StrategyGenerator.jsx:59 | every parsed keyword is non-empty, trimmed and free of commas |
| PdfExport.ParseKeywordsJoin | frontend/src/StrategyGenerator.jsx:59 | non-empty, trimmed, comma-free keywords come back unchanged from their comma join |
| PdfExport.ParseKeywordsStable | frontend/src/StrategyGenerator.jsx:59 | parsing the comma join of parsed keywords gives the same keywords |
| PdfExport.InjectRect | frontend/src/StrategyGenerator.jsx:146 | markup without `<rect` is unchanged; otherwise it grows by exactly the inserted attributes |
| PdfExport.InjectRectAt | frontend/src/StrategyGenerator.jsx:146 | the attributes land right after the first case-sensitive `<rect`; cutting them out gives back the input; that `<rect` stays the first |
| PdfExport.PdfFilename | frontend/src/StrategyGenerator.jsx:157-159 | the filename ends with `.pdf` |
| PdfExport.PdfFilenameOfType | frontend/src/StrategyGenerator.jsx:157-159 | for a known type the filename is `Strategy_<name.en>_<industry>.pdf` or `استراتيجية_<name.ar>_<industry>.pdf`, and it determines the industry |
| PdfExport.PdfFilenameExample | frontend/src/StrategyGenerator.jsx:157-159 | general, Technology and English give `Strategy_General_Technology.pdf` |
| PdfExport.HeaderTitle | frontend/src/StrategyGenerator.jsx:87-90 | the header heading in the page language, with `undefined` for an unknown type |
| PdfExport.Without | frontend/src/StrategyGenerator.jsx:180 | removing a child that is present drops exactly one element; removing an absent one changes nothing |
| PdfExport.WithoutRemovesFirst | frontend/src/StrategyGenerator.jsx:180 | removing a present child takes out exactly its first occurrence and keeps the other children in order |
| PdfExport.StrategyPage.RemoveChild | frontend/src/StrategyGenerator.jsx:180 | the children lose the first occurrence of the node, and nothing else changes |
| PdfExport.StrategyPage.GeneratePdf | frontend/src/StrategyGenerator.jsx:75-187 | without a response nothing changes; otherwise the header goes first, the diagram gets the print recolouring and the `<rect` patch (never restored), and the header is removed only when saving succeeds; on failure it stays and the error is set |
| PdfExport.HeadersAccumulate | frontend/src/StrategyGenerator.jsx:99-183 | a failed export leaves one more child and a successful one none; removing the header always restores the children |

## Left out

- The Groq client, the FastAPI app, CORS and environment loading are not modelled. The model's reply is a parameter of `ParseReply` and `GenerateStrategy`.
- The prompts and system messages are not modelled. They only shape the model's reply, which is an input here.
- The `/strategy-types`, `/health` and `/` handlers are not modelled. Only the name and keyword table is kept, as `InfoOf`. The descriptions in that table are not modelled.
- `mermaid.initialize` and `mermaid.render` are not modelled. The rendered SVG is an input to `FixColors`.
- The MutationObserver wait, the 10-second timeout and the display reflow are not modelled: they are timing.
- SVG scaling is not modelled: it is floating-point arithmetic on DOM attributes. The diagram markup in `StrategyPage` stands for the serialized SVG after scaling.
- `html2pdf` options and rasterisation are not modelled. Saving is a success-or-failure parameter of `GeneratePdf`.
- The creation date in the PDF header is not modelled: it reads the clock.
- `axios` calls, React state and effects, and JSX rendering are not modelled. The presentational components and configuration files are not part of this model.
- `generate_strategy` treats any exception as status 500. Only the `IndexError` of the reply split is modelled, because no other exception can arise in the modelled code.
- WorkflowComponents.Lower: models Python's `str.lower()` as ASCII folding plus the Kelvin sign. This is enough for keyword matching, since no other character lowers onto a letter of the keyword lists. Multi-character lowerings such as U+0130 are not modelled.
- FixColors.FixColorsFillAttributeIn: covers attribute values that do not end in `=`. In a value ending in `fill=` or `style=`, the closing quote completes a new anchor, and that match runs on into the following markup, so the attribute is no longer rewritten on its own. Values ending in any other `=` are left out with them.
- FixColors.FixColorsStyleAttributeIn: covers attribute values that do not end in `=`, for the same reason.
- WorkflowComponents.SortSentences: the `sentence.strip()` on append is the identity, because sentences are already stripped (its precondition, which `Sentences` guarantees).
- WorkflowDiagram.Render: nodes and edges are built as structured values and turned into text when joined, instead of the f-strings of the source. The text they yield is the same.
- The hard-coded style block is kept as its list of lines joined by newlines. This is the same text as the triple-quoted literal.
- The request's `diagram_style` is any string here, not only `TD` or `LR`. `GenerateStrategy` takes it as a separate parameter.

Behaviour of the code worth knowing, which the model keeps:

- The print recolouring is not undone after export.
- The header is removed only when saving succeeds.
- Light-mode screen colours map a hex white fill to black but a named white fill to white.
- A six-digit `#ffffff` fill is never matched.
- The style block names A5 and A6 as success and failure whatever the number of additional steps.
- A KPI line such as `- ` yields an empty KPI.
