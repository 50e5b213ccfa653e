# word-doc-comparer: the comment-analysis rule engine

This project models the rule engine of `WordDocumentAnalyzer`. It checks
editorial comments left in an original Word document against a revised
version of it. The model covers these steps:

1. Find the text each comment is anchored to. This is done by walking the
   document tree for comment-range markers, or by the inline `[COMMENT…]`
   fallback cascade.
2. Locate the comment's context in the original and in the revised text.
3. Parse the comment into an intent: a replacement (global or local), a
   deletion, an addition, a formatting or style change, or an unknown
   instruction.
4. Validate the intent by occurrence counts.
5. Aggregate the results into a summary and a list of missed instances.

Modules follow the source's structure:

- `PyText`: the Python string operations the engine relies on, such as
  `find`, `rfind`, `count`, `strip`, `split`, `lower` and slicing.
- `CommentRanges`: the markup walk and the range slicer. The walker is a
  class whose accumulators are updated in place.
- `Association`: the inline-marker association cascade.
- `Context`: comment context, sentence trimming, and the four alignment
  strategies. The strategies are methods with loops, proved against
  specification functions.
- `Contractions`: contraction detection and expansion.
- `Intents`: validating the intent structure, and the style, context-aware
  and general comment parsers.
- `Validator`: the change validators.
- `Orchestrator`: the per-comment loop with its AI-then-rules fallback, the
  user scope override, the local-context validator, the summary and the
  missed-instance loop.
- `Scenarios`: the parsing test of the lone name "Jimmy" on "Johnny",
  worked out.

Some parts of the source are not written out and are treated as abstract
inputs (oracles):

- Regular expressions whose capture groups are used. They are supplied as
  ordered lists of matcher functions: `Grammar` in `Intents` and
  `Matchers` in `Association`.
- `difflib.get_close_matches`, modelled as the `CloseMatch` oracle.
- The AI analysis, modelled as an oracle that returns a result or fails.

Regular expressions that only test whether a comment matches are written
out. They include:

- the style table;
- the scope commands;
- the anchored single-word, two-token and contraction patterns.

Three behaviours of the source shape the model:

- Strategy 2 tries a 3-word and then a 2-word sequence at each start index
  before moving to the next index (`app.py:670-689`).
- A short comment on a selection takes the selected (associated) text as
  `from_text` and the comment's phrase as `to_text`, through the
  context-aware whole-phrase pattern (`app.py:1029-1043`). The parsing test
  expects exactly this for "Jimmy" on "Johnny"
  (`test_comment_parsing.py:44-51`).
- The style validator counts contractions in the full original and revised
  texts, not in the comment's context (`app.py:1414-1468`).

## Model

| member | source | states |
|---|---|---|
| CommentRanges.Walker.constructor | app.py:235-240 | The accumulators start empty: no start or end indices and no text tokens. |
| CommentRanges.Walker.Walk | app.py:272-298 | Walking a node updates the accumulators in place. The new state is the pre-order run over that node: its own marker or text first, then its children in order. |
| CommentRanges.WalkRecords | app.py:272-298 | Token `i` is the `i`-th non-empty text in document order and carries position `i`. An id is recorded exactly when a marker of that kind carries it. Its index is the number of non-empty texts before the last such marker, which is at most the token count. |
| CommentRanges.RunTokens | app.py:286-298 | Starting from empty accumulators, the tokens are exactly the non-empty texts, numbered in order. Every recorded index is at most the final token count. |
| CommentRanges.MarkerIndex | app.py:276-285 | The last marker with a given id wins: its index is the number of texts before that marker. An id is recorded if and only if such a marker occurs. |
| CommentRanges.EmptyIdIgnored | app.py:276-285 | A marker without a truthy id is never recorded. |
| CommentRanges.ExtractTextRange | app.py:300-315 | The result is "" when start >= end or start >= the token count. In every case it is a substring of the concatenated token texts. |
| CommentRanges.RangeBetweenMarkers | app.py:252-315 | For an id with both markers, the range is the stripped concatenation of the non-empty texts between its last start marker and its last end marker. It is "" when the end marker comes first. |
| CommentRanges.PairRanges | app.py:252-265 | A range is produced exactly for the ids in both the start map and the end map. Each value is the token slice between the two indices. |
| CommentRanges.ExtractCommentRanges | app.py:219-270 | After one walk from empty accumulators, the ranges are keyed by the intersection of the walk's start and end ids. Each value is the slice of that walk's tokens. |
| Association.Window | app.py:327 | The window holds the (at most) 100 characters that end at the marker. It is the whole prefix when the marker is nearer the start. |
| Association.ChangeWordFirst | app.py:333-340 | A "change … to …" target that occurs in the window (case-insensitively) is the answer, ahead of every later step. |
| Association.UnderlinedNext | app.py:343-352 | Without such a target, the first underlined pattern whose capture is longer than two characters gives the result, stripped. Every earlier underlined pattern fails or captures at most two characters, so the pattern of up to three words is tried before the single-word one. |
| Association.QuotedNext | app.py:354-362 | Without a target or a long underlined capture, the first quoted pattern that matches gives the result, stripped. Every earlier quoted pattern fails. |
| Association.WindowFallback | app.py:317-380 | `find_associated_text_pattern`, when no pattern applies, depends only on the 100-character window before the marker. |
| Association.LastPiece | app.py:365-367 | The last sentence is the longest suffix with no `.`, `!` or `?`, and it is preceded by a terminator when shorter than the window. |
| Association.LongSentence | app.py:364-371 | When no pattern applies and the window's last sentence has more than 10 words, the words of the result are exactly that sentence's last 5 words. |
| Association.TailWordsSplit | app.py:370-371 | The last `n` words joined by single spaces split back into exactly those words. |
| Association.ShortSentence | app.py:364-373 | When no pattern applies and the last sentence has 1 to 10 words, the result is that sentence, stripped, and it is a substring of the window. |
| Association.LastWords | app.py:375-378 | When no pattern applies and the last sentence has no words, the words of the result are exactly the last (up to) 3 words of the window. |
| Association.NoWordsUnknown | app.py:375-380 | When no pattern applies and the window has no words, the result is "unknown text". |
| Context.SentenceCut | app.py:628-634 | A sentence cut, when one is found, lies inside the text. |
| Context.TrimCut | app.py:628-639 | The cut chosen by either rule lies inside the text. |
| Context.TrimCutsPrefix | app.py:625-641 | `TrimToSentences` (`trim_to_sentences`): trimming returns the text itself, or a stripped prefix `t[:c]` with `c < len(t)`. So it is never longer than the text and is always a substring of it. |
| Context.ShortTextKept | app.py:636-641 | A text of at most 50 characters with no sentence ending past its middle is kept unchanged. |
| Context.PositionOfAssociated | app.py:583-596 | The position is the first occurrence of the stripped associated text when it occurs, and the stored position otherwise. |
| Context.ContextWithin | app.py:579-623 | `ExtractCommentContext` (`extract_comment_context`): the original context is a substring of the ±100-character window around the position, so at most 200 characters long. The revised context is a substring of the revised text. |
| Context.AnchorAt | app.py:652-666 | A match of one anchor length gives a non-blank window of exactly the window width. |
| Context.AnchorStrategy | app.py:649-668 | Strategy 1, over the anchor lengths 30, 20, 15 and 10 in order: any answer is a non-blank window of the window width. |
| Context.FindByAnchor | app.py:649-668 | The loop with early return computes strategy 1 exactly. |
| Context.SequenceAt | app.py:673-687 | A word sequence found in the revised text gives a non-blank window that is at most 50 characters wider than the window. |
| Context.SequenceStrategy | app.py:670-689 | Strategy 2: any answer is a non-blank window at most 50 characters wider than the window. |
| Context.FindBySequence | app.py:670-689 | The nested loops with early return compute strategy 2 exactly. They try 3 and then 2 words at each start index. |
| Context.SignificantWords | app.py:692 | A word is kept exactly when it is longer than 3 characters and, lower-cased, is none of the filler words "the", "and", "was", "were", "that", "this", "with" and "from". |
| Context.SignificantAppend | app.py:692 | The filter distributes over concatenation, so the kept words keep their order and their repetitions. |
| Context.SignificantOne | app.py:692 | A single word is kept exactly when it is significant. |
| Context.WordAt | app.py:694-703 | A significant word found in the revised text gives a non-blank window at most 75 characters wider than the window. |
| Context.WordStrategy | app.py:691-704 | Strategy 3: any answer is a non-blank window at most 75 characters wider than the window. |
| Context.FindByWord | app.py:691-704 | The loop with early return computes strategy 3 exactly. |
| Context.StrategyWindowWidth | app.py:643-704 | Whichever of the first three strategies answers, its window is non-blank and at most 75 characters wider than the window. |
| Context.ApproxInFirstThird | app.py:706-712 | The proportional position of strategy 4 lies in the first third of the revised text. |
| Context.PositionWithin | app.py:706-715 | Strategy 4 always yields a substring of the revised text no longer than the window. |
| Context.RevisedContextWithin | app.py:643-715 | Whichever strategy answers, the revised context is a substring of the revised text, at most 75 characters longer than the window. |
| Context.FindCorrespondingContext | app.py:643-715 | The method tries the strategies in order, and the first non-blank success wins. Its result equals the specification `CorrespondingContext`. |
| Contractions.JoinedSound | app.py:1472-1480 | Every match of either detection pattern is a word, an apostrophe and a word, and occurs in the text. |
| Contractions.JoinedClosed | app.py:1472-1480 | Every match of the closed detection pattern is, lower-cased, one of the contractions that pattern names. |
| Contractions.Dedupe | app.py:1483 | Deduplication yields exactly the same set of items, each exactly once. |
| Contractions.FindContractions | app.py:1470-1483 | The method that extends the list and deduplicates it computes `Contractions(text)`. |
| Contractions.ContractionsSound | app.py:1470-1483 | The contractions found are distinct and apostrophe-joined, and occur in the text. Every match of either pattern is among them. |
| Contractions.NoApostropheNoContractions | app.py:1472-1483 | A text without apostrophes has no contractions. |
| Contractions.ExpandTableEntry | app.py:1485-1540 | `ExpandContraction` (`expand_contraction`): a table key expands to its expansion. The same key with its first letter capitalised expands to the capitalised expansion. |
| Contractions.ExpandUnknown | app.py:1542-1548 | `ExpandContraction`: an unknown token ending in `'s` becomes its base followed by " has". Any other unknown token is returned unchanged. |
| Contractions.CapitalIKeysNeverMatch | app.py:1504-1535 | The table keys spelled with a capital `I` can never be looked up, because the lookup lower-cases the token, so such tokens come back unchanged. |
| Contractions.StormHas | app.py:1872-1880 | "Storm's" expands to "Storm has", as the contraction test endpoint expects. |
| Contractions.ExpandAll | app.py:1082 | Expanding a list gives a list of the same length. |
| Intents.FillMissing | app.py:934-940 | Missing keys are added with the given value, and present keys keep theirs. |
| Intents.ValidateIntentStructure | app.py:929-942 | Every field is the dictionary's value when present. Otherwise it is None for the required fields and "" for the optional ones. |
| Intents.ValidateComplete | app.py:929-942 | Validating a complete intent changes nothing. |
| Intents.ValidateKeeps | app.py:934-940 | A field already present is left untouched. |
| Intents.MakeIntentValidated | app.py:1222-1230 | An intent built by the general parser is the validation of its dictionary. |
| Intents.MakeStyleIntentValidated | app.py:1083-1110 | A style intent is the validation of its dictionary. |
| Intents.SpellMatches | app.py:1051-1071 | A written-out pattern matches any text that contains its spelling. |
| Intents.FirstStyleRule | app.py:1073-1074 | The first rule of the style table, in table order, that matches the lower-cased comment. |
| Intents.ParseStyleComment | app.py:1047-1112 | A style intent is produced exactly when some style rule matches. It has type style_grammar, scope "local", and the matched rule's description. |
| Intents.ContractionStyleIntent | app.py:1077-1100 | For a contraction rule, `from` lists the contractions and `to` their expansions, index-aligned. Without contractions, `from` is the associated text and `to` is "no_contractions_found". |
| Intents.RemoveContractionsRule | app.py:1053 | The rule for removing contractions routes to the contraction branch. |
| Intents.ExpandContractionsRule | app.py:1054 | The rule for expanding contractions routes to the contraction branch. |
| Intents.NoContractionsRule | app.py:1055 | "no contractions" shares the description of the removal rule. |
| Intents.GrammarRuleNoContraction | app.py:1063 | The grammar rule does not route to the contraction branch. |
| Intents.GrammarErrorRule | app.py:1063-1065 | "grammar error" shares the description of the grammar rule. |
| Intents.Anchored | app.py:1029-1043 | An anchored phrase or word, when read, is non-empty and occurs in the comment. |
| Intents.AnchoredWordReads | app.py:1245 | A word, optionally quoted, reads back as that word. |
| Intents.TwoTokens | app.py:1234 | Both tokens of the two-token pattern are word-character runs. |
| Intents.TwoTokensReads | app.py:1234 | `w1 <arrows> w2`, optionally quoted, reads back as exactly `(w1, w2)`. |
| Intents.ParseContextAware | app.py:944-1045 | The result is nothing when the comment contains the associated text or a scope command. Any result is a global or local replacement of the associated text that records the raw comment, with scope "global" exactly when it is global. |
| Intents.FirstExplicit | app.py:1178-1181 | The first category of the explicit table, in the order replace_global, replace_local, delete, add, format, in which some pattern matches. |
| Intents.ExplicitOrFallback | app.py:1178-1262 | The scope is "global" exactly when the type is replace_global, and the type is never style_grammar. |
| Intents.GlobalInName | app.py:1228 | Of the explicit types, only replace_global contains "global". |
| Intents.ParseCommentIntent | app.py:1114-1262 | The raw comment is always recorded. The scope is "global" exactly when the type is replace_global. The type is style_grammar exactly when a style rule matches, so style takes precedence. |
| Intents.ContextAwareSkipped | app.py:949-964 | When the associated text is blank, is contained in the comment, or the comment names a scope, the context-aware patterns have no effect on the result. |
| Intents.NameInstructionIsGlobal | app.py:967-989 | A name instruction on associated text is a global replacement of that text by the captured name. |
| Intents.ShortCommentReplacesAssociated | app.py:1029-1043 | A short unrecognised comment on associated text is a local replacement of that text by the comment's phrase. |
| Intents.UnknownIntent | app.py:1256-1262 | The type is unknown exactly when no parser recognises the comment. Then `from` and `to` are None and the scope is "manual_review". |
| Intents.FallbackUnknown | app.py:1178-1262 | After the style and context parsers, the type is unknown exactly when no explicit pattern, no two-word form and no lone word applies. Then `from` and `to` are None and the scope is "manual_review". |
| Intents.TwoWordFallback | app.py:1234-1242 | `w1 → w2` with nothing else recognised is a local replacement of `w1` by `w2`. |
| Intents.SingleWordFallback | app.py:1245-1253 | A lone word with nothing else recognised is a local replacement with that target and no source. |
| Intents.ExplicitPath | app.py:1114-1230 | When no style rule and no context-aware pattern applies, `parse_comment_intent` takes its type from the first matching explicit category, its `from_text` and `to_text` from that category's groups (`ExplicitValues`, app.py:1183-1221), and scope "global" exactly for replace_global. |
| Intents.ReversedLocalReplacement | app.py:1205-1216 | On that path, "should be … not …" and "use … instead of …" make `parse_comment_intent` swap the two captured local groups; otherwise they keep their order. |
| Intents.OneGroupLocalReplacement | app.py:1200-1219 | On that path, a single local group is the target when the comment says "correct", and the source otherwise. |
| Intents.NameChangeUsesAssociated | app.py:1185-1199 | On that path, a global name change with one group takes its source from the stripped associated text and its target from the group. |
| Validator.Words | app.py:1374-1375 | Every word extracted is a run of word characters. |
| Validator.GlobalReplacement | app.py:1291-1316 | `ValidateChangeApplication` (`validate_change_application`): global: correctly applied if and only if no source occurrence remains and the targets are at least as many as the original sources. Otherwise partially applied, with "k of n instances were changed". |
| Validator.CompleteGlobalApplied | app.py:1297-1306 | A global source that has vanished, with enough targets, is correctly applied. |
| Validator.UnrevisedGlobal | app.py:1295-1316 | On an unrevised text, a global replacement counts as applied exactly when the source never occurred. |
| Validator.LocalReplacement | app.py:1317-1338 | `ValidateChangeApplication`: local: correctly applied if and only if fewer source occurrences remain than the original had. Otherwise not applied. |
| Validator.UnrevisedLocalNotApplied | app.py:1317-1338 | An unrevised text never counts as a local change. |
| Validator.MissingTextInvalid | app.py:1279-1288 | A replacement without a target is an invalid comment. |
| Validator.ReplacementScope | app.py:1290-1295 | A replacement with both texts is scored globally exactly when its scope is "global". |
| Validator.OtherTypesReviewed | app.py:1345-1348 | delete, add, format and unknown are left to manual review. |
| Validator.AmbiguousOnlyUnknown | app.py:1264-1348 | `ValidateChangeApplication`: only the unknown intent is ambiguous. |
| Validator.SingleWordOutcomes | app.py:1350-1412 | `ValidateSingleWordReplacement` (`validate_single_word_replacement`): a target-only intent has four outcomes. More targets: applied, with the difference added. An inference: only when the count is unchanged. An unchanged count without inference: unclear. Fewer targets: manual review. |
| Validator.InferredSourceRemoved | app.py:1374-1400 | An inferred source is a word of the original that the revised text lacks, with fewer occurrences remaining. |
| Validator.UnrevisedSingleWordUnclear | app.py:1374-1407 | An unrevised text removes no word, so a target-only intent on it is unclear. |
| Validator.StyleOutcomes | app.py:1414-1468 | `ValidateStyleChange` (`validate_style_change`): contraction style: satisfied when the original has none, applied if and only if the revised text has fewer, otherwise not applied. Any other style is left to manual review. |
| Validator.NoApostropheSatisfied | app.py:1419-1432 | An original without apostrophes satisfies a contraction style. |
| Validator.UnrevisedStyleNotApplied | app.py:1444-1453 | An unrevised text with contractions does not satisfy a contraction style. |
| Orchestrator.AnalyzeAll | app.py:554-577 | One result per comment. |
| Orchestrator.AnalyzeComments | app.py:551-577 | The loop that appends results computes `AnalyzeAll`. |
| Orchestrator.AnalyzeAllAt | app.py:556-575 | Result `i` is the analysis of comment `i`. |
| Orchestrator.ResultsFollowComments | app.py:554-577 | The results follow the comments in order. Without an AI client, every result is the rule-based one and is not AI-powered. |
| Orchestrator.FallbackKeepsComment | app.py:916-927 | `Fallback`, the rule-based path of `fallback_analyze_comment`: the rule-based result keeps its comment and is not AI-powered. |
| Orchestrator.ScopeOverride | app.py:903-914 | `ApplyUserScope`, the user scope override: "global" forces a global replacement. "local" sets the scope to local and demotes replace_global to replace_local. Any other choice leaves the intent as parsed. |
| Orchestrator.UserGlobalScope | app.py:903-927 | With the user's "global", the intent is validated as a global replacement and never needs review. |
| Orchestrator.UserLocalScope | app.py:908-914 | With the user's "local" and non-blank associated text, the local-context validator decides. Otherwise the generic rules do. |
| Orchestrator.NoUserScope | app.py:916-927 | Without a user scope, the generic rules decide. The result needs manual review exactly when the intent is unknown. |
| Orchestrator.LocalValidatorOutcomes | app.py:1709-1786 | `LocalCheck` (`validate_local_change_with_context`): the result needs manual review exactly when the associated text is not in the original context. Otherwise the expected word's presence decides, or, without one, the associated text's disappearance. |
| Orchestrator.SpellingExpectation | app.py:1737-1744 | A spelling comment expects the known correction of its associated text. |
| Orchestrator.CountStatus | app.py:1792-1794 | A status count is at most the number of results. |
| Orchestrator.CountManual | app.py:1795 | The manual-review count is at most the number of results. |
| Orchestrator.DistinctStatuses | app.py:1792-1794 | No result is counted under two statuses. |
| Orchestrator.SummaryBounds | app.py:1788-1804 | `GenerateSummary` (`generate_summary`): the counts are bounded by the total. The success rate lies in [0, 100]: it is 0 with no results, and 100 exactly when every result is correctly applied. |
| Orchestrator.CollectMissedInstances | app.py:1588-1606 | The loop computes `Missed`. |
| Orchestrator.MissedSound | app.py:1588-1606 | Every missed instance names a line that still contains the source of a partially applied global change. |
| Orchestrator.MissedComplete | app.py:1597-1606 | Every such line is reported. |
| Scenarios.JimmyNoStyle | app.py:1051-1074 | No style rule matches "jimmy". |
| Scenarios.JimmyForJohnny | test_comment_parsing.py:44-51 | The comment "Jimmy" on "Johnny" is the local replacement of "Johnny" by "Jimmy", as the parsing test expects. |
| PyText.Find | app.py:586 | `find` gives the first occurrence, or -1 when there is none. |
| PyText.RFind | app.py:630 | `rfind` gives the last occurrence, or -1 when there is none. |
| PyText.Count | app.py:1291-1293 | `count` of a non-empty string is 0 exactly when the string does not occur, and its occurrences fit in the text without overlap. |
| PyText.CountNonOverlapping | app.py:1291-1293 | Occurrences are counted without overlap: "aa" occurs twice in "aaaa" and once in "aaa". |
| PyText.FirstCapture | app.py:1179-1181 | The result is the capture of the first pattern in list order that matches, and every earlier pattern fails. When there is no result, no pattern matches. |
| PyText.SplitJoin | app.py:370-371 | Joining words with spaces and splitting gives the words back. |

## Left out

- The XML and container layer is not part of this model: python-docx, zipfile, ElementTree, relationship access and the raw-XML scan (app.py:91-244, 382-549). The walker is given an abstract tree of tag, id, text and children.
- Python's regular-expression engine is not modelled. Patterns whose captures are used are supplied as matcher oracles. Arbitrary regex semantics, and so every test expectation that depends on a particular capture, are outside the model. Only the "Jimmy" parsing test is worked out.
- The AI clients, prompt construction and JSON extraction (app.py:23-82, 717-893) are an oracle that returns a result or fails.
- `difflib.get_close_matches` (app.py:1382) is the `CloseMatch` oracle. `unified_diff`, `HtmlDiff` and the HTML and CSS injection (app.py:1550-1707) are presentation and are left out.
- Flask routes, uploads, sessions and the `session_data` dictionary (app.py:1809-2050) are left out. So is the per-comment scope default at app.py:1989. The orchestrator takes the user's scope as part of each comment.
- Logging has no behaviour and is left out.
- Case mapping and the word-character class `\w` are ASCII only: there is no Unicode case folding, and non-ASCII letters are not word characters. `strip` and `split` use Python's full Unicode whitespace set.
- Floating point is approximated:
  - `idx > len*0.5` is `2*idx > len`;
  - strategy 4's relative position is the floor of `len(rev)*lb / max(3*(lb+lo), 1)`, and may differ from the float computation at exact boundaries;
  - the success rate is a `real`.
- Contractions.Contractions: `list(set(...))` has no defined order. The model fixes the order of first occurrence, and its properties hold irrespective of the order.
- Intents.ValidateIntentStructure: the in-place fill of the intent dictionary is modelled as a function from the dictionary to a complete record. The other in-place updates of the intent in `fallback_analyze_comment` are record updates.
- Validator.ValidateChangeApplication: requires a string style description for style intents. Every parser in the model produces one; a None there would make the source raise.
- Orchestrator.AnalyzeComment: the result of the AI oracle is used as given. Its conversion from the AI's JSON is not modelled.
