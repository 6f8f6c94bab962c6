# seventv-replacer, modelled in Dafny

seventv-replacer is a single-page tool for 7TV emote sets. The user keeps a
library of *mappings*. Each mapping says "emote `originalId` should become
emote `replacementId`". The library can be grown by hand or from two preset
files (Halloween and Winter).

Given the url of an emote set, the tool:
- fetches the set;
- lists the set's emotes that have a mapping (the *matches*);
- on request, swaps each match on the platform: it REMOVEs the current emote,
  waits 200 ms, then ADDs the replacement under the same name.

All of this lives in one React component, `src/App.jsx`. This project models
the component's logic. The UI is not modelled.

Modules, one per file:

- `Wrappers`: `Option` and `Result`.
- `Seqs`: an order-keeping `Filter`, what it keeps (`FilterSpec`) and the
  subsequence relation.
  These are the `Array.prototype.filter` used throughout.
- `Text`: the character classes `[A-Z0-9]`, ASCII case folding, the white
  space that `String.prototype.trim` removes, `trim` itself and
  `String.prototype.includes`.
- `Extraction`: `extractEmotesetId` and `extractEmoteId`. Each is written as
  a leftmost search for its regular expression (`/emote-sets?\/([A-Z0-9]+)/i`,
  `/emotes\/([A-Z0-9]+)/i`) with a greedy capture. The fallback is the
  trimmed input.
- `MappingTable`: the library as a sequence of rows, and the operations on
  it:
  - adding a row, including the overwrite question;
  - deleting a row, where preset rows are protected;
  - merging a preset file.
- `Analysis`: the answer to an emote-set fetch and the match list built from
  it.
- `BatchReplace`: the replace loop. It is an imperative method, proved
  against a function that lists the actions the loop takes: the two
  mutation calls and the three kinds of pause. The aggregation into a
  report is a separate function.
- `Replacer`: class `EmoteReplacer`, which holds the component's state
  (`mappings`, `newMapping`, `emotesetUrl`, `analysis`, `apiToken`). Its
  methods are the component's handlers, each proved against the pure
  definitions above.

Inputs that come from outside become parameters:
- the clock readings `Date.now()`: one for a new mapping, and one per record while a preset file is mapped;
- the user's answer to the overwrite confirmation;
- a fetched preset file (`None` when loading fails);
- the emote-set response (an HTTP error, an unreadable body, or a JSON body
  with or without an `emotes` array);
- the platform's reply to each REMOVE and ADD call.

Where the component's behaviour is surprising, the model follows the code:

- `replaceEmotes` clears the analysis and the url as soon as **one** item
  succeeded (`successCount > 0`). It does not wait for a fully successful
  run. A partially failed run therefore discards the list of remaining
  matches (`ReplaceEmotes`).
- `removeMapping` looks only at the **first** row with the given `id`. If
  that row is not a preset, every row with that `id` is deleted, including a
  preset one that shares the `id`. `RemoveMappingKeepsPresets` shows that
  presets are safe when row ids are distinct.
- A preset merge skips ids that are already in the library. It does not skip
  an id that occurs twice in the file itself, so such an id ends up in two
  rows (`MergePresetKeepsFileDuplicates`). Uniqueness of original ids is kept
  when the file has no repeats (`MergePresetKeepsUnique`).
- A failed item never stops the run. Every match gets exactly one REMOVE.
  An ADD is sent exactly for the matches whose REMOVE was accepted.
- The run does not sanitize names, retry failed items, or truncate the list
  of failures. The alert lists every failure.

## Model

| member | source | states |
|---|---|---|
| Seqs.FilterSpec | src/App.jsx:47 | `filter` keeps only elements that pass the test and every one that does, as often as it occurs (the length is the count of passing elements), in order; a list whose elements all pass is kept whole |
| Text.Trim | src/App.jsx:151 | the result is a factor of the input with only JS white space and line terminators around it, and none at its ends |
| Text.TrimStartAt | src/App.jsx:151 | removing leading white space stops exactly at the first character that is not white space |
| Text.TrimEndAt | src/App.jsx:151 | removing trailing white space stops exactly after the last character that is not white space |
| Text.TrimIsFactor | src/App.jsx:151 | trimming gives exactly the part between leading and trailing white space |
| Text.TrimIdempotent | src/App.jsx:151 | trimming an already-trimmed id changes nothing |
| Text.ContainsAt | src/App.jsx:288 | `includes` holds whenever the substring occurs at some position |
| Text.Contains | src/App.jsx:288 | `includes`: the substring occurs at the front, or somewhere in the rest |
| Text.ContainsOccurs | src/App.jsx:288 | `includes` holds only when the substring occurs at some position; with `ContainsAt`, exactly then |
| Extraction.FindMatch | src/App.jsx:150 | `match` finds a position where the pattern matches, and no position before it matches |
| Extraction.GroupStart | src/App.jsx:150 | when the pattern matches at a position, its capture group starts after it, at a character of `[A-Z0-9]` |
| Extraction.GroupStartSpellsLiteral | src/App.jsx:150 | where the pattern matches, the text up to the group is `emote-set/`, `emote-sets/` or `emotes/` in some mix of cases |
| Extraction.MatchAtLiteral | src/App.jsx:150 | conversely, one of those literals followed by a character of `[A-Z0-9]` is a match, with the group right after the literal |
| Extraction.AlnumRun | src/App.jsx:150 | the greedy `[A-Z0-9]+`: a run of alphanumerics within the input that cannot be extended |
| Extraction.Extract | src/App.jsx:151 | without a match, the trimmed input; with one, a non-empty `[A-Z0-9]` id |
| Extraction.LeftmostMatch | src/App.jsx:150 | a position where the pattern matches, with no match before it, is the one `match` reports |
| Extraction.ExtractEmotesetId | src/App.jsx:149-152 | without a match, the result is the trimmed url; with a match, it is a non-empty `[A-Z0-9]` id |
| Extraction.ExtractEmoteId | src/App.jsx:154-158 | empty input gives the empty id; without a match, the trimmed input; with a match, a non-empty `[A-Z0-9]` id |
| Extraction.ExtractAtLeftmostMatch | src/App.jsx:150-151 | at the leftmost match, the id is the maximal alphanumeric run right after the literal, with its original case kept |
| Extraction.UrlYieldsId | src/App.jsx:149-158 | a url made of a prefix with no `e` or `E`, then `emote-set(s)/` or `emotes/` in any case, an id, then a non-alphanumeric character or the end, yields exactly that id (the prefix restriction keeps an earlier match from winning) |
| Extraction.EmoteUrlExample | src/App.jsx:154-158 | `emotes/60AE4C8D` yields `60AE4C8D` |
| Extraction.EmoteSetUrlExample | src/App.jsx:149-152 | `EMOTE-SET/01HaBc?t` yields `01HaBc`: the match ignores case, the id keeps its case |
| MappingTable.FindByOriginal | src/App.jsx:17 | the first row with the original id, and none exactly when no row has it |
| MappingTable.Originals | src/App.jsx:69 | `new Set(mappings.map(m => m.originalId))`: the original ids present in the table; `FindByOriginal` finds a row exactly for these |
| MappingTable.FindById | src/App.jsx:42 | the first row with the row id, and none exactly when no row has it |
| MappingTable.WithoutOriginal | src/App.jsx:29 | a subsequence of the table holding exactly the rows with another original id, each as often as before; the table itself when the id is absent |
| MappingTable.WithoutId | src/App.jsx:47 | a subsequence of the table holding exactly the rows with another row id, each as often as before |
| MappingTable.AddMapping | src/App.jsx:15-39 | an incomplete draft changes nothing; otherwise the form is cleared; a declined overwrite keeps the table; else the new row ends the table and no other row keeps its original id; a new id is appended to the unchanged table; on a confirmed overwrite exactly the rows with another original id stay, each as often as before |
| MappingTable.AddMappingKeepsUnique | src/App.jsx:27-33 | adding keeps the original ids of the table distinct |
| MappingTable.RemoveMapping | src/App.jsx:41-48 | the result is a subsequence of the table; if the first row with the id is a preset, nothing changes; otherwise exactly the rows with that id go, presets among them |
| MappingTable.RemoveMappingDeletesSharedPreset | src/App.jsx:41-47 | a preset row that shares its id with an earlier custom row is deleted with it |
| MappingTable.RemoveMappingKeepsPresets | src/App.jsx:41-48 | with distinct row ids, no preset row is ever deleted |
| MappingTable.RemoveMappingKeepsUnique | src/App.jsx:47 | deleting keeps the original ids distinct |
| MappingTable.PresetRows | src/App.jsx:61-67 | one preset row per file record, in order, with the default name when the name is missing; the id is that record's clock reading plus its index |
| MappingTable.PresetRowIdsIncrease | src/App.jsx:61-67 | with a clock that never runs backwards, the ids of one import strictly increase, so they are distinct |
| MappingTable.MergePreset | src/App.jsx:61-77 | the old table stays whole at the front; each added row is a preset row of the file, in file order, with a new original id; every such row is added, and the added count is the number of file records with a new original id, repeats counted, whatever the clock readings; a failed load changes nothing |
| MappingTable.MergePresetKeepsUnique | src/App.jsx:69-70 | a file without repeated ids keeps the original ids distinct |
| MappingTable.MergePresetKeepsFileDuplicates | src/App.jsx:69-75 | a file that repeats an id the table lacks adds two rows with that id after the table |
| Analysis.ComputeMatches | src/App.jsx:177-192 | every match is a mapped emote, and carries the replacement id and name of the first mapping for that emote |
| Analysis.MatchFor | src/App.jsx:185-191 | the match for a mapped emote keeps its id and name |
| Analysis.IsMapped | src/App.jsx:178 | `mappings.some(...)`: some row has the emote's id as its original id |
| Analysis.MatchesFollowSetOrder | src/App.jsx:177-179 | the matched emotes are a subsequence of the set and include every mapped emote |
| Analysis.ComputeMatchesCons | src/App.jsx:177-192 | the match list is built emote by emote from the front of the set |
| Analysis.OneMatchPerMappedEmote | src/App.jsx:177-192 | each emote id gets as many matches as it has occurrences in the set if it is mapped, and none otherwise |
| Analysis.SingleMappingExample | src/App.jsx:177-192 | a one-row table against a two-emote set gives exactly the one match for the mapped emote |
| Analysis.AnalyzeEmoteset | src/App.jsx:160-194 | a bad status and an unreadable body fail; a body without an `emotes` array fails as an invalid set; otherwise the result holds the extracted set id, the emote count, exactly the match list of the set against the library, and the set name |
| BatchReplace.ItemError | src/App.jsx:252-279 | an item ends without error exactly when both calls were accepted |
| BatchReplace.IsRateLimitError | src/App.jsx:288 | the rate-limit test of the error message |
| BatchReplace.RateLimitErrorOccurs | src/App.jsx:288 | a message is a rate-limit error exactly when `rate` or `limit` occurs in it |
| BatchReplace.ItemOutcome | src/App.jsx:281-286 | the result carries the current name; it is a success exactly when both calls were accepted; otherwise the failure carries the message of the first rejected call |
| BatchReplace.ItemActions | src/App.jsx:230-292 | the actions of one item: REMOVE; on rejection the rate-limit pause if due; else 200 ms, ADD, then 500 ms or the rate-limit pause if due |
| BatchReplace.Backoff | src/App.jsx:288-291 | the 3000 ms pause after a rejected call, taken exactly when the message is a rate-limit error (stated in `ItemActionsShape`) |
| BatchReplace.ItemActionsShape | src/App.jsx:230-290 | each item begins with its REMOVE; an ADD follows 200 ms later exactly when the REMOVE was accepted; the 500 ms pause follows success only; the 3000 ms pause follows a rate-limit message only |
| BatchReplace.OutcomesAt | src/App.jsx:218-286 | the loop records exactly one result per match, and the `i`-th result is the outcome of the `i`-th match's replies |
| BatchReplace.Outcomes | src/App.jsx:218-286 | the `results` of the first `n` items, in item order; `OutcomesAt` gives one per item |
| BatchReplace.BatchActions | src/App.jsx:218-293 | the trace of the first `n` items, one item's actions after another; `RunBatch`'s trace is proved equal to it |
| BatchReplace.RunBatch | src/App.jsx:218-293 | the loop's results are the outcomes of the matches in match order, and its actions are the items' actions one after another |
| BatchReplace.ItemCalls | src/App.jsx:230-279 | an item sends one REMOVE, and sends its ADD exactly when the REMOVE was accepted |
| BatchReplace.RemovesAreRemoveCalls | src/App.jsx:218-250 | the REMOVE calls of a run are one per match, in match order, whatever the replies |
| BatchReplace.RemovesInOrder | src/App.jsx:218-293 | the run sends exactly one REMOVE per match, in match order, whatever failed before |
| BatchReplace.AddsAreAcceptedAdds | src/App.jsx:218-279 | the ADD calls of a run are one per match whose REMOVE was accepted, in match order |
| BatchReplace.AddsFollowAcceptedRemoves | src/App.jsx:218-293 | the number of ADDs is the number of accepted REMOVEs, and each ADD sends a match's replacement id under its current name |
| BatchReplace.Summarize | src/App.jsx:295-305 | the success and fail counts are the numbers of successful and failed results, repeats counted, and add up to the number of results; the failure list is every failed result, in order; the success count is zero exactly when every item failed |
| BatchReplace.SucceededCount | src/App.jsx:281-295 | the number of successes among the results is the number of matches whose REMOVE and ADD were both accepted |
| BatchReplace.ReportCountsReplies | src/App.jsx:281-296 | the success count is the number of matches whose two calls were accepted; the fail count is the rest |
| Replacer.EmoteReplacer.constructor | src/App.jsx:5-12 | the component starts with an empty library, form, url, analysis and token |
| Replacer.EmoteReplacer.SetApiToken | src/App.jsx:367 | the token field stores the typed token; nothing else changes |
| Replacer.EmoteReplacer.SetEmotesetUrl | src/App.jsx:531 | the url field stores the typed url; nothing else changes |
| Replacer.EmoteReplacer.SetOriginalInput | src/App.jsx:423 | the form's original id becomes the id extracted from the typed text |
| Replacer.EmoteReplacer.SetReplacementInput | src/App.jsx:434 | the form's replacement id becomes the id extracted from the typed text |
| Replacer.EmoteReplacer.SetNameInput | src/App.jsx:446 | the form's name becomes the typed text, unchanged |
| Replacer.EmoteReplacer.AddMapping | src/App.jsx:15-39 | library and form become what `AddMapping` gives; distinct original ids stay distinct; nothing else changes |
| Replacer.EmoteReplacer.RemoveMapping | src/App.jsx:41-48 | the library becomes what `RemoveMapping` gives; distinct original ids stay distinct; nothing else changes |
| Replacer.EmoteReplacer.ImportHalloweenPreset | src/App.jsx:50-85 | the library becomes the Halloween merge, with the default name `Halloween 2024`; the number of added rows is returned |
| Replacer.EmoteReplacer.ImportWinterPreset | src/App.jsx:86-120 | the library becomes the Winter merge, with the default name `Winter 2024`; the number of added rows is returned |
| Replacer.EmoteReplacer.AnalyzeEmoteset | src/App.jsx:160-199 | a successful analysis replaces the stored one; an error is reported and keeps the previous analysis |
| Replacer.EmoteReplacer.ReplaceEmotes | src/App.jsx:203-316 | no token, or no match, means no call and no change; a token and at least one match always run the loop: one result per match, the trace of the run, and the report; analysis and url are cleared exactly when some item succeeded |

## Left out

- Network and JSON: `fetch`, status codes and JSON parsing are reduced to the response datatypes and the per-call replies. The GraphQL mutation text, the headers and the bearer token's use are not modelled.
- Exporting and importing the library as a file (`exportMappings`, `importMappings`): these are file I/O. The import replaces the library with any parsed JSON, unchecked.
- Alert and console texts: the replace run returns a structured report, not the alert's wording. The preset imports return the added count, not the "all already in your library" or "Added n" messages.
- The `analyzing`, `replacing` and `loadingPreset` flags only drive the UI while a request is pending, and `showSettings` only opens and closes the settings panel. None of them is modelled.
- Real time: pauses appear as `Wait` actions in the trace, and clock readings are parameters. There is no interleaving with other handlers. React's state updates and stale closures are not modelled.
- The rendered UI (JSX, `EmotePreview`, image loading) is not part of this model.
- Replacer.EmoteReplacer.ReplaceEmotes: requires one reply pair per match. The ADD reply of an item whose REMOVE was rejected is never used.
