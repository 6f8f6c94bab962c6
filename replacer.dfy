/** The `EmoteReplacer` component's state and the handlers that change it.
    Every handler is proved against the pure definition of what it does; the
    user's answer to the overwrite question, the clock, the fetched files and
    the platform's replies come in as parameters. */
module Replacer {
  import opened Wrappers
  import MappingTable
  import Extraction
  import Analysis
  import BatchReplace

  /** How a replace run ended: refused before any call, or run to the end
      with its report. */
  datatype ReplaceOutcome =
    | MissingToken
    | NothingToReplace
    | Completed(report: BatchReplace.Report)

  class EmoteReplacer {
    var mappings: MappingTable.Table
    var newMapping: MappingTable.Draft
    var emotesetUrl: string
    var analysis: Option<Analysis.AnalysisResult>
    var apiToken: string

    /** Everything starts empty. */
    constructor ()
      ensures mappings == [] && newMapping == MappingTable.EmptyDraft
      ensures emotesetUrl == [] && analysis == None && apiToken == []
    {
      mappings := [];
      newMapping := MappingTable.EmptyDraft;
      emotesetUrl := [];
      analysis := None;
      apiToken := [];
    }

    /** The token field of the settings panel. */
    method SetApiToken(token: string)
      modifies this
      ensures apiToken == token
      ensures mappings == old(mappings) && newMapping == old(newMapping)
      ensures emotesetUrl == old(emotesetUrl) && analysis == old(analysis)
    {
      apiToken := token;
    }

    /** The emote set url field. */
    method SetEmotesetUrl(url: string)
      modifies this
      ensures emotesetUrl == url
      ensures mappings == old(mappings) && newMapping == old(newMapping)
      ensures analysis == old(analysis) && apiToken == old(apiToken)
    {
      emotesetUrl := url;
    }

    /** Typing into the "original emote" field stores the id extracted from the text. */
    method SetOriginalInput(input: string)
      modifies this
      ensures newMapping == old(newMapping).(originalId := Extraction.ExtractEmoteId(input))
      ensures mappings == old(mappings) && emotesetUrl == old(emotesetUrl)
      ensures analysis == old(analysis) && apiToken == old(apiToken)
    {
      newMapping := newMapping.(originalId := Extraction.ExtractEmoteId(input));
    }

    /** Typing into the "replacement emote" field stores the id extracted from the text. */
    method SetReplacementInput(input: string)
      modifies this
      ensures newMapping == old(newMapping).(replacementId := Extraction.ExtractEmoteId(input))
      ensures mappings == old(mappings) && emotesetUrl == old(emotesetUrl)
      ensures analysis == old(analysis) && apiToken == old(apiToken)
    {
      newMapping := newMapping.(replacementId := Extraction.ExtractEmoteId(input));
    }

    /** The name field of the form. */
    method SetNameInput(name: string)
      modifies this
      ensures newMapping == old(newMapping).(name := name)
      ensures mappings == old(mappings) && emotesetUrl == old(emotesetUrl)
      ensures analysis == old(analysis) && apiToken == old(apiToken)
    {
      newMapping := newMapping.(name := name);
    }

    /** The "Add Mapping" button; `confirmReplace` is the user's answer when
        the original id is already mapped, `now` the clock's reading. */
    method AddMapping(confirmReplace: bool, now: int)
      modifies this
      ensures var r := MappingTable.AddMapping(old(mappings), old(newMapping), confirmReplace, now);
        mappings == r.table && newMapping == r.draft
      ensures MappingTable.UniqueOriginals(old(mappings)) ==> MappingTable.UniqueOriginals(mappings)
      ensures emotesetUrl == old(emotesetUrl) && analysis == old(analysis) && apiToken == old(apiToken)
    {
      var r := MappingTable.AddMapping(mappings, newMapping, confirmReplace, now);
      if MappingTable.UniqueOriginals(mappings) {
        MappingTable.AddMappingKeepsUnique(mappings, newMapping, confirmReplace, now);
      }
      mappings, newMapping := r.table, r.draft;
    }

    /** The delete button of the row whose `id` is given. */
    method RemoveMapping(id: int)
      modifies this
      ensures mappings == MappingTable.RemoveMapping(old(mappings), id)
      ensures MappingTable.UniqueOriginals(old(mappings)) ==> MappingTable.UniqueOriginals(mappings)
      ensures newMapping == old(newMapping) && emotesetUrl == old(emotesetUrl)
      ensures analysis == old(analysis) && apiToken == old(apiToken)
    {
      if MappingTable.UniqueOriginals(mappings) {
        MappingTable.RemoveMappingKeepsUnique(mappings, id);
      }
      mappings := MappingTable.RemoveMapping(mappings, id);
    }

    /** The "Load Halloween" button; `fetched` is the preset file's rows, or
        `None` when it could not be loaded, and `readings` the clock's reading
        as each record is mapped. Answers how many rows were added. */
    method ImportHalloweenPreset(fetched: Option<seq<MappingTable.PresetEntry>>, readings: seq<int>) returns (added: nat)
      requires fetched.Some? ==> |readings| == |fetched.value|
      modifies this
      ensures var r := MappingTable.MergePreset(old(mappings), fetched, MappingTable.HalloweenDefaultName, readings);
        mappings == r.table && added == r.added
      ensures newMapping == old(newMapping) && emotesetUrl == old(emotesetUrl)
      ensures analysis == old(analysis) && apiToken == old(apiToken)
    {
      var r := MappingTable.MergePreset(mappings, fetched, MappingTable.HalloweenDefaultName, readings);
      mappings, added := r.table, r.added;
    }

    /** The "Load Winter" button, the same merge with the winter file. */
    method ImportWinterPreset(fetched: Option<seq<MappingTable.PresetEntry>>, readings: seq<int>) returns (added: nat)
      requires fetched.Some? ==> |readings| == |fetched.value|
      modifies this
      ensures var r := MappingTable.MergePreset(old(mappings), fetched, MappingTable.WinterDefaultName, readings);
        mappings == r.table && added == r.added
      ensures newMapping == old(newMapping) && emotesetUrl == old(emotesetUrl)
      ensures analysis == old(analysis) && apiToken == old(apiToken)
    {
      var r := MappingTable.MergePreset(mappings, fetched, MappingTable.WinterDefaultName, readings);
      mappings, added := r.table, r.added;
    }

    /** The "Analyze" button: a successful answer replaces the analysis, an
        error leaves the previous one in place. */
    method AnalyzeEmoteset(response: Analysis.SetResponse) returns (error: Option<Analysis.AnalyzeError>)
      modifies this
      ensures var r := Analysis.AnalyzeEmoteset(old(emotesetUrl), response, old(mappings));
        && (r.Success? ==> error == None && analysis == Some(r.value))
        && (r.Failure? ==> error == Some(r.error) && analysis == old(analysis))
      ensures mappings == old(mappings) && newMapping == old(newMapping)
      ensures emotesetUrl == old(emotesetUrl) && apiToken == old(apiToken)
    {
      var r := Analysis.AnalyzeEmoteset(emotesetUrl, response, mappings);
      if r.Success? {
        analysis, error := Some(r.value), None;
      } else {
        error := Some(r.error);
      }
    }

    /** The "Replace" button. Without a token, or without a match to replace,
        nothing is sent and nothing changes. Otherwise every match is
        processed in order (`results`, `trace`), the report is built from the
        results, and the analysis and the url are cleared when at least one
        item succeeded. `replies` are the platform's answers, one per match. */
    method ReplaceEmotes(replies: seq<BatchReplace.ItemReplies>)
      returns (outcome: ReplaceOutcome, results: seq<BatchReplace.ItemResult>, trace: seq<BatchReplace.Action>)
      modifies this
      requires analysis.Some? ==> |replies| == |analysis.value.matches|
      ensures old(apiToken) == [] ==> outcome == MissingToken
      ensures old(apiToken) != [] && (old(analysis).None? || old(analysis).value.matches == []) ==>
        outcome == NothingToReplace
      ensures old(apiToken) != [] && old(analysis).Some? && old(analysis).value.matches != [] ==>
        outcome.Completed?
      ensures !outcome.Completed? ==>
        && results == [] && trace == []
        && analysis == old(analysis) && emotesetUrl == old(emotesetUrl)
      ensures outcome.Completed? ==>
        && old(apiToken) != [] && old(analysis).Some? && old(analysis).value.matches != []
        && var ms := old(analysis).value.matches;
        && results == BatchReplace.Outcomes(ms, replies, |ms|)
        && trace == BatchReplace.BatchActions(old(analysis).value.emotesetId, ms, replies, |ms|)
        && outcome.report == BatchReplace.Summarize(results)
      ensures outcome.Completed? && outcome.report.successCount > 0 ==> analysis == None && emotesetUrl == []
      ensures outcome.Completed? && outcome.report.successCount == 0 ==>
        analysis == old(analysis) && emotesetUrl == old(emotesetUrl)
      ensures mappings == old(mappings) && newMapping == old(newMapping) && apiToken == old(apiToken)
    {
      results, trace := [], [];
      if apiToken == [] {
        outcome := MissingToken;
        return;
      }
      if analysis.None? || analysis.value.matches == [] {
        outcome := NothingToReplace;
        return;
      }
      results, trace := BatchReplace.RunBatch(analysis.value.emotesetId, analysis.value.matches, replies);
      var report := BatchReplace.Summarize(results);
      outcome := Completed(report);
      if report.successCount > 0 {
        analysis, emotesetUrl := None, [];
      }
    }
  }
}
