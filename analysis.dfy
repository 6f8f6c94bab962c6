/** The analysis step of `analyzeEmoteset`: check the fetched emote set and
    pair every emote of it that has a mapping with that mapping. */
module Analysis {
  import opened Wrappers
  import opened Seqs
  import opened MappingTable
  import Extraction

  /** An emote of a fetched set, as the platform reports it. */
  datatype Emote = Emote(id: string, name: string)

  /** One planned replacement: the emote now in the set and what replaces it. */
  datatype Match = Match(currentName: string, currentId: string, replacementId: string, mappingName: string)

  /** What `setAnalysis` stores. */
  datatype AnalysisResult = AnalysisResult(emotesetId: string, total: nat, matches: seq<Match>, setName: string)

  /** The reply to the emote-set request: a non-success status, a body that is
      not JSON, or a JSON body whose `emotes` field is an array (`Some`) or is
      missing or of another kind (`None`). */
  datatype SetResponse = HttpError(status: int) | NotJson | Json(emotes: Option<seq<Emote>>, setName: string)

  /** The three ways the analysis is abandoned (each ends in an alert). */
  datatype AnalyzeError = BadStatus(status: int) | UnreadableBody | InvalidEmoteset

  /** `mappings.some(m => m.originalId === emote.id)`. */
  predicate IsMapped(t: Table, e: Emote) {
    e.id in Originals(t)
  }

  /** The match built for a mapped emote from the first mapping with its id. */
  function MatchFor(t: Table, e: Emote): (m: Match)
    requires IsMapped(t, e)
    ensures m.currentId == e.id && m.currentName == e.name
  {
    var k := FindByOriginal(t, e.id).value;
    Match(e.name, e.id, t[k].replacementId, t[k].name)
  }

  /** The `filter` and `map` of `analyzeEmoteset`. */
  function ComputeMatches(emotes: seq<Emote>, t: Table): (r: seq<Match>)
    ensures |r| <= |emotes|
    ensures forall k :: 0 <= k < |r| ==> r[k].currentId in Originals(t)
    ensures forall k :: 0 <= k < |r| ==>
      var i := FindByOriginal(t, r[k].currentId).value;
      r[k].replacementId == t[i].replacementId && r[k].mappingName == t[i].name
  {
    var keep := (e: Emote) => IsMapped(t, e);
    var kept := Filter(emotes, keep);
    FilterSpec(emotes, keep);
    seq(|kept|, k requires 0 <= k < |kept| => MatchFor(t, kept[k]))
  }

  /** The emotes a match list refers to, in match order. */
  function MatchedEmotes(ms: seq<Match>): (r: seq<Emote>)
    ensures |r| == |ms|
    ensures forall k :: 0 <= k < |ms| ==> r[k].id == ms[k].currentId && r[k].name == ms[k].currentName
  {
    seq(|ms|, k requires 0 <= k < |ms| => Emote(ms[k].currentId, ms[k].currentName))
  }

  /** The matches follow the order of the set: the matched emotes are a
      subsequence of the set's emotes, and exactly the mapped ones. */
  lemma MatchesFollowSetOrder(emotes: seq<Emote>, t: Table)
    ensures IsSubsequence(MatchedEmotes(ComputeMatches(emotes, t)), emotes)
    ensures forall e :: e in emotes && IsMapped(t, e) ==> e in MatchedEmotes(ComputeMatches(emotes, t))
  {
    var keep := (e: Emote) => IsMapped(t, e);
    var kept := Filter(emotes, keep);
    FilterSpec(emotes, keep);
    assert MatchedEmotes(ComputeMatches(emotes, t)) == kept;
  }

  /** Taking one emote off the front of the set takes its match (if any) off
      the front of the match list. */
  lemma ComputeMatchesCons(emotes: seq<Emote>, t: Table)
    requires emotes != []
    ensures ComputeMatches(emotes, t) ==
      (if IsMapped(t, emotes[0]) then [MatchFor(t, emotes[0])] else []) + ComputeMatches(emotes[1..], t)
  {
    var keep := (e: Emote) => IsMapped(t, e);
    assert Filter(emotes, keep) == (if keep(emotes[0]) then [emotes[0]] else []) + Filter(emotes[1..], keep);
  }

  /** How many emotes of the set carry the id `x`. A named count rather than `Count` with a lambda: two
      textually equal lambdas are not provably the same function, so lemmas
      about this count need a term of their own. */
  function CountEmoteId(emotes: seq<Emote>, x: string): nat {
    if emotes == [] then 0 else (if emotes[0].id == x then 1 else 0) + CountEmoteId(emotes[1..], x)
  }

  /** How many matches replace the emote `x` (named for the same reason). */
  function CountMatchId(ms: seq<Match>, x: string): nat {
    if ms == [] then 0 else (if ms[0].currentId == x then 1 else 0) + CountMatchId(ms[1..], x)
  }

  /** Every emote of the set whose id is mapped gets exactly one match, and an
      emote without a mapping gets none. */
  lemma {:induction false} OneMatchPerMappedEmote(emotes: seq<Emote>, t: Table, x: string)
    ensures CountMatchId(ComputeMatches(emotes, t), x) ==
      if x in Originals(t) then CountEmoteId(emotes, x) else 0
    decreases |emotes|
  {
    if emotes != [] {
      ComputeMatchesCons(emotes, t);
      OneMatchPerMappedEmote(emotes[1..], t, x);
      var head := if IsMapped(t, emotes[0]) then [MatchFor(t, emotes[0])] else [];
      var rest := ComputeMatches(emotes[1..], t);
      if head == [] {
        assert head + rest == rest;
      } else {
        assert (head + rest)[0] == head[0] && (head + rest)[1..] == rest;
      }
    } else {
      assert ComputeMatches(emotes, t) == [];
    }
  }

  /** The analysis part of `analyzeEmoteset`, after the fetch. */
  function AnalyzeEmoteset(url: string, response: SetResponse, t: Table): (r: Result<AnalysisResult, AnalyzeError>)
    ensures response.HttpError? ==> r == Failure(BadStatus(response.status))
    ensures response.NotJson? ==> r == Failure(UnreadableBody)
    ensures response.Json? ==> (r.Success? <==> response.emotes.Some?)
    ensures response.Json? && response.emotes.None? ==> r == Failure(InvalidEmoteset)
    ensures r.Success? ==>
      && response.Json? && response.emotes.Some?
      && r.value.emotesetId == Extraction.ExtractEmotesetId(url)
      && r.value.total == |response.emotes.value|
      && r.value.matches == ComputeMatches(response.emotes.value, t)
      && |r.value.matches| <= r.value.total
      && r.value.setName == response.setName
  {
    match response
    case HttpError(status) => Failure(BadStatus(status))
    case NotJson => Failure(UnreadableBody)
    case Json(emotes, setName) =>
      match emotes
      case None => Failure(InvalidEmoteset)
      case Some(list) =>
        Success(AnalysisResult(Extraction.ExtractEmotesetId(url), |list|, ComputeMatches(list, t), setName))
  }

  /** A one-row table against a two-emote set: only the mapped emote is matched. */
  lemma SingleMappingExample(t: Table, emotes: seq<Emote>)
    requires t == [Mapping("A1", "B2", "X", false, 0)]
    requires emotes == [Emote("A1", "pumpkin"), Emote("Z9", "other")]
    ensures ComputeMatches(emotes, t) == [Match("pumpkin", "A1", "B2", "X")]
  {
    assert Originals(t) == {"A1"};
    ComputeMatchesCons(emotes, t);
    ComputeMatchesCons(emotes[1..], t);
    assert emotes[1..][1..] == [];
  }
}
