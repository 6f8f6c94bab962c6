/** The two id extractors of the component (`extractEmotesetId` and
    `extractEmoteId`): pull the id out of a pasted 7TV URL, or fall back to
    the trimmed input when it holds no such URL. */
module Extraction {
  import opened Wrappers
  import opened Text

  /** The two regular expressions: `/emote-sets?\/([A-Z0-9]+)/i` and
      `/emotes\/([A-Z0-9]+)/i`. */
  datatype IdPattern = EmoteSetPattern | EmotePattern

  /** The lower-case literal `lit` occurs at `p` in `s`, ignoring ASCII case. */
  predicate LiteralAt(s: string, p: nat, lit: string) {
    p + |lit| <= |s| && forall i :: p <= i < p + |lit| ==> ToLower(s[i]) == lit[i - p]
  }

  predicate AlnumAt(s: string, i: nat) {
    i < |s| && IsAlnum(s[i])
  }

  /** Where the capture group begins when the pattern matches at `p`, or `None`
      when it does not: the literal part must be there and be followed by at
      least one character of `[A-Z0-9]`. With `emote-sets?` the optional `s` is
      tried first and dropped on backtracking. */
  function GroupStart(pat: IdPattern, s: string, p: nat): (r: Option<nat>)
    ensures r.Some? ==> p < r.value && AlnumAt(s, r.value)
  {
    match pat
    case EmoteSetPattern =>
      if LiteralAt(s, p, "emote-sets/") && AlnumAt(s, p + 11) then Some(p + 11)
      else if LiteralAt(s, p, "emote-set/") && AlnumAt(s, p + 10) then Some(p + 10)
      else None
    case EmotePattern =>
      if LiteralAt(s, p, "emotes/") && AlnumAt(s, p + 7) then Some(p + 7)
      else None
  }

  /** The pattern matches nowhere in `s`. */
  predicate NoMatch(pat: IdPattern, s: string) {
    forall p :: 0 <= p < |s| ==> GroupStart(pat, s, p).None?
  }

  /** The positions where the pattern matches. */
  function MatchesAt(pat: IdPattern, s: string): nat -> bool {
    (p: nat) => GroupStart(pat, s, p).Some?
  }

  /** The first position in `[from, end)` that satisfies `matchesAt`: the
      left-to-right scan `String.prototype.match` performs. */
  function FindFirst(matchesAt: nat -> bool, from: nat, end: nat): (r: Option<nat>)
    ensures r.Some? ==> from <= r.value < end && matchesAt(r.value)
    ensures forall p :: from <= p < end && (r.None? || p < r.value) ==> !matchesAt(p)
    decreases end - from
  {
    if from >= end then None
    else if matchesAt(from) then Some(from)
    else FindFirst(matchesAt, from + 1, end)
  }

  /** The scan stops at the first position that satisfies `matchesAt`. */
  lemma {:induction false} FindFirstIsLeftmost(matchesAt: nat -> bool, p: nat, from: nat, end: nat)
    requires from <= p < end && matchesAt(p)
    requires forall p' :: from <= p' < p ==> !matchesAt(p')
    ensures FindFirst(matchesAt, from, end) == Some(p)
    decreases p - from
  {
    if from < p {
      FindFirstIsLeftmost(matchesAt, p, from + 1, end);
    }
  }

  /** Where `String.prototype.match` reports the pattern's match in `s`: the
      leftmost position where it matches, if any. */
  function FindMatch(pat: IdPattern, s: string): (r: Option<nat>)
    ensures r.Some? ==> r.value < |s| && GroupStart(pat, s, r.value).Some?
    ensures forall p :: 0 <= p < |s| && (r.None? || p < r.value) ==> GroupStart(pat, s, p).None?
  {
    assert forall p: nat :: MatchesAt(pat, s)(p) == GroupStart(pat, s, p).Some?;
    FindFirst(MatchesAt(pat, s), 0, |s|)
  }

  /** The length of the maximal run of `[A-Z0-9]` starting at `i`: what the
      greedy `+` captures. */
  function AlnumRun(s: string, i: nat): (n: nat)
    requires i <= |s|
    ensures i + n <= |s|
    ensures forall k :: i <= k < i + n ==> IsAlnum(s[k])
    ensures i + n == |s| || !IsAlnum(s[i + n])
    decreases |s| - i
  {
    if i < |s| && IsAlnum(s[i]) then 1 + AlnumRun(s, i + 1) else 0
  }

  /** A run of `n` alphanumerics at `i` that is not continued is the maximal run. */
  lemma {:induction false} RunLength(s: string, i: nat, n: nat)
    requires i + n <= |s|
    requires forall k :: i <= k < i + n ==> IsAlnum(s[k])
    requires i + n == |s| || !IsAlnum(s[i + n])
    ensures AlnumRun(s, i) == n
    decreases n
  {
    if n > 0 {
      RunLength(s, i + 1, n - 1);
    }
  }

  /** `match ? match[1] : input.trim()` for one pattern. */
  function Extract(pat: IdPattern, input: string): (r: string)
    ensures NoMatch(pat, input) ==> r == Trim(input)
    ensures !NoMatch(pat, input) ==> r != [] && forall k :: 0 <= k < |r| ==> IsAlnum(r[k])
  {
    match FindMatch(pat, input)
    case Some(p) =>
      var q := GroupStart(pat, input, p).value;
      input[q..q + AlnumRun(input, q)]
    case None =>
      Trim(input)
  }

  /** `extractEmotesetId(url)`. */
  function ExtractEmotesetId(url: string): (r: string)
    ensures NoMatch(EmoteSetPattern, url) ==> r == Trim(url)
    ensures !NoMatch(EmoteSetPattern, url) ==> r != [] && forall k :: 0 <= k < |r| ==> IsAlnum(r[k])
  {
    Extract(EmoteSetPattern, url)
  }

  /** `extractEmoteId(input)`: the empty input short-cuts to the empty id. */
  function ExtractEmoteId(input: string): (r: string)
    ensures input == [] ==> r == []
    ensures NoMatch(EmotePattern, input) ==> r == Trim(input)
    ensures !NoMatch(EmotePattern, input) ==> r != [] && forall k :: 0 <= k < |r| ==> IsAlnum(r[k])
  {
    if input == [] then [] else Extract(EmotePattern, input)
  }

  /** When the pattern matches at `p` and nowhere before, `match` reports `p`. */
  lemma LeftmostMatch(pat: IdPattern, s: string, p: nat)
    requires GroupStart(pat, s, p).Some?
    requires forall p' :: 0 <= p' < p ==> GroupStart(pat, s, p').None?
    ensures FindMatch(pat, s) == Some(p)
  {
    var matchesAt := MatchesAt(pat, s);
    assert matchesAt(p);
    assert forall p' :: 0 <= p' < p ==> !matchesAt(p');
    FindFirstIsLeftmost(matchesAt, p, 0, |s|);
  }

  /** When the pattern first matches at `p`, the extracted id is the maximal
      alphanumeric run that starts right after the literal, in its original case. */
  lemma ExtractAtLeftmostMatch(pat: IdPattern, s: string, p: nat, q: nat)
    requires GroupStart(pat, s, p) == Some(q)
    requires forall p' :: 0 <= p' < p ==> GroupStart(pat, s, p').None?
    ensures q <= |s| && Extract(pat, s) == s[q..q + AlnumRun(s, q)]
  {
    LeftmostMatch(pat, s, p);
  }

  /** `lit` spells the lower-case `word` in any mix of ASCII cases. */
  predicate Spells(lit: string, word: string) {
    |lit| == |word| && forall k :: 0 <= k < |lit| ==> ToLower(lit[k]) == word[k]
  }

  /** `lit` is one of the literal parts the pattern accepts. */
  predicate IsPatternLiteral(pat: IdPattern, lit: string) {
    match pat
    case EmoteSetPattern => Spells(lit, "emote-set/") || Spells(lit, "emote-sets/")
    case EmotePattern => Spells(lit, "emotes/")
  }

  /** A case-insensitive literal occurrence spells the literal. */
  lemma SpellsSlice(s: string, p: nat, lit: string)
    requires LiteralAt(s, p, lit)
    ensures Spells(s[p..p + |lit|], lit)
  {
    forall k | 0 <= k < |lit|
      ensures ToLower(s[p..p + |lit|][k]) == lit[k]
    {
      assert s[p..p + |lit|][k] == s[p + k];
    }
  }

  /** Where the pattern matches at `p`, the text from `p` to the start of the
      group is one of the pattern's literal parts (the converse of `MatchAtLiteral`). */
  lemma GroupStartSpellsLiteral(pat: IdPattern, s: string, p: nat)
    requires GroupStart(pat, s, p).Some?
    ensures IsPatternLiteral(pat, s[p..GroupStart(pat, s, p).value])
  {
    var q := GroupStart(pat, s, p).value;
    match pat
    case EmotePattern =>
      SpellsSlice(s, p, "emotes/");
    case EmoteSetPattern =>
      if q == p + 11 {
        SpellsSlice(s, p, "emote-sets/");
      } else {
        SpellsSlice(s, p, "emote-set/");
      }
  }

  /** No match can begin at a position whose character is not an `e`. */
  lemma NoMatchBeforeE(pat: IdPattern, s: string, n: nat)
    requires n <= |s| && 'e' !in s[..n] && 'E' !in s[..n]
    ensures forall p :: 0 <= p < n ==> GroupStart(pat, s, p).None?
  {
    forall p | 0 <= p < n
      ensures GroupStart(pat, s, p).None?
    {
      assert s[p] in s[..n];
      assert ToLower(s[p]) != 'e';
      assert "emotes/"[0] == 'e' && "emote-set/"[0] == 'e' && "emote-sets/"[0] == 'e';
    }
  }

  /** The pattern matches where one of its literal parts stands before an
      alphanumeric, and the group starts right after that literal. */
  lemma {:induction false} MatchAtLiteral(pat: IdPattern, s: string, p: nat, lit: string)
    requires IsPatternLiteral(pat, lit)
    requires p + |lit| <= |s| && s[p..p + |lit|] == lit
    requires AlnumAt(s, p + |lit|)
    ensures GroupStart(pat, s, p) == Some(p + |lit|)
  {
    assert forall i :: p <= i < p + |lit| ==> s[i] == lit[i - p];
    match pat
    case EmoteSetPattern =>
      if Spells(lit, "emote-set/") {
        assert ToLower(s[p + 9]) != "emote-sets/"[9];
        assert LiteralAt(s, p, "emote-set/");
      } else {
        assert LiteralAt(s, p, "emote-sets/");
      }
    case EmotePattern =>
      assert LiteralAt(s, p, "emotes/");
  }

  /** A URL `pre + lit + id + post`, where `pre` (scheme and host) holds no `e`,
      `lit` is the pattern's path segment in any case and `id` is alphanumeric
      and not continued by `post`, yields exactly `id`, in its own case. */
  lemma {:induction false} UrlYieldsId(pat: IdPattern, pre: string, lit: string, id: string, post: string)
    requires 'e' !in pre && 'E' !in pre
    requires IsPatternLiteral(pat, lit)
    requires id != [] && forall k :: 0 <= k < |id| ==> IsAlnum(id[k])
    requires post == [] || !IsAlnum(post[0])
    ensures Extract(pat, pre + lit + id + post) == id
  {
    var s := pre + lit + id + post;
    var p := |pre|;
    var q := p + |lit|;
    assert s[..p] == pre;
    assert GroupStart(pat, s, p) == Some(q) by {
      assert s[p..p + |lit|] == lit;
      assert s[q] == id[0];
      MatchAtLiteral(pat, s, p, lit);
    }
    ExtractAfterE(pat, s, p, q);
    RunAfter(pre + lit, id, post);
  }

  /** A match at `p` with no `e` before it is the leftmost one. */
  lemma ExtractAfterE(pat: IdPattern, s: string, p: nat, q: nat)
    requires p <= |s| && 'e' !in s[..p] && 'E' !in s[..p]
    requires GroupStart(pat, s, p) == Some(q)
    ensures q <= |s| && Extract(pat, s) == s[q..q + AlnumRun(s, q)]
  {
    NoMatchBeforeE(pat, s, p);
    ExtractAtLeftmostMatch(pat, s, p, q);
  }

  /** The id in `x + id + post` is the maximal run that starts after `x`. */
  lemma RunAfter(x: string, id: string, post: string)
    requires forall k :: 0 <= k < |id| ==> IsAlnum(id[k])
    requires post == [] || !IsAlnum(post[0])
    ensures var s := x + id + post;
            AlnumRun(s, |x|) == |id| && s[|x|..|x| + |id|] == id
  {
    var s := x + id + post;
    assert forall k :: |x| <= k < |x| + |id| ==> s[k] == id[k - |x|];
    assert |x| + |id| < |s| ==> s[|x| + |id|] == post[0];
    RunLength(s, |x|, |id|);
  }

  /** A pasted emote path yields the emote id. */
  lemma EmoteUrlExample(url: string)
    requires url == "emotes/60AE4C8D"
    ensures ExtractEmoteId(url) == "60AE4C8D"
  {
    assert "" + "emotes/" + "60AE4C8D" + "" == url;
    assert Spells("emotes/", "emotes/") by {
      forall k | 0 <= k < 7
        ensures ToLower("emotes/"[k]) == "emotes/"[k]
      {
      }
    }
    UrlYieldsId(EmotePattern, "", "emotes/", "60AE4C8D", "");
  }

  /** The singular segment, in upper case, followed by a query string. */
  lemma EmoteSetUrlExample(url: string)
    requires url == "EMOTE-SET/01HaBc?t"
    ensures ExtractEmotesetId(url) == "01HaBc"
  {
    assert "" + "EMOTE-SET/" + "01HaBc" + "?t" == url;
    assert Spells("EMOTE-SET/", "emote-set/") by {
      forall k | 0 <= k < 10
        ensures ToLower("EMOTE-SET/"[k]) == "emote-set/"[k]
      {
      }
    }
    UrlYieldsId(EmoteSetPattern, "", "EMOTE-SET/", "01HaBc", "?t");
  }
}
