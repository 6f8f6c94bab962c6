/** The replace loop of `replaceEmotes`: for every match, in order, REMOVE the
    current emote from the set, wait 200 ms, ADD the replacement under the
    same name, wait 500 ms; a failed item is recorded, followed by a 3000 ms
    pause when its error mentions a rate limit, and the loop goes on.
    The remote calls are given as replies, the waits become actions. */
module BatchReplace {
  import opened Wrappers
  import opened Seqs
  import opened Text
  import opened Analysis

  /** What one mutation call came back with: a body without `errors`, or the
      message of the first error (also the message of a thrown network or
      parse error, which the loop treats the same way). */
  datatype Reply = Accepted | Rejected(message: string)

  /** The platform's replies to the two calls made for one match. The add
      reply is never consulted when the remove is rejected. */
  datatype ItemReplies = ItemReplies(remove: Reply, add: Reply)

  /** What the loop does, in order: the two kinds of mutation call (with the
      `id`, `emote_id` and `name` variables they send) and the pauses. */
  datatype Action =
    | RemoveCall(setId: string, emoteId: string, name: string)
    | AddCall(setId: string, emoteId: string, name: string)
    | Wait(ms: nat)

  /** The record pushed onto `results` for one match. */
  datatype ItemResult = Succeeded(name: string) | Failed(name: string, error: string)

  const RemoveAddGap: nat := 200
  const ItemGap: nat := 500
  const RateLimitPause: nat := 3000

  /** `error.message.includes('rate') || error.message.includes('limit')`. */
  predicate IsRateLimitError(message: string) {
    Contains(message, "rate") || Contains(message, "limit")
  }

  /** A message is a rate-limit error exactly when "rate" or "limit" occurs in it. */
  lemma RateLimitErrorOccurs(message: string)
    ensures IsRateLimitError(message) <==>
      (exists k :: OccursAt(message, "rate", k)) || (exists k :: OccursAt(message, "limit", k))
  {
    if Contains(message, "rate") {
      ContainsOccurs(message, "rate");
    }
    if Contains(message, "limit") {
      ContainsOccurs(message, "limit");
    }
    if k: nat :| OccursAt(message, "rate", k) {
      ContainsAt(message, "rate", k);
    }
    if k: nat :| OccursAt(message, "limit", k) {
      ContainsAt(message, "limit", k);
    }
  }

  /** The message of the error that ends an item, if any: the remove's, else the add's. */
  function ItemError(o: ItemReplies): (r: Option<string>)
    ensures r.None? <==> o.remove.Accepted? && o.add.Accepted?
  {
    if o.remove.Rejected? then Some(o.remove.message)
    else if o.add.Rejected? then Some(o.add.message)
    else None
  }

  /** The result recorded for one match. */
  function ItemOutcome(m: Match, o: ItemReplies): (r: ItemResult)
    ensures r.name == m.currentName
    ensures r.Succeeded? <==> o.remove.Accepted? && o.add.Accepted?
    ensures o.remove.Rejected? ==> r == Failed(m.currentName, o.remove.message)
    ensures o.remove.Accepted? && o.add.Rejected? ==> r == Failed(m.currentName, o.add.message)
  {
    match ItemError(o)
    case None => Succeeded(m.currentName)
    case Some(message) => Failed(m.currentName, message)
  }

  /** The pause after a failed call: 3000 ms when its message mentions a rate limit. */
  function Backoff(message: string): seq<Action> {
    if IsRateLimitError(message) then [Wait(RateLimitPause)] else []
  }

  /** The actions taken for one match. */
  function ItemActions(setId: string, m: Match, o: ItemReplies): seq<Action> {
    [RemoveCall(setId, m.currentId, m.currentName)] +
      match o.remove
      case Rejected(message) => Backoff(message)
      case Accepted =>
        [Wait(RemoveAddGap), AddCall(setId, m.replacementId, m.currentName)] +
          match o.add
          case Rejected(message) => Backoff(message)
          case Accepted => [Wait(ItemGap)]
  }

  /** The shape of one item's actions. Every item starts with its REMOVE; an
      ADD is sent exactly when the REMOVE was accepted, 200 ms after it; the
      500 ms pause follows success only, the 3000 ms pause a rate-limit error only. */
  lemma ItemActionsShape(setId: string, m: Match, o: ItemReplies)
    ensures var r := ItemActions(setId, m, o);
      && |r| >= 1 && r[0] == RemoveCall(setId, m.currentId, m.currentName)
      && ((exists k :: 0 <= k < |r| && r[k].AddCall?) <==> o.remove.Accepted?)
      && (o.remove.Accepted? ==> |r| >= 3 && r[1] == Wait(RemoveAddGap) && r[2] == AddCall(setId, m.replacementId, m.currentName))
      && (Wait(ItemGap) in r <==> ItemError(o).None?)
      && (Wait(RateLimitPause) in r <==> ItemError(o).Some? && IsRateLimitError(ItemError(o).value))
  {
    var r := ItemActions(setId, m, o);
    if o.remove.Accepted? {
      assert r[2].AddCall?;
    }
  }

  /** The actions of the first `n` items, one item after another. */
  function BatchActions(setId: string, ms: seq<Match>, os: seq<ItemReplies>, n: nat): seq<Action>
    requires n <= |ms| && |os| == |ms|
  {
    if n == 0 then [] else BatchActions(setId, ms, os, n - 1) + ItemActions(setId, ms[n - 1], os[n - 1])
  }

  /** The results of the first `n` items, in item order. */
  function Outcomes(ms: seq<Match>, os: seq<ItemReplies>, n: nat): seq<ItemResult>
    requires n <= |ms| && |os| == |ms|
  {
    if n == 0 then [] else Outcomes(ms, os, n - 1) + [ItemOutcome(ms[n - 1], os[n - 1])]
  }

  /** One result per item, each the outcome of that item's replies. */
  lemma {:induction false} OutcomesAt(ms: seq<Match>, os: seq<ItemReplies>, n: nat)
    requires n <= |ms| && |os| == |ms|
    ensures |Outcomes(ms, os, n)| == n
    ensures forall i {:trigger Outcomes(ms, os, n)[i]} :: 0 <= i < n ==> Outcomes(ms, os, n)[i] == ItemOutcome(ms[i], os[i])
  {
    if n > 0 {
      OutcomesAt(ms, os, n - 1);
    }
  }

  /** `replaceEmotes`'s loop: one result per match, in match order, and the
      actions it took. */
  method RunBatch(setId: string, matches: seq<Match>, replies: seq<ItemReplies>)
    returns (results: seq<ItemResult>, trace: seq<Action>)
    requires |replies| == |matches|
    ensures results == Outcomes(matches, replies, |matches|)
    ensures trace == BatchActions(setId, matches, replies, |matches|)
  {
    results, trace := [], [];
    for i := 0 to |matches|
      invariant results == Outcomes(matches, replies, i)
      invariant trace == BatchActions(setId, matches, replies, i)
    {
      var m := matches[i];
      var steps: seq<Action> := [RemoveCall(setId, m.currentId, m.currentName)];
      var error: Option<string> := None;
      if replies[i].remove.Rejected? {
        error := Some(replies[i].remove.message);
      } else {
        steps := steps + [Wait(RemoveAddGap), AddCall(setId, m.replacementId, m.currentName)];
        if replies[i].add.Rejected? {
          error := Some(replies[i].add.message);
        } else {
          results := results + [Succeeded(m.currentName)];
          steps := steps + [Wait(ItemGap)];
        }
      }
      if error.Some? {
        results := results + [Failed(m.currentName, error.value)];
        if IsRateLimitError(error.value) {
          steps := steps + [Wait(RateLimitPause)];
        }
      }
      trace := trace + steps;
    }
  }

  /** The REMOVE calls of an action list, in order. Kept apart from
      `Filter` so that the trace lemmas below can unfold it directly. */
  function Removes(trace: seq<Action>): seq<Action>
  {
    if trace == [] then []
    else (if trace[0].RemoveCall? then [trace[0]] else []) + Removes(trace[1..])
  }

  /** The ADD calls of an action list, in order. */
  function Adds(trace: seq<Action>): seq<Action>
  {
    if trace == [] then []
    else (if trace[0].AddCall? then [trace[0]] else []) + Adds(trace[1..])
  }

  lemma {:induction false} RemovesAppend(a: seq<Action>, b: seq<Action>)
    ensures Removes(a + b) == Removes(a) + Removes(b)
    decreases |a|
  {
    if a == [] {
      assert a + b == b;
    } else {
      assert (a + b)[0] == a[0] && (a + b)[1..] == a[1..] + b;
      RemovesAppend(a[1..], b);
    }
  }

  lemma {:induction false} AddsAppend(a: seq<Action>, b: seq<Action>)
    ensures Adds(a + b) == Adds(a) + Adds(b)
    decreases |a|
  {
    if a == [] {
      assert a + b == b;
    } else {
      assert (a + b)[0] == a[0] && (a + b)[1..] == a[1..] + b;
      AddsAppend(a[1..], b);
    }
  }

  /** The ADD call one item should send: its replacement, under its current
      name, when its REMOVE was accepted. */
  function AddFor(setId: string, m: Match, o: ItemReplies): seq<Action> {
    if o.remove.Accepted? then [AddCall(setId, m.replacementId, m.currentName)] else []
  }

  /** A pause holds no call. */
  lemma BackoffCalls(message: string)
    ensures Removes(Backoff(message)) == [] && Adds(Backoff(message)) == []
  {
  }

  /** One item's actions hold its REMOVE, and its ADD exactly when the REMOVE was accepted. */
  lemma ItemCalls(setId: string, m: Match, o: ItemReplies)
    ensures Removes(ItemActions(setId, m, o)) == [RemoveCall(setId, m.currentId, m.currentName)]
    ensures Adds(ItemActions(setId, m, o)) == AddFor(setId, m, o)
  {
    var remove := RemoveCall(setId, m.currentId, m.currentName);
    var add := AddCall(setId, m.replacementId, m.currentName);
    assert Removes([remove]) == [remove] && Adds([remove]) == [];
    match o.remove
    case Rejected(message) =>
      BackoffCalls(message);
      RemovesAppend([remove], Backoff(message));
      AddsAppend([remove], Backoff(message));
    case Accepted =>
      var last := match o.add case Rejected(message) => Backoff(message) case Accepted => [Wait(ItemGap)];
      assert Removes(last) == [] && Adds(last) == [] by {
        if o.add.Rejected? {
          BackoffCalls(o.add.message);
        }
      }
      var mid := [Wait(RemoveAddGap), add];
      assert mid[1..] == [add];
      assert Removes([add]) == [] && Adds([add]) == [add];
      assert Removes(mid) == [] && Adds(mid) == [add];
      RemovesAppend(mid, last);
      AddsAppend(mid, last);
      RemovesAppend([remove], mid + last);
      AddsAppend([remove], mid + last);
      assert ItemActions(setId, m, o) == [remove] + (mid + last);
  }

  /** The REMOVE calls the first `n` items should send: one per match, in match order. */
  function RemoveCalls(setId: string, ms: seq<Match>, n: nat): seq<Action>
    requires n <= |ms|
  {
    if n == 0 then [] else RemoveCalls(setId, ms, n - 1) + [RemoveCall(setId, ms[n - 1].currentId, ms[n - 1].currentName)]
  }

  /** The REMOVEs of the run are exactly those of `RemoveCalls`, whatever the replies. */
  lemma {:induction false} RemovesAreRemoveCalls(setId: string, ms: seq<Match>, os: seq<ItemReplies>, n: nat)
    requires n <= |ms| && |os| == |ms|
    ensures Removes(BatchActions(setId, ms, os, n)) == RemoveCalls(setId, ms, n)
  {
    if n > 0 {
      RemovesAreRemoveCalls(setId, ms, os, n - 1);
      RemovesStep(setId, ms, os, n);
    }
  }

  /** `RemoveCalls` holds the `i`-th match's REMOVE at position `i`. */
  lemma {:induction false} RemoveCallsAt(setId: string, ms: seq<Match>, n: nat)
    requires n <= |ms|
    ensures |RemoveCalls(setId, ms, n)| == n
    ensures forall i {:trigger RemoveCalls(setId, ms, n)[i]} :: 0 <= i < n ==>
      RemoveCalls(setId, ms, n)[i] == RemoveCall(setId, ms[i].currentId, ms[i].currentName)
  {
    if n > 0 {
      RemoveCallsAt(setId, ms, n - 1);
    }
  }

  /** One REMOVE per match, in match order, whatever failed on the way:
      a failure never stops the items after it. */
  lemma RemovesInOrder(setId: string, ms: seq<Match>, os: seq<ItemReplies>, n: nat)
    requires n <= |ms| && |os| == |ms|
    ensures |Removes(BatchActions(setId, ms, os, n))| == n
    ensures forall i {:trigger Removes(BatchActions(setId, ms, os, n))[i]} :: 0 <= i < n ==>
      Removes(BatchActions(setId, ms, os, n))[i] == RemoveCall(setId, ms[i].currentId, ms[i].currentName)
  {
    RemovesAreRemoveCalls(setId, ms, os, n);
    RemoveCallsAt(setId, ms, n);
  }

  /** One more item adds exactly its REMOVE to the REMOVEs of the run. */
  lemma RemovesStep(setId: string, ms: seq<Match>, os: seq<ItemReplies>, n: nat)
    requires 0 < n <= |ms| && |os| == |ms|
    ensures Removes(BatchActions(setId, ms, os, n)) ==
      Removes(BatchActions(setId, ms, os, n - 1)) + [RemoveCall(setId, ms[n - 1].currentId, ms[n - 1].currentName)]
  {
    var before := BatchActions(setId, ms, os, n - 1);
    var item := ItemActions(setId, ms[n - 1], os[n - 1]);
    RemovesAppend(before, item);
    ItemCalls(setId, ms[n - 1], os[n - 1]);
  }

  /** How many of the first `n` items had their REMOVE accepted. Counted
      over a prefix from the back, as the loop grows it, rather than with
      `Count`, which works from the front. */
  function AcceptedRemoves(os: seq<ItemReplies>, n: nat): nat
    requires n <= |os|
  {
    if n == 0 then 0 else AcceptedRemoves(os, n - 1) + (if os[n - 1].remove.Accepted? then 1 else 0)
  }

  /** The ADD calls the first `n` items should send: one per item whose
      REMOVE was accepted, in item order. */
  function AcceptedAdds(setId: string, ms: seq<Match>, os: seq<ItemReplies>, n: nat): seq<Action>
    requires n <= |ms| && |os| == |ms|
  {
    if n == 0 then [] else AcceptedAdds(setId, ms, os, n - 1) + AddFor(setId, ms[n - 1], os[n - 1])
  }

  /** The ADDs of the run are exactly those of `AcceptedAdds`. */
  lemma {:induction false} AddsAreAcceptedAdds(setId: string, ms: seq<Match>, os: seq<ItemReplies>, n: nat)
    requires n <= |ms| && |os| == |ms|
    ensures Adds(BatchActions(setId, ms, os, n)) == AcceptedAdds(setId, ms, os, n)
  {
    if n > 0 {
      AddsAreAcceptedAdds(setId, ms, os, n - 1);
      AddsStep(setId, ms, os, n);
    }
  }

  /** `AcceptedAdds` holds one ADD per accepted REMOVE, each sending a
      match's replacement id under its current name. */
  lemma {:induction false} AcceptedAddsFollowRemoves(setId: string, ms: seq<Match>, os: seq<ItemReplies>, n: nat)
    requires n <= |ms| && |os| == |ms|
    ensures |AcceptedAdds(setId, ms, os, n)| == AcceptedRemoves(os, n)
    ensures forall a :: a in AcceptedAdds(setId, ms, os, n) ==>
      exists i :: 0 <= i < n && os[i].remove.Accepted? && a == AddCall(setId, ms[i].replacementId, ms[i].currentName)
  {
    if n > 0 {
      AcceptedAddsFollowRemoves(setId, ms, os, n - 1);
      var prev := AcceptedAdds(setId, ms, os, n - 1);
      forall a | a in AcceptedAdds(setId, ms, os, n)
        ensures exists i :: 0 <= i < n && os[i].remove.Accepted? && a == AddCall(setId, ms[i].replacementId, ms[i].currentName)
      {
        if a !in prev {
          assert os[n - 1].remove.Accepted? && a == AddCall(setId, ms[n - 1].replacementId, ms[n - 1].currentName);
        }
      }
    }
  }

  /** Exactly one ADD per item whose REMOVE was accepted, and none for an item
      whose REMOVE failed; each ADD sends the replacement id under the current name. */
  lemma AddsFollowAcceptedRemoves(setId: string, ms: seq<Match>, os: seq<ItemReplies>, n: nat)
    requires n <= |ms| && |os| == |ms|
    ensures |Adds(BatchActions(setId, ms, os, n))| == AcceptedRemoves(os, n)
    ensures forall a :: a in Adds(BatchActions(setId, ms, os, n)) ==>
      exists i :: 0 <= i < n && os[i].remove.Accepted? && a == AddCall(setId, ms[i].replacementId, ms[i].currentName)
  {
    AddsAreAcceptedAdds(setId, ms, os, n);
    AcceptedAddsFollowRemoves(setId, ms, os, n);
  }

  /** One more item adds exactly its ADD, if any, to the ADDs of the run. */
  lemma AddsStep(setId: string, ms: seq<Match>, os: seq<ItemReplies>, n: nat)
    requires 0 < n <= |ms| && |os| == |ms|
    ensures Adds(BatchActions(setId, ms, os, n)) ==
      Adds(BatchActions(setId, ms, os, n - 1)) + AddFor(setId, ms[n - 1], os[n - 1])
  {
    var before := BatchActions(setId, ms, os, n - 1);
    var item := ItemActions(setId, ms[n - 1], os[n - 1]);
    AddsAppend(before, item);
    ItemCalls(setId, ms[n - 1], os[n - 1]);
  }

  /** `results.filter(r => r.success)`'s test. */
  predicate IsSucceeded(r: ItemResult) {
    r.Succeeded?
  }

  /** `results.filter(r => !r.success)`'s test. */
  predicate IsFailed(r: ItemResult) {
    r.Failed?
  }

  /** What the run reports: the two counts and every failed item with its
      message (the alert lists them all). */
  datatype Report = Report(successCount: nat, failCount: nat, failures: seq<ItemResult>)

  /** The aggregation after the loop: every result is counted once, as a
      success or a failure, and the failure list holds every failed result,
      repeats included, in result order. */
  function Summarize(results: seq<ItemResult>): (r: Report)
    ensures r.successCount == Count(results, IsSucceeded)
    ensures r.failCount == Count(results, IsFailed)
    ensures r.successCount + r.failCount == |results|
    ensures |r.failures| == r.failCount
    ensures IsSubsequence(r.failures, results)
    ensures forall i :: 0 <= i < |r.failures| ==> r.failures[i].Failed?
    ensures forall x :: x in r.failures <==> x in results && x.Failed?
    ensures r.successCount == 0 <==> forall i :: 0 <= i < |results| ==> results[i].Failed?
  {
    var succeeded := Filter(results, IsSucceeded);
    var failed := Filter(results, IsFailed);
    FilterPartition(results, IsSucceeded, IsFailed);
    FilterSpec(results, IsSucceeded);
    FilterSpec(results, IsFailed);
    Report(|succeeded|, |failed|, failed)
  }

  /** How many of the first `n` items had both calls accepted, counted over
      a prefix like `AcceptedRemoves`. */
  function FullyAccepted(os: seq<ItemReplies>, n: nat): nat
    requires n <= |os|
  {
    if n == 0 then 0
    else FullyAccepted(os, n - 1) + (if os[n - 1].remove.Accepted? && os[n - 1].add.Accepted? then 1 else 0)
  }

  /** The successes among the first `n` results are the items whose two
      calls were both accepted. */
  lemma {:induction false} SucceededCount(ms: seq<Match>, os: seq<ItemReplies>, n: nat)
    requires n <= |ms| && |os| == |ms|
    ensures Count(Outcomes(ms, os, n), IsSucceeded) == FullyAccepted(os, n)
  {
    if n > 0 {
      SucceededCount(ms, os, n - 1);
      CountSnoc(Outcomes(ms, os, n - 1), ItemOutcome(ms[n - 1], os[n - 1]), IsSucceeded);
    }
  }

  /** The counts the run reports: one success per match whose REMOVE and ADD
      were both accepted, one failure per other match. */
  lemma ReportCountsReplies(matches: seq<Match>, replies: seq<ItemReplies>)
    requires |replies| == |matches|
    ensures var report := Summarize(Outcomes(matches, replies, |matches|));
      && report.successCount == FullyAccepted(replies, |replies|)
      && report.failCount == |matches| - FullyAccepted(replies, |replies|)
  {
    SucceededCount(matches, replies, |matches|);
    OutcomesAt(matches, replies, |matches|);
  }
}
