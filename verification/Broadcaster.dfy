/**
 The batch and the single broadcast of pending anchors. Whatever the chain and the node answer on the
 way is an input (`Answers`), so that results are stated for every sequence of answers, including
 those in which other processes publish in between.
 */
module Broadcaster {
  import opened Bytes
  import opened Options
  import opened AnchorTables
  import opened Chain

  datatype BroadcastInput = BroadcastInput(pair: Pair, eventCount: nat, window: Window)

  datatype BroadcastStatus = Confirmed | AlreadyAnchored | Reverted | Unresolved

  datatype BroadcastResult = BroadcastResult(tx: Bytes, block: nat, status: BroadcastStatus, contract: Option<Bytes>)

  datatype Slot = Slot(input: BroadcastInput, result: BroadcastResult)

  /** A remote call replies or throws (a transient error, which the caller may retry later). */
  datatype Answer<+T> = Reply(value: T) | Throw

  /** An estimate or a send can also fail with a deterministic revert. */
  datatype CallAnswer<+T> = Ok(value: T) | Revert | Fail

  datatype ReceiptLog = ReceiptLog(address: Bytes, decoded: Option<Pair>)

  datatype Receipt = Receipt(block: nat, success: bool, logs: seq<ReceiptLog>)

  /** Per input: the first isPublished, the second one (after a revert), and the event lookup. Per
      call: the gas estimate with the balance check, the send, and the wait for the receipt. */
  datatype Answers = Answers(
    published: seq<Answer<bool>>,
    rechecked: seq<Answer<bool>>,
    lookups: seq<Answer<Option<Located>>>,
    gas: CallAnswer<()>,
    affordable: Answer<()>,
    send: CallAnswer<Bytes>,
    receipt: Answer<Receipt>)

  predicate AnswersFor(a: Answers, n: nat) { |a.published| == n && |a.rechecked| == n && |a.lookups| == n }

  function Nothing(block: nat): BroadcastResult { BroadcastResult([], block, Unresolved, None) }

  /** resolveAlreadyAnchoredOrPending: the original transaction, or, when the lookup throws or finds
      nothing, just this row left pending. */
  function ResolveOrPending(lookup: Answer<Option<Located>>): BroadcastResult {
    if lookup.Reply? && lookup.value.Some?
    then BroadcastResult(lookup.value.value.tx, lookup.value.value.block, AlreadyAnchored, None)
    else Nothing(0)
  }

  /** anchorPairsEmittedByReceiptLogs: other contracts' logs and undecodable ones are ignored. */
  function EmittedPairs(logs: seq<ReceiptLog>, contract: Bytes): set<Pair> {
    set i | 0 <= i < |logs| && logs[i].address == contract && logs[i].decoded.Some? :: logs[i].decoded.value
  }

  method AnchorPairsEmittedByReceiptLogs(logs: seq<ReceiptLog>, contract: Bytes) returns (out: set<Pair>)
    ensures out == EmittedPairs(logs, contract)
  {
    out := {};
    for i := 0 to |logs|
      invariant out == EmittedPairs(logs[..i], contract)
    {
      if logs[i].address == contract && logs[i].decoded.Some? {
        out := out + {logs[i].decoded.value};
      }
      var upto := logs[..i + 1];
      assert upto[..i] == logs[..i] && upto[i] == logs[i];
      EmittedPairsAppend(logs[..i], logs[i], contract);
      assert upto == logs[..i] + [logs[i]];
    }
    assert logs[..|logs|] == logs;
  }

  lemma EmittedPairsAppend(logs: seq<ReceiptLog>, last: ReceiptLog, contract: Bytes)
    ensures EmittedPairs(logs + [last], contract)
         == EmittedPairs(logs, contract)
          + (if last.address == contract && last.decoded.Some? then {last.decoded.value} else {})
  {
    var all := logs + [last];
    forall p | p in EmittedPairs(logs, contract) ensures p in EmittedPairs(all, contract) {
      var i :| 0 <= i < |logs| && logs[i].address == contract && logs[i].decoded.Some? && logs[i].decoded.value == p;
      assert all[i] == logs[i];
    }
    if last.address == contract && last.decoded.Some? {
      assert all[|logs|] == last;
    }
  }

  // ---------- the result of one slot ----------

  /** The deterministic revert of an estimate or a send, which is shared by the whole batch. */
  predicate RevertsBeforeMining(a: Answers) { a.gas.Revert? || (a.gas.Ok? && a.affordable.Reply? && a.send.Revert?) }

  /** What slot i gets when the broadcast returns. */
  function SlotResult(a: Answers, inputs: seq<BroadcastInput>, contract: Bytes, i: nat): BroadcastResult
    requires AnswersFor(a, |inputs|) && i < |inputs|
  {
    if a.published[i] == Reply(true) then ResolveOrPending(a.lookups[i])
    else if RevertsBeforeMining(a) then
      if a.rechecked[i] == Reply(true) then ResolveOrPending(a.lookups[i]) else Nothing(0)
    else if a.send.Ok? && a.receipt.Reply? then
      var receipt := a.receipt.value;
      if !receipt.success then Nothing(receipt.block)
      else if inputs[i].pair in EmittedPairs(receipt.logs, contract)
      then BroadcastResult(a.send.value, receipt.block, BroadcastStatus.Confirmed, None)
      else ResolveOrPending(a.lookups[i])
    else Nothing(0)
  }

  predicate AllPublished(a: Answers) { forall i :: 0 <= i < |a.published| ==> a.published[i] == Reply(true) }

  /** The broadcast throws: a check failed, or the batch call itself did. */
  predicate Throws(a: Answers, n: nat, maxBatchSize: nat)
    requires AnswersFor(a, n)
  {
    n > 0 && (
      || n > maxBatchSize
      || (exists i :: 0 <= i < n && a.published[i].Throw?)
      || (!AllPublished(a) && (
           if RevertsBeforeMining(a)
           then exists i :: 0 <= i < n && a.published[i] == Reply(false) && a.rechecked[i].Throw?
           else a.gas.Fail? || a.affordable.Throw? || a.send.Fail? || a.receipt.Throw?)))
  }

  // ---------- the loops ----------

  /** The slots of the inputs in `done` hold their final result, the others are still empty. */
  predicate Filled(a: Answers, inputs: seq<BroadcastInput>, contract: Bytes, results: seq<Option<Slot>>, done: set<nat>)
    requires AnswersFor(a, |inputs|)
  {
    |results| == |inputs| &&
    forall i: nat :: i < |inputs| ==>
      results[i] == if i in done then Some(Slot(inputs[i], SlotResult(a, inputs, contract, i))) else None
  }

  function PublishedBelow(a: Answers, n: nat): set<nat>
    requires n <= |a.published|
  {
    set i: nat | i < n && a.published[i] == Reply(true)
  }

  function Indices(s: seq<nat>): set<nat> { set i | i in s }

  /** The first check of every input: resolve what is already published, collect the rest. */
  method CheckPublished(a: Answers, inputs: seq<BroadcastInput>, contract: Bytes, results: array<Option<Slot>>)
    returns (unpublished: Option<seq<nat>>)
    requires AnswersFor(a, |inputs|) && Filled(a, inputs, contract, results[..], {})
    modifies results
    ensures unpublished.None? <==> exists i :: 0 <= i < |inputs| && a.published[i].Throw?
    ensures unpublished.Some? ==>
      && Filled(a, inputs, contract, results[..], PublishedBelow(a, |inputs|))
      && (forall i :: 0 <= i < |inputs| ==>
            a.published[i].Reply? && (a.published[i].value <==> i !in unpublished.value))
      && (forall j :: 0 <= j < |unpublished.value| ==> unpublished.value[j] < |inputs|)
  {
    var rest: seq<nat> := [];
    var index := 0;
    while index < |inputs|
      invariant 0 <= index <= |inputs|
      invariant Filled(a, inputs, contract, results[..], PublishedBelow(a, index))
      invariant forall i :: 0 <= i < index ==> a.published[i].Reply? && (a.published[i].value <==> i !in rest)
      invariant forall j :: 0 <= j < |rest| ==> rest[j] < index
    {
      if a.published[index].Throw? {
        return None;
      }
      if a.published[index].value {
        results[index] := Some(Slot(inputs[index], ResolveOrPending(a.lookups[index])));
      } else {
        rest := rest + [index];
      }
      index := index + 1;
    }
    unpublished := Some(rest);
  }

  /** markBatchRevertOrRace: after a revert before mining, look only for roots another process
      published in between. False when one of the checks throws. */
  method MarkBatchRevertOrRace(a: Answers, inputs: seq<BroadcastInput>, contract: Bytes,
                               unpublished: seq<nat>, results: array<Option<Slot>>)
    returns (ok: bool)
    requires AnswersFor(a, |inputs|) && RevertsBeforeMining(a)
    requires forall j :: 0 <= j < |unpublished| ==>
      unpublished[j] < |inputs| && a.published[unpublished[j]] == Reply(false)
    requires Filled(a, inputs, contract, results[..], PublishedBelow(a, |inputs|))
    modifies results
    ensures ok <==> forall j :: 0 <= j < |unpublished| ==> a.rechecked[unpublished[j]].Reply?
    ensures ok ==> Filled(a, inputs, contract, results[..], PublishedBelow(a, |inputs|) + Indices(unpublished))
  {
    for e := 0 to |unpublished|
      invariant forall j :: 0 <= j < e ==> a.rechecked[unpublished[j]].Reply?
      invariant Filled(a, inputs, contract, results[..], PublishedBelow(a, |inputs|) + Indices(unpublished[..e]))
    {
      var i := unpublished[e];
      if a.rechecked[i].Throw? {
        return false;
      }
      results[i] := Some(Slot(inputs[i],
        if a.rechecked[i].value then ResolveOrPending(a.lookups[i]) else Nothing(0)));
      assert Indices(unpublished[..e + 1]) == Indices(unpublished[..e]) + {i};
    }
    assert unpublished[..|unpublished|] == unpublished;
    ok := true;
  }

  /** The slots of a batch that was mined, from its receipt. */
  method FillFromReceipt(a: Answers, inputs: seq<BroadcastInput>, contract: Bytes,
                         unpublished: seq<nat>, results: array<Option<Slot>>)
    requires AnswersFor(a, |inputs|) && !RevertsBeforeMining(a) && a.send.Ok? && a.receipt.Reply?
    requires forall j :: 0 <= j < |unpublished| ==>
      unpublished[j] < |inputs| && a.published[unpublished[j]] == Reply(false)
    requires Filled(a, inputs, contract, results[..], PublishedBelow(a, |inputs|))
    modifies results
    ensures Filled(a, inputs, contract, results[..], PublishedBelow(a, |inputs|) + Indices(unpublished))
  {
    var receipt := a.receipt.value;
    var emitted := AnchorPairsEmittedByReceiptLogs(receipt.logs, contract);
    for e := 0 to |unpublished|
      invariant Filled(a, inputs, contract, results[..], PublishedBelow(a, |inputs|) + Indices(unpublished[..e]))
    {
      var i := unpublished[e];
      results[i] := Some(Slot(inputs[i],
        if !receipt.success then Nothing(receipt.block)
        else if inputs[i].pair in emitted
        then BroadcastResult(a.send.value, receipt.block, BroadcastStatus.Confirmed, None)
        else ResolveOrPending(a.lookups[i])));
      assert Indices(unpublished[..e + 1]) == Indices(unpublished[..e]) + {i};
    }
    assert unpublished[..|unpublished|] == unpublished;
  }

  method CollectSlots(results: array<Option<Slot>>) returns (slots: seq<Slot>)
    requires forall i :: 0 <= i < results.Length ==> results[i].Some?
    ensures |slots| == results.Length && forall i :: 0 <= i < |slots| ==> Some(slots[i]) == results[i]
  {
    slots := seq(results.Length,
      i requires 0 <= i < results.Length && results[i].Some? reads results => results[i].value);
  }

  /** broadcastAnchorBatch: None when it throws. */
  method BroadcastAnchorBatch(a: Answers, inputs: seq<BroadcastInput>, contract: Bytes, maxBatchSize: nat)
    returns (slots: Option<seq<Slot>>)
    requires AnswersFor(a, |inputs|)
    ensures slots.None? <==> Throws(a, |inputs|, maxBatchSize)
    ensures slots.Some? ==>
      |slots.value| == |inputs| &&
      forall i :: 0 <= i < |inputs| ==> slots.value[i] == Slot(inputs[i], SlotResult(a, inputs, contract, i))
  {
    if |inputs| == 0 {
      return Some([]);
    }
    if |inputs| > maxBatchSize {
      return None;
    }
    var results := new Option<Slot>[|inputs|](_ => None);
    var checked := CheckPublished(a, inputs, contract, results);
    if checked.None? {
      return None;
    }
    var unpublished := checked.value;
    if |unpublished| > 0 {
      assert forall j :: 0 <= j < |unpublished| ==> unpublished[j] in unpublished;
      assert a.published[unpublished[0]] == Reply(false);
      if RevertsBeforeMining(a) {
        var ok := MarkBatchRevertOrRace(a, inputs, contract, unpublished, results);
        if !ok {
          return None;
        }
      } else if a.gas.Fail? || a.affordable.Throw? || a.send.Fail? || a.receipt.Throw? {
        return None;
      } else {
        FillFromReceipt(a, inputs, contract, unpublished, results);
      }
    }
    assert forall i: nat :: i < |inputs| ==> i in PublishedBelow(a, |inputs|) + Indices(unpublished);
    assert forall i :: 0 <= i < results.Length ==> results[..][i] == results[i];
    var filled := CollectSlots(results);
    slots := Some(filled);
  }

  /** Where the results leave the module, landed ones are stamped with the contract they went to. */
  function WithContract(r: BroadcastResult, contract: Bytes): BroadcastResult {
    if r.status.Confirmed? || r.status.AlreadyAnchored? then r.(contract := Some(contract)) else r
  }

  // ---------- what the slots promise ----------

  predicate Landed(r: BroadcastResult) { r.status.Confirmed? || r.status.AlreadyAnchored? }

  /** The answers fit the event log at the end of the broadcast: a lookup only finds the publishing
      transaction, and a receipt only shows events its transaction really emitted. What was read
      earlier still fits, because the log only grows. */
  ghost predicate Truthful(a: Answers, inputs: seq<BroadcastInput>, contract: Bytes, log: seq<AnchorEvent>)
    requires AnswersFor(a, |inputs|)
  {
    && (forall i :: 0 <= i < |inputs| && a.lookups[i].Reply? && a.lookups[i].value.Some? ==>
          PublishedBy(log, inputs[i].pair, a.lookups[i].value.value))
    && (a.send.Ok? && a.receipt.Reply? && a.receipt.value.success ==>
          forall p :: p in EmittedPairs(a.receipt.value.logs, contract) ==>
            PublishedBy(log, p, Located(a.send.value, a.receipt.value.block)))
  }

  lemma TruthfulStaysTrue(a: Answers, inputs: seq<BroadcastInput>, contract: Bytes,
                          log: seq<AnchorEvent>, later: seq<AnchorEvent>)
    requires AnswersFor(a, |inputs|) && Truthful(a, inputs, contract, log) && log <= later
    ensures Truthful(a, inputs, contract, later)
  {
    assert forall e :: e in log ==> e in later;
  }

  /** No slot of a batch is ever "reverted"; a landed slot carries the transaction that published its
      own pair; every other slot is empty-handed and unresolved. */
  lemma SlotsCarryPublishers(a: Answers, inputs: seq<BroadcastInput>, contract: Bytes, log: seq<AnchorEvent>, i: nat)
    requires AnswersFor(a, |inputs|) && i < |inputs| && Truthful(a, inputs, contract, log)
    ensures var r := SlotResult(a, inputs, contract, i);
      && !r.status.Reverted?
      && (Landed(r) ==> PublishedBy(log, inputs[i].pair, Located(r.tx, r.block)))
      && (r.status.Unresolved? ==> r.tx == [])
  {
  }

  /** The one call goes through to its receipt, or reverts and each recheck is answered. */
  predicate CallReturns(a: Answers, n: nat)
    requires AnswersFor(a, n)
  {
    || (a.gas.Ok? && a.affordable.Reply? && a.send.Ok? && a.receipt.Reply?)
    || ((a.gas.Revert? || (a.gas.Ok? && a.affordable.Reply? && a.send.Revert?))
        && forall i :: 0 <= i < n && a.published[i] == Reply(false) ==> a.rechecked[i].Reply?)
  }

  /** A batch returns exactly if it is not too large, every first check is answered, and the call for the rows not
      yet published, if there are any, returns. */
  lemma BatchReturnsIff(a: Answers, n: nat, maxBatchSize: nat)
    requires AnswersFor(a, n)
    ensures n == 0 ==> !Throws(a, n, maxBatchSize)
    ensures n > 0 ==> (!Throws(a, n, maxBatchSize) <==>
      && n <= maxBatchSize && (forall i :: 0 <= i < n ==> a.published[i].Reply?)
      && ((forall i :: 0 <= i < n ==> a.published[i] == Reply(true)) || CallReturns(a, n)))
  {
  }

  /** Nothing fails on the way: every check is answered and fits the log at the end, every published
      pair is found by its lookup, and a batch that succeeds has published all its pairs. */
  ghost predicate Undisturbed(a: Answers, inputs: seq<BroadcastInput>, contract: Bytes, log: seq<AnchorEvent>)
    requires AnswersFor(a, |inputs|)
  {
    && Truthful(a, inputs, contract, log)
    && (forall i :: 0 <= i < |inputs| ==>
          && a.published[i].Reply? && (a.published[i].value ==> IsPublished(log, inputs[i].pair))
          && (IsPublished(log, inputs[i].pair) ==> a.lookups[i].Reply? && a.lookups[i].value.Some?)
          && (RevertsBeforeMining(a) ==> a.rechecked[i] == Reply(IsPublished(log, inputs[i].pair))))
    && (a.send.Ok? && a.receipt.Reply? && a.receipt.value.success ==>
          forall i :: 0 <= i < |inputs| ==> IsPublished(log, inputs[i].pair))
  }

  predicate MinedAsFailed(a: Answers) { a.gas.Ok? && a.send.Ok? && a.receipt.Reply? && !a.receipt.value.success }

  /** A slot lands exactly if its pair is published in the end, except that a pair another transaction
      published while this batch was mined as failed is left for a later cycle. */
  lemma LandedIffPublished(a: Answers, inputs: seq<BroadcastInput>, contract: Bytes, maxBatchSize: nat,
                           log: seq<AnchorEvent>, i: nat)
    requires AnswersFor(a, |inputs|) && i < |inputs| && !Throws(a, |inputs|, maxBatchSize)
    requires Undisturbed(a, inputs, contract, log)
    ensures Landed(SlotResult(a, inputs, contract, i)) <==>
      IsPublished(log, inputs[i].pair) && (a.published[i] == Reply(true) || !MinedAsFailed(a))
  {
    var p, r := inputs[i].pair, SlotResult(a, inputs, contract, i);
    if Landed(r) {
      SlotsCarryPublishers(a, inputs, contract, log, i);
      var n :| 0 <= n < |log| && log[n] == AnchorEvent(p, Some(r.tx), r.block);
      assert log[n].pair == p;
    }
  }

  /** A failing event lookup of one row changes neither whether the broadcast returns nor any other
      slot, and leaves its own slot unresolved exactly when that slot would have been resolved by it. */
  lemma FailedLookupIsIsolated(a: Answers, inputs: seq<BroadcastInput>, contract: Bytes, maxBatchSize: nat, i: nat,
                               j: nat)
    requires AnswersFor(a, |inputs|) && i < |inputs| && j < |inputs|
    ensures var b := a.(lookups := a.lookups[i := Throw]);
      && AnswersFor(b, |inputs|)
      && (Throws(b, |inputs|, maxBatchSize) <==> Throws(a, |inputs|, maxBatchSize))
      && (j != i ==> SlotResult(b, inputs, contract, j) == SlotResult(a, inputs, contract, j))
      && var (was, now) := (SlotResult(a, inputs, contract, i), SlotResult(b, inputs, contract, i));
         now == if was.status.AlreadyAnchored? then Nothing(0) else was
  {
    var b := a.(lookups := a.lookups[i := Throw]);
    assert RevertsBeforeMining(b) == RevertsBeforeMining(a);
    assert AllPublished(b) == AllPublished(a);
  }

  // ---------- the single broadcast ----------

  /** broadcastAnchor: the same calls for one row; None when it throws. A lookup that finds nothing
      throws here instead of leaving the row unresolved. */
  function BroadcastAnchor(a: Answers): Option<BroadcastResult>
    requires AnswersFor(a, 1)
  {
    if a.published[0].Throw? then None
    else if a.published[0].value then ResolveOrThrow(a.lookups[0])
    else if RevertsBeforeMining(a) then
      if a.rechecked[0].Throw? then None
      else if a.rechecked[0].value then ResolveOrThrow(a.lookups[0])
      else Some(BroadcastResult([], 0, BroadcastStatus.Reverted, None))
    else if a.gas.Fail? || a.affordable.Throw? || a.send.Fail? || a.receipt.Throw? then None
    else
      var receipt := a.receipt.value;
      var status := if receipt.success then BroadcastStatus.Confirmed else BroadcastStatus.Reverted;
      Some(BroadcastResult(a.send.value, receipt.block, status, None))
  }

  function ResolveOrThrow(lookup: Answer<Option<Located>>): Option<BroadcastResult> {
    if lookup.Reply? && lookup.value.Some? then Some(ResolveOrPending(lookup)) else None
  }

  /** A call for the row throws, or a published pair is not found by its lookup. */
  predicate FailsAlone(a: Answers)
    requires AnswersFor(a, 1)
  {
    var unlocated := !(a.lookups[0].Reply? && a.lookups[0].value.Some?);
    match a.published[0]
    case Throw => true
    case Reply(true) => unlocated
    case Reply(false) =>
      if RevertsBeforeMining(a) then a.rechecked[0].Throw? || (a.rechecked[0].value && unlocated)
      else a.gas.Fail? || a.affordable.Throw? || a.send.Fail? || a.receipt.Throw?
  }

  /** The pair was published at one of the checks, or the row's own transaction succeeded. */
  predicate LandsAlone(a: Answers)
    requires AnswersFor(a, 1)
  {
    || a.published[0] == Reply(true)
    || if RevertsBeforeMining(a) then a.rechecked[0] == Reply(true) else a.receipt.Reply? && a.receipt.value.success
  }

  /** The single broadcast always lands or reverts unless it throws. It lands on a successful receipt, with its own
      transaction, or on a pair found published, with the transaction the lookup gave. */
  lemma SingleBroadcastSettles(a: Answers)
    requires AnswersFor(a, 1)
    ensures BroadcastAnchor(a).None? <==> FailsAlone(a)
    ensures !FailsAlone(a) ==>
      var r := BroadcastAnchor(a).value;
      && (Landed(r) <==> LandsAlone(a)) && (r.status.Reverted? <==> !LandsAlone(a))
      && (r.status.AlreadyAnchored? ==> a.lookups[0] == Reply(Some(Located(r.tx, r.block))))
      && (r.status.Confirmed? ==> a.send == Ok(r.tx) && a.receipt.Reply? && a.receipt.value.block == r.block)
      && (r.status.Confirmed? ==> a.published[0] == Reply(false) && !RevertsBeforeMining(a))
  {
  }

  /** Every isPublished answer fits the given log. */
  predicate ChecksFit(a: Answers, p: Pair, log: seq<AnchorEvent>, recheckLog: seq<AnchorEvent>)
    requires AnswersFor(a, 1)
  {
    && (a.published[0].Reply? ==> (a.published[0].value <==> IsPublished(log, p)))
    && (a.rechecked[0].Reply? ==> (a.rechecked[0].value <==> IsPublished(recheckLog, p)))
  }

  /** The single broadcast calls a row "reverted" although its pair is published exactly when its own
      transaction was mined as failed while another one published the pair: a revert before mining is
      checked against the chain again, a mined one is not. */
  lemma RevertedThoughPublishedIff(a: Answers, p: Pair, first: seq<AnchorEvent>, last: seq<AnchorEvent>)
    requires AnswersFor(a, 1) && ChecksFit(a, p, first, last)
    requires BroadcastAnchor(a).Some? && IsPublished(last, p)
    ensures BroadcastAnchor(a).value.status.Reverted? <==>
      !IsPublished(first, p) && !RevertsBeforeMining(a) && !a.receipt.value.success
  {
  }

  lemma RevertedThoughPublishedHappens(p: Pair, mine: Bytes, theirs: Bytes)
    returns (a: Answers, last: seq<AnchorEvent>)
    ensures AnswersFor(a, 1) && ChecksFit(a, p, [], last) && GoodLog(last)
    ensures BroadcastAnchor(a).Some? && BroadcastAnchor(a).value.status.Reverted? && IsPublished(last, p)
  {
    last := [AnchorEvent(p, Some(theirs), 1)];
    a := Answers([Reply(false)], [Throw], [Throw], Ok(()), Reply(()), Ok(mine), Reply(Receipt(1, false, [])));
    assert last[0].pair == p;
  }
}
