/** What the run of one publisher leaves in its rows, among everything else that goes on. */
module PublishOutcomes {
  import opened Bytes
  import opened Options
  import opened AnchorTables
  import opened Chain
  import opened Broadcaster
  import opened Publisher
  import opened PublishProtocol

  // ---------- a batch ----------

  /** The write-backs of a job among the steps from `m` up to `n`. */
  function WriteBacks(actions: seq<Action>, job: JobId, m: nat, n: nat): nat
    requires m <= n <= |actions|
  {
    if m == n then 0 else WriteBacks(actions, job, m, n - 1) + if actions[n - 1] == WriteBack(job) then 1 else 0
  }

  /** From state `m` to state `n` the job does nothing but write back. */
  ghost predicate OnlyWrites(actions: seq<Action>, job: JobId, m: nat, n: nat)
    requires m <= n <= |actions|
  {
    forall i :: m <= i < n && Touches(actions[i], job) ==> actions[i] == WriteBack(job)
  }

  /** Step `start` reads the rows of a batch, step `b` has its results, and after that, up to state `n`, the job
      only writes back; anything else may happen in between. */
  ghost predicate BatchUnderWay(states: seq<State>, actions: seq<Action>, cfg: Config, job: JobId, ids: seq<RowId>,
                                answers: Answers, start: nat, b: nat, n: nat)
    requires |states| == |actions| + 1 && start < b < n <= |actions|
  {
    && actions[start] == Start(job, ids) && actions[b] == Broadcast(job, answers)
    && AnswersFor(answers, |ids|) && !Throws(answers, |ids|, cfg.maxBatchSize)
    && (forall i :: start < i < b ==> !Touches(actions[i], job))
    && OnlyWrites(actions, job, b + 1, n)
  }

  /** Moreover it has written once for each row by then. */
  ghost predicate BatchRuns(states: seq<State>, actions: seq<Action>, cfg: Config, job: JobId, ids: seq<RowId>,
                            answers: Answers, start: nat, b: nat, end: nat)
    requires |states| == |actions| + 1 && start < b < end <= |actions|
  {
    BatchUnderWay(states, actions, cfg, job, ids, answers, start, b, end)
    && WriteBacks(actions, job, b + 1, end) == |ids|
  }

  /** The pair of a row was published at the check, at the recheck after a revert, or by the batch's own
      transaction; and unless that transaction's receipt shows the pair, its lookup was answered. */
  predicate Lands(a: Answers, pair: Pair, contract: Bytes, i: nat)
    requires i < |a.published| && i < |a.rechecked| && i < |a.lookups|
  {
    var located := a.lookups[i].Reply? && a.lookups[i].value.Some?;
    var mined := a.gas.Ok? && a.send.Ok? && a.receipt.Reply? && a.receipt.value.success;
    if a.published[i] == Reply(true) then located
    else if RevertsBeforeMining(a) then a.rechecked[i] == Reply(true) && located
    else mined && (located || ReceiptLog(contract, Some(pair)) in a.receipt.value.logs)
  }

  /** Another step, between `m` and `n`, made the row confirmed. */
  ghost predicate ConfirmedByOther(states: seq<State>, actions: seq<Action>, job: JobId, id: RowId, m: nat, n: nat)
    requires |states| == |actions| + 1 && m <= n <= |actions|
  {
    exists i :: m <= i < n && !Touches(actions[i], job) && Confirms(states[i], states[i + 1], id)
  }

  predicate Confirms(s: State, t: State, id: RowId) { !IsConfirmed(s, id) && IsConfirmed(t, id) }

  predicate IsConfirmed(s: State, id: RowId) { id in s.rows && s.rows[id].status.Confirmed? }

  lemma LandedIffLands(a: Answers, inputs: seq<BroadcastInput>, contract: Bytes, maxBatchSize: nat, i: nat)
    requires AnswersFor(a, |inputs|) && i < |inputs| && !Throws(a, |inputs|, maxBatchSize)
    ensures Landed(SlotResult(a, inputs, contract, i)) <==> Lands(a, inputs[i].pair, contract, i)
  {
    if a.published[i] != Reply(true) && !RevertsBeforeMining(a) && a.send.Ok? && a.receipt.Reply? {
      EmittedIff(a.receipt.value.logs, contract, inputs[i].pair);
    }
  }

  lemma EmittedIff(logs: seq<ReceiptLog>, contract: Bytes, pair: Pair)
    ensures pair in EmittedPairs(logs, contract) <==> ReceiptLog(contract, Some(pair)) in logs
  {
    if pair in EmittedPairs(logs, contract) {
      var i :| 0 <= i < |logs| && logs[i].address == contract && logs[i].decoded == Some(pair);
      assert logs[i] == ReceiptLog(contract, Some(pair));
    }
  }

  /** The batch's results in the order of its rows. */
  function BatchResults(s: State, cfg: Config, ids: seq<RowId>, answers: Answers): Written
    requires AnswersFor(answers, |ids|) && forall i :: i in ids ==> i in s.rows
  {
    Results(answers, InputsOf(s.rows, ids), ids, cfg.contract)
  }

  lemma WaitsForBroadcast(states: seq<State>, actions: seq<Action>, cfg: Config, job: JobId, ids: seq<RowId>,
                          start: nat, b: nat)
    requires Behaviour(states, actions, cfg) && start < b < |states| && actions[start] == Start(job, ids)
    requires forall i :: start < i < b ==> !Touches(actions[i], job)
    ensures job in states[b].jobs && states[b].jobs[job] == Job(ids, [])
    ensures forall i :: i in ids ==> i in states[start].rows && i in states[b].rows
  {
    assert Happens(states, actions, cfg, start);
    UntouchedJobStays(states, actions, cfg, job, start + 1, b);
    BehaviourMovesOnward(states, actions, cfg, start, b);
  }

  /** From its start on a batch can go on with whatever answers the chain can give about its rows. */
  lemma BroadcastEnabledIff(states: seq<State>, actions: seq<Action>, cfg: Config, job: JobId, ids: seq<RowId>,
                            answers: Answers, start: nat, b: nat)
    requires Behaviour(states, actions, cfg) && start < b < |states| && actions[start] == Start(job, ids)
    requires forall i :: start < i < b ==> !Touches(actions[i], job)
    ensures forall i :: i in ids ==> i in states[b].rows
    ensures Enabled(states[b], Broadcast(job, answers), cfg) <==>
      AnswersFor(answers, |ids|) && Truthful(answers, InputsOf(states[b].rows, ids), cfg.contract, states[b].log)
  {
    WaitsForBroadcast(states, actions, cfg, job, ids, start, b);
  }

  lemma HeldByJob(states: seq<State>, actions: seq<Action>, cfg: Config, job: JobId, ids: seq<RowId>,
                  answers: Answers, start: nat, b: nat, n: nat)
    requires Behaviour(states, actions, cfg) && start < b < n <= |actions|
    requires BatchUnderWay(states, actions, cfg, job, ids, answers, start, b, n)
    ensures forall i :: i in ids ==> i in states[b].rows
    ensures Holds(states[b + 1], job, BatchResults(states[b], cfg, ids, answers))
  {
    WaitsForBroadcast(states, actions, cfg, job, ids, start, b);
    assert Happens(states, actions, cfg, b);
  }

  /** It can write back as long as it has written fewer times than it has rows, and then no more. */
  lemma WriteBackEnabledIff(states: seq<State>, actions: seq<Action>, cfg: Config, job: JobId, ids: seq<RowId>,
                            answers: Answers, start: nat, b: nat, n: nat)
    requires Behaviour(states, actions, cfg) && start < b < n <= |actions|
    requires BatchUnderWay(states, actions, cfg, job, ids, answers, start, b, n)
    ensures Enabled(states[n], WriteBack(job), cfg) <==> WriteBacks(actions, job, b + 1, n) < |ids|
    ensures WriteBacks(actions, job, b + 1, n) <= |ids|
  {
    HeldByJob(states, actions, cfg, job, ids, answers, start, b, n);
    HeldAfterWrites(states, actions, cfg, job, BatchResults(states[b], cfg, ids, answers), b + 1, n);
  }

  predicate Holds(s: State, job: JobId, held: Written) { job in s.jobs && s.jobs[job] == Job([], held) }

  lemma StepLeavesRest(s: State, a: Action, cfg: Config, job: JobId, held: Written)
    requires Enabled(s, a, cfg) && Holds(s, job, held)
    requires Touches(a, job) ==> a == WriteBack(job)
    ensures a == WriteBack(job) ==> held != []
    ensures Holds(Next(s, a, cfg), job, if a == WriteBack(job) then held[1..] else held)
  {
  }

  /** After `c` write-backs the job holds the results from the c-th one on. */
  lemma {:induction false} HeldAfterWrites(states: seq<State>, actions: seq<Action>, cfg: Config, job: JobId,
                                           all: Written, m: nat, n: nat)
    requires Behaviour(states, actions, cfg) && m <= n <= |actions| && OnlyWrites(actions, job, m, n)
    requires Holds(states[m], job, all)
    ensures var c := WriteBacks(actions, job, m, n);
      c <= |all| && Holds(states[n], job, all[c..])
    decreases n
  {
    if m == n {
      assert all[0..] == all;
    } else {
      var i := n - 1;
      HeldAfterWrites(states, actions, cfg, job, all, m, i);
      var c := WriteBacks(actions, job, m, i);
      assert Happens(states, actions, cfg, i);
      StepLeavesRest(states[i], actions[i], cfg, job, all[c..]);
      assert c < |all| ==> all[c..][1..] == all[c + 1..];
    }
  }

  /** What has been written with a landed result is confirmed, and stays so. */
  lemma {:induction false} WrittenStaysConfirmed(states: seq<State>, actions: seq<Action>, cfg: Config, job: JobId,
                                                 all: Written, m: nat, n: nat, k: nat)
    requires Behaviour(states, actions, cfg) && states[0] == EMPTY && NoLateRevert(states, actions)
    requires m <= n <= |actions| && OnlyWrites(actions, job, m, n)
    requires Holds(states[m], job, all)
    requires k < |all| && k < WriteBacks(actions, job, m, n) && Landed(all[k].1) && all[k].0 in states[m].rows
    ensures IsConfirmed(states[n], all[k].0)
    decreases n
  {
    var i := n - 1;
    HeldAfterWrites(states, actions, cfg, job, all, m, i);
    BehaviourMovesForward(states, actions, cfg, i, i + 1);
    if k < WriteBacks(actions, job, m, i) {
      WrittenStaysConfirmed(states, actions, cfg, job, all, m, i, k);
    } else {
      BehaviourMovesOnward(states, actions, cfg, m, i);
      assert Happens(states, actions, cfg, i);
    }
  }

  /** Nothing is held that would change the row. */
  predicate HoldsNothingFor(held: Written, id: RowId) {
    forall k :: 0 <= k < |held| && held[k].0 == id ==> held[k].1.status.Unresolved?
  }

  lemma StepOfJobLeavesRow(s: State, a: Action, cfg: Config, job: JobId, held: Written, id: RowId)
    requires Enabled(s, a, cfg) && a == WriteBack(job) && Holds(s, job, held)
    requires HoldsNothingFor(held, id)
    ensures id in s.rows ==> Next(s, a, cfg).rows[id] == s.rows[id]
  {
    assert held[0].0 == id ==> held[0].1.status.Unresolved?;
  }

  /** No step of the job changes the row. */
  ghost predicate LeavesRow(states: seq<State>, actions: seq<Action>, job: JobId, id: RowId, m: nat, n: nat)
    requires |states| == |actions| + 1 && m <= n <= |actions|
  {
    forall i :: m <= i < n && Touches(actions[i], job) && id in states[i].rows ==>
      id in states[i + 1].rows && states[i + 1].rows[id] == states[i].rows[id]
  }

  lemma WritesLeaveRow(states: seq<State>, actions: seq<Action>, cfg: Config, job: JobId, all: Written, id: RowId,
                       m: nat, n: nat)
    requires Behaviour(states, actions, cfg) && m <= n <= |actions| && OnlyWrites(actions, job, m, n)
    requires Holds(states[m], job, all) && HoldsNothingFor(all, id)
    ensures LeavesRow(states, actions, job, id, m, n)
  {
    forall i | m <= i < n && Touches(actions[i], job) && id in states[i].rows
      ensures id in states[i + 1].rows && states[i + 1].rows[id] == states[i].rows[id]
    {
      HeldAfterWrites(states, actions, cfg, job, all, m, i);
      var held := states[i].jobs[job].toWrite;
      assert HoldsNothingFor(held, id) by {
        assert forall k :: 0 <= k < |held| ==> held[k] == all[|all| - |held| + k];
      }
      assert Happens(states, actions, cfg, i);
      StepOfJobLeavesRow(states[i], actions[i], cfg, job, held, id);
    }
  }

  lemma {:induction false} SomebodyConfirmed(states: seq<State>, actions: seq<Action>, cfg: Config, job: JobId,
                                             id: RowId, m: nat, n: nat)
    requires Behaviour(states, actions, cfg) && m <= n <= |actions| && id in states[m].rows
    requires !IsConfirmed(states[m], id) && LeavesRow(states, actions, job, id, m, n) && IsConfirmed(states[n], id)
    ensures ConfirmedByOther(states, actions, job, id, m, n)
    decreases n
  {
    var i := n - 1;
    BehaviourMovesOnward(states, actions, cfg, m, i);
    if IsConfirmed(states[i], id) {
      SomebodyConfirmed(states, actions, cfg, job, id, m, i);
    } else {
      assert Confirms(states[i], states[i + 1], id);
    }
  }

  /** Some slot of the row lands. */
  predicate RowLands(a: Answers, pair: Pair, contract: Bytes, ids: seq<RowId>, id: RowId)
    requires AnswersFor(a, |ids|)
  {
    exists i :: 0 <= i < |ids| && ids[i] == id && Lands(a, pair, contract, i)
  }

  lemma ResultsLand(s: State, cfg: Config, ids: seq<RowId>, answers: Answers, id: RowId)
    requires AnswersFor(answers, |ids|) && !Throws(answers, |ids|, cfg.maxBatchSize)
    requires (forall i :: i in ids ==> i in s.rows) && id in ids
    ensures var all := BatchResults(s, cfg, ids, answers);
      if RowLands(answers, s.rows[id].pair, cfg.contract, ids, id)
      then exists k :: 0 <= k < |all| && all[k].0 == id && Landed(all[k].1)
      else HoldsNothingFor(all, id)
  {
    var all, inputs := BatchResults(s, cfg, ids, answers), InputsOf(s.rows, ids);
    forall k | 0 <= k < |all| && all[k].0 == id
      ensures Landed(all[k].1) <==> Lands(answers, s.rows[id].pair, cfg.contract, k)
      ensures !all[k].1.status.Reverted?
    {
      LandedIffLands(answers, inputs, cfg.contract, cfg.maxBatchSize, k);
    }
    if RowLands(answers, s.rows[id].pair, cfg.contract, ids, id) {
      var k :| 0 <= k < |ids| && ids[k] == id && Lands(answers, s.rows[id].pair, cfg.contract, k);
      assert all[k].0 == id;
    }
  }

  /** A batch changes no row but those of its slots that land. */
  lemma BatchLeavesRow(states: seq<State>, actions: seq<Action>, cfg: Config, job: JobId, ids: seq<RowId>,
                       answers: Answers, start: nat, b: nat, end: nat, id: RowId)
    requires Behaviour(states, actions, cfg) && start < b < end <= |actions|
    requires BatchRuns(states, actions, cfg, job, ids, answers, start, b, end)
    requires id in ids ==> id in states[b].rows
    requires id in ids ==> !RowLands(answers, states[b].rows[id].pair, cfg.contract, ids, id)
    ensures LeavesRow(states, actions, job, id, start, end)
  {
    HeldByJob(states, actions, cfg, job, ids, answers, start, b, end);
    var all := BatchResults(states[b], cfg, ids, answers);
    if id in ids {
      ResultsLand(states[b], cfg, ids, answers, id);
    }
    assert HoldsNothingFor(all, id);
    WritesLeaveRow(states, actions, cfg, job, all, id, b + 1, end);
    forall i | start <= i <= b && Touches(actions[i], job) ensures states[i + 1].rows == states[i].rows {
      assert i == start || i == b;
      assert Happens(states, actions, cfg, i);
    }
  }

  /** Once all its results are written, a row of the batch is confirmed exactly if one of its slots landed or
      somebody else confirmed the row since it was read. The recorded transaction is the one that published the
      pair, and if no slot landed, no step of the batch changed the row. */
  lemma BatchConfirmsIff(states: seq<State>, actions: seq<Action>, cfg: Config, job: JobId, ids: seq<RowId>,
                         answers: Answers, start: nat, b: nat, end: nat, id: RowId)
    requires Behaviour(states, actions, cfg) && states[0] == EMPTY && NoLateRevert(states, actions)
    requires start < b < end <= |actions| && id in ids
    requires BatchRuns(states, actions, cfg, job, ids, answers, start, b, end)
    ensures id in states[b].rows && id in states[end].rows && states[b].rows[id].pair == states[end].rows[id].pair
    ensures var row := states[end].rows[id];
      var lands := RowLands(answers, row.pair, cfg.contract, ids, id);
      && (row.status.Confirmed? <==> lands || ConfirmedByOther(states, actions, job, id, start, end))
      && (row.status.Confirmed? ==> GoodRow(row, states[end].log) && row.tx.Some?)
      && (!lands ==> LeavesRow(states, actions, job, id, start, end))
  {
    HeldByJob(states, actions, cfg, job, ids, answers, start, b, end);
    BehaviourMovesOnward(states, actions, cfg, b, end);
    ConfirmedForGood(states, actions, cfg, end, end, id);
    if RowLands(answers, states[b].rows[id].pair, cfg.contract, ids, id) {
      LandedRowIsConfirmed(states, actions, cfg, job, ids, answers, start, b, end, id);
    } else {
      BatchLeavesRow(states, actions, cfg, job, ids, answers, start, b, end, id);
      if IsConfirmed(states[end], id) {
        BehaviourKeepsInv(states, actions, cfg, start);
        assert Happens(states, actions, cfg, start);
        SomebodyConfirmed(states, actions, cfg, job, id, start, end);
      }
    }
    ConfirmedByOtherStays(states, actions, cfg, job, id, start, end);
  }

  lemma LandedRowIsConfirmed(states: seq<State>, actions: seq<Action>, cfg: Config, job: JobId, ids: seq<RowId>,
                             answers: Answers, start: nat, b: nat, end: nat, id: RowId)
    requires Behaviour(states, actions, cfg) && states[0] == EMPTY && NoLateRevert(states, actions)
    requires start < b < end <= |actions| && id in ids && id in states[b].rows
    requires BatchRuns(states, actions, cfg, job, ids, answers, start, b, end)
    requires RowLands(answers, states[b].rows[id].pair, cfg.contract, ids, id)
    ensures IsConfirmed(states[end], id)
  {
    HeldByJob(states, actions, cfg, job, ids, answers, start, b, end);
    var k := LandedSlot(states[b], cfg, ids, answers, id);
    BehaviourMovesOnward(states, actions, cfg, b, b + 1);
    var all := BatchResults(states[b], cfg, ids, answers);
    WrittenStaysConfirmed(states, actions, cfg, job, all, b + 1, end, k);
  }

  lemma LandedSlot(s: State, cfg: Config, ids: seq<RowId>, answers: Answers, id: RowId) returns (k: nat)
    requires AnswersFor(answers, |ids|) && !Throws(answers, |ids|, cfg.maxBatchSize)
    requires (forall i :: i in ids ==> i in s.rows) && id in ids
    requires RowLands(answers, s.rows[id].pair, cfg.contract, ids, id)
    ensures var all := BatchResults(s, cfg, ids, answers);
      k < |all| == |ids| && all[k].0 == id && Landed(all[k].1)
  {
    ResultsLand(s, cfg, ids, answers, id);
    k :| k < |ids| && BatchResults(s, cfg, ids, answers)[k].0 == id && Landed(BatchResults(s, cfg, ids, answers)[k].1);
  }

  lemma ConfirmedByOtherStays(states: seq<State>, actions: seq<Action>, cfg: Config, job: JobId, id: RowId,
                              m: nat, n: nat)
    requires Behaviour(states, actions, cfg) && states[0] == EMPTY && NoLateRevert(states, actions)
    requires m <= n <= |actions|
    ensures ConfirmedByOther(states, actions, job, id, m, n) ==> IsConfirmed(states[n], id)
  {
    if ConfirmedByOther(states, actions, job, id, m, n) {
      var i :| m <= i < n && !Touches(actions[i], job) && Confirms(states[i], states[i + 1], id);
      BehaviourMovesForward(states, actions, cfg, i + 1, n);
    }
  }

  /** And over the log: where nothing failed on the way, that is exactly the rows whose pair is published when the
      batch has its results, except that one published by another transaction, while this one was mined as
      failed, is left to a later cycle. */
  lemma BatchConfirmsIffPublished(states: seq<State>, actions: seq<Action>, cfg: Config, job: JobId, ids: seq<RowId>,
                                  answers: Answers, start: nat, b: nat, end: nat, id: RowId)
    requires Behaviour(states, actions, cfg) && states[0] == EMPTY && NoLateRevert(states, actions)
    requires start < b < end <= |actions| && id in ids && forall i :: i in ids ==> i in states[b].rows
    requires BatchRuns(states, actions, cfg, job, ids, answers, start, b, end)
    requires Undisturbed(answers, InputsOf(states[b].rows, ids), cfg.contract, states[b].log)
    ensures id in states[end].rows
    ensures states[end].rows[id].status.Confirmed? <==>
      || (IsPublished(states[b].log, states[b].rows[id].pair)
          && (MinedAsFailed(answers) ==>
                exists i :: 0 <= i < |ids| && ids[i] == id && answers.published[i] == Reply(true)))
      || ConfirmedByOther(states, actions, job, id, start, end)
  {
    var pair, inputs := states[b].rows[id].pair, InputsOf(states[b].rows, ids);
    BatchConfirmsIff(states, actions, cfg, job, ids, answers, start, b, end, id);
    forall i | 0 <= i < |ids| && ids[i] == id
      ensures Lands(answers, pair, cfg.contract, i) <==>
        IsPublished(states[b].log, pair) && (answers.published[i] == Reply(true) || !MinedAsFailed(answers))
    {
      LandedIffLands(answers, inputs, cfg.contract, cfg.maxBatchSize, i);
      LandedIffPublished(answers, inputs, cfg.contract, cfg.maxBatchSize, states[b].log, i);
    }
    var n :| 0 <= n < |ids| && ids[n] == id;
  }

  // ---------- a single publish ----------

  /** From its start on a single publish can go on with whatever answers the chain can give about its row. */
  lemma SingleEnabledIff(states: seq<State>, actions: seq<Action>, cfg: Config, job: JobId, id: RowId,
                         answers: Answers, start: nat, b: nat)
    requires Behaviour(states, actions, cfg) && start < b < |states| && actions[start] == Start(job, [id])
    requires forall i :: start < i < b ==> !Touches(actions[i], job)
    ensures id in states[b].rows
    ensures Enabled(states[b], BroadcastOne(job, answers), cfg) <==>
      AnswersFor(answers, 1) && TruthfulOne(answers, states[b].rows[id].pair, states[b].log)
  {
    WaitsForBroadcast(states, actions, cfg, job, [id], start, b);
    assert id in [id];
  }

  /** The single broadcast has its result at step `b`, and it is written at step `w`. */
  ghost predicate SingleRuns(states: seq<State>, actions: seq<Action>, job: JobId, id: RowId, answers: Answers,
                             start: nat, b: nat, w: nat)
    requires |states| == |actions| + 1 && start < b < w < |actions|
  {
    && actions[start] == Start(job, [id]) && actions[b] == BroadcastOne(job, answers) && actions[w] == WriteBack(job)
    && AnswersFor(answers, 1) && !FailsAlone(answers)
    && (forall i :: start < i < w && i != b ==> !Touches(actions[i], job))
  }

  /** Once its result is written, a single publish leaves the row confirmed with the publishing transaction and
      its contract if it landed, and reverted if not. */
  lemma SingleSettlesRow(states: seq<State>, actions: seq<Action>, cfg: Config, job: JobId, id: RowId,
                         answers: Answers, start: nat, b: nat, w: nat)
    requires Behaviour(states, actions, cfg) && start < b < w < |actions|
    requires SingleRuns(states, actions, job, id, answers, start, b, w)
    ensures id in states[start].rows && id in states[w + 1].rows
    ensures var row := states[w + 1].rows[id];
      && row.pair == states[start].rows[id].pair
      && row.status == (if LandsAlone(answers) then AnchorStatus.Confirmed else AnchorStatus.Reverted)
      && (row.status.Confirmed? ==>
            && row.tx.Some? && row.block.Some? && row.contract == Some(cfg.contract)
            && PublishedBy(states[w + 1].log, row.pair, Located(row.tx.value, row.block.value)))
  {
    WaitsForBroadcast(states, actions, cfg, job, [id], start, b);
    assert id in [id];
    BehaviourMovesOnward(states, actions, cfg, start, b);
    BehaviourMovesOnward(states, actions, cfg, b, w);
    assert Happens(states, actions, cfg, b);
    UntouchedJobStays(states, actions, cfg, job, b + 1, w);
    assert Happens(states, actions, cfg, w);
    SingleBroadcastSettles(answers);
    SingleResultCarriesPublisher(answers, states[b].rows[id].pair, states[b].log, cfg.contract);
    assert forall e :: e in states[b].log ==> e in states[w].log;
  }

  // ---------- what others can do at any time ----------

  /** Anybody can publish pairs by a new transaction in a block that is not behind the log. */
  lemma AnybodyCanPublish(s: State, cfg: Config, at: Located, pairs: seq<Pair>)
    requires forall e :: e in s.log ==> e.block <= at.block && e.tx != Some(at.tx)
    ensures Enabled(s, Mine(at, pairs), cfg)
    ensures var t := Next(s, Mine(at, pairs), cfg);
      && t.rows == s.rows && t.jobs == s.jobs
      && forall p :: IsPublished(t.log, p) <==> IsPublished(s.log, p) || p in pairs
  {
    var t := Next(s, Mine(at, pairs), cfg);
    forall p ensures IsPublished(t.log, p) <==> IsPublished(s.log, p) || p in pairs {
      AnchorBatchPublishesAll(s.log, at, pairs, p);
    }
  }

  /** A row for a new pair can be recorded, and any job that is not running can then read it. */
  lemma NewRowCanBePublished(s: State, cfg: Config, id: RowId, pair: Pair, n: nat, w: Window, job: JobId)
    requires id !in s.rows && job !in s.jobs && forall i :: i in s.rows ==> s.rows[i].pair != pair
    ensures Enabled(s, InsertRow(id, pair, n, w), cfg)
    ensures var t := Next(s, InsertRow(id, pair, n, w), cfg);
      && t.rows.Keys == s.rows.Keys + {id} && (forall i :: i in s.rows ==> t.rows[i] == s.rows[i])
      && t.rows[id] == AnchorRow(pair, n, w, None, None, AnchorStatus.Pending, None)
      && t.log == s.log && t.jobs == s.jobs && Enabled(t, Start(job, [id]), cfg)
  {
  }

  // ---------- jobs that end early ----------

  /** The job crashes, or the call that should bring its results throws. */
  predicate EndsEarly(s: State, a: Action, job: JobId, cfg: Config)
    requires Touches(a, job) && (a.Broadcast? ==> job in s.jobs && AnswersFor(a.answers, |s.jobs[job].waiting|))
    requires a.BroadcastOne? ==> AnswersFor(a.answers, 1)
  {
    || a.Crash?
    || (a.LookUp? && a.answer.Throw?)
    || (a.Broadcast? && Throws(a.answers, |s.jobs[job].waiting|, cfg.maxBatchSize))
    || (a.BroadcastOne? && FailsAlone(a.answers))
  }

  /** Then it writes nothing more, no row and no event is lost, and the rows it leaves unsettled can be read
      again by the same job; any other step about a job leaves it there. */
  lemma EarlyEndLosesNothing(s: State, a: Action, cfg: Config, job: JobId, ids: seq<RowId>)
    requires Enabled(s, a, cfg) && Touches(a, job)
    ensures var t := Next(s, a, cfg);
      && (job in t.jobs <==> !EndsEarly(s, a, job, cfg))
      && (EndsEarly(s, a, job, cfg) ==>
            && t.rows == s.rows && t.log == s.log && !Enabled(t, WriteBack(job), cfg)
            && (Enabled(t, Start(job, ids), cfg) <==> forall i :: i in ids ==> i in s.rows && Attemptable(s.rows[i])))
  {
    if a.BroadcastOne? {
      SingleBroadcastSettles(a.answers);
    }
  }
}
