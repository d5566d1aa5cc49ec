/**
 The publish protocol: rows in the database, the chain, and any number of batch publishers and
 reconcilers working on them at once, each of which can stop between any two of its steps.

 A job first reads which rows to work on, then learns something about each from the chain, and only
 then writes it back, one row at a time. In between, others mine transactions and write the same rows.
 */
module PublishProtocol {
  import opened Bytes
  import opened Options
  import opened AnchorTables
  import opened Chain
  import opened Broadcaster
  import opened Publisher

  type JobId = nat

  /** Rows still to be looked at, and results still to be written. */
  datatype Job = Job(waiting: seq<RowId>, toWrite: Written)

  datatype State = State(rows: Rows, log: seq<AnchorEvent>, jobs: map<JobId, Job>)

  datatype Action =
    | InsertRow(id: RowId, pair: Pair, eventCount: nat, window: Window)
    | Mine(at: Located, pairs: seq<Pair>)            // an anchor or anchorBatch that does not revert
    | Start(job: JobId, ids: seq<RowId>)             // a batch or a reconcile cycle reads its rows
    | Broadcast(job: JobId, answers: Answers)        // a batch has its results, or throws
    | LookUp(job: JobId, answer: Answer<Option<Located>>)  // a reconcile cycle looks up its next row
    | WriteBack(job: JobId)                          // the next write of a job
    | BroadcastOne(job: JobId, answers: Answers)     // a single publish has its result, or throws
    | Crash(job: JobId)

  datatype Config = Config(contract: Bytes, maxBatchSize: nat)

  function InputsOf(rows: Rows, ids: seq<RowId>): seq<BroadcastInput>
    requires forall i :: i in ids ==> i in rows
  {
    seq(|ids|, i requires 0 <= i < |ids| =>
      BroadcastInput(rows[ids[i]].pair, rows[ids[i]].eventCount, rows[ids[i]].window))
  }

  /** What the state allows, and what the chain can answer. Answers are about the log as it is when
      the job goes on; parts of them may have been read earlier (EarlierAnswersStayEnabled). */
  ghost predicate Enabled(s: State, a: Action, cfg: Config) {
    match a
    case InsertRow(id, pair, _, _) => id !in s.rows && forall i :: i in s.rows ==> s.rows[i].pair != pair
    case Mine(at, _) => NoLaterThan(s.log, at.block) && forall e :: e in s.log ==> e.tx != Some(at.tx)
    case Start(job, ids) => job !in s.jobs && forall i :: i in ids ==> i in s.rows && Attemptable(s.rows[i])
    case Broadcast(job, answers) =>
      && job in s.jobs
      && (forall i :: i in s.jobs[job].waiting ==> i in s.rows)
      && AnswersFor(answers, |s.jobs[job].waiting|)
      && Truthful(answers, InputsOf(s.rows, s.jobs[job].waiting), cfg.contract, s.log)
    case LookUp(job, answer) =>
      && job in s.jobs && s.jobs[job].waiting != [] && s.jobs[job].waiting[0] in s.rows
      && (answer.Reply? && answer.value.Some? ==>
            PublishedBy(s.log, s.rows[s.jobs[job].waiting[0]].pair, answer.value.value))
    case WriteBack(job) => job in s.jobs && s.jobs[job].toWrite != []
    case Crash(job) => job in s.jobs
    case BroadcastOne(job, answers) =>
      && job in s.jobs && |s.jobs[job].waiting| == 1 && s.jobs[job].waiting[0] in s.rows
      && AnswersFor(answers, 1) && TruthfulOne(answers, s.rows[s.jobs[job].waiting[0]].pair, s.log)
  }

  /** What the chain can answer to a single broadcast: once mined, it fails only if the pair is published. */
  ghost predicate TruthfulOne(a: Answers, p: Pair, log: seq<AnchorEvent>)
    requires AnswersFor(a, 1)
  {
    && (a.lookups[0].Reply? && a.lookups[0].value.Some? ==> PublishedBy(log, p, a.lookups[0].value.value))
    && (a.send.Ok? && a.receipt.Reply? && a.receipt.value.success ==>
          PublishedBy(log, p, Located(a.send.value, a.receipt.value.block)))
    && (MinedAsFailed(a) ==> IsPublished(log, p))
  }

  type Written = seq<(RowId, BroadcastResult)>

  function Results(answers: Answers, inputs: seq<BroadcastInput>, ids: seq<RowId>, contract: Bytes): Written
    requires AnswersFor(answers, |inputs|) && |ids| == |inputs|
  {
    seq(|ids|, i requires 0 <= i < |ids| => (ids[i], WithContract(SlotResult(answers, inputs, contract, i), contract)))
  }

  function Next(s: State, a: Action, cfg: Config): State
    requires Enabled(s, a, cfg)
  {
    match a
    case InsertRow(id, pair, n, w) =>
      s.(rows := s.rows[id := PendingRow(pair, n, w)])
    case Mine(at, pairs) => s.(log := AnchorBatch(s.log, at, pairs))
    case Start(job, ids) => s.(jobs := s.jobs[job := Job(ids, [])])
    case Broadcast(job, answers) =>
      var j := s.jobs[job];
      var inputs := InputsOf(s.rows, j.waiting);
      if Throws(answers, |inputs|, cfg.maxBatchSize) then s.(jobs := s.jobs - {job})
      else s.(jobs := s.jobs[job := Job([], j.toWrite + Results(answers, inputs, j.waiting, cfg.contract))])
    case LookUp(job, answer) =>
      var j := s.jobs[job];
      if answer.Throw? then s.(jobs := s.jobs - {job})
      else s.(jobs := s.jobs[job := Job(j.waiting[1..], j.toWrite + [(j.waiting[0], ResolveOrPending(answer))])])
    case WriteBack(job) =>
      var j := s.jobs[job];
      s.(rows := WriteResult(s.rows, j.toWrite[0].0, j.toWrite[0].1),
         jobs := s.jobs[job := j.(toWrite := j.toWrite[1..])])
    case Crash(job) => s.(jobs := s.jobs - {job})
    case BroadcastOne(job, answers) =>
      var j, r := s.jobs[job], BroadcastAnchor(answers);
      if r.None? then s.(jobs := s.jobs - {job})
      else s.(jobs := s.jobs[job := Job([], j.toWrite + [(j.waiting[0], WithContract(r.value, cfg.contract))])])
  }

  // ---------- the invariant ----------

  /** Confirmed exactly when there is a transaction hash, and then that transaction published the pair. */
  ghost predicate GoodRow(row: AnchorRow, log: seq<AnchorEvent>) {
    && (row.status.Confirmed? <==> row.tx.Some?)
    && (row.tx.Some? <==> row.block.Some?)
    && (row.tx.Some? ==> PublishedBy(log, row.pair, Located(row.tx.value, row.block.value)))
  }

  /** A result that is waiting to be written is about a row there is and, when it has landed, names the
      transaction that published that row's pair. */
  ghost predicate GoodResult(rows: Rows, log: seq<AnchorEvent>, id: RowId, r: BroadcastResult) {
    && id in rows
    && (Landed(r) ==> PublishedBy(log, rows[id].pair, Located(r.tx, r.block)))
  }

  ghost predicate GoodJob(rows: Rows, log: seq<AnchorEvent>, j: Job) {
    && (forall i :: i in j.waiting ==> i in rows)
    && (forall n :: 0 <= n < |j.toWrite| ==> GoodResult(rows, log, j.toWrite[n].0, j.toWrite[n].1))
  }

  ghost predicate Inv(s: State) {
    && GoodLog(s.log)
    && (forall i :: i in s.rows ==> GoodRow(s.rows[i], s.log))
    && (forall i, k :: i in s.rows && k in s.rows && i != k ==> s.rows[i].pair != s.rows[k].pair)
    && (forall j :: j in s.jobs ==> GoodJob(s.rows, s.log, s.jobs[j]))
  }

  predicate SameWindow(a: AnchorRow, b: AnchorRow) {
    a.pair == b.pair && a.eventCount == b.eventCount && a.window == b.window
  }

  /** No row and no event disappears, and a row keeps its pair, count and window. */
  ghost predicate Onward(s: State, t: State) {
    s.log <= t.log && forall i :: i in s.rows ==> i in t.rows && SameWindow(s.rows[i], t.rows[i])
  }

  /** Moreover confirmed rows keep everything but perhaps the recorded contract. */
  ghost predicate Forward(s: State, t: State) {
    && Onward(s, t)
    && (forall i :: i in s.rows && s.rows[i].status.Confirmed? ==>
          t.rows[i].status.Confirmed? && t.rows[i].tx == s.rows[i].tx && t.rows[i].block == s.rows[i].block)
  }

  /** A "reverted" result is written to a row that was confirmed after the result's job had read it. */
  predicate LateRevert(s: State, a: Action) {
    && a.WriteBack? && a.job in s.jobs && s.jobs[a.job].toWrite != []
    && var (id, r) := s.jobs[a.job].toWrite[0];
       r.status.Reverted? && id in s.rows && s.rows[id].status.Confirmed?
  }

  lemma GoodJobForward(s: State, t: State, j: Job)
    requires GoodJob(s.rows, s.log, j) && Forward(s, t)
    ensures GoodJob(t.rows, t.log, j)
  {
    assert forall e :: e in s.log ==> e in t.log;
    forall n | 0 <= n < |j.toWrite| ensures GoodResult(t.rows, t.log, j.toWrite[n].0, j.toWrite[n].1) {
      assert GoodResult(s.rows, s.log, j.toWrite[n].0, j.toWrite[n].1);
    }
  }

  lemma JobsForward(s: State, t: State)
    requires Inv(s) && Forward(s, t)
    ensures forall j :: j in s.jobs ==> GoodJob(t.rows, t.log, s.jobs[j])
  {
    forall j | j in s.jobs ensures GoodJob(t.rows, t.log, s.jobs[j]) {
      GoodJobForward(s, t, s.jobs[j]);
    }
  }

  lemma MineKeepsInv(s: State, at: Located, pairs: seq<Pair>, cfg: Config)
    requires Inv(s) && Enabled(s, Mine(at, pairs), cfg)
    ensures Inv(Next(s, Mine(at, pairs), cfg)) && Forward(s, Next(s, Mine(at, pairs), cfg))
  {
    var t := Next(s, Mine(at, pairs), cfg);
    AnchorBatchKeepsGoodLog(s.log, at, pairs);
    assert forall e :: e in s.log ==> e in t.log;
    JobsForward(s, t);
  }

  lemma InsertKeepsInv(s: State, id: RowId, pair: Pair, n: nat, w: Window, cfg: Config)
    requires Inv(s) && Enabled(s, InsertRow(id, pair, n, w), cfg)
    ensures Inv(Next(s, InsertRow(id, pair, n, w), cfg)) && Forward(s, Next(s, InsertRow(id, pair, n, w), cfg))
  {
    var t := Next(s, InsertRow(id, pair, n, w), cfg);
    assert forall i :: i in s.rows ==> t.rows[i] == s.rows[i];
    JobsForward(s, t);
  }

  lemma BroadcastKeepsInv(s: State, job: JobId, answers: Answers, cfg: Config)
    requires Inv(s) && Enabled(s, Broadcast(job, answers), cfg)
    ensures Inv(Next(s, Broadcast(job, answers), cfg)) && Forward(s, Next(s, Broadcast(job, answers), cfg))
  {
    var t, j := Next(s, Broadcast(job, answers), cfg), s.jobs[job];
    var inputs := InputsOf(s.rows, j.waiting);
    if !Throws(answers, |inputs|, cfg.maxBatchSize) {
      var results := Results(answers, inputs, j.waiting, cfg.contract);
      forall n | 0 <= n < |results| ensures GoodResult(s.rows, s.log, results[n].0, results[n].1) {
        assert j.waiting[n] in j.waiting;
        SlotsCarryPublishers(answers, inputs, cfg.contract, s.log, n);
      }
      AppendKeepsGoodJob(s.rows, s.log, j, results, []);
    }
  }

  lemma AppendKeepsGoodJob(rows: Rows, log: seq<AnchorEvent>, j: Job,
                           more: Written, waiting: seq<RowId>)
    requires GoodJob(rows, log, j) && forall i :: i in waiting ==> i in rows
    requires forall n :: 0 <= n < |more| ==> GoodResult(rows, log, more[n].0, more[n].1)
    ensures GoodJob(rows, log, Job(waiting, j.toWrite + more))
  {
    var all := j.toWrite + more;
    forall n | 0 <= n < |all| ensures GoodResult(rows, log, all[n].0, all[n].1) {
      assert all[n] == if n < |j.toWrite| then j.toWrite[n] else more[n - |j.toWrite|];
    }
  }

  lemma LookUpKeepsInv(s: State, job: JobId, answer: Answer<Option<Located>>, cfg: Config)
    requires Inv(s) && Enabled(s, LookUp(job, answer), cfg)
    ensures Inv(Next(s, LookUp(job, answer), cfg)) && Forward(s, Next(s, LookUp(job, answer), cfg))
  {
    if answer.Reply? {
      var j := s.jobs[job];
      AppendKeepsGoodJob(s.rows, s.log, j, [(j.waiting[0], ResolveOrPending(answer))], j.waiting[1..]);
    }
  }

  /** Writing a result that names the publishing transaction, or "reverted" to a row not confirmed. */
  lemma WriteKeepsRows(s: State, id: RowId, r: BroadcastResult)
    requires Inv(s) && id in s.rows
    requires Landed(r) ==> PublishedBy(s.log, s.rows[id].pair, Located(r.tx, r.block))
    requires r.status.Reverted? ==> !s.rows[id].status.Confirmed?
    ensures var t := s.(rows := WriteResult(s.rows, id, r));
      && Forward(s, t) && t.rows.Keys == s.rows.Keys
      && forall i :: i in t.rows ==> GoodRow(t.rows[i], t.log)
  {
    assert GoodRow(s.rows[id], s.log);
    WrittenRowIsGood(s.rows, s.log, id, r);
    assert forall i :: i in s.rows && i != id ==> WriteResult(s.rows, id, r)[i] == s.rows[i];
  }

  lemma WrittenRowIsGood(rows: Rows, log: seq<AnchorEvent>, id: RowId, r: BroadcastResult)
    requires GoodLog(log) && id in rows && GoodRow(rows[id], log)
    requires Landed(r) ==> PublishedBy(log, rows[id].pair, Located(r.tx, r.block))
    requires r.status.Reverted? ==> !rows[id].status.Confirmed?
    ensures var row, after := rows[id], WriteResult(rows, id, r);
      && id in after && GoodRow(after[id], log) && SameWindow(row, after[id])
      && (row.status.Confirmed? ==>
            after[id].status.Confirmed? && after[id].tx == row.tx && after[id].block == row.block)
  {
    if rows[id].status.Confirmed? && Landed(r) {
      PublishedOnce(log, rows[id].pair, Located(r.tx, r.block), Located(rows[id].tx.value, rows[id].block.value));
    }
  }

  lemma WriteBackKeepsInv(s: State, job: JobId, cfg: Config)
    requires Inv(s) && Enabled(s, WriteBack(job), cfg) && !LateRevert(s, WriteBack(job))
    ensures Inv(Next(s, WriteBack(job), cfg)) && Forward(s, Next(s, WriteBack(job), cfg))
  {
    var t, j := Next(s, WriteBack(job), cfg), s.jobs[job];
    var (id, r) := j.toWrite[0];
    assert GoodResult(s.rows, s.log, id, r);
    WriteKeepsRows(s, id, r);
    JobsForward(s, t);
    assert GoodJob(t.rows, t.log, t.jobs[job]) by {
      assert forall n :: 0 <= n < |t.jobs[job].toWrite| ==> t.jobs[job].toWrite[n] == j.toWrite[n + 1];
    }
  }

  lemma BroadcastOneKeepsInv(s: State, job: JobId, answers: Answers, cfg: Config)
    requires Inv(s) && Enabled(s, BroadcastOne(job, answers), cfg)
    ensures Inv(Next(s, BroadcastOne(job, answers), cfg)) && Forward(s, Next(s, BroadcastOne(job, answers), cfg))
  {
    var r, j := BroadcastAnchor(answers), s.jobs[job];
    if r.Some? {
      SingleResultCarriesPublisher(answers, s.rows[j.waiting[0]].pair, s.log, cfg.contract);
      AppendKeepsGoodJob(s.rows, s.log, j, [(j.waiting[0], WithContract(r.value, cfg.contract))], []);
    }
  }

  lemma SingleResultCarriesPublisher(a: Answers, p: Pair, log: seq<AnchorEvent>, contract: Bytes)
    requires AnswersFor(a, 1) && TruthfulOne(a, p, log) && BroadcastAnchor(a).Some?
    ensures var r := WithContract(BroadcastAnchor(a).value, contract);
      Landed(r) ==> PublishedBy(log, p, Located(r.tx, r.block))
  {
  }

  lemma StepKeepsInv(s: State, a: Action, cfg: Config)
    requires Inv(s) && Enabled(s, a, cfg) && !LateRevert(s, a)
    ensures Inv(Next(s, a, cfg)) && Forward(s, Next(s, a, cfg))
  {
    match a
    case InsertRow(id, pair, n, w) => InsertKeepsInv(s, id, pair, n, w, cfg);
    case Mine(at, pairs) => MineKeepsInv(s, at, pairs, cfg);
    case Broadcast(job, answers) => BroadcastKeepsInv(s, job, answers, cfg);
    case LookUp(job, answer) => LookUpKeepsInv(s, job, answer, cfg);
    case WriteBack(job) => WriteBackKeepsInv(s, job, cfg);
    case BroadcastOne(job, answers) => BroadcastOneKeepsInv(s, job, answers, cfg);
    case Start(_, _) =>
    case Crash(_) =>
  }

  lemma LateRevertBreaksInv(s: State, a: Action, cfg: Config)
    requires Inv(s) && Enabled(s, a, cfg) && LateRevert(s, a)
    ensures !Inv(Next(s, a, cfg))
  {
    var t, id := Next(s, a, cfg), s.jobs[a.job].toWrite[0].0;
    assert GoodRow(s.rows[id], s.log);
    assert !GoodRow(t.rows[id], t.log);
  }

  // ---------- whole behaviours ----------

  /** Step i is one that states[i] allows, and leads to states[i + 1]. */
  ghost predicate Happens(states: seq<State>, actions: seq<Action>, cfg: Config, i: nat)
    requires |states| == |actions| + 1 && i < |actions|
  {
    Enabled(states[i], actions[i], cfg) && states[i + 1] == Next(states[i], actions[i], cfg)
  }

  /** Any interleaving of the steps. */
  ghost predicate Behaviour(states: seq<State>, actions: seq<Action>, cfg: Config) {
    |states| == |actions| + 1 && forall i: nat :: i < |actions| ==> Happens(states, actions, cfg, i)
  }

  predicate Touches(a: Action, job: JobId) { !a.InsertRow? && !a.Mine? && a.job == job }

  lemma {:induction false} UntouchedJobStays(states: seq<State>, actions: seq<Action>, cfg: Config, job: JobId,
                                             m: nat, n: nat)
    requires Behaviour(states, actions, cfg) && m <= n < |states| && job in states[m].jobs
    requires forall i :: m <= i < n ==> !Touches(actions[i], job)
    ensures job in states[n].jobs && states[n].jobs[job] == states[m].jobs[job]
    decreases n
  {
    if m < n {
      UntouchedJobStays(states, actions, cfg, job, m, n - 1);
      assert Happens(states, actions, cfg, n - 1);
      assert !Touches(actions[n - 1], job);
    }
  }

  lemma StepMovesOnward(s: State, a: Action, cfg: Config)
    requires Enabled(s, a, cfg)
    ensures Onward(s, Next(s, a, cfg))
  {
  }

  lemma OnwardTransitive(s: State, t: State, u: State)
    requires Onward(s, t) && Onward(t, u)
    ensures Onward(s, u)
  {
  }

  /** Every interleaving moves on, late writes or not. */
  lemma {:induction false} BehaviourMovesOnward(states: seq<State>, actions: seq<Action>, cfg: Config, m: nat, n: nat)
    requires Behaviour(states, actions, cfg) && m <= n < |states|
    ensures Onward(states[m], states[n])
    decreases n
  {
    if m < n {
      var i := n - 1;
      BehaviourMovesOnward(states, actions, cfg, m, i);
      assert Happens(states, actions, cfg, i);
      StepMovesOnward(states[i], actions[i], cfg);
      OnwardTransitive(states[m], states[i], states[i + 1]);
    }
  }

  /** Answers read at one moment can be acted on at any later one, whatever others did in between. */
  lemma EarlierAnswersStayEnabled(states: seq<State>, actions: seq<Action>, cfg: Config, job: JobId, answers: Answers,
                                  m: nat, n: nat)
    requires Behaviour(states, actions, cfg) && m <= n < |states|
    requires Enabled(states[m], Broadcast(job, answers), cfg) && forall i :: m <= i < n ==> !Touches(actions[i], job)
    ensures Enabled(states[n], Broadcast(job, answers), cfg)
  {
    UntouchedJobStays(states, actions, cfg, job, m, n);
    BehaviourMovesOnward(states, actions, cfg, m, n);
    var waiting := states[m].jobs[job].waiting;
    forall i | i in waiting ensures i in states[n].rows && SameWindow(states[m].rows[i], states[n].rows[i]) {
    }
    assert InputsOf(states[n].rows, waiting) == InputsOf(states[m].rows, waiting);
    TruthfulStaysTrue(answers, InputsOf(states[m].rows, waiting), cfg.contract, states[m].log, states[n].log);
  }

  ghost predicate NoLateRevert(states: seq<State>, actions: seq<Action>)
    requires |states| == |actions| + 1
  {
    forall i :: 0 <= i < |actions| ==> !LateRevert(states[i], actions[i])
  }

  lemma {:induction false} BehaviourKeepsInv(states: seq<State>, actions: seq<Action>, cfg: Config, n: nat)
    requires Behaviour(states, actions, cfg) && Inv(states[0]) && NoLateRevert(states, actions) && n < |states|
    ensures Inv(states[n])
  {
    if n > 0 {
      BehaviourKeepsInv(states, actions, cfg, n - 1);
      assert Happens(states, actions, cfg, n - 1);
      StepKeepsInv(states[n - 1], actions[n - 1], cfg);
    }
  }

  /** Every interleaving keeps the invariant all the way exactly if no "reverted" result is written to a row
      that was confirmed meanwhile. */
  lemma InvKeptIff(states: seq<State>, actions: seq<Action>, cfg: Config)
    requires Behaviour(states, actions, cfg) && Inv(states[0])
    ensures (forall n :: 0 <= n < |states| ==> Inv(states[n])) <==> NoLateRevert(states, actions)
  {
    if NoLateRevert(states, actions) {
      forall n | 0 <= n < |states| ensures Inv(states[n]) {
        BehaviourKeepsInv(states, actions, cfg, n);
      }
    } else {
      var i :| 0 <= i < |actions| && LateRevert(states[i], actions[i]);
      if Inv(states[i]) {
        assert Happens(states, actions, cfg, i);
        LateRevertBreaksInv(states[i], actions[i], cfg);
        assert !Inv(states[i + 1]);
      }
    }
  }

  ghost predicate NeverReverted(results: Written) {
    forall n :: 0 <= n < |results| ==> !results[n].1.status.Reverted?
  }

  ghost predicate NoRevertedResults(s: State) { forall j :: j in s.jobs ==> NeverReverted(s.jobs[j].toWrite) }

  lemma BatchResultsNeverReverted(answers: Answers, inputs: seq<BroadcastInput>, ids: seq<RowId>, contract: Bytes)
    requires AnswersFor(answers, |inputs|) && |ids| == |inputs|
    ensures NeverReverted(Results(answers, inputs, ids, contract))
  {
  }

  lemma BatchStepHoldsNoReverted(s: State, a: Action, cfg: Config)
    requires NoRevertedResults(s) && Enabled(s, a, cfg) && !a.BroadcastOne?
    ensures NoRevertedResults(Next(s, a, cfg))
  {
    if a.Broadcast? {
      var waiting := s.jobs[a.job].waiting;
      BatchResultsNeverReverted(a.answers, InputsOf(s.rows, waiting), waiting, cfg.contract);
    }
  }

  lemma {:induction false} BatchStatesHoldNoReverted(states: seq<State>, actions: seq<Action>, cfg: Config, n: nat)
    requires Behaviour(states, actions, cfg) && states[0] == EMPTY && n < |states|
    requires forall a :: a in actions ==> !a.BroadcastOne?
    ensures NoRevertedResults(states[n])
  {
    if n > 0 {
      BatchStatesHoldNoReverted(states, actions, cfg, n - 1);
      assert actions[n - 1] in actions && Happens(states, actions, cfg, n - 1);
      BatchStepHoldsNoReverted(states[n - 1], actions[n - 1], cfg);
    }
  }

  /** Batches and reconcile cycles never hold a "reverted" result, so without single publishes there is no
      late one. */
  lemma BatchesNeverRevert(states: seq<State>, actions: seq<Action>, cfg: Config)
    requires Behaviour(states, actions, cfg) && states[0] == EMPTY
    requires forall a :: a in actions ==> !a.BroadcastOne?
    ensures NoLateRevert(states, actions)
  {
    forall i | 0 <= i < |actions| ensures !LateRevert(states[i], actions[i]) {
      BatchStatesHoldNoReverted(states, actions, cfg, i);
    }
  }

  lemma ForwardTransitive(s: State, t: State, u: State)
    requires Forward(s, t) && Forward(t, u)
    ensures Forward(s, u)
  {
  }

  lemma {:induction false} BehaviourMovesForward(states: seq<State>, actions: seq<Action>, cfg: Config, m: nat, n: nat)
    requires Behaviour(states, actions, cfg) && Inv(states[0]) && NoLateRevert(states, actions) && m <= n < |states|
    ensures Forward(states[m], states[n])
    decreases n
  {
    if m < n {
      BehaviourMovesForward(states, actions, cfg, m, n - 1);
      BehaviourKeepsInv(states, actions, cfg, n - 1);
      assert Happens(states, actions, cfg, n - 1);
      StepKeepsInv(states[n - 1], actions[n - 1], cfg);
      ForwardTransitive(states[m], states[n - 1], states[n]);
    }
  }

  const EMPTY: State := State(map[], [], map[])

  /** In every interleaving of inserts, transactions, batches, single publishes, reconcile cycles, retries and
      crashes without a late "reverted" write (BatchesNeverRevert, InvKeptIff): a row is confirmed exactly when
      its transaction hash is set; that hash names the one transaction that published the row's pair; and the
      row never leaves that state again. */
  lemma ConfirmedForGood(states: seq<State>, actions: seq<Action>, cfg: Config, m: nat, n: nat, id: RowId)
    requires Behaviour(states, actions, cfg) && states[0] == EMPTY && NoLateRevert(states, actions)
    requires m <= n < |states| && id in states[m].rows
    ensures var row, log := states[m].rows[id], states[m].log;
      && (row.status.Confirmed? <==> row.tx.Some?)
      && (row.tx.Some? ==> row.block.Some?)
      && (row.tx.Some? ==>
            forall at :: PublishedBy(log, row.pair, at) <==> at == Located(row.tx.value, row.block.value))
      && id in states[n].rows
      && (row.status.Confirmed? ==>
            var later := states[n].rows[id];
            later.status.Confirmed? && later.pair == row.pair && later.tx == row.tx && later.block == row.block)
  {
    BehaviourKeepsInv(states, actions, cfg, m);
    BehaviourMovesForward(states, actions, cfg, m, n);
    var row, log := states[m].rows[id], states[m].log;
    assert GoodRow(row, log);
    if row.tx.Some? {
      forall at | PublishedBy(log, row.pair, at) ensures at == Located(row.tx.value, row.block.value) {
        PublishedOnce(log, row.pair, at, Located(row.tx.value, row.block.value));
      }
    }
  }
}
