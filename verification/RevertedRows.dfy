/**
 What becomes of rows recorded as "reverted": the runs in which that goes wrong, and that it is final.
 */
module RevertedRows {
  import opened Bytes
  import opened Options
  import opened AnchorTables
  import opened Chain
  import opened Broadcaster
  import opened Publisher
  import opened PublishProtocol

  /** A single broadcast whose own transaction is mined as failed. */
  function FailedSend(tx: Bytes): Answers {
    Answers([Reply(false)], [Throw], [Throw], Ok(()), Reply(()), Ok(tx), Reply(Receipt(1, false, [])))
  }

  lemma FailedSendReverts(tx: Bytes)
    ensures AnswersFor(FailedSend(tx), 1)
    ensures BroadcastAnchor(FailedSend(tx)) == Some(BroadcastResult(tx, 1, BroadcastStatus.Reverted, None))
  {
  }

  // ---------- putting behaviours together ----------

  lemma TwoSteps(s: State, a: Action, t: State, b: Action, u: State, cfg: Config)
    requires Enabled(s, a, cfg) && t == Next(s, a, cfg) && Enabled(t, b, cfg) && u == Next(t, b, cfg)
    ensures Behaviour([s, t, u], [a, b], cfg)
  {
  }

  lemma Join(s1: seq<State>, a1: seq<Action>, s2: seq<State>, a2: seq<Action>, cfg: Config)
    requires Behaviour(s1, a1, cfg) && Behaviour(s2, a2, cfg) && s1[|a1|] == s2[0]
    ensures Behaviour(s1 + s2[1..], a1 + a2, cfg)
  {
    var states, actions, n := s1 + s2[1..], a1 + a2, |a1|;
    forall i | 0 <= i < |actions|
      ensures Happens(states, actions, cfg, i)
    {
      if i < n {
        assert Happens(s1, a1, cfg, i);
        assert states[i] == s1[i] && states[i + 1] == s1[i + 1] && actions[i] == a1[i];
      } else {
        assert Happens(s2, a2, cfg, i - n);
        assert states[i] == s2[i - n] && states[i + 1] == s2[i - n + 1] && actions[i] == a2[i - n];
      }
    }
  }

  // ---------- the single publisher's result, held while others go on ----------

  function Failed(tx: Bytes): BroadcastResult { BroadcastResult(tx, 1, BroadcastStatus.Reverted, None) }

  function PublishedLog(p: Pair, tx: Bytes): seq<AnchorEvent> { [AnchorEvent(p, Some(tx), 1)] }

  function ConfirmedRow(p: Pair, w: Window, tx: Bytes): AnchorRow {
    PendingRow(p, 1, w).(tx := Some(tx), block := Some(1), status := AnchorStatus.Confirmed)
  }

  /** The pair is published by another transaction while the single publisher holds its failed result. */
  function Held(p: Pair, w: Window, mine: Bytes, theirs: Bytes): State {
    State(map[0 := PendingRow(p, 1, w)], PublishedLog(p, theirs), map[0 := Job([], [(0, Failed(mine))])])
  }

  lemma FirstPublication(p: Pair, at: Located)
    ensures AnchorBatch([], at, [p]) == [AnchorEvent(p, Some(at.tx), at.block)]
  {
    assert [p][..0] == [];
    assert AnchorBatch([], at, [p][..0]) == [];
  }

  /** The publisher finds the pair unpublished and sends; the other transaction is mined first, so that its own
      fails. */
  lemma HeldIsReached(p: Pair, w: Window, mine: Bytes, theirs: Bytes, cfg: Config)
    returns (states: seq<State>, actions: seq<Action>)
    ensures Behaviour(states, actions, cfg) && states[0] == EMPTY && states[|actions|] == Held(p, w, mine, theirs)
    ensures forall a :: a in actions ==> !a.WriteBack?
  {
    var rows := map[0 := PendingRow(p, 1, w)];
    var insert, start := InsertRow(0, p, 1, w), Start(0, [0]);
    var published, broadcast := Mine(Located(theirs, 1), [p]), BroadcastOne(0, FailedSend(mine));
    var inserted, read := State(rows, [], map[]), State(rows, [], map[0 := Job([0], [])]);
    var raced := State(rows, PublishedLog(p, theirs), map[0 := Job([0], [])]);
    TwoSteps(EMPTY, insert, inserted, start, read, cfg);
    HeldAfterRead(p, w, mine, theirs, cfg);
    var first, second := [EMPTY, inserted, read], [read, raced, Held(p, w, mine, theirs)];
    Join(first, [insert, start], second, [published, broadcast], cfg);
    states, actions := first + second[1..], [insert, start] + [published, broadcast];
  }

  lemma HeldAfterRead(p: Pair, w: Window, mine: Bytes, theirs: Bytes, cfg: Config)
    ensures var rows, jobs := map[0 := PendingRow(p, 1, w)], map[0 := Job([0], [])];
      Behaviour(
        [State(rows, [], jobs), State(rows, PublishedLog(p, theirs), jobs), Held(p, w, mine, theirs)],
        [Mine(Located(theirs, 1), [p]), BroadcastOne(0, FailedSend(mine))], cfg)
  {
    var rows, jobs := map[0 := PendingRow(p, 1, w)], map[0 := Job([0], [])];
    FailedSendReverts(mine);
    FirstPublication(p, Located(theirs, 1));
    assert PublishedLog(p, theirs)[0].pair == p;
    assert [] + [(0, Failed(mine))] == [(0, Failed(mine))];
    TwoSteps(State(rows, [], jobs), Mine(Located(theirs, 1), [p]), State(rows, PublishedLog(p, theirs), jobs),
             BroadcastOne(0, FailedSend(mine)), Held(p, w, mine, theirs), cfg);
  }

  /** A reconcile cycle of another job confirms the row, and then the held result is written. */
  lemma HealedThenReverted(p: Pair, w: Window, mine: Bytes, theirs: Bytes, cfg: Config)
    returns (states: seq<State>, actions: seq<Action>)
    ensures Behaviour(states, actions, cfg) && |actions| == 4 && states[0] == Held(p, w, mine, theirs)
    ensures LateRevert(states[3], actions[3])
    ensures 0 in states[4].rows && states[4].rows[0] == ConfirmedRow(p, w, theirs).(status := AnchorStatus.Reverted)
  {
    var row, log, held := PendingRow(p, 1, w), PublishedLog(p, theirs), Job([], [(0, Failed(mine))]);
    var found := BroadcastResult(theirs, 1, AlreadyAnchored, None);
    var look := LookUp(1, Reply(Some(Located(theirs, 1))));
    var s1 := State(map[0 := row], log, map[0 := held, 1 := Job([0], [])]);
    var s2 := State(map[0 := row], log, map[0 := held, 1 := Job([], [(0, found)])]);
    assert log[0] == AnchorEvent(p, Some(theirs), 1);
    assert [0][1..] == [] && [] + [(0, found)] == [(0, found)];
    TwoSteps(Held(p, w, mine, theirs), Start(1, [0]), s1, look, s2, cfg);
    var s4 := WrittenBack(p, w, mine, theirs, cfg);
    var s3 := Next(s2, WriteBack(1), cfg);
    Join([Held(p, w, mine, theirs), s1, s2], [Start(1, [0]), look], [s2, s3, s4], [WriteBack(1), WriteBack(0)], cfg);
    states := [Held(p, w, mine, theirs), s1, s2] + [s2, s3, s4][1..];
    actions := [Start(1, [0]), look] + [WriteBack(1), WriteBack(0)];
  }

  lemma WrittenBack(p: Pair, w: Window, mine: Bytes, theirs: Bytes, cfg: Config) returns (end: State)
    ensures var held, found := Job([], [(0, Failed(mine))]), BroadcastResult(theirs, 1, AlreadyAnchored, None);
      var jobs := map[0 := held, 1 := Job([], [(0, found)])];
      var s := State(map[0 := PendingRow(p, 1, w)], PublishedLog(p, theirs), jobs);
      && Enabled(s, WriteBack(1), cfg) && LateRevert(Next(s, WriteBack(1), cfg), WriteBack(0))
      && Behaviour([s, Next(s, WriteBack(1), cfg), end], [WriteBack(1), WriteBack(0)], cfg)
    ensures 0 in end.rows && end.rows[0] == ConfirmedRow(p, w, theirs).(status := AnchorStatus.Reverted)
  {
    var held, found := Job([], [(0, Failed(mine))]), BroadcastResult(theirs, 1, AlreadyAnchored, None);
    var s := State(map[0 := PendingRow(p, 1, w)], PublishedLog(p, theirs), map[0 := held, 1 := Job([], [(0, found)])]);
    var t := Next(s, WriteBack(1), cfg);
    assert t.rows == map[0 := ConfirmedRow(p, w, theirs)] && t.jobs[0] == held;
    end := Next(t, WriteBack(0), cfg);
    TwoSteps(s, WriteBack(1), t, WriteBack(0), end, cfg);
  }

  /** The late write happens: a reconcile cycle confirms the row between the single publisher's read and its
      write, which then leaves a row that is reverted and has a transaction hash. */
  lemma LateRevertHappens(p: Pair, w: Window, mine: Bytes, theirs: Bytes, cfg: Config)
    returns (states: seq<State>, actions: seq<Action>)
    ensures Behaviour(states, actions, cfg) && states[0] == EMPTY && |actions| > 0
    ensures LateRevert(states[|actions| - 1], actions[|actions| - 1])
    ensures var end := states[|actions|];
      0 in end.rows && end.rows[0].status.Reverted? && end.rows[0].tx == Some(theirs)
  {
    var s1, a1 := HeldIsReached(p, w, mine, theirs, cfg);
    var s2, a2 := HealedThenReverted(p, w, mine, theirs, cfg);
    Join(s1, a1, s2, a2, cfg);
    states, actions := s1 + s2[1..], a1 + a2;
    var n := |a1|;
    assert states[n + 3] == s2[3] && states[n + 4] == s2[4] && actions[n + 3] == a2[3];
  }

  /** Without any late write a reverted row can come back: a reconcile cycle reads the row, the publisher writes
      its failure, and only then does the cycle look the row up and write what it finds. */
  lemma RevertedRowReturns(p: Pair, w: Window, mine: Bytes, theirs: Bytes, cfg: Config)
    returns (states: seq<State>, actions: seq<Action>, n: nat)
    ensures Behaviour(states, actions, cfg) && states[0] == EMPTY && NoLateRevert(states, actions)
    ensures n + 2 == |actions| && 0 in states[n].rows && states[n].rows[0].status.Reverted?
    ensures 0 in states[n + 2].rows && states[n + 2].rows[0] == ConfirmedRow(p, w, theirs)
  {
    var s1, a1 := HeldIsReached(p, w, mine, theirs, cfg);
    var s2, a2 := RevertedThenFound(p, w, mine, theirs, cfg);
    Join(s1, a1, s2, a2, cfg);
    states, actions, n := s1 + s2[1..], a1 + a2, |a1| + 2;
    forall i | 0 <= i < |actions| ensures !LateRevert(states[i], actions[i]) {
      if i < |a1| {
        assert actions[i] == a1[i] && a1[i] in a1;
      } else {
        assert actions[i] == a2[i - |a1|] && states[i] == s2[i - |a1|];
      }
    }
    assert states[n] == s2[2] && states[n + 2] == s2[4];
  }

  lemma RevertedThenFound(p: Pair, w: Window, mine: Bytes, theirs: Bytes, cfg: Config)
    returns (states: seq<State>, actions: seq<Action>)
    ensures Behaviour(states, actions, cfg) && |actions| == 4 && states[0] == Held(p, w, mine, theirs)
    ensures forall i :: 0 <= i < 4 ==> !LateRevert(states[i], actions[i])
    ensures 0 in states[2].rows && states[2].rows[0].status.Reverted?
    ensures 0 in states[4].rows && states[4].rows[0] == ConfirmedRow(p, w, theirs)
  {
    var row, log, held := PendingRow(p, 1, w), PublishedLog(p, theirs), Job([], [(0, Failed(mine))]);
    var reverted := row.(status := AnchorStatus.Reverted);
    var s1 := State(map[0 := row], log, map[0 := held, 1 := Job([0], [])]);
    var s2 := State(map[0 := reverted], log, map[0 := Job([], []), 1 := Job([0], [])]);
    assert [(0, Failed(mine))][1..] == [];
    TwoSteps(Held(p, w, mine, theirs), Start(1, [0]), s1, WriteBack(0), s2, cfg);
    var look := LookUp(1, Reply(Some(Located(theirs, 1))));
    var s3, s4 := FoundAndWritten(p, w, theirs, cfg);
    Join([Held(p, w, mine, theirs), s1, s2], [Start(1, [0]), WriteBack(0)], [s2, s3, s4], [look, WriteBack(1)], cfg);
    states := [Held(p, w, mine, theirs), s1, s2] + [s2, s3, s4][1..];
    actions := [Start(1, [0]), WriteBack(0)] + [look, WriteBack(1)];
  }

  lemma FoundAndWritten(p: Pair, w: Window, theirs: Bytes, cfg: Config) returns (t: State, u: State)
    ensures var reverted := PendingRow(p, 1, w).(status := AnchorStatus.Reverted);
      var s := State(map[0 := reverted], PublishedLog(p, theirs), map[0 := Job([], []), 1 := Job([0], [])]);
      Behaviour([s, t, u], [LookUp(1, Reply(Some(Located(theirs, 1)))), WriteBack(1)], cfg)
    ensures !LateRevert(t, WriteBack(1)) && 0 in u.rows && u.rows[0] == ConfirmedRow(p, w, theirs)
  {
    var reverted := PendingRow(p, 1, w).(status := AnchorStatus.Reverted);
    var found := BroadcastResult(theirs, 1, AlreadyAnchored, None);
    var s := State(map[0 := reverted], PublishedLog(p, theirs), map[0 := Job([], []), 1 := Job([0], [])]);
    t := State(map[0 := reverted], PublishedLog(p, theirs), map[0 := Job([], []), 1 := Job([], [(0, found)])]);
    assert PublishedLog(p, theirs)[0] == AnchorEvent(p, Some(theirs), 1);
    assert [0][1..] == [] && [] + [(0, found)] == [(0, found)];
    u := Next(t, WriteBack(1), cfg);
    TwoSteps(s, LookUp(1, Reply(Some(Located(theirs, 1)))), t, WriteBack(1), u, cfg);
  }

  // ---------- when a "reverted" write hits a published pair ----------

  /** Step `b` gives a single publisher's job its "reverted" result, and step `w` writes it. */
  ghost predicate WritesReverted(states: seq<State>, actions: seq<Action>, job: JobId, id: RowId, answers: Answers,
                                 b: nat, w: nat)
    requires |states| == |actions| + 1 && b < w < |actions|
  {
    && actions[b] == BroadcastOne(job, answers) && AnswersFor(answers, 1)
    && BroadcastAnchor(answers).Some? && BroadcastAnchor(answers).value.status.Reverted?
    && job in states[b].jobs && states[b].jobs[job] == Job([id], []) && id in states[b].rows
    && (forall i :: b < i < w ==> !Touches(actions[i], job)) && actions[w] == WriteBack(job)
  }

  /** The row is then recorded as reverted, and its pair is published at that moment exactly if the publisher's
      own transaction was mined as failed, or another one published the pair after the chain had been asked
      again (when its log had `asked` events). */
  lemma RevertedWriteHitsPublishedIff(states: seq<State>, actions: seq<Action>, cfg: Config, job: JobId, id: RowId,
                                      answers: Answers, b: nat, w: nat, asked: nat)
    requires Behaviour(states, actions, cfg) && b < w < |actions|
    requires WritesReverted(states, actions, job, id, answers, b, w) && asked <= |states[b].log|
    requires answers.rechecked[0].Reply? ==>
      (answers.rechecked[0].value <==> IsPublished(states[b].log[..asked], states[b].rows[id].pair))
    ensures id in states[w + 1].rows && states[w + 1].rows[id].status.Reverted?
    ensures asked <= |states[w].log|
    ensures IsPublished(states[w].log, states[b].rows[id].pair) <==>
      MinedAsFailed(answers) || IsPublished(states[w].log[asked..], states[b].rows[id].pair)
  {
    var p, log := states[b].rows[id].pair, states[w].log;
    BehaviourMovesOnward(states, actions, cfg, b, w);
    assert Happens(states, actions, cfg, b);
    UntouchedJobStays(states, actions, cfg, job, b + 1, w);
    assert Happens(states, actions, cfg, w);
    assert states[b].log[..asked] == log[..asked];
    PublishedBeforeOrAfter(log, p, asked);
    if MinedAsFailed(answers) {
      var i :| 0 <= i < |states[b].log| && states[b].log[i].pair == p;
      assert log[i].pair == p;
    }
  }

  lemma PublishedBeforeOrAfter(log: seq<AnchorEvent>, p: Pair, n: nat)
    requires n <= |log|
    ensures IsPublished(log, p) <==> IsPublished(log[..n], p) || IsPublished(log[n..], p)
  {
    if IsPublished(log, p) {
      var i :| 0 <= i < |log| && log[i].pair == p;
      assert i < n ==> log[..n][i].pair == p;
      assert i >= n ==> log[n..][i - n].pair == p;
    }
    if IsPublished(log[n..], p) {
      var i :| 0 <= i < |log[n..]| && log[n..][i].pair == p;
      assert log[n + i].pair == p;
    }
    if IsPublished(log[..n], p) {
      var i :| 0 <= i < n && log[..n][i].pair == p;
      assert log[i].pair == p;
    }
  }

  // ---------- reverted although published, for good ----------

  /** No job still looks at the row or holds a landed result for it. */
  ghost predicate NoJobHolds(s: State, id: RowId) {
    forall j :: j in s.jobs ==>
      && id !in s.jobs[j].waiting
      && forall n :: 0 <= n < |s.jobs[j].toWrite| && s.jobs[j].toWrite[n].0 == id ==> !Landed(s.jobs[j].toWrite[n].1)
  }

  ghost predicate GivenUp(s: State, id: RowId) { id in s.rows && s.rows[id].status.Reverted? && NoJobHolds(s, id) }

  lemma WriteBackKeepsReverted(s: State, job: JobId, cfg: Config, id: RowId)
    requires Enabled(s, WriteBack(job), cfg) && GivenUp(s, id)
    ensures GivenUp(Next(s, WriteBack(job), cfg), id)
  {
    var before, after := s.jobs[job].toWrite, Next(s, WriteBack(job), cfg).jobs[job].toWrite;
    assert before[0].0 == id ==> !Landed(before[0].1);
    assert forall n :: 0 <= n < |after| ==> after[n] == before[n + 1];
  }

  lemma StepKeepsReverted(s: State, a: Action, cfg: Config, id: RowId)
    requires Enabled(s, a, cfg) && GivenUp(s, id)
    ensures GivenUp(Next(s, a, cfg), id)
  {
    if a.WriteBack? {
      WriteBackKeepsReverted(s, a.job, cfg, id);
    }
  }

  /** Then the row stays reverted in every continuation, published or not. */
  lemma {:induction false} RevertedForGood(states: seq<State>, actions: seq<Action>, cfg: Config, id: RowId, m: nat,
                                           n: nat)
    requires Behaviour(states, actions, cfg) && m <= n < |states| && GivenUp(states[m], id)
    ensures GivenUp(states[n], id)
    decreases n
  {
    if m < n {
      RevertedForGood(states, actions, cfg, id, m, n - 1);
      assert Happens(states, actions, cfg, n - 1);
      StepKeepsReverted(states[n - 1], actions[n - 1], cfg, id);
    }
  }

  /** And a published pair can end there: another transaction published it while the single publisher's own
      was mined as failed. */
  lemma PublishedButReverted(p: Pair, w: Window, mine: Bytes, theirs: Bytes, cfg: Config)
    returns (states: seq<State>, actions: seq<Action>)
    ensures Behaviour(states, actions, cfg) && states[0] == EMPTY && NoLateRevert(states, actions)
    ensures var end := states[|actions|];
      && IsPublished(end.log, p) && 0 in end.rows && end.rows[0].pair == p
      && GivenUp(end, 0)
  {
    var s1, a1 := HeldIsReached(p, w, mine, theirs, cfg);
    var held := Held(p, w, mine, theirs);
    var end := Next(held, WriteBack(0), cfg);
    assert Behaviour([held, end], [WriteBack(0)], cfg);
    Join(s1, a1, [held, end], [WriteBack(0)], cfg);
    states, actions := s1 + [held, end][1..], a1 + [WriteBack(0)];
    forall i | 0 <= i < |actions| ensures !LateRevert(states[i], actions[i]) {
      assert i < |a1| ==> actions[i] == a1[i] && a1[i] in a1;
    }
    assert end.log[0].pair == p;
  }
}
