/** Reconcile cycles: what one does to a row among all the other steps, and its loop over the orphans. */
module Reconciler {
  import opened Options
  import opened AnchorTables
  import opened Chain
  import opened EventScan
  import opened Broadcaster
  import opened Publisher
  import opened PublishProtocol
  import opened PublishOutcomes

  // ---------- one row, among everything else ----------

  lemma LocatedWhenPublished(log: seq<AnchorEvent>, p: Pair) returns (at: Located)
    requires GoodLog(log) && IsPublished(log, p)
    ensures PublishedBy(log, p, at) && forall b :: PublishedBy(log, p, b) ==> b == at
  {
    var i :| 0 <= i < |log| && log[i].pair == p;
    at := Located(log[i].tx.value, log[i].block);
    assert log[i] == AnchorEvent(p, Some(at.tx), at.block);
    forall b | PublishedBy(log, p, b) ensures b == at {
      PublishedOnce(log, p, at, b);
    }
  }

  /** The scan reaches every block in which the pair was published. */
  predicate Reaches(log: seq<AnchorEvent>, p: Pair, fromBlock: nat, latest: nat) {
    forall e :: e in log && e.pair == p ==> fromBlock <= e.block <= latest
  }

  lemma ScanAnswers(log: seq<AnchorEvent>, p: Pair, fromBlock: nat, latest: nat)
    requires GoodLog(log)
    ensures var found := FullScan(log, p, fromBlock, latest);
      && (found.Some? ==> PublishedBy(log, p, found.value))
      && (Reaches(log, p, fromBlock, latest) ==> (found.Some? <==> IsPublished(log, p)))
  {
    var found := FullScan(log, p, fromBlock, latest);
    if found.Some? {
      ScanFindsPublisher(log, p, fromBlock, latest, found.value);
      var i :| 0 <= i < |log| && log[i] == AnchorEvent(p, Some(found.value.tx), found.value.block);
      assert log[i].pair == p;
    }
    if IsPublished(log, p) {
      var at := LocatedWhenPublished(log, p);
      ScanFindsPublisher(log, p, fromBlock, latest, at);
    }
  }

  /** A job that waits for the row can always look it up. */
  lemma LookUpCanAnswer(s: State, cfg: Config, job: JobId, fromBlock: nat, latest: nat)
    requires GoodLog(s.log) && job in s.jobs && s.jobs[job].waiting != [] && s.jobs[job].waiting[0] in s.rows
    ensures Enabled(s, LookUp(job, Reply(FullScan(s.log, s.rows[s.jobs[job].waiting[0]].pair, fromBlock, latest))), cfg)
  {
    ScanAnswers(s.log, s.rows[s.jobs[job].waiting[0]].pair, fromBlock, latest);
  }

  /** Step `l` of any behaviour is a reconcile cycle's lookup of a row, by a scan that reaches far enough,
      and step `w` writes its result; anything else may happen in between. */
  ghost predicate Reconciles(states: seq<State>, actions: seq<Action>, job: JobId, id: RowId, l: nat, w: nat,
                             fromBlock: nat, latest: nat)
    requires |states| == |actions| + 1 && l < w < |actions|
  {
    && job in states[l].jobs && states[l].jobs[job].waiting != [] && states[l].jobs[job].waiting[0] == id
    && states[l].jobs[job].toWrite == [] && id in states[l].rows
    && var pair := states[l].rows[id].pair;
    && Reaches(states[l].log, pair, fromBlock, latest)
    && actions[l] == LookUp(job, Reply(FullScan(states[l].log, pair, fromBlock, latest)))
    && (forall i :: l < i < w ==> !Touches(actions[i], job))
    && actions[w] == WriteBack(job)
  }

  lemma ResultIsHeld(states: seq<State>, actions: seq<Action>, cfg: Config, job: JobId, id: RowId, l: nat, w: nat,
                     fromBlock: nat, latest: nat)
    requires Behaviour(states, actions, cfg) && l < w < |actions|
    requires Reconciles(states, actions, job, id, l, w, fromBlock, latest)
    ensures job in states[w].jobs && states[w].jobs[job].toWrite != []
    ensures states[w].jobs[job].toWrite[0]
         == (id, ResolveOrPending(Reply(FullScan(states[l].log, states[l].rows[id].pair, fromBlock, latest))))
  {
    assert Happens(states, actions, cfg, l);
    UntouchedJobStays(states, actions, cfg, job, l + 1, w);
  }

  /** Whatever was lost between a transaction and its write-back, and whatever else goes on: the cycle's write
      leaves the row confirmed exactly if its pair was published when it was looked up, or somebody else had
      confirmed it by then; and in the first case the row stays confirmed. */
  lemma ReconcileConfirmsIffPublished(states: seq<State>, actions: seq<Action>, cfg: Config, job: JobId, id: RowId,
                                      l: nat, w: nat, fromBlock: nat, latest: nat, n: nat)
    requires Behaviour(states, actions, cfg) && states[0] == EMPTY && NoLateRevert(states, actions)
    requires l < w < n < |states| && Reconciles(states, actions, job, id, l, w, fromBlock, latest)
    ensures id in states[w].rows && id in states[w + 1].rows && id in states[n].rows
    ensures var published := IsPublished(states[l].log, states[l].rows[id].pair);
      && (states[w + 1].rows[id].status.Confirmed? <==> published || states[w].rows[id].status.Confirmed?)
      && (published ==> states[n].rows[id].status.Confirmed?)
  {
    BehaviourKeepsInv(states, actions, cfg, l);
    ScanAnswers(states[l].log, states[l].rows[id].pair, fromBlock, latest);
    BehaviourMovesOnward(states, actions, cfg, l, w);
    FoundIsWritten(states, actions, cfg, job, id, l, w, fromBlock, latest);
    BehaviourMovesForward(states, actions, cfg, w + 1, n);
  }

  lemma FoundIsWritten(states: seq<State>, actions: seq<Action>, cfg: Config, job: JobId, id: RowId, l: nat, w: nat,
                       fromBlock: nat, latest: nat)
    requires Behaviour(states, actions, cfg) && l < w < |actions| && id in states[w].rows
    requires Reconciles(states, actions, job, id, l, w, fromBlock, latest)
    ensures id in states[w + 1].rows
    ensures states[w + 1].rows[id].status.Confirmed? <==>
      FullScan(states[l].log, states[l].rows[id].pair, fromBlock, latest).Some? || states[w].rows[id].status.Confirmed?
  {
    ResultIsHeld(states, actions, cfg, job, id, l, w, fromBlock, latest);
    assert Happens(states, actions, cfg, w);
  }

  // ---------- a whole cycle, among everything else ----------

  /** The lookups of a job among the steps from `m` up to `n`. */
  function LookUps(actions: seq<Action>, job: JobId, m: nat, n: nat): nat
    requires m <= n <= |actions|
  {
    if m == n then 0
    else LookUps(actions, job, m, n - 1) + if actions[n - 1].LookUp? && actions[n - 1].job == job then 1 else 0
  }

  /** A cycle looks a row up and writes what it finds before it goes on to the next; no lookup throws. */
  ghost predicate TakesTurns(actions: seq<Action>, job: JobId, m: nat, n: nat)
    requires m <= n <= |actions|
  {
    forall i :: m <= i < n && Touches(actions[i], job) ==>
      if WriteBacks(actions, job, m, i) < LookUps(actions, job, m, i) then actions[i] == WriteBack(job)
      else actions[i].LookUp? && actions[i].answer.Reply?
  }

  predicate Waits(s: State, job: JobId, waiting: seq<RowId>, unwritten: nat) {
    job in s.jobs && s.jobs[job].waiting == waiting && |s.jobs[job].toWrite| == unwritten
  }

  lemma TurnMovesOn(s: State, a: Action, cfg: Config, job: JobId, waiting: seq<RowId>, unwritten: nat)
    requires Enabled(s, a, cfg) && Waits(s, job, waiting, unwritten)
    requires Touches(a, job) ==> a == WriteBack(job) || (a.LookUp? && a.answer.Reply?)
    ensures a == WriteBack(job) ==> unwritten > 0
    ensures a.LookUp? && a.job == job ==> waiting != []
    ensures var t := Next(s, a, cfg);
      if a == WriteBack(job) then Waits(t, job, waiting, unwritten - 1)
      else if a.LookUp? && a.job == job then Waits(t, job, waiting[1..], unwritten + 1)
      else Waits(t, job, waiting, unwritten)
  {
  }

  /** After `c` lookups it waits for the c-th of its rows and those behind it. */
  lemma {:induction false} WaitsAfterTurns(states: seq<State>, actions: seq<Action>, cfg: Config, job: JobId,
                                           ids: seq<RowId>, start: nat, n: nat)
    requires Behaviour(states, actions, cfg) && start < n <= |actions| && actions[start] == Start(job, ids)
    requires TakesTurns(actions, job, start + 1, n)
    ensures var c, done := LookUps(actions, job, start + 1, n), WriteBacks(actions, job, start + 1, n);
      done <= c <= |ids| && c <= done + 1 && Waits(states[n], job, ids[c..], c - done)
    decreases n
  {
    var i := n - 1;
    assert Happens(states, actions, cfg, i);
    if start < i {
      WaitsAfterTurns(states, actions, cfg, job, ids, start, i);
      var c, done := LookUps(actions, job, start + 1, i), WriteBacks(actions, job, start + 1, i);
      TurnMovesOn(states[i], actions[i], cfg, job, ids[c..], c - done);
      assert c < |ids| ==> ids[c..][1..] == ids[c + 1..];
    } else {
      assert ids[0..] == ids;
    }
  }

  /** Step `l` of a cycle over `ids` is the lookup of row `id`, by a scan that reaches far enough, and step `w`
      writes what it finds. */
  ghost predicate CycleReaches(states: seq<State>, actions: seq<Action>, job: JobId, ids: seq<RowId>, id: RowId,
                               start: nat, l: nat, w: nat, fromBlock: nat, latest: nat)
    requires |states| == |actions| + 1 && start < l < w < |actions|
  {
    && actions[start] == Start(job, ids) && TakesTurns(actions, job, start + 1, l)
    && LookUps(actions, job, start + 1, l) < |ids| && ids[LookUps(actions, job, start + 1, l)] == id
    && WriteBacks(actions, job, start + 1, l) == LookUps(actions, job, start + 1, l)
    && id in states[l].rows
    && var pair := states[l].rows[id].pair;
    && Reaches(states[l].log, pair, fromBlock, latest)
    && actions[l] == LookUp(job, Reply(FullScan(states[l].log, pair, fromBlock, latest)))
    && (forall i :: l < i < w ==> !Touches(actions[i], job)) && actions[w] == WriteBack(job)
  }

  /** The n-th lookup of a cycle is about its n-th row, and confirms it exactly if its pair is published by then
      or somebody else had confirmed it. */
  lemma CycleConfirmsIffPublished(states: seq<State>, actions: seq<Action>, cfg: Config, job: JobId, ids: seq<RowId>,
                                  id: RowId, start: nat, l: nat, w: nat, fromBlock: nat, latest: nat, n: nat)
    requires Behaviour(states, actions, cfg) && states[0] == EMPTY && NoLateRevert(states, actions)
    requires start < l < w < n < |states|
    requires CycleReaches(states, actions, job, ids, id, start, l, w, fromBlock, latest)
    ensures id in states[w].rows && id in states[w + 1].rows && id in states[n].rows
    ensures var published := IsPublished(states[l].log, states[l].rows[id].pair);
      && (states[w + 1].rows[id].status.Confirmed? <==> published || states[w].rows[id].status.Confirmed?)
      && (published ==> states[n].rows[id].status.Confirmed?)
  {
    WaitsAfterTurns(states, actions, cfg, job, ids, start, l);
    ReconcileConfirmsIffPublished(states, actions, cfg, job, id, l, w, fromBlock, latest, n);
  }

  /** A cycle can look up until it has done so once for each of its rows, and can write whatever it has looked up
      and not yet written. */
  lemma LookUpsGoOn(states: seq<State>, actions: seq<Action>, cfg: Config, job: JobId, ids: seq<RowId>, start: nat,
                    n: nat)
    requires Behaviour(states, actions, cfg) && start < n <= |actions| && actions[start] == Start(job, ids)
    requires TakesTurns(actions, job, start + 1, n)
    ensures Enabled(states[n], LookUp(job, Reply(None)), cfg) <==> LookUps(actions, job, start + 1, n) < |ids|
    ensures Enabled(states[n], WriteBack(job), cfg) <==>
      WriteBacks(actions, job, start + 1, n) < LookUps(actions, job, start + 1, n)
  {
    WaitsAfterTurns(states, actions, cfg, job, ids, start, n);
    BehaviourMovesOnward(states, actions, cfg, start, n);
    assert Happens(states, actions, cfg, start);
  }

  // ---------- the loop ----------

  /** An orphan row the reconciler has read, with its age. */
  datatype Orphan = Orphan(id: RowId, ageMs: int)

  /** How the remote calls for one orphan answer: the lookup, the write, and the emission of an event. */
  datatype Attempt = Attempt(lookup: Answer<Option<Located>>, write: Answer<()>, emit: Answer<()>)

  predicate Found(a: Attempt) { a.lookup.Reply? && a.lookup.value.Some? }

  /** Missing on chain for longer than the grace period. */
  predicate Overdue(o: Orphan, a: Attempt, graceMs: int) {
    a.lookup.Reply? && a.lookup.value.None? && o.ageMs > graceMs
  }

  predicate Succeeds(o: Orphan, a: Attempt, graceMs: int) {
    a.lookup.Reply? && (Found(a) ==> a.write.Reply?) && (Overdue(o, a, graceMs) ==> a.emit.Reply?)
  }

  /** How many orphans are dealt with before a call throws. */
  function Completed(orphans: seq<Orphan>, attempts: seq<Attempt>, graceMs: int): (n: nat)
    requires |orphans| == |attempts|
    ensures n <= |attempts|
    ensures forall i :: 0 <= i < n ==> Succeeds(orphans[i], attempts[i], graceMs)
    ensures n < |attempts| ==> !Succeeds(orphans[n], attempts[n], graceMs)
  {
    if attempts == [] || !Succeeds(orphans[0], attempts[0], graceMs) then 0
    else 1 + Completed(orphans[1..], attempts[1..], graceMs)
  }

  /** The rows after the first n orphans. */
  function Recovered(rows: Rows, orphans: seq<Orphan>, attempts: seq<Attempt>, n: nat): Rows
    requires |orphans| == |attempts| && n <= |attempts|
  {
    if n == 0 then rows
    else WriteResult(Recovered(rows, orphans, attempts, n - 1), orphans[n - 1].id,
        ResolveOrPending(attempts[n - 1].lookup))
  }

  function FoundCount(attempts: seq<Attempt>, n: nat): nat
    requires n <= |attempts|
  {
    if n == 0 then 0 else FoundCount(attempts, n - 1) + if Found(attempts[n - 1]) then 1 else 0
  }

  function OverdueIds(orphans: seq<Orphan>, attempts: seq<Attempt>, graceMs: int, n: nat): seq<RowId>
    requires |orphans| == |attempts| && n <= |attempts|
  {
    if n == 0 then []
    else
      OverdueIds(orphans, attempts, graceMs, n - 1)
      + if Overdue(orphans[n - 1], attempts[n - 1], graceMs) then [orphans[n - 1].id] else []
  }

  /** No later orphan among the first n is the same row. */
  predicate LastFor(orphans: seq<Orphan>, i: nat, n: nat)
    requires i < n <= |orphans|
  {
    forall j :: i < j < n ==> orphans[j].id != orphans[i].id
  }

  /** A row that no orphan is found for is untouched. */
  lemma {:induction false} NotFoundIsUntouched(rows: Rows, orphans: seq<Orphan>, attempts: seq<Attempt>, n: nat,
                                               id: RowId)
    requires |orphans| == |attempts| && n <= |attempts|
    requires forall i :: i in FoundAmong(attempts, n) ==> orphans[i].id != id
    ensures var after := Recovered(rows, orphans, attempts, n);
      after.Keys == rows.Keys && (id in rows ==> after[id] == rows[id])
  {
    if n > 0 {
      NotFoundIsUntouched(rows, orphans, attempts, n - 1, id);
      RecoveredKeepsKeys(rows, orphans, attempts, n - 1);
    }
  }

  lemma {:induction false} RecoveredKeepsKeys(rows: Rows, orphans: seq<Orphan>, attempts: seq<Attempt>, n: nat)
    requires |orphans| == |attempts| && n <= |attempts|
    ensures Recovered(rows, orphans, attempts, n).Keys == rows.Keys
  {
    if n > 0 {
      RecoveredKeepsKeys(rows, orphans, attempts, n - 1);
    }
  }

  /** A found orphan's row ends confirmed with the transaction that was found, and otherwise as it was. */
  lemma {:induction false} FoundIsRecovered(rows: Rows, orphans: seq<Orphan>, attempts: seq<Attempt>, n: nat, i: nat)
    requires |orphans| == |attempts| && i < n <= |attempts| && i in FoundAmong(attempts, n)
    requires orphans[i].id in rows && LastFor(orphans, i, n)
    ensures var id, at := orphans[i].id, attempts[i].lookup.value.value;
      var after := Recovered(rows, orphans, attempts, n);
      && id in after && after[id].status.Confirmed? && after[id].tx == Some(at.tx) && after[id].block == Some(at.block)
      && SameWindow(rows[id], after[id]) && after[id].contract == rows[id].contract
  {
    if i < n - 1 {
      FoundIsRecovered(rows, orphans, attempts, n - 1, i);
    } else {
      RecoveredKeepsRow(rows, orphans, attempts, i, orphans[i].id);
    }
  }

  lemma {:induction false} RecoveredKeepsRow(rows: Rows, orphans: seq<Orphan>, attempts: seq<Attempt>, n: nat,
                                             id: RowId)
    requires |orphans| == |attempts| && n <= |attempts| && id in rows
    ensures var after := Recovered(rows, orphans, attempts, n);
      id in after && SameWindow(rows[id], after[id]) && after[id].contract == rows[id].contract
  {
    if n > 0 {
      RecoveredKeepsRow(rows, orphans, attempts, n - 1, id);
    }
  }

  function FoundAmong(attempts: seq<Attempt>, n: nat): set<nat>
    requires n <= |attempts|
  {
    set i: nat | i < n && attempts[i].lookup.Reply? && attempts[i].lookup.value.Some?
  }

  function OverdueAmong(orphans: seq<Orphan>, attempts: seq<Attempt>, graceMs: int, n: nat): set<nat>
    requires |orphans| == |attempts| && n <= |attempts|
  {
    set i: nat |
      i < n && attempts[i].lookup.Reply? && attempts[i].lookup.value.None? && orphans[i].ageMs > graceMs
  }

  /** The count is the number of orphans found. */
  lemma {:induction false} FoundCounted(attempts: seq<Attempt>, n: nat)
    requires n <= |attempts|
    ensures FoundCount(attempts, n) == |FoundAmong(attempts, n)|
  {
    if n > 0 {
      FoundCounted(attempts, n - 1);
      assert FoundAmong(attempts, n) == FoundAmong(attempts, n - 1) + if Found(attempts[n - 1]) then {n - 1} else {};
    }
  }

  lemma {:induction false} OverdueCounted(orphans: seq<Orphan>, attempts: seq<Attempt>, graceMs: int, n: nat)
    requires |orphans| == |attempts| && n <= |attempts|
    ensures |OverdueIds(orphans, attempts, graceMs, n)| == |OverdueAmong(orphans, attempts, graceMs, n)|
  {
    if n > 0 {
      OverdueCounted(orphans, attempts, graceMs, n - 1);
      var before := OverdueAmong(orphans, attempts, graceMs, n - 1);
      assert OverdueAmong(orphans, attempts, graceMs, n)
          == before + if Overdue(orphans[n - 1], attempts[n - 1], graceMs) then {n - 1} else {};
    }
  }

  /** The reported ids are those of the overdue orphans, each at the place given by the number of overdue ones
      before it. */
  lemma {:induction false} OverdueReported(orphans: seq<Orphan>, attempts: seq<Attempt>, graceMs: int, n: nat, i: nat)
    requires |orphans| == |attempts| && i < n <= |attempts| && i in OverdueAmong(orphans, attempts, graceMs, n)
    ensures var ids, place := OverdueIds(orphans, attempts, graceMs, n), |OverdueAmong(orphans, attempts, graceMs, i)|;
      && |ids| == |OverdueAmong(orphans, attempts, graceMs, n)|
      && place < |ids| && ids[place] == orphans[i].id
  {
    OverdueCounted(orphans, attempts, graceMs, n);
    if i < n - 1 {
      OverdueReported(orphans, attempts, graceMs, n - 1, i);
    } else {
      OverdueCounted(orphans, attempts, graceMs, i);
    }
  }

  /** reconcileOrphanedAnchors: write back what is found, report what is overdue, stop at the first call that
      throws, with nothing written for that orphan (`finished` is false then). */
  method ReconcileOrphanedAnchors(table: AnchorRows, orphans: seq<Orphan>, attempts: seq<Attempt>, graceMs: int)
    returns (finished: bool, recovered: nat, flagged: seq<RowId>)
    requires |orphans| == |attempts|
    modifies table
    ensures var n := Completed(orphans, attempts, graceMs);
      && table.rows == Recovered(old(table.rows), orphans, attempts, n)
      && recovered == FoundCount(attempts, n)
      && flagged == OverdueIds(orphans, attempts, graceMs, n)
      && (finished <==> n == |attempts|)
  {
    recovered, flagged := 0, [];
    var i := 0;
    while i < |orphans|
      invariant 0 <= i <= |orphans|
      invariant forall j :: 0 <= j < i ==> Succeeds(orphans[j], attempts[j], graceMs)
      invariant table.rows == Recovered(old(table.rows), orphans, attempts, i)
      invariant recovered == FoundCount(attempts, i)
      invariant flagged == OverdueIds(orphans, attempts, graceMs, i)
    {
      if attempts[i].lookup.Throw? {
        return false, recovered, flagged;
      }
      var found := attempts[i].lookup.value;
      if found.Some? {
        if attempts[i].write.Throw? {
          return false, recovered, flagged;
        }
        table.Write(orphans[i].id, ResolveOrPending(attempts[i].lookup));
        recovered := recovered + 1;
      } else if orphans[i].ageMs > graceMs {
        if attempts[i].emit.Throw? {
          return false, recovered, flagged;
        }
        flagged := flagged + [orphans[i].id];
      }
      i := i + 1;
    }
    finished := true;
  }
}
