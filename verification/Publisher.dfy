/** Publishing pending anchor rows: one broadcast for a batch of rows, then one write per row. */
module Publisher {
  import opened Bytes
  import opened Options
  import opened Sequences
  import opened AnchorTables
  import opened Broadcaster

  type RowId = nat

  type Rows = map<RowId, AnchorRow>

  datatype Summary = Summary(
    attempted: nat, skippedTerminal: nat, confirmed: nat, alreadyAnchored: nat, reverted: nat, unresolved: nat,
    txCount: nat)

  datatype Severity = Error | Warn | Info

  function ClassifyAnchorBatchOutcome(s: Summary): Severity {
    if s.attempted == 0 then Info
    else if s.confirmed + s.alreadyAnchored == 0 then Error
    else if s.unresolved > 0 || s.reverted > 0 then Warn
    else Info
  }

  // ---------- the writes ----------

  /** setAnchorTxHash: hash, block and the confirmed status in one statement; an unknown contract
      keeps the recorded one; nothing happens when there is no such row. */
  function SetAnchorTxHash(rows: Rows, id: RowId, tx: Bytes, block: nat, contract: Option<Bytes>): Rows {
    if id !in rows then rows
    else
      var row := rows[id];
      rows[id := row.(tx := Some(tx), block := Some(block), status := AnchorStatus.Confirmed,
                      contract := if contract.Some? then contract else row.contract)]
  }

  function SetAnchorReverted(rows: Rows, id: RowId): Rows {
    if id !in rows then rows else rows[id := rows[id].(status := AnchorStatus.Reverted)]
  }

  /** The write for one broadcast result; an unresolved row is left as it is. */
  function WriteResult(rows: Rows, id: RowId, r: BroadcastResult): Rows {
    match r.status
    case Unresolved => rows
    case Reverted => SetAnchorReverted(rows, id)
    case _ => SetAnchorTxHash(rows, id, r.tx, r.block, r.contract)
  }

  /** The writes of a batch, in order. */
  function WriteResults(rows: Rows, ids: seq<RowId>, results: seq<BroadcastResult>): Rows
    requires |ids| == |results|
  {
    if ids == [] then rows
    else
      var n := |ids| - 1;
      WriteResult(WriteResults(rows, ids[..n], results[..n]), ids[n], results[n])
  }

  /** Neither confirmed nor terminally reverted. */
  predicate Attemptable(row: AnchorRow) { row.tx.None? && !row.status.Reverted? }

  function AttemptableRows(batch: seq<(RowId, AnchorRow)>): seq<(RowId, AnchorRow)> {
    if batch == [] then []
    else
      var n := |batch| - 1;
      AttemptableRows(batch[..n]) + if Attemptable(batch[n].1) then [batch[n]] else []
  }

  function Ids(batch: seq<(RowId, AnchorRow)>): seq<RowId> { seq(|batch|, i requires 0 <= i < |batch| => batch[i].0) }

  function Inputs(batch: seq<(RowId, AnchorRow)>): seq<BroadcastInput> {
    seq(|batch|, i requires 0 <= i < |batch| =>
      BroadcastInput(batch[i].1.pair, batch[i].1.eventCount, batch[i].1.window))
  }

  function CountStatus(results: seq<BroadcastResult>, st: BroadcastStatus): nat {
    if results == [] then 0
    else CountStatus(results[..|results| - 1], st) + if results[|results| - 1].status == st then 1 else 0
  }

  /** The distinct transactions behind the landed results. */
  function TxHashes(results: seq<BroadcastResult>): set<Bytes> {
    set i | 0 <= i < |results| && Landed(results[i]) && results[i].tx != [] :: results[i].tx
  }

  function Summarize(rows: nat, results: seq<BroadcastResult>): Summary
    requires |results| <= rows
  {
    Summary(|results|, rows - |results|,
      CountStatus(results, BroadcastStatus.Confirmed), CountStatus(results, AlreadyAnchored),
      CountStatus(results, BroadcastStatus.Reverted), CountStatus(results, Unresolved), |TxHashes(results)|)
  }

  /** The i-th write throws; an unresolved row has none. */
  predicate WriteThrows(results: seq<BroadcastResult>, throwing: set<nat>, i: nat)
    requires i < |results|
  {
    i in throwing && !results[i].status.Unresolved?
  }

  /** How many results are dealt with before a write throws. */
  function WritesDone(results: seq<BroadcastResult>, throwing: set<nat>): (n: nat)
    ensures n <= |results|
  {
    if results == [] then 0
    else
      var before := WritesDone(results[..|results| - 1], throwing);
      if before == |results| - 1 && !WriteThrows(results, throwing, before) then |results| else before
  }

  lemma {:induction false} WritesDoneIs(results: seq<BroadcastResult>, throwing: set<nat>, n: nat)
    requires n <= |results| && forall j :: 0 <= j < n ==> !WriteThrows(results, throwing, j)
    requires n < |results| ==> WriteThrows(results, throwing, n)
    ensures WritesDone(results, throwing) == n
  {
    if results != [] {
      var init := results[..|results| - 1];
      assert forall j :: 0 <= j < |init| ==> WriteThrows(init, throwing, j) == WriteThrows(results, throwing, j);
      WritesDoneIs(init, throwing, if n < |results| then n else |init|);
    }
  }

  /** The anchor rows of the database, updated in place. */
  class AnchorRows {
    var rows: Rows

    constructor (rows: Rows)
      ensures this.rows == rows
    {
      this.rows := rows;
    }

    method Write(id: RowId, r: BroadcastResult)
      modifies this
      ensures rows == WriteResult(old(rows), id, r)
      ensures rows.Keys == old(rows.Keys) && forall i :: i in rows && i != id ==> rows[i] == old(rows)[i]
      ensures id in rows && Landed(r) ==>
        rows[id].tx == Some(r.tx) && rows[id].block == Some(r.block) && rows[id].status.Confirmed?
      ensures id in rows && !Landed(r) ==> rows[id].tx == old(rows)[id].tx && rows[id].block == old(rows)[id].block
      ensures r.status.Unresolved? ==> rows == old(rows)
    {
      match r.status
      case Unresolved =>
      case Reverted => rows := SetAnchorReverted(rows, id);
      case _ => rows := SetAnchorTxHash(rows, id, r.tx, r.block, r.contract);
    }

    /** publishPendingAnchor for a row as it was read: a settled row is handed back, without a broadcast;
        otherwise the result is written (`broadcast` is None when the broadcaster throws, and nothing is
        written then). */
    method PublishPendingAnchor(id: RowId, row: AnchorRow, broadcast: Option<BroadcastResult>)
      returns (r: Option<AnchorRow>)
      requires id in rows
      modifies this
      ensures if !Attemptable(row) then r == Some(row) && rows == old(rows)
        else if broadcast.None? then r == None && rows == old(rows)
        else rows == WriteResult(old(rows), id, broadcast.value) && id in rows && r == Some(rows[id])
    {
      if row.tx.Some? || row.status.Reverted? {
        return Some(row);
      }
      if broadcast.None? {
        return None;
      }
      Write(id, broadcast.value);
      r := Some(rows[id]);
    }

    /** publishPendingAnchorBatch. `broadcasts` is what the broadcaster answers for the attemptable
        rows (None when it throws), and `throwing` holds the places whose write throws. None, with no row
        written, when the broadcaster throws or does not answer with one result per attemptable row; None, with
        the rows before it written, at the first write that throws. */
    method PublishPendingAnchorBatch(batch: seq<(RowId, AnchorRow)>, broadcasts: Option<seq<BroadcastResult>>,
                                     throwing: set<nat>)
      returns (summary: Option<Summary>)
      modifies this
      ensures var pending := AttemptableRows(batch);
        if pending == [] then summary == Some(Summary(0, |batch|, 0, 0, 0, 0, 0)) && rows == old(rows)
        else if broadcasts.None? || |broadcasts.value| != |pending| then summary == None && rows == old(rows)
        else
          var results, n := broadcasts.value, WritesDone(broadcasts.value, throwing);
          && |pending| <= |batch|
          && summary == (if n < |results| then None else Some(Summarize(|batch|, results)))
          && rows == WriteResults(old(rows), Ids(pending)[..n], results[..n])
      ensures
        DistinctRows(batch) && broadcasts.Some? && |broadcasts.value| == |AttemptableAmong(batch, |batch|)| ==>
        WrittenInPlace(old(rows), rows, batch, broadcasts.value, WritesDone(broadcasts.value, throwing))
    {
      AttemptableRowsCount(batch);
      AttemptableCounted(batch);
      ghost var before := rows;
      if DistinctRows(batch) && broadcasts.Some? && |broadcasts.value| == |AttemptableRows(batch)| {
        BatchWritesRows(before, batch, broadcasts.value, WritesDone(broadcasts.value, throwing));
      }
      var pending := FilterAttemptable(batch);
      if |pending| == 0 {
        return Some(Summary(0, |batch|, 0, 0, 0, 0, 0));
      }
      if broadcasts.None? || |broadcasts.value| != |pending| {
        return None;
      }
      summary := WriteAll(|batch|, Ids(pending), broadcasts.value, throwing);
    }

    /** The loop over the results, each written as it is counted. */
    method WriteAll(total: nat, ids: seq<RowId>, results: seq<BroadcastResult>, throwing: set<nat>)
      returns (summary: Option<Summary>)
      requires |ids| == |results| <= total
      modifies this
      ensures var n := WritesDone(results, throwing);
        && rows == WriteResults(old(rows), ids[..n], results[..n])
        && summary == if n < |results| then None else Some(Summarize(total, results))
    {
      var tally := TallyOf([]);
      for i := 0 to |results|
        invariant forall j :: 0 <= j < i ==> !WriteThrows(results, throwing, j)
        invariant rows == WriteResults(old(rows), ids[..i], results[..i])
        invariant tally == TallyOf(results[..i])
      {
        WriteResultsStep(old(rows), ids, results, i);
        TallyStep(results, i);
        tally := Counted(tally, results[i]);
        if i in throwing && !results[i].status.Unresolved? {
          WritesDoneIs(results, throwing, i);
          return None;
        }
        Write(ids[i], results[i]);
      }
      WritesDoneIs(results, throwing, |results|);
      assert results[..|results|] == results;
      summary := Some(Summary(|results|, total - |results|, tally.confirmed, tally.alreadyAnchored, tally.reverted,
        tally.unresolved, |tally.txHashes|));
    }
  }

  lemma WriteResultsStep(rows: Rows, ids: seq<RowId>, results: seq<BroadcastResult>, i: nat)
    requires |ids| == |results| && i < |ids|
    ensures WriteResults(rows, ids[..i + 1], results[..i + 1])
         == WriteResult(WriteResults(rows, ids[..i], results[..i]), ids[i], results[i])
  {
    assert ids[..i + 1][..i] == ids[..i] && results[..i + 1][..i] == results[..i];
  }

  /** The running counts of a batch. */
  datatype Tally = Tally(
    confirmed: nat, alreadyAnchored: nat, reverted: nat, unresolved: nat, txHashes: set<Bytes>)

  function Counted(t: Tally, r: BroadcastResult): Tally {
    var hashes := if Landed(r) && |r.tx| > 0 then t.txHashes + {r.tx} else t.txHashes;
    match r.status
    case Unresolved => t.(unresolved := t.unresolved + 1)
    case Reverted => t.(reverted := t.reverted + 1)
    case AlreadyAnchored => t.(alreadyAnchored := t.alreadyAnchored + 1, txHashes := hashes)
    case Confirmed => t.(confirmed := t.confirmed + 1, txHashes := hashes)
  }

  function TallyOf(results: seq<BroadcastResult>): Tally {
    Tally(CountStatus(results, BroadcastStatus.Confirmed), CountStatus(results, AlreadyAnchored),
      CountStatus(results, BroadcastStatus.Reverted), CountStatus(results, Unresolved), TxHashes(results))
  }

  lemma TallyStep(results: seq<BroadcastResult>, i: nat)
    requires i < |results|
    ensures TallyOf(results[..i + 1]) == Counted(TallyOf(results[..i]), results[i])
  {
    assert results[..i + 1][..i] == results[..i];
    TxHashesAppend(results[..i], results[i]);
    assert results[..i + 1] == results[..i] + [results[i]];
  }

  method FilterAttemptable(batch: seq<(RowId, AnchorRow)>) returns (pending: seq<(RowId, AnchorRow)>)
    ensures pending == AttemptableRows(batch)
  {
    pending := [];
    for i := 0 to |batch|
      invariant pending == AttemptableRows(batch[..i])
    {
      assert batch[..i + 1][..i] == batch[..i];
      if Attemptable(batch[i].1) {
        pending := pending + [batch[i]];
      }
    }
    assert batch[..|batch|] == batch;
  }

  lemma {:induction false} AttemptableRowsCount(batch: seq<(RowId, AnchorRow)>)
    ensures |AttemptableRows(batch)| <= |batch|
    ensures forall x :: x in AttemptableRows(batch) <==> x in batch && Attemptable(x.1)
  {
    if batch != [] {
      var n := |batch| - 1;
      AttemptableRowsCount(batch[..n]);
      assert batch == batch[..n] + [batch[n]];
    }
  }

  /** The attemptable rows among the first n of a batch. */
  function AttemptableAmong(batch: seq<(RowId, AnchorRow)>, n: nat): set<nat>
    requires n <= |batch|
  {
    set i: nat | i < n && batch[i].1.tx.None? && !batch[i].1.status.Reverted?
  }

  lemma {:induction false} AttemptableCounted(batch: seq<(RowId, AnchorRow)>)
    ensures |AttemptableRows(batch)| == |AttemptableAmong(batch, |batch|)|
  {
    if batch != [] {
      var n := |batch| - 1;
      AttemptableCounted(batch[..n]);
      var before := AttemptableAmong(batch, n);
      assert AttemptableAmong(batch[..n], n) == before;
      assert AttemptableAmong(batch, n + 1) == before + if Attemptable(batch[n].1) then {n} else {};
    }
  }

  /** The order is kept: an attemptable row's place is the number of attemptable rows before it. */
  lemma {:induction false} AttemptableInOrder(batch: seq<(RowId, AnchorRow)>, i: nat)
    requires i < |batch| && i in AttemptableAmong(batch, |batch|)
    ensures var place, pending := |AttemptableAmong(batch, i)|, AttemptableRows(batch);
      place < |pending| && pending[place] == batch[i]
  {
    var n := |batch| - 1;
    AttemptableCounted(batch[..n]);
    assert AttemptableAmong(batch[..n], i) == AttemptableAmong(batch, i);
    if i < n {
      AttemptableInOrder(batch[..n], i);
    }
  }

  /** Rows with different ids are written independently of each other. */
  lemma {:induction false} WriteResultsAt(rows: Rows, ids: seq<RowId>, results: seq<BroadcastResult>, i: nat)
    requires |ids| == |results| && i < |ids| && ids[i] in rows && Distinct(ids)
    ensures ids[i] in WriteResults(rows, ids, results)
    ensures WriteResults(rows, ids, results)[ids[i]] == WriteResult(rows, ids[i], results[i])[ids[i]]
  {
    var n := |ids| - 1;
    if i < n {
      WriteResultsAt(rows, ids[..n], results[..n], i);
    } else {
      WriteResultsElsewhere(rows, ids[..n], results[..n], ids[n]);
    }
  }

  lemma {:induction false} WriteResultsElsewhere(rows: Rows, ids: seq<RowId>, results: seq<BroadcastResult>, id: RowId)
    requires |ids| == |results| && id !in ids
    ensures var after := WriteResults(rows, ids, results);
      after.Keys == rows.Keys && (id in rows ==> after[id] == rows[id])
  {
    if ids != [] {
      var n := |ids| - 1;
      assert ids == ids[..n] + [ids[n]];
      WriteResultsElsewhere(rows, ids[..n], results[..n], id);
    }
  }

  /** An id that only settled rows have is not among those to be written. */
  lemma NotPending(batch: seq<(RowId, AnchorRow)>, id: RowId)
    requires forall m :: 0 <= m < |batch| && batch[m].0 == id ==> !Attemptable(batch[m].1)
    ensures id !in Ids(AttemptableRows(batch))
  {
    var pending := AttemptableRows(batch);
    AttemptableRowsCount(batch);
    forall j | 0 <= j < |pending| ensures pending[j].0 != id {
      assert pending[j] in pending;
    }
  }

  predicate DistinctRows(batch: seq<(RowId, AnchorRow)>) {
    forall i, j :: 0 <= i < j < |batch| ==> batch[i].0 != batch[j].0
  }

  lemma {:induction false} AttemptableDistinct(batch: seq<(RowId, AnchorRow)>)
    requires DistinctRows(batch)
    ensures Distinct(Ids(AttemptableRows(batch)))
  {
    if batch != [] {
      var n := |batch| - 1;
      var pending := AttemptableRows(batch[..n]);
      AttemptableDistinct(batch[..n]);
      NotPending(batch[..n], batch[n].0);
      assert AttemptableRows(batch) == if Attemptable(batch[n].1) then pending + [batch[n]] else pending;
      assert Ids(pending + [batch[n]]) == Ids(pending) + [batch[n].0];
    }
  }

  /** The first n results are written, each to the attemptable row that has as many attemptable rows before it, and
      all other rows are as they were. */
  predicate WrittenInPlace(before: Rows, after: Rows, batch: seq<(RowId, AnchorRow)>, results: seq<BroadcastResult>,
                           n: nat)
    requires n <= |results|
  {
    && after.Keys == before.Keys
    && (forall id :: id in before && id !in Ids(batch) ==> after[id] == before[id])
    && forall i: nat :: i < |batch| && batch[i].0 in before ==> RowWritten(before, after, batch, results, n, i)
  }

  predicate RowWritten(before: Rows, after: Rows, batch: seq<(RowId, AnchorRow)>, results: seq<BroadcastResult>,
                       n: nat, i: nat)
    requires n <= |results| && i < |batch| && batch[i].0 in before && batch[i].0 in after
  {
    var id, place := batch[i].0, |AttemptableAmong(batch, i)|;
    var row := before[id];
    if i !in AttemptableAmong(batch, |batch|) || place >= n then after[id] == row
    else
      match results[place].status
      case Unresolved => after[id] == row
      case Reverted => after[id] == row.(status := AnchorStatus.Reverted)
      case _ =>
        var contract := if results[place].contract.Some? then results[place].contract else row.contract;
        after[id] == AnchorRow(row.pair, row.eventCount, row.window, Some(results[place].tx),
          Some(results[place].block), AnchorStatus.Confirmed, contract)
  }

  lemma BatchWritesRow(rows: Rows, batch: seq<(RowId, AnchorRow)>, results: seq<BroadcastResult>, n: nat, i: nat)
    requires |results| == |AttemptableRows(batch)| && n <= |results| && DistinctRows(batch)
    requires i < |batch| && batch[i].0 in rows
    ensures var after := WriteResults(rows, Ids(AttemptableRows(batch))[..n], results[..n]);
      batch[i].0 in after && RowWritten(rows, after, batch, results, n, i)
  {
    var ids, place := Ids(AttemptableRows(batch)), |AttemptableAmong(batch, i)|;
    AttemptableDistinct(batch);
    if i in AttemptableAmong(batch, |batch|) {
      AttemptableInOrder(batch, i);
      assert ids[place] == batch[i].0;
      if place < n {
        WriteResultsAt(rows, ids[..n], results[..n], place);
      } else {
        WriteResultsElsewhere(rows, ids[..n], results[..n], batch[i].0);
      }
    } else {
      NotPending(batch, batch[i].0);
      WriteResultsElsewhere(rows, ids[..n], results[..n], batch[i].0);
    }
  }

  lemma BatchWritesRows(rows: Rows, batch: seq<(RowId, AnchorRow)>, results: seq<BroadcastResult>, n: nat)
    requires |results| == |AttemptableRows(batch)| && n <= |results| && DistinctRows(batch)
    ensures WrittenInPlace(rows, WriteResults(rows, Ids(AttemptableRows(batch))[..n], results[..n]), batch, results, n)
  {
    var ids := Ids(AttemptableRows(batch));
    var after := WriteResults(rows, ids[..n], results[..n]);
    WriteResultsKeys(rows, ids[..n], results[..n]);
    AttemptableDistinct(batch);
    forall id | id in rows && id !in Ids(batch) ensures after[id] == rows[id] {
      assert forall m :: 0 <= m < |batch| ==> Ids(batch)[m] == batch[m].0;
      NotPending(batch, id);
      WriteResultsElsewhere(rows, ids[..n], results[..n], id);
    }
    forall i: nat | i < |batch| && batch[i].0 in rows ensures RowWritten(rows, after, batch, results, n, i) {
      BatchWritesRow(rows, batch, results, n, i);
    }
  }

  lemma {:induction false} WriteResultsKeys(rows: Rows, ids: seq<RowId>, results: seq<BroadcastResult>)
    requires |ids| == |results|
    ensures WriteResults(rows, ids, results).Keys == rows.Keys
  {
    if ids != [] {
      WriteResultsKeys(rows, ids[..|ids| - 1], results[..|ids| - 1]);
    }
  }

  lemma TxHashesAppend(results: seq<BroadcastResult>, last: BroadcastResult)
    ensures TxHashes(results + [last]) == TxHashes(results) + if Landed(last) && last.tx != [] then {last.tx} else {}
  {
    var all := results + [last];
    forall tx | tx in TxHashes(results) ensures tx in TxHashes(all) {
      var i :| 0 <= i < |results| && Landed(results[i]) && results[i].tx != [] && results[i].tx == tx;
      assert all[i] == results[i];
    }
    if Landed(last) && last.tx != [] {
      assert all[|results|] == last;
    }
  }

  // ---------- accounting ----------

  lemma {:induction false} StatusesAddUp(results: seq<BroadcastResult>)
    ensures CountStatus(results, BroadcastStatus.Confirmed) + CountStatus(results, AlreadyAnchored)
          + CountStatus(results, BroadcastStatus.Reverted) + CountStatus(results, Unresolved) == |results|
    ensures |TxHashes(results)|
         <= CountStatus(results, BroadcastStatus.Confirmed) + CountStatus(results, AlreadyAnchored)
  {
    if results != [] {
      var n := |results| - 1;
      StatusesAddUp(results[..n]);
      TxHashesGrow(results, n);
    }
  }

  lemma TxHashesGrow(results: seq<BroadcastResult>, n: nat)
    requires |results| == n + 1
    ensures |TxHashes(results)| <= |TxHashes(results[..n])| + if Landed(results[n]) then 1 else 0
  {
    TxHashesAppend(results[..n], results[n]);
    assert results == results[..n] + [results[n]];
  }

  function WithStatus(results: seq<BroadcastResult>, st: BroadcastStatus, n: nat): set<nat>
    requires n <= |results|
  {
    set i: nat | i < n && results[i].status == st
  }

  lemma OneResultMore(results: seq<BroadcastResult>, st: BroadcastStatus, n: nat)
    requires n < |results|
    ensures |WithStatus(results, st, n + 1)|
         == |WithStatus(results, st, n)| + if results[n].status == st then 1 else 0
  {
    var before, after := WithStatus(results, st, n), WithStatus(results, st, n + 1);
    assert forall i: nat :: i in after <==> i in before || (i == n && results[n].status == st);
    assert after == before + if results[n].status == st then {n} else {};
  }

  lemma {:induction false} StatusCounted(results: seq<BroadcastResult>, st: BroadcastStatus)
    ensures CountStatus(results, st) == |WithStatus(results, st, |results|)|
  {
    if results != [] {
      var n := |results| - 1;
      StatusCounted(results[..n], st);
      OneResultMore(results, st, n);
      assert WithStatus(results[..n], st, n) == WithStatus(results, st, n);
    }
  }

  /** Every row of a batch is accounted for once, there are no more transactions than landed rows, and
      the batch is classed an error exactly when it attempted something and landed nothing. */
  lemma BatchAccounting(rows: nat, results: seq<BroadcastResult>)
    requires |results| <= rows
    ensures var s := Summarize(rows, results);
      && s.attempted + s.skippedTerminal == rows
      && s.confirmed + s.alreadyAnchored + s.reverted + s.unresolved == s.attempted
      && s.txCount <= s.confirmed + s.alreadyAnchored
      && (ClassifyAnchorBatchOutcome(s).Error? <==>
            results != [] && forall i :: 0 <= i < |results| ==> !Landed(results[i]))
      && (ClassifyAnchorBatchOutcome(s).Info? <==>
            forall i :: 0 <= i < |results| ==> Landed(results[i]))
  {
    StatusesAddUp(results);
    LandedCount(results);
  }

  lemma {:induction false} LandedCount(results: seq<BroadcastResult>)
    ensures var landed := CountStatus(results, BroadcastStatus.Confirmed) + CountStatus(results, AlreadyAnchored);
      && (landed == 0 <==> forall i :: 0 <= i < |results| ==> !Landed(results[i]))
      && (landed == |results| <==> forall i :: 0 <= i < |results| ==> Landed(results[i]))
      && landed <= |results|
  {
    if results != [] {
      var n := |results| - 1;
      var init := results[..n];
      LandedCount(init);
      assert forall i :: 0 <= i < n ==> init[i] == results[i];
    }
  }
}
