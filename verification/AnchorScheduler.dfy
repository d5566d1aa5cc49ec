/** The scheduled cycle over all tenants: derive each tenant's window and record its pending anchor. */
module AnchorScheduler {
  import opened Bytes
  import opened Merkle
  import opened Options
  import opened Sequences
  import opened AnchorTables
  import opened AnchorCoverage

  type Tenant = string

  /** What createPendingAnchor answers for a tenant's backlog window, if there is one. */
  function CycleRow(k: Hash, log: TenantLog, now: int): Option<AnchorRow> {
    var w := BacklogWindow(log, now);
    if w.None? then None else CreatePendingAnchor(k, log, w.value).1
  }

  function TurnLog(k: Hash, log: TenantLog, now: int, throws: bool): TenantLog {
    if throws then log else CycleLog(k, log, now)
  }

  function TurnRow(k: Hash, log: TenantLog, now: int, throws: bool): Option<AnchorRow> {
    if throws then None else CycleRow(k, log, now)
  }

  /** The tables after the turns of the tenants in `done`, and the rows those turns hand on. */
  function TurnLogs(k: Hash, logs: map<Tenant, TenantLog>, done: set<Tenant>, now: int, failing: set<Tenant>)
    : map<Tenant, TenantLog>
  {
    map t | t in logs :: if t in done then TurnLog(k, logs[t], now, t in failing) else logs[t]
  }

  function TurnRows(k: Hash, logs: map<Tenant, TenantLog>, done: set<Tenant>, now: int, failing: set<Tenant>)
    : map<Tenant, AnchorRow>
  {
    map t | t in logs && t in done && TurnRow(k, logs[t], now, t in failing).Some? ::
      TurnRow(k, logs[t], now, t in failing).value
  }

  lemma OneTurnMore(k: Hash, logs: map<Tenant, TenantLog>, done: set<Tenant>, t: Tenant, now: int, failing: set<Tenant>)
    requires t in logs && t !in done
    ensures var row, before := TurnRow(k, logs[t], now, t in failing), TurnRows(k, logs, done, now, failing);
      && TurnLogs(k, logs, done, now, failing)[t] == logs[t]
      && TurnLogs(k, logs, done + {t}, now, failing)
         == TurnLogs(k, logs, done, now, failing)[t := TurnLog(k, logs[t], now, t in failing)]
      && TurnRows(k, logs, done + {t}, now, failing) == if row.Some? then before[t := row.value] else before
  {
  }

  /** One tenant's turn, over its tables before and after: without a backlog nothing happens; with one, the anchor of
      the backlog's window is recorded, and its row handed on. */
  predicate TurnTaken(k: Hash, before: TenantLog, after: TenantLog, now: int, handedOn: Option<AnchorRow>) {
    var w := BacklogWindow(before, now);
    if w.None? then after == before && handedOn == None else Recorded(k, before, after, w.value, handedOn)
  }

  function Entry(rows: map<Tenant, AnchorRow>, t: Tenant): Option<AnchorRow> {
    if t in rows then Some(rows[t]) else None
  }

  lemma TurnIsTaken(k: Hash, log: TenantLog, now: int)
    ensures TurnTaken(k, log, TurnLog(k, log, now, false), now, TurnRow(k, log, now, false))
  {
    var w := BacklogWindow(log, now);
    if w.Some? {
      CreatePendingRecords(k, log, w.value);
    }
  }

  class Scheduler {
    const k: Hash
    var logs: map<Tenant, TenantLog>
    var onchain: set<Tenant>  // tenants whose audit_anchor_mode is 'onchain'
    var anchorRunning: bool

    constructor (k: Hash, logs: map<Tenant, TenantLog>, onchain: set<Tenant>)
      ensures this.k == k && this.logs == logs && this.onchain == onchain && !anchorRunning
    {
      this.k, this.logs, this.onchain, anchorRunning := k, logs, onchain, false;
    }

    /** createPendingAnchor, in the transaction of one tenant. */
    method CreatePending(tenant: Tenant, w: Window) returns (row: Option<AnchorRow>)
      requires tenant in logs
      modifies this`logs
      ensures logs == old(logs)[tenant := CreatePendingAnchor(k, old(logs[tenant]), w).0]
      ensures row == CreatePendingAnchor(k, old(logs[tenant]), w).1
      ensures Recorded(k, old(logs[tenant]), logs[tenant], w, row)
    {
      var log := logs[tenant];
      assert logs == logs[tenant := log];
      var events := ListEvents(log.events, w);
      if |events| == 0 {
        return None;
      }
      var tree := BuildTree(k, HashesOf(events));
      var existing := FindAnchorByRoot(log.anchors, tree.root);
      if existing.Some? {
        return existing;
      }
      var inserted := PendingRow(Pair(log.tenant, tree.root), |events|, w);
      logs := logs[tenant := log.(anchors := log.anchors + [inserted])];
      row := Some(inserted);
    }

    /** One tenant's turn: its transaction may throw, which leaves its tables as they were. */
    method RunTenant(tenant: Tenant, now: int, throws: bool) returns (row: Option<AnchorRow>)
      requires tenant in logs && BacklogWindow(logs[tenant], now).Some?
      modifies this`logs
      ensures logs == old(logs)[tenant := TurnLog(k, old(logs[tenant]), now, throws)]
      ensures row == TurnRow(k, old(logs[tenant]), now, throws)
    {
      assert logs == logs[tenant := logs[tenant]];
      if throws {
        return None;
      }
      row := CreatePending(tenant, BacklogWindow(logs[tenant], now).value);
    }

    /** The loop of the cycle over the tenants with a backlog, in whatever order they come.
        `failing` holds the tenants whose transaction throws: each is logged, and the loop goes on. */
    method RunTenants(backlog: set<Tenant>, now: int, failing: set<Tenant>)
      returns (newAnchorRows: map<Tenant, AnchorRow>)
      requires forall t :: t in backlog ==> t in logs && BacklogWindow(logs[t], now).Some?
      modifies this`logs
      ensures logs == TurnLogs(k, old(logs), backlog, now, failing)
      ensures newAnchorRows == TurnRows(k, old(logs), backlog, now, failing)
    {
      newAnchorRows := map[];
      ghost var before, done := logs, {};
      var rest := backlog;
      while rest != {}
        invariant rest !! done && rest + done == backlog
        invariant logs == TurnLogs(k, before, done, now, failing)
        invariant newAnchorRows == TurnRows(k, before, done, now, failing)
        decreases rest
      {
        var tenant :| tenant in rest;
        OneTurnMore(k, before, done, tenant, now, failing);
        var pendingAnchor := RunTenant(tenant, now, tenant in failing);
        if pendingAnchor.Some? {
          newAnchorRows := newAnchorRows[tenant := pendingAnchor.value];
        }
        rest, done := rest - {tenant}, done + {tenant};
      }
    }

    /** runAnchor, between its two publishing parts. A cycle that is already running, or a degraded RPC, makes
        this one return at once. */
    method RunAnchor(rpcReady: bool, now: int, failing: set<Tenant>) returns (newAnchorRows: map<Tenant, AnchorRow>)
      modifies this`logs, this`anchorRunning
      ensures anchorRunning == old(anchorRunning)
      ensures old(anchorRunning) || !rpcReady ==> logs == old(logs) && newAnchorRows == map[]
      ensures !old(anchorRunning) && rpcReady ==> logs == old(map t | t in logs ::
        if t in onchain && t !in failing then CycleLog(k, logs[t], now) else logs[t])
      ensures newAnchorRows.Keys <= old(logs.Keys) && logs.Keys == old(logs.Keys)
      ensures !old(anchorRunning) && rpcReady ==> forall t :: t in old(logs) ==>
        if t in onchain && t !in failing then TurnTaken(k, old(logs)[t], logs[t], now, Entry(newAnchorRows, t))
        else logs[t] == old(logs)[t] && t !in newAnchorRows
    {
      if anchorRunning || !rpcReady {
        return map[];
      }
      anchorRunning := true;
      var backlog := set t | t in logs && t in onchain && BacklogWindow(logs[t], now).Some?;
      ghost var before := logs;
      newAnchorRows := RunTenants(backlog, now, failing);
      forall t | t in before && t in onchain && t !in failing
        ensures TurnTaken(k, before[t], logs[t], now, Entry(newAnchorRows, t))
      {
        TurnIsTaken(k, before[t], now);
      }
      anchorRunning := false;
    }
  }

  /** chunkRows: the chunks are the rows again, none is empty or larger than the size, and only the
      last can be smaller. A size below one counts as one. */
  method ChunkRows<T>(rows: seq<T>, size: int) returns (chunks: seq<seq<T>>)
    ensures Concat(chunks) == rows
    ensures var chunkSize := if size < 1 then 1 else size;
      forall i :: 0 <= i < |chunks| ==>
        1 <= |chunks[i]| <= chunkSize && (i < |chunks| - 1 ==> |chunks[i]| == chunkSize)
  {
    var chunkSize := if size < 1 then 1 else size;
    chunks := [];
    var i := 0;
    while i < |rows|
      invariant 0 <= i
      invariant Concat(chunks) == rows[..if i < |rows| then i else |rows|]
      invariant forall j :: 0 <= j < |chunks| ==>
        1 <= |chunks[j]| <= chunkSize && (j < |chunks| - 1 || i < |rows| ==> |chunks[j]| == chunkSize)
      decreases |rows| - i
    {
      var end := if i + chunkSize < |rows| then i + chunkSize else |rows|;
      ConcatAppend(chunks, rows[i..end]);
      chunks := chunks + [rows[i..end]];
      i := i + chunkSize;
    }
  }
}
