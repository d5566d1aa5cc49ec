/**
 The two verifiers that page through history with a durable cursor: recomputing each event's content
 hash, and recomputing each published anchor's root from the events now in its window.
 */
module ConsistencyVerifier {
  import opened Bytes
  import opened Merkle
  import opened Options
  import opened AnchorTables
  import opened Keyset
  import opened VerifierCursor
  import C = ChainConsistency

  const AUDIT_HASH_SCHEMA_VERSION := 4

  datatype StoredEvent = StoredEvent(version: int, row: C.EventRow<Bytes>)

  datatype Database = Database(events: map<string, seq<Event>>, anchors: Table<AnchorRow>)

  datatype ContentHashVerifyResult = ContentHashVerifyResult(
    rowsVerified: nat, hashMismatches: nat, unsupportedVersion: nat, legacyUnverifiable: nat,
    openFindings: nat, completedPass: bool, lastPassClean: bool, currentPassFailureCount: nat)

  datatype AnchorRootVerifyResult = AnchorRootVerifyResult(
    anchorsVerified: nat, rootMismatches: nat, completedPass: bool, currentPassFailureCount: nat)

  // ---------- what each verifier selects and how it judges a row ----------

  function CurrentVersion(t: Table<StoredEvent>): Table<StoredEvent> {
    Where(t, (e: StoredEvent) => e.version == AUDIT_HASH_SCHEMA_VERSION)
  }

  function NewerVersion(t: Table<StoredEvent>): Table<StoredEvent> {
    Where(t, (e: StoredEvent) => e.version > AUDIT_HASH_SCHEMA_VERSION)
  }

  function OlderVersion(t: Table<StoredEvent>): Table<StoredEvent> {
    Where(t, (e: StoredEvent) => e.version < AUDIT_HASH_SCHEMA_VERSION)
  }

  function ContentVerdict(h: C.Record<Bytes> -> Bytes): Verdict<StoredEvent> {
    (r: Row<StoredEvent>) =>
      var event := r.value.row;
      if h(event.record) == event.hash then None
      else Some(Finding(ContentHash, r.key.id, event.record.tenant, h(event.record), event.hash, true))
  }

  function OnChainAnchors(db: Database): Table<AnchorRow> {
    Where(db.anchors, (a: AnchorRow) => a.tx.Some? && a.status.Confirmed?)
  }

  function EventsOf(db: Database, tenant: string): seq<Event> {
    if tenant in db.events then db.events[tenant] else []
  }

  /** An anchor beside the hashes its window holds now. */
  datatype AnchorView = AnchorView(anchor: AnchorRow, hashes: seq<Bytes>)

  function ViewOf(db: Database): AnchorRow -> AnchorView {
    (a: AnchorRow) => AnchorView(a, WindowHashes(EventsOf(db, a.pair.tenant), a.window))
  }

  function Views(db: Database): Table<AnchorView> { Mapped(OnChainAnchors(db), ViewOf(db)) }

  function RootVerdict(k: Hash): Verdict<AnchorView> {
    (r: Row<AnchorView>) =>
      var root := Root(k, r.value.hashes);
      if Compare(root, r.value.anchor.pair.root) == 0 then None
      else Some(Finding(AnchorRoot, r.key.id, r.value.anchor.pair.tenant, root, r.value.anchor.pair.root, true))
  }

  /** What an anchor cycle reports. */
  function AnchorReport(k: Hash, cp: Checkpoint, db: Database, limit: nat): AnchorRootVerifyResult {
    var page := Page(Views(db), cp.cursor, limit);
    var mismatches := Mismatches(page, RootVerdict(k));
    AnchorRootVerifyResult(|page|, mismatches, |page| < limit, cp.passFailures + mismatches)
  }

  lemma AdvanceMapped<T, U>(cp: Checkpoint, page: Table<T>, f: T -> U, limit: nat)
    ensures forall m :: Advance(cp, Mapped(page, f), limit, m) == Advance(cp, page, limit, m)
  {
  }

  /** The checkpoint row, put in place if it is missing. */
  function Ensured(checkpoints: map<Verifier, Checkpoint>, v: Verifier): Checkpoint {
    if v in checkpoints then checkpoints[v]
    else Checkpoint(AUDIT_HASH_SCHEMA_VERSION, None, 0, 0, 0, Never)
  }

  /** Another hash version than the cursor was moved under: the content pass begins again. */
  function Restarted(cp: Checkpoint): Checkpoint {
    if cp.version == AUDIT_HASH_SCHEMA_VERSION then cp
    else cp.(version := AUDIT_HASH_SCHEMA_VERSION, cursor := None, passFailures := 0)
  }

  /** What one cycle of each verifier makes of its checkpoint and of the findings. */
  function ContentCycle(h: C.Record<Bytes> -> Bytes, s: State, events: Table<StoredEvent>, limit: nat): State {
    Cycle(State(Restarted(s.checkpoint), s.findings), CurrentVersion(events), ContentVerdict(h), limit)
  }

  function AnchorCycle(k: Hash, s: State, db: Database, limit: nat): State {
    Cycle(s, Views(db), RootVerdict(k), limit)
  }

  function OpenFindings(findings: seq<Finding>): nat {
    if findings == [] then 0
    else OpenFindings(findings[..|findings| - 1]) + if findings[|findings| - 1].open then 1 else 0
  }

  /** The three selections by version share the table out among them. */
  lemma {:induction false} VersionsShareTable(events: Table<StoredEvent>)
    ensures forall r :: r in CurrentVersion(events) <==> r in events && r.value.version == 4
    ensures forall r :: r in NewerVersion(events) <==> r in events && r.value.version > 4
    ensures forall r :: r in OlderVersion(events) <==> r in events && r.value.version < 4
    ensures |CurrentVersion(events)| + |NewerVersion(events)| + |OlderVersion(events)| == |events|
  {
    if events != [] {
      VersionsShareTable(events[1..]);
      assert events == [events[0]] + events[1..];
    }
  }

  lemma {:induction false} OpenCounted(findings: seq<Finding>)
    ensures OpenFindings(findings) == |set i: nat | i < |findings| && findings[i].open|
  {
    if findings != [] {
      var n := |findings| - 1;
      OpenCounted(findings[..n]);
      var before := set i: nat | i < n && findings[..n][i].open;
      assert (set i: nat | i < |findings| && findings[i].open) == before + if findings[n].open then {n} else {};
    }
  }

  class VerifierTables {
    var checkpoints: map<Verifier, Checkpoint>
    var findings: seq<Finding>

    constructor ()
      ensures checkpoints == map[] && findings == []
      ensures forall v :: StateOf(v) == State(Checkpoint(4, None, 0, 0, 0, Never), [])
    {
      checkpoints, findings := map[], [];
    }

    function StateOf(v: Verifier): State
      reads this
    {
      State(Ensured(checkpoints, v), findings)
    }

    method InsertOnConflictDoNothing(f: Finding)
      modifies this`findings
      ensures findings == InsertFinding(old(findings), f)
    {
      var i := 0;
      while i < |findings|
        invariant 0 <= i <= |findings| && findings == old(findings)
        invariant forall j :: 0 <= j < i ==> !IsOpen(findings[j], f.verifier, f.rowId)
      {
        if IsOpen(findings[i], f.verifier, f.rowId) {
          return;
        }
        i := i + 1;
      }
      findings := findings + [f];
    }

    method CountOpenFindings() returns (n: nat)
      ensures n == OpenFindings(findings)
    {
      n := 0;
      for i := 0 to |findings|
        invariant n == OpenFindings(findings[..i])
      {
        assert findings[..i + 1][..i] == findings[..i];
        if findings[i].open {
          n := n + 1;
        }
      }
      assert findings[..|findings|] == findings;
    }

    /** The UPDATE at the end of a cycle: a short page closes the pass, a full one moves the position. */
    method SaveCheckpoint<T>(v: Verifier, cp: Checkpoint, page: Table<T>, limit: nat, mismatches: nat)
      requires 0 < limit
      modifies this`checkpoints
      ensures checkpoints == old(checkpoints)[v := Advance(cp, page, limit, mismatches)]
    {
      var completedPass := |page| < limit;
      var passFailuresSoFar := cp.passFailures + mismatches;
      if completedPass {
        var status := if passFailuresSoFar == 0 then Clean else Failed;
        checkpoints := checkpoints[v := Checkpoint(cp.version, None, 0, cp.completedPasses + 1, mismatches, status)];
      } else {
        checkpoints := checkpoints[v := Checkpoint(cp.version, Some(page[|page| - 1].key), passFailuresSoFar,
          cp.completedPasses, mismatches, cp.lastPass)];
      }
    }

    method VerifyContentHashCursor(h: C.Record<Bytes> -> Bytes, events: Table<StoredEvent>, limit: nat)
      returns (r: ContentHashVerifyResult)
      requires 0 < limit
      modifies this
      ensures ContentHash in checkpoints && checkpoints[ContentHash].lastFailures == r.hashMismatches
      ensures ContentHash in checkpoints && checkpoints == old(checkpoints)[ContentHash := checkpoints[ContentHash]]
      ensures StateOf(ContentHash) == ContentCycle(h, old(StateOf(ContentHash)), events, limit)
      ensures var page := Page(CurrentVersion(events), old(Restarted(Ensured(checkpoints, ContentHash))).cursor, limit);
        r == ContentHashVerifyResult(|page|, Mismatches(page, ContentVerdict(h)),
               |NewerVersion(events)|, |OlderVersion(events)|, OpenFindings(findings), |page| < limit,
               checkpoints[ContentHash].lastPass == Clean, checkpoints[ContentHash].passFailures)
    {
      var unsupportedVersion, legacyUnverifiable := |NewerVersion(events)|, |OlderVersion(events)|;
      var cp := Restarted(Ensured(checkpoints, ContentHash));
      var page := Page(CurrentVersion(events), cp.cursor, limit);
      var hashMismatches := 0;
      for i := 0 to |page|
        invariant checkpoints == old(checkpoints)
        invariant hashMismatches == Mismatches(page[..i], ContentVerdict(h))
        invariant findings == FlagAll(old(findings), page[..i], ContentVerdict(h))
      {
        NextRow(old(findings), page, i, ContentVerdict(h));
        var row := page[i].value.row;
        var recomputed := h(row.record);
        if recomputed != row.hash {
          hashMismatches := hashMismatches + 1;
          InsertOnConflictDoNothing(
            Finding(ContentHash, page[i].key.id, row.record.tenant, recomputed, row.hash, true));
        }
      }
      assert page[..|page|] == page;
      SaveCheckpoint(ContentHash, cp, page, limit, hashMismatches);
      var openFindings := CountOpenFindings();
      var after := checkpoints[ContentHash];
      r := ContentHashVerifyResult(|page|, hashMismatches, unsupportedVersion, legacyUnverifiable,
        openFindings, |page| < limit, after.lastPass == Clean, after.passFailures);
    }

    method VerifyAnchor(k: Hash, db: Database, row: Row<AnchorRow>) returns (mismatch: bool)
      modifies this`findings
      ensures var verdict := RootVerdict(k)(Row(row.key, ViewOf(db)(row.value)));
        && mismatch == verdict.Some?
        && findings == if verdict.Some? then InsertFinding(old(findings), verdict.value) else old(findings)
    {
      var anchor := row.value;
      var events := ListEvents(EventsOf(db, anchor.pair.tenant), anchor.window);
      var tree := BuildTree(k, HashesOf(events));
      mismatch := Compare(tree.root, anchor.pair.root) != 0;
      if mismatch {
        InsertOnConflictDoNothing(
          Finding(AnchorRoot, row.key.id, anchor.pair.tenant, tree.root, anchor.pair.root, true));
      }
    }

    method VerifyPage(k: Hash, db: Database, page: Table<AnchorRow>) returns (rootMismatches: nat)
      modifies this`findings
      ensures rootMismatches == Mismatches(Mapped(page, ViewOf(db)), RootVerdict(k))
      ensures findings == FlagAll(old(findings), Mapped(page, ViewOf(db)), RootVerdict(k))
    {
      ghost var views := Mapped(page, ViewOf(db));
      rootMismatches := 0;
      for i := 0 to |page|
        invariant rootMismatches == Mismatches(views[..i], RootVerdict(k))
        invariant findings == FlagAll(old(findings), views[..i], RootVerdict(k))
      {
        NextRow(old(findings), views, i, RootVerdict(k));
        var mismatch := VerifyAnchor(k, db, page[i]);
        if mismatch {
          rootMismatches := rootMismatches + 1;
        }
      }
      assert views[..|page|] == views;
    }

    method VerifyAnchorRoots(k: Hash, db: Database, limit: nat) returns (r: AnchorRootVerifyResult)
      requires 0 < limit
      modifies this
      ensures AnchorRoot in checkpoints && checkpoints[AnchorRoot].lastFailures == r.rootMismatches
      ensures AnchorRoot in checkpoints && checkpoints == old(checkpoints)[AnchorRoot := checkpoints[AnchorRoot]]
      ensures StateOf(AnchorRoot) == AnchorCycle(k, old(StateOf(AnchorRoot)), db, limit)
      ensures r == AnchorReport(k, old(StateOf(AnchorRoot)).checkpoint, db, limit)
    {
      var cp := Ensured(checkpoints, AnchorRoot);
      var page := Page(OnChainAnchors(db), cp.cursor, limit);
      PageMapped(OnChainAnchors(db), ViewOf(db), cp.cursor, limit);
      AdvanceMapped(cp, page, ViewOf(db), limit);
      var rootMismatches := VerifyPage(k, db, page);
      SaveCheckpoint(AnchorRoot, cp, page, limit, rootMismatches);
      r := AnchorRootVerifyResult(|page|, rootMismatches, |page| < limit, cp.passFailures + rootMismatches);
    }
  }
}
