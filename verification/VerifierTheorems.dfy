/**
 What full passes of the two verifiers establish, and the case only the anchors catch: a tenant's newest
 events deleted.
 */
module VerifierTheorems {
  import opened Bytes
  import opened Merkle
  import M = MerkleTheorems
  import opened Options
  import opened Sequences
  import opened AnchorTables
  import opened Keyset
  import opened VerifierCursor
  import opened ConsistencyVerifier
  import AnchorProgress
  import C = ChainConsistency

  /** A checkpoint at the start of a pass. */
  predicate AtStart(s: State) { s.checkpoint.cursor == None && s.checkpoint.passFailures == 0 }

  /** Static tables: what one pass over `t`, in as many cycles as it takes, makes of the state. */
  function AfterPass<T>(s: State, t: Table<T>, verdict: Verdict<T>, limit: nat): State
    requires 0 < limit
  {
    Cycles(s, Repeat(t, |t| / limit + 1), verdict, limit)
  }

  lemma RepeatGrows<T>(t: Table<T>, n: nat)
    requires Ordered(t)
    ensures Growing(Repeat(t, n))
  {
  }

  lemma WrongThroughout<T>(t: Table<T>, n: nat, verdict: Verdict<T>, r: Row<T>)
    requires Ordered(t) && 0 < n && r in t && verdict(r).Some?
    ensures r.key in Keys(Repeat(t, n)[0]) && AlwaysWrong(Repeat(t, n), verdict, r.key)
  {
    forall q | q in t && q.key == r.key ensures q == r {
      OneRowPerKey(t, q, r);
    }
  }

  lemma RightThroughout<T>(t: Table<T>, n: nat, verdict: Verdict<T>, id: int)
    requires !Flagged(t, verdict, id)
    ensures NeverWrong(Repeat(t, n), verdict, id)
  {
  }

  lemma StaticPassFindings<T(!new)>(s: State, t: Table<T>, verdict: Verdict<T>, v: Verifier, limit: nat)
    requires 0 < limit && Ordered(t) && AtStart(s) && FindsFor(verdict, v) && AtMostOneOpen(s.findings)
    ensures var after := AfterPass(s, t, verdict, limit);
      && AtMostOneOpen(after.findings)
      && (forall r :: r in t && verdict(r).Some? ==> CountOpen(after.findings, v, r.key.id) == 1)
      && (forall w, id :: w != v || !Flagged(t, verdict, id) ==>
            CountOpen(after.findings, w, id) == CountOpen(s.findings, w, id))
      && AtStart(after) && OnlyVerdicts(s.findings, after.findings, t, verdict)
      && after.checkpoint.lastPass == if forall r :: r in t ==> verdict(r).None? then Clean else Failed
  {
    var n := |t| / limit + 1;
    var tables, after := Repeat(t, n), AfterPass(s, t, verdict, limit);
    RepeatGrows(t, n);
    StaticPass(t, limit, n);
    PassIsOneSweep(s, tables, verdict, limit);
    NewFindings(s.findings, t, verdict);
    PassFindings(s, tables, verdict, v, limit);
    forall r | r in t && verdict(r).Some? ensures CountOpen(after.findings, v, r.key.id) == 1 {
      WrongThroughout(t, n, verdict, r);
    }
    forall w, id | w != v || !Flagged(t, verdict, id)
      ensures CountOpen(after.findings, w, id) == CountOpen(s.findings, w, id)
    {
      if w == v {
        RightThroughout(t, n, verdict, id);
      }
    }
  }

  /** Earlier findings stay, and each new one is the verdict on a row of the table. */
  ghost predicate OnlyVerdicts<T>(before: seq<Finding>, after: seq<Finding>, t: Table<T>, verdict: Verdict<T>) {
    before <= after && forall i :: |before| <= i < |after| ==> IsVerdict(t, verdict, after[i])
  }

  lemma OneRowPerKey<T>(t: Table<T>, q: Row<T>, r: Row<T>)
    requires Ordered(t) && q in t && r in t && q.key == r.key
    ensures q == r
  {
    var i, j :| 0 <= i < |t| && 0 <= j < |t| && t[i] == q && t[j] == r;
    assert !(i < j) && !(j < i);
  }

  // ---------- the content verifier ----------

  function StoredRows(t: Table<StoredEvent>): set<C.EventRow<Bytes>> { set r | r in t :: r.value.row }

  /** Successive content cycles, each over the events there are then. */
  function ContentCycles(h: C.Record<Bytes> -> Bytes, s: State, tables: seq<Table<StoredEvent>>, limit: nat): State
    decreases |tables|
  {
    if tables == [] then s else ContentCycles(h, ContentCycle(h, s, tables[0], limit), tables[1..], limit)
  }

  /** Static events: as many content cycles as a pass over the rows of this version takes. */
  function AfterContentPass(h: C.Record<Bytes> -> Bytes, s: State, events: Table<StoredEvent>, limit: nat): State
    requires 0 < limit
  {
    ContentCycles(h, s, Repeat(events, |CurrentVersion(events)| / limit + 1), limit)
  }

  function CurrentTables(tables: seq<Table<StoredEvent>>): seq<Table<StoredEvent>> {
    seq(|tables|, i requires 0 <= i < |tables| => CurrentVersion(tables[i]))
  }

  /** A checkpoint of another hash version starts over, whatever position and failures it holds; after that no
      cycle does. */
  lemma {:induction false} ContentCyclesAreOneRun(h: C.Record<Bytes> -> Bytes, s: State,
                                                  tables: seq<Table<StoredEvent>>, limit: nat)
    requires tables != []
    ensures var start :=
        if s.checkpoint.version == 4 then s
        else State(s.checkpoint.(version := 4, cursor := None, passFailures := 0), s.findings);
      ContentCycles(h, s, tables, limit) == Cycles(start, CurrentTables(tables), ContentVerdict(h), limit)
    decreases |tables|
  {
    assert CurrentTables(tables)[1..] == CurrentTables(tables[1..]);
    if |tables| > 1 {
      ContentCyclesAreOneRun(h, ContentCycle(h, s, tables[0], limit), tables[1..], limit);
    } else {
      assert tables[1..] == [];
    }
  }

  /** The stored hash of a version 4 event is not the recomputed one. */
  predicate WrongContent(h: C.Record<Bytes> -> Bytes, e: StoredEvent) {
    e.version == 4 && h(e.row.record) != e.row.hash
  }

  /** The finding a content pass makes of such a row. */
  function ContentFinding(h: C.Record<Bytes> -> Bytes, r: Row<StoredEvent>): Finding {
    Finding(ContentHash, r.key.id, r.value.row.record.tenant, h(r.value.row.record), r.value.row.hash, true)
  }

  ghost predicate TellsWrongContent(h: C.Record<Bytes> -> Bytes, events: Table<StoredEvent>, f: Finding) {
    exists r :: r in events && WrongContent(h, r.value) && f == ContentFinding(h, r)
  }

  lemma ContentVerdictIs(h: C.Record<Bytes> -> Bytes, events: Table<StoredEvent>)
    ensures forall r :: r in CurrentVersion(events) ==> r in events
    ensures forall r :: r in events && WrongContent(h, r.value) ==> r in CurrentVersion(events)
    ensures forall r :: r in CurrentVersion(events) ==>
      ContentVerdict(h)(r) == if WrongContent(h, r.value) then Some(ContentFinding(h, r)) else None
  {
    VersionsShareTable(events);
  }

  /** A full content pass is recorded clean exactly if every version 4 event's stored hash is the recomputed one.
      Each event where it is not has one open finding, no other row id and no other verifier gets one, and what is
      new in the table says of such a row what was expected and what was stored. */
  lemma ContentPassDecides(h: C.Record<Bytes> -> Bytes, s: State, events: Table<StoredEvent>, limit: nat)
    requires 0 < limit && Ordered(events) && (AtStart(s) || s.checkpoint.version != 4) && AtMostOneOpen(s.findings)
    ensures var after := AfterContentPass(h, s, events, limit);
      && AtStart(after) && AtMostOneOpen(after.findings) && s.findings <= after.findings
      && after.checkpoint.lastPass
         == (if exists r :: r in events && WrongContent(h, r.value) then Failed else Clean)
      && (forall r :: r in events && WrongContent(h, r.value) ==> CountOpen(after.findings, ContentHash, r.key.id) == 1)
      && (forall w, id :: w != ContentHash || (forall r :: r in events && r.key.id == id ==> !WrongContent(h, r.value))
            ==> CountOpen(after.findings, w, id) == CountOpen(s.findings, w, id))
      && (forall i :: |s.findings| <= i < |after.findings| ==> TellsWrongContent(h, events, after.findings[i]))
  {
    var t, verdict := CurrentVersion(events), ContentVerdict(h);
    var start, after := State(Restarted(s.checkpoint), s.findings), AfterContentPass(h, s, events, limit);
    ContentPassIsOnePass(h, s, events, limit);
    StaticPassFindings(start, t, verdict, ContentHash, limit);
    ContentVerdictIs(h, events);
    RightContentIsNotFlagged(h, events);
    OnlyContentFindings(h, events, s.findings, after.findings);
  }

  lemma RightContentIsNotFlagged(h: C.Record<Bytes> -> Bytes, events: Table<StoredEvent>)
    ensures forall id :: Flagged(CurrentVersion(events), ContentVerdict(h), id) ==>
      exists r :: r in events && r.key.id == id && WrongContent(h, r.value)
  {
    ContentVerdictIs(h, events);
  }

  lemma OnlyContentFindings(h: C.Record<Bytes> -> Bytes, events: Table<StoredEvent>, before: seq<Finding>,
                            after: seq<Finding>)
    requires OnlyVerdicts(before, after, CurrentVersion(events), ContentVerdict(h))
    ensures forall i :: |before| <= i < |after| ==> TellsWrongContent(h, events, after[i])
  {
    ContentVerdictIs(h, events);
    forall i | |before| <= i < |after| ensures TellsWrongContent(h, events, after[i]) {
      assert IsVerdict(CurrentVersion(events), ContentVerdict(h), after[i]);
      var r :| r in CurrentVersion(events) && ContentVerdict(h)(r) == Some(after[i]);
    }
  }

  lemma ContentPassIsOnePass(h: C.Record<Bytes> -> Bytes, s: State, events: Table<StoredEvent>, limit: nat)
    requires 0 < limit && Ordered(events) && (AtStart(s) || s.checkpoint.version != 4)
    ensures var start := State(Restarted(s.checkpoint), s.findings);
      && AtStart(start) && Ordered(CurrentVersion(events)) && FindsFor(ContentVerdict(h), ContentHash)
      && AfterContentPass(h, s, events, limit) == AfterPass(start, CurrentVersion(events), ContentVerdict(h), limit)
  {
    var cycles := |CurrentVersion(events)| / limit + 1;
    WhereOrdered(events, (e: StoredEvent) => e.version == AUDIT_HASH_SCHEMA_VERSION);
    ContentCyclesAreOneRun(h, s, Repeat(events, cycles), limit);
    assert CurrentTables(Repeat(events, cycles)) == Repeat(CurrentVersion(events), cycles);
  }

  /** A version 4 event is stored with this row. */
  ghost predicate StoredCurrent(events: Table<StoredEvent>, row: C.EventRow<Bytes>) {
    exists e :: e in events && e.value.row == row && e.value.version == 4
  }

  /** A full content pass recorded clean and counts at zero: one linear chain per tenant, or a circle of links
      among stored events, in which the hashes run in a circle too unless a row of another version is part of it. */
  lemma CleanVerifiersMeanOneChain(h: C.Record<Bytes> -> Bytes, s: State, events: Table<StoredEvent>, limit: nat,
                                   t: string)
    returns (order: seq<C.EventRow<Bytes>>, circle: seq<C.EventRow<Bytes>>)
    requires 0 < limit && Ordered(events) && (AtStart(s) || s.checkpoint.version != 4) && AtMostOneOpen(s.findings)
    requires AfterContentPass(h, s, events, limit).checkpoint.lastPass == Clean
    requires C.CheckAuditConsistency(StoredRows(events)) == C.CLEAN && t in C.Tenants(StoredRows(events))
    ensures C.LinearOrder(order, StoredRows(events), t)
         || (&& C.LinkCycle(circle, C.TenantRows(StoredRows(events), t))
             && ((forall r :: r in circle ==> StoredCurrent(events, r)) ==> C.HashCycle(h, C.Records(circle))))
  {
    ContentPassDecides(h, s, events, limit);
    var checked := set r | r in StoredRows(events) && StoredCurrent(events, r);
    forall r | r in checked ensures h(r.record) == r.hash {
      var e :| e in events && e.value.row == r && e.value.version == 4;
      assert !WrongContent(h, e.value);
    }
    order, circle := C.CleanChecksMeanOneChain(h, StoredRows(events), checked, t);
    if !C.LinearOrder(order, StoredRows(events), t) && (forall r :: r in circle ==> StoredCurrent(events, r)) {
      assert Elements(circle) <= checked;
    }
  }

  // ---------- the anchor verifier ----------

  /** Successive anchor cycles, each over the tables as they are then. */
  function AnchorCycles(k: Hash, s: State, dbs: seq<Database>, limit: nat): State
    decreases |dbs|
  {
    if dbs == [] then s else AnchorCycles(k, AnchorCycle(k, s, dbs[0], limit), dbs[1..], limit)
  }

  /** Static tables: as many anchor cycles as a pass over the on-chain anchors takes. */
  function AfterAnchorPass(k: Hash, s: State, db: Database, limit: nat): State
    requires 0 < limit
  {
    AnchorCycles(k, s, Repeat(db, |OnChainAnchors(db)| / limit + 1), limit)
  }

  lemma {:induction false} AnchorCyclesAreCycles(k: Hash, s: State, db: Database, limit: nat, n: nat)
    ensures AnchorCycles(k, s, Repeat(db, n), limit) == Cycles(s, Repeat(Views(db), n), RootVerdict(k), limit)
    decreases n
  {
    if n > 0 {
      assert Repeat(db, n)[1..] == Repeat(db, n - 1) && Repeat(Views(db), n)[1..] == Repeat(Views(db), n - 1);
      AnchorCyclesAreCycles(k, AnchorCycle(k, s, db, limit), db, limit, n - 1);
    }
  }

  /** The root recomputed from the events that a window of the tenant holds now. */
  function RootNow(k: Hash, db: Database, tenant: string, w: Window): Bytes {
    Root(k, WindowHashes(if tenant in db.events then db.events[tenant] else [], w))
  }

  /** A confirmed anchor with a transaction whose window no longer gives the stored root. */
  predicate WrongAnchor(k: Hash, db: Database, a: AnchorRow) {
    a.tx.Some? && a.status.Confirmed? && RootNow(k, db, a.pair.tenant, a.window) != a.pair.root
  }

  /** The finding an anchor pass makes of such a row. */
  function AnchorFinding(k: Hash, db: Database, r: Row<AnchorRow>): Finding {
    var a := r.value;
    Finding(AnchorRoot, r.key.id, a.pair.tenant, RootNow(k, db, a.pair.tenant, a.window), a.pair.root, true)
  }

  ghost predicate TellsWrongAnchor(k: Hash, db: Database, f: Finding) {
    exists r :: r in db.anchors && WrongAnchor(k, db, r.value) && f == AnchorFinding(k, db, r)
  }

  lemma InOnChainAnchors(db: Database, r: Row<AnchorRow>)
    ensures r in OnChainAnchors(db) <==> r in db.anchors && r.value.tx.Some? && r.value.status.Confirmed?
  {
    InWhere(db.anchors, (a: AnchorRow) => a.tx.Some? && a.status.Confirmed?, r);
  }

  lemma ViewOfAnchor(db: Database, r: Row<AnchorRow>)
    requires r in OnChainAnchors(db)
    ensures Row(r.key, ViewOf(db)(r.value)) in Views(db)
  {
    var i :| 0 <= i < |OnChainAnchors(db)| && OnChainAnchors(db)[i] == r;
    assert Views(db)[i] == Row(r.key, ViewOf(db)(r.value));
  }

  lemma AnchorOfView(k: Hash, db: Database, view: Row<AnchorView>) returns (r: Row<AnchorRow>)
    requires view in Views(db)
    ensures r in db.anchors && r.key == view.key && r.value.tx.Some? && r.value.status.Confirmed?
    ensures RootVerdict(k)(view) == if WrongAnchor(k, db, r.value) then Some(AnchorFinding(k, db, r)) else None
  {
    var i :| 0 <= i < |Views(db)| && Views(db)[i] == view;
    r := OnChainAnchors(db)[i];
    InOnChainAnchors(db, r);
  }

  lemma AnchorPassIsOnePass(k: Hash, s: State, db: Database, limit: nat)
    requires 0 < limit && Ordered(db.anchors)
    ensures Ordered(Views(db)) && FindsFor(RootVerdict(k), AnchorRoot)
    ensures AfterAnchorPass(k, s, db, limit) == AfterPass(s, Views(db), RootVerdict(k), limit)
  {
    WhereOrdered(db.anchors, (a: AnchorRow) => a.tx.Some? && a.status.Confirmed?);
    AnchorCyclesAreCycles(k, s, db, limit, |OnChainAnchors(db)| / limit + 1);
  }

  lemma WrongAnchorHasView(k: Hash, db: Database, r: Row<AnchorRow>) returns (view: Row<AnchorView>)
    requires r in db.anchors && WrongAnchor(k, db, r.value)
    ensures view in Views(db) && view.key == r.key && RootVerdict(k)(view).Some?
  {
    InOnChainAnchors(db, r);
    ViewOfAnchor(db, r);
    view := Row(r.key, ViewOf(db)(r.value));
  }

  ghost predicate AnyWrong(k: Hash, db: Database) { exists r :: r in db.anchors && WrongAnchor(k, db, r.value) }

  ghost predicate WrongWithId(k: Hash, db: Database, id: int) {
    exists r :: r in db.anchors && r.key.id == id && WrongAnchor(k, db, r.value)
  }

  lemma FlaggedIfWrong(k: Hash, db: Database, id: int)
    ensures Flagged(Views(db), RootVerdict(k), id) <==> WrongWithId(k, db, id)
  {
    if Flagged(Views(db), RootVerdict(k), id) {
      var view :| view in Views(db) && RootVerdict(k)(view).Some? && view.key.id == id;
      var r := AnchorOfView(k, db, view);
    }
    if WrongWithId(k, db, id) {
      var r :| r in db.anchors && r.key.id == id && WrongAnchor(k, db, r.value);
      var view := WrongAnchorHasView(k, db, r);
    }
  }

  lemma AnyWrongView(k: Hash, db: Database)
    ensures AnyWrong(k, db) <==> exists view :: view in Views(db) && RootVerdict(k)(view).Some?
  {
    if view :| view in Views(db) && RootVerdict(k)(view).Some? {
      var r := AnchorOfView(k, db, view);
    }
    if AnyWrong(k, db) {
      var r :| r in db.anchors && WrongAnchor(k, db, r.value);
      var view := WrongAnchorHasView(k, db, r);
    }
  }

  lemma VerdictTells(k: Hash, db: Database, f: Finding)
    requires IsVerdict(Views(db), RootVerdict(k), f)
    ensures TellsWrongAnchor(k, db, f)
  {
    var view :| view in Views(db) && RootVerdict(k)(view) == Some(f);
    var r := AnchorOfView(k, db, view);
  }

  /** After a full anchor pass each on-chain anchor whose window no longer gives the stored root has one open
      finding, which tells both roots; no other row id and no other verifier gets one; and the pass is recorded
      clean exactly if there is no such anchor. */
  lemma AnchorPassDecides(k: Hash, s: State, db: Database, limit: nat)
    requires 0 < limit && Ordered(db.anchors) && AtStart(s) && AtMostOneOpen(s.findings)
    ensures var after := AfterAnchorPass(k, s, db, limit);
      && AtStart(after) && AtMostOneOpen(after.findings) && s.findings <= after.findings
      && after.checkpoint.lastPass == (if AnyWrong(k, db) then Failed else Clean)
      && (forall id :: WrongWithId(k, db, id) ==> CountOpen(after.findings, AnchorRoot, id) == 1)
      && (forall w, id :: w != AnchorRoot || !WrongWithId(k, db, id) ==>
            CountOpen(after.findings, w, id) == CountOpen(s.findings, w, id))
      && (forall i :: |s.findings| <= i < |after.findings| ==> TellsWrongAnchor(k, db, after.findings[i]))
  {
    var after := AfterAnchorPass(k, s, db, limit);
    AnchorPassIsOnePass(k, s, db, limit);
    StaticPassFindings(s, Views(db), RootVerdict(k), AnchorRoot, limit);
    AnyWrongView(k, db);
    forall id | WrongWithId(k, db, id) ensures CountOpen(after.findings, AnchorRoot, id) == 1 {
      FlaggedIfWrong(k, db, id);
    }
    forall w, id | w != AnchorRoot || !WrongWithId(k, db, id)
      ensures CountOpen(after.findings, w, id) == CountOpen(s.findings, w, id)
    {
      FlaggedIfWrong(k, db, id);
    }
    forall i | |s.findings| <= i < |after.findings| ensures TellsWrongAnchor(k, db, after.findings[i]) {
      VerdictTells(k, db, after.findings[i]);
    }
  }

  ghost predicate DistinctRowIds<T>(t: Table<T>) {
    forall i, j :: 0 <= i < j < |t| ==> t[i].key.id != t[j].key.id
  }

  /** The reported failure count is the checkpoint's, except that the report of the cycle that ends a failed
      pass still holds the pass's count while the checkpoint's is back to zero. */
  lemma ReportedFailuresIff(k: Hash, s: State, db: Database, limit: nat)
    ensures var report := AnchorReport(k, s.checkpoint, db, limit);
      var after := AnchorCycle(k, s, db, limit).checkpoint;
      && (report.currentPassFailureCount == after.passFailures <==> !(report.completedPass && after.lastPass == Failed))
      && (report.completedPass ==> after.passFailures == 0)
  {
  }

  /** It happens with one anchor whose window is empty. */
  lemma ReportDiffers(k: Hash) returns (s: State, db: Database)
    ensures AnchorReport(k, s.checkpoint, db, 2) == AnchorRootVerifyResult(1, 1, true, 1)
    ensures AnchorCycle(k, s, db, 2).checkpoint.passFailures == 0
  {
    s := State(Checkpoint(AUDIT_HASH_SCHEMA_VERSION, None, 0, 0, 0, Never), []);
    var anchor := AnchorRow(Pair("t", [1]), 1, Window(0, 0), Some([2]), Some(0), Confirmed, None);
    db := Database(map[], [Row(Key(0, 1), anchor)]);
    assert db.anchors[1..] == [] && [db.anchors[0]] + [] == db.anchors;
    assert OnChainAnchors(db) == db.anchors by {
      InWhere(db.anchors, (a: AnchorRow) => a.tx.Some? && a.status.Confirmed?, db.anchors[0]);
    }
    var view := Row(Key(0, 1), AnchorView(anchor, []));
    assert Views(db) == [view];
    assert Root(k, []) == ZeroDigest() && |ZeroDigest()| == 32;
    assert Compare(ZeroDigest(), [1]) != 0;
    assert RootVerdict(k)(view).Some?;
    assert Page([view], None, 2) == [view];
    assert Mismatches([view], RootVerdict(k)) == 1 by {
      assert [view][..0] == [];
    }
  }

  /** A window whose rows no longer have the published count and set of hashes does not give the
      published root, unless hashed inputs collide or one of them hashes to zero. */
  lemma ChangedWindowChangesRoot(k: Hash, published: seq<Bytes>, now: seq<Bytes>)
    requires 0 < |published| < COUNT_LIMIT && |now| < COUNT_LIMIT
    requires M.AvoidsCount(k, published, |now|) && M.AvoidsCount(k, now, |published|)
    requires |published| != |now| || Elements(published) != Elements(now)
    ensures Root(k, now) != Root(k, published) || Broken(k, published, now)
  {
    if now == [] {
      M.NonEmptyRootIsNotZero(k, published);
    } else if Root(k, now) == Root(k, published) {
      M.RootBindsCountAndSet(k, published, now);
    }
  }

  ghost predicate Broken(k: Hash, published: seq<Bytes>, now: seq<Bytes>) {
    || Collision(k, M.TreeInputs(k, published) + M.TreeInputs(k, now))
    || ZeroPreimage(k, M.TreeInputs(k, published))
  }

  lemma AnchorDecidedAlone(k: Hash, s: State, db: Database, limit: nat, row: Row<AnchorRow>)
    requires 0 < limit && Ordered(db.anchors) && DistinctRowIds(db.anchors) && AtStart(s) && AtMostOneOpen(s.findings)
    requires row in db.anchors
    ensures CountOpen(AfterAnchorPass(k, s, db, limit).findings, AnchorRoot, row.key.id)
         == if WrongAnchor(k, db, row.value) then 1 else CountOpen(s.findings, AnchorRoot, row.key.id)
  {
    AnchorPassDecides(k, s, db, limit);
    forall r | r in db.anchors && r.key.id == row.key.id ensures r == row {
      var i, j :| 0 <= i < |db.anchors| && 0 <= j < |db.anchors| && db.anchors[i] == r && db.anchors[j] == row;
      assert !(i < j) && !(j < i);
    }
  }

  // ---------- sorted tables and their windows ----------

  lemma {:induction false} ListEventsSorted(events: seq<Event>, w: Window)
    requires Sorted(events)
    ensures Sorted(ListEvents(events, w))
  {
    if events != [] {
      ListEventsSorted(events[1..], w);
      var rest := ListEvents(events[1..], w);
      forall i | 0 <= i < |rest| ensures Precedes(events[0], rest[i]) {
        assert rest[i] in rest && rest[i] in events[1..];
        var j :| 0 <= j < |events[1..]| && events[1..][j] == rest[i];
        assert events[j + 1] == rest[i];
      }
    }
  }

  lemma {:induction false} SameElementsSameTable(a: seq<Event>, b: seq<Event>)
    requires Sorted(a) && Sorted(b) && Elements(a) == Elements(b)
    ensures a == b
  {
    SortedSize(a);
    SortedSize(b);
    if a != [] {
      assert a[0] in Elements(b);
      assert b[0] in Elements(a);
      var i, j :| 0 <= i < |b| && b[i] == a[0] && 0 <= j < |a| && a[j] == b[0];
      assert a[0] == b[0];
      TailElements(a);
      TailElements(b);
      SameElementsSameTable(a[1..], b[1..]);
      assert a == [a[0]] + a[1..] && b == [b[0]] + b[1..];
    }
  }

  lemma TailElements(a: seq<Event>)
    requires Sorted(a) && a != []
    ensures Elements(a[1..]) == Elements(a) - {a[0]}
  {
    assert a == [a[0]] + a[1..];
    forall i | 0 <= i < |a[1..]| ensures a[1..][i] != a[0] {
      assert Precedes(a[0], a[i + 1]);
    }
  }

  lemma SortedSize(a: seq<Event>)
    requires Sorted(a)
    ensures |Elements(a)| == |a|
  {
    forall i, j | 0 <= i < j < |a| ensures a[i] != a[j] {
      assert Precedes(a[i], a[j]);
    }
    DistinctCount(a);
  }

  /** `after` is `before` with some rows deleted. */
  ghost predicate Deleted(before: seq<Event>, after: seq<Event>) {
    Sorted(before) && Sorted(after) && Elements(after) <= Elements(before)
  }

  lemma WindowShrinks(before: seq<Event>, after: seq<Event>, w: Window, e: Event)
    requires Deleted(before, after) && e in before && e !in after && Contains(w, e.at)
    ensures |ListEvents(after, w)| < |ListEvents(before, w)|
  {
    var one, two := ListEvents(before, w), ListEvents(after, w);
    ListEventsSorted(before, w);
    ListEventsSorted(after, w);
    SortedSize(one);
    SortedSize(two);
    forall x | x in two ensures x in Elements(one) - {e} {
      assert x in Elements(after);
    }
    assert Elements(two) <= Elements(one) - {e};
    SubsetSize(Elements(two), Elements(one) - {e});
  }

  lemma WindowUntouched(before: seq<Event>, after: seq<Event>, w: Window)
    requires Deleted(before, after)
    requires forall e :: e in before && e !in after ==> !Contains(w, e.at)
    ensures ListEvents(after, w) == ListEvents(before, w)
  {
    ListEventsSorted(before, w);
    ListEventsSorted(after, w);
    forall x | x in ListEvents(after, w) ensures x in ListEvents(before, w) {
      assert x in Elements(after);
    }
    SameElementsSameTable(ListEvents(after, w), ListEvents(before, w));
  }

  // ---------- truncation ----------

  function ToEvent(r: C.EventRow<Bytes>): Event { Event(r.record.id, r.record.at, r.hash) }

  /** The tenant's rows as the anchoring code reads them: id, time and hash, in order. */
  ghost predicate TableOf(events: seq<Event>, rows: set<C.EventRow<Bytes>>, t: string) {
    Sorted(events) && Elements(events) == set r | r in C.TenantRows(rows, t) :: ToEvent(r)
  }

  ghost predicate DistinctRecordIds(rows: set<C.EventRow<Bytes>>) {
    forall r, s :: r in rows && s in rows && r != s ==> r.record.id != s.record.id
  }

  lemma TruncationDeletes(rows: set<C.EventRow<Bytes>>, t: string, dropped: set<C.EventRow<Bytes>>,
                          before: seq<Event>, after: seq<Event>)
    requires DistinctRecordIds(rows) && dropped <= C.TenantRows(rows, t)
    requires TableOf(before, rows, t) && TableOf(after, rows - dropped, t)
    ensures Deleted(before, after)
    ensures forall e :: e in before && e !in after <==> e in (set r | r in dropped :: ToEvent(r))
  {
    forall e | e in Elements(after) ensures e in Elements(before) {
      var r :| r in C.TenantRows(rows - dropped, t) && ToEvent(r) == e;
      assert r in C.TenantRows(rows, t);
    }
    forall e | e in before && e !in after ensures e in (set r | r in dropped :: ToEvent(r)) {
      assert e in Elements(before);
      var r :| r in C.TenantRows(rows, t) && ToEvent(r) == e;
      assert r in rows - dropped ==> ToEvent(r) in Elements(after);
    }
    forall r | r in dropped ensures ToEvent(r) in before && ToEvent(r) !in after {
      assert ToEvent(r) in Elements(before);
      forall q | q in C.TenantRows(rows - dropped, t) ensures ToEvent(q) != ToEvent(r) {
        assert q.record.id != r.record.id;
      }
      assert ToEvent(r) !in Elements(after);
    }
  }

  lemma ShrunkWindowChangesRoot(k: Hash, before: seq<Event>, after: seq<Event>, w: Window, e: Event)
    requires Deleted(before, after) && e in before && e !in after && Contains(w, e.at)
    requires |before| < COUNT_LIMIT && AnchorProgress.NoCountLeaf(k, before)
    ensures var published, now := WindowHashes(before, w), WindowHashes(after, w);
      Root(k, now) != Root(k, published) || Broken(k, published, now)
  {
    var published, now := WindowHashes(before, w), WindowHashes(after, w);
    WindowShrinks(before, after, w, e);
    forall x | x in after ensures x in before {
      assert x in Elements(after);
    }
    AnchorProgress.WindowAvoidsCount(k, before, w, |now|);
    AnchorProgress.WindowAvoidsCount(k, after, w, |published|);
    ChangedWindowChangesRoot(k, published, now);
  }

  /** The rows of a tenant with the newest events, all but the first `keep`, deleted. */
  function Truncated(rows: set<C.EventRow<Bytes>>, c: seq<C.EventRow<Bytes>>, keep: nat): set<C.EventRow<Bytes>>
    requires keep <= |c|
  {
    rows - Elements(c[keep..])
  }

  /** Deleting a tenant's newest events is invisible to the structural and the content check. A full pass
      over the anchors flags every on-chain anchor of the tenant with a deleted event in its window, once,
      and adds nothing for an anchor of the tenant without one, nor for another tenant's anchor whose window
      still gives its root. */
  lemma OnlyAnchorsSeeTruncation(h: C.Record<Bytes> -> Bytes, k: Hash, rows: set<C.EventRow<Bytes>>, t: string,
                                 c: seq<C.EventRow<Bytes>>, keep: nat, before: seq<Event>, db: Database, s: State,
                                 limit: nat, row: Row<AnchorRow>)
    requires C.CheckAuditConsistency(rows) == C.CLEAN && C.ContentClean(h, rows) && DistinctRecordIds(rows)
    requires C.LinearOrder(c, rows, t) && 1 <= keep <= |c|
    requires TableOf(before, rows, t) && TableOf(EventsOf(db, t), Truncated(rows, c, keep), t)
    requires |before| < COUNT_LIMIT && AnchorProgress.NoCountLeaf(k, before)
    requires 0 < limit && Ordered(db.anchors) && DistinctRowIds(db.anchors) && AtStart(s) && AtMostOneOpen(s.findings)
    requires row in db.anchors && row.value.tx.Some? && row.value.status.Confirmed?
    requires var tenant := row.value.pair.tenant;
      var events := if tenant == t then before else EventsOf(db, tenant);
      row.value.pair.root == Root(k, WindowHashes(events, row.value.window))
    ensures var left := Truncated(rows, c, keep);
      C.CheckAuditConsistency(left) == C.CLEAN && C.ContentClean(h, left)
    ensures var w := row.value.window;
      var found := CountOpen(AfterAnchorPass(k, s, db, limit).findings, AnchorRoot, row.key.id);
      if row.value.pair.tenant == t && DropsIn(c, keep, w)
      then found == 1 || Broken(k, WindowHashes(before, w), WindowHashes(EventsOf(db, t), w))
      else found == CountOpen(s.findings, AnchorRoot, row.key.id)
  {
    C.TruncationGoesUnseen(h, rows, t, c, keep);
    AnchorDecidedAlone(k, s, db, limit, row);
    if row.value.pair.tenant == t {
      TruncatedWindow(k, rows, t, c, keep, before, EventsOf(db, t), row.value.window);
    }
  }

  /** A deleted event lies in the window. */
  predicate DropsIn(c: seq<C.EventRow<Bytes>>, keep: nat, w: Window) {
    exists i :: keep <= i < |c| && Contains(w, c[i].record.at)
  }

  lemma TruncatedWindow(k: Hash, rows: set<C.EventRow<Bytes>>, t: string, c: seq<C.EventRow<Bytes>>, keep: nat,
                        before: seq<Event>, after: seq<Event>, w: Window)
    requires C.LinearOrder(c, rows, t) && keep <= |c| && DistinctRecordIds(rows)
    requires TableOf(before, rows, t) && TableOf(after, Truncated(rows, c, keep), t)
    requires |before| < COUNT_LIMIT && AnchorProgress.NoCountLeaf(k, before)
    ensures var published, now := WindowHashes(before, w), WindowHashes(after, w);
      if DropsIn(c, keep, w) then Root(k, now) != Root(k, published) || Broken(k, published, now) else now == published
  {
    var dropped := Elements(c[keep..]);
    DroppedAreOnChain(rows, t, c, keep);
    TruncationDeletes(rows, t, dropped, before, after);
    if i :| keep <= i < |c| && Contains(w, c[i].record.at) {
      assert c[i] == c[keep..][i - keep] && c[i] in dropped;
      ShrunkWindowChangesRoot(k, before, after, w, ToEvent(c[i]));
    } else {
      NothingDroppedInside(c, keep, w, before, after);
      WindowUntouched(before, after, w);
    }
  }

  lemma DroppedAreOnChain(rows: set<C.EventRow<Bytes>>, t: string, c: seq<C.EventRow<Bytes>>, keep: nat)
    requires C.LinearOrder(c, rows, t) && keep <= |c|
    ensures Elements(c[keep..]) <= C.TenantRows(rows, t)
  {
    forall r | r in Elements(c[keep..]) ensures r in C.TenantRows(rows, t) {
      assert r in Elements(c);
    }
  }

  lemma NothingDroppedInside(c: seq<C.EventRow<Bytes>>, keep: nat, w: Window, before: seq<Event>, after: seq<Event>)
    requires keep <= |c|
    requires forall i :: keep <= i < |c| ==> !Contains(w, c[i].record.at)
    requires forall e :: e in before && e !in after ==> e in (set r | r in Elements(c[keep..]) :: ToEvent(r))
    ensures forall e :: e in before && e !in after ==> !Contains(w, e.at)
  {
    forall e | e in before && e !in after ensures !Contains(w, e.at) {
      var r :| r in Elements(c[keep..]) && ToEvent(r) == e;
      var i :| 0 <= i < |c[keep..]| && c[keep..][i] == r;
      assert c[keep + i] == r;
    }
  }
}
