/**
 The per-tenant hash chain: the structural checks (forks, gaps, genesis) and the content check, what
 they establish together, and what neither can see.
 */
module ChainConsistency {
  import opened Options
  import opened Sequences

  /** Everything hashEvent covers: the event's fields, its id and time, and its predecessor's hash. */
  datatype Record<D> = Record(id: int, tenant: string, at: int, body: string, prev: Option<D>)

  datatype EventRow<D> = EventRow(record: Record<D>, hash: D)

  datatype AuditConsistencyResult = AuditConsistencyResult(forks: nat, gaps: nat, invalidGenesis: nat)

  function Tenants<D(==)>(rows: set<EventRow<D>>): set<string> { set r | r in rows :: r.record.tenant }

  function TenantRows<D(==)>(rows: set<EventRow<D>>, t: string): set<EventRow<D>> {
    set r | r in rows && r.record.tenant == t
  }

  /** The (tenant, predecessor) groups with more than one successor. */
  function Forks<D(==)>(rows: set<EventRow<D>>): set<(string, D)> {
    set r, s | r in rows && s in rows && r != s && r.record.tenant == s.record.tenant
            && r.record.prev.Some? && r.record.prev == s.record.prev
      :: (r.record.tenant, r.record.prev.value)
  }

  predicate IsPredecessor<D(==)>(p: EventRow<D>, r: EventRow<D>) {
    p.record.tenant == r.record.tenant && r.record.prev == Some(p.hash)
  }

  predicate HasPredecessor<D(==)>(rows: set<EventRow<D>>, r: EventRow<D>) {
    exists p :: p in rows && IsPredecessor(p, r)
  }

  /** The events whose predecessor is no event of the same tenant. */
  function Gaps<D(==)>(rows: set<EventRow<D>>): set<EventRow<D>> {
    set r | r in rows && r.record.prev.Some? && !HasPredecessor(rows, r)
  }

  function Genesis<D(==)>(rows: set<EventRow<D>>, t: string): set<EventRow<D>> {
    set r | r in rows && r.record.tenant == t && r.record.prev.None?
  }

  /** The tenants that do not have exactly one event without a predecessor. */
  function InvalidGenesis<D(==)>(rows: set<EventRow<D>>): set<string> {
    set t | t in Tenants(rows) && |Genesis(rows, t)| != 1
  }

  function CheckAuditConsistency<D(==)>(rows: set<EventRow<D>>): AuditConsistencyResult {
    AuditConsistencyResult(|Forks(rows)|, |Gaps(rows)|, |InvalidGenesis(rows)|)
  }

  const CLEAN := AuditConsistencyResult(0, 0, 0)

  /** Every stored hash is the recomputed one. */
  ghost predicate ContentClean<D>(h: Record<D> -> D, rows: set<EventRow<D>>) {
    forall r :: r in rows ==> r.hash == h(r.record)
  }

  // ---------- one linear chain ----------

  ghost predicate IsChain<D>(c: seq<EventRow<D>>) {
    && (c != [] ==> c[0].record.prev.None?)
    && forall i :: 0 < i < |c| ==> c[i].record.prev == Some(c[i - 1].hash)
  }

  lemma GenesisIsFirst<D(!new)>(c: seq<EventRow<D>>, i: nat)
    requires IsChain(c) && i < |c|
    ensures c[i].record.prev.None? <==> i == 0
  {
    if i > 0 {
      assert c[i].record.prev == Some(c[i - 1].hash);
    }
  }

  /** `c` lists exactly the tenant's events, each once, every one after its predecessor. */
  ghost predicate LinearOrder<D>(c: seq<EventRow<D>>, rows: set<EventRow<D>>, t: string) {
    IsChain(c) && Distinct(c) && Elements(c) == TenantRows(rows, t)
  }

  ghost predicate HasLinearOrder<D(!new)>(rows: set<EventRow<D>>, t: string) {
    exists c :: LinearOrder(c, rows, t)
  }

  ghost predicate AllLinear<D(!new)>(rows: set<EventRow<D>>) {
    forall t :: t in Tenants(rows) ==> HasLinearOrder(rows, t)
  }

  /** Rows whose predecessor links run in a circle: each one's predecessor is the next one in `c`. */
  ghost predicate LinkCycle<D>(c: seq<EventRow<D>>, rows: set<EventRow<D>>) {
    c != [] && forall i :: 0 <= i < |c| ==>
      c[i] in rows && c[i].record.prev == Some(c[if i + 1 < |c| then i + 1 else 0].hash)
  }

  ghost predicate StructureClean<D>(rows: set<EventRow<D>>) {
    && (forall r, s :: r in rows && s in rows && r != s && r.record.tenant == s.record.tenant && r.record.prev.Some? ==>
          r.record.prev != s.record.prev)
    && (forall r {:trigger HasPredecessor(rows, r)} :: r in rows && r.record.prev.Some? ==> HasPredecessor(rows, r))
    && (forall t :: t in Tenants(rows) ==> |Genesis(rows, t)| == 1)
  }

  lemma CountsZeroIffClean<D(!new)>(rows: set<EventRow<D>>)
    ensures CheckAuditConsistency(rows) == CLEAN <==> StructureClean(rows)
  {
    assert Forks(rows) == {} <==>
      forall r, s :: r in rows && s in rows && r != s && r.record.tenant == s.record.tenant && r.record.prev.Some? ==>
        r.record.prev != s.record.prev by {
      if Forks(rows) == {} {
        forall r, s | r in rows && s in rows && r != s && r.record.tenant == s.record.tenant && r.record.prev.Some?
          ensures r.record.prev != s.record.prev
        {
          assert (r.record.tenant, r.record.prev.value) !in Forks(rows);
        }
      }
    }
    if Gaps(rows) == {} {
      forall r | r in rows && r.record.prev.Some? ensures HasPredecessor(rows, r) {
        assert r !in Gaps(rows);
      }
    }
    if InvalidGenesis(rows) == {} {
      forall t | t in Tenants(rows) ensures |Genesis(rows, t)| == 1 {
        assert t !in InvalidGenesis(rows);
      }
    }
  }

  /** Two events of a tenant follow the same one. */
  ghost predicate Forked<D(!new)>(rows: set<EventRow<D>>) {
    exists r, s :: r in rows && s in rows && r != s && r.record.tenant == s.record.tenant && r.record.prev.Some?
      && s.record.prev == r.record.prev
  }

  /** An event names a predecessor that its tenant does not have. */
  ghost predicate Gapped<D(!new)>(rows: set<EventRow<D>>) {
    exists r :: r in rows && r.record.prev.Some?
      && forall p :: p in rows && p.record.tenant == r.record.tenant ==> p.hash != r.record.prev.value
  }

  /** All of a tenant's events name a predecessor, or two of them do not. */
  ghost predicate WithoutOneGenesis<D(!new)>(rows: set<EventRow<D>>, t: string) {
    || (forall r :: r in rows && r.record.tenant == t ==> r.record.prev.Some?)
    || exists r, s :: r in rows && s in rows && r != s && r.record.tenant == t && s.record.tenant == t
         && r.record.prev.None? && s.record.prev.None?
  }

  lemma ForkIsCounted<D(!new)>(rows: set<EventRow<D>>)
    ensures |Forks(rows)| > 0 <==> Forked(rows)
  {
    if Forked(rows) {
      var r, s :| r in rows && s in rows && r != s && r.record.tenant == s.record.tenant && r.record.prev.Some?
        && s.record.prev == r.record.prev;
      assert (r.record.tenant, r.record.prev.value) in Forks(rows);
    } else {
      assert Forks(rows) == {};
    }
  }

  lemma GapIsCounted<D(!new)>(rows: set<EventRow<D>>)
    ensures |Gaps(rows)| > 0 <==> Gapped(rows)
  {
    if Gapped(rows) {
      var r :| r in rows && r.record.prev.Some?
        && forall p :: p in rows && p.record.tenant == r.record.tenant ==> p.hash != r.record.prev.value;
      assert r in Gaps(rows);
    } else {
      assert Gaps(rows) == {};
    }
  }

  lemma GenesisIsCounted<D(!new)>(rows: set<EventRow<D>>, t: string)
    ensures |Genesis(rows, t)| != 1 <==> WithoutOneGenesis(rows, t)
  {
    var all := Genesis(rows, t);
    assert forall r :: r in rows && r.record.tenant == t && r.record.prev.None? <==> r in all;
    if all != {} {
      var g :| g in all;
      if exists s :: s in all && s != g {
        var s :| s in all && s != g;
        SubsetSize({g, s}, all);
      } else {
        assert all == {g};
      }
    }
  }

  /** Each count is positive exactly if its own defect occurs. */
  lemma CountsTellDefects<D(!new)>(rows: set<EventRow<D>>)
    ensures var counts := CheckAuditConsistency(rows);
      && (counts.forks > 0 <==> Forked(rows))
      && (counts.gaps > 0 <==> Gapped(rows))
      && (counts.invalidGenesis > 0 <==> exists r :: r in rows && WithoutOneGenesis(rows, r.record.tenant))
  {
    ForkIsCounted(rows);
    GapIsCounted(rows);
    if r :| r in rows && WithoutOneGenesis(rows, r.record.tenant) {
      GenesisIsCounted(rows, r.record.tenant);
      assert r.record.tenant in InvalidGenesis(rows);
    }
    if InvalidGenesis(rows) != {} {
      var t :| t in InvalidGenesis(rows);
      var r :| r in rows && r.record.tenant == t;
      GenesisIsCounted(rows, r.record.tenant);
    }
  }

  lemma OneGenesis<D(!new)>(rows: set<EventRow<D>>, t: string) returns (g: EventRow<D>)
    requires StructureClean(rows) && t in Tenants(rows)
    ensures g in rows && g.record.tenant == t && g.record.prev.None?
    ensures forall r :: r in rows && r.record.tenant == t && r.record.prev.None? ==> r == g
  {
    var all := Genesis(rows, t);
    g :| g in all;
    forall r | r in rows && r.record.tenant == t && r.record.prev.None? ensures r == g {
      if r != g {
        assert {r, g} <= all;
        SubsetSize({r, g}, all);
      }
    }
  }

  lemma ClosePath<D(!new)>(rows: set<EventRow<D>>, path: seq<EventRow<D>>, j: nat)
    requires Elements(path) <= rows && j < |path|
    requires forall i :: 0 <= i < |path| - 1 ==> path[i].record.prev == Some(path[i + 1].hash)
    requires path[|path| - 1].record.prev == Some(path[j].hash)
    ensures LinkCycle(path[j..], rows)
  {
    var c := path[j..];
    forall i | 0 <= i < |c|
      ensures c[i] in rows && c[i].record.prev == Some(c[if i + 1 < |c| then i + 1 else 0].hash)
    {
      assert c[i] == path[j + i] && path[j + i] in Elements(path);
      assert i + 1 < |c| ==> c[i + 1] == path[j + i + 1];
    }
  }

  ghost predicate PredecessorsInside<D(!new)>(s: set<EventRow<D>>) {
    forall r {:trigger HasPredecessor(s, r)} :: r in s ==> HasPredecessor(s, r)
  }

  /** Follow predecessors inside a set that has one for each member until a row comes up again. */
  lemma {:induction false} FindCycle<D(!new)>(rows: set<EventRow<D>>, path: seq<EventRow<D>>)
    returns (c: seq<EventRow<D>>)
    requires PredecessorsInside(rows)
    requires path != [] && Elements(path) <= rows
    requires forall i :: 0 <= i < |path| - 1 ==> path[i].record.prev == Some(path[i + 1].hash)
    ensures LinkCycle(c, rows)
    decreases rows - Elements(path)
  {
    var last := path[|path| - 1];
    assert last in Elements(path);
    assert HasPredecessor(rows, last);
    var p :| p in rows && IsPredecessor(p, last);
    if p in path {
      var j :| 0 <= j < |path| && path[j] == p;
      c := path[j..];
      ClosePath(rows, path, j);
    } else {
      assert Elements(path + [p]) == Elements(path) + {p};
      c := FindCycle(rows, path + [p]);
    }
  }

  /** Events of a tenant that nothing outside leads to: none is a genesis event, and all their
      predecessors are among themselves. */
  ghost predicate Detached<D(!new)>(s: set<EventRow<D>>, rows: set<EventRow<D>>, t: string) {
    && s != {} && s <= TenantRows(rows, t)
    && forall r :: r in s ==> r.record.prev.Some? && forall p :: p in rows && IsPredecessor(p, r) ==> p in s
  }

  ghost predicate HasDetached<D(!new)>(rows: set<EventRow<D>>, t: string) {
    exists s :: Detached(s, rows, t)
  }

  /** Lay events onto a chain that starts at the genesis event; what is left over when nothing fits
      any more is detached. */
  lemma {:induction false} ExtendChain<D(!new)>(rows: set<EventRow<D>>, t: string, c: seq<EventRow<D>>)
    returns (order: seq<EventRow<D>>, left: set<EventRow<D>>)
    requires StructureClean(rows) && t in Tenants(rows)
    requires c != [] && IsChain(c) && Distinct(c) && Elements(c) <= TenantRows(rows, t)
    ensures LinearOrder(order, rows, t) || Detached(left, rows, t)
    decreases TenantRows(rows, t) - Elements(c)
  {
    order, left := c, TenantRows(rows, t) - Elements(c);
    if r :| r in left && r.record.prev == Some(c[|c| - 1].hash) {
      assert Elements(c + [r]) == Elements(c) + {r};
      order, left := ExtendChain(rows, t, c + [r]);
    } else if left != {} {
      LeftOverIsDetached(rows, t, c);
    }
  }

  lemma SuccessorIsNext<D(!new)>(rows: set<EventRow<D>>, t: string, c: seq<EventRow<D>>, i: nat, r: EventRow<D>)
    requires StructureClean(rows) && IsChain(c) && Elements(c) <= TenantRows(rows, t) && i + 1 < |c|
    requires r in TenantRows(rows, t) && IsPredecessor(c[i], r)
    ensures r in Elements(c)
  {
    assert c[i + 1] in Elements(c) && c[i + 1].record.prev == r.record.prev;
  }

  lemma LeftOverIsDetached<D(!new)>(rows: set<EventRow<D>>, t: string, c: seq<EventRow<D>>)
    requires StructureClean(rows) && t in Tenants(rows)
    requires c != [] && IsChain(c) && Elements(c) <= TenantRows(rows, t)
    requires TenantRows(rows, t) - Elements(c) != {}
    requires forall r :: r in TenantRows(rows, t) - Elements(c) ==> r.record.prev != Some(c[|c| - 1].hash)
    ensures Detached(TenantRows(rows, t) - Elements(c), rows, t)
  {
    var left := TenantRows(rows, t) - Elements(c);
    var g := OneGenesis(rows, t);
    assert c[0] in Elements(c);
    forall r, p | r in left && p in rows && IsPredecessor(p, r) ensures p in left {
      if p in c {
        var i :| 0 <= i < |c| && c[i] == p;
        if i < |c| - 1 {
          SuccessorIsNext(rows, t, c, i, r);
        }
      }
    }
  }

  lemma {:induction false} NothingDetachedOnChain<D(!new)>(rows: set<EventRow<D>>, t: string, c: seq<EventRow<D>>,
                                                           s: set<EventRow<D>>, i: nat)
    requires LinearOrder(c, rows, t) && Detached(s, rows, t) && i < |c|
    ensures c[i] !in s
  {
    if i > 0 {
      NothingDetachedOnChain(rows, t, c, s, i - 1);
      assert c[i - 1] in Elements(c) && c[i] in Elements(c) && IsPredecessor(c[i - 1], c[i]);
    }
  }

  lemma ChainLeavesNothingDetached<D(!new)>(rows: set<EventRow<D>>, t: string, c: seq<EventRow<D>>, s: set<EventRow<D>>)
    requires LinearOrder(c, rows, t)
    ensures !Detached(s, rows, t)
  {
    if Detached(s, rows, t) {
      var r :| r in s;
      assert r in Elements(c);
      var i :| 0 <= i < |c| && c[i] == r;
      NothingDetachedOnChain(rows, t, c, s, i);
    }
  }

  /** What the structural counts leave open, exactly: with all three at zero a tenant's events form one
      linear chain if and only if none of them are detached. */
  lemma CleanCountsMissExactlyDetached<D(!new)>(rows: set<EventRow<D>>, t: string)
    requires CheckAuditConsistency(rows) == CLEAN && t in Tenants(rows)
    ensures HasLinearOrder(rows, t) <==> !HasDetached(rows, t)
  {
    CountsZeroIffClean(rows);
    var g := OneGenesis(rows, t);
    assert Elements([g]) == {g};
    var order, left := ExtendChain(rows, t, [g]);
    if c, s :| LinearOrder(c, rows, t) && Detached(s, rows, t) {
      ChainLeavesNothingDetached(rows, t, c, s);
    }
  }

  /** And that does happen: a genesis event beside two events naming each other passes all three. */
  lemma CountsMissADetachedCircle() returns (rows: set<EventRow<int>>, t: string)
    ensures CheckAuditConsistency(rows) == CLEAN && t in Tenants(rows) && !HasLinearOrder(rows, t)
  {
    t := "t";
    var g := EventRow(Record(1, t, 1, "", None), 10);
    var a := EventRow(Record(2, t, 2, "", Some(30)), 20);
    var b := EventRow(Record(3, t, 3, "", Some(20)), 30);
    rows := {g, a, b};
    CircleBesideGenesis(rows, t, g, a, b);
    CountsZeroIffClean(rows);
    assert Detached({a, b}, rows, t);
    CleanCountsMissExactlyDetached(rows, t);
  }

  lemma CircleBesideGenesis<D(!new)>(rows: set<EventRow<D>>, t: string, g: EventRow<D>, a: EventRow<D>, b: EventRow<D>)
    requires rows == {g, a, b} && g.record.tenant == a.record.tenant == b.record.tenant == t
    requires g.record.prev.None? && a.hash != b.hash
    requires a.record.prev == Some(b.hash) && b.record.prev == Some(a.hash)
    ensures StructureClean(rows) && t in Tenants(rows)
  {
    assert g in rows && IsPredecessor(b, a) && IsPredecessor(a, b);
    forall u | u in Tenants(rows) ensures |Genesis(rows, u)| == 1 {
      assert Genesis(rows, u) == {g};
    }
  }

  /** There is at most one such order. */
  lemma LinearOrderUnique<D(!new)>(rows: set<EventRow<D>>, t: string, c: seq<EventRow<D>>, d: seq<EventRow<D>>)
    requires CheckAuditConsistency(rows) == CLEAN
    requires LinearOrder(c, rows, t) && LinearOrder(d, rows, t)
    ensures c == d
  {
    CountsZeroIffClean(rows);
    DistinctCount(c);
    DistinctCount(d);
    forall i | 0 <= i < |c| ensures c[i] == d[i] {
      SameAt(rows, t, c, d, i);
    }
  }

  lemma {:induction false} SameAt<D(!new)>(rows: set<EventRow<D>>, t: string, c: seq<EventRow<D>>,
                                           d: seq<EventRow<D>>, i: nat)
    requires StructureClean(rows) && LinearOrder(c, rows, t) && LinearOrder(d, rows, t)
    requires i < |c| && i < |d|
    ensures c[i] == d[i]
  {
    assert c[i] in Elements(c) && d[i] in Elements(d);
    if i == 0 {
      var g := OneGenesis(rows, t);
    } else {
      SameAt(rows, t, c, d, i - 1);
    }
  }

  // ---------- what the content check adds ----------

  /** Records each of which names the hash of the next one as its predecessor, in a circle. */
  ghost predicate HashCycle<D>(h: Record<D> -> D, records: seq<Record<D>>) {
    records != [] && forall i :: 0 <= i < |records| ==>
      records[i].prev == Some(h(records[if i + 1 < |records| then i + 1 else 0]))
  }

  /** Two different stored records have the same hash. */
  ghost predicate RecordCollision<D>(h: Record<D> -> D, rows: set<EventRow<D>>) {
    exists r, s :: r in rows && s in rows && r.record != s.record && h(r.record) == h(s.record)
  }

  function Records<D>(c: seq<EventRow<D>>): seq<Record<D>> {
    seq(|c|, i requires 0 <= i < |c| => c[i].record)
  }

  lemma CircleOfRecords<D(!new)>(h: Record<D> -> D, checked: set<EventRow<D>>, c: seq<EventRow<D>>)
    requires ContentClean(h, checked) && LinkCycle(c, checked)
    ensures HashCycle(h, Records(c))
  {
  }

  lemma DetachedHasPredecessors<D(!new)>(rows: set<EventRow<D>>, t: string, s: set<EventRow<D>>)
    requires StructureClean(rows) && Detached(s, rows, t)
    ensures PredecessorsInside(s)
  {
    forall r | r in s ensures HasPredecessor(s, r) {
      assert HasPredecessor(rows, r);
      var p :| p in rows && IsPredecessor(p, r);
      assert p in s;
    }
  }

  /** Counts at zero, and the content check clean for the rows it covers: every tenant's events form one linear
      chain, or here are stored events of the tenant whose predecessor links run in a circle. If the content
      check covers all of them, their hashes run in a circle too. */
  lemma CleanChecksMeanOneChain<D(!new)>(h: Record<D> -> D, rows: set<EventRow<D>>, checked: set<EventRow<D>>,
                                         t: string)
    returns (order: seq<EventRow<D>>, circle: seq<EventRow<D>>)
    requires CheckAuditConsistency(rows) == CLEAN && t in Tenants(rows)
    requires checked <= rows && ContentClean(h, checked)
    ensures LinearOrder(order, rows, t)
         || (LinkCycle(circle, TenantRows(rows, t)) && (Elements(circle) <= checked ==> HashCycle(h, Records(circle))))
  {
    CountsZeroIffClean(rows);
    CleanCountsMissExactlyDetached(rows, t);
    if c :| LinearOrder(c, rows, t) {
      order, circle := c, [];
    } else {
      var s :| Detached(s, rows, t);
      var r :| r in s;
      assert Elements([r]) == {r};
      DetachedHasPredecessors(rows, t, s);
      order := [];
      circle := FindCycle(s, [r]);
      if Elements(circle) <= checked {
        forall i | 0 <= i < |circle| ensures circle[i] in checked {
          assert circle[i] in Elements(circle);
        }
        CircleOfRecords(h, checked, circle);
      }
    }
  }

  /** And a row of an older hash version, which the content check does not cover, can close a circle: whatever
      the hash function, these three events pass everything without forming a chain. */
  lemma OldRowHidesCircle<D(!new)>(h: Record<D> -> D, x: D, t: string)
    returns (rows: set<EventRow<D>>, older: EventRow<D>)
    requires var hb, hg := h(Record(3, t, 3, "", Some(x))), h(Record(1, t, 1, "", None)); x != hb && x != hg && hb != hg
    ensures CheckAuditConsistency(rows) == CLEAN && t in Tenants(rows) && !HasLinearOrder(rows, t)
    ensures older in rows && ContentClean(h, rows - {older})
  {
    var g := EventRow(Record(1, t, 1, "", None), h(Record(1, t, 1, "", None)));
    var b := EventRow(Record(3, t, 3, "", Some(x)), h(Record(3, t, 3, "", Some(x))));
    older := EventRow(Record(2, t, 2, "", Some(b.hash)), x);
    rows := {g, older, b};
    CircleBesideGenesis(rows, t, g, older, b);
    CountsZeroIffClean(rows);
    assert Detached({older, b}, rows, t);
    CleanCountsMissExactlyDetached(rows, t);
  }

  /** The other way round: one linear chain per tenant leaves the counts at zero, or two stored
      records collide. */
  lemma OneChainMeansCleanCounts<D(!new)>(h: Record<D> -> D, rows: set<EventRow<D>>)
    requires ContentClean(h, rows) && AllLinear(rows)
    ensures CheckAuditConsistency(rows) == CLEAN || RecordCollision(h, rows)
  {
    if !RecordCollision(h, rows) {
      forall r, s | r in rows && s in rows && r != s && r.record.tenant == s.record.tenant && r.record.prev.Some?
        ensures r.record.prev != s.record.prev
      {
        ChainHasNoFork(h, rows, r, s);
      }
      forall r | r in rows && r.record.prev.Some? ensures HasPredecessor(rows, r) {
        var c, i := PlaceOnChain(rows, r);
        assert c[i - 1] in Elements(c) && IsPredecessor(c[i - 1], r);
      }
      forall t | t in Tenants(rows) ensures |Genesis(rows, t)| == 1 {
        ChainHasOneGenesis(rows, t);
      }
      CountsZeroIffClean(rows);
    }
  }

  lemma PlaceOnChain<D(!new)>(rows: set<EventRow<D>>, r: EventRow<D>) returns (c: seq<EventRow<D>>, i: nat)
    requires r in rows && AllLinear(rows)
    ensures LinearOrder(c, rows, r.record.tenant) && i < |c| && c[i] == r
  {
    assert r.record.tenant in Tenants(rows);
    c :| LinearOrder(c, rows, r.record.tenant);
    assert r in TenantRows(rows, r.record.tenant);
    i :| 0 <= i < |c| && c[i] == r;
  }

  lemma ChainHasNoFork<D(!new)>(h: Record<D> -> D, rows: set<EventRow<D>>, r: EventRow<D>, s: EventRow<D>)
    requires ContentClean(h, rows) && AllLinear(rows)
    requires r in rows && s in rows && r != s && r.record.tenant == s.record.tenant && r.record.prev.Some?
    requires !RecordCollision(h, rows)
    ensures r.record.prev != s.record.prev
  {
    var c, i := PlaceOnChain(rows, r);
    assert s in Elements(c);
    var j :| 0 <= j < |c| && c[j] == s;
    if j > 0 {
      var p, q := c[i - 1], c[j - 1];
      assert p in Elements(c) && q in Elements(c) && p != q;
      assert p.record == q.record ==> p.hash == q.hash;
    }
  }

  lemma ChainHasOneGenesis<D(!new)>(rows: set<EventRow<D>>, t: string)
    requires t in Tenants(rows) && HasLinearOrder(rows, t)
    ensures |Genesis(rows, t)| == 1
  {
    var c :| LinearOrder(c, rows, t);
    var r :| r in rows && r.record.tenant == t;
    assert r in TenantRows(rows, t);
    assert c[0] in Elements(c);
    forall g | g in Genesis(rows, t) ensures g == c[0] {
      assert g in Elements(c);
      var i :| 0 <= i < |c| && c[i] == g;
      GenesisIsFirst(c, i);
    }
    assert Genesis(rows, t) == {c[0]};
  }

  /** A measure of digests that grows with every hashing. */
  ghost predicate Ranked<D(!new)>(h: Record<D> -> D, rank: D -> nat) {
    forall r: Record<D> :: r.prev.Some? ==> rank(r.prev.value) < rank(h(r))
  }

  lemma {:induction false} RanksFall<D(!new)>(h: Record<D> -> D, rank: D -> nat, records: seq<Record<D>>, i: nat)
    requires Ranked(h, rank) && HashCycle(h, records) && i < |records|
    ensures rank(h(records[if i + 1 < |records| then i + 1 else 0])) < rank(h(records[0]))
  {
    assert records[i].prev == Some(h(records[if i + 1 < |records| then i + 1 else 0]));
    if i > 0 {
      RanksFall(h, rank, records, i - 1);
    }
  }

  lemma RankedHasNoCycle<D(!new)>(h: Record<D> -> D, rank: D -> nat, records: seq<Record<D>>)
    requires Ranked(h, rank)
    ensures !HashCycle(h, records)
  {
    if HashCycle(h, records) {
      RanksFall(h, rank, records, |records| - 1);
    }
  }

  lemma CircleIsStored<D(!new)>(rows: set<EventRow<D>>, t: string, c: seq<EventRow<D>>)
    requires LinkCycle(c, TenantRows(rows, t))
    ensures Elements(c) <= rows
  {
    forall r | r in Elements(c) ensures r in rows {
      var i :| 0 <= i < |c| && c[i] == r;
      assert c[i] in TenantRows(rows, t);
    }
  }

  /** The free digest: a hash is the record it was taken of. */
  datatype Term = Hashed(record: Record<Term>)

  function Depth(d: Term): nat {
    if d.record.prev.Some? then 1 + Depth(d.record.prev.value) else 0
  }

  /** With a hash that neither collides nor runs in circles the two checks together say exactly that
      every tenant has one linear chain, in one possible order. */
  lemma CleanChecksAreOneChain(rows: set<EventRow<Term>>)
    requires ContentClean(r => Hashed(r), rows)
    ensures CheckAuditConsistency(rows) == CLEAN <==> AllLinear(rows)
    ensures CheckAuditConsistency(rows) == CLEAN ==>
      forall t, c, d :: LinearOrder(c, rows, t) && LinearOrder(d, rows, t) ==> c == d
  {
    var h := (r: Record<Term>) => Hashed(r);
    if CheckAuditConsistency(rows) == CLEAN {
      forall t | t in Tenants(rows) ensures HasLinearOrder(rows, t) {
        var order, circle := CleanChecksMeanOneChain(h, rows, rows, t);
        if LinkCycle(circle, TenantRows(rows, t)) {
          CircleIsStored(rows, t, circle);
          RankedHasNoCycle(h, d => Depth(d), Records(circle));
        }
      }
      forall t, c, d | LinearOrder(c, rows, t) && LinearOrder(d, rows, t) ensures c == d {
        LinearOrderUnique(rows, t, c, d);
      }
    } else if AllLinear(rows) {
      OneChainMeansCleanCounts(h, rows);
    }
  }

  // ---------- what neither check sees ----------

  /** Deleting the newest events of a tenant, all but `keep >= 1` of them, leaves every check clean. */
  lemma TruncationGoesUnseen<D(!new)>(h: Record<D> -> D, rows: set<EventRow<D>>, t: string, c: seq<EventRow<D>>,
                                      keep: nat)
    requires CheckAuditConsistency(rows) == CLEAN && ContentClean(h, rows) && LinearOrder(c, rows, t)
    requires 1 <= keep <= |c|
    ensures var left := rows - Elements(c[keep..]);
      CheckAuditConsistency(left) == CLEAN && ContentClean(h, left) && LinearOrder(c[..keep], left, t)
  {
    CountsZeroIffClean(rows);
    var left := rows - Elements(c[keep..]);
    TruncationKeepsPrefix(rows, t, c, keep);
    forall r | r in left && r.record.prev.Some? ensures HasPredecessor(left, r) {
      assert HasPredecessor(rows, r);
      var p :| p in rows && IsPredecessor(p, r);
      if r.record.tenant == t {
        assert r in Elements(c[..keep]);
        var i :| 0 <= i < |c[..keep]| && c[..keep][i] == r;
        assert c[i - 1] == c[..keep][i - 1];
        assert c[i - 1] in Elements(c[..keep]) && IsPredecessor(c[i - 1], r);
      } else {
        assert p !in TenantRows(rows, t);
      }
    }
    forall u | u in Tenants(left) ensures |Genesis(left, u)| == 1 {
      TruncationKeepsGenesis(rows, t, c, keep, u);
    }
    CountsZeroIffClean(left);
  }

  lemma TruncationKeepsPrefix<D(!new)>(rows: set<EventRow<D>>, t: string, c: seq<EventRow<D>>, keep: nat)
    requires LinearOrder(c, rows, t) && keep <= |c|
    ensures LinearOrder(c[..keep], rows - Elements(c[keep..]), t)
  {
    var left := rows - Elements(c[keep..]);
    assert c == c[..keep] + c[keep..];
    forall r | r in Elements(c[..keep]) ensures r in TenantRows(left, t) {
      assert r in Elements(c);
    }
    forall r | r in TenantRows(left, t) ensures r in Elements(c[..keep]) {
      assert r in TenantRows(rows, t);
      assert r in Elements(c);
    }
  }

  lemma TruncationKeepsGenesis<D(!new)>(rows: set<EventRow<D>>, t: string, c: seq<EventRow<D>>, keep: nat, u: string)
    requires StructureClean(rows) && LinearOrder(c, rows, t) && 1 <= keep <= |c|
    requires u in Tenants(rows)
    ensures Genesis(rows - Elements(c[keep..]), u) == Genesis(rows, u)
  {
    forall r | r in Genesis(rows, u) ensures r !in c[keep..] {
      if r in c[keep..] {
        var i :| 0 <= i < |c[keep..]| && c[keep..][i] == r;
        GenesisIsFirst(c, keep + i);
      }
    }
  }
}
