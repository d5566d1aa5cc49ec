/**
 One tenant's two tables and the queries the anchoring code runs on them.

 A table of events is kept as its rows in (created_at, id) order, the order of every query below.
 Times are milliseconds; an id is a number standing for its rank in the text order of ids.
 */
module AnchorTables {
  import opened Bytes
  import opened Options
  import Merkle

  datatype Event = Event(id: int, at: int, hash: Bytes)

  datatype Window = Window(start: int, end: int)

  datatype AnchorStatus = Pending | Confirmed | Reverted

  /** A root together with the tenant it is published for. */
  datatype Pair = Pair(tenant: string, root: Bytes)

  datatype AnchorRow = AnchorRow(
    pair: Pair, eventCount: nat, window: Window,
    tx: Option<Bytes>, block: Option<nat>, status: AnchorStatus, contract: Option<Bytes>)

  /** The row insertAnchor writes. */
  function PendingRow(pair: Pair, eventCount: nat, w: Window): AnchorRow {
    AnchorRow(pair, eventCount, w, None, None, Pending, None)
  }

  datatype TenantLog = TenantLog(tenant: string, events: seq<Event>, anchors: seq<AnchorRow>)

  predicate Contains(w: Window, at: int) { w.start <= at <= w.end }

  predicate Precedes(a: Event, b: Event) { a.at < b.at || (a.at == b.at && a.id < b.id) }

  predicate Sorted(events: seq<Event>) {
    forall i, j :: 0 <= i < j < |events| ==> Precedes(events[i], events[j])
  }

  /** INSERT: the new row takes its place in the order. */
  function Insert(events: seq<Event>, e: Event): (r: seq<Event>)
    ensures |r| == |events| + 1
    ensures forall x :: x in r <==> x in events || x == e
  {
    if events == [] || Precedes(e, events[0]) then [e] + events
    else
      var rest := Insert(events[1..], e);
      assert forall x :: x in events <==> x == events[0] || x in events[1..];
      [events[0]] + rest
  }

  /** listEventsForAnchor: both ends inclusive, oldest first. */
  function ListEvents(events: seq<Event>, w: Window): (r: seq<Event>)
    ensures |r| <= |events|
    ensures forall e :: e in r <==> e in events && Contains(w, e.at)
  {
    if events == [] then []
    else
      assert forall x :: x in events <==> x == events[0] || x in events[1..];
      var rest := ListEvents(events[1..], w);
      if Contains(w, events[0].at) then [events[0]] + rest else rest
  }

  function HashesOf(events: seq<Event>): (r: seq<Bytes>)
    ensures |r| == |events|
  {
    seq(|events|, i requires 0 <= i < |events| => events[i].hash)
  }

  function WindowHashes(events: seq<Event>, w: Window): seq<Bytes> { HashesOf(ListEvents(events, w)) }

  /** MAX(period_end) over the anchors that are not reverted. */
  function CoveredTo(anchors: seq<AnchorRow>): (r: Option<int>)
    ensures r.None? <==> forall a :: a in anchors ==> a.status.Reverted?
    ensures forall a :: a in anchors && !a.status.Reverted? ==> r.Some? && a.window.end <= r.value
    ensures r.Some? ==> exists a :: a in anchors && !a.status.Reverted? && a.window.end == r.value
  {
    if anchors == [] then None
    else
      assert forall x :: x in anchors <==> x == anchors[0] || x in anchors[1..];
      var rest := CoveredTo(anchors[1..]);
      var first := anchors[0];
      if first.status.Reverted? || (rest.Some? && first.window.end <= rest.value) then rest else Some(first.window.end)
  }

  predicate After(at: int, covered: Option<int>) { covered.None? || at > covered.value }

  /** MIN(created_at) over the events past what is covered. */
  function OldestUnanchored(events: seq<Event>, covered: Option<int>): Option<int> {
    if events == [] then None
    else
      var rest := OldestUnanchored(events[1..], covered);
      var first := events[0];
      if !After(first.at, covered) || (rest.Some? && rest.value <= first.at) then rest else Some(first.at)
  }

  lemma {:induction false} OldestIsMinimum(events: seq<Event>, covered: Option<int>)
    ensures var r := OldestUnanchored(events, covered);
      && (r.None? <==> forall e :: e in events ==> !After(e.at, covered))
      && (forall e :: e in events && After(e.at, covered) ==> r.Some? && r.value <= e.at)
      && (r.Some? ==> exists e :: e in events && After(e.at, covered) && e.at == r.value)
  {
    if events != [] {
      OldestIsMinimum(events[1..], covered);
      assert forall x :: x in events <==> x == events[0] || x in events[1..];
    }
  }

  function FindAnchorByRoot(anchors: seq<AnchorRow>, root: Bytes): (r: Option<AnchorRow>)
    ensures r.Some? ==> r.value in anchors && r.value.pair.root == root
    ensures r.None? ==> forall a :: a in anchors ==> a.pair.root != root
  {
    if anchors == [] then None
    else if anchors[0].pair.root == root then Some(anchors[0])
    else
      assert forall x :: x in anchors <==> x == anchors[0] || x in anchors[1..];
      FindAnchorByRoot(anchors[1..], root)
  }

  /** createPendingAnchor: nothing for an empty window, the existing row for a known root, a new
      pending row otherwise. */
  function CreatePendingAnchor(k: Hash, log: TenantLog, w: Window): (TenantLog, Option<AnchorRow>) {
    var hashes := WindowHashes(log.events, w);
    if hashes == [] then (log, None)
    else
      var existing := FindAnchorByRoot(log.anchors, Merkle.Root(k, hashes));
      if existing.Some? then (log, existing)
      else
        var row := PendingRow(Pair(log.tenant, Merkle.Root(k, hashes)), |hashes|, w);
        (log.(anchors := log.anchors + [row]), Some(row))
  }

  /** The window's anchor is recorded: an empty window gets none, a known root keeps its row, and otherwise one
      pending row is added. The answer is that row. */
  predicate Recorded(k: Hash, before: TenantLog, after: TenantLog, w: Window, answer: Option<AnchorRow>) {
    var hashes := WindowHashes(before.events, w);
    if hashes == [] then after == before && answer == None
    else
      var row := AnchorRow(Pair(before.tenant, Merkle.Root(k, hashes)), |hashes|, w, None, None, Pending, None);
      if forall a :: a in before.anchors ==> a.pair.root != row.pair.root
      then after == TenantLog(before.tenant, before.events, before.anchors + [row]) && answer == Some(row)
      else
        after == before && answer.Some? && answer.value in before.anchors && answer.value.pair.root == row.pair.root
  }

  lemma CreatePendingRecords(k: Hash, log: TenantLog, w: Window)
    ensures Recorded(k, log, CreatePendingAnchor(k, log, w).0, w, CreatePendingAnchor(k, log, w).1)
  {
  }

  lemma {:induction false} ListEventsInsertOutside(events: seq<Event>, e: Event, w: Window)
    requires !Contains(w, e.at)
    ensures ListEvents(Insert(events, e), w) == ListEvents(events, w)
  {
    if events == [] || Precedes(e, events[0]) {
      assert ([e] + events)[1..] == events;
    } else {
      var r := Insert(events, e);
      assert r[0] == events[0] && r[1..] == Insert(events[1..], e);
      ListEventsInsertOutside(events[1..], e, w);
    }
  }

  lemma {:induction false} InsertSorted(events: seq<Event>, e: Event)
    requires Sorted(events) && forall x :: x in events ==> x.id != e.id
    ensures Sorted(Insert(events, e))
  {
    if events == [] || Precedes(e, events[0]) {
      var r := [e] + events;
      forall i, j | 0 <= i < j < |r| ensures Precedes(r[i], r[j]) {
        assert r[j] == events[j - 1];
      }
    } else {
      var rest := Insert(events[1..], e);
      assert Sorted(events[1..]);
      InsertSorted(events[1..], e);
      var r := Insert(events, e);
      assert r == [events[0]] + rest;
      forall i, j | 0 <= i < j < |r| ensures Precedes(r[i], r[j]) {
        assert r[j] == rest[j - 1] && rest[j - 1] in rest;
        if i == 0 && r[j] != e {
          assert r[j] in events[1..];
          var m :| 0 <= m < |events[1..]| && events[1..][m] == r[j];
          assert events[m + 1] == r[j];
        }
      }
    }
  }
}
