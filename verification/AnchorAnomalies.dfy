/** What the coverage results leave out: a reverted row that comes back, and an event that comes late. */
module AnchorAnomalies {
  import opened Bytes
  import opened Options
  import opened Merkle
  import opened MerkleTheorems
  import opened AnchorTables
  import opened AnchorWindow
  import opened AnchorCoverage
  import opened AnchorProgress

  // ---------- a reverted row confirmed after its window was anchored again ----------

  function ReturnRun(a: Event, b: Event): seq<Action> {
    [Emit(a), Cycle(a.at)] + ([SetStatus(0, Reverted), Emit(b)] + [Cycle(b.at), SetStatus(0, Confirmed)])
  }

  /** Two live windows end up holding one event: a row is reverted, its event is anchored again together with
      a newer one, and then the row is confirmed after all. */
  lemma TwoLiveWindowsHappen(k: Hash, tenant: string, a: Event, b: Event)
    requires a.id != b.id && a.at < b.at <= a.at + MAX_ANCHOR_WINDOW_MS
    requires AvoidsCount(k, [a.hash], 2) && AvoidsCount(k, [a.hash, b.hash], 1)
    ensures var s := Schedule(TenantLog(tenant, [], []), a.at - 1);
      var t := Run(k, s, ReturnRun(a, b)).log;
      && Good(k, s) && LegalRun(k, s, ReturnRun(a, b))
      && (|| Collision(k, TreeInputs(k, [a.hash]) + TreeInputs(k, [a.hash, b.hash]))
          || (&& (forall r :: r in t.anchors ==> !r.status.Reverted?)
              && !DisjointAndIncreasing(t.anchors) && LiveWindowsAt(t.anchors, a.at) == 2))
  {
    FirstSteps(k, tenant, a, b);
    LastSteps(k, Schedule(TenantLog(tenant, [a, b], [FirstRow(k, tenant, a).(status := Reverted)]), a.at), b.at);
    SecondCycle(k, tenant, a, b);
    BothLive(k, tenant, a, b);
  }

  lemma LastSteps(k: Hash, s: Schedule, now: int)
    requires s.clock <= now && s.log.anchors != []
    ensures var run := [Cycle(now), SetStatus(0, Confirmed)];
      && LegalRun(k, s, run)
      && Run(k, s, run).log.anchors == WithStatus(CycleLog(k, s.log, now).anchors, 0, Confirmed)
  {
    CycleAddsAtMostOneRow(k, s.log, now);
    var t := Step(k, s, Cycle(now));
    TwoSteps(k, s, Cycle(now), t, SetStatus(0, Confirmed), Step(k, t, SetStatus(0, Confirmed)), []);
    assert [Cycle(now), SetStatus(0, Confirmed)] + [] == [Cycle(now), SetStatus(0, Confirmed)];
  }

  /** The run up to the second cycle. */
  lemma FirstSteps(k: Hash, tenant: string, a: Event, b: Event)
    requires a.id != b.id && a.at < b.at
    ensures var s := Schedule(TenantLog(tenant, [], []), a.at - 1);
      var s4 := Schedule(TenantLog(tenant, [a, b], [FirstRow(k, tenant, a).(status := Reverted)]), a.at);
      var rest := [Cycle(b.at), SetStatus(0, Confirmed)];
      && Run(k, s, ReturnRun(a, b)) == Run(k, s4, rest)
      && (LegalRun(k, s4, rest) ==> LegalRun(k, s, ReturnRun(a, b)))
  {
    var rest := [Cycle(b.at), SetStatus(0, Confirmed)];
    AnchoredAlone(k, tenant, a, [SetStatus(0, Reverted), Emit(b)] + rest);
    RevertedAndNewer(k, tenant, a, b, FirstRow(k, tenant, a), rest);
  }

  lemma AnchoredAlone(k: Hash, tenant: string, a: Event, rest: seq<Action>)
    ensures var s := Schedule(TenantLog(tenant, [], []), a.at - 1);
      var t := Schedule(TenantLog(tenant, [a], [FirstRow(k, tenant, a)]), a.at);
      && Run(k, s, [Emit(a), Cycle(a.at)] + rest) == Run(k, t, rest)
      && (LegalRun(k, t, rest) ==> LegalRun(k, s, [Emit(a), Cycle(a.at)] + rest))
  {
    var s := Schedule(TenantLog(tenant, [], []), a.at - 1);
    var t := Schedule(TenantLog(tenant, [a], []), a.at - 1);
    FirstCycleOfOne(k, tenant, a);
    TwoSteps(k, s, Emit(a), t, Cycle(a.at), Schedule(TenantLog(tenant, [a], [FirstRow(k, tenant, a)]), a.at), rest);
  }

  lemma RevertedAndNewer(k: Hash, tenant: string, a: Event, b: Event, row: AnchorRow, rest: seq<Action>)
    requires a.id != b.id && a.at < b.at
    ensures var s := Schedule(TenantLog(tenant, [a], [row]), a.at);
      var t := Schedule(TenantLog(tenant, [a, b], [row.(status := Reverted)]), a.at);
      && Run(k, s, [SetStatus(0, Reverted), Emit(b)] + rest) == Run(k, t, rest)
      && (LegalRun(k, t, rest) ==> LegalRun(k, s, [SetStatus(0, Reverted), Emit(b)] + rest))
  {
    var s := Schedule(TenantLog(tenant, [a], [row]), a.at);
    var t := Schedule(TenantLog(tenant, [a], [row.(status := Reverted)]), a.at);
    assert Step(k, s, SetStatus(0, Reverted)) == t;
    assert Insert([a], b) == [a, b];
    TwoSteps(k, s, SetStatus(0, Reverted), t, Emit(b),
             Schedule(TenantLog(tenant, [a, b], [row.(status := Reverted)]), a.at), rest);
  }

  lemma TwoSteps(k: Hash, s: Schedule, a: Action, t: Schedule, b: Action, u: Schedule, rest: seq<Action>)
    requires Legal(s, a) && t == Step(k, s, a) && Legal(t, b) && u == Step(k, t, b)
    ensures Run(k, s, [a, b] + rest) == Run(k, u, rest)
    ensures LegalRun(k, u, rest) ==> LegalRun(k, s, [a, b] + rest)
  {
    RunFirst(k, t, b, rest);
    RunFirst(k, s, a, [b] + rest);
    assert [a, b] + rest == [a] + ([b] + rest);
  }

  function FirstRow(k: Hash, tenant: string, a: Event): AnchorRow {
    PendingRow(Pair(tenant, Root(k, [a.hash])), 1, Window(a.at, a.at))
  }

  function SecondRow(k: Hash, tenant: string, a: Event, b: Event): AnchorRow {
    PendingRow(Pair(tenant, Root(k, [a.hash, b.hash])), 2, Window(a.at, b.at))
  }

  lemma BothListed(a: Event, b: Event)
    requires a.at < b.at
    ensures WindowHashes([a, b], Window(a.at, b.at)) == [a.hash, b.hash]
    ensures OldestUnanchored([a, b], None) == Some(a.at)
  {
    assert [a, b][1..] == [b] && [b][1..] == [];
    assert ListEvents([b], Window(a.at, b.at)) == [b] && ListEvents([a, b], Window(a.at, b.at)) == [a, b];
    OldestOfCons(b, [], None);
    OldestOfCons(a, [b], None);
    assert [b] + [] == [b] && [a] + [b] == [a, b];
  }

  lemma SecondCycle(k: Hash, tenant: string, a: Event, b: Event)
    requires a.at < b.at <= a.at + MAX_ANCHOR_WINDOW_MS
    requires AvoidsCount(k, [a.hash], 2) && AvoidsCount(k, [a.hash, b.hash], 1)
    ensures var reverted := FirstRow(k, tenant, a).(status := Reverted);
      var log := TenantLog(tenant, [a, b], [reverted]);
      || Collision(k, TreeInputs(k, [a.hash]) + TreeInputs(k, [a.hash, b.hash]))
      || CycleLog(k, log, b.at) == log.(anchors := [reverted, SecondRow(k, tenant, a, b)])
  {
    var reverted := FirstRow(k, tenant, a).(status := Reverted);
    var log := TenantLog(tenant, [a, b], [reverted]);
    BothListed(a, b);
    assert CoveredTo([reverted]) == None;
    assert BacklogWindow(log, b.at) == Some(Window(a.at, b.at));
    if Root(k, [a.hash]) == Root(k, [a.hash, b.hash]) {
      RootBindsCountAndSet(k, [a.hash], [a.hash, b.hash]);
    } else {
      assert FindAnchorByRoot([reverted], Root(k, [a.hash, b.hash])) == None;
      assert [reverted] + [SecondRow(k, tenant, a, b)] == [reverted, SecondRow(k, tenant, a, b)];
    }
  }

  lemma BothLive(k: Hash, tenant: string, a: Event, b: Event)
    requires a.at < b.at
    ensures var first, second := FirstRow(k, tenant, a), SecondRow(k, tenant, a, b);
      var after := WithStatus([first.(status := Reverted), second], 0, Confirmed);
      && (forall r :: r in after ==> !r.status.Reverted?)
      && !DisjointAndIncreasing(after) && LiveWindowsAt(after, a.at) == 2
  {
    var first, second := FirstRow(k, tenant, a).(status := Confirmed), SecondRow(k, tenant, a, b);
    var after := WithStatus([first.(status := Reverted), second], 0, Confirmed);
    assert after == [first, second];
    assert after[0].window.end >= after[1].window.start;
    assert [first, second][..1] == [first] && [first][..0] == [];
    assert LiveWindowsAt([first], a.at) == 1;
  }

  // ---------- an event stamped at or before what is covered ----------

  lemma {:induction false} ListEventsInsertInside(events: seq<Event>, e: Event, w: Window)
    requires Contains(w, e.at)
    ensures |ListEvents(Insert(events, e), w)| == |ListEvents(events, w)| + 1
  {
    if events == [] || Precedes(e, events[0]) {
      assert ([e] + events)[1..] == events;
    } else {
      var r := Insert(events, e);
      assert r[0] == events[0] && r[1..] == Insert(events[1..], e);
      ListEventsInsertInside(events[1..], e, w);
    }
  }

  /** If it falls into a row's window, the window no longer gives the row's root, or a collision is shown. */
  lemma LateEventChangesRoot(k: Hash, events: seq<Event>, e: Event, row: AnchorRow)
    requires RowIntact(k, events, row) && Contains(row.window, e.at)
    requires NoCountLeaf(k, Insert(events, e)) && |events| + 1 < COUNT_LIMIT
    ensures var before, now := WindowHashes(events, row.window), WindowHashes(Insert(events, e), row.window);
      Root(k, now) != row.pair.root || Collision(k, TreeInputs(k, before) + TreeInputs(k, now))
  {
    var before, now := WindowHashes(events, row.window), WindowHashes(Insert(events, e), row.window);
    ListEventsInsertInside(events, e, row.window);
    WindowAvoidsCount(k, events, row.window, |now|);
    WindowAvoidsCount(k, Insert(events, e), row.window, |before|);
    if Root(k, now) == row.pair.root {
      RootBindsCountAndSet(k, before, now);
    }
  }

  /** The event is past nothing that is still to be anchored, and no row's window holds it. */
  ghost predicate Missed(log: TenantLog, at: int) {
    !After(at, CoveredTo(log.anchors)) && !InSomeWindow(log.anchors, at)
  }

  lemma CycleMisses(k: Hash, log: TenantLog, now: int, at: int)
    requires Missed(log, at)
    ensures Missed(CycleLog(k, log, now), at)
  {
    var next := CycleLog(k, log, now);
    CycleAddsAtMostOneRow(k, log, now);
    if next.anchors != log.anchors {
      var row := next.anchors[|log.anchors|];
      BacklogWindowFacts(log, now);
      var a :| a in log.anchors && !a.status.Reverted? && a.window.end == CoveredTo(log.anchors).value;
      assert a in next.anchors;
      forall i | 0 <= i < |next.anchors| ensures !Contains(next.anchors[i].window, at) {
        assert i < |log.anchors| ==> next.anchors[i] == log.anchors[i];
      }
    }
  }

  /** If it falls between the windows, no run of events, cycles and status changes that take nothing back ever
      anchors it. */
  lemma {:induction false} LateEventNeverAnchored(k: Hash, s: Schedule, actions: seq<Action>, at: int)
    requires Missed(s.log, at) && TakesNothingBack(k, s, actions)
    ensures Missed(Run(k, s, actions).log, at)
    decreases |actions|
  {
    if actions != [] {
      var t := Step(k, s, actions[0]);
      match actions[0] {
        case Emit(_) =>
        case Cycle(now) => CycleMisses(k, s.log, now, at);
        case SetStatus(i, st) =>
          forall j | 0 <= j < |t.log.anchors| ensures !Contains(t.log.anchors[j].window, at) {
            assert t.log.anchors[j].window == s.log.anchors[j].window;
          }
      }
      LateEventNeverAnchored(k, t, actions[1..], at);
    }
  }
}
