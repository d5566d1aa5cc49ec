/**
 Serial runs of one tenant's anchoring: events are emitted, cycles derive and record windows, and
 the publishing side later changes a row's status. What every such run keeps, and how fast it
 catches up.
 */
module AnchorCoverage {
  import opened Bytes
  import opened Merkle
  import opened Options
  import opened AnchorTables
  import opened AnchorWindow

  /** `clock` is the time of the latest cycle: events emitted from now on are stamped after it. */
  datatype Schedule = Schedule(log: TenantLog, clock: int)

  datatype Action =
    | Emit(event: Event)
    | Cycle(now: int)
    | SetStatus(index: nat, status: AnchorStatus)

  // ---------- one step ----------

  function BacklogWindow(log: TenantLog, now: int): Option<Window> {
    var covered := CoveredTo(log.anchors);
    var oldest := OldestUnanchored(log.events, covered);
    if oldest.None? then None else Some(NextAnchorWindow(covered, oldest.value, now, MAX_ANCHOR_WINDOW_MS))
  }

  /** The scheduled cycle's part for one tenant: nothing without a backlog. */
  function CycleLog(k: Hash, log: TenantLog, now: int): TenantLog {
    var w := BacklogWindow(log, now);
    if w.None? then log else CreatePendingAnchor(k, log, w.value).0
  }

  /** The on-demand route derives the window even without a backlog. */
  function OnDemand(k: Hash, log: TenantLog, now: int): (TenantLog, Option<AnchorRow>) {
    var covered := CoveredTo(log.anchors);
    var oldest := OldestUnanchored(log.events, covered);
    var w := NextAnchorWindow(covered, if oldest.Some? then oldest.value else now, now, MAX_ANCHOR_WINDOW_MS);
    CreatePendingAnchor(k, log, w)
  }

  predicate Legal(s: Schedule, a: Action) {
    match a
    case Emit(e) => s.clock < e.at && forall x :: x in s.log.events ==> x.id != e.id
    case Cycle(now) => s.clock <= now
    case SetStatus(i, st) => i < |s.log.anchors| && st != Pending
  }

  function Step(k: Hash, s: Schedule, a: Action): Schedule {
    match a
    case Emit(e) => s.(log := s.log.(events := Insert(s.log.events, e)))
    case Cycle(now) => Schedule(CycleLog(k, s.log, now), now)
    case SetStatus(i, st) => s.(log := s.log.(anchors := WithStatus(s.log.anchors, i, st)))
  }

  /** UPDATE ... SET onchain_status WHERE id: nothing when there is no such row. */
  function WithStatus(anchors: seq<AnchorRow>, i: nat, st: AnchorStatus): seq<AnchorRow> {
    if i < |anchors| then anchors[i := anchors[i].(status := st)] else anchors
  }

  predicate LegalRun(k: Hash, s: Schedule, actions: seq<Action>)
    decreases |actions|
  {
    actions != [] ==> Legal(s, actions[0]) && LegalRun(k, Step(k, s, actions[0]), actions[1..])
  }

  function Run(k: Hash, s: Schedule, actions: seq<Action>): Schedule
    decreases |actions|
  {
    if actions == [] then s else Run(k, Step(k, s, actions[0]), actions[1..])
  }

  lemma RunFirst(k: Hash, s: Schedule, a: Action, rest: seq<Action>)
    ensures Run(k, s, [a] + rest) == Run(k, Step(k, s, a), rest)
    ensures LegalRun(k, s, [a] + rest) <==> Legal(s, a) && LegalRun(k, Step(k, s, a), rest)
  {
    assert ([a] + rest)[1..] == rest;
  }

  // ---------- what every run keeps ----------

  /** The row still describes the events that are in its window now. */
  predicate RowIntact(k: Hash, events: seq<Event>, a: AnchorRow) {
    var hashes := WindowHashes(events, a.window);
    hashes != [] && a.pair.root == Root(k, hashes) && a.eventCount == |hashes|
  }

  ghost predicate DisjointAndIncreasing(anchors: seq<AnchorRow>) {
    forall i, j :: 0 <= i < j < |anchors| && !anchors[i].status.Reverted? && !anchors[j].status.Reverted? ==>
      anchors[i].window.end < anchors[j].window.start
  }

  ghost predicate InSomeWindow(anchors: seq<AnchorRow>, at: int) {
    exists i :: 0 <= i < |anchors| && Contains(anchors[i].window, at)
  }

  ghost predicate DistinctIds(events: seq<Event>) {
    forall i, j :: 0 <= i < j < |events| ==> events[i].id != events[j].id
  }

  ghost predicate GoodEvents(events: seq<Event>) {
    Sorted(events) && DistinctIds(events)
  }

  ghost predicate GoodRows(k: Hash, events: seq<Event>, anchors: seq<AnchorRow>, clock: int) {
    forall i :: 0 <= i < |anchors| ==> RowIntact(k, events, anchors[i]) && anchors[i].window.end <= clock
  }

  /** Every event up to the end of any window, a reverted row's included, lies in some window. */
  ghost predicate GoodCoverage(log: TenantLog) {
    forall e, a :: e in log.events && a in log.anchors && e.at <= a.window.end ==> InSomeWindow(log.anchors, e.at)
  }

  ghost predicate Good(k: Hash, s: Schedule) {
    && GoodEvents(s.log.events)
    && GoodRows(k, s.log.events, s.log.anchors, s.clock)
    && GoodCoverage(s.log)
  }

  lemma EmitKeepsGood(k: Hash, s: Schedule, e: Event)
    requires Good(k, s) && Legal(s, Emit(e))
    ensures Good(k, Step(k, s, Emit(e)))
  {
    var t := Step(k, s, Emit(e));
    InsertSorted(s.log.events, e);
    InsertDistinct(s.log.events, e);
    forall i | 0 <= i < |t.log.anchors| ensures RowIntact(k, t.log.events, t.log.anchors[i]) {
      assert RowIntact(k, s.log.events, s.log.anchors[i]);
      ListEventsInsertOutside(s.log.events, e, s.log.anchors[i].window);
    }
    EmitKeepsCoverage(k, s, e);
  }

  lemma EmitKeepsCoverage(k: Hash, s: Schedule, e: Event)
    requires Good(k, s) && Legal(s, Emit(e))
    ensures GoodCoverage(Step(k, s, Emit(e)).log)
  {
    forall a | a in s.log.anchors ensures a.window.end < e.at {
      var i :| 0 <= i < |s.log.anchors| && s.log.anchors[i] == a;
    }
  }

  lemma {:induction false} InsertDistinct(events: seq<Event>, e: Event)
    requires DistinctIds(events) && forall x :: x in events ==> x.id != e.id
    ensures DistinctIds(Insert(events, e))
  {
    if events == [] || Precedes(e, events[0]) {
      var r := [e] + events;
      forall i, j | 0 <= i < j < |r| ensures r[i].id != r[j].id {
        assert r[j] == events[j - 1];
      }
    } else {
      var rest := Insert(events[1..], e);
      assert DistinctIds(events[1..]);
      InsertDistinct(events[1..], e);
      var r := Insert(events, e);
      assert r == [events[0]] + rest;
      forall i, j | 0 <= i < j < |r| ensures r[i].id != r[j].id {
        assert r[j] == rest[j - 1] && rest[j - 1] in rest;
        if i == 0 && r[j] != e {
          assert r[j] in events[1..];
          var m :| 0 <= m < |events[1..]| && events[1..][m] == r[j];
          assert events[m + 1] == r[j];
        }
      }
    }
  }

  lemma SetStatusKeepsCoverage(log: TenantLog, i: nat, st: AnchorStatus)
    requires GoodCoverage(log) && i < |log.anchors|
    ensures GoodCoverage(log.(anchors := WithStatus(log.anchors, i, st)))
  {
    var after := WithStatus(log.anchors, i, st);
    forall e, a | e in log.events && a in after && e.at <= a.window.end ensures InSomeWindow(after, e.at) {
      var j :| 0 <= j < |after| && after[j] == a;
      assert log.anchors[j] in log.anchors;
      var m :| 0 <= m < |log.anchors| && Contains(log.anchors[m].window, e.at);
      assert Contains(after[m].window, e.at);
    }
  }

  lemma SetStatusKeepsGood(k: Hash, s: Schedule, i: nat, st: AnchorStatus)
    requires Good(k, s) && Legal(s, SetStatus(i, st))
    ensures Good(k, Step(k, s, SetStatus(i, st)))
  {
    SetStatusKeepsCoverage(s.log, i, st);
    var after := Step(k, s, SetStatus(i, st)).log.anchors;
    forall j | 0 <= j < |after| ensures RowIntact(k, s.log.events, after[j]) && after[j].window.end <= s.clock {
      assert RowIntact(k, s.log.events, s.log.anchors[j]);
    }
  }

  /** Looking at one window's events only: the one new row a cycle can add. */
  lemma CycleAddsAtMostOneRow(k: Hash, log: TenantLog, now: int)
    ensures var w, next := BacklogWindow(log, now), CycleLog(k, log, now);
      && next.events == log.events
      && (next.anchors == log.anchors || (
        && w.Some?
        && next.anchors == log.anchors + [next.anchors[|log.anchors|]]
        && var row := next.anchors[|log.anchors|];
        && row == PendingRow(row.pair, |WindowHashes(log.events, w.value)|, w.value) && row.pair.tenant == log.tenant
        && RowIntact(k, log.events, row)))
  {
  }

  lemma BacklogWindowFacts(log: TenantLog, now: int)
    requires BacklogWindow(log, now).Some?
    ensures var w, covered := BacklogWindow(log, now).value, CoveredTo(log.anchors);
      && w.end <= now && After(w.start, covered)
      && forall e :: e in log.events && After(e.at, covered) && e.at <= w.end ==> Contains(w, e.at)
  {
    var oldest := OldestUnanchored(log.events, CoveredTo(log.anchors)).value;
    OldestIsMinimum(log.events, CoveredTo(log.anchors));
    forall e | e in log.events && After(e.at, CoveredTo(log.anchors)) && e.at <= BacklogWindow(log, now).value.end
      ensures Contains(BacklogWindow(log, now).value, e.at)
    {
      WindowStartsAtBacklog(CoveredTo(log.anchors), oldest, now, MAX_ANCHOR_WINDOW_MS, e.at);
    }
  }

  lemma CoveredToAppend(anchors: seq<AnchorRow>, row: AnchorRow)
    requires !row.status.Reverted? && After(row.window.end, CoveredTo(anchors))
    ensures CoveredTo(anchors + [row]) == Some(row.window.end)
  {
    var more := anchors + [row];
    assert row in more;
    var a :| a in more && !a.status.Reverted? && a.window.end == CoveredTo(more).value;
    assert a == row || a in anchors;
  }

  lemma AppendKeepsDisjoint(anchors: seq<AnchorRow>, row: AnchorRow)
    requires DisjointAndIncreasing(anchors) && After(row.window.start, CoveredTo(anchors))
    ensures DisjointAndIncreasing(anchors + [row])
  {
    var after := anchors + [row];
    forall i, j | 0 <= i < j < |after| && !after[i].status.Reverted? && !after[j].status.Reverted?
      ensures after[i].window.end < after[j].window.start
    {
      assert after[i] == anchors[i] && anchors[i] in anchors;
    }
  }

  lemma InSomeWindowAppend(anchors: seq<AnchorRow>, row: AnchorRow, at: int)
    requires InSomeWindow(anchors, at) || Contains(row.window, at)
    ensures InSomeWindow(anchors + [row], at)
  {
    var after := anchors + [row];
    if InSomeWindow(anchors, at) {
      var i :| 0 <= i < |anchors| && Contains(anchors[i].window, at);
      assert Contains(after[i].window, at);
    } else {
      assert Contains(after[|anchors|].window, at);
    }
  }

  /** Appending a row for a window past what is covered that holds every event up to its end. */
  lemma AppendKeepsCoverage(log: TenantLog, row: AnchorRow)
    requires GoodCoverage(log)
    requires forall e :: e in log.events && After(e.at, CoveredTo(log.anchors)) && e.at <= row.window.end ==>
      Contains(row.window, e.at)
    ensures GoodCoverage(log.(anchors := log.anchors + [row]))
  {
    var after := log.anchors + [row];
    forall e, a | e in log.events && a in after && e.at <= a.window.end ensures InSomeWindow(after, e.at) {
      if a in log.anchors {
        assert InSomeWindow(log.anchors, e.at);
      } else if !After(e.at, CoveredTo(log.anchors)) {
        var b :| b in log.anchors && !b.status.Reverted? && b.window.end == CoveredTo(log.anchors).value;
        assert InSomeWindow(log.anchors, e.at);
      }
      InSomeWindowAppend(log.anchors, row, e.at);
    }
  }

  lemma AppendKeepsRows(k: Hash, events: seq<Event>, anchors: seq<AnchorRow>, row: AnchorRow, clock: int, now: int)
    requires GoodRows(k, events, anchors, clock) && clock <= now
    requires RowIntact(k, events, row) && row.window.end <= now
    ensures GoodRows(k, events, anchors + [row], now)
  {
    var after := anchors + [row];
    forall i | 0 <= i < |after| ensures RowIntact(k, events, after[i]) && after[i].window.end <= now {
      assert after[i] == if i < |anchors| then anchors[i] else row;
    }
  }

  lemma CycleKeepsGood(k: Hash, s: Schedule, now: int)
    requires Good(k, s) && Legal(s, Cycle(now))
    ensures Good(k, Step(k, s, Cycle(now)))
  {
    CycleAddsAtMostOneRow(k, s.log, now);
    if CycleLog(k, s.log, now).anchors != s.log.anchors {
      var row := CycleLog(k, s.log, now).anchors[|s.log.anchors|];
      NewRowKeepsGood(k, s, now, row);
      assert Step(k, s, Cycle(now)).log == s.log.(anchors := s.log.anchors + [row]);
    }
  }

  lemma NewRowKeepsGood(k: Hash, s: Schedule, now: int, row: AnchorRow)
    requires Good(k, s) && s.clock <= now
    requires !row.status.Reverted? && RowIntact(k, s.log.events, row)
    requires BacklogWindow(s.log, now) == Some(row.window)
    ensures Good(k, Schedule(s.log.(anchors := s.log.anchors + [row]), now))
  {
    BacklogWindowFacts(s.log, now);
    AppendKeepsCoverage(s.log, row);
    AppendKeepsRows(k, s.log.events, s.log.anchors, row, s.clock, now);
  }

  lemma StepKeepsGood(k: Hash, s: Schedule, a: Action)
    requires Good(k, s) && Legal(s, a)
    ensures Good(k, Step(k, s, a))
  {
    match a
    case Emit(e) => EmitKeepsGood(k, s, e);
    case Cycle(now) => CycleKeepsGood(k, s, now);
    case SetStatus(i, st) => SetStatusKeepsGood(k, s, i, st);
  }

  lemma {:induction false} RunKeepsGood(k: Hash, s: Schedule, actions: seq<Action>)
    requires Good(k, s) && LegalRun(k, s, actions)
    ensures Good(k, Run(k, s, actions))
    decreases |actions|
  {
    if actions != [] {
      StepKeepsGood(k, s, actions[0]);
      RunKeepsGood(k, Step(k, s, actions[0]), actions[1..]);
    }
  }

  // ---------- coverage ----------

  /** The number of rows that are not reverted and whose window holds `at`. */
  function LiveWindowsAt(anchors: seq<AnchorRow>, at: int): nat {
    if anchors == [] then 0
    else
      LiveWindowsAt(anchors[..|anchors| - 1], at)
      + if !anchors[|anchors| - 1].status.Reverted? && Contains(anchors[|anchors| - 1].window, at) then 1 else 0
  }

  lemma {:induction false} LiveWindowsAtMostOne(anchors: seq<AnchorRow>, at: int)
    requires DisjointAndIncreasing(anchors)
    ensures LiveWindowsAt(anchors, at) <= 1
    ensures (exists i :: 0 <= i < |anchors| && !anchors[i].status.Reverted? && Contains(anchors[i].window, at))
        <==> LiveWindowsAt(anchors, at) == 1
  {
    if anchors != [] {
      var n := |anchors| - 1;
      var init := anchors[..n];
      LiveWindowsAtMostOne(init, at);
      if !anchors[n].status.Reverted? && Contains(anchors[n].window, at) {
        forall i | 0 <= i < n ensures !(!init[i].status.Reverted? && Contains(init[i].window, at)) {
          assert init[i] == anchors[i];
        }
      } else {
        if LiveWindowsAt(init, at) == 1 {
          var i :| 0 <= i < |init| && !init[i].status.Reverted? && Contains(init[i].window, at);
          assert anchors[i] == init[i];
        }
        forall i | 0 <= i < |anchors| && !anchors[i].status.Reverted? && Contains(anchors[i].window, at)
          ensures LiveWindowsAt(init, at) == 1
        {
          assert init[i] == anchors[i];
        }
      }
    }
  }

  // ---------- when live windows stay disjoint ----------

  /** The row's window ends before every later live window starts and starts after every earlier one ends. */
  predicate Fits(anchors: seq<AnchorRow>, i: nat)
    requires i < |anchors|
  {
    forall j :: 0 <= j < |anchors| && !anchors[j].status.Reverted? ==>
      && (j < i ==> anchors[j].window.end < anchors[i].window.start)
      && (i < j ==> anchors[i].window.end < anchors[j].window.start)
  }

  /** A step that makes a reverted row live again, as the unguarded write of a transaction hash can, does so
      where the row still fits. */
  predicate StepFits(s: Schedule, a: Action) {
    match a
    case SetStatus(i, st) =>
      i < |s.log.anchors| && s.log.anchors[i].status.Reverted? && !st.Reverted? ==> Fits(s.log.anchors, i)
    case _ => true
  }

  predicate RunFits(k: Hash, s: Schedule, actions: seq<Action>)
    decreases |actions|
  {
    actions != [] ==> StepFits(s, actions[0]) && RunFits(k, Step(k, s, actions[0]), actions[1..])
  }

  /** Live windows are disjoint and increasing before the run and after each of its steps. */
  ghost predicate DisjointAlong(k: Hash, s: Schedule, actions: seq<Action>)
    decreases |actions|
  {
    && DisjointAndIncreasing(s.log.anchors)
    && (actions != [] ==> DisjointAlong(k, Step(k, s, actions[0]), actions[1..]))
  }

  lemma StatusKeepsDisjointIff(anchors: seq<AnchorRow>, i: nat, st: AnchorStatus)
    requires DisjointAndIncreasing(anchors) && i < |anchors|
    ensures var after := WithStatus(anchors, i, st);
      DisjointAndIncreasing(after) <==> anchors[i].status.Reverted? && !st.Reverted? ==> Fits(anchors, i)
  {
    var after := WithStatus(anchors, i, st);
    if anchors[i].status.Reverted? && !st.Reverted? && DisjointAndIncreasing(after) {
      forall j | 0 <= j < |anchors| && !anchors[j].status.Reverted?
        ensures j < i ==> anchors[j].window.end < anchors[i].window.start
        ensures i < j ==> anchors[i].window.end < anchors[j].window.start
      {
        assert j != i ==> after[j] == anchors[j];
        assert after[i].window == anchors[i].window && !after[i].status.Reverted?;
      }
    }
  }

  lemma CycleKeepsDisjoint(k: Hash, log: TenantLog, now: int)
    requires DisjointAndIncreasing(log.anchors)
    ensures DisjointAndIncreasing(CycleLog(k, log, now).anchors)
  {
    CycleAddsAtMostOneRow(k, log, now);
    var next := CycleLog(k, log, now);
    if next.anchors != log.anchors {
      BacklogWindowFacts(log, now);
      AppendKeepsDisjoint(log.anchors, next.anchors[|log.anchors|]);
    }
  }

  /** Live windows stay disjoint and increasing all along a run exactly if every reverted row that becomes
      live again does so where it fits. */
  lemma {:induction false} DisjointAlongIff(k: Hash, s: Schedule, actions: seq<Action>)
    requires LegalRun(k, s, actions) && DisjointAndIncreasing(s.log.anchors)
    ensures DisjointAlong(k, s, actions) <==> RunFits(k, s, actions)
    decreases |actions|
  {
    if actions != [] {
      var a, t := actions[0], Step(k, s, actions[0]);
      match a {
        case Emit(_) =>
        case Cycle(now) => CycleKeepsDisjoint(k, s.log, now);
        case SetStatus(i, st) => StatusKeepsDisjointIff(s.log.anchors, i, st);
      }
      if DisjointAndIncreasing(t.log.anchors) {
        DisjointAlongIff(k, t, actions[1..]);
      }
    }
  }

  lemma {:induction false} DisjointAtEnd(k: Hash, s: Schedule, actions: seq<Action>)
    requires DisjointAlong(k, s, actions)
    ensures DisjointAndIncreasing(Run(k, s, actions).log.anchors)
    decreases |actions|
  {
    if actions != [] {
      DisjointAtEnd(k, Step(k, s, actions[0]), actions[1..]);
    }
  }

  /** After any run from an empty anchor table an event up to what is covered lies in some row's window. If no
      reverted row became live again where it does not fit, live windows are disjoint and increasing, the
      event lies in at most one of them, and in exactly one when no row is reverted. */
  lemma EveryCoveredEventInOneWindow(k: Hash, s: Schedule, actions: seq<Action>, e: Event)
    requires s.log.anchors == [] && GoodEvents(s.log.events)
    requires LegalRun(k, s, actions)
    requires var t := Run(k, s, actions).log; e in t.events && !After(e.at, CoveredTo(t.anchors))
    ensures var t := Run(k, s, actions).log;
      && InSomeWindow(t.anchors, e.at)
      && (RunFits(k, s, actions) ==>
            && DisjointAndIncreasing(t.anchors)
            && LiveWindowsAt(t.anchors, e.at) <= 1
            && ((forall a :: a in t.anchors ==> !a.status.Reverted?) ==> LiveWindowsAt(t.anchors, e.at) == 1))
  {
    RunKeepsGood(k, s, actions);
    var t := Run(k, s, actions).log;
    var b :| b in t.anchors && !b.status.Reverted? && b.window.end == CoveredTo(t.anchors).value;
    if RunFits(k, s, actions) {
      DisjointAlongIff(k, s, actions);
      DisjointAtEnd(k, s, actions);
      LiveWindowsAtMostOne(t.anchors, e.at);
      if forall a :: a in t.anchors ==> !a.status.Reverted? {
        var i :| 0 <= i < |t.anchors| && Contains(t.anchors[i].window, e.at);
        assert t.anchors[i] in t.anchors;
      }
    }
  }
}
