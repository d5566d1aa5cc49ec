/**
 When cycles make progress: a new window never lands on a live row's root, so a cycle with a backlog moves
 the covered time forward unless it meets a reverted row. Without such meetings a backlog is closed within a
 fixed number of cycles; a meeting in a window that can no longer change stops the tenant for good.
 */
module AnchorProgress {
  import opened Bytes
  import opened Merkle
  import opened MerkleTheorems
  import opened Options
  import opened Sequences
  import opened AnchorTables
  import opened AnchorWindow
  import opened AnchorCoverage

  /** Event hashes are never count leaves. */
  ghost predicate NoCountLeaf(k: Hash, events: seq<Event>) {
    forall e, n: nat :: e in events && n < COUNT_LIMIT ==> e.hash != CountLeaf(k, n)
  }

  /** What binding the hashes of windows by their roots needs of the events. */
  ghost predicate GoodHashes(k: Hash, events: seq<Event>) {
    && NoCountLeaf(k, events) && |events| < COUNT_LIMIT
    && forall a, b :: a in events && b in events && a.hash == b.hash ==> a == b
  }

  /** The byte strings hashed for one cycle: its own tree, and the tree behind the row it met. */
  function CycleInputs(k: Hash, log: TenantLog, now: int): set<Bytes> {
    var w := BacklogWindow(log, now);
    if w.None? then {}
    else
      var hashes := WindowHashes(log.events, w.value);
      var existing := FindAnchorByRoot(log.anchors, Root(k, hashes));
      TreeInputs(k, hashes)
      + if existing.Some? then TreeInputs(k, WindowHashes(log.events, existing.value.window)) else {}
  }

  function RunInputs(k: Hash, s: Schedule, actions: seq<Action>): set<Bytes>
    decreases |actions|
  {
    if actions == [] then {}
    else
      (if actions[0].Cycle? then CycleInputs(k, s.log, actions[0].now) else {})
      + RunInputs(k, Step(k, s, actions[0]), actions[1..])
  }

  lemma WindowAvoidsCount(k: Hash, events: seq<Event>, w: Window, n: nat)
    requires NoCountLeaf(k, events) && n < COUNT_LIMIT
    ensures AvoidsCount(k, WindowHashes(events, w), n)
  {
    var listed := ListEvents(events, w);
    forall i | 0 <= i < |listed| ensures HashesOf(listed)[i] != CountLeaf(k, n) {
      assert listed[i] in listed;
    }
  }

  /** Windows without a common time share no event, so hash sets of distinct events differ. */
  lemma DisjointWindowsDifferentHashes(k: Hash, events: seq<Event>, w: Window, v: Window)
    requires GoodHashes(k, events) && v.end < w.start
    requires WindowHashes(events, w) != []
    ensures Elements(WindowHashes(events, w)) != Elements(WindowHashes(events, v))
  {
    var mine, others := ListEvents(events, w), ListEvents(events, v);
    var e := mine[0];
    assert e in mine;
    assert HashesOf(mine)[0] == e.hash && e.hash in Elements(HashesOf(mine));
    forall j | 0 <= j < |others| ensures HashesOf(others)[j] != e.hash {
      assert others[j] in others;
    }
  }

  /** The existing row that createPendingAnchor can meet in a serial run is a reverted one. */
  lemma MetRowIsReverted(k: Hash, s: Schedule, now: int, a: AnchorRow)
    requires Good(k, s) && GoodHashes(k, s.log.events)
    requires BacklogWindow(s.log, now).Some?
    requires var hashes := WindowHashes(s.log.events, BacklogWindow(s.log, now).value);
      hashes != [] && FindAnchorByRoot(s.log.anchors, Root(k, hashes)) == Some(a)
    ensures a.status.Reverted? || Collision(k, CycleInputs(k, s.log, now))
  {
    if !a.status.Reverted? {
      var events, w := s.log.events, BacklogWindow(s.log, now).value;
      assert RowIntact(k, events, a);
      BacklogWindowFacts(s.log, now);
      assert a.window.end < w.start;
      DisjointWindowsDifferentHashes(k, events, w, a.window);
      SameRootSameHashes(k, events, w, a.window);
    }
  }

  lemma SameRootSameHashes(k: Hash, events: seq<Event>, w: Window, v: Window)
    requires NoCountLeaf(k, events) && |events| < COUNT_LIMIT
    requires WindowHashes(events, w) != [] && WindowHashes(events, v) != []
    requires Root(k, WindowHashes(events, w)) == Root(k, WindowHashes(events, v))
    ensures Elements(WindowHashes(events, w)) == Elements(WindowHashes(events, v))
         || Collision(k, TreeInputs(k, WindowHashes(events, w)) + TreeInputs(k, WindowHashes(events, v)))
  {
    WindowAvoidsCount(k, events, w, |WindowHashes(events, v)|);
    WindowAvoidsCount(k, events, v, |WindowHashes(events, w)|);
    RootBindsCountAndSet(k, WindowHashes(events, w), WindowHashes(events, v));
  }

  // ---------- one cycle ----------

  /** The root of the window a cycle at `now` derives, if there is anything in it. */
  function BacklogRoot(k: Hash, log: TenantLog, now: int): Option<Bytes> {
    var w := BacklogWindow(log, now);
    if w.None? || WindowHashes(log.events, w.value) == [] then None
    else Some(Root(k, WindowHashes(log.events, w.value)))
  }

  /** A reverted row carries the root of the window that a cycle at `now` derives. */
  predicate MeetsReverted(k: Hash, log: TenantLog, now: int) {
    exists a :: a in log.anchors && a.status.Reverted? && BacklogRoot(k, log, now) == Some(a.pair.root)
  }

  /** One more row, for a window holding the oldest unanchored event, and everything covered to its end. */
  predicate Advances(log: TenantLog, next: TenantLog, oldest: int, now: int) {
    var end := if now < oldest + MAX_ANCHOR_WINDOW_MS then now else oldest + MAX_ANCHOR_WINDOW_MS;
    && |next.anchors| == |log.anchors| + 1 && Contains(next.anchors[|log.anchors|].window, oldest)
    && CoveredTo(next.anchors) == Some(end) && After(end, CoveredTo(log.anchors))
  }

  /** A cycle with a backlog advances exactly if no reverted row carries its window's root; if one does,
      the cycle changes nothing. */
  lemma CycleAdvances(k: Hash, s: Schedule, now: int)
    requires Good(k, s) && GoodHashes(k, s.log.events)
    requires var o := OldestUnanchored(s.log.events, CoveredTo(s.log.anchors)); o.Some? && o.value <= now
    ensures var o, next := OldestUnanchored(s.log.events, CoveredTo(s.log.anchors)).value, CycleLog(k, s.log, now);
      || Collision(k, CycleInputs(k, s.log, now))
      || (&& (Advances(s.log, next, o, now) <==> !MeetsReverted(k, s.log, now))
          && (MeetsReverted(k, s.log, now) ==> next == s.log))
  {
    BacklogListed(s.log, now);
    var existing := FindAnchorByRoot(s.log.anchors, BacklogRoot(k, s.log, now).value);
    if existing.Some? {
      MetRowIsReverted(k, s, now, existing.value);
      MeetingChangesNothing(k, s.log, now);
    } else {
      NoMeetingAdvances(k, s.log, now);
    }
  }

  lemma MeetingChangesNothing(k: Hash, log: TenantLog, now: int)
    requires BacklogRoot(k, log, now).Some? && FindAnchorByRoot(log.anchors, BacklogRoot(k, log, now).value).Some?
    ensures CycleLog(k, log, now) == log
  {
  }

  lemma OldestIsAfter(events: seq<Event>, covered: Option<int>)
    ensures var o := OldestUnanchored(events, covered); o.Some? ==> After(o.value, covered)
  {
    OldestIsMinimum(events, covered);
  }

  lemma NoMeetingAdvances(k: Hash, log: TenantLog, now: int)
    requires BacklogRoot(k, log, now).Some? && FindAnchorByRoot(log.anchors, BacklogRoot(k, log, now).value).None?
    requires var o := OldestUnanchored(log.events, CoveredTo(log.anchors)); o.Some? && o.value <= now
    ensures !MeetsReverted(k, log, now)
    ensures Advances(log, CycleLog(k, log, now), OldestUnanchored(log.events, CoveredTo(log.anchors)).value, now)
  {
    var covered := CoveredTo(log.anchors);
    var o := OldestUnanchored(log.events, covered).value;
    OldestIsAfter(log.events, covered);
    WindowStartsAtBacklog(covered, o, now, MAX_ANCHOR_WINDOW_MS, o);
    NewRowAdvances(k, log, now);
  }

  lemma NewRowAdvances(k: Hash, log: TenantLog, now: int)
    requires BacklogWindow(log, now).Some?
    requires var w := BacklogWindow(log, now).value;
      && After(w.end, CoveredTo(log.anchors))
      && WindowHashes(log.events, w) != []
      && FindAnchorByRoot(log.anchors, Root(k, WindowHashes(log.events, w))).None?
    ensures var w, next := BacklogWindow(log, now).value, CycleLog(k, log, now);
      && |next.anchors| == |log.anchors| + 1
      && next.anchors[|log.anchors|].window == w
      && CoveredTo(next.anchors) == Some(w.end)
  {
    var w, next := BacklogWindow(log, now).value, CycleLog(k, log, now);
    var row := next.anchors[|log.anchors|];
    assert next.anchors == log.anchors + [row];
    CoveredToAppend(log.anchors, row);
  }

  lemma BacklogListed(log: TenantLog, now: int)
    requires var o := OldestUnanchored(log.events, CoveredTo(log.anchors)); o.Some? && o.value <= now
    ensures BacklogWindow(log, now).Some? && WindowHashes(log.events, BacklogWindow(log, now).value) != []
  {
    OldestIsMinimum(log.events, CoveredTo(log.anchors));
    var covered := CoveredTo(log.anchors);
    var o := OldestUnanchored(log.events, covered).value;
    WindowStartsAtBacklog(covered, o, now, MAX_ANCHOR_WINDOW_MS, o);
    var e :| e in log.events && After(e.at, covered) && e.at == o;
    assert e in ListEvents(log.events, BacklogWindow(log, now).value);
  }

  // ---------- whole runs ----------

  function Cycles(actions: seq<Action>): nat {
    if actions == [] then 0 else (if actions[0].Cycle? then 1 else 0) + Cycles(actions[1..])
  }

  /** Nothing that was covered before is not covered after. */
  predicate NoLess(before: Option<int>, after: Option<int>) {
    before.Some? ==> after.Some? && before.value <= after.value
  }

  /** No status change of the run takes back what is covered. */
  predicate TakesNothingBack(k: Hash, s: Schedule, actions: seq<Action>)
    decreases |actions|
  {
    actions != [] ==>
      var t := Step(k, s, actions[0]);
      && (actions[0].SetStatus? ==> NoLess(CoveredTo(s.log.anchors), CoveredTo(t.log.anchors)))
      && TakesNothingBack(k, t, actions[1..])
  }

  /** No status change of the run moves what is covered. */
  predicate KeepsCovered(k: Hash, s: Schedule, actions: seq<Action>)
    decreases |actions|
  {
    actions != [] ==>
      var t := Step(k, s, actions[0]);
      && (actions[0].SetStatus? ==> CoveredTo(t.log.anchors) == CoveredTo(s.log.anchors))
      && KeepsCovered(k, t, actions[1..])
  }

  /** No cycle of the run meets a reverted row. */
  predicate NeverMeets(k: Hash, s: Schedule, actions: seq<Action>)
    decreases |actions|
  {
    actions != [] ==>
      && (actions[0].Cycle? ==> !MeetsReverted(k, s.log, actions[0].now))
      && NeverMeets(k, Step(k, s, actions[0]), actions[1..])
  }

  /** The number of windows of maximal length, each starting a millisecond after the one before, that
      it takes to reach a time `span` milliseconds after the first one's start. */
  function WindowsToReach(span: nat): nat {
    if span <= MAX_ANCHOR_WINDOW_MS then 1 else 1 + WindowsToReach(span - (MAX_ANCHOR_WINDOW_MS + 1))
  }

  lemma {:induction false} WindowsToReachIsQuotient(span: nat)
    ensures WindowsToReach(span) == span / (MAX_ANCHOR_WINDOW_MS + 1) + 1
  {
    if span > MAX_ANCHOR_WINDOW_MS {
      WindowsToReachIsQuotient(span - (MAX_ANCHOR_WINDOW_MS + 1));
    }
  }

  lemma {:induction false} CloserNeedsNoMore(near: nat, far: nat)
    requires near <= far
    ensures WindowsToReach(near) <= WindowsToReach(far)
  {
    if near > MAX_ANCHOR_WINDOW_MS {
      CloserNeedsNoMore(near - (MAX_ANCHOR_WINDOW_MS + 1), far - (MAX_ANCHOR_WINDOW_MS + 1));
    }
  }

  /** The number of cycles after which every event up to `until` is covered. */
  function CyclesNeeded(log: TenantLog, until: int): nat {
    Needed(OldestUnanchored(log.events, CoveredTo(log.anchors)), until)
  }

  function Needed(oldest: Option<int>, until: int): nat {
    if oldest.None? || oldest.value > until then 0 else WindowsToReach(until - oldest.value)
  }

  lemma NeededDrops(before: int, after: Option<int>, until: int)
    requires after.Some? ==> before + MAX_ANCHOR_WINDOW_MS < after.value || until < after.value
    ensures Needed(after, until) == 0 || Needed(after, until) < Needed(Some(before), until)
  {
    if after.Some? && after.value <= until {
      CloserNeedsNoMore(until - after.value, until - before - (MAX_ANCHOR_WINDOW_MS + 1));
    }
  }

  lemma OldestNeverFallsBack(events: seq<Event>, covered: Option<int>, covered': Option<int>)
    requires NoLess(covered, covered')
    ensures var o, o' := OldestUnanchored(events, covered), OldestUnanchored(events, covered');
      o'.Some? ==> o.Some? && o.value <= o'.value && After(o'.value, covered')
  {
    OldestIsMinimum(events, covered);
    OldestIsMinimum(events, covered');
    var o' := OldestUnanchored(events, covered');
    if o'.Some? {
      var e :| e in events && After(e.at, covered') && e.at == o'.value;
      assert After(e.at, covered);
    }
  }

  lemma CycleKeepsEvents(k: Hash, log: TenantLog, now: int)
    ensures CycleLog(k, log, now).events == log.events
  {
  }

  lemma CycleNeedsOneLess(k: Hash, s: Schedule, now: int, until: int)
    requires Good(k, s) && GoodHashes(k, s.log.events) && !MeetsReverted(k, s.log, now)
    requires until <= s.clock <= now
    ensures Collision(k, CycleInputs(k, s.log, now))
         || CyclesNeeded(CycleLog(k, s.log, now), until) == 0
         || CyclesNeeded(CycleLog(k, s.log, now), until) < CyclesNeeded(s.log, until)
  {
    var next, o := CycleLog(k, s.log, now), OldestUnanchored(s.log.events, CoveredTo(s.log.anchors));
    CycleKeepsEvents(k, s.log, now);
    if o.None? {
      NoBacklogUntouched(k, s.log, now);
    } else if o.value > now {
      FutureBacklogUntouched(k, s.log, now);
    } else if !Collision(k, CycleInputs(k, s.log, now)) {
      CycleAdvances(k, s, now);
      assert Advances(s.log, next, o.value, now);
      FewerWindowsLeft(s.log, next, now, until);
    }
  }

  lemma NoBacklogUntouched(k: Hash, log: TenantLog, now: int)
    requires OldestUnanchored(log.events, CoveredTo(log.anchors)).None?
    ensures CycleLog(k, log, now) == log
  {
  }

  lemma FewerWindowsLeft(log: TenantLog, next: TenantLog, now: int, until: int)
    requires next.events == log.events && until <= now
    requires var o := OldestUnanchored(log.events, CoveredTo(log.anchors)); o.Some? && Advances(log, next, o.value, now)
    ensures CyclesNeeded(next, until) == 0 || CyclesNeeded(next, until) < CyclesNeeded(log, until)
  {
    var covered, covered' := CoveredTo(log.anchors), CoveredTo(next.anchors);
    OldestNeverFallsBack(log.events, covered, covered');
    NeededDrops(OldestUnanchored(log.events, covered).value, OldestUnanchored(log.events, covered'), until);
  }

  lemma {:induction false} NothingListed(events: seq<Event>, w: Window)
    requires forall e :: e in events ==> !Contains(w, e.at)
    ensures ListEvents(events, w) == []
  {
    if events != [] {
      NothingListed(events[1..], w);
    }
  }

  /** When even the oldest unanchored event is stamped after `now`, the window is empty. */
  lemma FutureBacklogUntouched(k: Hash, log: TenantLog, now: int)
    requires var o := OldestUnanchored(log.events, CoveredTo(log.anchors)); o.Some? && o.value > now
    ensures CycleLog(k, log, now) == log
  {
    NothingListed(log.events, BacklogWindow(log, now).value);
  }

  lemma {:induction false} RunKeepsEvents(k: Hash, s: Schedule, actions: seq<Action>)
    requires LegalRun(k, s, actions)
    ensures forall e :: e in s.log.events ==> e in Run(k, s, actions).log.events
    ensures |s.log.events| <= |Run(k, s, actions).log.events|
    decreases |actions|
  {
    if actions != [] {
      CycleAddsAtMostOneRow(k, s.log, if actions[0].Cycle? then actions[0].now else 0);
      RunKeepsEvents(k, Step(k, s, actions[0]), actions[1..]);
    }
  }

  lemma ConfirmTakesNothingBack(anchors: seq<AnchorRow>, i: nat)
    requires i < |anchors|
    ensures NoLess(CoveredTo(anchors), CoveredTo(WithStatus(anchors, i, Confirmed)))
  {
    var after := WithStatus(anchors, i, Confirmed);
    if CoveredTo(anchors).Some? {
      var a :| a in anchors && !a.status.Reverted? && a.window.end == CoveredTo(anchors).value;
      var j :| 0 <= j < |anchors| && anchors[j] == a;
      assert after[j] in after && !after[j].status.Reverted? && after[j].window == a.window;
    }
  }

  /** Confirmations never take anything back, not even one that makes a reverted row live again. */
  lemma {:induction false} ConfirmationsTakeNothingBack(k: Hash, s: Schedule, actions: seq<Action>)
    requires LegalRun(k, s, actions) && forall a :: a in actions && a.SetStatus? ==> a.status == Confirmed
    ensures TakesNothingBack(k, s, actions)
    decreases |actions|
  {
    if actions != [] {
      assert actions[0] in actions;
      if actions[0].SetStatus? {
        ConfirmTakesNothingBack(s.log.anchors, actions[0].index);
      }
      ConfirmationsTakeNothingBack(k, Step(k, s, actions[0]), actions[1..]);
    }
  }

  function Sooner(at: int, o: Option<int>, covered: Option<int>): Option<int> {
    if After(at, covered) && (o.None? || at < o.value) then Some(at) else o
  }

  lemma OldestOfCons(first: Event, rest: seq<Event>, covered: Option<int>)
    ensures OldestUnanchored([first] + rest, covered) == Sooner(first.at, OldestUnanchored(rest, covered), covered)
  {
    assert ([first] + rest)[1..] == rest;
  }

  lemma LateBehind(first: Event, rest: seq<Event>, inserted: seq<Event>, at: int, covered: Option<int>)
    requires OldestUnanchored(inserted, covered) == Sooner(at, OldestUnanchored(rest, covered), covered)
    ensures OldestUnanchored([first] + inserted, covered)
         == Sooner(at, OldestUnanchored([first] + rest, covered), covered)
  {
    OldestOfCons(first, rest, covered);
    OldestOfCons(first, inserted, covered);
    SoonerCommutes(first.at, at, OldestUnanchored(rest, covered), covered);
  }

  lemma SoonerCommutes(a: int, b: int, o: Option<int>, covered: Option<int>)
    ensures Sooner(a, Sooner(b, o, covered), covered) == Sooner(b, Sooner(a, o, covered), covered)
  {
  }

  lemma {:induction false} LateEventOldest(events: seq<Event>, covered: Option<int>, e: Event)
    ensures OldestUnanchored(Insert(events, e), covered) == Sooner(e.at, OldestUnanchored(events, covered), covered)
  {
    if events == [] || Precedes(e, events[0]) {
      OldestOfCons(e, events, covered);
    } else {
      LateEventOldest(events[1..], covered, e);
      LateBehind(events[0], events[1..], Insert(events[1..], e), e.at, covered);
      assert events == [events[0]] + events[1..];
    }
  }

  lemma LaterNeedsNoMore(o: Option<int>, later: Option<int>, until: int)
    requires later.Some? ==> o.Some? && o.value <= later.value
    ensures Needed(later, until) <= Needed(o, until)
  {
    if later.Some? && later.value <= until {
      CloserNeedsNoMore(until - later.value, until - o.value);
    }
  }

  lemma MoreCoveredNeedsNoMore(events: seq<Event>, covered: Option<int>, covered': Option<int>, until: int)
    requires NoLess(covered, covered')
    ensures Needed(OldestUnanchored(events, covered'), until) <= Needed(OldestUnanchored(events, covered), until)
  {
    OldestNeverFallsBack(events, covered, covered');
    LaterNeedsNoMore(OldestUnanchored(events, covered), OldestUnanchored(events, covered'), until);
  }

  lemma OtherStepsNeedNoMore(k: Hash, s: Schedule, a: Action, until: int)
    requires Legal(s, a) && !a.Cycle? && until <= s.clock && TakesNothingBack(k, s, [a])
    ensures CyclesNeeded(Step(k, s, a).log, until) <= CyclesNeeded(s.log, until)
  {
    if a.Emit? {
      LateEventOldest(s.log.events, CoveredTo(s.log.anchors), a.event);
    } else {
      MoreCoveredNeedsNoMore(s.log.events, CoveredTo(s.log.anchors), CoveredTo(Step(k, s, a).log.anchors), until);
    }
  }

  ghost predicate CoveredUpTo(log: TenantLog, until: int) {
    forall e :: e in log.events && e.at <= until ==> !After(e.at, CoveredTo(log.anchors))
  }

  lemma StepNeeds(k: Hash, s: Schedule, a: Action, until: int)
    requires Good(k, s) && until <= s.clock && GoodHashes(k, s.log.events)
    requires Legal(s, a) && TakesNothingBack(k, s, [a]) && NeverMeets(k, s, [a])
    ensures var t, needed := Step(k, s, a), CyclesNeeded(s.log, until);
      && Good(k, t) && until <= t.clock
      && (!a.Cycle? ==> CyclesNeeded(t.log, until) <= needed)
      && (a.Cycle? ==>
            || Collision(k, CycleInputs(k, s.log, a.now))
            || CyclesNeeded(t.log, until) == 0
            || CyclesNeeded(t.log, until) < needed)
  {
    StepKeepsGood(k, s, a);
    if a.Cycle? {
      CycleNeedsOneLess(k, s, a.now, until);
    } else {
      OtherStepsNeedNoMore(k, s, a, until);
    }
  }

  ghost predicate ClosingRun(k: Hash, s: Schedule, actions: seq<Action>, until: int, all: set<Bytes>) {
    && Good(k, s) && until <= s.clock
    && LegalRun(k, s, actions) && TakesNothingBack(k, s, actions) && NeverMeets(k, s, actions)
    && GoodHashes(k, Run(k, s, actions).log.events)
    && CyclesNeeded(s.log, until) <= Cycles(actions)
    && RunInputs(k, s, actions) <= all
  }

  lemma ClosingRunTail(k: Hash, s: Schedule, actions: seq<Action>, until: int, all: set<Bytes>)
    requires ClosingRun(k, s, actions, until, all) && actions != [] && !Collision(k, all)
    ensures ClosingRun(k, Step(k, s, actions[0]), actions[1..], until, all)
  {
    var a := actions[0];
    assert GoodHashes(k, s.log.events) by { RunKeepsEvents(k, s, actions); }
    if a.Cycle? {
      CollisionMonotone(k, CycleInputs(k, s.log, a.now), all);
    }
    assert [a][1..] == [];
    StepNeeds(k, s, a, until);
  }

  lemma {:induction false} CaughtUpOrCollision(k: Hash, s: Schedule, actions: seq<Action>, until: int, all: set<Bytes>)
    requires ClosingRun(k, s, actions, until, all) && !Collision(k, all)
    ensures CoveredUpTo(Run(k, s, actions).log, until)
    decreases |actions|
  {
    OldestIsMinimum(s.log.events, CoveredTo(s.log.anchors));
    if actions != [] {
      ClosingRunTail(k, s, actions, until, all);
      CaughtUpOrCollision(k, Step(k, s, actions[0]), actions[1..], until, all);
    }
  }

  /** From any good state: once CyclesNeeded cycles have run and none of them met a reverted row, every event
      up to `until` is covered, however the cycles are interleaved with new events and with status changes
      that take nothing back. */
  lemma CaughtUpWithinBound(k: Hash, s: Schedule, actions: seq<Action>, until: int)
    requires Good(k, s) && until <= s.clock
    requires LegalRun(k, s, actions) && TakesNothingBack(k, s, actions) && NeverMeets(k, s, actions)
    requires GoodHashes(k, Run(k, s, actions).log.events)
    requires CyclesNeeded(s.log, until) <= Cycles(actions)
    ensures Collision(k, RunInputs(k, s, actions)) || CoveredUpTo(Run(k, s, actions).log, until)
  {
    if !Collision(k, RunInputs(k, s, actions)) {
      CaughtUpOrCollision(k, s, actions, until, RunInputs(k, s, actions));
    }
  }

  // ---------- no progress ----------

  /** A row has the root of the tenant's next window, and that window ended before the latest cycle, so no
      event can join it any more. */
  predicate Stuck(k: Hash, s: Schedule) {
    var w, root := BacklogWindow(s.log, s.clock), BacklogRoot(k, s.log, s.clock);
    w.Some? && w.value.end < s.clock && root.Some? && FindAnchorByRoot(s.log.anchors, root.value).Some?
  }

  /** A clamped window does not depend on the time of the cycle that derives it. */
  lemma ClampedWindowStays(log: TenantLog, clock: int, now: int)
    requires BacklogWindow(log, clock).Some? && BacklogWindow(log, clock).value.end < clock <= now
    ensures BacklogWindow(log, now) == BacklogWindow(log, clock)
  {
  }

  lemma StuckSurvivesEmit(k: Hash, s: Schedule, e: Event)
    requires Stuck(k, s) && Legal(s, Emit(e))
    ensures Stuck(k, Step(k, s, Emit(e)))
    ensures var t := Step(k, s, Emit(e)); BacklogWindow(t.log, t.clock) == BacklogWindow(s.log, s.clock)
  {
    var covered, w := CoveredTo(s.log.anchors), BacklogWindow(s.log, s.clock).value;
    OldestIsMinimum(s.log.events, covered);
    var o := OldestUnanchored(s.log.events, covered).value;
    WindowStartsAtBacklog(covered, o, s.clock, MAX_ANCHOR_WINDOW_MS, o);
    LateEventOldest(s.log.events, covered, e);
    ListEventsInsertOutside(s.log.events, e, w);
  }

  lemma StatusKeepsRoots(anchors: seq<AnchorRow>, i: nat, st: AnchorStatus, root: Bytes)
    requires FindAnchorByRoot(anchors, root).Some?
    ensures FindAnchorByRoot(WithStatus(anchors, i, st), root).Some?
  {
    var a, after := FindAnchorByRoot(anchors, root).value, WithStatus(anchors, i, st);
    var j :| 0 <= j < |anchors| && anchors[j] == a;
    assert after[j] in after && after[j].pair.root == root;
  }

  lemma StuckSurvivesStatus(k: Hash, s: Schedule, i: nat, st: AnchorStatus)
    requires Stuck(k, s) && i < |s.log.anchors|
    requires CoveredTo(WithStatus(s.log.anchors, i, st)) == CoveredTo(s.log.anchors)
    ensures Stuck(k, Step(k, s, SetStatus(i, st)))
  {
    StatusKeepsRoots(s.log.anchors, i, st, BacklogRoot(k, s.log, s.clock).value);
  }

  lemma StuckStep(k: Hash, s: Schedule, a: Action)
    requires Stuck(k, s) && Legal(s, a) && KeepsCovered(k, s, [a])
    ensures var t := Step(k, s, a);
      && Stuck(k, t) && BacklogWindow(t.log, t.clock) == BacklogWindow(s.log, s.clock)
      && CoveredTo(t.log.anchors) == CoveredTo(s.log.anchors) && |t.log.anchors| == |s.log.anchors|
      && (!a.SetStatus? ==> t.log.anchors == s.log.anchors)
  {
    match a
    case Emit(e) => StuckSurvivesEmit(k, s, e);
    case Cycle(now) => ClampedWindowStays(s.log, s.clock, now);
    case SetStatus(i, st) => StuckSurvivesStatus(k, s, i, st);
  }

  /** Once stuck, always stuck: no run of events, cycles and status changes that leave the covered time where
      it is adds a row or covers anything more; without status changes the rows do not change at all. */
  lemma {:induction false} StuckForEver(k: Hash, s: Schedule, actions: seq<Action>)
    requires Stuck(k, s) && LegalRun(k, s, actions) && KeepsCovered(k, s, actions)
    ensures var t := Run(k, s, actions);
      && Stuck(k, t) && BacklogWindow(t.log, t.clock) == BacklogWindow(s.log, s.clock)
      && CoveredTo(t.log.anchors) == CoveredTo(s.log.anchors) && |t.log.anchors| == |s.log.anchors|
      && ((forall a :: a in actions ==> !a.SetStatus?) ==> t.log.anchors == s.log.anchors)
    decreases |actions|
  {
    if actions != [] {
      assert actions[0] in actions && [actions[0]][1..] == [];
      StuckStep(k, s, actions[0]);
      StuckForEver(k, Step(k, s, actions[0]), actions[1..]);
    }
  }

  /** It happens: one event, a cycle, the row reverted, and a cycle more than a maximal window later. */
  lemma StuckIsReachable(k: Hash, tenant: string, e: Event)
    ensures var s := Schedule(TenantLog(tenant, [], []), e.at - 1);
      var actions := [Emit(e), Cycle(e.at), SetStatus(0, Reverted), Cycle(e.at + MAX_ANCHOR_WINDOW_MS + 1)];
      Good(k, s) && LegalRun(k, s, actions) && Stuck(k, Run(k, s, actions))
  {
    var s := Schedule(TenantLog(tenant, [], []), e.at - 1);
    var late := e.at + MAX_ANCHOR_WINDOW_MS + 1;
    var row := PendingRow(Pair(tenant, Root(k, [e.hash])), 1, Window(e.at, e.at));
    var s2 := Schedule(TenantLog(tenant, [e], [row]), e.at);
    var s3 := Schedule(TenantLog(tenant, [e], [row.(status := Reverted)]), e.at);
    FirstCycleOfOne(k, tenant, e);
    assert Step(k, s2, SetStatus(0, Reverted)) == s3;
    LateCycleOfOne(k, tenant, e, row.(status := Reverted));
    RunFirst(k, s, Emit(e), [Cycle(e.at), SetStatus(0, Reverted), Cycle(late)]);
    RunFirst(k, Step(k, s, Emit(e)), Cycle(e.at), [SetStatus(0, Reverted), Cycle(late)]);
    RunFirst(k, s2, SetStatus(0, Reverted), [Cycle(late)]);
    RunFirst(k, s3, Cycle(late), []);
    assert [Cycle(late)] + [] == [Cycle(late)];
  }

  lemma FirstCycleOfOne(k: Hash, tenant: string, e: Event)
    ensures var s := Schedule(TenantLog(tenant, [], []), e.at - 1);
      var row := PendingRow(Pair(tenant, Root(k, [e.hash])), 1, Window(e.at, e.at));
      && Step(k, s, Emit(e)) == Schedule(TenantLog(tenant, [e], []), e.at - 1)
      && Step(k, Step(k, s, Emit(e)), Cycle(e.at)) == Schedule(TenantLog(tenant, [e], [row]), e.at)
  {
    OnlyEventListed(e, Window(e.at, e.at));
    OldestOfCons(e, [], None);
    assert [e] + [] == [e];
    assert BacklogWindow(TenantLog(tenant, [e], []), e.at) == Some(Window(e.at, e.at));
  }

  lemma LateCycleOfOne(k: Hash, tenant: string, e: Event, row: AnchorRow)
    requires row.status.Reverted? && row.pair.root == Root(k, [e.hash])
    ensures var s, late := Schedule(TenantLog(tenant, [e], [row]), e.at), e.at + MAX_ANCHOR_WINDOW_MS + 1;
      Step(k, s, Cycle(late)) == s.(clock := late) && Stuck(k, s.(clock := late))
  {
    var log, late := TenantLog(tenant, [e], [row]), e.at + MAX_ANCHOR_WINDOW_MS + 1;
    OnlyEventListed(e, Window(e.at, late - 1));
    OldestOfCons(e, [], None);
    assert [e] + [] == [e];
    assert BacklogWindow(log, late) == Some(Window(e.at, late - 1));
    MeetingChangesNothing(k, log, late);
  }

  lemma OnlyEventListed(e: Event, w: Window)
    requires Contains(w, e.at)
    ensures WindowHashes([e], w) == [e.hash]
  {
    assert ListEvents([e], w) == [e];
  }

  /** The on-demand route does to the tables what a scheduled cycle at the same time does, and has no row to answer
      with exactly if every event up to now is covered. */
  lemma OnDemandIsACycle(k: Hash, log: TenantLog, now: int)
    ensures OnDemand(k, log, now).0 == CycleLog(k, log, now)
    ensures OnDemand(k, log, now).1.None? <==>
      forall e :: e in log.events && e.at <= now ==>
          CoveredTo(log.anchors).Some? && e.at <= CoveredTo(log.anchors).value
  {
    var covered := CoveredTo(log.anchors);
    var oldest := OldestUnanchored(log.events, covered);
    OldestIsMinimum(log.events, covered);
    if oldest.None? {
      NothingListed(log.events, NextAnchorWindow(covered, now, now, MAX_ANCHOR_WINDOW_MS));
    } else if oldest.value <= now {
      BacklogListed(log, now);
    } else {
      NothingListed(log.events, BacklogWindow(log, now).value);
    }
  }
}
