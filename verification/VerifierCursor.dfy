/**
 The part the two paging verifiers share: the checkpoint row with its durable position, the findings
 table, one cycle over a page, and what a whole pass leaves behind.
 */
module VerifierCursor {
  import opened Bytes
  import opened Options
  import opened Keyset

  datatype Verifier = ContentHash | AnchorRoot

  datatype PassStatus = Never | Clean | Failed

  datatype Checkpoint = Checkpoint(
    version: int, cursor: Option<Key>, passFailures: nat, completedPasses: nat, lastFailures: nat, lastPass: PassStatus)

  datatype Finding = Finding(
    verifier: Verifier, rowId: int, tenant: string, expected: Bytes, observed: Bytes, open: bool)

  datatype State = State(checkpoint: Checkpoint, findings: seq<Finding>)

  predicate IsOpen(f: Finding, v: Verifier, id: int) { f.open && f.verifier == v && f.rowId == id }

  function CountOpen(findings: seq<Finding>, v: Verifier, id: int): nat {
    if findings == [] then 0
    else CountOpen(findings[..|findings| - 1], v, id) + if IsOpen(findings[|findings| - 1], v, id) then 1 else 0
  }

  /** The unique index on the findings table. */
  ghost predicate AtMostOneOpen(findings: seq<Finding>) {
    forall v, id :: CountOpen(findings, v, id) <= 1
  }

  /** INSERT ... ON CONFLICT (verifier_name, event_id) WHERE status = 'open' DO NOTHING. */
  function InsertFinding(findings: seq<Finding>, f: Finding): seq<Finding> {
    if exists g :: g in findings && IsOpen(g, f.verifier, f.rowId) then findings else findings + [f]
  }

  /** What a verifier finds wrong with a row, if anything. */
  type Verdict<!T> = Row<T> -> Option<Finding>

  function FlagAll<T>(findings: seq<Finding>, page: Table<T>, verdict: Verdict<T>): seq<Finding> {
    if page == [] then findings
    else
      var n := |page| - 1;
      var before := FlagAll(findings, page[..n], verdict);
      if verdict(page[n]).Some? then InsertFinding(before, verdict(page[n]).value) else before
  }

  function Mismatches<T>(page: Table<T>, verdict: Verdict<T>): nat {
    if page == [] then 0
    else Mismatches(page[..|page| - 1], verdict) + if verdict(page[|page| - 1]).Some? then 1 else 0
  }

  lemma NextRow<T>(findings: seq<Finding>, page: Table<T>, i: nat, verdict: Verdict<T>)
    requires i < |page|
    ensures var before := FlagAll(findings, page[..i], verdict);
      FlagAll(findings, page[..i + 1], verdict)
      == if verdict(page[i]).Some? then InsertFinding(before, verdict(page[i]).value) else before
    ensures Mismatches(page[..i + 1], verdict)
         == Mismatches(page[..i], verdict) + if verdict(page[i]).Some? then 1 else 0
  {
    assert page[..i + 1][..i] == page[..i];
  }

  /** The checkpoint after a cycle: a short page ends the pass and clears the position, a full one moves it. */
  function Advance<T>(cp: Checkpoint, page: Table<T>, limit: nat, mismatches: nat): Checkpoint {
    var failures := cp.passFailures + mismatches;
    if |page| < limit then
      Checkpoint(cp.version, None, 0, cp.completedPasses + 1, mismatches, if failures == 0 then Clean else Failed)
    else
      Checkpoint(cp.version, LastKey(page), failures, cp.completedPasses, mismatches, cp.lastPass)
  }

  function Cycle<T>(s: State, table: Table<T>, verdict: Verdict<T>, limit: nat): State {
    var page := Page(table, s.checkpoint.cursor, limit);
    State(Advance(s.checkpoint, page, limit, Mismatches(page, verdict)), FlagAll(s.findings, page, verdict))
  }

  function Cycles<T>(s: State, tables: seq<Table<T>>, verdict: Verdict<T>, limit: nat): State
    decreases |tables|
  {
    if tables == [] then s else Cycles(Cycle(s, tables[0], verdict, limit), tables[1..], verdict, limit)
  }

  // ---------- the findings table ----------

  lemma {:induction false} CountOpenExists(findings: seq<Finding>, v: Verifier, id: int)
    ensures CountOpen(findings, v, id) > 0 <==> exists g :: g in findings && IsOpen(g, v, id)
  {
    if findings != [] {
      var n := |findings| - 1;
      CountOpenExists(findings[..n], v, id);
      assert findings == findings[..n] + [findings[n]];
    }
  }

  lemma InsertCounts(findings: seq<Finding>, f: Finding, v: Verifier, id: int)
    requires f.open
    ensures CountOpen(InsertFinding(findings, f), v, id)
         == var open := CountOpen(findings, v, id);
            if f.verifier == v && f.rowId == id && open == 0 then 1 else open
  {
    CountOpenExists(findings, f.verifier, f.rowId);
    assert (findings + [f])[..|findings|] == findings;
  }

  /** A verifier's verdicts are open findings of its own about the row they are passed on. */
  ghost predicate FindsFor<T(!new)>(verdict: Verdict<T>, v: Verifier) {
    forall r: Row<T> :: verdict(r).Some? ==> IsOpen(verdict(r).value, v, r.key.id)
  }

  ghost predicate Flagged<T>(page: Table<T>, verdict: Verdict<T>, id: int) {
    exists r :: r in page && verdict(r).Some? && r.key.id == id
  }

  /** After a page every row found wrong has an open finding, one only, and no other row got one. */
  lemma {:induction false} FlagAllCounts<T(!new)>(findings: seq<Finding>, page: Table<T>, verdict: Verdict<T>,
                                                  v: Verifier, w: Verifier, id: int)
    requires FindsFor(verdict, v)
    ensures CountOpen(FlagAll(findings, page, verdict), w, id)
         == var open := CountOpen(findings, w, id);
            if w == v && Flagged(page, verdict, id) && open == 0 then 1 else open
  {
    if page != [] {
      var n := |page| - 1;
      var rest, last := page[..n], page[n];
      assert page == rest + [last];
      FlagAllCounts(findings, rest, verdict, v, w, id);
      assert Flagged(page, verdict, id) <==>
          Flagged(rest, verdict, id) || (verdict(last).Some? && last.key.id == id) by {
        if Flagged(rest, verdict, id) {
          var r :| r in rest && verdict(r).Some? && r.key.id == id;
          assert r in page;
        }
        assert last in page;
      }
      if verdict(last).Some? {
        InsertCounts(FlagAll(findings, rest, verdict), verdict(last).value, w, id);
      }
    }
  }

  ghost predicate IsVerdict<T>(page: Table<T>, verdict: Verdict<T>, f: Finding) {
    exists r :: r in page && verdict(r) == Some(f)
  }

  /** Earlier findings stay, and each new one is the verdict on a row of the page. */
  lemma {:induction false} NewFindings<T>(findings: seq<Finding>, page: Table<T>, verdict: Verdict<T>)
    ensures var after := FlagAll(findings, page, verdict);
      && findings <= after
      && forall i :: |findings| <= i < |after| ==> IsVerdict(page, verdict, after[i])
  {
    if page != [] {
      var n := |page| - 1;
      NewFindings(findings, page[..n], verdict);
      assert page == page[..n] + [page[n]];
      forall f | IsVerdict(page[..n], verdict, f) ensures IsVerdict(page, verdict, f) {
        var r :| r in page[..n] && verdict(r) == Some(f);
        assert r in page;
      }
    }
  }

  lemma {:induction false} MismatchesNone<T>(page: Table<T>, verdict: Verdict<T>)
    ensures Mismatches(page, verdict) == 0 <==> forall r :: r in page ==> verdict(r).None?
  {
    if page != [] {
      var n := |page| - 1;
      MismatchesNone(page[..n], verdict);
      assert page == page[..n] + [page[n]];
    }
  }

  lemma {:induction false} MismatchesAdd<T>(one: Table<T>, two: Table<T>, verdict: Verdict<T>)
    ensures Mismatches(one + two, verdict) == Mismatches(one, verdict) + Mismatches(two, verdict)
  {
    if two == [] {
      assert one + two == one;
    } else {
      var n := |two| - 1;
      MismatchesAdd(one, two[..n], verdict);
      assert (one + two)[..|one + two| - 1] == one + two[..n];
    }
  }

  lemma {:induction false} FlagAllAppend<T>(findings: seq<Finding>, one: Table<T>, two: Table<T>, verdict: Verdict<T>)
    ensures FlagAll(findings, one + two, verdict) == FlagAll(FlagAll(findings, one, verdict), two, verdict)
  {
    if two == [] {
      assert one + two == one;
    } else {
      var n := |two| - 1;
      FlagAllAppend(findings, one, two[..n], verdict);
      assert (one + two)[..|one + two| - 1] == one + two[..n];
    }
  }

  // ---------- one pass ----------

  /** The cycles of one pass do together what a single sweep over the visited rows would. */
  lemma {:induction false} PassIsOneSweep<T>(s: State, tables: seq<Table<T>>, verdict: Verdict<T>, limit: nat)
    requires OnePass(tables, s.checkpoint.cursor, limit)
    ensures var visited, t := Walk(tables, s.checkpoint.cursor, limit).visited, Cycles(s, tables, verdict, limit);
      && t.findings == FlagAll(s.findings, visited, verdict)
      && t.checkpoint.cursor == None && t.checkpoint.passFailures == 0
      && t.checkpoint.completedPasses == s.checkpoint.completedPasses + 1
      && t.checkpoint.lastPass
         == (if s.checkpoint.passFailures + Mismatches(visited, verdict) == 0 then Clean else Failed)
    decreases tables
  {
    var page := Page(tables[0], s.checkpoint.cursor, limit);
    OnePassStep(tables, s.checkpoint.cursor, limit);
    if |page| < limit {
      assert tables[1..] == [];
    } else {
      var next := Cycle(s, tables[0], verdict, limit);
      PassIsOneSweep(next, tables[1..], verdict, limit);
      var rest := Walk(tables[1..], LastKey(page), limit).visited;
      FlagAllAppend(s.findings, page, rest, verdict);
      MismatchesAdd(page, rest, verdict);
    }
  }

  /** Before a pass is complete its cycles move the position to the last row visited and add up the wrong rows; the
      outcome of the last complete pass stands until then. */
  lemma {:induction false} UnfinishedPass<T>(s: State, tables: seq<Table<T>>, verdict: Verdict<T>, limit: nat)
    requires 0 < limit && !Walk(tables, s.checkpoint.cursor, limit).completed
    ensures var visited, t := Walk(tables, s.checkpoint.cursor, limit).visited, Cycles(s, tables, verdict, limit);
      && t.findings == FlagAll(s.findings, visited, verdict)
      && t.checkpoint.cursor == (if visited == [] then s.checkpoint.cursor else Some(visited[|visited| - 1].key))
      && t.checkpoint.passFailures == s.checkpoint.passFailures + Mismatches(visited, verdict)
      && t.checkpoint.completedPasses == s.checkpoint.completedPasses
      && t.checkpoint.lastPass == s.checkpoint.lastPass && t.checkpoint.version == s.checkpoint.version
    decreases tables
  {
    if tables != [] {
      var page := Page(tables[0], s.checkpoint.cursor, limit);
      WalkUnfolds(tables, s.checkpoint.cursor, limit, page);
      var next := Cycle(s, tables[0], verdict, limit);
      UnfinishedPass(next, tables[1..], verdict, limit);
      var rest := Walk(tables[1..], LastKey(page), limit).visited;
      FlagAllAppend(s.findings, page, rest, verdict);
      MismatchesAdd(page, rest, verdict);
    }
  }

  /** The mismatches of a page are its rows with a verdict, and the checkpoint records those of the latest page. */
  lemma {:induction false} MismatchesCounted<T>(page: Table<T>, verdict: Verdict<T>)
    ensures Mismatches(page, verdict) == |set i: nat | i < |page| && verdict(page[i]).Some?|
  {
    if page != [] {
      var n := |page| - 1;
      MismatchesCounted(page[..n], verdict);
      var before := set i: nat | i < n && verdict(page[..n][i]).Some?;
      assert (set i: nat | i < |page| && verdict(page[i]).Some?)
          == before + if verdict(page[n]).Some? then {n} else {};
    }
  }

  lemma {:induction false} VisitedComeFromTables<T>(tables: seq<Table<T>>, cursor: Option<Key>, limit: nat, r: Row<T>)
    requires Growing(tables) && r in Walk(tables, cursor, limit).visited
    ensures exists t :: t in tables && r in t
  {
    var page := Page(tables[0], cursor, limit);
    PageFacts(tables[0], cursor, limit);
    if r in page {
      assert tables[0] in tables;
    } else {
      GrowingTail(tables);
      VisitedComeFromTables(tables[1..], LastKey(page), limit, r);
    }
  }

  /** Every row that ever stands under this key is wrong. */
  ghost predicate AlwaysWrong<T>(tables: seq<Table<T>>, verdict: Verdict<T>, key: Key) {
    forall t, r :: t in tables && r in t && r.key == key ==> verdict(r).Some?
  }

  /** No row with this id is ever wrong. */
  ghost predicate NeverWrong<T>(tables: seq<Table<T>>, verdict: Verdict<T>, id: int) {
    forall t, r :: t in tables && r in t && r.key.id == id ==> verdict(r).None?
  }

  lemma WrongRowIsFlagged<T>(tables: seq<Table<T>>, verdict: Verdict<T>, limit: nat, key: Key)
    requires 0 < limit && Growing(tables) && OnePass(tables, None, limit)
    requires key in Keys(tables[0]) && AlwaysWrong(tables, verdict, key)
    ensures Flagged(Walk(tables, None, limit).visited, verdict, key.id)
  {
    PassVisitsEachRowOnce(tables, None, limit);
    var r :| r in Walk(tables, None, limit).visited && r.key == key;
    VisitedComeFromTables(tables, None, limit, r);
  }

  lemma RightRowIsNotFlagged<T>(tables: seq<Table<T>>, verdict: Verdict<T>, limit: nat, id: int)
    requires Growing(tables) && NeverWrong(tables, verdict, id)
    ensures !Flagged(Walk(tables, None, limit).visited, verdict, id)
  {
    forall r | r in Walk(tables, None, limit).visited && r.key.id == id ensures verdict(r).None? {
      VisitedComeFromTables(tables, None, limit, r);
    }
  }

  /** A fresh pass over a table that rows are only added to: each row wrong throughout ends with exactly
      one open finding, rows never wrong and the other verifier get none, and the pass is recorded as
      clean exactly if no visited row on any page was wrong. */
  lemma PassFindings<T(!new)>(s: State, tables: seq<Table<T>>, verdict: Verdict<T>, v: Verifier, limit: nat)
    requires 0 < limit && Growing(tables) && OnePass(tables, None, limit)
    requires s.checkpoint.cursor == None && s.checkpoint.passFailures == 0
    requires FindsFor(verdict, v) && AtMostOneOpen(s.findings)
    ensures var t := Cycles(s, tables, verdict, limit);
      && AtMostOneOpen(t.findings)
      && (forall key :: key in Keys(tables[0]) && AlwaysWrong(tables, verdict, key) ==>
            CountOpen(t.findings, v, key.id) == 1)
      && (forall w, id :: w != v || NeverWrong(tables, verdict, id) ==>
            CountOpen(t.findings, w, id) == CountOpen(s.findings, w, id))
      && var visited := Walk(tables, None, limit).visited;
         t.checkpoint.lastPass == if forall r :: r in visited ==> verdict(r).None? then Clean else Failed
  {
    var visited, t := Walk(tables, None, limit).visited, Cycles(s, tables, verdict, limit);
    PassIsOneSweep(s, tables, verdict, limit);
    MismatchesNone(visited, verdict);
    forall w, id ensures CountOpen(t.findings, w, id) <= 1 {
      FlagAllCounts(s.findings, visited, verdict, v, w, id);
    }
    forall key | key in Keys(tables[0]) && AlwaysWrong(tables, verdict, key)
      ensures CountOpen(t.findings, v, key.id) == 1
    {
      FlagAllCounts(s.findings, visited, verdict, v, v, key.id);
      WrongRowIsFlagged(tables, verdict, limit, key);
    }
    forall w, id | w != v || NeverWrong(tables, verdict, id)
      ensures CountOpen(t.findings, w, id) == CountOpen(s.findings, w, id)
    {
      FlagAllCounts(s.findings, visited, verdict, v, w, id);
      if w == v {
        RightRowIsNotFlagged(tables, verdict, limit, id);
      }
    }
  }
}
