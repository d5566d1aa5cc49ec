/** The anchor contract as the services see it: which pairs are published, and its event log. */
module Chain {
  import opened Bytes
  import opened Options
  import opened AnchorTables

  /** An AnchorPublished event. A node can report a log without its transaction hash. */
  datatype AnchorEvent = AnchorEvent(pair: Pair, tx: Option<Bytes>, block: nat)

  datatype Located = Located(tx: Bytes, block: nat)

  predicate IsPublished(log: seq<AnchorEvent>, p: Pair) {
    exists i :: 0 <= i < |log| && log[i].pair == p
  }

  predicate PublishedBy(log: seq<AnchorEvent>, p: Pair, at: Located) {
    AnchorEvent(p, Some(at.tx), at.block) in log
  }

  /** A mined anchorBatch that does not revert publishes and emits each pair not yet published, in
      order; a mined anchor is a batch of one new pair. */
  function AnchorBatch(log: seq<AnchorEvent>, at: Located, pairs: seq<Pair>): (after: seq<AnchorEvent>)
    ensures log <= after
    ensures forall e :: e in after ==> e in log || (e.pair in pairs && e.tx == Some(at.tx) && e.block == at.block)
  {
    if pairs == [] then log
    else
      var before := AnchorBatch(log, at, pairs[..|pairs| - 1]);
      var p := pairs[|pairs| - 1];
      if IsPublished(before, p) then before else before + [AnchorEvent(p, Some(at.tx), at.block)]
  }

  /** Each pair is published once, by a known transaction, and blocks only grow along the log. */
  ghost predicate GoodLog(log: seq<AnchorEvent>) {
    && (forall i, j :: 0 <= i < j < |log| ==> log[i].pair != log[j].pair)
    && (forall i, j :: 0 <= i < j < |log| ==> log[i].block <= log[j].block)
    && (forall i :: 0 <= i < |log| ==> log[i].tx.Some?)
  }

  ghost predicate NoLaterThan(log: seq<AnchorEvent>, block: nat) {
    forall i :: 0 <= i < |log| ==> log[i].block <= block
  }

  lemma AppendKeepsGoodLog(log: seq<AnchorEvent>, e: AnchorEvent)
    requires GoodLog(log) && NoLaterThan(log, e.block) && !IsPublished(log, e.pair) && e.tx.Some?
    ensures GoodLog(log + [e]) && NoLaterThan(log + [e], e.block)
  {
    var after := log + [e];
    forall i, j | 0 <= i < j < |after| ensures after[i].pair != after[j].pair && after[i].block <= after[j].block {
      assert after[i] == log[i] && (j < |log| ==> after[j] == log[j]);
    }
  }

  lemma {:induction false} AnchorBatchKeepsGoodLog(log: seq<AnchorEvent>, at: Located, pairs: seq<Pair>)
    requires GoodLog(log) && NoLaterThan(log, at.block)
    ensures GoodLog(AnchorBatch(log, at, pairs)) && NoLaterThan(AnchorBatch(log, at, pairs), at.block)
  {
    if pairs != [] {
      AnchorBatchKeepsGoodLog(log, at, pairs[..|pairs| - 1]);
      var before, p := AnchorBatch(log, at, pairs[..|pairs| - 1]), pairs[|pairs| - 1];
      if !IsPublished(before, p) {
        AppendKeepsGoodLog(before, AnchorEvent(p, Some(at.tx), at.block));
      }
    }
  }

  lemma {:induction false} AnchorBatchPublishesAll(log: seq<AnchorEvent>, at: Located, pairs: seq<Pair>, p: Pair)
    ensures IsPublished(AnchorBatch(log, at, pairs), p) <==> IsPublished(log, p) || p in pairs
    ensures !IsPublished(log, p) && p in pairs ==> PublishedBy(AnchorBatch(log, at, pairs), p, at)
  {
    if pairs != [] {
      var before, after := AnchorBatch(log, at, pairs[..|pairs| - 1]), AnchorBatch(log, at, pairs);
      var last := pairs[|pairs| - 1];
      AnchorBatchPublishesAll(log, at, pairs[..|pairs| - 1], p);
      assert forall i :: 0 <= i < |before| ==> after[i] == before[i];
      if |after| > |before| {
        assert after[|before|] == AnchorEvent(last, Some(at.tx), at.block);
      }
    }
  }

  lemma PublishedOnce(log: seq<AnchorEvent>, p: Pair, a: Located, b: Located)
    requires GoodLog(log) && PublishedBy(log, p, a) && PublishedBy(log, p, b)
    ensures a == b
  {
    var i :| 0 <= i < |log| && log[i] == AnchorEvent(p, Some(a.tx), a.block);
    var j :| 0 <= j < |log| && log[j] == AnchorEvent(p, Some(b.tx), b.block);
    assert !(i < j) && !(j < i);
  }
}
