/** Finding the transaction that published a root by scanning contract events in block ranges. */
module EventScan {
  import opened Options
  import opened AnchorTables
  import opened Chain

  /** The earliest block to scan. */
  function ResolveAnchorScanFromBlock(configured: Option<nat>, latest: nat, lookback: nat, production: bool): nat {
    if configured.Some? then configured.value
    else
      var windowed := if latest > lookback then latest - lookback else 0;
      if production && windowed == 0 && latest > 0 then 1 else windowed
  }

  /** The AnchorPublished events of one tenant in an inclusive block range, in chain order. */
  function GetContractEvents(log: seq<AnchorEvent>, tenant: string, fromBlock: nat, toBlock: nat): seq<AnchorEvent> {
    if log == [] then []
    else
      var rest := GetContractEvents(log[1..], tenant, fromBlock, toBlock);
      if log[0].pair.tenant == tenant && fromBlock <= log[0].block <= toBlock then [log[0]] + rest else rest
  }

  lemma {:induction false} ContractEventsAre(log: seq<AnchorEvent>, tenant: string, fromBlock: nat, toBlock: nat,
                                             e: AnchorEvent)
    ensures e in GetContractEvents(log, tenant, fromBlock, toBlock) <==>
      e in log && e.pair.tenant == tenant && fromBlock <= e.block <= toBlock
  {
    if log != [] {
      assert e in log <==> e == log[0] || e in log[1..];
      ContractEventsAre(log[1..], tenant, fromBlock, toBlock, e);
    }
  }

  predicate Matches(e: AnchorEvent, p: Pair) { e.pair == p && e.tx.Some? }

  /** The first event for the pair among `events`. */
  function FirstMatch(events: seq<AnchorEvent>, p: Pair): (r: Option<Located>)
    ensures r.None? <==> forall e :: e in events ==> !Matches(e, p)
    ensures r.Some? ==> PublishedBy(events, p, r.value)
  {
    if events == [] then None
    else
      assert forall x :: x in events <==> x == events[0] || x in events[1..];
      if Matches(events[0], p) then Some(Located(events[0].tx.value, events[0].block)) else FirstMatch(events[1..], p)
  }

  /** The answer of one scan over the whole range. */
  function FullScan(log: seq<AnchorEvent>, p: Pair, fromBlock: nat, toBlock: nat): Option<Located> {
    FirstMatch(GetContractEvents(log, p.tenant, fromBlock, toBlock), p)
  }

  /** The block ranges a scan asks for, one after the other. */
  function ScanRanges(fromBlock: nat, latest: nat, span: nat): seq<(nat, nat)>
    requires span > 0
    decreases latest + 1 - fromBlock
  {
    if fromBlock > latest then []
    else
      var end := if fromBlock + span - 1 > latest then latest else fromBlock + span - 1;
      [(fromBlock, end)] + ScanRanges(fromBlock + span, latest, span)
  }

  function RangesHolding(ranges: seq<(nat, nat)>, block: nat): nat {
    if ranges == [] then 0
    else (if ranges[0].0 <= block <= ranges[0].1 then 1 else 0) + RangesHolding(ranges[1..], block)
  }

  /** The ranges cut [fromBlock, latest] into pieces of at most `span` blocks: no gap, no overlap. */
  lemma {:induction false} ScanRangesPartition(fromBlock: nat, latest: nat, span: nat, block: nat)
    requires span > 0
    ensures RangesHolding(ScanRanges(fromBlock, latest, span), block) == if fromBlock <= block <= latest then 1 else 0
    ensures forall r :: r in ScanRanges(fromBlock, latest, span) ==>
      fromBlock <= r.0 <= r.1 <= latest && r.1 - r.0 < span
    decreases latest + 1 - fromBlock
  {
    if fromBlock <= latest {
      ScanRangesPartition(fromBlock + span, latest, span, block);
    }
  }

  ghost predicate InChainOrder(log: seq<AnchorEvent>) {
    forall i, j :: 0 <= i < j < |log| ==> log[i].block <= log[j].block
  }

  /** In chain order a range can be scanned in two parts. */
  lemma {:induction false} ScanSplits(log: seq<AnchorEvent>, tenant: string, a: nat, m: nat, c: nat)
    requires InChainOrder(log) && a <= m + 1 && m <= c
    ensures GetContractEvents(log, tenant, a, c)
         == GetContractEvents(log, tenant, a, m) + GetContractEvents(log, tenant, m + 1, c)
  {
    if log != [] {
      assert InChainOrder(log[1..]) by {
        forall i, j | 0 <= i < j < |log[1..]| ensures log[1..][i].block <= log[1..][j].block {
          assert log[i + 1].block <= log[j + 1].block;
        }
      }
      ScanSplits(log[1..], tenant, a, m, c);
      if log[0].block > m {
        forall e | e in log[1..] ensures e.block > m {
          var i :| 0 <= i < |log[1..]| && log[1..][i] == e;
          assert log[0].block <= log[i + 1].block;
        }
        NoneInRange(log[1..], tenant, a, m);
      }
    }
  }

  lemma {:induction false} NoneInRange(log: seq<AnchorEvent>, tenant: string, a: nat, c: nat)
    requires forall e :: e in log ==> e.block > c
    ensures GetContractEvents(log, tenant, a, c) == []
  {
    if log != [] {
      NoneInRange(log[1..], tenant, a, c);
    }
  }

  lemma {:induction false} FirstMatchAppend(one: seq<AnchorEvent>, two: seq<AnchorEvent>, p: Pair)
    ensures FirstMatch(one + two, p) == if FirstMatch(one, p).Some? then FirstMatch(one, p) else FirstMatch(two, p)
  {
    if one == [] {
      assert one + two == two;
    } else {
      assert (one + two)[0] == one[0] && (one + two)[1..] == one[1..] + two;
      FirstMatchAppend(one[1..], two, p);
    }
  }

  /** The first chunk decides, or the scan goes on with the next one. */
  lemma ScanStep(log: seq<AnchorEvent>, p: Pair, start: nat, end: nat, latest: nat, span: nat)
    requires InChainOrder(log) && span > 0 && start <= latest
    requires end == if start + span - 1 > latest then latest else start + span - 1
    ensures var here := FirstMatch(GetContractEvents(log, p.tenant, start, end), p);
      FullScan(log, p, start, latest) == if here.Some? then here else FullScan(log, p, start + span, latest)
    ensures ScanRanges(start, latest, span) == [(start, end)] + ScanRanges(start + span, latest, span)
  {
    var here, later := GetContractEvents(log, p.tenant, start, end), GetContractEvents(log, p.tenant, end + 1, latest);
    ScanSplits(log, p.tenant, start, end, latest);
    FirstMatchAppend(here, later, p);
    assert later == GetContractEvents(log, p.tenant, start + span, latest) by {
      if end == latest {
        NothingBeyond(log, p.tenant, end + 1, latest);
        NothingBeyond(log, p.tenant, start + span, latest);
      }
    }
  }

  lemma AskedOneMore(asked: seq<(nat, nat)>, range: (nat, nat), ahead: seq<(nat, nat)>)
    ensures asked + ([range] + ahead) == (asked + [range]) + ahead
  {
  }

  /** findPublishedAnchorTx: the chunked scan finds what one scan of the whole range would find, and
      the ranges it asked for are those of ScanRanges, all of them when it finds nothing. */
  method FindPublishedAnchorTx(log: seq<AnchorEvent>, p: Pair, fromBlock: nat, latestBlock: nat, maxBlockSpan: int)
    returns (found: Option<Located>, asked: seq<(nat, nat)>)
    requires InChainOrder(log)
    ensures found == FullScan(log, p, fromBlock, latestBlock)
    ensures var ranges := ScanRanges(fromBlock, latestBlock, if maxBlockSpan < 1 then 1 else maxBlockSpan);
      asked <= ranges && (found.None? ==> asked == ranges)
  {
    asked := [];
    if fromBlock > latestBlock {
      NothingBeyond(log, p.tenant, fromBlock, latestBlock);
      return None, [];
    }
    var span := if maxBlockSpan < 1 then 1 else maxBlockSpan;
    ghost var full, ranges := FullScan(log, p, fromBlock, latestBlock), ScanRanges(fromBlock, latestBlock, span);
    ghost var ahead := ranges;
    var start := fromBlock;
    while start <= latestBlock
      invariant fromBlock <= start
      invariant full == FullScan(log, p, start, latestBlock)
      invariant ahead == ScanRanges(start, latestBlock, span) && ranges == asked + ahead
      decreases latestBlock + 1 - start
    {
      var end := if start + span - 1 > latestBlock then latestBlock else start + span - 1;
      var logs := GetContractEvents(log, p.tenant, start, end);
      ScanStep(log, p, start, end, latestBlock, span);
      AskedOneMore(asked, (start, end), ScanRanges(start + span, latestBlock, span));
      asked, ahead := asked + [(start, end)], ScanRanges(start + span, latestBlock, span);
      found := FirstInPage(logs, p);
      if found.Some? {
        return;
      }
      start := start + span;
    }
    NothingBeyond(log, p.tenant, start, latestBlock);
    found := None;
  }

  method FirstInPage(logs: seq<AnchorEvent>, p: Pair) returns (found: Option<Located>)
    ensures found == FirstMatch(logs, p)
  {
    var i := 0;
    while i < |logs|
      invariant 0 <= i <= |logs|
      invariant FirstMatch(logs, p) == FirstMatch(logs[i..], p)
    {
      if logs[i].pair == p && logs[i].tx.Some? {
        return Some(Located(logs[i].tx.value, logs[i].block));
      }
      assert logs[i..][1..] == logs[i + 1..];
      i := i + 1;
    }
    found := None;
  }

  lemma {:induction false} NothingBeyond(log: seq<AnchorEvent>, tenant: string, a: nat, c: nat)
    requires a > c
    ensures GetContractEvents(log, tenant, a, c) == []
  {
    if log != [] {
      NothingBeyond(log[1..], tenant, a, c);
    }
  }

  /** In a log that publishes each pair once, the scan finds the publishing transaction exactly when
      its block lies in the scanned range. */
  lemma ScanFindsPublisher(log: seq<AnchorEvent>, p: Pair, fromBlock: nat, latest: nat, at: Located)
    requires GoodLog(log)
    ensures FullScan(log, p, fromBlock, latest) == Some(at) <==>
      PublishedBy(log, p, at) && fromBlock <= at.block <= latest
  {
    var events := GetContractEvents(log, p.tenant, fromBlock, latest);
    var e := AnchorEvent(p, Some(at.tx), at.block);
    ContractEventsAre(log, p.tenant, fromBlock, latest, e);
    if e in events {
      assert Matches(e, p);
      var found := FirstMatch(events, p).value;
      ContractEventsAre(log, p.tenant, fromBlock, latest, AnchorEvent(p, Some(found.tx), found.block));
      PublishedOnce(log, p, at, found);
    }
  }

  /** With a configured start the publisher is found exactly if its block is not before it. With the default start
      it is found exactly if it is at most `lookback` blocks old; in production a scan that would reach back to genesis
      leaves block 0 out. */
  lemma ResolvedScanFindsPublisher(log: seq<AnchorEvent>, p: Pair, configured: Option<nat>, latest: nat, lookback: nat,
                                   production: bool, at: Located)
    requires GoodLog(log) && NoLaterThan(log, latest)
    ensures var start := ResolveAnchorScanFromBlock(configured, latest, lookback, production);
      FullScan(log, p, start, latest) == Some(at) <==>
        && PublishedBy(log, p, at)
        && (if configured.Some? then at.block >= configured.value
            else at.block + lookback >= latest && (production && 0 < latest <= lookback ==> at.block > 0))
  {
    ScanFindsPublisher(log, p, ResolveAnchorScanFromBlock(configured, latest, lookback, production), latest, at);
  }
}
