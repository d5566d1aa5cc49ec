/** GET /audit/event/:id: one event with its inclusion proof against the anchor that contains it. */
module ProofServing {
  import opened Bytes
  import opened Merkle
  import opened MerkleTheorems
  import opened Options
  import opened AnchorTables
  import opened AnchorCoverage

  datatype Response =
    | NotFound
    | Found(event: Event, root: Option<Bytes>, proof: seq<Bytes>, anchorTx: Option<Bytes>, anchorBlock: Option<nat>)

  function FindEvent(events: seq<Event>, id: int): (r: Option<Event>)
    ensures r.Some? ==> r.value in events && r.value.id == id
    ensures r.None? ==> forall e :: e in events ==> e.id != id
  {
    if events == [] then None
    else if events[0].id == id then Some(events[0])
    else
      assert forall x :: x in events <==> x == events[0] || x in events[1..];
      FindEvent(events[1..], id)
  }

  predicate LiveAt(a: AnchorRow, at: int) { !a.status.Reverted? && Contains(a.window, at) }

  /** The live row with the earliest window end among those whose window contains `at`. */
  function FindAnchorForEvent(anchors: seq<AnchorRow>, at: int): (r: Option<AnchorRow>)
    ensures r.Some? ==> r.value in anchors && LiveAt(r.value, at)
    ensures forall a :: a in anchors && LiveAt(a, at) ==> r.Some? && r.value.window.end <= a.window.end
  {
    if anchors == [] then None
    else
      assert forall x :: x in anchors <==> x == anchors[0] || x in anchors[1..];
      var rest := FindAnchorForEvent(anchors[1..], at);
      if LiveAt(anchors[0], at) && (rest.None? || anchors[0].window.end <= rest.value.window.end)
      then Some(anchors[0]) else rest
  }

  method FindIndex(events: seq<Event>, id: int) returns (idx: nat)
    requires exists e :: e in events && e.id == id
    ensures idx < |events| && events[idx].id == id && forall i :: 0 <= i < idx ==> events[i].id != id
  {
    idx := 0;
    while idx < |events| && events[idx].id != id
      invariant 0 <= idx <= |events|
      invariant forall i :: 0 <= i < idx ==> events[i].id != id
    {
      idx := idx + 1;
    }
  }

  method ServeEvent(k: Hash, log: TenantLog, id: int) returns (r: Response)
    ensures r.NotFound? <==> forall e :: e in log.events ==> e.id != id
    ensures r.Found? ==> r.event in log.events && r.event.id == id
    ensures r.Found? ==>
      var anchor := FindAnchorForEvent(log.anchors, r.event.at);
      if anchor.None? then r.root == None && r.proof == [] && r.anchorTx == None && r.anchorBlock == None
      else
        var hashes := WindowHashes(log.events, anchor.value.window);
        && r.root == Some(Root(k, hashes))
        && r.anchorTx == anchor.value.tx && r.anchorBlock == anchor.value.block
        && exists idx: nat :: idx < |hashes|
             && ListEvents(log.events, anchor.value.window)[idx].id == id
             && r.proof == NodeProof(k, hashes, idx + 1)
  {
    var event := FindEvent(log.events, id);
    if event.None? {
      return NotFound;
    }
    var anchor := FindAnchorForEvent(log.anchors, event.value.at);
    if anchor.None? {
      return Found(event.value, None, [], None, None);
    }
    var events := ListEvents(log.events, anchor.value.window);
    assert event.value in events;
    var idx := FindIndex(events, id);
    var tree := BuildTree(k, HashesOf(events));
    LayersChained(k, LeafLayer(k, LeafData(k, HashesOf(events))));
    var proof := MakeProof(tree, idx);
    r := Found(event.value, Some(tree.root), proof, anchor.value.tx, anchor.value.block);
  }

  /** What ServeEvent promises about a found event whose instant an anchor covers. */
  ghost predicate Served(k: Hash, log: TenantLog, e: Event, a: AnchorRow, root: Bytes, proof: seq<Bytes>) {
    var hashes := WindowHashes(log.events, a.window);
    && e in log.events && FindAnchorForEvent(log.anchors, e.at) == Some(a)
    && root == Root(k, hashes)
    && exists idx: nat :: idx < |hashes|
         && ListEvents(log.events, a.window)[idx].id == e.id
         && proof == NodeProof(k, hashes, idx + 1)
  }

  lemma SameIdSameEvent(events: seq<Event>, a: Event, b: Event)
    requires DistinctIds(events) && a in events && b in events && a.id == b.id
    ensures a == b
  {
    var x, y :| 0 <= x < |events| && 0 <= y < |events| && events[x] == a && events[y] == b;
    assert !(x < y) && !(y < x);
  }

  /** A served proof always verifies against the served root; it verifies against the stored root of
      the anchor exactly when the window's rows still produce that root. */
  lemma ServedProofVerifies(k: Hash, log: TenantLog, e: Event, a: AnchorRow, root: Bytes, proof: seq<Bytes>)
    requires DistinctIds(log.events)
    requires Served(k, log, e, a, root, proof)
    ensures Accepts(k, root, e.hash, proof)
    ensures Accepts(k, a.pair.root, e.hash, proof) <==> a.pair.root == Root(k, WindowHashes(log.events, a.window))
  {
    var listed, hashes := ListEvents(log.events, a.window), WindowHashes(log.events, a.window);
    var idx: nat :| idx < |hashes| && listed[idx].id == e.id && proof == NodeProof(k, hashes, idx + 1);
    assert listed[idx] in listed;
    SameIdSameEvent(log.events, listed[idx], e);
    MadeProofsAccepted(k, hashes, idx);
  }

  /** End to end: after any serial run, an event inside some live window is served with an anchor whose window
      holds it, and the proof verifies against the root stored for that anchor; while live windows stay
      disjoint there is only one such anchor. */
  lemma EveryAnchoredEventProvable(k: Hash, s: Schedule, actions: seq<Action>, e: Event, a: AnchorRow)
    requires s.log.anchors == [] && GoodEvents(s.log.events) && LegalRun(k, s, actions)
    requires var log := Run(k, s, actions).log; e in log.events && a in log.anchors && LiveAt(a, e.at)
    ensures var log := Run(k, s, actions).log;
      var found := FindAnchorForEvent(log.anchors, e.at);
      && found.Some? && found.value in log.anchors && LiveAt(found.value, e.at)
      && (RunFits(k, s, actions) ==> found.value == a)
      && forall root, proof :: Served(k, log, e, found.value, root, proof) ==>
            root == found.value.pair.root && Accepts(k, found.value.pair.root, e.hash, proof)
  {
    RunKeepsGood(k, s, actions);
    var t := Run(k, s, actions);
    var found := FindAnchorForEvent(t.log.anchors, e.at).value;
    if RunFits(k, s, actions) {
      DisjointAlongIff(k, s, actions);
      DisjointAtEnd(k, s, actions);
      OneLiveRow(t.log.anchors, e.at, a, found);
    }
    assert RowIntact(k, t.log.events, found) by {
      var i :| 0 <= i < |t.log.anchors| && t.log.anchors[i] == found;
    }
    forall root, proof | Served(k, t.log, e, found, root, proof)
      ensures root == found.pair.root && Accepts(k, found.pair.root, e.hash, proof)
    {
      ServedProofVerifies(k, t.log, e, found, root, proof);
    }
  }

  lemma OneLiveRow(anchors: seq<AnchorRow>, at: int, a: AnchorRow, b: AnchorRow)
    requires DisjointAndIncreasing(anchors) && a in anchors && b in anchors && LiveAt(a, at) && LiveAt(b, at)
    ensures a == b
  {
    var i, j :| 0 <= i < |anchors| && 0 <= j < |anchors| && anchors[i] == a && anchors[j] == b;
    assert !(i < j) && !(j < i);
  }
}
