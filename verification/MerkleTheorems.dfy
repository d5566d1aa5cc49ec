/**
 What a root binds and what a proof proves.

 The layers of a tree are read as one binary tree whose shape has the odd nodes duplicated. Equal
 hashes then mean equal trees up to swapping children, unless two of the byte strings hashed on the
 way collide; everything below follows from that.
 */
module MerkleTheorems {
  import opened Bytes
  import opened Merkle
  import opened Sequences

  datatype Shape = Leaf(data: Bytes) | Node(left: Shape, right: Shape)

  function NodeHash(k: Hash, t: Shape): Bytes {
    match t
    case Leaf(data) => HashLeaf(k, data)
    case Node(l, r) => HashInternal(k, NodeHash(k, l), NodeHash(k, r))
  }

  /** The byte string whose hash is NodeHash. */
  function RootInput(k: Hash, t: Shape): (r: Bytes)
    ensures k(r) == NodeHash(k, t)
    ensures r != [] && r[0] == if t.Leaf? then 0 else 1
    ensures r in Inputs(k, t)
  {
    match t
    case Leaf(data) => LeafInput(data)
    case Node(l, r) => PairInput(NodeHash(k, l), NodeHash(k, r))
  }

  /** Every byte string hashed to get NodeHash. */
  function Inputs(k: Hash, t: Shape): set<Bytes> {
    match t
    case Leaf(data) => {LeafInput(data)}
    case Node(l, r) => {PairInput(NodeHash(k, l), NodeHash(k, r))} + Inputs(k, l) + Inputs(k, r)
  }

  function Members(t: Shape): set<Bytes> {
    match t
    case Leaf(data) => {data}
    case Node(l, r) => Members(l) + Members(r)
  }

  predicate Perfect(t: Shape, height: nat) {
    match t
    case Leaf(_) => height == 0
    case Node(l, r) => height > 0 && Perfect(l, height - 1) && Perfect(r, height - 1)
  }

  /** Equal up to swapping the two children of any node. */
  predicate Mirror(s: Shape, t: Shape) {
    if s.Leaf? || t.Leaf? then s == t
    else
      || (Mirror(s.left, t.left) && Mirror(s.right, t.right))
      || (Mirror(s.left, t.right) && Mirror(s.right, t.left))
  }

  // ---------- equal hashes ----------

  lemma PairInputSymmetric(a: Bytes, b: Bytes)
    ensures PairInput(a, b) == PairInput(b, a)
  {
    CompareAntisymmetric(a, b);
  }

  /** A node's input determines its two children up to order, whatever length the other side's
      second part has. */
  lemma PairInputInjective(a: Bytes, b: Bytes, c: Bytes, d: Bytes)
    requires |a| == DIGEST_LENGTH && |c| == DIGEST_LENGTH && |d| == DIGEST_LENGTH
    requires PairInput(a, b) == PairInput(c, d)
    ensures (a == c && b == d) || (a == d && b == c)
  {
    var lo, hi := if Compare(a, b) <= 0 then a else b, if Compare(a, b) <= 0 then b else a;
    var lo', hi' := if Compare(c, d) <= 0 then c else d, if Compare(c, d) <= 0 then d else c;
    var x, y := [1] + lo + hi, [1] + lo' + hi';
    assert x == y && |b| == DIGEST_LENGTH;
    assert lo == x[1..1 + DIGEST_LENGTH] && hi == x[1 + DIGEST_LENGTH..];
    assert lo' == y[1..1 + DIGEST_LENGTH] && hi' == y[1 + DIGEST_LENGTH..];
  }

  lemma SameInputOrCollision(k: Hash, x: Bytes, y: Bytes, all: set<Bytes>)
    requires x in all && y in all && k(x) == k(y)
    ensures x == y || Collision(k, all)
  {
  }

  lemma {:induction false} EqualHashesMirror(k: Hash, s: Shape, t: Shape, all: set<Bytes>)
    requires NodeHash(k, s) == NodeHash(k, t)
    requires Inputs(k, s) <= all && Inputs(k, t) <= all
    ensures Mirror(s, t) || Collision(k, all)
  {
    SameInputOrCollision(k, RootInput(k, s), RootInput(k, t), all);
    if RootInput(k, s) == RootInput(k, t) {
      assert RootInput(k, s)[0] == RootInput(k, t)[0];
      match (s, t)
      case (Leaf(d), Leaf(e)) =>
        assert LeafInput(d)[1..] == d && LeafInput(e)[1..] == e;
      case (Node(a, b), Node(c, d)) =>
        PairInputInjective(NodeHash(k, a), NodeHash(k, b), NodeHash(k, c), NodeHash(k, d));
        if NodeHash(k, a) == NodeHash(k, c) && NodeHash(k, b) == NodeHash(k, d) {
          EqualHashesMirror(k, a, c, all);
          EqualHashesMirror(k, b, d, all);
        } else {
          EqualHashesMirror(k, a, d, all);
          EqualHashesMirror(k, b, c, all);
        }
      case _ =>
    }
  }

  lemma {:induction false} MirrorEqualHashes(k: Hash, s: Shape, t: Shape)
    requires Mirror(s, t)
    ensures NodeHash(k, s) == NodeHash(k, t) && Members(s) == Members(t)
    ensures forall h :: Perfect(s, h) ==> Perfect(t, h)
  {
    match (s, t)
    case (Node(a, b), Node(c, d)) =>
      if Mirror(a, c) && Mirror(b, d) {
        MirrorEqualHashes(k, a, c);
        MirrorEqualHashes(k, b, d);
      } else {
        MirrorEqualHashes(k, a, d);
        MirrorEqualHashes(k, b, c);
        PairInputSymmetric(NodeHash(k, a), NodeHash(k, b));
      }
    case _ =>
  }

  // ---------- from layers to one shape ----------

  function Hashes(k: Hash, forest: seq<Shape>): (r: seq<Bytes>)
    ensures |r| == |forest|
  {
    seq(|forest|, i requires 0 <= i < |forest| => NodeHash(k, forest[i]))
  }

  function NextForest(forest: seq<Shape>): (r: seq<Shape>)
    ensures |r| == (|forest| + 1) / 2
  {
    seq((|forest| + 1) / 2, i requires 0 <= i < (|forest| + 1) / 2 =>
      Node(forest[2 * i], if 2 * i + 1 < |forest| then forest[2 * i + 1] else forest[2 * i]))
  }

  function TopShape(forest: seq<Shape>): Shape
    requires forest != []
    decreases |forest|
  {
    if |forest| == 1 then forest[0] else TopShape(NextForest(forest))
  }

  function ForestMembers(forest: seq<Shape>): set<Bytes> {
    set i, x | 0 <= i < |forest| && x in Members(forest[i]) :: x
  }

  ghost predicate AllPerfect(forest: seq<Shape>, height: nat) {
    forall i :: 0 <= i < |forest| ==> Perfect(forest[i], height)
  }

  /** The number of layers above a layer of n nodes. */
  function Height(n: nat): nat
    requires n > 0
  {
    if n == 1 then 0 else 1 + Height((n + 1) / 2)
  }

  function Pow2(e: nat): nat {
    if e == 0 then 1 else 2 * Pow2(e - 1)
  }

  lemma {:induction false} HeightBounds(n: nat)
    requires n > 0
    ensures n <= Pow2(Height(n))
    ensures n > 1 ==> Height(n) > 0 && Pow2(Height(n) - 1) < n
  {
    if n > 1 {
      HeightBounds((n + 1) / 2);
    }
  }

  lemma NextForestMembers(forest: seq<Shape>)
    ensures ForestMembers(NextForest(forest)) == ForestMembers(forest)
  {
    var next := NextForest(forest);
    forall x | x in ForestMembers(forest) ensures x in ForestMembers(next) {
      var i :| 0 <= i < |forest| && x in Members(forest[i]);
      assert x in Members(next[i / 2]);
    }
    forall x | x in ForestMembers(next) ensures x in ForestMembers(forest) {
      var i :| 0 <= i < |next| && x in Members(next[i]);
      assert x in Members(forest[2 * i]) || (2 * i + 1 < |forest| && x in Members(forest[2 * i + 1]));
    }
  }

  lemma {:induction false} TopShapeMembers(forest: seq<Shape>)
    requires forest != []
    ensures Members(TopShape(forest)) == ForestMembers(forest)
    decreases |forest|
  {
    if |forest| == 1 {
      assert ForestMembers(forest) == Members(forest[0]);
    } else {
      TopShapeMembers(NextForest(forest));
      NextForestMembers(forest);
    }
  }

  lemma {:induction false} TopShapePerfect(forest: seq<Shape>, height: nat)
    requires forest != [] && AllPerfect(forest, height)
    ensures Perfect(TopShape(forest), height + Height(|forest|))
    decreases |forest|
  {
    if |forest| > 1 {
      TopShapePerfect(NextForest(forest), height + 1);
    }
  }

  lemma NextLayerHashes(k: Hash, forest: seq<Shape>)
    ensures NextLayer(k, Hashes(k, forest)) == Hashes(k, NextForest(forest))
  {
  }

  lemma {:induction false} TopShapeHash(k: Hash, forest: seq<Shape>)
    requires forest != []
    ensures Top(Layers(k, Hashes(k, forest))) == NodeHash(k, TopShape(forest))
    decreases |forest|
  {
    if |forest| > 1 {
      NextLayerHashes(k, forest);
      TopShapeHash(k, NextForest(forest));
    }
  }

  function Forest(data: seq<Bytes>): (r: seq<Shape>)
    ensures |r| == |data|
  {
    seq(|data|, i requires 0 <= i < |data| => Leaf(data[i]))
  }

  lemma ForestFacts(k: Hash, data: seq<Bytes>)
    ensures Hashes(k, Forest(data)) == LeafLayer(k, data)
    ensures ForestMembers(Forest(data)) == Elements(data)
  {
    forall x | x in data ensures x in ForestMembers(Forest(data)) {
      var i :| 0 <= i < |data| && data[i] == x;
      assert x in Members(Forest(data)[i]);
    }
  }

  function ShapeOf(k: Hash, leaves: seq<Bytes>): Shape { TopShape(Forest(LeafData(k, leaves))) }

  lemma ShapeHash(k: Hash, leaves: seq<Bytes>)
    requires leaves != []
    ensures Root(k, leaves) == NodeHash(k, ShapeOf(k, leaves))
  {
    ForestFacts(k, LeafData(k, leaves));
    TopShapeHash(k, Forest(LeafData(k, leaves)));
  }

  lemma ShapeMembers(k: Hash, leaves: seq<Bytes>)
    ensures Members(ShapeOf(k, leaves)) == {CountLeaf(k, |leaves|)} + Elements(leaves)
  {
    ForestFacts(k, LeafData(k, leaves));
    TopShapeMembers(Forest(LeafData(k, leaves)));
    ElementsCons(CountLeaf(k, |leaves|), leaves);
  }

  lemma ShapePerfect(k: Hash, leaves: seq<Bytes>)
    ensures Perfect(ShapeOf(k, leaves), Height(|leaves| + 1))
  {
    LeavesPerfect(LeafData(k, leaves));
  }

  lemma LeavesPerfect(data: seq<Bytes>)
    requires data != []
    ensures Perfect(TopShape(Forest(data)), Height(|data|))
  {
    TopShapePerfect(Forest(data), 0);
  }

  /** Every byte string hashed when the tree over `leaves` is built. */
  function TreeInputs(k: Hash, leaves: seq<Bytes>): set<Bytes> {
    if leaves == [] then {} else Inputs(k, ShapeOf(k, leaves)) + {COUNT_LEAF_LABEL, CountInput(k, |leaves|)}
  }

  // ---------- what a root binds ----------

  lemma RootBindsShape(k: Hash, one: seq<Bytes>, two: seq<Bytes>)
    requires one != [] && two != []
    ensures Mirror(ShapeOf(k, one), ShapeOf(k, two)) ==> Root(k, one) == Root(k, two)
    ensures Root(k, one) == Root(k, two) ==>
      Mirror(ShapeOf(k, one), ShapeOf(k, two)) || Collision(k, TreeInputs(k, one) + TreeInputs(k, two))
  {
    ShapeHash(k, one);
    ShapeHash(k, two);
    if Mirror(ShapeOf(k, one), ShapeOf(k, two)) {
      MirrorEqualHashes(k, ShapeOf(k, one), ShapeOf(k, two));
    } else if Root(k, one) == Root(k, two) {
      EqualHashesMirror(k, ShapeOf(k, one), ShapeOf(k, two), TreeInputs(k, one) + TreeInputs(k, two));
    }
  }

  lemma CountLeafInjective(k: Hash, m: nat, n: nat, all: set<Bytes>)
    requires m < COUNT_LIMIT && n < COUNT_LIMIT
    requires CountLeaf(k, m) == CountLeaf(k, n)
    requires CountInput(k, m) in all && CountInput(k, n) in all
    ensures m == n || Collision(k, all)
  {
    if CountInput(k, m) == CountInput(k, n) {
      var head := |k(COUNT_LEAF_LABEL)| + 24;
      assert CountInput(k, m)[head..] == BigEndian(m, 8);
      assert CountInput(k, n)[head..] == BigEndian(n, 8);
      BigEndianInjective(m, n, 8);
    }
  }

  /** No leaf is the count leaf of `n`. */
  predicate AvoidsCount(k: Hash, leaves: seq<Bytes>, n: nat) { CountLeaf(k, n) !in leaves }

  /** Two windows with the same root have the same number of events and the same set of event
      hashes, or two of the byte strings hashed to build the trees collide. */
  lemma RootBindsCountAndSet(k: Hash, one: seq<Bytes>, two: seq<Bytes>)
    requires 0 < |one| < COUNT_LIMIT && 0 < |two| < COUNT_LIMIT
    requires AvoidsCount(k, one, |two|) && AvoidsCount(k, two, |one|)
    requires Root(k, one) == Root(k, two)
    ensures (|one| == |two| && Elements(one) == Elements(two))
         || Collision(k, TreeInputs(k, one) + TreeInputs(k, two))
  {
    var all := TreeInputs(k, one) + TreeInputs(k, two);
    ShapeMembers(k, one);
    ShapeMembers(k, two);
    RootBindsShape(k, one, two);
    if Mirror(ShapeOf(k, one), ShapeOf(k, two)) {
      MirrorEqualHashes(k, ShapeOf(k, one), ShapeOf(k, two));
      assert CountLeaf(k, |one|) in {CountLeaf(k, |two|)} + Elements(two);
      CountLeafInjective(k, |one|, |two|, all);
      if |one| == |two| {
        assert Elements(one) == Members(ShapeOf(k, one)) - {CountLeaf(k, |one|)};
        assert Elements(two) == Members(ShapeOf(k, two)) - {CountLeaf(k, |one|)};
      }
    }
  }

  /** When one window's hashes are pairwise distinct, the other window is a permutation of it. */
  lemma RootBindsPermutation(k: Hash, one: seq<Bytes>, two: seq<Bytes>)
    requires 0 < |one| < COUNT_LIMIT && 0 < |two| < COUNT_LIMIT
    requires AvoidsCount(k, one, |two|) && AvoidsCount(k, two, |one|)
    requires Distinct(one)
    requires Root(k, one) == Root(k, two)
    ensures multiset(one) == multiset(two) || Collision(k, TreeInputs(k, one) + TreeInputs(k, two))
  {
    RootBindsCountAndSet(k, one, two);
    if |one| == |two| && Elements(one) == Elements(two) {
      DistinctCount(one);
      DistinctCount(two);
      DistinctMultiset(one);
      DistinctMultiset(two);
    }
  }

  lemma TwoTrees(f: seq<Shape>)
    requires |f| == 2
    ensures TopShape(f) == Node(f[0], f[1])
  {
    assert NextForest(f) == [Node(f[0], f[1])];
  }

  lemma FourNodes(f: seq<Shape>)
    requires 3 <= |f| <= 4
    ensures TopShape(f) == Node(Node(f[0], f[1]), Node(f[2], f[|f| - 1]))
  {
    assert NextForest(f) == [Node(f[0], f[1]), Node(f[2], f[|f| - 1])];
    TwoTrees(NextForest(f));
  }

  lemma SevenNodes(f: seq<Shape>)
    requires |f| == 7
    ensures TopShape(f)
         == Node(Node(Node(f[0], f[1]), Node(f[2], f[3])), Node(Node(f[4], f[5]), Node(f[6], f[6])))
  {
    var g := [Node(f[0], f[1]), Node(f[2], f[3]), Node(f[4], f[5]), Node(f[6], f[6])];
    assert NextForest(f) == g;
    FourNodes(g);
  }

  lemma {:induction false} MirrorReflexive(t: Shape)
    ensures Mirror(t, t)
  {
    if t.Node? {
      MirrorReflexive(t.left);
      MirrorReflexive(t.right);
    }
  }

  function SevenLeaves(c: Bytes, x: Bytes, y: Bytes, z: Bytes, p: Bytes, q: Bytes, r: Bytes): Shape {
    Node(Node(Node(Leaf(c), Leaf(x)), Node(Leaf(y), Leaf(z))), Node(Node(Leaf(p), Leaf(q)), Node(Leaf(r), Leaf(r))))
  }

  lemma SwapRepetitions(c: Bytes, x: Bytes, y: Bytes, z: Bytes, a: Bytes, b: Bytes)
    ensures Mirror(SevenLeaves(c, x, y, z, a, a, b), SevenLeaves(c, x, y, z, b, b, a))
  {
    var left, twoA, twoB := SevenLeaves(c, x, y, z, a, a, b).left, Node(Leaf(a), Leaf(a)), Node(Leaf(b), Leaf(b));
    MirrorReflexive(left);
    MirrorReflexive(twoA);
    MirrorReflexive(twoB);
    assert Mirror(Node(twoA, twoB), Node(twoB, twoA));
  }

  /** Distinctness is needed: with repeated hashes the root does not even bind how often each occurs. */
  lemma RepetitionsNotBound(k: Hash, x: Bytes, y: Bytes, z: Bytes, a: Bytes, b: Bytes)
    ensures Root(k, [x, y, z, a, a, b]) == Root(k, [x, y, z, b, b, a])
    ensures a != b ==> multiset([x, y, z, a, a, b]) != multiset([x, y, z, b, b, a])
  {
    var one, two := [x, y, z, a, a, b], [x, y, z, b, b, a];
    assert ShapeOf(k, one) == SevenLeaves(CountLeaf(k, 6), x, y, z, a, a, b) by {
      SevenNodes(Forest(LeafData(k, one)));
    }
    assert ShapeOf(k, two) == SevenLeaves(CountLeaf(k, 6), x, y, z, b, b, a) by {
      SevenNodes(Forest(LeafData(k, two)));
    }
    SwapRepetitions(CountLeaf(k, 6), x, y, z, a, b);
    RootBindsShape(k, one, two);
    if a != b {
      assert multiset(one)[a] == multiset(two)[a] + 1;
    }
  }

  /** Keeping count leaves out of the event hashes is needed too: otherwise windows of two and of
      three events can share a root. */
  lemma CountLeafAmongEventsNotBound(k: Hash, b: Bytes)
    ensures Root(k, [CountLeaf(k, 3), b]) == Root(k, [CountLeaf(k, 2), b, b])
  {
    var one, two := [CountLeaf(k, 3), b], [CountLeaf(k, 2), b, b];
    ShapeOfTwoAndThree(k, CountLeaf(k, 3), b);
    ShapeOfTwoAndThree(k, CountLeaf(k, 2), b);
    SwapPair(CountLeaf(k, 2), CountLeaf(k, 3), b);
    RootBindsShape(k, one, two);
  }

  lemma ShapeOfTwoAndThree(k: Hash, a: Bytes, b: Bytes)
    ensures ShapeOf(k, [a, b]) == Node(Node(Leaf(CountLeaf(k, 2)), Leaf(a)), Node(Leaf(b), Leaf(b)))
    ensures ShapeOf(k, [a, b, b]) == Node(Node(Leaf(CountLeaf(k, 3)), Leaf(a)), Node(Leaf(b), Leaf(b)))
  {
    FourNodes(Forest(LeafData(k, [a, b])));
    FourNodes(Forest(LeafData(k, [a, b, b])));
  }

  lemma SwapPair(p: Bytes, q: Bytes, b: Bytes)
    ensures Mirror(Node(Node(Leaf(p), Leaf(q)), Node(Leaf(b), Leaf(b))),
                   Node(Node(Leaf(q), Leaf(p)), Node(Leaf(b), Leaf(b))))
  {
    MirrorReflexive(Node(Leaf(b), Leaf(b)));
    MirrorReflexive(Leaf(p));
    MirrorReflexive(Leaf(q));
    assert Mirror(Node(Leaf(p), Leaf(q)), Node(Leaf(q), Leaf(p)));
  }

  /** The root of a non-empty window is a hash output, so it is not the empty tree's zero root
      unless one of the inputs hashes to zero. */
  lemma NonEmptyRootIsNotZero(k: Hash, leaves: seq<Bytes>)
    requires leaves != []
    ensures Root(k, leaves) != Root(k, []) || ZeroPreimage(k, TreeInputs(k, leaves))
  {
    ShapeHash(k, leaves);
    var x := RootInput(k, ShapeOf(k, leaves));
    assert x in TreeInputs(k, leaves) && k(x) == Root(k, leaves);
  }

  // ---------- what a proof proves ----------

  /** `proof` is the list of siblings, bottom first, on a way from a leaf holding `leaf` to the root. */
  predicate ProofIn(k: Hash, t: Shape, leaf: Bytes, proof: seq<Bytes>) {
    match t
    case Leaf(data) => proof == [] && data == leaf
    case Node(l, r) =>
      proof != [] &&
      var up, last := proof[..|proof| - 1], proof[|proof| - 1];
      (last == NodeHash(k, r) && ProofIn(k, l, leaf, up)) || (last == NodeHash(k, l) && ProofIn(k, r, leaf, up))
  }

  /** Every byte string a verifier hashes while checking a proof. */
  function ProofInputs(k: Hash, leaf: Bytes, proof: seq<Bytes>): set<Bytes> {
    if proof == [] then {LeafInput(leaf)}
    else
      var up := proof[..|proof| - 1];
      ProofInputs(k, leaf, up) + {PairInput(Fold(k, HashLeaf(k, leaf), up), proof[|proof| - 1])}
  }

  function LastInput(k: Hash, leaf: Bytes, proof: seq<Bytes>): (r: Bytes)
    ensures k(r) == Fold(k, HashLeaf(k, leaf), proof)
    ensures r != [] && r[0] == if proof == [] then 0 else 1
    ensures r in ProofInputs(k, leaf, proof)
  {
    if proof == [] then LeafInput(leaf)
    else PairInput(Fold(k, HashLeaf(k, leaf), proof[..|proof| - 1]), proof[|proof| - 1])
  }

  lemma {:induction false} ProofInAccepted(k: Hash, t: Shape, leaf: Bytes, proof: seq<Bytes>)
    requires ProofIn(k, t, leaf, proof)
    ensures Accepts(k, NodeHash(k, t), leaf, proof) && leaf in Members(t)
    ensures forall h :: Perfect(t, h) ==> |proof| == h
  {
    if t.Node? {
      var up, last := proof[..|proof| - 1], proof[|proof| - 1];
      if last == NodeHash(k, t.right) && ProofIn(k, t.left, leaf, up) {
        ProofInAccepted(k, t.left, leaf, up);
      } else {
        ProofInAccepted(k, t.right, leaf, up);
        PairInputSymmetric(NodeHash(k, t.left), NodeHash(k, t.right));
      }
    }
  }

  lemma {:induction false} AcceptedProofIn(k: Hash, t: Shape, leaf: Bytes, proof: seq<Bytes>, all: set<Bytes>)
    requires Accepts(k, NodeHash(k, t), leaf, proof)
    requires Inputs(k, t) <= all && ProofInputs(k, leaf, proof) <= all
    ensures ProofIn(k, t, leaf, proof) || Collision(k, all)
  {
    var x, y := LastInput(k, leaf, proof), RootInput(k, t);
    SameInputOrCollision(k, x, y, all);
    if x == y {
      assert x[0] == y[0];
      if t.Leaf? {
        assert LeafInput(leaf)[1..] == leaf && LeafInput(t.data)[1..] == t.data;
      } else {
        var up, last := proof[..|proof| - 1], proof[|proof| - 1];
        var acc := Fold(k, HashLeaf(k, leaf), up);
        PairInputInjective(acc, last, NodeHash(k, t.left), NodeHash(k, t.right));
        if acc == NodeHash(k, t.left) && last == NodeHash(k, t.right) {
          AcceptedProofIn(k, t.left, leaf, up, all);
        } else {
          AcceptedProofIn(k, t.right, leaf, up, all);
        }
      }
    }
  }

  /** A verifier accepts exactly the sibling paths of the tree, whatever leaf and however long a
      proof it is given, unless the inputs hashed by the tree and by the verifier collide. */
  lemma AcceptsExactlyPaths(k: Hash, leaves: seq<Bytes>, leaf: Bytes, proof: seq<Bytes>)
    requires leaves != []
    ensures ProofIn(k, ShapeOf(k, leaves), leaf, proof) ==> Accepts(k, Root(k, leaves), leaf, proof)
    ensures Accepts(k, Root(k, leaves), leaf, proof) ==>
      || ProofIn(k, ShapeOf(k, leaves), leaf, proof)
      || Collision(k, TreeInputs(k, leaves) + ProofInputs(k, leaf, proof))
  {
    ShapeHash(k, leaves);
    if ProofIn(k, ShapeOf(k, leaves), leaf, proof) {
      ProofInAccepted(k, ShapeOf(k, leaves), leaf, proof);
    } else if Accepts(k, Root(k, leaves), leaf, proof) {
      AcceptedProofIn(k, ShapeOf(k, leaves), leaf, proof, TreeInputs(k, leaves) + ProofInputs(k, leaf, proof));
    }
  }

  /** Soundness: an accepted leaf is an event hash of the window or its count leaf, and the proof is
      as long as the tree is high. */
  lemma AcceptedLeafIsMember(k: Hash, leaves: seq<Bytes>, leaf: Bytes, proof: seq<Bytes>)
    requires leaves != []
    requires Accepts(k, Root(k, leaves), leaf, proof)
    ensures ((leaf in leaves || leaf == CountLeaf(k, |leaves|)) && |proof| == Height(|leaves| + 1))
         || Collision(k, TreeInputs(k, leaves) + ProofInputs(k, leaf, proof))
  {
    AcceptsExactlyPaths(k, leaves, leaf, proof);
    if ProofIn(k, ShapeOf(k, leaves), leaf, proof) {
      ProofInAccepted(k, ShapeOf(k, leaves), leaf, proof);
      ShapeMembers(k, leaves);
      ShapePerfect(k, leaves);
    }
  }

  /** No proof shows a count other than the number of events in the window. */
  lemma AcceptedCountIsTrue(k: Hash, leaves: seq<Bytes>, n: nat, proof: seq<Bytes>)
    requires 0 < |leaves| < COUNT_LIMIT && n < COUNT_LIMIT
    requires AvoidsCount(k, leaves, n)
    requires Accepts(k, Root(k, leaves), CountLeaf(k, n), proof)
    ensures n == |leaves|
         || Collision(k, TreeInputs(k, leaves) + ProofInputs(k, CountLeaf(k, n), proof) + {CountInput(k, n)})
  {
    var few := TreeInputs(k, leaves) + ProofInputs(k, CountLeaf(k, n), proof);
    AcceptedLeafIsMember(k, leaves, CountLeaf(k, n), proof);
    CollisionMonotone(k, few, few + {CountInput(k, n)});
    if CountLeaf(k, n) == CountLeaf(k, |leaves|) {
      CountLeafInjective(k, n, |leaves|, few + {CountInput(k, n)});
    }
  }

  // ---------- completeness ----------

  lemma {:induction false} FoldFromFront(k: Hash, acc: Bytes, first: Bytes, rest: seq<Bytes>)
    ensures Fold(k, acc, [first] + rest) == Fold(k, HashInternal(k, acc, first), rest)
  {
    var proof := [first] + rest;
    if rest == [] {
      assert proof[..0] == [];
    } else {
      assert proof[..|proof| - 1] == [first] + rest[..|rest| - 1];
      FoldFromFront(k, acc, first, rest[..|rest| - 1]);
    }
  }

  lemma ParentHash(k: Hash, layer: seq<Bytes>, index: nat)
    requires index < |layer|
    ensures HashInternal(k, layer[index], Sibling(layer, index)) == NextLayer(k, layer)[index / 2]
  {
    var parent := index / 2;
    var left, right := layer[2 * parent], if 2 * parent + 1 < |layer| then layer[2 * parent + 1] else layer[2 * parent];
    assert NextLayer(k, layer)[parent] == HashInternal(k, left, right);
    assert (layer[index], Sibling(layer, index)) == (left, right)
        || (layer[index], Sibling(layer, index)) == (right, left);
    PairInputSymmetric(left, right);
  }

  lemma {:induction false} PathFolds(k: Hash, layers: seq<seq<Bytes>>, l: nat, index: nat)
    requires Chained(k, layers) && Halving(layers) && l < |layers| && index < |layers[l]|
    ensures Fold(k, layers[l][index], SiblingPath(layers, l, index)) == Top(layers)
    ensures |SiblingPath(layers, l, index)| == |layers| - 1 - l
    decreases |layers| - l
  {
    if l < |layers| - 1 {
      var above := SiblingPath(layers, l + 1, index / 2);
      PathFolds(k, layers, l + 1, index / 2);
      ParentHash(k, layers[l], index);
      FoldFromFront(k, layers[l][index], Sibling(layers[l], index), above);
    }
  }

  lemma {:induction false} LayerCount(k: Hash, layer: seq<Bytes>)
    requires layer != []
    ensures |Layers(k, layer)| == Height(|layer|) + 1
    decreases |layer|
  {
    if |layer| > 1 {
      LayerCount(k, NextLayer(k, layer));
    }
  }

  /** The proof of leaf number `index` of the tree, where number 0 is the count leaf. */
  function NodeProof(k: Hash, leaves: seq<Bytes>, index: nat): seq<Bytes>
    requires leaves != [] && index <= |leaves|
  {
    LayersChained(k, LeafLayer(k, LeafData(k, leaves)));
    SiblingPath(Tree(k, leaves).layers, 0, index)
  }

  lemma NodeProofAccepted(k: Hash, leaves: seq<Bytes>, index: nat)
    requires leaves != [] && index <= |leaves|
    ensures Accepts(k, Root(k, leaves), LeafData(k, leaves)[index], NodeProof(k, leaves, index))
    ensures |NodeProof(k, leaves, index)| == Height(|leaves| + 1)
  {
    var layer := LeafLayer(k, LeafData(k, leaves));
    LayersChained(k, layer);
    LayerCount(k, layer);
    PathFolds(k, Layers(k, layer), 0, index);
  }

  /** Completeness: the proof made for any event, and the one made for the count, is accepted. */
  lemma MadeProofsAccepted(k: Hash, leaves: seq<Bytes>, index: nat)
    requires index < |leaves|
    ensures Accepts(k, Root(k, leaves), leaves[index], NodeProof(k, leaves, index + 1))
    ensures Accepts(k, Root(k, leaves), CountLeaf(k, |leaves|), NodeProof(k, leaves, 0))
  {
    NodeProofAccepted(k, leaves, index + 1);
    NodeProofAccepted(k, leaves, 0);
  }

  /** Every made proof is as long as the base-two logarithm of the number of leaves, rounded up. */
  lemma MadeProofLength(k: Hash, leaves: seq<Bytes>, index: nat)
    requires leaves != [] && index <= |leaves|
    ensures var h := |NodeProof(k, leaves, index)|; 0 < h && Pow2(h - 1) < |leaves| + 1 <= Pow2(h)
  {
    NodeProofAccepted(k, leaves, index);
    HeightBounds(|leaves| + 1);
  }
}
