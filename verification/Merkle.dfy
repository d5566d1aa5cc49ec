/**
 The Merkle tree of one anchor window: a synthetic count leaf at index 0, sorted-pair hashing,
 an odd trailing node paired with itself, and 0x00 / 0x01 domain tags.

 The functions say what the tree, a proof and a verification are; the methods are the loops that
 compute them.
 */
module Merkle {
  import opened Bytes

  /** "brain.audit.leaf-count.v1" in UTF-8. */
  const COUNT_LEAF_LABEL: Bytes := [
    98, 114, 97, 105, 110, 46, 97, 117, 100, 105, 116, 46,
    108, 101, 97, 102, 45, 99, 111, 117, 110, 116, 46, 118, 49
  ]

  lemma LabelSpells()
    ensures var text := "brain.audit.leaf-count.v1";
      |COUNT_LEAF_LABEL| == |text| && forall i :: 0 <= i < |text| ==> COUNT_LEAF_LABEL[i] == text[i] as int
  {
  }

  /** A count is written into eight bytes. */
  const COUNT_LIMIT: nat := 0x1_0000_0000_0000_0000

  datatype MerkleTree = MerkleTree(root: Bytes, leafCount: nat, layers: seq<seq<Bytes>>)

  function LeafInput(leaf: Bytes): Bytes { [0] + leaf }

  function HashLeaf(k: Hash, leaf: Bytes): Bytes { k(LeafInput(leaf)) }

  function PairInput(a: Bytes, b: Bytes): Bytes {
    if Compare(a, b) <= 0 then [1] + a + b else [1] + b + a
  }

  function HashInternal(k: Hash, a: Bytes, b: Bytes): Bytes { k(PairInput(a, b)) }

  /** The 32-byte big-endian word of a count: only the last eight bytes are written. */
  function CountWord(n: nat): Bytes { Zeros(24) + BigEndian(n, 8) }

  function CountInput(k: Hash, n: nat): Bytes { k(COUNT_LEAF_LABEL) + CountWord(n) }

  function CountLeaf(k: Hash, n: nat): Bytes { k(CountInput(k, n)) }

  /** The layer above `layer`; the last node of an odd layer is paired with itself. */
  function NextLayer(k: Hash, layer: seq<Bytes>): (next: seq<Bytes>)
    ensures |next| == (|layer| + 1) / 2
  {
    seq((|layer| + 1) / 2, i requires 0 <= i < (|layer| + 1) / 2 =>
      HashInternal(k, layer[2 * i], if 2 * i + 1 < |layer| then layer[2 * i + 1] else layer[2 * i]))
  }

  /** `layer` and every layer above it, the last one holding just the root. */
  function Layers(k: Hash, layer: seq<Bytes>): (layers: seq<seq<Bytes>>)
    requires layer != []
    ensures layers != []
    decreases |layer|
  {
    if |layer| == 1 then [layer] else [layer] + Layers(k, NextLayer(k, layer))
  }

  /** The single node of the last layer. */
  function Top(layers: seq<seq<Bytes>>): Bytes {
    if layers == [] || layers[|layers| - 1] == [] then [] else layers[|layers| - 1][0]
  }

  /** The data at the bottom of the tree over `leaves`: the count leaf, then the event hashes. */
  function LeafData(k: Hash, leaves: seq<Bytes>): (data: seq<Bytes>)
    ensures |data| == |leaves| + 1
  {
    [CountLeaf(k, |leaves|)] + leaves
  }

  function LeafLayer(k: Hash, data: seq<Bytes>): (layer: seq<Bytes>)
    ensures |layer| == |data|
  {
    seq(|data|, i requires 0 <= i < |data| => HashLeaf(k, data[i]))
  }

  function Tree(k: Hash, leaves: seq<Bytes>): MerkleTree {
    if leaves == [] then MerkleTree(ZeroDigest(), 0, [])
    else
      var layers := Layers(k, LeafLayer(k, LeafData(k, leaves)));
      MerkleTree(Top(layers), |leaves|, layers)
  }

  function Root(k: Hash, leaves: seq<Bytes>): Bytes { Tree(k, leaves).root }

  /** The other child under the same parent; the node itself when it has no partner. */
  function Sibling(layer: seq<Bytes>, index: nat): Bytes
    requires index < |layer|
  {
    var pair := if index % 2 == 0 then index + 1 else index - 1;
    if pair < |layer| then layer[pair] else layer[index]
  }

  /** Each layer is half as long as the one below it, down to the root. */
  predicate Halving(layers: seq<seq<Bytes>>) {
    layers != [] && |layers[|layers| - 1]| == 1 &&
    forall l :: 0 <= l < |layers| - 1 ==> |layers[l + 1]| == (|layers[l]| + 1) / 2
  }

  /** The siblings met on the way up from node `index` of layer `l` to the root. */
  function SiblingPath(layers: seq<seq<Bytes>>, l: nat, index: nat): seq<Bytes>
    requires Halving(layers) && l < |layers| && index < |layers[l]|
    decreases |layers| - l
  {
    if l == |layers| - 1 then []
    else [Sibling(layers[l], index)] + SiblingPath(layers, l + 1, index / 2)
  }

  /** What a verifier computes from a node hash and a proof. */
  function Fold(k: Hash, acc: Bytes, proof: seq<Bytes>): Bytes {
    if proof == [] then acc
    else HashInternal(k, Fold(k, acc, proof[..|proof| - 1]), proof[|proof| - 1])
  }

  predicate Accepts(k: Hash, root: Bytes, leaf: Bytes, proof: seq<Bytes>) {
    Fold(k, HashLeaf(k, leaf), proof) == root
  }

  /** Every layer is computed from the one below it, up to a single node. */
  predicate Chained(k: Hash, layers: seq<seq<Bytes>>) {
    layers != [] && |layers[|layers| - 1]| == 1 &&
    forall l :: 0 <= l < |layers| - 1 ==> layers[l + 1] == NextLayer(k, layers[l])
  }

  lemma {:induction false} LayersChained(k: Hash, layer: seq<Bytes>)
    requires layer != []
    ensures Chained(k, Layers(k, layer)) && Layers(k, layer)[0] == layer
    decreases |layer|
  {
    if |layer| > 1 {
      LayersChained(k, NextLayer(k, layer));
    }
  }

  // ---------- the loops ----------

  /** Buffer.writeBigUInt64BE, for a field of any width at the end of the buffer. */
  method WriteBigEndian(buffer: array<byte>, value: nat, width: nat)
    requires width <= buffer.Length
    modifies buffer
    ensures buffer[..] == old(buffer[..buffer.Length - width]) + BigEndian(value, width)
    ensures value < Pow256(width) ==> ReadBigEndian(buffer[buffer.Length - width..], 0) == value
  {
    var start := buffer.Length - width;
    var rest, i := value, width;
    while i > 0
      invariant 0 <= i <= width
      invariant buffer[..start] == old(buffer[..start])
      invariant BigEndian(value, width) == BigEndian(rest, i) + buffer[start + i..]
    {
      buffer[start + i - 1] := rest % 256;
      assert buffer[start + i - 1..] == [rest % 256] + buffer[start + i..];
      rest, i := rest / 256, i - 1;
    }
    FieldReadsBack(value, width);
  }

  /** The word of a count that fits is read back from its 32 bytes. */
  lemma CountWordReadsBack(n: nat)
    requires n < COUNT_LIMIT
    ensures |CountWord(n)| == 32 && ReadBigEndian(CountWord(n), 0) == n
  {
    assert Pow256(8) == COUNT_LIMIT;
    BigEndianReadsBack(n, 8, 24);
  }

  /** Two nodes are hashed under the tag 1, the smaller one in the order of a dictionary first. */
  lemma PairIsSorted(k: Hash, a: Bytes, b: Bytes)
    ensures HashInternal(k, a, b) == HashInternal(k, b, a)
    ensures (exists i: nat :: SmallerAt(a, b, i)) ==> HashInternal(k, a, b) == k([1] + a + b)
  {
    CompareAntisymmetric(a, b);
    CompareIsLexicographic(a, b);
  }

  /** countLeaf writes the count into the tail of a zeroed 32-byte buffer before hashing. */
  method MakeCountLeaf(k: Hash, leafCount: nat) returns (leaf: Bytes)
    ensures leaf == CountLeaf(k, leafCount)
    ensures leafCount < COUNT_LIMIT ==>
      exists word: Bytes :: |word| == 32 && ReadBigEndian(word, 0) == leafCount && leaf == k(k(COUNT_LEAF_LABEL) + word)
  {
    var word := new byte[32](_ => 0);
    assert word[..24] == Zeros(24);
    WriteBigEndian(word, leafCount, 8);
    leaf := k(k(COUNT_LEAF_LABEL) + word[..]);
    if leafCount < COUNT_LIMIT {
      CountWordReadsBack(leafCount);
    }
  }

  method BuildLayer(k: Hash, prev: seq<Bytes>) returns (next: seq<Bytes>)
    ensures next == NextLayer(k, prev)
  {
    next := [];
    var i := 0;
    while i < |prev|
      invariant i == 2 * |next| && i <= |prev| + 1
      invariant next == NextLayer(k, prev)[..|next|]
    {
      var a := prev[i];
      var b := if i + 1 < |prev| then prev[i + 1] else a;
      next := next + [HashInternal(k, a, b)];
      i := i + 2;
    }
  }

  method BuildLayers(k: Hash, bottom: seq<Bytes>) returns (layers: seq<seq<Bytes>>)
    requires bottom != []
    ensures layers == Layers(k, bottom)
  {
    layers := [bottom];
    var top := bottom;
    ghost var below := [];
    while |top| > 1
      invariant top != []
      invariant layers == below + [top]
      invariant Layers(k, bottom) == below + Layers(k, top)
      decreases |top|
    {
      var next := BuildLayer(k, top);
      ClimbOneLayer(k, below, top);
      below, layers, top := layers, layers + [next], next;
    }
    assert Layers(k, top) == [top];
  }

  lemma ClimbOneLayer(k: Hash, below: seq<seq<Bytes>>, top: seq<Bytes>)
    requires |top| > 1
    ensures below + Layers(k, top) == (below + [top]) + Layers(k, NextLayer(k, top))
  {
    var above := Layers(k, NextLayer(k, top));
    assert below + ([top] + above) == (below + [top]) + above;
  }

  method BuildTree(k: Hash, leaves: seq<Bytes>) returns (tree: MerkleTree)
    ensures tree == Tree(k, leaves) && tree.leafCount == |leaves|
    ensures if leaves == [] then tree.root == ZeroDigest() && tree.layers == [] else Chained(k, tree.layers)
  {
    if |leaves| == 0 {
      return MerkleTree(ZeroDigest(), 0, []);
    }
    var count := MakeCountLeaf(k, |leaves|);
    var nodes := [count] + leaves;
    var layers := BuildLayers(k, LeafLayer(k, nodes));
    tree := MerkleTree(Top(layers), |leaves|, layers);
    LayersChained(k, LeafLayer(k, nodes));
  }

  method ProofForNode(tree: MerkleTree, nodeIndex: nat) returns (proof: seq<Bytes>)
    requires tree.layers != [] ==> Halving(tree.layers) && nodeIndex < |tree.layers[0]|
    ensures proof == if tree.layers == [] then [] else SiblingPath(tree.layers, 0, nodeIndex)
  {
    if |tree.layers| == 0 {
      return [];
    }
    proof := [];
    var idx: nat := nodeIndex;
    var l := 0;
    while l < |tree.layers| - 1
      invariant 0 <= l <= |tree.layers| - 1
      invariant idx < |tree.layers[l]|
      invariant proof + SiblingPath(tree.layers, l, idx) == SiblingPath(tree.layers, 0, nodeIndex)
    {
      var layer := tree.layers[l];
      var pair := if idx % 2 == 0 then idx + 1 else idx - 1;
      var sibling := if pair < |layer| then layer[pair] else layer[idx];
      proof := proof + [sibling];
      idx := idx / 2;
      l := l + 1;
    }
  }

  /** The proof of event leaf `leafIndex`: event leaves sit one to the right of the count leaf. */
  method MakeProof(tree: MerkleTree, leafIndex: nat) returns (proof: seq<Bytes>)
    requires tree.layers != [] ==> Halving(tree.layers) && leafIndex + 1 < |tree.layers[0]|
    ensures proof == if tree.layers == [] then [] else SiblingPath(tree.layers, 0, leafIndex + 1)
  {
    proof := ProofForNode(tree, leafIndex + 1);
  }

  method MakeCountProof(tree: MerkleTree) returns (proof: seq<Bytes>)
    requires tree.layers != [] ==> Halving(tree.layers) && 0 < |tree.layers[0]|
    ensures proof == if tree.layers == [] then [] else SiblingPath(tree.layers, 0, 0)
  {
    proof := ProofForNode(tree, 0);
  }

  method VerifyProof(k: Hash, root: Bytes, leaf: Bytes, proof: seq<Bytes>) returns (ok: bool)
    ensures ok <==> Accepts(k, root, leaf, proof)
  {
    var computed := HashLeaf(k, leaf);
    for i := 0 to |proof|
      invariant computed == Fold(k, HashLeaf(k, leaf), proof[..i])
    {
      assert proof[..i + 1][..i] == proof[..i];
      computed := HashInternal(k, computed, proof[i]);
    }
    assert proof[..|proof|] == proof;
    ok := Compare(computed, root) == 0;
  }
}
