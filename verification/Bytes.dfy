/** Byte strings, their lexicographic order, and the hash functions applied to them. */
module Bytes {

  type byte = x: int | 0 <= x < 256
  type Bytes = seq<byte>

  const DIGEST_LENGTH := 32

  function Zeros(n: nat): Bytes { seq(n, _ => 0) }

  function ZeroDigest(): Bytes { Zeros(DIGEST_LENGTH) }

  type Digest = d: Bytes | |d| == DIGEST_LENGTH witness ZeroDigest()

  /** A hash function with 32-byte outputs (keccak256, sha256). Nothing else is assumed of it:
      where a result needs collision resistance it says instead which inputs would collide. */
  type Hash = Bytes -> Digest

  /** Two different members of `inputs` have the same hash. `inputs` is always a finite set of
      byte strings that the code really hashed, so this names a collision somebody could exhibit. */
  ghost predicate Collision(k: Hash, inputs: set<Bytes>) {
    exists x, y :: x in inputs && y in inputs && x != y && k(x) == k(y)
  }

  /** Some member of `inputs` hashes to the all-zero digest. */
  ghost predicate ZeroPreimage(k: Hash, inputs: set<Bytes>) {
    exists x :: x in inputs && k(x) == ZeroDigest()
  }

  lemma CollisionMonotone(k: Hash, small: set<Bytes>, big: set<Bytes>)
    requires small <= big
    ensures Collision(k, small) ==> Collision(k, big)
  {
  }

  /** Buffer.compare: the first differing byte decides, and a proper prefix comes first. */
  function Compare(a: Bytes, b: Bytes): (r: int)
    ensures r == 0 <==> a == b
    ensures -1 <= r <= 1
  {
    if a == [] then (if b == [] then 0 else -1)
    else if b == [] then 1
    else if a[0] < b[0] then -1
    else if b[0] < a[0] then 1
    else
      assert a == [a[0]] + a[1..] && b == [b[0]] + b[1..];
      Compare(a[1..], b[1..])
  }

  lemma {:induction false} CompareAntisymmetric(a: Bytes, b: Bytes)
    ensures Compare(a, b) == -Compare(b, a)
  {
    if a != [] && b != [] && a[0] == b[0] {
      CompareAntisymmetric(a[1..], b[1..]);
    }
  }

  /** Big-endian encoding of `n` in `width` bytes (a higher part that does not fit is cut off). */
  function BigEndian(n: nat, width: nat): (r: Bytes)
    ensures |r| == width
  {
    if width == 0 then [] else BigEndian(n / 256, width - 1) + [n % 256]
  }

  function Pow256(e: nat): nat {
    if e == 0 then 1 else 256 * Pow256(e - 1)
  }

  lemma {:induction false} BigEndianInjective(m: nat, n: nat, width: nat)
    requires m < Pow256(width) && n < Pow256(width)
    requires BigEndian(m, width) == BigEndian(n, width)
    ensures m == n
  {
    if width > 0 {
      var x, y := BigEndian(m, width), BigEndian(n, width);
      assert x[width - 1] == m % 256 && y[width - 1] == n % 256;
      assert x[..width - 1] == BigEndian(m / 256, width - 1);
      assert y[..width - 1] == BigEndian(n / 256, width - 1);
      BigEndianInjective(m / 256, n / 256, width - 1);
    }
  }

  /** The number that follows `acc` when the bytes are read from the most significant one on. */
  function ReadBigEndian(b: Bytes, acc: nat): nat
    decreases |b|
  {
    if b == [] then acc else ReadBigEndian(b[1..], 256 * acc + b[0])
  }

  lemma {:induction false} ReadAppend(b: Bytes, last: byte, acc: nat)
    ensures ReadBigEndian(b + [last], acc) == 256 * ReadBigEndian(b, acc) + last
    decreases |b|
  {
    if b == [] {
      assert (b + [last])[1..] == [];
    } else {
      assert (b + [last])[1..] == b[1..] + [last];
      ReadAppend(b[1..], last, 256 * acc + b[0]);
    }
  }

  /** A number that fits is read back, whatever field of zeros stands before it. */
  lemma {:induction false} BigEndianReadsBack(n: nat, width: nat, zeros: nat)
    requires n < Pow256(width)
    ensures ReadBigEndian(Zeros(zeros) + BigEndian(n, width), 0) == n
    decreases width, zeros
  {
    var front := Zeros(zeros);
    if width > 0 {
      BigEndianReadsBack(n / 256, width - 1, zeros);
      assert front + BigEndian(n, width) == (front + BigEndian(n / 256, width - 1)) + [n % 256];
      ReadAppend(front + BigEndian(n / 256, width - 1), n % 256, 0);
    } else if zeros > 0 {
      BigEndianReadsBack(n, 0, zeros - 1);
      assert (front + [])[1..] == Zeros(zeros - 1) + [];
    }
  }

  lemma FieldReadsBack(n: nat, width: nat)
    ensures n < Pow256(width) ==> ReadBigEndian(BigEndian(n, width), 0) == n
  {
    if n < Pow256(width) {
      BigEndianReadsBack(n, width, 0);
      assert Zeros(0) + BigEndian(n, width) == BigEndian(n, width);
    }
  }

  /** The strings agree up to place i, where the first one ends or has the smaller byte. */
  predicate SmallerAt(a: Bytes, b: Bytes, i: nat) {
    i <= |a| && i < |b| && a[..i] == b[..i] && (i < |a| ==> a[i] < b[i])
  }

  /** Compare is the order of a dictionary. */
  lemma {:induction false} CompareIsLexicographic(a: Bytes, b: Bytes)
    ensures Compare(a, b) < 0 <==> exists i: nat :: SmallerAt(a, b, i)
  {
    if a != [] && b != [] && a[0] == b[0] {
      CompareIsLexicographic(a[1..], b[1..]);
      assert a == [a[0]] + a[1..] && b == [b[0]] + b[1..];
      forall i: nat | SmallerAt(a, b, i) ensures SmallerAt(a[1..], b[1..], i - 1) {
        assert a[1..][..i - 1] == a[..i][1..] && b[1..][..i - 1] == b[..i][1..];
      }
      forall j: nat | SmallerAt(a[1..], b[1..], j) ensures SmallerAt(a, b, j + 1) {
        assert a[..j + 1] == [a[0]] + a[1..][..j] && b[..j + 1] == [b[0]] + b[1..][..j];
      }
    } else if a == [] || (b != [] && a[0] < b[0]) {
      assert b != [] ==> SmallerAt(a, b, 0);
    } else {
      forall i: nat ensures !SmallerAt(a, b, i) {
        assert 0 < i <= |a| && i <= |b| ==> a[..i][0] == a[0] && b[..i][0] == b[0];
      }
    }
  }
}
