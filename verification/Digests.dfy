/** Bytes, 32-byte digests, and hash functions.

SHA-256 is not modelled: every theorem takes the hash as a parameter `H` and, where it needs
collision resistance, asks for it only on the finite set of strings the computation really hashed. */
module Digests {
  type Byte = b: int | 0 <= b < 256
  type Bytes = seq<Byte>

  function Zeros(n: nat): (bytes: Bytes)
    ensures |bytes| == n && forall i | 0 <= i < n :: bytes[i] == 0
  {
    seq(n, i requires 0 <= i < n => 0)
  }

  const ZERO_DIGEST: Bytes := Zeros(32)

  type Digest = d: Bytes | |d| == 32 witness ZERO_DIGEST
  type Hash = Bytes -> Digest

  /** Domain-separation prefixes of section 2.1 of RFC 6962. */
  const LEAF: Bytes := [0]
  const NODE: Bytes := [1]

  function HashLeaf(H: Hash, data: Bytes): Digest {
    H(LEAF + data)
  }

  function HashNode(H: Hash, left: Bytes, right: Bytes): Digest {
    H(NODE + left + right)
  }

  /** No two different strings of `hashed` have the same digest. */
  ghost predicate CollisionFree(H: Hash, hashed: set<Bytes>) {
    forall x, y | x in hashed && y in hashed && H(x) == H(y) :: x == y
  }

  lemma {:induction false} CollisionFreeSubset(H: Hash, some: set<Bytes>, all: set<Bytes>)
    requires some <= all && CollisionFree(H, all)
    ensures CollisionFree(H, some)
  {
  }

  /** The input of an honest node determines both children, whatever other pair it is compared
      with, as long as one part of that pair has the length of a digest. */
  lemma {:induction false} NodeInputInjective(l: Digest, r: Digest, a: Bytes, b: Bytes)
    requires NODE + l + r == NODE + a + b
    requires |a| == 32 || |b| == 32
    ensures l == a && r == b
  {
    var x, y := NODE + l + r, NODE + a + b;
    assert |x| == 65 && |y| == 1 + |a| + |b|;
    assert l == x[1..33] && a == y[1..33];
    assert r == x[33..] && b == y[33..];
  }
}
