/**
 The Merkle tree of RFC 9162 section 2.1: tree head, audit path and consistency
 proof by recursion on the largest power of two below the size, as in
 etzio/kernel/head_authority_adapters_v1.py. The node hash is a parameter `h`.
 */
module MerkleTree {
  import opened Common
  import opened Bits

  type NodeHash = (Digest, Digest) -> Digest

  /** Two different pairs of children with the same node hash. */
  ghost predicate Collision(h: NodeHash) {
    exists a, b, c, d :: h(a, b) == h(c, d) && (a, b) != (c, d)
  }

  lemma NodeInjective(h: NodeHash, a: Digest, b: Digest, c: Digest, d: Digest)
    requires h(a, b) == h(c, d)
    ensures (a == c && b == d) || Collision(h)
  {
    assert (a, b) == (c, d) || Collision(h);
  }

  function Root(h: NodeHash, leaves: seq<Digest>): Digest
    requires |leaves| >= 1
    decreases |leaves|
  {
    if |leaves| == 1 then leaves[0] else
    var k := Split(|leaves|);
    h(Root(h, leaves[..k]), Root(h, leaves[k..]))
  }

  lemma RootStep(h: NodeHash, d: seq<Digest>)
    requires |d| >= 2
    ensures Root(h, d) == h(Root(h, d[..Split(|d|)]), Root(h, d[Split(|d|)..]))
  {
    hide Split;
  }

  /** PATH(m, D) of section 2.1.3.1. */
  function Path(h: NodeHash, leaves: seq<Digest>, m: nat): (p: seq<Digest>)
    requires m < |leaves|
    ensures |p| == PathLength(m, |leaves|)
    decreases |leaves|
  {
    if |leaves| == 1 then [] else
    var k := Split(|leaves|);
    if m < k then Path(h, leaves[..k], m) + [Root(h, leaves[k..])]
    else Path(h, leaves[k..], m - k) + [Root(h, leaves[..k])]
  }

  /** The number of nodes the geometry of (m, n) asks of an audit path. */
  function PathLength(m: nat, n: nat): nat
    requires m < n
    decreases n
  {
    if n == 1 then 0 else
    var k := Split(n);
    if m < k then 1 + PathLength(m, k) else 1 + PathLength(m - k, n - k)
  }

  /** SUBPROOF(m, D, complete) of section 2.1.4.1. */
  function SubProof(h: NodeHash, leaves: seq<Digest>, m: nat, complete: bool): (p: seq<Digest>)
    requires 1 <= m <= |leaves|
    ensures |p| == SubProofLength(m, |leaves|, complete)
    decreases |leaves|
  {
    if m == |leaves| then if complete then [] else [Root(h, leaves)] else
    var k := Split(|leaves|);
    if m <= k then SubProof(h, leaves[..k], m, complete) + [Root(h, leaves[k..])]
    else SubProof(h, leaves[k..], m - k, false) + [Root(h, leaves[..k])]
  }

  function SubProofLength(m: nat, n: nat, complete: bool): nat
    requires 1 <= m <= n
    decreases n
  {
    if m == n then if complete then 0 else 1 else
    var k := Split(n);
    if m <= k then 1 + SubProofLength(m, k, complete) else 1 + SubProofLength(m - k, n - k, false)
  }

  function ConsistencyProof(h: NodeHash, leaves: seq<Digest>, m: nat): (p: seq<Digest>)
    requires 1 <= m <= |leaves|
  {
    SubProof(h, leaves, m, true)
  }

  /** A tree of at most 2^j leaves needs at most j nodes in an audit path. */
  lemma {:induction false} PathLengthBound(m: nat, n: nat, j: nat)
    requires m < n <= Pow2(j)
    ensures PathLength(m, n) <= j
    decreases n
  {
    hide Split;
    if n > 1 {
      SplitBound(n, j);
      var k := Split(n);
      if m < k { PathLengthBound(m, k, j - 1); } else { PathLengthBound(m - k, n - k, j - 1); }
    }
  }

  /** And at most j + 1 in a consistency proof. */
  lemma {:induction false} SubProofLengthBound(m: nat, n: nat, c: bool, j: nat)
    requires 1 <= m <= n <= Pow2(j)
    ensures SubProofLength(m, n, c) <= j + 1
    decreases n
  {
    hide Split;
    if m < n {
      SplitBound(n, j);
      var k := Split(n);
      if m <= k { SubProofLengthBound(m, k, c, j - 1); } else { SubProofLengthBound(m - k, n - k, false, j - 1); }
    }
  }
}
