/**
 The two proof checkers of etzio/kernel/head_authority_adapters_v1.py, which walk
 the tree bottom-up by shifting indices, against top-down recomputation of the
 roots, and their completeness and soundness against the tree itself.
 */
module MerkleVerify {
  import opened Common
  import opened Bits
  import opened MerkleTree

  const MAX_HEAD_PROOF_NODES: nat := 64

  /** The heads of an earlier and of the current tree, or how the proof misses the geometry. */
  datatype Heads = TooLong | TooShort | Heads(old_: Digest, new_: Digest)

  function Under(h: NodeHash, left: Digest, inner: Heads): Heads {
    if inner.Heads? then Heads(h(left, inner.old_), h(left, inner.new_)) else inner
  }

  /** A right sibling is no part of the earlier tree. */
  function Beside(h: NodeHash, inner: Heads, right: Digest): Heads {
    if inner.Heads? then Heads(inner.old_, h(inner.new_, right)) else inner
  }

  // ----- top-down recomputation -----

  /**
   From node `m` of `n`, hashing to `x` in the tree that ends there and to `y` in
   the whole tree, and an audit path: the heads of both trees.
   */
  function Climb(h: NodeHash, m: nat, n: nat, x: Digest, y: Digest, p: seq<Digest>): Heads
    requires m < n
    decreases n
  {
    if n == 1 then if p == [] then Heads(x, y) else TooLong
    else if p == [] then TooShort
    else
      var k, last := Split(n), |p| - 1;
      if m < k then Beside(h, Climb(h, m, k, x, y, p[..last]), p[last])
      else Under(h, p[last], Climb(h, m - k, n - k, x, y, p[..last]))
  }

  /** The heads of the first `m` and of all `n` leaves that a consistency proof from `known` yields. */
  function Extend(h: NodeHash, m: nat, n: nat, complete: bool, known: Digest, p: seq<Digest>): Heads
    requires 1 <= m <= n
    decreases n
  {
    if m == n && complete then if p == [] then Heads(known, known) else TooLong
    else if p == [] then TooShort
    else if m == n then if |p| == 1 then Heads(p[0], p[0]) else TooLong
    else
      var k, last := Split(n), |p| - 1;
      if m <= k then Beside(h, Extend(h, m, k, complete, known, p[..last]), p[last])
      else Under(h, p[last], Extend(h, m - k, n - k, false, known, p[..last]))
  }

  // ----- one level up the tree -----

  /**
   A node without sibling moves up unchanged; every other node consumes the lowest
   sibling of its path. Here (i, j) are m / 2 and (n + 1) / 2.
   */
  lemma {:induction false} LevelUp(h: NodeHash, m: nat, n: nat, i: nat, j: nat, x: Digest, y: Digest, p: seq<Digest>)
    requires 2 * i <= m <= 2 * i + 1 && 2 * j - 1 <= n <= 2 * j && m < n && n >= 2
    ensures Climb(h, m, n, x, y, p) ==
            if m == 2 * i && n == m + 1 then Climb(h, i, j, x, y, p)
            else if p == [] then TooShort
            else if m == 2 * i then Climb(h, i, j, x, h(y, p[0]), p[1..])
            else Climb(h, i, j, h(p[0], x), h(p[0], y), p[1..])
    decreases n
  {
    hide Split;
    if n > 2 && p != [] {
      SplitHalves(n, j);
      var k, k', last := Split(n), Split(j), |p| - 1;
      if |p| >= 2 { assert p[1..][..last - 1] == p[..last][1..]; }
      if m < k {
        LevelUp(h, m, k, i, k', x, y, p[..last]);
      } else if n - k >= 2 {
        LevelUp(h, m - k, n - k, i - k', j - k', x, y, p[..last]);
      }
    }
  }

  /** LevelUp where a sibling exists, by shifting both indices. */
  lemma Ascend(h: NodeHash, m: nat, last: nat, x: Digest, y: Digest, p: seq<Digest>)
    requires m <= last && 1 <= last && p != [] && (m % 2 == 1 || m < last)
    ensures Climb(h, m, last + 1, x, y, p) ==
            if m % 2 == 1 then Climb(h, m / 2, last / 2 + 1, h(p[0], x), h(p[0], y), p[1..])
            else Climb(h, m / 2, last / 2 + 1, x, h(y, p[0]), p[1..])
  {
    LevelUp(h, m, last + 1, m / 2, last / 2 + 1, x, y, p);
  }

  /** A consistency proof of an even prefix is one between the trees a level up. */
  lemma {:induction false} EvenPrefix(h: NodeHash, m: nat, n: nat, i: nat, j: nat, c: bool, r: Digest, p: seq<Digest>)
    requires 1 <= m < n && m == 2 * i && 2 * j - 1 <= n <= 2 * j
    ensures Extend(h, m, n, c, r, p) == Extend(h, i, j, c, r, p)
    decreases n
  {
    hide Split;
    if p != [] {
      SplitHalves(n, j);
      var k, k', last := Split(n), Split(j), |p| - 1;
      if m < k {
        EvenPrefix(h, m, k, i, k', c, r, p[..last]);
      } else if m > k {
        EvenPrefix(h, m - k, n - k, i - k', j - k', false, r, p[..last]);
      }
    }
  }

  /** A consistency proof of an odd prefix is an audit path of the prefix's last leaf. */
  lemma {:induction false} OddPrefix(h: NodeHash, m: nat, n: nat, i: nat, c: bool, r: Digest, p: seq<Digest>)
    requires 1 <= m < n && m == 2 * i + 1
    ensures Extend(h, m, n, c, r, p) ==
            if c && m == 1 then Climb(h, 0, n, r, r, p)
            else if p == [] then TooShort
            else Climb(h, m - 1, n, p[0], p[0], p[1..])
    decreases n
  {
    hide Split;
    if p != [] {
      var k, last := Split(n), |p| - 1;
      SplitPower(n);
      if |p| >= 2 { assert p[1..][..last - 1] == p[..last][1..]; }
      if m < k {
        OddPrefix(h, m, k, i, c, r, p[..last]);
      } else if m > k {
        OddPrefix(h, m - k, n - k, i - k / 2, false, r, p[..last]);
      }
    }
  }

  /** Shifting out the trailing zeros of the prefix size changes neither head. */
  lemma {:induction false} ShiftOut(h: NodeHash, m: nat, n: nat, s: nat, r: Digest, p: seq<Digest>)
    requires 1 <= m < n && s == TrailingZeros(m)
    ensures ShiftRight(m, s) % 2 == 1 && ShiftRight(m, s) <= ShiftRight(n - 1, s)
    ensures Extend(h, m, n, true, r, p) == Extend(h, ShiftRight(m, s), ShiftRight(n - 1, s) + 1, true, r, p)
    decreases m
  {
    hide Split, Extend;
    if m % 2 == 0 {
      var i, j := m / 2, (n - 1) / 2;
      assert m == 2 * i && 1 <= i <= j;
      EvenPrefix(h, m, n, i, j + 1, true, r, p);
      ShiftOut(h, i, j + 1, s - 1, r, p);
    }
  }

  // ----- the checkers -----

  datatype Refusal =
    | InvalidInput
    | IndexOutsideTree
    | ProofUnbounded
    | ProofTooLong
    | ProofTooShort
    | TreeRollback
    | UnchangedTreeWithProof
    | Equivocation
    | MissingProof
    | OldRootMismatch
    | RootMismatch

  datatype Verdict = Accepted | Refused(why: Refusal)

  function Compare(found: Heads, oldRoot: Digest, newRoot: Digest): Verdict {
    match found
    case TooLong => Refused(ProofTooLong)
    case TooShort => Refused(ProofTooShort)
    case Heads(a, b) =>
      if a != oldRoot then Refused(OldRootMismatch) else if b != newRoot then Refused(RootMismatch) else Accepted
  }

  /** What section 2.1.3.2 asks: exactly the geometry's path, recomputing exactly the root. */
  function InclusionVerdict(h: NodeHash, leaf: Digest, m: int, n: int, p: seq<Digest>, root: Digest): Verdict {
    if n <= 0 then Refused(InvalidInput)
    else if m < 0 || m >= n then Refused(IndexOutsideTree)
    else if |p| > MAX_HEAD_PROOF_NODES then Refused(ProofUnbounded)
    else
      var found := Climb(h, m, n, leaf, leaf, p);
      if found.Heads? then Compare(found, found.old_, root) else Compare(found, root, root)
  }

  /** What section 2.1.4.2 asks: both heads recomputed from one proof of exactly the right length. */
  function ConsistencyVerdict(h: NodeHash, m: int, oldRoot: Digest, n: int, newRoot: Digest, p: seq<Digest>): Verdict {
    if m <= 0 || n <= 0 then Refused(InvalidInput)
    else if |p| > MAX_HEAD_PROOF_NODES then Refused(ProofUnbounded)
    else if m > n then Refused(TreeRollback)
    else if m == n then
      if p != [] then Refused(UnchangedTreeWithProof)
      else if oldRoot != newRoot then Refused(Equivocation)
      else Accepted
    else if p == [] then Refused(MissingProof)
    else Compare(Extend(h, m, n, true, oldRoot, p), oldRoot, newRoot)
  }

  method VerifyInclusion(h: NodeHash, leaf: Digest, leafIndex: int, treeSize: int, proof: seq<Digest>, root: Digest)
    returns (v: Verdict)
    ensures v == InclusionVerdict(h, leaf, leafIndex, treeSize, proof, root)
  {
    hide Split, Climb;
    if treeSize <= 0 { return Refused(InvalidInput); }
    if leafIndex < 0 || leafIndex >= treeSize { return Refused(IndexOutsideTree); }
    if |proof| > MAX_HEAD_PROOF_NODES { return Refused(ProofUnbounded); }
    var nodeIndex: nat, lastIndex: nat, computed := leafIndex, treeSize - 1, leaf;
    ghost var goal := Climb(h, leafIndex, treeSize, leaf, leaf, proof);
    ghost var old_ := leaf;
    for i := 0 to |proof|
      invariant nodeIndex <= lastIndex
      invariant Climb(h, nodeIndex, lastIndex + 1, old_, computed, proof[i..]) == goal
    {
      var node := proof[i];
      ghost var x, y, rest := old_, computed, proof[i..];
      ClimbEnds(h, nodeIndex, lastIndex, x, y, rest);
      if lastIndex == 0 { return Refused(ProofTooLong); }
      assert rest[0] == node && rest[1..] == proof[i + 1..];
      if nodeIndex % 2 == 1 || nodeIndex == lastIndex {
        computed := h(node, computed);
        old_ := h(node, old_);
        nodeIndex, lastIndex := SkipPromotions(h, nodeIndex, lastIndex, x, y, rest);
      } else {
        computed := h(computed, node);
      }
      Ascend(h, nodeIndex, lastIndex, x, y, rest);
      nodeIndex, lastIndex := nodeIndex / 2, lastIndex / 2;
    }
    ClimbEnds(h, nodeIndex, lastIndex, old_, computed, []);
    if lastIndex != 0 { return Refused(ProofTooShort); }
    if computed != root { return Refused(RootMismatch); }
    return Accepted;
  }

  /** Where the walk ends. */
  lemma ClimbEnds(h: NodeHash, m: nat, last: nat, x: Digest, y: Digest, p: seq<Digest>)
    requires m <= last
    ensures p == [] ==> Climb(h, m, last + 1, x, y, p) == if last == 0 then Heads(x, y) else TooShort
    ensures p != [] && last == 0 ==> Climb(h, m, last + 1, x, y, p) == TooLong
  {
    hide Split;
  }

  /** The inner loop of both checkers: leave the levels on which the node has no sibling. */
  method SkipPromotions(h: NodeHash, node: nat, last: nat, ghost x: Digest, ghost y: Digest, ghost rest: seq<Digest>)
    returns (nodeIndex: nat, lastIndex: nat)
    requires 1 <= node <= last && (node % 2 == 1 || node == last)
    ensures nodeIndex % 2 == 1 && nodeIndex <= lastIndex
    ensures Climb(h, nodeIndex, lastIndex + 1, x, y, rest) == Climb(h, node, last + 1, x, y, rest)
  {
    nodeIndex, lastIndex := node, last;
    while nodeIndex % 2 == 0 && nodeIndex != 0
      invariant 1 <= nodeIndex <= lastIndex && (nodeIndex % 2 == 1 || nodeIndex == lastIndex)
      invariant Climb(h, nodeIndex, lastIndex + 1, x, y, rest) == Climb(h, node, last + 1, x, y, rest)
    {
      LevelUp(h, nodeIndex, lastIndex + 1, nodeIndex / 2, lastIndex / 2 + 1, x, y, rest);
      nodeIndex, lastIndex := nodeIndex / 2, lastIndex / 2;
    }
  }

  /** The index and hash from which the walk of a consistency check starts. */
  lemma WalkStart(h: NodeHash, m: nat, n: nat, r: Digest, p: seq<Digest>)
    requires 1 <= m < n && p != []
    ensures var s := TrailingZeros(m);
            var node, last := ShiftRight(m, s), ShiftRight(n - 1, s);
            && 1 <= node <= last
            && Extend(h, m, n, true, r, p) ==
               if node == 1 then Climb(h, 0, last + 1, r, r, p)
               else Climb(h, node - 1, last + 1, p[0], p[0], p[1..])
  {
    hide Split, Extend, Climb;
    var s := TrailingZeros(m);
    ShiftOut(h, m, n, s, r, p);
    var node := ShiftRight(m, s);
    OddPrefix(h, node, ShiftRight(n - 1, s) + 1, node / 2, true, r, p);
  }

  method VerifyConsistency(h: NodeHash, firstSize: int, firstRoot: Digest, secondSize: int, secondRoot: Digest,
                           proof: seq<Digest>)
    returns (v: Verdict)
    ensures v == ConsistencyVerdict(h, firstSize, firstRoot, secondSize, secondRoot, proof)
  {
    hide Extend, Climb, BitAnd, BitLength, ShiftRight, TrailingZeros;
    if firstSize <= 0 || secondSize <= 0 { return Refused(InvalidInput); }
    if |proof| > MAX_HEAD_PROOF_NODES { return Refused(ProofUnbounded); }
    if firstSize > secondSize { return Refused(TreeRollback); }
    if firstSize == secondSize {
      if proof != [] { return Refused(UnchangedTreeWithProof); }
      if firstRoot != secondRoot { return Refused(Equivocation); }
      return Accepted;
    }
    if proof == [] { return Refused(MissingProof); }

    LowestBit(firstSize);
    WalkStart(h, firstSize, secondSize, firstRoot, proof);
    var shift := BitLength(BitAnd(firstSize, -firstSize)) - 1;
    var nodeIndex: nat, lastIndex: nat := ShiftRight(firstSize, shift), ShiftRight(secondSize - 1, shift);
    var computedFirst, remaining := firstRoot, proof;
    if nodeIndex != 1 { computedFirst, remaining := proof[0], proof[1..]; }
    v := Walk(h, nodeIndex - 1, lastIndex, computedFirst, remaining, firstRoot, secondRoot);
  }

  /** The outer loop of the consistency checker. */
  method Walk(h: NodeHash, node0: nat, last0: nat, start: Digest, remaining: seq<Digest>,
              firstRoot: Digest, secondRoot: Digest)
    returns (v: Verdict)
    requires node0 <= last0
    ensures v == Compare(Climb(h, node0, last0 + 1, start, start, remaining), firstRoot, secondRoot)
  {
    hide Split, Climb;
    var nodeIndex, lastIndex, computedFirst, computedSecond := node0, last0, start, start;
    for i := 0 to |remaining|
      invariant nodeIndex <= lastIndex
      invariant Climb(h, nodeIndex, lastIndex + 1, computedFirst, computedSecond, remaining[i..])
             == Climb(h, node0, last0 + 1, start, start, remaining)
    {
      var node := remaining[i];
      ghost var x, y, rest := computedFirst, computedSecond, remaining[i..];
      ClimbEnds(h, nodeIndex, lastIndex, x, y, rest);
      if lastIndex == 0 { return Refused(ProofTooLong); }
      assert rest[0] == node && rest[1..] == remaining[i + 1..];
      if nodeIndex % 2 == 1 || nodeIndex == lastIndex {
        computedFirst, computedSecond := h(node, computedFirst), h(node, computedSecond);
        nodeIndex, lastIndex := SkipPromotions(h, nodeIndex, lastIndex, x, y, rest);
      } else {
        computedSecond := h(computedSecond, node);
      }
      Ascend(h, nodeIndex, lastIndex, x, y, rest);
      nodeIndex, lastIndex := nodeIndex / 2, lastIndex / 2;
    }
    ClimbEnds(h, nodeIndex, lastIndex, computedFirst, computedSecond, []);
    if lastIndex != 0 { return Refused(ProofTooShort); }
    if computedFirst != firstRoot { return Refused(OldRootMismatch); }
    if computedSecond != secondRoot { return Refused(RootMismatch); }
    return Accepted;
  }

  /** A proof is refused for its length exactly when the geometry asks for another length. */
  lemma {:induction false} ClimbLength(h: NodeHash, m: nat, n: nat, x: Digest, y: Digest, p: seq<Digest>)
    requires m < n
    ensures Climb(h, m, n, x, y, p).TooLong? <==> |p| > PathLength(m, n)
    ensures Climb(h, m, n, x, y, p).TooShort? <==> |p| < PathLength(m, n)
    decreases n
  {
    hide Split;
    if n > 1 && p != [] {
      var k, last := Split(n), |p| - 1;
      if m < k { ClimbLength(h, m, k, x, y, p[..last]); } else { ClimbLength(h, m - k, n - k, x, y, p[..last]); }
    }
  }

  lemma {:induction false} ExtendLength(h: NodeHash, m: nat, n: nat, c: bool, r: Digest, p: seq<Digest>)
    requires 1 <= m <= n
    ensures Extend(h, m, n, c, r, p).TooLong? <==> |p| > SubProofLength(m, n, c)
    ensures Extend(h, m, n, c, r, p).TooShort? <==> |p| < SubProofLength(m, n, c)
    decreases n
  {
    hide Split;
    if m < n && p != [] {
      var k, last := Split(n), |p| - 1;
      if m <= k { ExtendLength(h, m, k, c, r, p[..last]); } else { ExtendLength(h, m - k, n - k, false, r, p[..last]); }
    }
  }

  /** Which inputs each verdict of the inclusion checker stands for. */
  lemma InclusionExactly(h: NodeHash, leaf: Digest, m: int, n: int, p: seq<Digest>, root: Digest)
    ensures InclusionVerdict(h, leaf, m, n, p, root) ==
            if n <= 0 then Refused(InvalidInput)
            else if m < 0 || n <= m then Refused(IndexOutsideTree)
            else if |p| > 64 then Refused(ProofUnbounded)
            else if |p| > PathLength(m, n) then Refused(ProofTooLong)
            else if |p| < PathLength(m, n) then Refused(ProofTooShort)
            else
              var found := Climb(h, m, n, leaf, leaf, p);
              if found.Heads? && found.new_ == root then Accepted else Refused(RootMismatch)
  {
    hide Climb, PathLength;
    if 0 <= m < n { ClimbLength(h, m, n, leaf, leaf, p); }
  }

  /** And of the consistency checker. */
  lemma ConsistencyExactly(h: NodeHash, m: int, oldRoot: Digest, n: int, newRoot: Digest, p: seq<Digest>)
    ensures ConsistencyVerdict(h, m, oldRoot, n, newRoot, p) ==
            if m <= 0 || n <= 0 then Refused(InvalidInput)
            else if |p| > 64 then Refused(ProofUnbounded)
            else if n < m then Refused(TreeRollback)
            else if m == n && p != [] then Refused(UnchangedTreeWithProof)
            else if m == n then (if oldRoot == newRoot then Accepted else Refused(Equivocation))
            else if p == [] then Refused(MissingProof)
            else if |p| > SubProofLength(m, n, true) then Refused(ProofTooLong)
            else if |p| < SubProofLength(m, n, true) then Refused(ProofTooShort)
            else
              var found := Extend(h, m, n, true, oldRoot, p);
              if found == Heads(oldRoot, newRoot) then Accepted
              else if found.Heads? && found.old_ == oldRoot then Refused(RootMismatch) else Refused(OldRootMismatch)
  {
    hide Extend, SubProofLength;
    if 1 <= m <= n { ExtendLength(h, m, n, true, oldRoot, p); }
  }

  // ----- completeness -----

  /** The parts of a generated audit path. */
  lemma PathParts(h: NodeHash, d: seq<Digest>, m: nat)
    requires m < |d| && |d| >= 2
    ensures var p, k := Path(h, d, m), Split(|d|);
            && p != []
            && (m < k ==> p[..|p| - 1] == Path(h, d[..k], m) && p[|p| - 1] == Root(h, d[k..]))
            && (m >= k ==> p[..|p| - 1] == Path(h, d[k..], m - k) && p[|p| - 1] == Root(h, d[..k]))
  {
    hide Split;
  }

  lemma ClimbStep(h: NodeHash, m: nat, n: nat, x: Digest, y: Digest, p: seq<Digest>)
    requires m < n && n >= 2
    ensures Climb(h, m, n, x, y, p) ==
            if p == [] then TooShort else
            var k, last := Split(n), |p| - 1;
            if m < k then Beside(h, Climb(h, m, k, x, y, p[..last]), p[last])
            else Under(h, p[last], Climb(h, m - k, n - k, x, y, p[..last]))
  {
    hide Split;
  }

  lemma ExtendStep(h: NodeHash, m: nat, n: nat, c: bool, r: Digest, p: seq<Digest>)
    requires 1 <= m < n
    ensures Extend(h, m, n, c, r, p) ==
            if p == [] then TooShort else
            var k, last := Split(n), |p| - 1;
            if m <= k then Beside(h, Extend(h, m, k, c, r, p[..last]), p[last])
            else Under(h, p[last], Extend(h, m - k, n - k, false, r, p[..last]))
  {
    hide Split;
  }

  lemma ExtendWhole(h: NodeHash, d: seq<Digest>, c: bool, r: Digest, p: seq<Digest>)
    requires d != []
    ensures c ==> Extend(h, |d|, |d|, c, r, p) == (if p == [] then Heads(r, r) else TooLong)
    ensures !c ==> Extend(h, |d|, |d|, c, r, p)
                   == (if p == [] then TooShort else if |p| == 1 then Heads(p[0], p[0]) else TooLong)
    ensures SubProof(h, d, |d|, c) == if c then [] else [Root(h, d)]
    ensures d[..|d|] == d
  {
  }

  lemma SingleLeaf(h: NodeHash, d: seq<Digest>, x: Digest, y: Digest, p: seq<Digest>)
    requires |d| == 1
    ensures Path(h, d, 0) == [] && Root(h, d) == d[0]
    ensures Climb(h, 0, 1, x, y, p) == if p == [] then Heads(x, y) else TooLong
  {
  }

  lemma {:induction false} PathClimbs(h: NodeHash, d: seq<Digest>, m: nat, x: Digest)
    requires m < |d|
    ensures Climb(h, m, |d|, x, d[m], Path(h, d, m)).Heads?
    ensures Climb(h, m, |d|, x, d[m], Path(h, d, m)).new_ == Root(h, d)
    decreases |d|
  {
    hide Split, Climb, Path, Root;
    if |d| == 1 {
      SingleLeaf(h, d, x, d[m], Path(h, d, m));
    } else {
      var k := Split(|d|);
      PathParts(h, d, m);
      RootStep(h, d);
      ClimbStep(h, m, |d|, x, d[m], Path(h, d, m));
      if m < k { PathClimbs(h, d[..k], m, x); } else { PathClimbs(h, d[k..], m - k, x); }
    }
  }

  /** The head of a prefix that reaches past the split point. */
  lemma PrefixRoot(h: NodeHash, d: seq<Digest>, m: nat)
    requires |d| >= 2 && Split(|d|) < m <= |d|
    ensures var k := Split(|d|); Root(h, d[..m]) == h(Root(h, d[..k]), Root(h, d[k..][..m - k]))
  {
    hide Split;
    var k := Split(|d|);
    SplitOfPrefix(|d|, m);
    assert d[..m][..k] == d[..k] && d[..m][k..] == d[k..][..m - k];
  }

  lemma SubProofParts(h: NodeHash, d: seq<Digest>, m: nat, c: bool)
    requires 1 <= m < |d|
    ensures var p, k := SubProof(h, d, m, c), Split(|d|);
            && p != []
            && (m <= k ==> p[..|p| - 1] == SubProof(h, d[..k], m, c) && p[|p| - 1] == Root(h, d[k..]))
            && (m > k ==> p[..|p| - 1] == SubProof(h, d[k..], m - k, false) && p[|p| - 1] == Root(h, d[..k]))
  {
    hide Split;
  }

  lemma {:induction false} SubProofExtends(h: NodeHash, d: seq<Digest>, m: nat, c: bool, r: Digest)
    requires 1 <= m <= |d| && (c ==> r == Root(h, d[..m]))
    ensures Extend(h, m, |d|, c, r, SubProof(h, d, m, c)) == Heads(Root(h, d[..m]), Root(h, d))
    decreases |d|
  {
    hide Split, Extend, SubProof, Root;
    if m == |d| {
      ExtendWhole(h, d, c, r, SubProof(h, d, m, c));
    } else {
      var k := Split(|d|);
      ExtendStep(h, m, |d|, c, r, SubProof(h, d, m, c));
      SubProofParts(h, d, m, c);
      RootStep(h, d);
      if m <= k {
        assert d[..k][..m] == d[..m];
        SubProofExtends(h, d[..k], m, c, r);
      } else {
        PrefixRoot(h, d, m);
        SubProofExtends(h, d[k..], m - k, false, r);
      }
    }
  }

  /** Every generated audit path of a tree up to 2^64 leaves is accepted. */
  lemma InclusionComplete(h: NodeHash, d: seq<Digest>, m: nat, j: nat)
    requires m < |d| <= Pow2(j) && j <= MAX_HEAD_PROOF_NODES
    ensures InclusionVerdict(h, d[m], m, |d|, Path(h, d, m), Root(h, d)) == Accepted
  {
    hide Split;
    PathLengthBound(m, |d|, j);
    PathClimbs(h, d, m, d[m]);
  }

  /** Every generated consistency proof between a prefix and a tree up to 2^63 leaves is accepted. */
  lemma ConsistencyComplete(h: NodeHash, d: seq<Digest>, m: nat, j: nat)
    requires 1 <= m <= |d| <= Pow2(j) && j < MAX_HEAD_PROOF_NODES
    ensures ConsistencyVerdict(h, m, Root(h, d[..m]), |d|, Root(h, d), ConsistencyProof(h, d, m)) == Accepted
  {
    hide Split;
    SubProofLengthBound(m, |d|, true, j);
    SubProofExtends(h, d, m, true, Root(h, d[..m]));
    if m == |d| { assert d[..m] == d; }
  }

  // ----- soundness -----

  lemma {:induction false} PathUnique(h: NodeHash, d: seq<Digest>, m: nat, x: Digest, y: Digest, p: seq<Digest>)
    requires m < |d| && Climb(h, m, |d|, x, y, p).Heads? && Climb(h, m, |d|, x, y, p).new_ == Root(h, d)
    ensures (y == d[m] && p == Path(h, d, m)) || Collision(h)
    decreases |d|
  {
    hide Split, Climb, Path, Root, Collision;
    if |d| == 1 {
      SingleLeaf(h, d, x, y, p);
    } else {
      var k, last := Split(|d|), |p| - 1;
      ClimbStep(h, m, |d|, x, y, p);
      RootStep(h, d);
      if m < k {
        NodeInjective(h, Climb(h, m, k, x, y, p[..last]).new_, p[last], Root(h, d[..k]), Root(h, d[k..]));
        if !Collision(h) { PathUnique(h, d[..k], m, x, y, p[..last]); }
      } else {
        NodeInjective(h, p[last], Climb(h, m - k, |d| - k, x, y, p[..last]).new_, Root(h, d[..k]), Root(h, d[k..]));
        if !Collision(h) { PathUnique(h, d[k..], m - k, x, y, p[..last]); }
      }
      PathParts(h, d, m);
      SameParts(p, Path(h, d, m));
    }
  }

  lemma SameParts(p: seq<Digest>, q: seq<Digest>)
    requires p != [] && q != []
    ensures p[..|p| - 1] == q[..|q| - 1] && p[|p| - 1] == q[|q| - 1] ==> p == q
  {
    assert p == p[..|p| - 1] + [p[|p| - 1]] && q == q[..|q| - 1] + [q[|q| - 1]];
  }

  lemma {:induction false} SubProofUnique(h: NodeHash, d: seq<Digest>, m: nat, c: bool, r: Digest, p: seq<Digest>)
    requires 1 <= m <= |d| && Extend(h, m, |d|, c, r, p).Heads? && Extend(h, m, |d|, c, r, p).new_ == Root(h, d)
    ensures (Extend(h, m, |d|, c, r, p).old_ == Root(h, d[..m]) && p == SubProof(h, d, m, c)) || Collision(h)
    decreases |d|
  {
    hide Split, Extend, SubProof, SubProofLength, Root, Collision;
    if m == |d| {
      ExtendWhole(h, d, c, r, p);
    } else {
      var k, last := Split(|d|), |p| - 1;
      ExtendStep(h, m, |d|, c, r, p);
      RootStep(h, d);
      if m <= k {
        NodeInjective(h, Extend(h, m, k, c, r, p[..last]).new_, p[last], Root(h, d[..k]), Root(h, d[k..]));
        if !Collision(h) {
          SubProofUnique(h, d[..k], m, c, r, p[..last]);
          assert d[..k][..m] == d[..m];
        }
      } else {
        var right := Extend(h, m - k, |d| - k, false, r, p[..last]).new_;
        NodeInjective(h, p[last], right, Root(h, d[..k]), Root(h, d[k..]));
        if !Collision(h) {
          SubProofUnique(h, d[k..], m - k, false, r, p[..last]);
          PrefixRoot(h, d, m);
        }
      }
      SubProofParts(h, d, m, c);
      SameParts(p, SubProof(h, d, m, c));
    }
  }

  /** An accepted inclusion proof under the true head proves the true leaf, and is the true path. */
  lemma InclusionSound(h: NodeHash, d: seq<Digest>, m: int, leaf: Digest, p: seq<Digest>)
    requires d != []
    requires InclusionVerdict(h, leaf, m, |d|, p, Root(h, d)) == Accepted
    ensures (0 <= m < |d| && leaf == d[m] && p == Path(h, d, m)) || Collision(h)
  {
    hide Split;
    PathUnique(h, d, m, leaf, leaf, p);
  }

  /** An accepted consistency proof under the true new head pins the old head to the true prefix's. */
  lemma ConsistencySound(h: NodeHash, d: seq<Digest>, m: int, oldRoot: Digest, p: seq<Digest>)
    requires d != []
    requires ConsistencyVerdict(h, m, oldRoot, |d|, Root(h, d), p) == Accepted
    ensures (1 <= m <= |d| && oldRoot == Root(h, d[..m]) && p == ConsistencyProof(h, d, m)) || Collision(h)
  {
    hide Split;
    if m == |d| {
      assert d[..m] == d;
    } else {
      SubProofUnique(h, d, m, true, oldRoot, p);
    }
  }

  /** A tree head as a client retains it. */
  datatype Head = Head(size: int, root: Digest)

  /** A client that checked each head against the one before it has retained only heads of true prefixes. */
  lemma {:induction false} RetainedHeadsSound(h: NodeHash, d: seq<Digest>, heads: seq<Head>,
                                              proofs: seq<seq<Digest>>, i: nat)
    requires d != [] && i < |heads| == |proofs| + 1 && heads[|heads| - 1] == Head(|d|, Root(h, d))
    requires forall k | 0 <= k < |proofs| ::
               ConsistencyVerdict(h, heads[k].size, heads[k].root, heads[k + 1].size, heads[k + 1].root, proofs[k])
               == Accepted
    ensures (1 <= heads[i].size <= |d| && heads[i].root == Root(h, d[..heads[i].size])) || Collision(h)
    decreases |heads| - i
  {
    hide Root, Collision, ConsistencyProof;
    if i == |proofs| {
      assert d[..|d|] == d;
    } else {
      RetainedHeadsSound(h, d, heads, proofs, i + 1);
      if !Collision(h) {
        var seen := d[..heads[i + 1].size];
        ConsistencySound(h, seen, heads[i].size, heads[i].root, proofs[i]);
        if !Collision(h) { assert seen[..heads[i].size] == d[..heads[i].size]; }
      }
    }
  }
}
