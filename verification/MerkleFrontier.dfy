/**
 The append state of etzio/kernel/merkle_frontier_v1.py: only the roots of the
 complete subtrees in the binary decomposition of the tree size are kept, and
 every answer must be the full tree's.
 */
module MerkleFrontier {
  import opened Common
  import opened Bits
  import opened MerkleTree
  import opened MerkleVerify

  const MAX_HEAD_TREE_SIZE: nat := 0x1_0000_0000_0000

  lemma MaxIsPower()
    ensures MAX_HEAD_TREE_SIZE == Pow2(48)
  {
    assert Pow2(8) == 0x100 && Pow2(16) == 0x1_0000;
    assert Pow2(24) == 0x100_0000 && Pow2(32) == 0x1_0000_0000;
    assert Pow2(40) == 0x100_0000_0000;
  }

  datatype State = State(treeSize: nat, peaks: seq<Digest>)

  /** What the constructor checks. */
  predicate Valid(s: State) {
    1 <= s.treeSize <= MAX_HEAD_TREE_SIZE && |s.peaks| == BitCount(s.treeSize)
  }

  datatype Failure = BadTreeSize | BadPeaks | ProofRefused(why: Refusal) | RootDiffers | TreeFull

  datatype Appended = Appended(state: State, inclusion: seq<Digest>, consistency: seq<Digest>)

  // ----- what the state stands for -----

  /** The sizes of the complete subtrees, high to low. */
  function PeakSizes(n: nat): seq<nat>
    requires n >= 1
    decreases n
  {
    if PowerOfTwo(n) then [n] else
    assert n >= 2;
    [Split(n)] + PeakSizes(n - Split(n))
  }

  function Sum(s: seq<nat>): nat {
    if s == [] then 0 else s[0] + Sum(s[1..])
  }

  /** The roots of those subtrees of a tree over `d`. */
  function Peaks(h: NodeHash, d: seq<Digest>): (p: seq<Digest>)
    requires |d| >= 1
    decreases |d|
  {
    if PowerOfTwo(|d|) then [Root(h, d)] else
    assert |d| >= 2;
    var k := Split(|d|);
    [Root(h, d[..k])] + Peaks(h, d[k..])
  }

  lemma PeaksOfComplete(h: NodeHash, d: seq<Digest>)
    requires |d| >= 1 && PowerOfTwo(|d|)
    ensures Peaks(h, d) == [Root(h, d)] && PeakSizes(|d|) == [|d|]
  {
  }

  lemma PeaksStep(h: NodeHash, d: seq<Digest>)
    requires |d| >= 1 && !PowerOfTwo(|d|)
    ensures |d| >= 2
    ensures Peaks(h, d) == [Root(h, d[..Split(|d|)])] + Peaks(h, d[Split(|d|)..])
    ensures PeakSizes(|d|) == [Split(|d|)] + PeakSizes(|d| - Split(|d|))
  {
    hide Split;
  }

  ghost predicate Represents(h: NodeHash, s: State, d: seq<Digest>) {
    |d| >= 1 && s.treeSize == |d| && s.peaks == Peaks(h, d)
  }

  function Reversed(s: seq<Digest>): (r: seq<Digest>)
    ensures |r| == |s|
  {
    if s == [] then [] else Reversed(s[1..]) + [s[0]]
  }

  lemma {:induction false} ReversedInit(s: seq<Digest>)
    requires s != []
    ensures Reversed(s) == [s[|s| - 1]] + Reversed(s[..|s| - 1])
  {
    if |s| > 1 {
      ReversedInit(s[1..]);
      assert s[1..][..|s| - 2] == s[..|s| - 1][1..];
    }
  }

  /** The decomposition: strictly falling powers of two that add up to the size, one per set bit. */
  lemma {:induction false} PeakSizesDecompose(n: nat)
    requires n >= 1
    ensures Sum(PeakSizes(n)) == n && |PeakSizes(n)| == BitCount(n)
    ensures forall i | 0 <= i < |PeakSizes(n)| :: PowerOfTwo(PeakSizes(n)[i]) && PeakSizes(n)[i] <= n
    ensures forall i, j | 0 <= i < j < |PeakSizes(n)| :: PeakSizes(n)[j] < PeakSizes(n)[i]
    decreases n
  {
    hide Split;
    if PowerOfTwo(n) {
      PowerOfTwoBits(n);
      assert Sum([n]) == n + Sum([n][1..]);
    } else {
      var k := Split(n);
      RemainderBits(n);
      PeakSizesDecompose(n - k);
      SplitPower(n);
      assert PeakSizes(n)[1..] == PeakSizes(n - k);
    }
  }

  /** What is left of a size that is no power of two, after its largest one. */
  lemma RemainderBits(n: nat)
    requires n >= 2 && !PowerOfTwo(n)
    ensures 1 <= n - Split(n) < Split(n)
    ensures BitCount(n) == 1 + BitCount(n - Split(n))
    ensures TrailingZeros(n) == TrailingZeros(n - Split(n))
  {
    hide Split, PowerOfTwo, BitCount, TrailingZeros;
    SplitPower(n);
    SplitStrict(n);
    BitsOfSum(Split(n), n - Split(n));
  }

  lemma {:induction false} PeaksLength(h: NodeHash, d: seq<Digest>)
    requires |d| >= 1
    ensures |Peaks(h, d)| == BitCount(|d|) >= 1
    decreases |d|
  {
    hide Split, Peaks, BitCount, PowerOfTwo;
    if PowerOfTwo(|d|) {
      PeaksOfComplete(h, d);
      PowerOfTwoBits(|d|);
    } else {
      PeaksStep(h, d);
      RemainderBits(|d|);
      PeaksLength(h, d[Split(|d|)..]);
    }
  }

  lemma {:induction false} OnePeakPerSize(h: NodeHash, d: seq<Digest>)
    requires |d| >= 1
    ensures |Peaks(h, d)| == |PeakSizes(|d|)|
    decreases |d|
  {
    hide Split, Peaks, PeakSizes, PowerOfTwo;
    if PowerOfTwo(|d|) {
      PeaksOfComplete(h, d);
    } else {
      PeaksStep(h, d);
      OnePeakPerSize(h, d[Split(|d|)..]);
    }
  }

  ghost predicate IsBlockRoot(h: NodeHash, d: seq<Digest>, peak: Digest, lo: nat, size: nat) {
    1 <= size && lo + size <= |d| && peak == Root(h, d[lo..lo + size])
  }

  lemma BlockOfSuffix(h: NodeHash, d: seq<Digest>, k: nat, peak: Digest, lo: nat, size: nat)
    requires k <= |d| && IsBlockRoot(h, d[k..], peak, lo, size)
    ensures IsBlockRoot(h, d, peak, k + lo, size)
  {
    assert d[k..][lo..lo + size] == d[k + lo..k + lo + size];
  }

  /** Peak number i is the root of the i-th block of leaves. */
  lemma {:induction false} PeaksAreBlockRoots(h: NodeHash, d: seq<Digest>, i: nat)
    requires |d| >= 1 && i < |PeakSizes(|d|)|
    ensures |Peaks(h, d)| == |PeakSizes(|d|)|
    ensures IsBlockRoot(h, d, Peaks(h, d)[i], Sum(PeakSizes(|d|)[..i]), PeakSizes(|d|)[i])
    decreases |d|
  {
    hide Split, Peaks, PeakSizes, Root, PowerOfTwo;
    OnePeakPerSize(h, d);
    assert Sum(PeakSizes(|d|)[..0]) == 0;
    if PowerOfTwo(|d|) {
      PeaksOfComplete(h, d);
      assert d[0..|d|] == d;
    } else {
      PeaksStep(h, d);
      var k := Split(|d|);
      if i == 0 {
        assert d[0..k] == d[..k];
      } else {
        LaterSize(|d|, i);
        PeaksAreBlockRoots(h, d[k..], i - 1);
        BlockOfSuffix(h, d, k, Peaks(h, d)[i], Sum(PeakSizes(|d| - k)[..i - 1]), PeakSizes(|d|)[i]);
      }
    }
  }

  lemma LaterSize(n: nat, i: nat)
    requires n >= 2 && !PowerOfTwo(n) && 1 <= i < |PeakSizes(n)|
    ensures |PeakSizes(n - Split(n))| == |PeakSizes(n)| - 1
    ensures PeakSizes(n)[i] == PeakSizes(n - Split(n))[i - 1]
    ensures Sum(PeakSizes(n)[..i]) == Split(n) + Sum(PeakSizes(n - Split(n))[..i - 1])
  {
    hide Split;
    assert PeakSizes(n)[..i][1..] == PeakSizes(n - Split(n))[..i - 1];
  }

  // ----- the root -----

  function FoldPeaks(h: NodeHash, peaks: seq<Digest>): Digest
    requires peaks != []
  {
    if |peaks| == 1 then peaks[0] else h(peaks[0], FoldPeaks(h, peaks[1..]))
  }

  lemma {:induction false} FoldIsRoot(h: NodeHash, d: seq<Digest>)
    requires |d| >= 1
    ensures Peaks(h, d) != [] && FoldPeaks(h, Peaks(h, d)) == Root(h, d)
    decreases |d|
  {
    hide Split, Peaks, Root, PowerOfTwo;
    if PowerOfTwo(|d|) {
      PeaksOfComplete(h, d);
    } else {
      PeaksStep(h, d);
      var k := Split(|d|);
      RootStep(h, d);
      FoldIsRoot(h, d[k..]);
      assert Peaks(h, d)[1..] == Peaks(h, d[k..]);
    }
  }

  lemma BitCountPositive(n: nat)
    requires n > 0
    ensures BitCount(n) > 0
  {
  }

  method RootHash(h: NodeHash, s: State) returns (root: Digest)
    requires Valid(s)
    ensures s.peaks != [] && root == FoldPeaks(h, s.peaks)
    ensures forall d | Represents(h, s, d) :: root == Root(h, d)
  {
    BitCountPositive(s.treeSize);
    root := s.peaks[|s.peaks| - 1];
    for i := |s.peaks| - 1 downto 0
      invariant root == FoldPeaks(h, s.peaks[i..])
    {
      assert s.peaks[i..][1..] == s.peaks[i + 1..];
      root := h(s.peaks[i], root);
    }
    assert s.peaks[0..] == s.peaks;
    forall d | Represents(h, s, d) ensures root == Root(h, d) { FoldIsRoot(h, d); }
  }

  // ----- appending -----

  /** The carry: peaks merge while the size is odd. */
  function Carried(h: NodeHash, peaks: seq<Digest>, size: nat, carry: Digest): (r: seq<Digest>)
    requires |peaks| == BitCount(size)
    decreases size
  {
    if size % 2 == 0 then peaks + [carry] else
    var last := |peaks| - 1;
    Carried(h, peaks[..last], size / 2, h(peaks[last], carry))
  }

  lemma {:induction false} CarriedLength(h: NodeHash, peaks: seq<Digest>, size: nat, carry: Digest)
    requires |peaks| == BitCount(size)
    ensures |Carried(h, peaks, size, carry)| == BitCount(size + 1)
    decreases size
  {
    if size % 2 == 1 {
      var last := |peaks| - 1;
      assert (size + 1) / 2 == size / 2 + 1;
      CarriedLength(h, peaks[..last], size / 2, h(peaks[last], carry));
    }
  }

  lemma CarriedEven(h: NodeHash, peaks: seq<Digest>, size: nat, x: Digest)
    requires size % 2 == 0 && |peaks| == BitCount(size)
    ensures Carried(h, peaks, size, x) == peaks + [x]
  {
  }

  lemma CarriedOdd(h: NodeHash, peaks: seq<Digest>, size: nat, x: Digest)
    requires size % 2 == 1 && |peaks| == BitCount(size)
    ensures var last := |peaks| - 1;
            && last == BitCount(size / 2)
            && Carried(h, peaks, size, x) == Carried(h, peaks[..last], size / 2, h(peaks[last], x))
  {
  }

  /** A leading peak stays in front, unless the carry runs all the way up to it. */
  lemma {:induction false} CarryPast(h: NodeHash, a: Digest, peaks: seq<Digest>, k: nat, b: nat, carry: Digest)
    requires PowerOfTwo(k) && b < k && |peaks| == BitCount(b)
    ensures BitCount(k + b) == 1 + BitCount(b)
    ensures b + 1 < k ==> Carried(h, [a] + peaks, k + b, carry) == [a] + Carried(h, peaks, b, carry)
    ensures b + 1 == k ==>
              && |Carried(h, peaks, b, carry)| == 1
              && Carried(h, [a] + peaks, k + b, carry) == [h(a, Carried(h, peaks, b, carry)[0])]
    decreases k
  {
    hide BitCount, Carried, PowerOfTwo;
    BitsOfSum(k, b);
    if k == 1 {
      CarryOnce(h, a, carry);
      NoBits();
      assert peaks == [] && [a] + peaks == [a];
    } else {
      Halved(k);
      var k', b' := k / 2, b / 2;
      if b % 2 == 1 {
        var last := |peaks| - 1;
        CarriedOdd(h, peaks, b, carry);
        CarriedOdd(h, [a] + peaks, k + b, carry);
        assert b == 2 * b' + 1 && (k + b) / 2 == k' + b';
        assert ([a] + peaks)[..last + 1] == [a] + peaks[..last];
        CarryPast(h, a, peaks[..last], k', b', h(peaks[last], carry));
      } else {
        CarriedEven(h, peaks, b, carry);
        CarriedEven(h, [a] + peaks, k + b, carry);
        assert [a] + (peaks + [carry]) == ([a] + peaks) + [carry];
      }
    }
  }

  lemma NoBits()
    ensures BitCount(0) == 0 && BitCount(1) == 1
  {
  }

  lemma CarryOnce(h: NodeHash, a: Digest, carry: Digest)
    ensures Carried(h, [], 0, carry) == [carry] && Carried(h, [a], 1, carry) == [h(a, carry)]
  {
    assert [a][..0] == [];
  }

  /** Merging the carry gives the peaks of the tree with one more leaf. */
  lemma {:induction false} CarriedIsPeaks(h: NodeHash, d: seq<Digest>, x: Digest)
    requires |d| >= 1
    ensures |Peaks(h, d)| == BitCount(|d|)
    ensures Carried(h, Peaks(h, d), |d|, x) == Peaks(h, d + [x])
    decreases |d|
  {
    hide Split, Peaks, Root, PowerOfTwo, BitCount, Carried;
    PeaksLength(h, d);
    if PowerOfTwo(|d|) {
      CarriedIntoComplete(h, d, x);
    } else {
      PeaksStep(h, d);
      var k := Split(|d|);
      var rest := d[k..];
      RemainderBits(|d|);
      SplitPower(|d|);
      CarriedIsPeaks(h, rest, x);
      CarryPast(h, Root(h, d[..k]), Peaks(h, rest), k, |rest|, x);
      PeaksOfAppended(h, d, x);
    }
  }

  lemma SecondLeaf(h: NodeHash, a: Digest, x: Digest)
    ensures Peaks(h, [a]) == [a]
    ensures Carried(h, [a], 1, x) == [h(a, x)] == Peaks(h, [a, x])
  {
    hide Split;
    assert [a][..0] == [] && PowerOfTwo(2);
    var d := [a, x];
    SplitUnique(2, 1);
    assert d[..1] == [a] && d[1..] == [x];
    assert Root(h, d) == h(Root(h, d[..1]), Root(h, d[1..]));
  }

  lemma PeaksAfterComplete(h: NodeHash, d: seq<Digest>, x: Digest)
    requires |d| >= 2 && PowerOfTwo(|d|)
    ensures Peaks(h, d + [x]) == [Root(h, d), x] == Peaks(h, d) + [x]
  {
    hide Split;
    var n, d' := |d|, d + [x];
    PowerPlusOne(n);
    SplitOfSuccessor(n);
    assert d'[..n] == d && d'[n..] == [x];
    assert !PowerOfTwo(|d'|) && Split(|d'|) == n;
    assert Peaks(h, d') == [Root(h, d'[..n])] + Peaks(h, d'[n..]);
    assert Peaks(h, [x]) == [x];
  }

  /** A complete tree of more than one leaf keeps its root as a peak. */
  lemma CarriedIntoComplete(h: NodeHash, d: seq<Digest>, x: Digest)
    requires |d| >= 1 && PowerOfTwo(|d|) && |Peaks(h, d)| == BitCount(|d|)
    ensures Carried(h, Peaks(h, d), |d|, x) == Peaks(h, d + [x])
  {
    hide Carried, Peaks;
    if |d| == 1 {
      SecondLeaf(h, d[0], x);
      assert d + [x] == [d[0], x] && d == [d[0]];
    } else {
      PowerPlusOne(|d|);
      CarriedEven(h, Peaks(h, d), |d|, x);
      PeaksAfterComplete(h, d, x);
    }
  }

  lemma PeaksOfAppended(h: NodeHash, d: seq<Digest>, x: Digest)
    requires |d| >= 2 && !PowerOfTwo(|d|)
    ensures var k := Split(|d|);
            var rest := d[k..] + [x];
            && (|rest| < k ==> Peaks(h, d + [x]) == [Root(h, d[..k])] + Peaks(h, rest))
            && (|rest| == k ==> && Peaks(h, rest) == [Root(h, rest)]
                                && Peaks(h, d + [x]) == [h(Root(h, d[..k]), Root(h, rest))])
  {
    hide Split, PowerOfTwo, Peaks, Root;
    var k, d' := Split(|d|), d + [x];
    var rest := d[k..] + [x];
    FullOrNot(d, x);
    SlicesOfAppended(d, x, k);
    if |rest| < k {
      PeaksStep(h, d');
    } else {
      PeaksOfComplete(h, rest);
      PeaksOfComplete(h, d');
      RootStep(h, d');
    }
  }

  lemma PowerPlusOne(n: nat)
    requires PowerOfTwo(n) && n > 1
    ensures !PowerOfTwo(n + 1) && n % 2 == 0
  {
    assert (n + 1) % 2 == 1;
  }

  /** Whether one more leaf completes the tree, in terms of the part after the split. */
  lemma FullOrNot(d: seq<Digest>, x: Digest)
    requires |d| >= 2 && !PowerOfTwo(|d|)
    ensures var k := Split(|d|);
            var rest := d[k..] + [x];
            && Split(|d| + 1) == k && |rest| <= k
            && (PowerOfTwo(|d| + 1) <==> |rest| == k)
            && (|rest| == k ==> PowerOfTwo(|rest|))
  {
    hide Split, PowerOfTwo;
    var n, k := |d|, Split(|d|);
    SplitStrict(n);
    SplitPower(n);
    SplitOfSuccessor(n);
    Doubled(k);
    if PowerOfTwo(n + 1) { PowersApart(n + 1, 2 * k); }
  }

  lemma SlicesOfAppended(d: seq<Digest>, x: Digest, k: nat)
    requires k <= |d|
    ensures (d + [x])[..k] == d[..k] && (d + [x])[k..] == d[k..] + [x]
  {
  }

  /** The reversed peaks are the audit path of the next leaf. */
  lemma {:induction false} PeaksArePath(h: NodeHash, d: seq<Digest>, x: Digest)
    requires |d| >= 1
    ensures Reversed(Peaks(h, d)) == Path(h, d + [x], |d|)
    decreases |d|
  {
    hide Split;
    SplitOfSuccessor(|d|);
    if PowerOfTwo(|d|) {
      SlicesOfAppended(d, x, |d|);
      assert d[..|d|] == d && d[|d|..] + [x] == [x];
    } else {
      var k := Split(|d|);
      SlicesOfAppended(d, x, k);
      PeaksArePath(h, d[k..], x);
      assert Peaks(h, d)[1..] == Peaks(h, d[k..]);
    }
  }

  /** What append returns as consistency proof. */
  function ConsistencyOf(peaks: seq<Digest>, size: nat, x: Digest): seq<Digest>
    requires |peaks| >= 1
  {
    if BitAnd(size, size - 1) == 0 then [x]
    else [peaks[|peaks| - 1], x] + Reversed(peaks[..|peaks| - 1])
  }

  lemma {:induction false} PeaksAreSubProof(h: NodeHash, d: seq<Digest>, x: Digest)
    requires |d| >= 1
    ensures |Peaks(h, d)| >= 1
    ensures var p := Peaks(h, d);
            SubProof(h, d + [x], |d|, false) == [p[|p| - 1], x] + Reversed(p[..|p| - 1])
    decreases |d|
  {
    hide Split, Peaks, Root, SubProof, PowerOfTwo;
    if PowerOfTwo(|d|) {
      PeaksOfComplete(h, d);
      SubProofOfComplete(h, d, x, false);
      assert Peaks(h, d)[..0] == [] && [Root(h, d)] + [x] == [Root(h, d), x] + [];
    } else {
      PeaksStep(h, d);
      PeaksAreSubProof(h, d[Split(|d|)..], x);
      LastOfPeaks(h, d, x);
      SubProofOfAppended(h, d, x, false);
    }
  }

  lemma SubProofOfComplete(h: NodeHash, d: seq<Digest>, x: Digest, c: bool)
    requires |d| >= 1 && PowerOfTwo(|d|)
    ensures SubProof(h, d + [x], |d|, c) == (if c then [] else [Root(h, d)]) + [x]
  {
    hide Split;
    var n, d' := |d|, d + [x];
    SplitOfSuccessor(n);
    assert d'[..n] == d && d'[n..] == [x];
  }

  lemma SubProofOfAppended(h: NodeHash, d: seq<Digest>, x: Digest, c: bool)
    requires |d| >= 2 && !PowerOfTwo(|d|)
    ensures var k := Split(|d|);
            SubProof(h, d + [x], |d|, c) == SubProof(h, d[k..] + [x], |d| - k, false) + [Root(h, d[..k])]
  {
    hide Split;
    var n, d' := |d|, d + [x];
    var k := Split(n);
    SplitOfSuccessor(n);
    SlicesOfAppended(d, x, k);
    assert |d'| == n + 1 && Split(|d'|) == k;
    assert SubProof(h, d', n, c) == SubProof(h, d'[k..], n - k, false) + [Root(h, d'[..k])];
  }

  lemma FlagIrrelevant(h: NodeHash, d: seq<Digest>, x: Digest)
    requires |d| >= 2 && !PowerOfTwo(|d|)
    ensures SubProof(h, d + [x], |d|, true) == SubProof(h, d + [x], |d|, false)
  {
    hide Split;
    SubProofOfAppended(h, d, x, true);
    SubProofOfAppended(h, d, x, false);
  }

  /** The consistency proof's tail grows by the leading peak. */
  lemma LastOfPeaks(h: NodeHash, d: seq<Digest>, x: Digest)
    requires |d| >= 2 && !PowerOfTwo(|d|) && |Peaks(h, d[Split(|d|)..])| >= 1
    ensures var p, q := Peaks(h, d), Peaks(h, d[Split(|d|)..]);
            && |p| == |q| + 1
            && [p[|p| - 1], x] + Reversed(p[..|p| - 1])
               == ([q[|q| - 1], x] + Reversed(q[..|q| - 1])) + [Root(h, d[..Split(|d|)])]
  {
    hide Split;
    LastOfList(Root(h, d[..Split(|d|)]), Peaks(h, d[Split(|d|)..]), x);
  }

  lemma LastOfList(a: Digest, q: seq<Digest>, x: Digest)
    requires |q| >= 1
    ensures var p := [a] + q;
            [p[|p| - 1], x] + Reversed(p[..|p| - 1]) == ([q[|q| - 1], x] + Reversed(q[..|q| - 1])) + [a]
  {
    var p := [a] + q;
    assert p[..|p| - 1] == [a] + q[..|q| - 1];
    assert p[..|p| - 1][1..] == q[..|q| - 1];
  }

  lemma PeaksAreConsistencyProof(h: NodeHash, d: seq<Digest>, x: Digest)
    requires |d| >= 1
    ensures |Peaks(h, d)| >= 1
    ensures ConsistencyOf(Peaks(h, d), |d|, x) == ConsistencyProof(h, d + [x], |d|)
  {
    hide Split, Peaks, Root, SubProof, PowerOfTwo, BitAnd, Reversed;
    PeaksAreSubProof(h, d, x);
    ClearLowestBit(|d|);
    if PowerOfTwo(|d|) {
      SubProofOfComplete(h, d, x, true);
    } else {
      PeaksStep(h, d);
      FlagIrrelevant(h, d, x);
    }
  }

  method Append(h: NodeHash, s: State, leaf: Digest) returns (r: Result<Appended, Failure>)
    requires Valid(s)
    ensures s.treeSize == MAX_HEAD_TREE_SIZE ==> r == Err(TreeFull)
    ensures s.treeSize < MAX_HEAD_TREE_SIZE ==>
              r.Ok? && Valid(r.value.state) && r.value.state.treeSize == s.treeSize + 1
    ensures forall d | Represents(h, s, d) && r.Ok? ::
              && Represents(h, r.value.state, d + [leaf])
              && r.value.inclusion == Path(h, d + [leaf], |d|)
              && r.value.consistency == ConsistencyProof(h, d + [leaf], |d|)
  {
    if s.treeSize == MAX_HEAD_TREE_SIZE { return Err(TreeFull); }
    BitCountPositive(s.treeSize);
    var inclusion := Reversed(s.peaks);
    var consistency := ConsistencyOf(s.peaks, s.treeSize, leaf);
    var peaks, size, carry := s.peaks, s.treeSize, leaf;
    while size % 2 == 1
      invariant |peaks| == BitCount(size)
      invariant Carried(h, peaks, size, carry) == Carried(h, s.peaks, s.treeSize, leaf)
      decreases size
    {
      carry := h(peaks[|peaks| - 1], carry);
      peaks := peaks[..|peaks| - 1];
      size := size / 2;
    }
    peaks := peaks + [carry];
    CarriedLength(h, s.peaks, s.treeSize, leaf);
    r := Ok(Appended(State(s.treeSize + 1, peaks), inclusion, consistency));
    forall d | Represents(h, s, d)
      ensures Represents(h, r.value.state, d + [leaf])
      ensures inclusion == Path(h, d + [leaf], |d|)
      ensures consistency == ConsistencyProof(h, d + [leaf], |d|)
    {
      CarriedIsPeaks(h, d, leaf);
      PeaksArePath(h, d, leaf);
      PeaksAreConsistencyProof(h, d, leaf);
    }
  }

  /** The peaks after appending the leaves of `d` one by one. */
  function AppendAll(h: NodeHash, d: seq<Digest>): (peaks: seq<Digest>)
    requires |d| >= 1
    ensures |peaks| == BitCount(|d|)
  {
    if |d| == 1 then [d[0]] else
    var n := |d| - 1;
    CarriedLength(h, AppendAll(h, d[..n]), n, d[n]);
    Carried(h, AppendAll(h, d[..n]), n, d[n])
  }

  /** A state grown leaf by leaf is the full tree's decomposition, with the full tree's root. */
  lemma {:induction false} GrownStateIsTree(h: NodeHash, d: seq<Digest>)
    requires |d| >= 1
    ensures Represents(h, State(|d|, AppendAll(h, d)), d)
    ensures AppendAll(h, d) != [] && FoldPeaks(h, AppendAll(h, d)) == Root(h, d)
  {
    hide Split, Carried, Peaks, Root, BitCount, FoldPeaks, PowerOfTwo;
    FoldIsRoot(h, d);
    if |d| == 1 {
      OneIsPower();
      PeaksOfComplete(h, d);
      SingleLeaf(h, d, d[0], d[0], []);
    } else {
      var init, last := d[..|d| - 1], d[|d| - 1];
      assert d == init + [last];
      GrownStateIsTree(h, init);
      CarriedIsPeaks(h, init, last);
    }
  }

  /** What append hands out is accepted by both checkers, between the old and the new root. */
  lemma AppendedProofsVerify(h: NodeHash, d: seq<Digest>, x: Digest)
    requires 1 <= |d| < MAX_HEAD_TREE_SIZE
    ensures |Peaks(h, d)| >= 1
    ensures InclusionVerdict(h, x, |d|, |d| + 1, Reversed(Peaks(h, d)), Root(h, d + [x])) == Accepted
    ensures ConsistencyVerdict(h, |d|, Root(h, d), |d| + 1, Root(h, d + [x]), ConsistencyOf(Peaks(h, d), |d|, x))
            == Accepted
  {
    hide Split;
    MaxIsPower();
    PeaksArePath(h, d, x);
    PeaksAreConsistencyProof(h, d, x);
    InclusionComplete(h, d + [x], |d|, 48);
    ConsistencyComplete(h, d + [x], |d|, 48);
    assert (d + [x])[..|d|] == d;
  }

  // ----- reconstruction from a last-leaf proof -----

  /** The rightmost peak: the last leaf under the first siblings of its path. */
  function FoldLeft(h: NodeHash, x: Digest, siblings: seq<Digest>): Digest {
    if siblings == [] then x else
    var last := |siblings| - 1;
    h(siblings[last], FoldLeft(h, x, siblings[..last]))
  }

  function Rebuilt(h: NodeHash, n: nat, x: Digest, p: seq<Digest>): seq<Digest>
    requires n >= 1 && TrailingZeros(n) <= |p|
  {
    var t := TrailingZeros(n);
    Reversed(p[t..]) + [FoldLeft(h, x, p[..t])]
  }

  /** In a complete tree the whole path of the last leaf lies on its left. */
  lemma {:induction false} LastOfComplete(h: NodeHash, n: nat, x: Digest, p: seq<Digest>)
    requires PowerOfTwo(n) && Climb(h, n - 1, n, x, x, p).Heads?
    ensures |p| == TrailingZeros(n) && Climb(h, n - 1, n, x, x, p).new_ == FoldLeft(h, x, p)
    decreases n
  {
    hide Split;
    if n > 1 {
      SplitUnique(n, n / 2);
      assert n - n / 2 == n / 2 && n / 2 - 1 == n - 1 - n / 2;
      LastOfComplete(h, n / 2, x, p[..|p| - 1]);
    }
  }

  lemma RebuiltStep(h: NodeHash, n: nat, x: Digest, p: seq<Digest>)
    requires n >= 2 && !PowerOfTwo(n) && p != []
    requires TrailingZeros(n) == TrailingZeros(n - Split(n)) < |p|
    ensures Rebuilt(h, n, x, p) == [p[|p| - 1]] + Rebuilt(h, n - Split(n), x, p[..|p| - 1])
  {
    hide Split;
    var t, last := TrailingZeros(n), |p| - 1;
    ReversedInit(p[t..]);
    assert p[t..][..last - t] == p[..last][t..] && p[..last][..t] == p[..t];
  }

  /** Any accepted last-leaf proof rebuilds one peak per set bit, folding to the accepted root. */
  lemma {:induction false} RebuiltFoldsToRoot(h: NodeHash, n: nat, x: Digest, p: seq<Digest>)
    requires n >= 1 && Climb(h, n - 1, n, x, x, p).Heads?
    ensures TrailingZeros(n) <= |p| && |Rebuilt(h, n, x, p)| == BitCount(n) >= 1
    ensures FoldPeaks(h, Rebuilt(h, n, x, p)) == Climb(h, n - 1, n, x, x, p).new_
    decreases n
  {
    hide Split;
    if PowerOfTwo(n) {
      LastOfComplete(h, n, x, p);
      PowerOfTwoBits(n);
      assert p[..|p|] == p;
    } else {
      RemainderBits(n);
      RebuiltFoldsToRoot(h, n - Split(n), x, p[..|p| - 1]);
      RebuiltStep(h, n, x, p);
    }
  }

  lemma {:induction false} FoldLeftCons(h: NodeHash, x: Digest, first: Digest, rest: seq<Digest>)
    ensures FoldLeft(h, x, [first] + rest) == FoldLeft(h, h(first, x), rest)
  {
    if rest == [] {
      assert ([first] + rest)[..0] == [];
    } else {
      var last := |rest| - 1;
      assert ([first] + rest)[..last + 1] == [first] + rest[..last];
      FoldLeftCons(h, x, first, rest[..last]);
    }
  }

  lemma {:induction false} ReversedTwice(s: seq<Digest>)
    ensures Reversed(Reversed(s)) == s
  {
    if s != [] {
      ReversedInit(Reversed(s));
      assert Reversed(s)[..|s| - 1] == Reversed(s[1..]);
      ReversedTwice(s[1..]);
    }
  }

  /** Rebuilding from reversed peaks merges exactly the peaks the carry merges. */
  lemma {:induction false} RebuiltIsCarried(h: NodeHash, peaks: seq<Digest>, size: nat, x: Digest)
    requires |peaks| == BitCount(size)
    ensures TrailingZeros(size + 1) <= |peaks|
    ensures Rebuilt(h, size + 1, x, Reversed(peaks)) == Carried(h, peaks, size, x)
    decreases size
  {
    hide BitCount, Carried, Reversed, FoldLeft, TrailingZeros;
    if size % 2 == 0 {
      CarriedEven(h, peaks, size, x);
      ReversedTwice(peaks);
      NoSiblings(h, size + 1, x, Reversed(peaks));
    } else {
      var last := |peaks| - 1;
      CarriedOdd(h, peaks, size, x);
      RebuiltIsCarried(h, peaks[..last], size / 2, h(peaks[last], x));
      ReversedInit(peaks);
      OneSibling(h, size, x, peaks[last], Reversed(peaks[..last]));
    }
  }

  lemma NoSiblings(h: NodeHash, n: nat, x: Digest, p: seq<Digest>)
    requires n % 2 == 1
    ensures TrailingZeros(n) == 0 && Rebuilt(h, n, x, p) == Reversed(p) + [x]
  {
    assert p[0..] == p && p[..0] == [];
  }

  lemma OneSibling(h: NodeHash, size: nat, x: Digest, first: Digest, q: seq<Digest>)
    requires size % 2 == 1 && TrailingZeros(size / 2 + 1) <= |q|
    ensures TrailingZeros(size + 1) == TrailingZeros(size / 2 + 1) + 1
    ensures Rebuilt(h, size + 1, x, [first] + q) == Rebuilt(h, size / 2 + 1, h(first, x), q)
  {
    hide Reversed, FoldLeft;
    assert (size + 1) / 2 == size / 2 + 1;
    var t := TrailingZeros(size / 2 + 1);
    assert ([first] + q)[t + 1..] == q[t..] && ([first] + q)[..t + 1] == [first] + q[..t];
    FoldLeftCons(h, x, first, q[..t]);
  }

  /** The true last-leaf proof rebuilds the true peaks. */
  lemma RebuiltIsPeaks(h: NodeHash, d: seq<Digest>, x: Digest)
    ensures |Path(h, d + [x], |d|)| >= TrailingZeros(|d| + 1)
    ensures Rebuilt(h, |d| + 1, x, Path(h, d + [x], |d|)) == Peaks(h, d + [x])
  {
    hide Split;
    if d == [] {
      assert d + [x] == [x] && PowerOfTwo(1);
    } else {
      PeaksArePath(h, d, x);
      CarriedIsPeaks(h, d, x);
      RebuiltIsCarried(h, Peaks(h, d), |d|, x);
    }
  }

  lemma LastLeafState(h: NodeHash, d: seq<Digest>)
    requires |d| >= 1
    ensures var p := Path(h, d, |d| - 1);
            TrailingZeros(|d|) <= |p| && Rebuilt(h, |d|, d[|d| - 1], p) == Peaks(h, d)
  {
    hide Split;
    var init := d[..|d| - 1];
    assert d == init + [d[|d| - 1]];
    RebuiltIsPeaks(h, init, d[|d| - 1]);
  }

  method FromLastLeaf(h: NodeHash, treeSize: int, leaf: Digest, proof: seq<Digest>, root: Digest)
    returns (r: Result<State, Failure>)
    // The reconstruction fails on a bad size or a refused proof, and never after that.
    ensures !(1 <= treeSize <= MAX_HEAD_TREE_SIZE) ==> r == Err(BadTreeSize)
    ensures 1 <= treeSize <= MAX_HEAD_TREE_SIZE ==>
              match InclusionVerdict(h, leaf, treeSize - 1, treeSize, proof, root)
              case Refused(why) => r == Err(ProofRefused(why))
              case Accepted => r.Ok? && Valid(r.value) && r.value.treeSize == treeSize && r.value.peaks != []
                               && FoldPeaks(h, r.value.peaks) == root
    // Under the true head of a tree it is that tree's state.
    ensures forall d | r.Ok? && |d| == treeSize && root == Root(h, d) :: Represents(h, r.value, d) || Collision(h)
    // And the true last-leaf proof of a tree always gets there.
    ensures forall d | 1 <= |d| == treeSize <= MAX_HEAD_TREE_SIZE && leaf == d[|d| - 1]
                       && proof == Path(h, d, |d| - 1) && root == Root(h, d) ::
              r.Ok? && Represents(h, r.value, d)
  {
    hide Climb, Path, Peaks, Root;
    if treeSize < 1 || treeSize > MAX_HEAD_TREE_SIZE { return Err(BadTreeSize); }
    forall d | 1 <= |d| == treeSize && leaf == d[|d| - 1] && proof == Path(h, d, |d| - 1) && root == Root(h, d)
      ensures InclusionVerdict(h, leaf, treeSize - 1, treeSize, proof, root) == Accepted
    {
      MaxIsPower();
      InclusionComplete(h, d, |d| - 1, 48);
    }
    var v := VerifyInclusion(h, leaf, treeSize - 1, treeSize, proof, root);
    if v.Refused? { return Err(ProofRefused(v.why)); }
    LowestBit(treeSize);
    var trailingZeros := BitLength(BitAnd(treeSize, -treeSize)) - 1;
    RebuiltFoldsToRoot(h, treeSize, leaf, proof);
    var rightmost := leaf;
    for i := 0 to trailingZeros
      invariant rightmost == FoldLeft(h, leaf, proof[..i])
    {
      assert proof[..i + 1][..i] == proof[..i];
      rightmost := h(proof[i], rightmost);
    }
    var state := State(treeSize, Reversed(proof[trailingZeros..]) + [rightmost]);
    if |state.peaks| != BitCount(treeSize) { return Err(BadPeaks); }
    var again := RootHash(h, state);
    if again != root { return Err(RootDiffers); }
    r := Ok(state);
    forall d | |d| == treeSize && root == Root(h, d) ensures Represents(h, state, d) || Collision(h) {
      InclusionSound(h, d, treeSize - 1, leaf, proof);
      LastLeafState(h, d);
    }
    forall d | 1 <= |d| == treeSize && leaf == d[|d| - 1] && proof == Path(h, d, |d| - 1)
      ensures Represents(h, state, d)
    {
      LastLeafState(h, d);
    }
  }
}
