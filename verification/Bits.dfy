/**
 Integer bit operations as Python defines them on unbounded integers, and the
 facts about powers of two that the Merkle modules rest on.
 */
module Bits {

  /** `a & b` for a nonnegative `a`; a negative `b` reads as infinite two's complement. */
  function BitAnd(a: nat, b: int): nat {
    if a == 0 then 0 else (if a % 2 == 1 && b % 2 == 1 then 1 else 0) + 2 * BitAnd(a / 2, b / 2)
  }

  /** `n.bit_length()` */
  function BitLength(n: nat): nat {
    if n == 0 then 0 else 1 + BitLength(n / 2)
  }

  /** `n.bit_count()` */
  function BitCount(n: nat): nat {
    if n == 0 then 0 else n % 2 + BitCount(n / 2)
  }

  /** `n >> s` */
  function ShiftRight(n: nat, s: nat): nat {
    if s == 0 then n else ShiftRight(n / 2, s - 1)
  }

  /** `1 << s` */
  function Pow2(s: nat): nat
    ensures Pow2(s) >= 1
  {
    if s == 0 then 1 else 2 * Pow2(s - 1)
  }

  predicate PowerOfTwo(n: nat) {
    n == 1 || (n >= 2 && n % 2 == 0 && PowerOfTwo(n / 2))
  }

  function TrailingZeros(n: nat): nat
    requires n > 0
  {
    if n % 2 == 1 then 0 else 1 + TrailingZeros(n / 2)
  }

  /** The largest power of two strictly below `n`. */
  function Split(n: nat): (k: nat)
    requires n >= 2
    ensures 1 <= k < n <= 2 * k
  {
    SplitFromBounds(n, 1);
    SplitFrom(n, 1)
  }

  /** The first doubling of `k` that is at least half of `n`. */
  function SplitFrom(n: nat, k: nat): nat
    requires 1 <= k < n
    decreases n - k
  {
    if n <= 2 * k then k else SplitFrom(n, 2 * k)
  }

  lemma {:induction false} SplitFromBounds(n: nat, k: nat)
    requires 1 <= k < n
    ensures k <= SplitFrom(n, k) < n <= 2 * SplitFrom(n, k)
    decreases n - k
  {
    if n > 2 * k { SplitFromBounds(n, 2 * k); }
  }

  lemma {:induction false} SplitFromPower(n: nat, k: nat)
    requires 1 <= k < n && PowerOfTwo(k)
    ensures PowerOfTwo(SplitFrom(n, k))
    decreases n - k
  {
    hide PowerOfTwo;
    if n > 2 * k {
      Doubled(k);
      SplitFromPower(n, 2 * k);
    }
  }

  lemma SplitPower(n: nat)
    requires n >= 2
    ensures PowerOfTwo(Split(n))
  {
    SplitFromPower(n, 1);
  }

  lemma {:induction false} SplitFromHalves(n: nat, j: nat, k: nat)
    requires 1 <= k < j && 2 * j - 1 <= n <= 2 * j
    ensures SplitFrom(n, 2 * k) == 2 * SplitFrom(j, k)
    decreases j - k
  {
    if j > 2 * k { SplitFromHalves(n, j, 2 * k); }
  }

  /** Halving a size, rounding up, halves its split point. */
  lemma SplitHalves(n: nat, j: nat)
    requires j >= 2 && 2 * j - 1 <= n <= 2 * j
    ensures Split(n) == 2 * Split(j)
  {
    SplitFromHalves(n, j, 1);
  }

  lemma Doubled(k: nat)
    requires PowerOfTwo(k)
    ensures PowerOfTwo(2 * k)
  {
  }

  lemma OneIsPower()
    ensures PowerOfTwo(1)
  {
  }

  /** Everything about a number, from its half and its lowest bit. */
  lemma FromHalf(n: nat, q: nat, bit: nat)
    requires n == 2 * q + bit && bit <= 1 && n > 0
    ensures n / 2 == q && n % 2 == bit
    ensures BitCount(n) == bit + BitCount(q) && BitLength(n) == 1 + BitLength(q)
    ensures TrailingZeros(n) == if bit == 1 then 0 else 1 + TrailingZeros(q)
    ensures PowerOfTwo(n) <==> n == 1 || (bit == 0 && PowerOfTwo(q))
  {
  }

  lemma Halved(k: nat)
    requires PowerOfTwo(k) && k > 1
    ensures k == 2 * (k / 2) && PowerOfTwo(k / 2)
  {
  }

  /** Two powers of two with the same bounds are equal. */
  lemma {:induction false} PowersApart(a: nat, b: nat)
    requires PowerOfTwo(a) && PowerOfTwo(b) && a < 2 * b && b < 2 * a
    ensures a == b
    decreases a
  {
    if a > 1 && b > 1 { PowersApart(a / 2, b / 2); }
  }

  /** The bounds on Split determine it. */
  lemma SplitUnique(n: nat, k: nat)
    requires n >= 2 && PowerOfTwo(k) && k < n <= 2 * k
    ensures Split(n) == k
  {
    hide Split;
    SplitPower(n);
    PowersApart(Split(n), k);
  }

  /** A prefix reaching past the split point has the same split point. */
  lemma SplitOfPrefix(n: nat, m: nat)
    requires n >= 2 && Split(n) < m <= n
    ensures Split(m) == Split(n)
  {
    hide Split;
    SplitPower(n);
    SplitUnique(m, Split(n));
  }

  /** A size that is no power of two stays short of twice its split point. */
  lemma SplitStrict(n: nat)
    requires n >= 2 && !PowerOfTwo(n)
    ensures n < 2 * Split(n)
  {
    hide Split;
    SplitPower(n);
  }

  /** Where one more leaf moves the split point. */
  lemma SplitOfSuccessor(n: nat)
    requires n >= 1
    ensures Split(n + 1) == if PowerOfTwo(n) then n else Split(n)
  {
    hide Split;
    if PowerOfTwo(n) {
      SplitUnique(n + 1, n);
    } else {
      SplitStrict(n);
      SplitPower(n);
      SplitUnique(n + 1, Split(n));
    }
  }

  /** `n & (n - 1)` is zero exactly on powers of two. */
  lemma {:induction false} ClearLowestBit(n: nat)
    requires n > 0
    ensures BitAnd(n, n - 1) == 0 <==> PowerOfTwo(n)
  {
    if n % 2 == 0 {
      assert (n - 1) / 2 == n / 2 - 1;
      ClearLowestBit(n / 2);
    } else if n > 1 {
      assert (n - 1) / 2 == n / 2;
      SelfAnd(n / 2);
    }
  }

  lemma {:induction false} SelfAnd(n: nat)
    ensures BitAnd(n, n) == n
  {
    if n > 0 { SelfAnd(n / 2); }
  }

  lemma PowerNext(k: nat)
    ensures Pow2(0) == 1 && Pow2(k + 1) == 2 * Pow2(k)
  {
  }

  lemma NoLength()
    ensures BitLength(0) == 0 && BitCount(0) == 0
  {
  }

  lemma {:induction false} LeadingBit(n: nat)
    requires n > 0
    ensures BitLength(n) >= 1
    ensures PowerOfTwo(Pow2(BitLength(n) - 1))
    ensures Pow2(BitLength(n) - 1) <= n < 2 * Pow2(BitLength(n) - 1)
  {
    hide PowerOfTwo, BitLength, Pow2, BitCount, TrailingZeros;
    var q, bit := n / 2, n % 2;
    FromHalf(n, q, bit);
    if n == 1 {
      OneIsPower();
      NoLength();
      PowerNext(0);
    } else {
      LeadingBit(q);
      PowerNext(BitLength(q) - 1);
      Doubled(Pow2(BitLength(q) - 1));
    }
  }

  /** The code's expression for the split point is the largest power of two below `n`. */
  lemma {:induction false} SplitFromBits(n: nat)
    requires n >= 2
    ensures Split(n) == if BitAnd(n, n - 1) != 0 then Pow2(BitLength(n) - 1) else n / 2
  {
    hide Split;
    ClearLowestBit(n);
    LeadingBit(n);
    if PowerOfTwo(n) {
      SplitUnique(n, n / 2);
    } else {
      SplitUnique(n, Pow2(BitLength(n) - 1));
    }
  }

  lemma {:induction false} PowerBelow(k: nat, j: nat)
    requires PowerOfTwo(k) && k < Pow2(j)
    ensures j >= 1 && 2 * k <= Pow2(j)
  {
    if k > 1 { PowerBelow(k / 2, j - 1); }
  }

  lemma SplitBound(n: nat, j: nat)
    requires 2 <= n <= Pow2(j)
    ensures j >= 1 && Split(n) <= Pow2(j - 1) && n - Split(n) <= Pow2(j - 1)
  {
    hide Split;
    SplitPower(n);
    PowerBelow(Split(n), j);
  }

  /** `(n & -n).bit_length() - 1` counts trailing zero bits. */
  lemma {:induction false} LowestBit(n: int)
    requires n > 0
    ensures BitLength(BitAnd(n, -n)) == TrailingZeros(n) + 1
  {
    if n % 2 == 1 {
      assert (-n) % 2 == 1 && (-n) / 2 == -(n / 2) - 1;
      DisjointComplement(n / 2);
    } else {
      assert (-n) % 2 == 0 && (-n) / 2 == -(n / 2);
      LowestBit(n / 2);
    }
  }

  lemma {:induction false} DisjointComplement(n: int)
    requires n >= 0
    ensures BitAnd(n, -n - 1) == 0
  {
    if n > 0 {
      assert (-n - 1) % 2 == 1 - n % 2 && (-n - 1) / 2 == -(n / 2) - 1;
      DisjointComplement(n / 2);
    }
  }

  lemma {:induction false} PowerOfTwoBits(n: nat)
    requires PowerOfTwo(n)
    ensures BitCount(n) == 1
  {
    if n > 1 { PowerOfTwoBits(n / 2); }
  }

  /** Bits of a sum whose parts do not overlap. */
  lemma {:induction false} BitsOfSum(k: nat, b: nat)
    requires PowerOfTwo(k) && b < k
    ensures BitCount(k + b) == 1 + BitCount(b)
    ensures b > 0 ==> TrailingZeros(k + b) == TrailingZeros(b) && !PowerOfTwo(k + b)
  {
    hide PowerOfTwo, BitCount, TrailingZeros;
    if k == 1 {
      FromHalf(1, 0, 1);
    } else {
      Halved(k);
      var k', b', bit := k / 2, b / 2, b % 2;
      FromHalf(k + b, k' + b', bit);
      if b > 0 { FromHalf(b, b', bit); }
      BitsOfSum(k', b');
    }
  }
}
