/** Order-preserving interleavings of two chains, as `schedules` enumerates them. */
module Interleavings {

  function Prefixed<T>(x: T, ss: seq<seq<T>>): (r: seq<seq<T>>)
    ensures |r| == |ss| && forall i | 0 <= i < |ss| :: r[i] == [x] + ss[i]
  {
    if ss == [] then [] else [[x] + ss[0]] + Prefixed(x, ss[1..])
  }

  function Schedules<T>(left: seq<T>, right: seq<T>): seq<seq<T>>
    decreases |left| + |right|
  {
    if left == [] || right == [] then [left + right]
    else Prefixed(left[0], Schedules(left[1..], right)) + Prefixed(right[0], Schedules(left, right[1..]))
  }

  /** The events of `s` that the mask assigns to one side, in order. */
  function Pick<T>(s: seq<T>, mask: seq<bool>, side: bool): seq<T>
    requires |mask| == |s|
  {
    if s == [] then [] else (if mask[0] == side then [s[0]] else []) + Pick(s[1..], mask[1..], side)
  }

  ghost predicate Splits<T>(s: seq<T>, mask: seq<bool>, left: seq<T>, right: seq<T>) {
    |mask| == |s| && Pick(s, mask, true) == left && Pick(s, mask, false) == right
  }

  /** `s` can be divided into exactly the two chains, each in its own order. */
  ghost predicate Interleaving<T>(s: seq<T>, left: seq<T>, right: seq<T>) {
    exists mask: seq<bool> :: Splits(s, mask, left, right)
  }

  // ----- Schedules yields the interleavings and nothing else -----

  lemma SplitsCons<T>(x: T, s: seq<T>, b: bool, mask: seq<bool>, left: seq<T>, right: seq<T>)
    requires Splits(s, mask, left, right)
    ensures Splits([x] + s, [b] + mask, if b then [x] + left else left, if b then right else [x] + right)
  {
    assert ([x] + s)[1..] == s && ([b] + mask)[1..] == mask;
  }

  lemma Cons<T>(x: T, s: seq<T>, left: seq<T>, right: seq<T>)
    requires Interleaving(s, left, right)
    ensures Interleaving([x] + s, [x] + left, right) && Interleaving([x] + s, left, [x] + right)
  {
    var mask :| Splits(s, mask, left, right);
    SplitsCons(x, s, true, mask, left, right);
    SplitsCons(x, s, false, mask, left, right);
  }

  lemma Uncons<T>(s: seq<T>, left: seq<T>, right: seq<T>)
    requires Interleaving(s, left, right) && s != []
    ensures || (left != [] && s[0] == left[0] && Interleaving(s[1..], left[1..], right))
            || (right != [] && s[0] == right[0] && Interleaving(s[1..], left, right[1..]))
  {
    var mask :| Splits(s, mask, left, right);
    if mask[0] {
      assert left == [s[0]] + Pick(s[1..], mask[1..], true);
      assert Splits(s[1..], mask[1..], left[1..], right);
    } else {
      assert right == [s[0]] + Pick(s[1..], mask[1..], false);
      assert Splits(s[1..], mask[1..], left, right[1..]);
    }
  }

  lemma NothingLeft<T>(left: seq<T>, right: seq<T>)
    requires Interleaving([], left, right)
    ensures left == [] && right == []
  {
    var mask :| Splits([], mask, left, right);
  }

  lemma {:induction false} Alone<T>(left: seq<T>, right: seq<T>)
    requires left == [] || right == []
    ensures Interleaving(left + right, left, right)
    decreases |left| + |right|
  {
    if left != [] {
      Alone(left[1..], right);
      Cons(left[0], left[1..] + right, left[1..], right);
      assert left + right == [left[0]] + (left[1..] + right) && left == [left[0]] + left[1..];
    } else if right != [] {
      Alone(left, right[1..]);
      Cons(right[0], left + right[1..], left, right[1..]);
      assert left + right == [right[0]] + (left + right[1..]) && right == [right[0]] + right[1..];
    } else {
      assert left + right == [];
      assert Splits(left + right, [], left, right);
    }
  }

  lemma {:induction false} AloneOnly<T>(s: seq<T>, left: seq<T>, right: seq<T>)
    requires Interleaving(s, left, right) && (left == [] || right == [])
    ensures s == left + right
  {
    if s == [] {
      NothingLeft(left, right);
    } else {
      Uncons(s, left, right);
      assert s == [s[0]] + s[1..];
      if left != [] { AloneOnly(s[1..], left[1..], right); } else { AloneOnly(s[1..], left, right[1..]); }
    }
  }

  lemma {:induction false} InPrefixed<T>(x: T, ss: seq<seq<T>>, s: seq<T>)
    ensures s in Prefixed(x, ss) <==> s != [] && s[0] == x && s[1..] in ss
  {
    var r := Prefixed(x, ss);
    if s in r {
      var i :| 0 <= i < |r| && r[i] == s;
      assert s[1..] == ss[i];
    }
    if s != [] && s[0] == x && s[1..] in ss {
      var i :| 0 <= i < |ss| && ss[i] == s[1..];
      assert r[i] == [x] + s[1..] == s;
    }
  }

  lemma ScheduledFirst<T>(left: seq<T>, right: seq<T>, s: seq<T>)
    requires left != [] && right != []
    ensures s in Schedules(left, right) <==>
            s != [] && (|| (s[0] == left[0] && s[1..] in Schedules(left[1..], right))
                        || (s[0] == right[0] && s[1..] in Schedules(left, right[1..])))
  {
    InPrefixed(left[0], Schedules(left[1..], right), s);
    InPrefixed(right[0], Schedules(left, right[1..]), s);
  }

  lemma {:induction false} ScheduleInterleaves<T>(left: seq<T>, right: seq<T>, s: seq<T>)
    requires s in Schedules(left, right)
    ensures Interleaving(s, left, right)
    decreases |left| + |right|
  {
    if left == [] || right == [] {
      Alone(left, right);
    } else {
      ScheduledFirst(left, right, s);
      ScheduledStep(left, right, s);
    }
  }

  lemma {:induction false} ScheduledStep<T>(left: seq<T>, right: seq<T>, s: seq<T>)
    requires left != [] && right != [] && s != []
    requires || (s[0] == left[0] && s[1..] in Schedules(left[1..], right))
             || (s[0] == right[0] && s[1..] in Schedules(left, right[1..]))
    ensures Interleaving(s, left, right)
    decreases |left| + |right|, 0
  {
    hide Schedules, Interleaving;
    assert s == [s[0]] + s[1..];
    if s[0] == left[0] && s[1..] in Schedules(left[1..], right) {
      ScheduleInterleaves(left[1..], right, s[1..]);
      Cons(left[0], s[1..], left[1..], right);
      assert left == [left[0]] + left[1..];
    } else {
      ScheduleInterleaves(left, right[1..], s[1..]);
      Cons(right[0], s[1..], left, right[1..]);
      assert right == [right[0]] + right[1..];
    }
  }

  lemma {:induction false} InterleavingScheduled<T>(left: seq<T>, right: seq<T>, s: seq<T>)
    requires Interleaving(s, left, right)
    ensures s in Schedules(left, right)
    decreases |left| + |right|
  {
    if left == [] || right == [] {
      AloneOnly(s, left, right);
    } else if s == [] {
      NothingLeft(left, right);
    } else {
      Uncons(s, left, right);
      ScheduledFirst(left, right, s);
      if s[0] == left[0] && Interleaving(s[1..], left[1..], right) {
        InterleavingScheduled(left[1..], right, s[1..]);
      } else {
        InterleavingScheduled(left, right[1..], s[1..]);
      }
    }
  }

  // ----- how many, and when there are repeats -----

  function Binomial(n: nat, k: nat): nat {
    if k == 0 then 1 else if n == 0 then 0 else Binomial(n - 1, k - 1) + Binomial(n - 1, k)
  }

  lemma {:induction false} BinomialFull(n: nat, k: nat)
    requires n <= k
    ensures Binomial(n, k) == if n == k then 1 else 0
  {
    if n > 0 {
      BinomialFull(n - 1, k - 1);
      BinomialFull(n - 1, k);
    }
  }

  lemma {:induction false} BinomialSymmetric(n: nat, k: nat)
    requires k <= n
    ensures Binomial(n, k) == Binomial(n, n - k)
  {
    if k == 0 || k == n {
      BinomialFull(n, n);
    } else {
      BinomialSymmetric(n - 1, k - 1);
      BinomialSymmetric(n - 1, k);
    }
  }

  lemma {:induction false} ScheduleCount<T>(left: seq<T>, right: seq<T>)
    ensures |Schedules(left, right)| == Binomial(|left| + |right|, |left|)
    decreases |left| + |right|
  {
    if left == [] || right == [] {
      BinomialFull(|left|, |left|);
    } else {
      ScheduleCount(left[1..], right);
      ScheduleCount(left, right[1..]);
    }
  }

  ghost predicate NoRepeats<T>(ss: seq<T>) {
    forall i, j | 0 <= i < j < |ss| :: ss[i] != ss[j]
  }

  ghost predicate Disjoint<T(!new)>(left: seq<T>, right: seq<T>) {
    forall x | x in left :: x !in right
  }

  lemma DistinctPrefixed<T(!new)>(x: T, a: seq<seq<T>>, y: T, b: seq<seq<T>>)
    requires x != y && NoRepeats(a) && NoRepeats(b)
    ensures NoRepeats(Prefixed(x, a) + Prefixed(y, b))
  {
    var p, q := Prefixed(x, a), Prefixed(y, b);
    var all := p + q;
    forall i | 0 <= i < |p| ensures p[i][0] == x && p[i][1..] == a[i] { }
    forall i | 0 <= i < |q| ensures q[i][0] == y && q[i][1..] == b[i] { }
    forall i, j | 0 <= i < j < |all| ensures all[i] != all[j] {
      if j < |p| {
        assert a[i] != a[j];
      } else if i >= |p| {
        assert b[i - |p|] != b[j - |p|];
      } else {
        assert all[i][0] != all[j][0];
      }
    }
  }

  lemma {:induction false} DisjointNoRepeats<T(!new)>(left: seq<T>, right: seq<T>)
    requires Disjoint(left, right)
    ensures NoRepeats(Schedules(left, right))
    decreases |left| + |right|
  {
    if left != [] && right != [] {
      hide NoRepeats, Disjoint;
      DisjointTails(left, right);
      DisjointNoRepeats(left[1..], right);
      DisjointNoRepeats(left, right[1..]);
      DistinctPrefixed(left[0], Schedules(left[1..], right), right[0], Schedules(left, right[1..]));
    }
  }

  lemma RepeatedPrefixed<T(!new)>(x: T, a: seq<seq<T>>, y: T, b: seq<seq<T>>)
    requires !NoRepeats(a) || !NoRepeats(b)
    ensures !NoRepeats(Prefixed(x, a) + Prefixed(y, b))
  {
    var all := Prefixed(x, a) + Prefixed(y, b);
    if !NoRepeats(a) {
      var i, j :| 0 <= i < j < |a| && a[i] == a[j];
      assert all[i] == all[j];
    } else {
      var i, j :| 0 <= i < j < |b| && b[i] == b[j];
      assert all[|a| + i] == all[|a| + j];
    }
  }

  lemma RepeatedInPart<T(!new)>(left: seq<T>, right: seq<T>)
    requires left != [] && right != []
    requires !NoRepeats(Schedules(left[1..], right)) || !NoRepeats(Schedules(left, right[1..]))
    ensures !NoRepeats(Schedules(left, right))
  {
    hide NoRepeats;
    RepeatedPrefixed(left[0], Schedules(left[1..], right), right[0], Schedules(left, right[1..]));
  }

  lemma SchedulesStep<T>(left: seq<T>, right: seq<T>)
    requires left != [] && right != []
    ensures Schedules(left, right)
            == Prefixed(left[0], Schedules(left[1..], right)) + Prefixed(right[0], Schedules(left, right[1..]))
  {
  }

  lemma RepeatedAcross<T(!new)>(left: seq<T>, right: seq<T>, s: seq<T>)
    requires left != [] && right != [] && left[0] == right[0]
    requires s in Schedules(left[1..], right) && s in Schedules(left, right[1..])
    ensures !NoRepeats(Schedules(left, right))
  {
    hide Schedules;
    SchedulesStep(left, right);
    var a, b, all := Schedules(left[1..], right), Schedules(left, right[1..]), Schedules(left, right);
    var i :| 0 <= i < |a| && a[i] == s;
    var j :| 0 <= j < |b| && b[j] == s;
    assert all[i] == Prefixed(left[0], a)[i] && all[|a| + j] == Prefixed(right[0], b)[j];
  }

  /** A shared event is scheduled in both orders, with the same result. */
  lemma {:induction false} SharedRepeats<T(!new)>(left: seq<T>, right: seq<T>, m: nat, n: nat)
    requires m < |left| && n < |right| && left[m] == right[n]
    ensures !NoRepeats(Schedules(left, right))
    decreases |left| + |right|
  {
    hide Schedules, NoRepeats;
    if m > 0 {
      SharedRepeats(left[1..], right, m - 1, n);
      RepeatedInPart(left, right);
    } else if n > 0 {
      SharedRepeats(left, right[1..], m, n - 1);
      RepeatedInPart(left, right);
    } else {
      var x, l, r := left[0], left[1..], right[1..];
      Concatenated(l, r);
      Cons(x, l + r, l, r);
      assert left == [x] + l && right == [x] + r;
      InterleavingScheduled(l, right, [x] + (l + r));
      InterleavingScheduled(left, r, [x] + (l + r));
      RepeatedAcross(left, right, [x] + (l + r));
    }
  }

  /** The enumeration is free of repeats exactly when the chains share no event. */
  lemma RepeatsExactly<T(!new)>(left: seq<T>, right: seq<T>)
    ensures NoRepeats(Schedules(left, right)) <==> Disjoint(left, right)
  {
    if Disjoint(left, right) {
      DisjointNoRepeats(left, right);
    } else {
      var x :| x in left && x in right;
      var m :| 0 <= m < |left| && left[m] == x;
      var n :| 0 <= n < |right| && right[n] == x;
      SharedRepeats(left, right, m, n);
    }
  }

  // ----- order -----

  /** The position of the first occurrence, as in `{event: i for i, event in ...}` without repeats. */
  function Index<T(==)>(s: seq<T>, x: T): (i: nat)
    requires x in s
    ensures i < |s| && s[i] == x && x !in s[..i]
  {
    if s[0] == x then 0 else
    assert s == [s[0]] + s[1..];
    var i := 1 + Index(s[1..], x);
    assert s[..i] == [s[0]] + s[1..][..i - 1];
    i
  }

  lemma {:induction false} Members<T(!new)>(s: seq<T>, left: seq<T>, right: seq<T>, x: T)
    requires Interleaving(s, left, right)
    ensures |s| == |left| + |right|
    ensures x in s <==> x in left || x in right
  {
    if s == [] {
      NothingLeft(left, right);
    } else {
      Uncons(s, left, right);
      assert s == [s[0]] + s[1..];
      if left != [] && s[0] == left[0] && Interleaving(s[1..], left[1..], right) {
        Members(s[1..], left[1..], right, x);
        assert left == [left[0]] + left[1..];
      } else {
        Members(s[1..], left, right[1..], x);
        assert right == [right[0]] + right[1..];
      }
    }
  }

  lemma {:induction false} Negated<T>(s: seq<T>, mask: seq<bool>, left: seq<T>, right: seq<T>)
    returns (mask': seq<bool>)
    requires Splits(s, mask, left, right)
    ensures Splits(s, mask', right, left)
  {
    if s == [] {
      mask' := [];
    } else {
      var rest := Negated(s[1..], mask[1..], Pick(s[1..], mask[1..], true), Pick(s[1..], mask[1..], false));
      mask' := [!mask[0]] + rest;
      assert mask'[1..] == rest;
    }
  }

  lemma Swap<T(!new)>(s: seq<T>, left: seq<T>, right: seq<T>)
    requires Interleaving(s, left, right)
    ensures Interleaving(s, right, left)
  {
    var mask :| Splits(s, mask, left, right);
    var mask' := Negated(s, mask, left, right);
  }

  lemma DisjointTails<T(!new)>(left: seq<T>, right: seq<T>)
    requires Disjoint(left, right)
    ensures left != [] ==> Disjoint(left[1..], right) && left[0] !in right
    ensures right != [] ==> Disjoint(left, right[1..]) && right[0] !in left
  {
    if left != [] { assert forall x | x in left[1..] :: x in left; }
    if right != [] { assert forall x | x in right[1..] :: x in right; }
  }

  lemma {:induction false} Located<T(!new)>(s: seq<T>, left: seq<T>, right: seq<T>, a: nat) returns (i: nat)
    requires Interleaving(s, left, right) && a < |left|
    ensures i < |s| && s[i] == left[a]
  {
    if s == [] { NothingLeft(left, right); }
    Uncons(s, left, right);
    if left != [] && s[0] == left[0] && Interleaving(s[1..], left[1..], right) {
      if a == 0 { return 0; }
      var k := Located(s[1..], left[1..], right, a - 1);
      i := k + 1;
    } else {
      var k := Located(s[1..], left, right[1..], a);
      i := k + 1;
    }
  }

  /** The left chain's events keep their order. */
  lemma {:induction false} OrderKept<T(!new)>(s: seq<T>, left: seq<T>, right: seq<T>, a: nat, b: nat)
    returns (i: nat, j: nat)
    requires Interleaving(s, left, right) && a < b < |left|
    ensures i < j < |s| && s[i] == left[a] && s[j] == left[b]
  {
    if s == [] { NothingLeft(left, right); }
    Uncons(s, left, right);
    if left != [] && s[0] == left[0] && Interleaving(s[1..], left[1..], right) {
      if a == 0 {
        var k := Located(s[1..], left[1..], right, b - 1);
        return 0, k + 1;
      }
      var k, l := OrderKept(s[1..], left[1..], right, a - 1, b - 1);
      i, j := k + 1, l + 1;
    } else {
      var k, l := OrderKept(s[1..], left, right[1..], a, b);
      i, j := k + 1, l + 1;
    }
  }

  lemma IndexIs<T(!new)>(s: seq<T>, i: nat)
    requires NoRepeats(s) && i < |s|
    ensures Index(s, s[i]) == i
  {
    var k := Index(s, s[i]);
    assert s[k] == s[i];
  }

  /** So, with distinct events, an earlier event of a chain has the smaller position. */
  lemma PositionsOrdered<T(!new)>(s: seq<T>, left: seq<T>, right: seq<T>, a: nat, b: nat)
    requires Interleaving(s, left, right) && NoRepeats(s) && a < b < |left|
    ensures left[a] in s && left[b] in s && Index(s, left[a]) < Index(s, left[b])
  {
    var i, j := OrderKept(s, left, right, a, b);
    IndexIs(s, i);
    IndexIs(s, j);
  }

  /** And no event occurs twice. */
  lemma {:induction false} DistinctEvents<T(!new)>(s: seq<T>, left: seq<T>, right: seq<T>)
    requires Interleaving(s, left, right) && NoRepeats(left) && NoRepeats(right) && Disjoint(left, right)
    ensures NoRepeats(s)
  {
    hide Interleaving, Disjoint;
    if s != [] {
      Uncons(s, left, right);
      DisjointTails(left, right);
      TailDistinct(left);
      TailDistinct(right);
      if left != [] && s[0] == left[0] && Interleaving(s[1..], left[1..], right) {
        DistinctEvents(s[1..], left[1..], right);
        Members(s[1..], left[1..], right, s[0]);
      } else {
        DistinctEvents(s[1..], left, right[1..]);
        Members(s[1..], left, right[1..], s[0]);
      }
      HeadAbsent(s);
    }
  }

  lemma TailDistinct<T(!new)>(s: seq<T>)
    requires NoRepeats(s)
    ensures s != [] ==> NoRepeats(s[1..]) && s[0] !in s[1..]
  {
    if s != [] { assert forall i | 0 <= i < |s| - 1 :: s[1..][i] == s[i + 1]; }
  }

  lemma HeadAbsent<T(!new)>(s: seq<T>)
    requires s != [] && NoRepeats(s[1..]) && s[0] !in s[1..]
    ensures NoRepeats(s)
  {
    forall i, j | 0 <= i < j < |s| ensures s[i] != s[j] {
      assert s[j] == s[1..][j - 1];
      if i > 0 { assert s[i] == s[1..][i - 1]; }
    }
  }

  /** Running each chain up to a point, then each to its end, is an interleaving. */
  lemma Spliced<T(!new)>(left: seq<T>, right: seq<T>, a: nat, b: nat)
    requires a <= |left| && b <= |right|
    ensures Interleaving(left[..a] + right[..b] + left[a..] + right[b..], left, right)
  {
    hide Interleaving;
    var tail := left[a..] + right[b..];
    Concatenated(left[a..], right[b..]);
    PrependRight(right[..b], tail, left[a..], right[b..]);
    PrependLeft(left[..a], right[..b] + tail, left[a..], right[..b] + right[b..]);
    assert left[..a] + left[a..] == left && right[..b] + right[b..] == right;
    assert left[..a] + right[..b] + left[a..] + right[b..] == left[..a] + (right[..b] + tail);
  }

  lemma {:induction false} PrependLeft<T>(p: seq<T>, s: seq<T>, left: seq<T>, right: seq<T>)
    requires Interleaving(s, left, right)
    ensures Interleaving(p + s, p + left, right)
  {
    if p == [] {
      assert p + s == s && p + left == left;
    } else {
      PrependLeft(p[1..], s, left, right);
      Cons(p[0], p[1..] + s, p[1..] + left, right);
      assert p + s == [p[0]] + (p[1..] + s) && p + left == [p[0]] + (p[1..] + left);
    }
  }

  lemma {:induction false} PrependRight<T>(p: seq<T>, s: seq<T>, left: seq<T>, right: seq<T>)
    requires Interleaving(s, left, right)
    ensures Interleaving(p + s, left, p + right)
  {
    if p == [] {
      assert p + s == s && p + right == right;
    } else {
      PrependRight(p[1..], s, left, right);
      Cons(p[0], p[1..] + s, left, p[1..] + right);
      assert p + s == [p[0]] + (p[1..] + s) && p + right == [p[0]] + (p[1..] + right);
    }
  }

  lemma Concatenated<T>(left: seq<T>, right: seq<T>)
    ensures Interleaving(left + right, left, right)
  {
    Alone([], right);
    assert [] + right == right;
    PrependLeft(left, right, [], right);
    assert left + [] == left;
  }
}
