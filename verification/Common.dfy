/** What several components share: identifiers, results, canonical lists. */
module Common {

  /** Identifiers and digests where only their identity and order matter. */
  type Id = nat

  type Bytes = seq<bv8>

  /** Hash values: any type, compared only for equality. */
  type Digest(==, !new)

  datatype Option<T> = None | Some(value: T)

  datatype Result<T, E> = Ok(value: T) | Err(error: E)

  const MAX_EPOCH_SECOND: int := 0x7fff_ffff_ffff_ffff

  /** Sorted without repetition, which is how the sources test for canonical order. */
  predicate Increasing(s: seq<Id>) {
    forall i, j | 0 <= i < j < |s| :: s[i] < s[j]
  }

  predicate Distinct(s: seq<Id>) {
    forall i, j | 0 <= i < j < |s| :: s[i] != s[j]
  }

  // ----- canonical lists -----

  function Elements(s: seq<Id>): set<Id> {
    set x | x in s
  }

  lemma NoElements(a: seq<Id>)
    ensures Elements(a) == {} <==> a == []
  {
    if a != [] { assert a[0] in Elements(a); }
  }

  /** A set has one increasing list. */
  lemma {:induction false} CanonicalList(a: seq<Id>, b: seq<Id>)
    requires Increasing(a) && Increasing(b) && Elements(a) == Elements(b)
    ensures a == b
  {
    NoElements(a);
    NoElements(b);
    if a != [] && b != [] {
      var m, n := |a| - 1, |b| - 1;
      LastIsLargest(a, b);
      LastIsLargest(b, a);
      WithoutLast(a);
      WithoutLast(b);
      CanonicalList(a[..m], b[..n]);
      assert a == a[..m] + [a[m]] && b == b[..n] + [b[n]];
    }
  }

  lemma LastIsLargest(a: seq<Id>, b: seq<Id>)
    requires a != [] && b != [] && Increasing(a) && Elements(a) == Elements(b)
    ensures b[|b| - 1] <= a[|a| - 1]
  {
    assert b[|b| - 1] in Elements(a);
    var i :| 0 <= i < |a| && a[i] == b[|b| - 1];
  }

  lemma WithoutLast(a: seq<Id>)
    requires a != [] && Increasing(a)
    ensures Elements(a[..|a| - 1]) == Elements(a) - {a[|a| - 1]} && Increasing(a[..|a| - 1])
  {
    var init, last := a[..|a| - 1], a[|a| - 1];
    assert a == init + [last];
  }
}
