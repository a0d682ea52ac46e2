/**
 * `Array.prototype.sort(compare)` on a fresh array: reorders the array in
 * place so that `compare(a[i], a[j]) <= 0` for every earlier `i` and later
 * `j`. A comparator is a function returning a negative number, zero or a
 * positive number, as in JavaScript.
 */
module Sorting {
  import opened Seqs

  /** `compare` never reports both `x > y` and `y > x`, and "not after" is transitive. */
  ghost predicate TotalPreorder<T(!new)>(compare: (T, T) -> int) {
    && (forall x, y :: compare(x, y) <= 0 || compare(y, x) <= 0)
    && (forall x, y, z :: compare(x, y) <= 0 && compare(y, z) <= 0 ==> compare(x, z) <= 0)
  }

  /** No element is placed before one that `compare` puts strictly earlier. */
  ghost predicate SortedBy<T>(s: seq<T>, compare: (T, T) -> int) {
    forall i, j :: 0 <= i < j < |s| ==> compare(s[i], s[j]) <= 0
  }

  /**
   * The state of one insertion pass: `s[..i+1]` is sorted except for the
   * element at `j`, which is not after anything to its right.
   */
  ghost predicate Inserting<T>(s: seq<T>, compare: (T, T) -> int, i: nat, j: nat) {
    && j <= i < |s|
    && (forall k, l :: 0 <= k < l <= i && k != j && l != j ==> compare(s[k], s[l]) <= 0)
    && (forall l :: j < l <= i ==> compare(s[j], s[l]) <= 0)
  }

  /** Swapping the element at `j` with a predecessor that comes strictly after it moves the pass one step left. */
  lemma InsertingStep<T(!new)>(s: seq<T>, compare: (T, T) -> int, i: nat, j: nat)
    requires TotalPreorder(compare)
    requires Inserting(s, compare, i, j) && 0 < j && compare(s[j - 1], s[j]) > 0
    ensures Inserting(s[j - 1 := s[j]][j := s[j - 1]], compare, i, j - 1)
  {
  }

  /** A pass that stops at the front, or behind an element not after it, leaves `s[..i+1]` sorted. */
  lemma InsertingDone<T(!new)>(s: seq<T>, compare: (T, T) -> int, i: nat, j: nat)
    requires TotalPreorder(compare)
    requires Inserting(s, compare, i, j) && (j == 0 || compare(s[j - 1], s[j]) <= 0)
    ensures SortedPrefix(s, compare, i + 1)
  {
  }

  /** The first `n` elements of `s` are in order. */
  ghost predicate SortedPrefix<T>(s: seq<T>, compare: (T, T) -> int, n: nat) {
    forall k, l :: 0 <= k < l < n <= |s| ==> compare(s[k], s[l]) <= 0
  }

  /** The elements `compare` ties with `k`: neither comes strictly before the other. */
  function TiedWith<T>(compare: (T, T) -> int, k: T): T -> bool {
    x => compare(x, k) <= 0 && compare(k, x) <= 0
  }

  /**
   * `s` keeps every group of tied elements in the relative order it had in
   * `s0`: the sort is stable.
   */
  ghost predicate StableFrom<T(!new)>(s: seq<T>, s0: seq<T>, compare: (T, T) -> int) {
    forall k :: Filter(s, TiedWith(compare, k)) == Filter(s0, TiedWith(compare, k))
  }

  /** Swapping two neighbours in strictly wrong order never reorders a group of tied elements. */
  lemma SwapKeepsStable<T(!new)>(s: seq<T>, s0: seq<T>, compare: (T, T) -> int, j: int)
    requires TotalPreorder(compare)
    requires StableFrom(s, s0, compare) && 0 < j < |s| && compare(s[j - 1], s[j]) > 0
    ensures StableFrom(s[j - 1 := s[j]][j := s[j - 1]], s0, compare)
  {
    forall k ensures Filter(s[j - 1 := s[j]][j := s[j - 1]], TiedWith(compare, k)) == Filter(s0, TiedWith(compare, k)) {
      SwapKeepsFilter(s, j, TiedWith(compare, k));
    }
  }

  /** The tail of a sorted sequence is sorted. */
  lemma SortedTail<T>(s: seq<T>, compare: (T, T) -> int)
    requires SortedBy(s, compare) && s != []
    ensures SortedBy(s[1..], compare)
  {
  }

  /** Sequences whose tied groups agree hold the same elements. */
  lemma StableSameElements<T(!new)>(r1: seq<T>, r2: seq<T>, compare: (T, T) -> int)
    requires TotalPreorder(compare) && StableFrom(r1, r2, compare)
    ensures forall x :: x in r1 <==> x in r2
  {
    forall x | x in r1 || x in r2 ensures x in r1 && x in r2 {
      assert TiedWith(compare, x)(x);
      assert Filter(r1, TiedWith(compare, x)) == Filter(r2, TiedWith(compare, x));
    }
  }

  /** Equal heads leave the tails' tied groups in agreement. */
  lemma StableTails<T(!new)>(r1: seq<T>, r2: seq<T>, compare: (T, T) -> int)
    requires StableFrom(r1, r2, compare)
    requires r1 != [] && r2 != [] && r1[0] == r2[0]
    ensures StableFrom(r1[1..], r2[1..], compare)
  {
    forall k ensures Filter(r1[1..], TiedWith(compare, k)) == Filter(r2[1..], TiedWith(compare, k)) {
      var p := TiedWith(compare, k);
      var head := if p(r1[0]) then [r1[0]] else [];
      var tail1, tail2 := Filter(r1[1..], p), Filter(r2[1..], p);
      assert Filter(r1, p) == head + tail1;
      assert Filter(r2, p) == head + tail2;
      assert (head + tail1)[|head|..] == tail1;
      assert (head + tail2)[|head|..] == tail2;
    }
  }

  /** The first elements of two sorted sequences holding each other's heads are tied. */
  lemma SortedHeadsTied<T(!new)>(r1: seq<T>, r2: seq<T>, compare: (T, T) -> int)
    requires TotalPreorder(compare)
    requires SortedBy(r1, compare) && SortedBy(r2, compare)
    requires r1 != [] && r2 != [] && r1[0] in r2 && r2[0] in r1
    ensures TiedWith(compare, r1[0])(r2[0])
  {
    var i :| 0 <= i < |r2| && r2[i] == r1[0];
    var l :| 0 <= l < |r1| && r1[l] == r2[0];
    assert compare(r2[0], r1[0]) <= 0 by {
      if i > 0 { assert compare(r2[0], r2[i]) <= 0; }
    }
    assert compare(r1[0], r2[0]) <= 0 by {
      if l > 0 { assert compare(r1[0], r1[l]) <= 0; }
    }
  }

  /** When the heads are tied and the tied groups agree, the heads are the same element. */
  lemma StableTiedHeads<T(!new)>(r1: seq<T>, r2: seq<T>, compare: (T, T) -> int)
    requires StableFrom(r1, r2, compare)
    requires r1 != [] && r2 != []
    requires TiedWith(compare, r1[0])(r1[0]) && TiedWith(compare, r1[0])(r2[0])
    ensures r1[0] == r2[0]
  {
    var p := TiedWith(compare, r1[0]);
    assert Filter(r1, p) == Filter(r2, p);
    assert Filter(r1, p)[0] == r1[0];
    assert Filter(r2, p)[0] == r2[0];
  }

  /** Two sorted sequences whose tied groups agree are equal. */
  lemma {:induction false} SortedAgreeingEqual<T(!new)>(r1: seq<T>, r2: seq<T>, compare: (T, T) -> int)
    requires TotalPreorder(compare)
    requires SortedBy(r1, compare) && SortedBy(r2, compare)
    requires StableFrom(r1, r2, compare)
    ensures r1 == r2
    decreases |r1|
  {
    if r1 != [] { assert r1[0] in r1; }
    if r2 != [] { assert r2[0] in r2; }
    StableSameElements(r1, r2, compare);
    if r1 != [] {
      SortedHeadsTied(r1, r2, compare);
      assert TiedWith(compare, r1[0])(r1[0]);
      StableTiedHeads(r1, r2, compare);
      StableTails(r1, r2, compare);
      SortedTail(r1, compare);
      SortedTail(r2, compare);
      SortedAgreeingEqual(r1[1..], r2[1..], compare);
    }
  }

  /**
   * Two sorted sequences that are both stable rearrangements of the same
   * `s0` are equal: "sorted by `compare` and stable" leaves a stable sort
   * exactly one answer.
   */
  lemma SortedStableUnique<T(!new)>(r1: seq<T>, r2: seq<T>, s0: seq<T>, compare: (T, T) -> int)
    requires TotalPreorder(compare)
    requires SortedBy(r1, compare) && SortedBy(r2, compare)
    requires StableFrom(r1, s0, compare) && StableFrom(r2, s0, compare)
    ensures r1 == r2
  {
    assert StableFrom(r1, r2, compare);
    SortedAgreeingEqual(r1, r2, compare);
  }

  /** Exchanges `a[j - 1]` and `a[j]`. */
  method SwapWithPrevious<T>(a: array<T>, j: int)
    requires 0 < j < a.Length
    modifies a
    ensures a[..] == old(a[..])[j - 1 := old(a[j])][j := old(a[j - 1])]
    ensures multiset(a[..]) == old(multiset(a[..]))
  {
    a[j - 1], a[j] := a[j], a[j - 1];
  }

  /** Insertion sort by adjacent swaps; only a strictly misordered pair is swapped, so the sort is stable. */
  method SortInPlace<T(!new)>(a: array<T>, compare: (T, T) -> int)
    requires TotalPreorder(compare)
    modifies a
    ensures SortedBy(a[..], compare)
    ensures multiset(a[..]) == old(multiset(a[..]))
    ensures StableFrom(a[..], old(a[..]), compare)
  {
    var i := 0;
    while i < a.Length
      invariant 0 <= i <= a.Length
      invariant SortedPrefix(a[..], compare, i)
      invariant multiset(a[..]) == old(multiset(a[..]))
      invariant StableFrom(a[..], old(a[..]), compare)
    {
      var j := i;
      while 0 < j && compare(a[j - 1], a[j]) > 0
        invariant Inserting(a[..], compare, i, j)
        invariant multiset(a[..]) == old(multiset(a[..]))
        invariant StableFrom(a[..], old(a[..]), compare)
      {
        InsertingStep(a[..], compare, i, j);
        SwapKeepsStable(a[..], old(a[..]), compare, j);
        SwapWithPrevious(a, j);
        j := j - 1;
      }
      InsertingDone(a[..], compare, i, j);
      i := i + 1;
    }
  }
}
