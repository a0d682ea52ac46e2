/**
 * Sequence combinators the application relies on from JavaScript's Array and
 * Set: `filter`, and the ordered de-duplication that `Array.from(new Set(xs))`
 * performs (a Set iterates in insertion order).
 */
module Seqs {

  /** `s.filter(p)`: the elements satisfying `p`, in their original order. */
  function Filter<T(!new)>(s: seq<T>, p: T -> bool): (r: seq<T>)
    ensures |r| <= |s|
    ensures forall x :: x in r <==> x in s && p(x)
  {
    if s == [] then []
    else if p(s[0]) then [s[0]] + Filter(s[1..], p) else Filter(s[1..], p)
  }

  /** `filter` keeps each element satisfying `p` exactly as often as it occurs, and no other. */
  lemma {:induction false} FilterCounts<T(!new)>(s: seq<T>, p: T -> bool)
    ensures forall x :: multiset(Filter(s, p))[x] == if p(x) then multiset(s)[x] else 0
  {
    if s != [] {
      assert s == [s[0]] + s[1..];
      FilterCounts(s[1..], p);
    }
  }

  /** `r` can be obtained from `s` by deleting elements, so it keeps their relative order. */
  ghost predicate IsSubsequence<T>(r: seq<T>, s: seq<T>)
    decreases |s|
  {
    r == [] || (s != [] && ((r[0] == s[0] && IsSubsequence(r[1..], s[1..])) || IsSubsequence(r, s[1..])))
  }

  lemma {:induction false} FilterIsSubsequence<T(!new)>(s: seq<T>, p: T -> bool)
    ensures IsSubsequence(Filter(s, p), s)
  {
    if s != [] {
      FilterIsSubsequence(s[1..], p);
      var rest := Filter(s[1..], p);
      if p(s[0]) {
        assert Filter(s, p) == [s[0]] + rest;
        assert ([s[0]] + rest)[1..] == rest;
      } else {
        assert Filter(s, p) == rest;
      }
    }
  }

  /** One step of `filter`: the head, if it satisfies `p`, followed by the filtered tail. */
  lemma FilterCons<T(!new)>(s: seq<T>, p: T -> bool)
    requires s != []
    ensures Filter(s, p) == (if p(s[0]) then [s[0]] else []) + Filter(s[1..], p)
  {
  }

  /** Exchanging the first two elements, when they do not both satisfy `p`, leaves `filter` unchanged. */
  lemma SwapFrontKeepsFilter<T(!new)>(s: seq<T>, p: T -> bool)
    requires |s| >= 2 && !(p(s[0]) && p(s[1]))
    ensures Filter(s[0 := s[1]][1 := s[0]], p) == Filter(s, p)
  {
    var t := s[0 := s[1]][1 := s[0]];
    assert s[1..][1..] == s[2..] && t[1..][1..] == s[2..];
    FilterCons(s, p);
    FilterCons(s[1..], p);
    FilterCons(t, p);
    FilterCons(t[1..], p);
  }

  /** Exchanging two neighbours that do not both satisfy `p` leaves `filter` unchanged. */
  lemma {:induction false} SwapKeepsFilter<T(!new)>(s: seq<T>, j: int, p: T -> bool)
    requires 0 < j < |s| && !(p(s[j - 1]) && p(s[j]))
    ensures Filter(s[j - 1 := s[j]][j := s[j - 1]], p) == Filter(s, p)
  {
    if j == 1 {
      SwapFrontKeepsFilter(s, p);
    } else {
      var t := s[j - 1 := s[j]][j := s[j - 1]];
      assert t[1..] == s[1..][j - 2 := s[j]][j - 1 := s[j - 1]];
      SwapKeepsFilter(s[1..], j - 1, p);
      FilterCons(s, p);
      FilterCons(t, p);
    }
  }

  /** Filtering with a predicate every element satisfies gives back the same sequence. */
  lemma {:induction false} FilterKeepsAll<T(!new)>(s: seq<T>, p: T -> bool)
    requires forall x :: x in s ==> p(x)
    ensures Filter(s, p) == s
  {
    if s != [] {
      FilterKeepsAll(s[1..], p);
      assert [s[0]] + s[1..] == s;
    }
  }

  /** No two positions of `s` carry the same key. */
  ghost predicate UniqueKeys<T>(s: seq<T>, key: T -> string) {
    forall i, j :: 0 <= i < j < |s| ==> key(s[i]) != key(s[j])
  }

  lemma UniqueKeysTail<T>(s: seq<T>, key: T -> string)
    requires UniqueKeys(s, key) && s != []
    ensures UniqueKeys(s[1..], key)
    ensures forall x :: x in s[1..] ==> key(x) != key(s[0])
  {
  }

  /** Prepending an element whose key no other element carries keeps the keys unique. */
  lemma PrependKeepsUniqueKeys<T>(x: T, s: seq<T>, key: T -> string)
    requires UniqueKeys(s, key)
    requires forall y :: y in s ==> key(y) != key(x)
    ensures UniqueKeys([x] + s, key)
  {
    var r := [x] + s;
    forall i, j | 0 <= i < j < |r| ensures key(r[i]) != key(r[j]) {
      assert r[j] == s[j - 1] && s[j - 1] in s;
      if 0 < i {
        assert r[i] == s[i - 1];
      }
    }
  }

  /** A filtered sequence keeps the uniqueness of its keys. */
  lemma {:induction false} FilterKeepsUniqueKeys<T(!new)>(s: seq<T>, p: T -> bool, key: T -> string)
    requires UniqueKeys(s, key)
    ensures UniqueKeys(Filter(s, p), key)
  {
    if s != [] {
      var tail := s[1..];
      UniqueKeysTail(s, key);
      FilterKeepsUniqueKeys(tail, p, key);
      if p(s[0]) {
        PrependKeepsUniqueKeys(s[0], Filter(tail, p), key);
      }
    }
  }

  ghost predicate NoDuplicates<T>(s: seq<T>) {
    forall i, j :: 0 <= i < j < |s| ==> s[i] != s[j]
  }

  /**
   * `Array.from(new Set(s))`: each value of `s` once, in the order of its
   * first occurrence. Peeling off the last element keeps the recursion on
   * the side where a Set appends.
   */
  function Dedup<T(==,!new)>(s: seq<T>): (r: seq<T>)
    ensures forall x :: x in r <==> x in s
    ensures NoDuplicates(r)
  {
    if s == [] then []
    else
      var prefix := Dedup(s[..|s| - 1]);
      var last := s[|s| - 1];
      assert s == s[..|s| - 1] + [last];
      if last in prefix then prefix else prefix + [last]
  }

  /** The position of the first occurrence of `x` in `s`. */
  function IndexOf<T(==)>(s: seq<T>, x: T): (i: nat)
    requires x in s
    ensures i < |s| && s[i] == x && x !in s[..i]
  {
    if s[0] == x then 0 else 1 + IndexOf(s[1..], x)
  }

  /** Appending to `s` does not move the first occurrence of a value already in `s`. */
  lemma {:induction false} IndexOfAppend<T>(s: seq<T>, y: T, x: T)
    requires x in s
    ensures IndexOf(s + [y], x) == IndexOf(s, x)
  {
    if s[0] != x {
      assert (s + [y])[1..] == s[1..] + [y];
      IndexOfAppend(s[1..], y, x);
    }
  }

  /** The values of `Dedup(s)` stand in the order in which they first occur in `s`. */
  lemma {:induction false} DedupFirstSeenOrder<T(!new)>(s: seq<T>)
    ensures forall i, j :: 0 <= i < j < |Dedup(s)| ==> IndexOf(s, Dedup(s)[i]) < IndexOf(s, Dedup(s)[j])
  {
    if s != [] {
      var init := s[..|s| - 1];
      var last := s[|s| - 1];
      assert s == init + [last];
      DedupFirstSeenOrder(init);
      var prefix := Dedup(init);
      forall x | x in prefix ensures IndexOf(s, x) == IndexOf(init, x) {
        IndexOfAppend(init, last, x);
      }
      if last !in prefix {
        assert last !in init;
        assert IndexOf(s, last) == |init| by {
          assert s[..|init|] == init;
        }
        var r := prefix + [last];
        forall i, j | 0 <= i < j < |r| ensures IndexOf(s, r[i]) < IndexOf(s, r[j]) {
          assert r[i] == prefix[i];
          if j < |prefix| {
            assert r[j] == prefix[j];
          }
        }
      }
    }
  }
}
