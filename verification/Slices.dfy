/** pkg/utils/slices.go: SortAndRemoveDuplicates, in place on the caller's backing array. */
module Slices {
  import opened Orders

  /** One representative of every class of equivalent neighbours, in order. */
  function Compact<T>(less: (T, T) -> bool, s: seq<T>): (r: seq<T>)
    ensures |r| <= |s| && (s != [] ==> r != [])
  {
    if |s| <= 1 then s
    else
      var r := Compact(less, s[..|s| - 1]);
      if less(r[|r| - 1], s[|s| - 1]) then r + [s[|s| - 1]] else r
  }

  /**
    Sorts `slice` and moves one copy of every element to its front.  The result n is the length that
    SetLen gives the callee's slice header; the caller's header keeps the whole array, of which the part
    from n on is left over from the sorted list.
   */
  method SortAndRemoveDuplicates<T(!new)>(slice: array<T>, less: (T, T) -> bool)
    returns (n: nat, ghost sorted: seq<T>)
    requires StrictWeakOrder(less)
    modifies slice
    ensures slice.Length <= 1 ==> sorted == old(slice[..])
    ensures Sorted(less, sorted) && multiset(sorted) == multiset(old(slice[..]))
    ensures n == |Compact(less, sorted)|
    ensures slice[..] == Compact(less, sorted) + sorted[n..]
  {
    if slice.Length <= 1 {
      return slice.Length, slice[..];
    }
    var ordered := Sort(slice[..], less);
    sorted := ordered;
    assert |sorted| == |multiset(sorted)| == |multiset(old(slice[..]))| == slice.Length;
    forall k | 0 <= k < slice.Length { slice[k] := ordered[k]; }
    assert slice[..] == sorted;
    n := CompactInPlace(slice, less);
  }

  /** The loop with two indices; `i` is the last kept element, `j` the one being looked at. */
  method CompactInPlace<T>(slice: array<T>, less: (T, T) -> bool) returns (n: nat)
    requires slice.Length > 0
    modifies slice
    ensures n == |Compact(less, old(slice[..]))|
    ensures slice[..] == Compact(less, old(slice[..])) + old(slice[..])[n..]
  {
    hide Compact;
    ghost var sorted := slice[..];
    var i := 0;
    CompactFirst(less, sorted);
    for j := 1 to slice.Length
      invariant 0 <= i < j
      invariant slice[..i + 1] == Compact(less, sorted[..j])
      invariant forall k | i < k < slice.Length :: slice[k] == sorted[k]
    {
      CompactStep(less, sorted, j);
      ghost var kept := slice[..i + 1];
      assert kept[|kept| - 1] == slice[i];
      if less(slice[i], slice[j]) {
        i := i + 1;
        slice[i] := slice[j];
        assert slice[..i + 1] == kept + [sorted[j]];
      }
    }
    n := i + 1;
    assert sorted[..slice.Length] == sorted;
  }

  lemma {:induction false} CompactFirst<T>(less: (T, T) -> bool, s: seq<T>)
    requires s != []
    ensures Compact(less, s[..1]) == s[..1]
  {}

  lemma {:induction false} CompactStep<T>(less: (T, T) -> bool, s: seq<T>, j: nat)
    requires 0 < j < |s|
    ensures var r := Compact(less, s[..j]);
            r != [] && Compact(less, s[..j + 1]) == if less(r[|r| - 1], s[j]) then r + [s[j]] else r
  {
    assert s[..j + 1][..j] == s[..j];
  }

  lemma {:induction false} CompactSubset<T(!new)>(less: (T, T) -> bool, s: seq<T>)
    ensures forall x | x in Compact(less, s) :: x in s
  {
    if |s| > 1 {
      CompactSubset(less, s[..|s| - 1]);
    }
  }

  /** The last kept element is equivalent to the last element read, so the loop's comparison decides about both. */
  lemma {:induction false} CompactLast<T(!new)>(less: (T, T) -> bool, s: seq<T>)
    requires StrictWeakOrder(less) && Sorted(less, s) && s != []
    ensures Equivalent(less, Compact(less, s)[|Compact(less, s)| - 1], s[|s| - 1])
  {
    if |s| > 1 {
      var p := Compact(less, s[..|s| - 1]);
      CompactSubset(less, s[..|s| - 1]);
      assert p[|p| - 1] in s[..|s| - 1];
    }
  }

  lemma {:induction false} CompactStrict<T(!new)>(less: (T, T) -> bool, s: seq<T>)
    requires StrictWeakOrder(less) && Sorted(less, s)
    ensures StrictlySorted(less, Compact(less, s))
  {
    if |s| > 1 {
      CompactStrict(less, s[..|s| - 1]);
    }
  }

  lemma {:induction false} CompactCovers<T(!new)>(less: (T, T) -> bool, s: seq<T>, x: T) returns (y: T)
    requires StrictWeakOrder(less) && Sorted(less, s) && x in s
    ensures y in Compact(less, s) && Equivalent(less, x, y)
  {
    if |s| == 1 {
      y := x;
    } else {
      var init, last := s[..|s| - 1], s[|s| - 1];
      assert s == init + [last];
      if x in init {
        y := CompactCovers(less, init, x);
      } else {
        CompactLast(less, s);
        y := Compact(less, s)[|Compact(less, s)| - 1];
      }
    }
  }

  /** What compaction keeps: the sorted list's elements up to equivalence, each class once, in strict order. */
  lemma {:induction false} CompactKeepsEveryClass<T(!new)>(less: (T, T) -> bool, s: seq<T>)
    requires StrictWeakOrder(less) && Sorted(less, s)
    ensures StrictlySorted(less, Compact(less, s))
    ensures forall x | x in Compact(less, s) :: x in s
    ensures forall x | x in s :: exists y :: y in Compact(less, s) && Equivalent(less, x, y)
  {
    CompactStrict(less, s);
    CompactSubset(less, s);
    forall x | x in s ensures exists y :: y in Compact(less, s) && Equivalent(less, x, y) {
      var y := CompactCovers(less, s, x);
    }
  }

  /**
    The caller's view after the call, when the order is total: a strictly sorted prefix with exactly the
    elements of the original slice, then a stale tail whose elements all occur in the prefix.
   */
  lemma {:induction false} StaleTailIsHarmless<T(!new)>(
    less: (T, T) -> bool, original: seq<T>, sorted: seq<T>, n: nat, view: seq<T>)
    requires StrictTotalOrder(less)
    requires Sorted(less, sorted) && multiset(sorted) == multiset(original)
    requires n == |Compact(less, sorted)| && view == Compact(less, sorted) + sorted[n..]
    ensures |view| == |original|
    ensures StrictlySorted(less, view[..n])
    ensures forall x :: x in view[..n] <==> x in original
    ensures forall x | x in view[n..] :: x in view[..n]
  {
    TotalIsWeak(less);
    CompactKeepsEveryClass(less, sorted);
    assert view[..n] == Compact(less, sorted) && view[n..] == sorted[n..];
    assert |sorted| == |multiset(sorted)| == |multiset(original)| == |original|;
    forall x ensures x in view[..n] <==> x in original {
      assert x in original <==> x in multiset(original);
      assert x in sorted <==> x in multiset(sorted);
      if x in sorted {
        var y :| y in Compact(less, sorted) && Equivalent(less, x, y);
        assert x == y;
      }
    }
    forall x | x in view[n..] ensures x in view[..n] {
      assert x in sorted;
      assert x in multiset(sorted);
      assert x in multiset(original);
      assert x in original;
    }
  }
}
