/** Orders, sorted sequences and the sort package. */
module Orders {

  // ---------- strict orders ----------

  ghost predicate StrictWeakOrder<T(!new)>(less: (T, T) -> bool)
  {
    && (forall x :: !less(x, x))
    && (forall x, y, z :: less(x, y) && less(y, z) ==> less(x, z))
    && (forall x, y, z :: !less(x, y) && !less(y, z) ==> !less(x, z))
  }

  ghost predicate StrictTotalOrder<T(!new)>(less: (T, T) -> bool)
  {
    && (forall x :: !less(x, x))
    && (forall x, y, z :: less(x, y) && less(y, z) ==> less(x, z))
    && (forall x, y :: less(x, y) || less(y, x) || x == y)
  }

  predicate Equivalent<T>(less: (T, T) -> bool, x: T, y: T) { !less(x, y) && !less(y, x) }

  lemma {:induction false} TotalIsWeak<T(!new)>(less: (T, T) -> bool)
    requires StrictTotalOrder(less)
    ensures StrictWeakOrder(less)
  {
    forall x, y, z | !less(x, y) && !less(y, z) ensures !less(x, z) {
      assert less(y, x) || x == y;
      assert less(z, y) || y == z;
    }
  }

  predicate Sorted<T>(less: (T, T) -> bool, s: seq<T>)
  {
    forall i, j | 0 <= i < j < |s| :: !less(s[j], s[i])
  }

  predicate StrictlySorted<T>(less: (T, T) -> bool, s: seq<T>)
  {
    forall i, j | 0 <= i < j < |s| :: less(s[i], s[j])
  }

  // ---------- sorting ----------

  /** Stands for sort.Slice, sort.Sort and sort.Strings: callers may rely on the two postconditions only. */
  method Sort<T(!new)>(s: seq<T>, less: (T, T) -> bool) returns (r: seq<T>)
    requires StrictWeakOrder(less)
    ensures Sorted(less, r)
    ensures multiset(r) == multiset(s)
  {
    r := [];
    for i := 0 to |s|
      invariant Sorted(less, r)
      invariant multiset(r) == multiset(s[..i])
    {
      var k := |r|;
      while k > 0 && less(s[i], r[k - 1])
        invariant 0 <= k <= |r|
        invariant forall j | k <= j < |r| :: less(s[i], r[j])
      {
        k := k - 1;
      }
      SortedInsert(less, r, k, s[i]);
      assert s[..i + 1] == s[..i] + [s[i]];
      assert r == r[..k] + r[k..];
      r := r[..k] + [s[i]] + r[k..];
    }
    assert s[..|s|] == s;
  }

  lemma {:induction false} SortedInsert<T(!new)>(less: (T, T) -> bool, s: seq<T>, k: nat, x: T)
    requires StrictWeakOrder(less) && Sorted(less, s) && k <= |s|
    requires k > 0 ==> !less(x, s[k - 1])
    requires forall j | k <= j < |s| :: less(x, s[j])
    ensures Sorted(less, s[..k] + [x] + s[k..])
  {
    var r := s[..k] + [x] + s[k..];
    forall i, j | 0 <= i < j < |r| ensures !less(r[j], r[i]) {
      if j == k {
        assert r[i] == s[i];
        assert !less(x, s[k - 1]);
        if i < k - 1 {
          assert !less(s[k - 1], s[i]);
        }
      } else if i == k {
        assert r[j] == s[j - 1];
      }
    }
  }

  /** A sorted list is determined by its elements when the order is total. */
  lemma {:induction false} SortedUnique<T(!new)>(less: (T, T) -> bool, s: seq<T>, t: seq<T>)
    requires StrictTotalOrder(less)
    requires Sorted(less, s) && Sorted(less, t)
    requires multiset(s) == multiset(t)
    ensures s == t
  {
    hide StrictTotalOrder, Sorted;
    assert |s| == |multiset(s)| == |multiset(t)| == |t|;
    if s != [] {
      SameHead(less, s, t);
      SortedTail(less, s);
      SortedTail(less, t);
      SortedUnique(less, s[1..], t[1..]);
      assert s == [s[0]] + s[1..] && t == [t[0]] + t[1..];
    }
  }

  lemma {:induction false} SameHead<T(!new)>(less: (T, T) -> bool, s: seq<T>, t: seq<T>)
    requires StrictTotalOrder(less)
    requires Sorted(less, s) && Sorted(less, t)
    requires multiset(s) == multiset(t) && s != [] && t != []
    ensures s[0] == t[0]
  {
    assert s[0] in multiset(t) && t[0] in multiset(s);
    assert s[0] in t && t[0] in s;
    assert !less(t[0], s[0]) || s[0] == t[0];
    assert !less(s[0], t[0]) || s[0] == t[0];
  }

  lemma {:induction false} SortedTail<T(!new)>(less: (T, T) -> bool, s: seq<T>)
    requires Sorted(less, s) && s != []
    ensures Sorted(less, s[1..])
    ensures multiset(s[1..]) == multiset(s) - multiset{s[0]}
  {
    assert s == [s[0]] + s[1..];
  }

  /** A strictly sorted list is determined by its set of elements. */
  lemma {:induction false} StrictlySortedUnique<T(!new)>(less: (T, T) -> bool, s: seq<T>, t: seq<T>)
    requires StrictTotalOrder(less)
    requires StrictlySorted(less, s) && StrictlySorted(less, t)
    requires forall x :: x in s <==> x in t
    ensures s == t
  {
    assert forall i | 0 <= i < |t| :: t[i] in s;
    assert forall i | 0 <= i < |s| :: s[i] in t;
    if s != [] && t != [] {
      assert s[0] == t[0] by {
        var i :| 0 <= i < |t| && t[i] == s[0];
        var j :| 0 <= j < |s| && s[j] == t[0];
        var a, b := s[0], t[0];
        assert i > 0 ==> less(b, a);
        assert j > 0 ==> less(a, b);
      }
      forall x ensures x in s[1..] <==> x in t[1..] {
        StrictTail(less, s, x);
        StrictTail(less, t, x);
      }
      StrictlySortedUnique(less, s[1..], t[1..]);
    }
  }

  lemma {:induction false} StrictTail<T(!new)>(less: (T, T) -> bool, s: seq<T>, x: T)
    requires StrictTotalOrder(less) && StrictlySorted(less, s) && s != []
    ensures x in s[1..] <==> x in s && x != s[0]
  {
    if x in s && x != s[0] {
      var i :| 0 <= i < |s| && s[i] == x;
      assert s[1..][i - 1] == x;
    }
    if x in s[1..] {
      var i :| 0 <= i < |s[1..]| && s[1..][i] == x;
      assert less(s[0], s[i + 1]);
    }
  }

  // ---------- rearrangements ----------

  /** The last element of a list, taken out of a rearrangement of it. */
  lemma {:induction false} Around<T>(a: seq<T>, b: seq<T>) returns (before: seq<T>, after: seq<T>)
    requires multiset(a) == multiset(b) && a != []
    ensures b == before + [a[|a| - 1]] + after
    ensures multiset(a[..|a| - 1]) == multiset(before + after)
  {
    var x := a[|a| - 1];
    assert x in multiset(b);
    var k :| 0 <= k < |b| && b[k] == x;
    before, after := b[..k], b[k + 1..];
    assert b == before + [x] + after;
    assert a == a[..|a| - 1] + [x];
    assert multiset(before + after) == multiset(before) + multiset(after);
    Cancel(multiset(a[..|a| - 1]), multiset(before + after), x);
  }

  lemma {:induction false} SameSize<T>(a: seq<T>, b: seq<T>)
    requires multiset(a) == multiset(b)
    ensures |a| == |b|
  {
    assert |a| == |multiset(a)|;
  }

  lemma {:induction false} Cancel<T>(a: multiset<T>, b: multiset<T>, x: T)
    requires a + multiset{x} == b + multiset{x}
    ensures a == b
  {
    assert a == (a + multiset{x}) - multiset{x};
  }

  lemma {:induction false} CountsTwice<T>(s: seq<T>, i: nat, j: nat)
    requires i < j < |s| && s[i] == s[j]
    ensures multiset(s)[s[i]] >= 2
  {
    assert s == s[..j] + [s[j]] + s[j + 1..];
    assert s[i] in s[..j];
    assert s[i] in multiset(s[..j]);
  }

  // ---------- strings ----------

  /** Go's < on strings. */
  predicate StringLess(a: string, b: string)
  {
    b != [] && (a == [] || a[0] < b[0] || (a[0] == b[0] && StringLess(a[1..], b[1..])))
  }

  lemma {:induction false} StringTrichotomy(a: string, b: string)
    ensures StringLess(a, b) || StringLess(b, a) || a == b
    ensures !(StringLess(a, b) && StringLess(b, a))
  {
    if a != [] && b != [] && a[0] == b[0] {
      StringTrichotomy(a[1..], b[1..]);
      if a[1..] == b[1..] {
        assert a == [a[0]] + a[1..] && b == [b[0]] + b[1..];
      }
    }
  }

  lemma {:induction false} StringTransitive(a: string, b: string, c: string)
    requires StringLess(a, b) && StringLess(b, c)
    ensures StringLess(a, c)
  {
    if a != [] && a[0] == b[0] == c[0] {
      StringTransitive(a[1..], b[1..], c[1..]);
    }
  }

  lemma {:induction false} StringOrder()
    ensures StrictTotalOrder(StringLess)
  {
    forall x: string, y: string ensures StringLess(x, y) || StringLess(y, x) || x == y {
      StringTrichotomy(x, y);
    }
    forall x: string ensures !StringLess(x, x) {
      StringTrichotomy(x, x);
    }
    forall x: string, y: string, z: string | StringLess(x, y) && StringLess(y, z) ensures StringLess(x, z) {
      StringTransitive(x, y, z);
    }
  }
}
