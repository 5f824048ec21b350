/**
  pkg/gatherers/clusterconfig/gather_namespaces_with_overlapping_uids.go: groups of namespaces with overlapping
  UIDs.
 */
module UidRanges {

  // ---------- ranges ----------

  const TWO_63 := 0x8000_0000_0000_0000

  type Int64 = x: int | -TWO_63 <= x < TWO_63

  /** Go's int64 addition. */
  function Add64(a: Int64, b: Int64): Int64
  {
    if a + b >= TWO_63 then a + b - 2 * TWO_63 else if a + b < -TWO_63 then a + b + 2 * TWO_63 else a + b
  }

  datatype UidRange = UidRange(starting: Int64, length: Int64)

  predicate IsOverlappingWith(u: UidRange, r: UidRange)
  {
    var uSum, rSum := Add64(u.starting, u.length), Add64(r.starting, r.length);
    (uSum > r.starting && uSum <= rSum) || (rSum > u.starting && rSum <= uSum)
  }

  predicate HasUid(u: UidRange, uid: int) { u.starting <= uid < u.starting + u.length }

  ghost predicate ShareUid(u: UidRange, r: UidRange) { exists uid :: HasUid(u, uid) && HasUid(r, uid) }

  predicate Fits(u: UidRange) { -TWO_63 <= u.starting + u.length < TWO_63 }

  /** An empty range whose end lies in the other range, after its first UID or right behind its last. */
  predicate EmptyInside(u: UidRange, r: UidRange)
  {
    u.length <= 0 && r.starting < u.starting + u.length <= r.starting + r.length
  }

  /** Overlap is the sharing of a UID, exactly unless an empty range ends inside the other range. */
  lemma {:induction false} OverlapExactly(u: UidRange, r: UidRange)
    requires Fits(u) && Fits(r)
    ensures (IsOverlappingWith(u, r) <==> ShareUid(u, r)) <==> !EmptyInside(u, r) && !EmptyInside(r, u)
  {
    var first := if u.starting >= r.starting then u.starting else r.starting;
    if HasUid(u, first) && HasUid(r, first) {
      assert ShareUid(u, r);
    }
  }

  /** The ranges are not empty and each starts before the other ends. */
  predicate Interleave(u: UidRange, r: UidRange)
  {
    && u.length > 0 && r.length > 0
    && u.starting < r.starting + r.length && r.starting < u.starting + u.length
  }

  /**
    For ranges of non-negative UIDs, of any length: when both ends fit, overlap is wrong exactly for an empty range
    that ends inside the other; when an end leaves int64, the ranges are never seen to overlap, which is wrong exactly
    when they interleave.
   */
  lemma {:induction false} OverlapOfUidsExactly(u: UidRange, r: UidRange)
    requires u.starting >= 0 && r.starting >= 0
    ensures ShareUid(u, r) <==> Interleave(u, r)
    ensures (IsOverlappingWith(u, r) <==> ShareUid(u, r)) <==>
            if Fits(u) && Fits(r) then !EmptyInside(u, r) && !EmptyInside(r, u) else !Interleave(u, r)
    ensures !Fits(u) || !Fits(r) ==> !IsOverlappingWith(u, r)
  {
    var first := if u.starting >= r.starting then u.starting else r.starting;
    if Interleave(u, r) {
      assert HasUid(u, first) && HasUid(r, first);
    }
    if Fits(u) && Fits(r) {
      OverlapExactly(u, r);
    }
  }

  predicate Regular(u: UidRange) { Fits(u) && u.length > 0 }

  lemma {:induction false} RegularOverlap(u: UidRange, r: UidRange)
    requires Regular(u) && Regular(r)
    ensures IsOverlappingWith(u, r) <==> u.starting < r.starting + r.length && r.starting < u.starting + u.length
    ensures IsOverlappingWith(u, r) <==> ShareUid(u, r)
  {
    OverlapExactly(u, r);
  }

  // ---------- sets of namespaces ----------

  datatype NamespaceWithRange = NamespaceWithRange(name: string, uidRange: UidRange)

  type NamespaceSet = set<NamespaceWithRange>

  predicate Overlap(a: NamespaceWithRange, b: NamespaceWithRange) { IsOverlappingWith(a.uidRange, b.uidRange) }

  predicate Clique(s: NamespaceSet) { forall a, b | a in s && b in s && a != b :: Overlap(a, b) }

  /** The set can take both namespaces. */
  predicate Takes(s: NamespaceSet, n1: NamespaceWithRange, n2: NamespaceWithRange)
  {
    s != {} && forall k | k in s :: Overlap(n1, k) && Overlap(n2, k)
  }

  /** BothOverlap of a set: its members are visited in any order. */
  method SetBothOverlap(s: NamespaceSet, n1: NamespaceWithRange, n2: NamespaceWithRange) returns (r: bool)
    ensures r == Takes(s, n1, n2)
  {
    hide IsOverlappingWith;
    if |s| == 0 {
      return false;
    }
    var todo := s;
    while todo != {}
      invariant todo <= s
      invariant forall k | k in s - todo :: Overlap(n1, k) && Overlap(n2, k)
      decreases |todo|
    {
      var k :| k in todo;
      if !IsOverlappingWith(n1.uidRange, k.uidRange) || !IsOverlappingWith(n2.uidRange, k.uidRange) {
        return false;
      }
      todo := todo - {k};
    }
    return true;
  }

  /** BothOverlap of the list of sets: the index of the first set that can take both, or the length. */
  method BothOverlap(ss: seq<NamespaceSet>, n1: NamespaceWithRange, n2: NamespaceWithRange) returns (k: nat, ok: bool)
    ensures k <= |ss| && ok == (k < |ss|)
    ensures ok ==> Takes(ss[k], n1, n2)
    ensures forall j | 0 <= j < k :: !Takes(ss[j], n1, n2)
  {
    hide Takes;
    for i := 0 to |ss|
      invariant forall j | 0 <= j < i :: !Takes(ss[j], n1, n2)
    {
      var both := SetBothOverlap(ss[i], n1, n2);
      if both {
        return i, true;
      }
    }
    return |ss|, false;
  }

  // ---------- grouping ----------

  ghost predicate Together(ss: seq<NamespaceSet>, a: NamespaceWithRange, b: NamespaceWithRange)
  {
    exists k :: 0 <= k < |ss| && a in ss[k] && b in ss[k]
  }

  /** The namespace stands in the list at some place, and overlaps the one at another place. */
  ghost predicate OverlapsAnother(namespaces: seq<NamespaceWithRange>, a: NamespaceWithRange)
  {
    exists i, j :: 0 <= i < |namespaces| && 0 <= j < |namespaces| && i != j
                   && namespaces[i] == a && Overlap(a, namespaces[j])
  }

  ghost predicate Sound(ss: seq<NamespaceSet>, namespaces: seq<NamespaceWithRange>)
  {
    forall k | 0 <= k < |ss| :: ss[k] != {} && Clique(ss[k]) && forall a | a in ss[k] :: OverlapsAnother(namespaces, a)
  }

  /** Every overlapping pair up to a place of the double loop lies in a common set. */
  ghost predicate Covered(ss: seq<NamespaceSet>, namespaces: seq<NamespaceWithRange>, i: nat, j: nat)
  {
    forall a, b | 0 <= a < b < |namespaces| && (a < i || (a == i && b < j)) && Overlap(namespaces[a], namespaces[b]) ::
      Together(ss, namespaces[a], namespaces[b])
  }

  /** The set holds an overlapping pair that no earlier set can take. */
  ghost predicate NeededAt(ss: seq<NamespaceSet>, p: nat)
    requires p < |ss|
  {
    exists x, y :: x in ss[p] && y in ss[p] && Overlap(x, y) && forall q | 0 <= q < p :: !Takes(ss[q], x, y)
  }

  /** No set could have been left out: the pairs that an earlier set can take have gone there. */
  ghost predicate Needed(ss: seq<NamespaceSet>) { forall p | 0 <= p < |ss| :: NeededAt(ss, p) }

  method Group(namespaces: seq<NamespaceWithRange>) returns (resultSet: seq<NamespaceSet>)
    ensures Sound(resultSet, namespaces)
    ensures Covered(resultSet, namespaces, |namespaces|, 0)
    ensures Needed(resultSet)
  {
    hide *;
    resultSet := [];
    NothingGrouped(namespaces);
    for i := 0 to |namespaces|
      invariant Sound(resultSet, namespaces) && Needed(resultSet)
      invariant Covered(resultSet, namespaces, i, 0)
    {
      var n1 := namespaces[i];
      var remainingNs := namespaces[i + 1..];
      StartRow(resultSet, namespaces, i);
      for j := 0 to |remainingNs|
        invariant Sound(resultSet, namespaces) && Needed(resultSet)
        invariant Covered(resultSet, namespaces, i, i + 1 + j)
      {
        var n2 := remainingNs[j];
        assert n2 == namespaces[i + 1 + j];
        ghost var before := resultSet;
        if IsOverlappingWith(n1.uidRange, n2.uidRange) {
          var k, ok := BothOverlap(resultSet, n1, n2);
          if ok {
            resultSet := resultSet[k := resultSet[k] + {n1, n2}];
          } else {
            resultSet := resultSet + [{n1, n2}];
          }
          PairPlaced(before, resultSet, namespaces, i, i + 1 + j, k);
          StayNeeded(before, resultSet, namespaces, n1, n2, k);
        } else {
          PairSkipped(resultSet, namespaces, i, i + 1 + j);
        }
      }
      EndRow(resultSet, namespaces, i);
    }
  }

  lemma {:induction false} NothingGrouped(namespaces: seq<NamespaceWithRange>)
    ensures Sound([], namespaces) && Covered([], namespaces, 0, 0) && Needed([])
  {}

  lemma {:induction false} StartRow(ss: seq<NamespaceSet>, namespaces: seq<NamespaceWithRange>, i: nat)
    requires Covered(ss, namespaces, i, 0)
    ensures Covered(ss, namespaces, i, i + 1)
  {
    hide Overlap, Together;
  }

  lemma {:induction false} EndRow(ss: seq<NamespaceSet>, namespaces: seq<NamespaceWithRange>, i: nat)
    requires Covered(ss, namespaces, i, |namespaces|)
    ensures Covered(ss, namespaces, i + 1, 0)
  {
    hide Overlap, Together;
  }

  lemma {:induction false} PairSkipped(ss: seq<NamespaceSet>, namespaces: seq<NamespaceWithRange>, i: nat, j: nat)
    requires i < j < |namespaces| && Covered(ss, namespaces, i, j)
    requires !IsOverlappingWith(namespaces[i].uidRange, namespaces[j].uidRange)
    ensures Covered(ss, namespaces, i, j + 1)
  {
    hide Together, IsOverlappingWith;
  }

  lemma {:induction false} PairPlaced(
    ss: seq<NamespaceSet>, ss': seq<NamespaceSet>, namespaces: seq<NamespaceWithRange>, i: nat, j: nat, k: nat)
    requires i < j < |namespaces| && k <= |ss|
    requires Sound(ss, namespaces) && Covered(ss, namespaces, i, j)
    requires IsOverlappingWith(namespaces[i].uidRange, namespaces[j].uidRange)
    requires k < |ss| ==> Takes(ss[k], namespaces[i], namespaces[j])
                          && ss' == ss[k := ss[k] + {namespaces[i], namespaces[j]}]
    requires k == |ss| ==> ss' == ss + [{namespaces[i], namespaces[j]}]
    ensures Sound(ss', namespaces) && Covered(ss', namespaces, i, j + 1)
  {
    hide *;
    var n1, n2 := namespaces[i], namespaces[j];
    var was: NamespaceSet := if k < |ss| then ss[k] else {};
    PairOverlaps(ss, namespaces, i, j);
    if k < |ss| {
      OneOfThem(ss, namespaces, k);
    }
    assert {} + {n1, n2} == {n1, n2};
    WiderClique(was, n1, n2);
    StaySound(ss, ss', namespaces, was + {n1, n2}, k);
    forall a, b | Together(ss, a, b) ensures Together(ss', a, b) {
      StayTogether(ss, ss', a, b);
    }
    NowTogether(ss', k, n1, n2);
    StayCovered(ss, ss', namespaces, i, j);
  }

  /** Sets only grow, so they take less; a set is added only for a pair that none of them takes. */
  lemma {:induction false} StayNeeded(
    ss: seq<NamespaceSet>, ss': seq<NamespaceSet>, namespaces: seq<NamespaceWithRange>, n1: NamespaceWithRange,
    n2: NamespaceWithRange, k: nat)
    requires Sound(ss, namespaces) && Needed(ss) && k <= |ss| && IsOverlappingWith(n1.uidRange, n2.uidRange)
    requires forall q | 0 <= q < k :: !Takes(ss[q], n1, n2)
    requires ss' == if k < |ss| then ss[k := ss[k] + {n1, n2}] else ss + [{n1, n2}]
    ensures Needed(ss')
  {
    hide IsOverlappingWith, Clique, OverlapsAnother, Takes;
    assert Overlap(n1, n2);
    forall p | 0 <= p < |ss'| ensures NeededAt(ss', p) {
      if p < |ss| {
        assert NeededAt(ss, p);
        var x, y :| x in ss[p] && y in ss[p] && Overlap(x, y) && forall q | 0 <= q < p :: !Takes(ss[q], x, y);
        forall q | 0 <= q < p ensures !Takes(ss'[q], x, y) {
          TakesLess(ss[q], ss'[q], x, y);
        }
      } else {
        assert n1 in ss'[p] && n2 in ss'[p];
      }
    }
  }

  lemma {:induction false} TakesLess(s: NamespaceSet, t: NamespaceSet, x: NamespaceWithRange, y: NamespaceWithRange)
    requires s != {} && s <= t && !Takes(s, x, y)
    ensures !Takes(t, x, y)
  {
    hide Overlap;
  }

  lemma {:induction false} PairOverlaps(ss: seq<NamespaceSet>, namespaces: seq<NamespaceWithRange>, i: nat, j: nat)
    requires i < j < |namespaces| && IsOverlappingWith(namespaces[i].uidRange, namespaces[j].uidRange)
    ensures Overlap(namespaces[i], namespaces[j])
    ensures OverlapsAnother(namespaces, namespaces[i]) && OverlapsAnother(namespaces, namespaces[j])
  {}

  lemma {:induction false} OneOfThem(ss: seq<NamespaceSet>, namespaces: seq<NamespaceWithRange>, k: nat)
    requires Sound(ss, namespaces) && k < |ss|
    ensures Clique(ss[k]) && forall a | a in ss[k] :: OverlapsAnother(namespaces, a)
  {}

  lemma {:induction false} WiderClique(s: NamespaceSet, n1: NamespaceWithRange, n2: NamespaceWithRange)
    requires Clique(s) || s == {}
    requires s != {} ==> Takes(s, n1, n2)
    requires Overlap(n1, n2)
    ensures Clique(s + {n1, n2})
  {
    hide Overlap;
    OverlapIsSymmetric();
  }

  lemma {:induction false} StaySound(
    ss: seq<NamespaceSet>, ss': seq<NamespaceSet>, namespaces: seq<NamespaceWithRange>, s: NamespaceSet, k: nat)
    requires Sound(ss, namespaces) && k <= |ss|
    requires ss' == if k < |ss| then ss[k := s] else ss + [s]
    requires s != {} && Clique(s) && forall a | a in s :: OverlapsAnother(namespaces, a)
    ensures Sound(ss', namespaces)
  {
    hide Clique, OverlapsAnother;
  }

  lemma {:induction false} StayTogether(
    ss: seq<NamespaceSet>, ss': seq<NamespaceSet>, a: NamespaceWithRange, b: NamespaceWithRange)
    requires Together(ss, a, b) && |ss| <= |ss'| && forall p | 0 <= p < |ss| :: ss[p] <= ss'[p]
    ensures Together(ss', a, b)
  {
    var p :| 0 <= p < |ss| && a in ss[p] && b in ss[p];
    assert a in ss'[p] && b in ss'[p];
  }

  lemma {:induction false} NowTogether(ss: seq<NamespaceSet>, k: nat, n1: NamespaceWithRange, n2: NamespaceWithRange)
    requires k < |ss| && n1 in ss[k] && n2 in ss[k]
    ensures Together(ss, n1, n2)
  {}

  lemma {:induction false} StayCovered(
    ss: seq<NamespaceSet>, ss': seq<NamespaceSet>, namespaces: seq<NamespaceWithRange>, i: nat, j: nat)
    requires i < j < |namespaces| && Covered(ss, namespaces, i, j)
    requires forall a, b | Together(ss, a, b) :: Together(ss', a, b)
    requires Together(ss', namespaces[i], namespaces[j])
    ensures Covered(ss', namespaces, i, j + 1)
  {
    hide Together, Overlap;
  }

  lemma {:induction false} OverlapIsSymmetric()
    ensures forall a, b :: Overlap(a, b) <==> Overlap(b, a)
  {}

  // ---------- what the groups mean ----------

  /** A namespace is reported exactly when it overlaps another one. */
  lemma {:induction false} ReportedExactly(
    namespaces: seq<NamespaceWithRange>, ss: seq<NamespaceSet>, a: NamespaceWithRange)
    requires Sound(ss, namespaces) && Covered(ss, namespaces, |namespaces|, 0)
    ensures (exists k :: 0 <= k < |ss| && a in ss[k]) <==> OverlapsAnother(namespaces, a)
  {
    hide IsOverlappingWith, Clique;
    OverlapIsSymmetric();
    if OverlapsAnother(namespaces, a) {
      var i, j :| 0 <= i < |namespaces| && 0 <= j < |namespaces| && i != j
                  && namespaces[i] == a && Overlap(a, namespaces[j]);
      var lo, hi := if i < j then i else j, if i < j then j else i;
      assert Together(ss, namespaces[lo], namespaces[hi]);
    }
  }

  /** Two namespaces with regular ranges share a UID exactly when some set holds both. */
  lemma {:induction false} TogetherExactly(namespaces: seq<NamespaceWithRange>, ss: seq<NamespaceSet>, i: nat, j: nat)
    requires Sound(ss, namespaces) && Covered(ss, namespaces, |namespaces|, 0)
    requires i < j < |namespaces| && Regular(namespaces[i].uidRange) && Regular(namespaces[j].uidRange)
    ensures Together(ss, namespaces[i], namespaces[j]) <==> ShareUid(namespaces[i].uidRange, namespaces[j].uidRange)
  {
    hide *;
    var a, b := namespaces[i], namespaces[j];
    RegularOverlap(a.uidRange, b.uidRange);
    if Together(ss, a, b) {
      TogetherOverlap(ss, namespaces, a, b);
    }
    if IsOverlappingWith(a.uidRange, b.uidRange) {
      OverlapTogether(ss, namespaces, i, j);
    }
  }

  lemma {:induction false} TogetherOverlap(
    ss: seq<NamespaceSet>, namespaces: seq<NamespaceWithRange>, a: NamespaceWithRange, b: NamespaceWithRange)
    requires Sound(ss, namespaces) && Together(ss, a, b) && Regular(a.uidRange)
    ensures IsOverlappingWith(a.uidRange, b.uidRange)
  {
    var k :| 0 <= k < |ss| && a in ss[k] && b in ss[k];
    assert Clique(ss[k]);
    if a == b {
      RegularOverlap(a.uidRange, a.uidRange);
    } else {
      assert Overlap(a, b);
    }
  }

  lemma {:induction false} OverlapTogether(ss: seq<NamespaceSet>, namespaces: seq<NamespaceWithRange>, i: nat, j: nat)
    requires Covered(ss, namespaces, |namespaces|, 0) && i < j < |namespaces|
    requires IsOverlappingWith(namespaces[i].uidRange, namespaces[j].uidRange)
    ensures Together(ss, namespaces[i], namespaces[j])
  {
    hide IsOverlappingWith, Together;
    assert Overlap(namespaces[i], namespaces[j]);
  }

  /** All ranges of a set of regular ranges share one UID: the largest start. */
  lemma {:induction false} SetsShareAUid(s: NamespaceSet) returns (uid: int)
    requires s != {} && Clique(s) && forall a | a in s :: Regular(a.uidRange)
    ensures forall a | a in s :: HasUid(a.uidRange, uid)
  {
    hide IsOverlappingWith, Regular;
    var last := LastStart(s);
    uid := last.uidRange.starting;
    forall a | a in s ensures HasUid(a.uidRange, uid) {
      if a != last {
        assert Overlap(a, last);
        RegularOverlap(a.uidRange, last.uidRange);
      }
      StartIsIn(last.uidRange);
    }
  }

  predicate AllHaveUid(namespaces: seq<NamespaceWithRange>, uid: int)
  {
    forall i | 0 <= i < |namespaces| :: HasUid(namespaces[i].uidRange, uid)
  }

  /** Namespaces with regular ranges are reported as one set exactly when one UID belongs to all of them. */
  lemma {:induction false} OneSetExactly(namespaces: seq<NamespaceWithRange>, ss: seq<NamespaceSet>)
    requires Sound(ss, namespaces) && Covered(ss, namespaces, |namespaces|, 0) && Needed(ss)
    requires |namespaces| >= 2 && forall i | 0 <= i < |namespaces| :: Regular(namespaces[i].uidRange)
    ensures ss == [set n | n in namespaces] <==> exists uid :: AllHaveUid(namespaces, uid)
  {
    hide *;
    var all := set n | n in namespaces;
    if ss == [all] {
      assert namespaces[0] in all;
      OneOfThem(ss, namespaces, 0);
      var uid := SetsShareAUid(all);
      ForAllOfThem(namespaces, all, uid);
    }
    if uid :| AllHaveUid(namespaces, uid) {
      forall i, j | 0 <= i < |namespaces| && 0 <= j < |namespaces| ensures Overlap(namespaces[i], namespaces[j]) {
        SharedMeansOverlap(namespaces, i, j, uid);
      }
      AllInOneSet(namespaces, ss);
    }
  }

  lemma {:induction false} ForAllOfThem(namespaces: seq<NamespaceWithRange>, all: NamespaceSet, uid: int)
    requires forall n | n in namespaces :: n in all
    requires forall a | a in all :: HasUid(a.uidRange, uid)
    ensures AllHaveUid(namespaces, uid)
  {
    hide HasUid;
  }

  lemma {:induction false} SharedMeansOverlap(namespaces: seq<NamespaceWithRange>, i: nat, j: nat, uid: int)
    requires i < |namespaces| && j < |namespaces| && AllHaveUid(namespaces, uid)
    requires Regular(namespaces[i].uidRange) && Regular(namespaces[j].uidRange)
    ensures Overlap(namespaces[i], namespaces[j])
  {
    RegularOverlap(namespaces[i].uidRange, namespaces[j].uidRange);
  }

  /** Namespaces that all overlap each other, and themselves, are one set. */
  lemma {:induction false} AllInOneSet(namespaces: seq<NamespaceWithRange>, ss: seq<NamespaceSet>)
    requires Sound(ss, namespaces) && Covered(ss, namespaces, |namespaces|, 0) && Needed(ss)
    requires |namespaces| >= 2
    requires forall i, j | 0 <= i < |namespaces| && 0 <= j < |namespaces| :: Overlap(namespaces[i], namespaces[j])
    ensures ss == [set n | n in namespaces]
  {
    hide Overlap, Clique, Covered, Sound, Needed;
    forall p, a | 0 <= p < |ss| && a in ss[p] ensures a in namespaces {
      FromTheList(namespaces, ss, p, a);
    }
    forall i | 0 <= i < |namespaces| ensures Together(ss, namespaces[i], namespaces[i]) {
      Reported(namespaces, ss, i);
    }
    if |ss| > 1 {
      SecondIsNotNeeded(namespaces, ss);
    }
    assert Together(ss, namespaces[0], namespaces[0]);
    hide NeededAt;
    forall a | a in namespaces ensures a in ss[0] {
      assert Together(ss, a, a);
    }
    assert forall a :: a in ss[0] <==> a in namespaces;
    assert ss[0] == set n | n in namespaces;
  }

  lemma {:induction false} FromTheList(
    namespaces: seq<NamespaceWithRange>, ss: seq<NamespaceSet>, p: nat, a: NamespaceWithRange)
    requires Sound(ss, namespaces) && p < |ss| && a in ss[p]
    ensures a in namespaces
  {
    hide Overlap, Clique;
    assert OverlapsAnother(namespaces, a);
  }

  lemma {:induction false} Reported(namespaces: seq<NamespaceWithRange>, ss: seq<NamespaceSet>, i: nat)
    requires Covered(ss, namespaces, |namespaces|, 0) && |namespaces| >= 2 && i < |namespaces|
    requires forall i, j | 0 <= i < |namespaces| && 0 <= j < |namespaces| :: Overlap(namespaces[i], namespaces[j])
    ensures Together(ss, namespaces[i], namespaces[i])
  {
    hide Overlap;
    assert if i == 0 then Together(ss, namespaces[0], namespaces[1]) else Together(ss, namespaces[0], namespaces[i]);
  }

  lemma {:induction false} SecondIsNotNeeded(namespaces: seq<NamespaceWithRange>, ss: seq<NamespaceSet>)
    requires Sound(ss, namespaces) && |ss| > 1
    requires forall p, a | 0 <= p < |ss| && a in ss[p] :: a in namespaces
    requires forall i, j | 0 <= i < |namespaces| && 0 <= j < |namespaces| :: Overlap(namespaces[i], namespaces[j])
    ensures !Needed(ss)
  {
    hide Overlap, Clique, OverlapsAnother;
    assert ss[0] != {};
    forall x, y | x in ss[1] && y in ss[1] ensures Takes(ss[0], x, y) {
      assert x in namespaces && y in namespaces;
      forall k | k in ss[0] ensures Overlap(x, k) && Overlap(y, k) {
        assert k in namespaces;
      }
    }
    assert !NeededAt(ss, 1);
  }

  lemma {:induction false} StartIsIn(u: UidRange)
    requires Regular(u)
    ensures HasUid(u, u.starting)
  {}

  lemma {:induction false} LastStart(s: NamespaceSet) returns (last: NamespaceWithRange)
    requires s != {}
    ensures last in s && forall a | a in s :: a.uidRange.starting <= last.uidRange.starting
  {
    var first :| first in s;
    var rest := s - {first};
    last := first;
    if rest != {} {
      var other := LastStart(rest);
      if other.uidRange.starting > first.uidRange.starting {
        last := other;
      }
    }
    forall a | a in s ensures a.uidRange.starting <= last.uidRange.starting {
      assert a == first || a in rest;
    }
  }
}
