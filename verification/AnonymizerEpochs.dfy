/**
  What the obfuscator keeps over every run: within an epoch one network never hands out the same replacement
  twice, however often its cursor has wrapped in earlier epochs, and not even after the cursor has left it.
 */
module AnonymizerEpochs {
  import opened Bits
  import opened NextIp
  import opened Networks
  import opened Anonymizer
  import opened AnonymizerOrbits

  // ---------- the texts that a network has replaced ----------

  /** The texts of the current epoch that network i has replaced. */
  function Owned(s: State, i: nat): set<IpText>
  {
    set k | k in s.table && k.V4? && Serving(s, k.ip) == i
  }

  /** At most N - 1 addresses lie strictly between base and base + N. */
  lemma {:induction false} FewAddresses(keys: set<IpText>, base: nat, n: nat)
    requires n > 0
    requires forall k | k in keys :: k.V4? && base < Value(k.ip) < base + n
    ensures |keys| <= n - 1
  {
    if n == 1 {
      assert keys == {};
    } else if k :| k in keys && Value(k.ip) == base + n - 1 {
      forall l | l in keys - {k} ensures base < Value(l.ip) < base + (n - 1) {
        if Value(l.ip) == Value(k.ip) {
          ValueInjective(l.ip, k.ip);
          assert false;
        }
      }
      FewAddresses(keys - {k}, base, n - 1);
    } else {
      FewAddresses(keys, base, n - 1);
    }
  }

  /** A replaced text is an address of its network other than the base. */
  lemma {:induction false} ReplacedIsNotBase(s: State, i: nat, h: nat, k: IpText)
    requires i < |s.networks| && V4Cidr(s.networks[i].network, h)
    requires GetsReplacement(Subnets(s.networks), k) && Serving(s, k.ip) == i
    ensures var base := Value(s.networks[i].network.ip);
            base < Value(k.ip) < base + Pow2(h)
  {
    hide CidrMask;
    var n := s.networks[i].network;
    assert Subnets(s.networks)[i] == n;
    InsideIsInCycle(n, h, k.ip);
    ContainsIsSamePrefix(n, h, k.ip);
  }

  lemma {:induction false} OwnedBelowCycle(s: State, i: nat, h: nat, keys: set<IpText>)
    requires i < |s.networks| && V4Cidr(s.networks[i].network, h)
    requires forall k | k in keys :: GetsReplacement(Subnets(s.networks), k) && Serving(s, k.ip) == i
    ensures |keys| <= Pow2(h) - 1
  {
    forall k | k in keys
      ensures k.V4? && Value(s.networks[i].network.ip) < Value(k.ip) < Value(s.networks[i].network.ip) + Pow2(h)
    {
      ReplacedIsNotBase(s, i, h, k);
    }
    FewAddresses(keys, Value(s.networks[i].network.ip), Pow2(h));
  }

  /** A call that changes the state moves the serving network's cursor and records its new position. */
  lemma {:induction false} NewEntry(s: State, t: IpText)
    requires Obfuscate(s, t).0 != s
    ensures t !in s.table && GetsReplacement(Subnets(s.networks), t)
    ensures var j := Serving(s, t.ip);
            var next := NextAddress(s.networks[j].lastIP, s.networks[j].network.mask).0;
            && Obfuscate(s, t).0 == State(s.networks[j := s.networks[j].(lastIP := next)], s.table[t := Print(next)])
            && Obfuscate(s, t).1 == Print(next)
  {
    hide NextAddress, FirstMatch;
    if t.V4? && Serving(s, t.ip) < |s.networks| {
      assert Subnets(s.networks)[Serving(s, t.ip)] == s.networks[Serving(s, t.ip)].network;
    }
  }

  lemma {:induction false} ReplacementChangesState(s: State, t: IpText)
    requires t !in s.table && GetsReplacement(Subnets(s.networks), t)
    ensures Obfuscate(s, t).0 != s
  {
    hide NextAddress, FirstMatch;
    assert Subnets(s.networks)[Serving(s, t.ip)] == s.networks[Serving(s, t.ip)].network;
  }

  lemma {:induction false} Replaceable(subnets: seq<Subnet>, t: IpText)
    ensures GetsReplacement(subnets, t) ==> t.V4?
  {}

  // ---------- the invariant of one network ----------

  /** The text is the print of one of the last m positions of the cursor, of which the k-th is the latest. */
  ghost predicate OnTrail(n: Subnet, k: nat, m: nat, text: IpText)
  {
    exists j: nat :: k < j + m && j <= k && text == Print(Orbit(n, j))
  }

  /**
    The cursor of network i has moved k times; the replacements of the epoch are distinct and are among its last
    |Owned| positions.
   */
  ghost predicate Trail(s: State, i: nat, h: nat, k: nat)
  {
    && i < |s.networks|
    && V4Cidr(s.networks[i].network, h)
    && s.networks[i].lastIP == Orbit(s.networks[i].network, k)
    && |Owned(s, i)| <= k
    && (forall t | t in Owned(s, i) :: GetsReplacement(Subnets(s.networks), t))
    && (forall t | t in Owned(s, i) :: OnTrail(s.networks[i].network, k, |Owned(s, i)|, s.table[t]))
    && (forall t, u | t in Owned(s, i) && u in Owned(s, i) && t != u :: s.table[t] != s.table[u])
  }

  lemma {:induction false} ResetKeepsTrail(s: State, i: nat, h: nat, k: nat)
    requires Trail(s, i, h, k)
    ensures Trail(Reset(s), i, h, k)
  {
    hide V4Cidr, GetsReplacement, Orbit, OnTrail;
    assert Owned(Reset(s), i) == {};
  }

  lemma {:induction false} InitialTrail(cidrs: seq<Subnet>, i: nat, h: nat)
    requires i < |cidrs| && V4Cidr(cidrs[i], h)
    ensures Trail(Initial(cidrs), i, h, 0) && Owned(Initial(cidrs), i) == {}
  {
    hide V4Cidr;
    assert Owned(Initial(cidrs), i) == {};
  }

  /** A call that hands out no replacement, or one from another network, leaves network i as it is. */
  lemma {:induction false} OtherCallMovesNothing(s: State, i: nat, t: IpText)
    requires i < |s.networks|
    requires t in s.table || !GetsReplacement(Subnets(s.networks), t) || Serving(s, t.ip) != i
    ensures var s' := Obfuscate(s, t).0;
            && |s'.networks| == |s.networks| && s'.networks[i] == s.networks[i] && Owned(s', i) == Owned(s, i)
            && forall u | u in s.table :: u in s'.table && s'.table[u] == s.table[u]
  {
    hide GetsReplacement, FirstMatch, NextAddress, IpEqual;
    StepKeepsNetworks(s, Call(t));
    if Obfuscate(s, t).0 != s {
      NewEntry(s, t);
      assert Owned(Obfuscate(s, t).0, i) == Owned(s, i);
    }
  }

  lemma {:induction false} OtherCallKeepsTrail(s: State, i: nat, h: nat, k: nat, t: IpText)
    requires Trail(s, i, h, k)
    requires t in s.table || !GetsReplacement(Subnets(s.networks), t) || Serving(s, t.ip) != i
    ensures Trail(Obfuscate(s, t).0, i, h, k) && Owned(Obfuscate(s, t).0, i) == Owned(s, i)
  {
    hide V4Cidr, GetsReplacement, FirstMatch, NextAddress, IpEqual, Orbit, OnTrail, Obfuscate, Owned;
    StepKeepsNetworks(s, Call(t));
    OtherCallMovesNothing(s, i, t);
    InTable(s, i);
  }

  lemma {:induction false} InTable(s: State, i: nat)
    ensures forall k | k in Owned(s, i) :: k in s.table
  {}

  /** One more position of the cursor: the texts of the trail are further back, and the new one is not among them. */
  lemma {:induction false} TrailMoves(n: Subnet, h: nat, k: nat, m: nat, text: IpText)
    requires V4Cidr(n, h) && OnTrail(n, k, m, text) && m + 1 < Pow2(h)
    ensures OnTrail(n, k + 1, m + 1, text) && text != Print(Orbit(n, k + 1))
  {
    hide V4Cidr, Orbit, Print;
    var j: nat :| k < j + m && j <= k && text == Print(Orbit(n, j));
    OrbitDoesNotRepeat(n, h, j, k + 1 - j);
  }

  lemma {:induction false} TrailEnd(n: Subnet, k: nat, m: nat)
    requires m > 0
    ensures OnTrail(n, k, m, Print(Orbit(n, k)))
  {
    hide Orbit, Print;
    assert k < k + m;
  }

  /** A replacement handed out by network i is one more owned text, and the cycle still has room. */
  lemma {:induction false} OwnCallOwns(s: State, i: nat, h: nat, k: nat, t: IpText)
    requires Trail(s, i, h, k)
    requires t !in s.table && GetsReplacement(Subnets(s.networks), t) && Serving(s, t.ip) == i
    ensures var s', n := Obfuscate(s, t).0, s.networks[i];
            && Owned(s', i) == Owned(s, i) + {t} && |Owned(s', i)| == |Owned(s, i)| + 1 < Pow2(h)
            && s' == State(s.networks[i := n.(lastIP := Orbit(n.network, k + 1))],
                           s.table[t := Print(Orbit(n.network, k + 1))])
  {
    hide V4Cidr, GetsReplacement, FirstMatch, NextAddress, IpEqual, Pow2, Obfuscate, Print;
    var s' := Obfuscate(s, t).0;
    StepKeepsNetworks(s, Call(t));
    ReplacementChangesState(s, t);
    NewEntry(s, t);
    Replaceable(Subnets(s.networks), t);
    OwnedWithOneMore(s, s', i, t);
    OwnedBelowCycle(s, i, h, Owned(s, i) + {t});
  }

  lemma {:induction false} OwnedWithOneMore(s: State, s': State, i: nat, t: IpText)
    requires Subnets(s'.networks) == Subnets(s.networks) && s'.table.Keys == s.table.Keys + {t}
    requires t.V4? && t !in s.table && Serving(s, t.ip) == i
    ensures t !in Owned(s, i) && Owned(s', i) == Owned(s, i) + {t}
  {}

  lemma {:induction false} OwnCallKeepsTrail(s: State, i: nat, h: nat, k: nat, t: IpText)
    requires Trail(s, i, h, k)
    requires t !in s.table && GetsReplacement(Subnets(s.networks), t) && Serving(s, t.ip) == i
    ensures Trail(Obfuscate(s, t).0, i, h, k + 1) && |Owned(Obfuscate(s, t).0, i)| == |Owned(s, i)| + 1
  {
    hide V4Cidr, GetsReplacement, FirstMatch, NextAddress, IpEqual, Pow2, Obfuscate, Print, Owned, OnTrail, Orbit;
    var s' := Obfuscate(s, t).0;
    StepKeepsNetworks(s, Call(t));
    OwnCallOwns(s, i, h, k, t);
    InTable(s, i);
    var n, m := s.networks[i].network, |Owned(s, i)|;
    forall u | u in Owned(s, i)
      ensures OnTrail(n, k + 1, m + 1, s'.table[u]) && s'.table[u] == s.table[u] && s'.table[u] != s'.table[t]
    {
      TrailMoves(n, h, k, m, s.table[u]);
    }
    TrailEnd(n, k + 1, m + 1);
  }

  /** One operation; as long as the epoch lasts, the moves and the owned texts grow together. */
  lemma {:induction false} StepKeepsTrail(s: State, i: nat, h: nat, k: nat, op: Op) returns (k': nat)
    requires Trail(s, i, h, k)
    ensures Trail(Step(s, op), i, h, k')
    ensures op.Call? ==> k' - |Owned(Step(s, op), i)| == k - |Owned(s, i)|
  {
    hide Trail, GetsReplacement, Obfuscate, Owned;
    match op {
      case EndEpoch =>
        ResetKeepsTrail(s, i, h, k);
        k' := k;
      case Call(t) =>
        Replaceable(Subnets(s.networks), t);
        if t !in s.table && GetsReplacement(Subnets(s.networks), t) && Serving(s, t.ip) == i {
          OwnCallKeepsTrail(s, i, h, k, t);
          k' := k + 1;
        } else {
          OtherCallKeepsTrail(s, i, h, k, t);
          k' := k;
        }
    }
  }

  lemma {:induction false} RunKeepsTrail(s: State, i: nat, h: nat, k: nat, ops: seq<Op>) returns (k': nat)
    requires Trail(s, i, h, k)
    ensures Trail(Run(s, ops), i, h, k')
    ensures SameEpoch(ops) ==> k' - |Owned(Run(s, ops), i)| == k - |Owned(s, i)|
    decreases |ops|
  {
    hide Trail, Step, Owned;
    k' := k;
    if ops != [] {
      assert ops[0] in ops;
      k' := StepKeepsTrail(s, i, h, k, ops[0]);
      k' := RunKeepsTrail(Step(s, ops[0]), i, h, k', ops[1..]);
    }
  }

  /** The trail in a run of the anonymizer: in the first epoch every move has been a replacement. */
  lemma {:induction false} TrailOf(cidrs: seq<Subnet>, i: nat, h: nat, ops: seq<Op>) returns (k: nat)
    requires i < |cidrs| && V4Cidr(cidrs[i], h)
    ensures var s := Run(Initial(cidrs), ops);
            && Trail(s, i, h, k) && Subnets(s.networks) == cidrs && s.networks[i].network == cidrs[i]
            && (SameEpoch(ops) ==> k == |Owned(s, i)|)
  {
    hide V4Cidr, Step, Run, Owned, GetsReplacement, OnTrail, Orbit;
    var s0 := Initial(cidrs);
    assert Subnets(s0.networks) == cidrs;
    InitialTrail(cidrs, i, h);
    k := RunKeepsTrail(s0, i, h, 0, ops);
    NetworksAreFixed(s0, ops);
    assert Subnets(Run(s0, ops).networks)[i] == cidrs[i];
  }

  /** A text in the table that network i serves. */
  predicate Replaced(cidrs: seq<Subnet>, i: nat, ops: seq<Op>, t: IpText)
  {
    t in Run(Initial(cidrs), ops).table && t.V4? && FirstMatch(cidrs, t.ip) == i
  }

  // ---------- main results ----------

  /**
    In every state of every run, over any number of epochs and whatever the network: two addresses that the same
    network replaced in the current epoch have different replacements.
   */
  lemma {:induction false} ReplacementsAreDistinct(
    cidrs: seq<Subnet>, i: nat, h: nat, ops: seq<Op>, k: IpText, l: IpText)
    requires i < |cidrs| && V4Cidr(cidrs[i], h)
    requires Replaced(cidrs, i, ops, k) && Replaced(cidrs, i, ops, l) && k != l
    ensures var s := Run(Initial(cidrs), ops); s.table[k] != s.table[l]
  {
    hide V4Cidr, FirstMatch, Step, OnTrail, Run, Initial, GetsReplacement;
    var m := TrailOf(cidrs, i, h, ops);
    var s := Run(Initial(cidrs), ops);
    assert k in Owned(s, i) && l in Owned(s, i);
  }

  /** A replacement is a later position of the serving cursor; in the first epoch, one before the first overflow. */
  lemma {:induction false} ReplacementOnOrbit(
    cidrs: seq<Subnet>, i: nat, h: nat, ops: seq<Op>, t: IpText) returns (j: nat)
    requires i < |cidrs| && V4Cidr(cidrs[i], h) && Replaced(cidrs, i, ops, t)
    ensures j > 0 && h > 0 && Run(Initial(cidrs), ops).table[t] == Print(Orbit(cidrs[i], j))
    ensures SameEpoch(ops) ==> j < Pow2(h)
  {
    hide V4Cidr, FirstMatch, Step, Orbit, Run, Initial, GetsReplacement, Print, Pow2;
    var k := TrailOf(cidrs, i, h, ops);
    var s := Run(Initial(cidrs), ops);
    assert t in Owned(s, i);
    j :| k < j + |Owned(s, i)| && j <= k && s.table[t] == Print(Orbit(cidrs[i], j));
    OwnedBelowCycle(s, i, h, Owned(s, i));
    HostBitsPositive(h, |Owned(s, i)|);
  }

  lemma {:induction false} HostBitsPositive(h: nat, owned: nat)
    requires 0 < owned < Pow2(h)
    ensures h > 0
  {}

  /**
    A replacement stays inside the first network that matches the address, if that network's cursor keeps its
    width.
   */
  lemma {:induction false} ReplacementIsInside(cidrs: seq<Subnet>, i: nat, h: nat, ops: seq<Op>, t: IpText)
    requires i < |cidrs| && V4Cidr(cidrs[i], h) && KeepsWidth(cidrs[i], h) && Replaced(cidrs, i, ops, t)
    ensures var r := Run(Initial(cidrs), ops).table[t]; r.V4? && Inside(cidrs[i], h, r.ip)
  {
    hide V4Cidr, KeepsWidth, Replaced, Run, Initial, Orbit, High, Value;
    var j := ReplacementOnOrbit(cidrs, i, h, ops, t);
    WideOrbit(cidrs[i], h, j);
  }

  /**
    In the first epoch no replacement is the base of its network, and every one is inside: together with the fixed
    bases the mapping is one-to-one on the network.
   */
  lemma {:induction false} FirstEpochAvoidsBase(cidrs: seq<Subnet>, i: nat, h: nat, ops: seq<Op>, t: IpText)
    requires i < |cidrs| && V4Cidr(cidrs[i], h) && Replaced(cidrs, i, ops, t)
    requires SameEpoch(ops)
    ensures var r := Run(Initial(cidrs), ops).table[t];
            && r.V4? && Inside(cidrs[i], h, r.ip)
            && Value(cidrs[i].ip) < Value(r.ip) < Value(cidrs[i].ip) + Pow2(h)
  {
    hide V4Cidr, Replaced, Run, Initial, Orbit, High, Value, Pow2;
    var j := ReplacementOnOrbit(cidrs, i, h, ops, t);
    EarlyOrbit(cidrs[i], h, j);
  }
}
