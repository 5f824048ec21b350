/** Exactly when the obfuscator keeps its promises, and what the leftover tail of its network list changes: nothing. */
module AnonymizerLimits {
  import opened Bits
  import opened Bytes
  import opened NextIp
  import opened Networks
  import opened Anonymizer
  import opened AnonymizerOrbits
  import opened AnonymizerEpochs

  lemma {:induction false} RunConcat(s: State, a: seq<Op>, b: seq<Op>)
    ensures Run(s, a + b) == Run(Run(s, a), b)
    decreases |a|
  {
    if a == [] {
      assert a + b == b;
    } else {
      assert (a + b)[1..] == a[1..] + b;
      RunConcat(Step(s, a[0]), a[1..], b);
    }
  }

  lemma {:induction false} RunOne(s: State, a: Op)
    ensures Run(s, [a]) == Step(s, a)
  {
    assert [a][1..] == [];
  }

  lemma {:induction false} RunTwo(s: State, a: Op, b: Op)
    ensures Run(s, [a, b]) == Step(Step(s, a), b)
  {
    assert [a, b][1..] == [b];
    RunOne(Step(s, a), b);
  }

  lemma {:induction false} RunNothing(s: State)
    ensures Run(s, []) == s
  {}

  // ---------- moving one cursor ----------

  /** The reply of a call that gets a replacement is in the table afterwards. */
  lemma {:induction false} ReplyIsRecorded(s: State, t: IpText)
    requires GetsReplacement(Subnets(s.networks), t)
    ensures var (s', r) := Obfuscate(s, t); t in s'.table && s'.table[t] == r
  {
    hide NextAddress, FirstMatch, IpEqual;
    assert Subnets(s.networks)[Serving(s, t.ip)] == s.networks[Serving(s, t.ip)].network;
  }


  function Laps(t: IpText, k: nat): seq<Op>
  {
    if k == 0 then [] else Laps(t, k - 1) + [Call(t), EndEpoch]
  }

  /** An empty table, and the cursor of network i at the k-th position of its orbit. */
  ghost predicate CursorAt(s: State, cidrs: seq<Subnet>, i: nat, k: nat)
  {
    && Subnets(s.networks) == cidrs && s.table == map[]
    && i < |cidrs| && s.networks[i] == SubnetInformation(cidrs[i], Orbit(cidrs[i], k))
  }

  /** A text that network i of the list replaces. */
  predicate ServedBy(
    cidrs: seq<Subnet>, i: nat, t: IpText) { GetsReplacement(cidrs, t) && FirstMatch(cidrs, t.ip) == i }

  lemma {:induction false} CursorsAtFirst(cidrs: seq<Subnet>, i: nat)
    requires i < |cidrs|
    ensures CursorAt(Initial(cidrs), cidrs, i, 0)
  {
    assert Subnets(Initial(cidrs).networks) == cidrs;
  }

  lemma {:induction false} OneCall(s: State, cidrs: seq<Subnet>, i: nat, k: nat, t: IpText)
    requires Subnets(s.networks) == cidrs && i < |cidrs| && t !in s.table && ServedBy(cidrs, i, t)
    requires s.networks[i] == SubnetInformation(cidrs[i], Orbit(cidrs[i], k))
    ensures var c := Orbit(cidrs[i], k + 1);
            && Obfuscate(s, t).1 == Print(c)
            && Step(s, Call(t)) == State(s.networks[i := SubnetInformation(cidrs[i], c)], s.table[t := Print(c)])
            && Subnets(Step(s, Call(t)).networks) == cidrs
  {
    hide NextAddress, FirstMatch, GetsReplacement, Print;
    ReplacementChangesState(s, t);
    NewEntry(s, t);
    StepKeepsNetworks(s, Call(t));
  }

  /** Epochs in which only t is asked for move its network's cursor by one each, and nothing else. */
  lemma {:induction false} LapsMove(s: State, cidrs: seq<Subnet>, i: nat, k: nat, t: IpText, p: nat)
    requires CursorAt(s, cidrs, i, k) && ServedBy(cidrs, i, t)
    ensures var s' := Run(s, Laps(t, p));
            && CursorAt(s', cidrs, i, k + p)
            && forall j | 0 <= j < |cidrs| && j != i :: s'.networks[j] == s.networks[j]
  {
    hide NextAddress, FirstMatch, GetsReplacement, Orbit, Obfuscate, Run;
    if p == 0 {
      RunNothing(s);
    } else {
      LapsMove(s, cidrs, i, k, t, p - 1);
      var s1 := Run(s, Laps(t, p - 1));
      RunConcat(s, Laps(t, p - 1), [Call(t), EndEpoch]);
      RunTwo(s1, Call(t), EndEpoch);
      OneCall(s1, cidrs, i, k + p - 1, t);
      StepKeepsNetworks(s1, Call(t));
    }
  }

  /** In some state of a run a text served by network i gets the p-th position of its orbit. */
  lemma {:induction false} ReachPosition(cidrs: seq<Subnet>, i: nat, t: IpText, p: nat) returns (ops: seq<Op>)
    requires i < |cidrs| && ServedBy(cidrs, i, t)
    ensures t !in Run(Initial(cidrs), ops).table
    ensures Obfuscate(Run(Initial(cidrs), ops), t).1 == Print(Orbit(cidrs[i], p + 1))
  {
    hide NextAddress, FirstMatch, GetsReplacement, Orbit, Obfuscate, Run;
    ops := Laps(t, p);
    CursorsAtFirst(cidrs, i);
    LapsMove(Initial(cidrs), cidrs, i, 0, t, p);
    OneCall(Run(Initial(cidrs), ops), cidrs, i, p, t);
  }

  /** Every reply to a text served by network i is a later position of its orbit. */
  lemma {:induction false} ReplyOnOrbit(cidrs: seq<Subnet>, i: nat, h: nat, ops: seq<Op>, t: IpText) returns (j: nat)
    requires i < |cidrs| && V4Cidr(cidrs[i], h) && ServedBy(cidrs, i, t)
    ensures j > 0 && h > 0 && Obfuscate(Run(Initial(cidrs), ops), t).1 == Print(Orbit(cidrs[i], j))
  {
    hide V4Cidr, Obfuscate, Run, FirstMatch, Orbit, Print, IpEqual;
    var s := Run(Initial(cidrs), ops);
    assert Subnets(Initial(cidrs).networks) == cidrs;
    NetworksAreFixed(Initial(cidrs), ops);
    ReplyIsRecorded(s, t);
    RunConcat(Initial(cidrs), ops, [Call(t)]);
    RunOne(s, Call(t));
    j := ReplacementOnOrbit(cidrs, i, h, ops + [Call(t)], t);
  }

  // ---------- what a network hands out ----------

  /** In some state of some run a text served by network i gets the reply. */
  ghost predicate HandsOut(cidrs: seq<Subnet>, i: nat, reply: IpText)
  {
    exists ops: seq<Op>, u :: ServedBy(cidrs, i, u) && Obfuscate(Run(Initial(cidrs), ops), u).1 == reply
  }

  /**
    The IPv4 addresses that a network hands out over all runs are exactly its own, its base only if its cursor keeps
    its width.
   */
  lemma {:induction false} HandedOutExactly(cidrs: seq<Subnet>, i: nat, h: nat, t: IpText, a: V4Bytes)
    requires i < |cidrs| && V4Cidr(cidrs[i], h) && ServedBy(cidrs, i, t)
    ensures |cidrs[i].ip| == IPV4LEN
    ensures HandsOut(cidrs, i, V4(a)) <==> Inside(cidrs[i], h, a) && (a == cidrs[i].ip ==> KeepsWidth(cidrs[i], h))
  {
    hide V4Cidr, KeepsWidth, Obfuscate, Run, ServedBy, Orbit, High, Value;
    BaseInside(cidrs[i], h);
    if Inside(cidrs[i], h, a) && (a == cidrs[i].ip ==> KeepsWidth(cidrs[i], h)) {
      var j := ReplyOnOrbit(cidrs, i, h, [], t);
      var p := PositionOf(cidrs[i], h, a);
      var ops := ReachPosition(cidrs, i, t, p);
    }
    if HandsOut(cidrs, i, V4(a)) {
      var ops: seq<Op>, u :| ServedBy(cidrs, i, u) && Obfuscate(Run(Initial(cidrs), ops), u).1 == V4(a);
      var j := ReplyOnOrbit(cidrs, i, h, ops, u);
      V4OnOrbit(cidrs[i], h, j, a);
    }
  }

  lemma {:induction false} V4OnOrbit(n: Subnet, h: nat, j: nat, a: V4Bytes)
    requires V4Cidr(n, h) && j > 0 && h > 0 && Print(Orbit(n, j)) == V4(a)
    ensures |n.ip| == IPV4LEN && Inside(n, h, a) && (a == n.ip ==> KeepsWidth(n, h))
  {
    hide V4Cidr, KeepsWidth, Orbit, High, Value, Outside;
    BaseInside(n, h);
    if KeepsWidth(n, h) {
      WideOrbit(n, h, j);
    } else {
      NarrowMeets(n, h, j);
      if Outside(Orbit(n, j)) {
        OutsidePrint(Orbit(n, j));
      }
    }
  }

  ghost predicate RepliesInside(cidrs: seq<Subnet>, i: nat, h: nat, ops: seq<Op>, u: IpText)
    requires i < |cidrs|
  {
    var r := Obfuscate(Run(Initial(cidrs), ops), u).1;
    r.V4? && Inside(cidrs[i], h, r.ip)
  }

  /** The replacements of a network stay inside it in all runs exactly when its cursor keeps its width. */
  lemma {:induction false} InsideExactly(cidrs: seq<Subnet>, i: nat, h: nat, t: IpText)
    requires i < |cidrs| && V4Cidr(cidrs[i], h) && ServedBy(cidrs, i, t)
    ensures |cidrs[i].ip| == IPV4LEN
    ensures (forall ops: seq<Op>, u | ServedBy(cidrs, i, u) :: RepliesInside(cidrs, i, h, ops, u))
            <==> KeepsWidth(cidrs[i], h)
  {
    hide V4Cidr, KeepsWidth, Obfuscate, Run, ServedBy, Orbit, High, Value;
    BaseInside(cidrs[i], h);
    if KeepsWidth(cidrs[i], h) {
      forall ops: seq<Op>, u | ServedBy(cidrs, i, u) ensures RepliesInside(cidrs, i, h, ops, u) {
        var j := ReplyOnOrbit(cidrs, i, h, ops, u);
        WideOrbit(cidrs[i], h, j);
      }
    } else {
      var ops := NarrowNetworkEscapes(cidrs, i, h, t);
      assert !RepliesInside(cidrs, i, h, ops, t);
    }
  }

  /** Otherwise every text that it serves gets, in some run, a reply that is no IPv4 address. */
  lemma {:induction false} NarrowNetworkEscapes(cidrs: seq<Subnet>, i: nat, h: nat, t: IpText) returns (ops: seq<Op>)
    requires i < |cidrs| && V4Cidr(cidrs[i], h) && ServedBy(cidrs, i, t) && |cidrs[i].ip| == IPV4LEN
    requires !KeepsWidth(cidrs[i], h)
    ensures !Obfuscate(Run(Initial(cidrs), ops), t).1.V4?
  {
    hide V4Cidr, NextAddress, Obfuscate, Run, KeepsWidth, Orbit, ServedBy, Outside;
    ops := ReachPosition(cidrs, i, t, Pow2(h) - 1);
    StaysOutside(cidrs[i], h, 0);
    OutsidePrint(Orbit(cidrs[i], Pow2(h)));
  }

  /** No reply is ever the base of the serving network exactly when its cursor loses its width. */
  lemma {:induction false} BaseIsAvoidedExactly(cidrs: seq<Subnet>, i: nat, h: nat, t: IpText)
    requires i < |cidrs| && V4Cidr(cidrs[i], h) && ServedBy(cidrs, i, t)
    ensures |cidrs[i].ip| == IPV4LEN
    ensures (forall ops: seq<Op>, u | ServedBy(cidrs, i, u) ::
               Obfuscate(Run(Initial(cidrs), ops), u).1 != Print(cidrs[i].ip))
            <==> !KeepsWidth(cidrs[i], h)
  {
    hide V4Cidr, KeepsWidth, Obfuscate, Run, ServedBy, High, Value;
    BaseInside(cidrs[i], h);
    var base := cidrs[i].ip;
    HandedOutExactly(cidrs, i, h, t, base);
    assert Print(base) == V4(base);
    if KeepsWidth(cidrs[i], h) {
      var ops: seq<Op>, u :| ServedBy(cidrs, i, u) && Obfuscate(Run(Initial(cidrs), ops), u).1 == V4(base);
      assert Obfuscate(Run(Initial(cidrs), ops), u).1 == Print(base);
    } else {
      forall ops: seq<Op>, u | ServedBy(cidrs, i, u) ensures Obfuscate(Run(Initial(cidrs), ops), u).1 != Print(base) {
        assert !HandsOut(cidrs, i, V4(base));
      }
    }
  }

  // ---------- which replies are fixed ----------

  /**
    Among the addresses inside some network, those that every state maps to themselves are exactly the ones
    at which the first matching network is based.
   */
  lemma {:induction false} FixedExactlyAtBases(cidrs: seq<Subnet>, t: IpText, h: nat)
    requires t.V4? && FirstMatch(cidrs, t.ip) < |cidrs| && V4Cidr(cidrs[FirstMatch(cidrs, t.ip)], h)
    ensures (forall ops: seq<Op> :: Obfuscate(Run(Initial(cidrs), ops), t).1 == t)
        <==> IpEqual(cidrs[FirstMatch(cidrs, t.ip)].ip, t.ip)
  {
    hide V4Cidr, NextAddress, FirstMatch, IpEqual, Obfuscate, Run;
    var i := FirstMatch(cidrs, t.ip);
    if IpEqual(cidrs[i].ip, t.ip) {
      forall ops: seq<Op> ensures Obfuscate(Run(Initial(cidrs), ops), t).1 == t {
        FixedReplies(cidrs, ops, t);
      }
    } else {
      var s0 := Initial(cidrs);
      var s1 := Run(s0, [Call(t), EndEpoch]);
      RunNothing(s0);
      TwoEpochsDiffer(cidrs, t, h);
      assert Obfuscate(Run(s0, []), t).1 != Obfuscate(Run(s0, [Call(t), EndEpoch]), t).1;
    }
  }

  /** A replaced address gets different replacements in the first two epochs of a run that asks for nothing else. */
  lemma {:induction false} TwoEpochsDiffer(cidrs: seq<Subnet>, t: IpText, h: nat)
    requires t.V4? && FirstMatch(cidrs, t.ip) < |cidrs| && V4Cidr(cidrs[FirstMatch(cidrs, t.ip)], h)
    requires !IpEqual(cidrs[FirstMatch(cidrs, t.ip)].ip, t.ip)
    ensures Obfuscate(Initial(cidrs), t).1 != Obfuscate(Run(Initial(cidrs), [Call(t), EndEpoch]), t).1
  {
    hide V4Cidr, NextAddress, FirstMatch, IpEqual;
    var i := FirstMatch(cidrs, t.ip);
    var n := cidrs[i];
    var s0 := Initial(cidrs);
    assert Subnets(s0.networks) == cidrs;
    var c1 := NextAddress(n.ip, n.mask).0;
    ReplacementChangesState(s0, t);
    NewEntry(s0, t);
    var s2 := Run(s0, [Call(t), EndEpoch]);
    RunTwo(s0, Call(t), EndEpoch);
    NetworksAreFixed(s0, [Call(t), EndEpoch]);
    assert Subnets(s2.networks)[i] == n;
    assert s2.networks[i].lastIP == c1;
    ReplacementChangesState(s2, t);
    NewEntry(s2, t);
    ReplacedIsNotBase(s0, i, h, t);
    HostBitsPositive(h, 1);
    BaseInside(n, h);
    InsideIsInCycle(n, h, n.ip);
    CursorStep(n, h, n.ip);
    CursorStep(n, h, c1);
    PrintsDiffer(c1, NextAddress(c1, n.mask).0);
  }

  lemma {:induction false} PrintsDiffer(a: seq<Byte>, b: seq<Byte>)
    requires |a| == 4 && |b| <= 4 && Value(a) != Value(b)
    ensures Print(a) != Print(b)
  {}

  /** A network base is a fixed point when no earlier network that holds it is wider. */
  lemma {:induction false} BasesAreFixedWhenLongestFirst(cidrs: seq<Subnet>, widths: seq<nat>, j: nat, ops: seq<Op>)
    requires |widths| == |cidrs| && j < |cidrs|
    requires forall i | 0 <= i < |cidrs| :: V4Cidr(cidrs[i], widths[i])
    requires forall i | 0 <= i < j && Contains(cidrs[i], cidrs[j].ip) :: widths[i] <= widths[j]
    ensures |cidrs[j].ip| == IPV4LEN
    ensures Obfuscate(Run(Initial(cidrs), ops), V4(cidrs[j].ip)).1 == V4(cidrs[j].ip)
  {
    hide V4Cidr, IpEqual, Contains, Obfuscate, Run;
    var b := cidrs[j].ip;
    BaseOf(cidrs[j], widths[j]);
    ContainsIsSamePrefix(cidrs[j], widths[j], b);
    var i := FirstMatch(cidrs, b);
    assert i <= j;
    ContainsIsSamePrefix(cidrs[i], widths[i], b);
    HighNarrower(Value(b), widths[j], widths[i]);
    FixedReplies(cidrs, ops, V4(b));
  }

  lemma {:induction false} BaseOf(n: Subnet, h: nat)
    requires V4Cidr(n, h)
    ensures |n.ip| == IPV4LEN && High(Value(n.ip), h) == Value(n.ip)
  {}

  lemma {:induction false} HighNarrower(v: nat, g: nat, h: nat)
    requires High(v, g) == v && h <= g
    ensures High(v, h) == v
  {
    if h > 0 {
      HighNarrower(v / 2, g - 1, h - 1);
    }
  }

  // ---------- the leftover tail ----------

  ghost predicate TailRepeats(networks: seq<Subnet>, n: nat)
  {
    && n <= |networks|
    && forall j | n <= j < |networks| :: networks[j] in networks[..n]
  }

  lemma {:induction false} TailNeverMatchesFirst(networks: seq<Subnet>, n: nat, ip: seq<Byte>)
    requires TailRepeats(networks, n)
    ensures var i := FirstMatch(networks[..n], ip);
            FirstMatch(networks, ip) == if i < n then i else |networks|
  {
    var i := FirstMatch(networks[..n], ip);
    if i < n {
      FirstMatchUnique(networks, ip, i);
    } else {
      forall j | 0 <= j < |networks| ensures !Matches(networks[j], ip) {
        if j >= n {
          var k :| 0 <= k < n && networks[..n][k] == networks[j];
        } else {
          assert networks[..n][j] == networks[j];
        }
      }
      FirstMatchUnique(networks, ip, |networks|);
    }
  }

  /** The state with and without the tail: same replies, same table, same cursors, and tail entries that never move. */
  ghost predicate SameButForTail(s: State, short: State, tail: seq<SubnetInformation>)
  {
    s == State(short.networks + tail, short.table)
  }

  lemma {:induction false} TailStep(s: State, short: State, tail: seq<SubnetInformation>, t: IpText)
    requires SameButForTail(s, short, tail)
    requires TailRepeats(Subnets(s.networks), |short.networks|)
    ensures SameButForTail(Obfuscate(s, t).0, Obfuscate(short, t).0, tail)
    ensures Obfuscate(s, t).1 == Obfuscate(short, t).1
    ensures |Obfuscate(short, t).0.networks| == |short.networks|
  {
    hide FirstMatch, NextAddress, IpEqual;
    if t.V4? {
      assert Subnets(s.networks)[..|short.networks|] == Subnets(short.networks);
      TailNeverMatchesFirst(Subnets(s.networks), |short.networks|, t.ip);
    }
  }

  lemma {:induction false} TailRun(s: State, short: State, tail: seq<SubnetInformation>, ops: seq<Op>)
    requires SameButForTail(s, short, tail)
    requires TailRepeats(Subnets(s.networks), |short.networks|)
    ensures SameButForTail(Run(s, ops), Run(short, ops), tail)
    ensures |Run(short, ops).networks| == |short.networks|
    decreases |ops|
  {
    hide Obfuscate, TailRepeats;
    if ops != [] {
      if ops[0].Call? {
        TailStep(s, short, tail, ops[0].t);
      }
      StepKeepsNetworks(s, ops[0]);
      TailRun(Step(s, ops[0]), Step(short, ops[0]), tail, ops[1..]);
    }
  }

  /**
    The network list that the anonymizer really works with keeps the leftovers of sorting.  In every run it
    replies as the deduplicated list would, with the same table and cursors, and the leftovers' cursors stay
    where Build put them.
   */
  lemma {:induction false} StaleTailChangesNoReply(cidrs: seq<Subnet>, n: nat, ops: seq<Op>, t: IpText)
    requires TailRepeats(cidrs, n)
    ensures var s, short := Run(Initial(cidrs), ops), Run(Initial(cidrs[..n]), ops);
            && s.table == short.table
            && s.networks == short.networks + Initial(cidrs).networks[n..]
            && Obfuscate(s, t).1 == Obfuscate(short, t).1
  {
    var s0, short0 := Initial(cidrs), Initial(cidrs[..n]);
    var tail := s0.networks[n..];
    assert s0.networks == short0.networks + tail;
    assert Subnets(s0.networks) == cidrs;
    TailRun(s0, short0, tail, ops);
    NetworksAreFixed(s0, ops);
    TailStep(Run(s0, ops), Run(short0, ops), tail, t);
  }

  /** What getNetworksForAnonymizer returns is such a list, once parsed. */
  lemma {:induction false} ParsedListHasRepeatingTail(networks: seq<NetworkText>, n: nat, resolve: string -> seq<Byte>)
    requires Parsable(networks, resolve) && OrderedWithStaleTail(networks, n)
    ensures TailRepeats(ParseCidrs(networks, resolve), n)
  {
    hide ParseCidr, LengthText;
    var parsed := ParseCidrs(networks, resolve);
    forall j | n <= j < |parsed| ensures parsed[j] in parsed[..n] {
      var k := InPrefix(networks, n, j);
      assert parsed[..n][k] == parsed[j];
    }
  }
}
