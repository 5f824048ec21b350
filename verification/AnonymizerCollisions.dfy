/** When addresses of different networks can get the same replacement, and when the whole table is one-to-one. */
module AnonymizerCollisions {
  import opened Bits
  import opened Bytes
  import opened NextIp
  import opened Networks
  import opened Anonymizer
  import opened AnonymizerOrbits
  import opened AnonymizerEpochs
  import opened AnonymizerLimits

  ghost predicate Collide(cidrs: seq<Subnet>, i: nat, j: nat, ops: seq<Op>, k: IpText, l: IpText)
  {
    && Replaced(cidrs, i, ops, k) && Replaced(cidrs, j, ops, l)
    && Run(Initial(cidrs), ops).table[k] == Run(Initial(cidrs), ops).table[l]
  }

  /** In some run an address served by i and one served by j have the same replacement. */
  ghost predicate CanCollide(cidrs: seq<Subnet>, i: nat, j: nat)
  {
    exists ops: seq<Op>, k, l :: Collide(cidrs, i, j, ops, k, l)
  }

  /** The networks overlap: one of them contains the other's base. */
  predicate Overlap(a: Subnet, b: Subnet) { Contains(a, b.ip) || Contains(b, a.ip) }

  /**
    For two networks that serve some addresses: they can collide exactly when they overlap, or when both lose their
    cursors' width and so count up through the same IPv6 addresses.
   */
  lemma {:induction false} CollisionsExactly(
    cidrs: seq<Subnet>, i: nat, h: nat, j: nat, g: nat, t: IpText, u: IpText)
    requires i < |cidrs| && j < |cidrs| && i != j && V4Cidr(cidrs[i], h) && V4Cidr(cidrs[j], g)
    requires ServedBy(cidrs, i, t) && ServedBy(cidrs, j, u)
    ensures CanCollide(cidrs, i, j)
            <==> Overlap(cidrs[i], cidrs[j]) || (!KeepsWidth(cidrs[i], h) && !KeepsWidth(cidrs[j], g))
  {
    hide V4Cidr, KeepsWidth, Collide, Contains, Overlap, ServedBy;
    WidthDefined(cidrs[i], h);
    WidthDefined(cidrs[j], g);
    if CanCollide(cidrs, i, j) {
      var ops: seq<Op>, k, l :| Collide(cidrs, i, j, ops, k, l);
      CollisionNeedsOverlap(cidrs, i, h, j, g, ops, k, l);
    } else if Overlap(cidrs[i], cidrs[j]) {
      OverlapCollides(cidrs, i, h, j, g, t, u);
    } else if !KeepsWidth(cidrs[i], h) && !KeepsWidth(cidrs[j], g) {
      NarrowNetworksCollide(cidrs, i, h, j, g, t, u);
    }
  }

  // ---------- collisions need overlap ----------

  lemma {:induction false} CollisionNeedsOverlap(
    cidrs: seq<Subnet>, i: nat, h: nat, j: nat, g: nat, ops: seq<Op>, k: IpText, l: IpText)
    requires i < |cidrs| && j < |cidrs| && V4Cidr(cidrs[i], h) && V4Cidr(cidrs[j], g)
    requires Collide(cidrs, i, j, ops, k, l)
    ensures Overlap(cidrs[i], cidrs[j]) || (!KeepsWidth(cidrs[i], h) && !KeepsWidth(cidrs[j], g))
  {
    hide V4Cidr, KeepsWidth, Replaced, Overlap, Run, Initial, Orbit, Print, OnOrbit;
    var p := ReplacementOnOrbit(cidrs, i, h, ops, k);
    var q := ReplacementOnOrbit(cidrs, j, g, ops, l);
    OrbitIsOn(cidrs[i], h, p);
    OrbitIsOn(cidrs[j], g, q);
    SamePrint(cidrs[i], h, Orbit(cidrs[i], p), cidrs[j], g, Orbit(cidrs[j], q));
  }

  /** Every position is inside the network, or the network has lost its cursor. */
  lemma {:induction false} OrbitIsOn(n: Subnet, h: nat, p: nat)
    requires V4Cidr(n, h) && h > 0
    ensures OnOrbit(n, h, Orbit(n, p)) && (KeepsWidth(n, h) ==> Inside(n, h, Orbit(n, p)))
  {
    hide V4Cidr, KeepsWidth, Inside, Orbit, Outside;
    BaseInside(n, h);
    WidthDefined(n, h);
    if KeepsWidth(n, h) {
      WideOrbit(n, h, p);
    } else {
      NarrowOrbit(n, h, p);
    }
  }

  lemma {:induction false} WidthDefined(n: Subnet, h: nat)
    requires V4Cidr(n, h)
    ensures |n.ip| == IPV4LEN
  {}

  lemma {:induction false} SamePrint(m: Subnet, h: nat, a: seq<Byte>, n: Subnet, g: nat, b: seq<Byte>)
    requires V4Cidr(m, h) && V4Cidr(n, g) && OnOrbit(m, h, a) && OnOrbit(n, g, b) && Print(a) == Print(b)
    requires KeepsWidth(m, h) ==> Inside(m, h, a)
    requires KeepsWidth(n, g) ==> Inside(n, g, b)
    ensures Overlap(m, n) || (!KeepsWidth(m, h) && !KeepsWidth(n, g))
  {
    hide V4Cidr, KeepsWidth, High, Value, Overlap;
    WidthDefined(m, h);
    WidthDefined(n, g);
    if Outside(a) {
      OutsidePrint(a);
    }
    if Outside(b) {
      OutsidePrint(b);
    }
    if Inside(m, h, a) && Inside(n, g, b) {
      CommonAddress(m, h, n, g, a);
    }
  }

  /** CIDR networks with a common address are nested. */
  lemma {:induction false} CommonAddress(m: Subnet, h: nat, n: Subnet, g: nat, a: seq<Byte>)
    requires V4Cidr(m, h) && V4Cidr(n, g) && Inside(m, h, a) && Inside(n, g, a)
    ensures Overlap(m, n)
  {
    hide CidrMask, Value, High, Contains;
    ContainsIsSamePrefix(m, h, n.ip);
    ContainsIsSamePrefix(n, g, m.ip);
    if h <= g {
      HighOfHigh(Value(a), h, g);
    } else {
      HighOfHigh(Value(a), g, h);
    }
  }

  // ---------- meeting cursors ----------

  /** If the orbits print the same text somewhere, both cursors can be brought right before it in one epoch. */
  lemma {:induction false} MeetingCollides(
    cidrs: seq<Subnet>, i: nat, j: nat, t: IpText, u: IpText, p: nat, q: nat)
    requires i < |cidrs| && j < |cidrs| && i != j && ServedBy(cidrs, i, t) && ServedBy(cidrs, j, u)
    requires Print(Orbit(cidrs[i], p + 1)) == Print(Orbit(cidrs[j], q + 1))
    ensures CanCollide(cidrs, i, j)
  {
    hide Orbit, Print, Run, FirstMatch, GetsReplacement;
    var s0 := Initial(cidrs);
    CursorsAtFirst(cidrs, i);
    CursorsAtFirst(cidrs, j);
    LapsMove(s0, cidrs, i, 0, t, p);
    var s1 := Run(s0, Laps(t, p));
    OtherCursor(s0, s1, cidrs, i, p, j, 0);
    LapsMove(s1, cidrs, j, 0, u, q);
    var s2 := Run(s1, Laps(u, q));
    OtherCursor(s1, s2, cidrs, j, q, i, p);
    TwoCalls(s2, cidrs, i, p, t, j, q, u);
    var ops := Laps(t, p) + Laps(u, q) + [Call(t), Call(u)];
    RunConcat(s0, Laps(t, p), Laps(u, q));
    RunConcat(s0, Laps(t, p) + Laps(u, q), [Call(t), Call(u)]);
    Replaceable(cidrs, t);
    Replaceable(cidrs, u);
    assert Collide(cidrs, i, j, ops, t, u);
  }

  lemma {:induction false} OtherCursor(s: State, s': State, cidrs: seq<Subnet>, i: nat, k: nat, j: nat, p: nat)
    requires CursorAt(s', cidrs, i, k) && CursorAt(s, cidrs, j, p) && s'.networks[j] == s.networks[j]
    ensures CursorAt(s', cidrs, j, p)
  {
    hide Orbit;
  }

  lemma {:induction false} TwoCalls(
    s: State, cidrs: seq<Subnet>, i: nat, p: nat, t: IpText, j: nat, q: nat, u: IpText)
    requires i != j && CursorAt(s, cidrs, i, p) && CursorAt(s, cidrs, j, q)
    requires ServedBy(cidrs, i, t) && ServedBy(cidrs, j, u)
    ensures var s' := Run(s, [Call(t), Call(u)]);
            && t in s'.table && s'.table[t] == Print(Orbit(cidrs[i], p + 1))
            && u in s'.table && s'.table[u] == Print(Orbit(cidrs[j], q + 1))
  {
    hide Orbit, Print, FirstMatch, GetsReplacement, Step, Run;
    assert t != u;
    OneCall(s, cidrs, i, p, t);
    OneCall(Step(s, Call(t)), cidrs, j, q, u);
    RunTwo(s, Call(t), Call(u));
  }

  // ---------- overlapping networks meet ----------

  lemma {:induction false} OverlapCollides(
    cidrs: seq<Subnet>, i: nat, h: nat, j: nat, g: nat, t: IpText, u: IpText)
    requires i < |cidrs| && j < |cidrs| && i != j && V4Cidr(cidrs[i], h) && V4Cidr(cidrs[j], g)
    requires ServedBy(cidrs, i, t) && ServedBy(cidrs, j, u) && Overlap(cidrs[i], cidrs[j])
    ensures CanCollide(cidrs, i, j)
  {
    hide V4Cidr, Contains, ServedBy, Orbit, Print, Pow2;
    MoreThanBase(cidrs, i, h, t);
    MoreThanBase(cidrs, j, g, u);
    var p, q;
    if Contains(cidrs[j], cidrs[i].ip) {
      q := MeetingPoint(cidrs[i], h, cidrs[j], g);
      p := 0;
    } else {
      p := MeetingPoint(cidrs[j], g, cidrs[i], h);
      q := 0;
    }
    MeetingCollides(cidrs, i, j, t, u, p, q);
  }

  /** A network that serves a text has an address other than its base. */
  lemma {:induction false} MoreThanBase(cidrs: seq<Subnet>, i: nat, h: nat, t: IpText)
    requires i < |cidrs| && V4Cidr(cidrs[i], h) && ServedBy(cidrs, i, t)
    ensures 1 < Pow2(h)
  {
    hide V4Cidr, FirstMatch, GetsReplacement, Value;
    assert Subnets(Initial(cidrs).networks) == cidrs;
    ReplacedIsNotBase(Initial(cidrs), i, h, t);
  }

  /** The orbit of the network that holds the other's base comes by the other's first replacement. */
  lemma {:induction false} MeetingPoint(m: Subnet, h: nat, n: Subnet, g: nat) returns (q: nat)
    requires V4Cidr(m, h) && V4Cidr(n, g) && 1 < Pow2(h) && 1 < Pow2(g) && Contains(n, m.ip)
    ensures Print(Orbit(m, 1)) == Print(Orbit(n, q + 1))
  {
    hide V4Cidr, Contains, Orbit, Print, Pow2, High, Value;
    BaseInside(m, h);
    ContainsIsSamePrefix(n, g, m.ip);
    EarlyOrbit(m, h, 1);
    NextIsInside(m, h, n, g);
    q := Value(m.ip) - Value(n.ip);
    EarlyOrbit(n, g, q + 1);
    ValueInjective(Orbit(m, 1), Orbit(n, q + 1));
  }

  lemma {:induction false} NextIsInside(m: Subnet, h: nat, n: Subnet, g: nat)
    requires V4Cidr(m, h) && V4Cidr(n, g) && 1 < Pow2(h) && 1 < Pow2(g) && High(Value(m.ip), g) == Value(n.ip)
    ensures 0 <= Value(m.ip) - Value(n.ip) && Value(m.ip) - Value(n.ip) + 1 < Pow2(g)
  {
    hide CidrMask, Value;
    HighLow(Value(m.ip), g);
    EvenBase(Value(m.ip), h, g);
  }

  /** A base is even, and the last address of a network odd. */
  lemma {:induction false} EvenBase(v: nat, h: nat, g: nat)
    requires High(v, h) == v && h > 0 && g > 0
    ensures Low(v, g) != Pow2(g) - 1
  {
    assert v % 2 == 0;
    assert Low(v, g) % 2 == 0;
    assert Pow2(g) == 2 * Pow2(g - 1);
  }

  // ---------- networks that have lost their cursors meet ----------

  lemma {:induction false} NarrowNetworksCollide(
    cidrs: seq<Subnet>, i: nat, h: nat, j: nat, g: nat, t: IpText, u: IpText)
    requires i < |cidrs| && j < |cidrs| && i != j && V4Cidr(cidrs[i], h) && V4Cidr(cidrs[j], g)
    requires !KeepsWidth(cidrs[i], h) && !KeepsWidth(cidrs[j], g)
    requires ServedBy(cidrs, i, t) && ServedBy(cidrs, j, u)
    ensures CanCollide(cidrs, i, j)
  {
    hide V4Cidr, KeepsWidth, ServedBy, Orbit, Print, Pow2, Outside, Value;
    var a, b := Value(cidrs[i].ip), Value(cidrs[j].ip);
    var v := if a > b then a + 1 else b + 1;
    SmallNetwork(cidrs[i], h);
    SmallNetwork(cidrs[j], g);
    OutsideOrbit(cidrs[i], h, v - a);
    OutsideOrbit(cidrs[j], g, v - b);
    ValueInjective(Orbit(cidrs[i], Pow2(h) + (v - a)), Orbit(cidrs[j], Pow2(g) + (v - b)));
    MeetingCollides(cidrs, i, j, t, u, Pow2(h) + (v - a) - 1, Pow2(g) + (v - b) - 1);
  }

  // ---------- the whole table ----------

  ghost predicate Serves(cidrs: seq<Subnet>, i: nat) { exists t :: ServedBy(cidrs, i, t) }

  ghost predicate TableIsOneToOne(cidrs: seq<Subnet>)
  {
    forall ops: seq<Op>, k, l :: var s := Run(Initial(cidrs), ops);
      k in s.table && l in s.table && k != l ==> s.table[k] != s.table[l]
  }

  /** The networks that serve addresses are IPv4 networks in CIDR form; IPv6 networks serve none. */
  ghost predicate ServingV4(cidrs: seq<Subnet>, widths: seq<nat>)
  {
    |widths| == |cidrs| && forall i | 0 <= i < |cidrs| && Serves(cidrs, i) :: V4Cidr(cidrs[i], widths[i])
  }

  ghost predicate Apart(cidrs: seq<Subnet>, widths: seq<nat>, i: nat, j: nat)
    requires i < |cidrs| == |widths| && j < |cidrs|
    requires V4Cidr(cidrs[i], widths[i]) && V4Cidr(cidrs[j], widths[j])
  {
    !Overlap(cidrs[i], cidrs[j]) && (KeepsWidth(cidrs[i], widths[i]) || KeepsWidth(cidrs[j], widths[j]))
  }

  /** No two serving networks overlap, and at most one of them loses its cursor's width. */
  ghost predicate Separate(cidrs: seq<Subnet>, widths: seq<nat>)
    requires ServingV4(cidrs, widths)
  {
    forall i: nat, j: nat | i < |cidrs| && j < |cidrs| && i != j && Serves(cidrs, i) && Serves(cidrs, j) ::
      Apart(cidrs, widths, i, j)
  }

  /** The translation table is one-to-one in every state of every run exactly when the serving networks are separate. */
  lemma {:induction false} TableIsOneToOneExactly(cidrs: seq<Subnet>, widths: seq<nat>)
    requires ServingV4(cidrs, widths)
    ensures TableIsOneToOne(cidrs) <==> Separate(cidrs, widths)
  {
    hide V4Cidr, Apart, ServedBy, Run, Initial, FirstMatch;
    if Separate(cidrs, widths) {
      forall ops: seq<Op>, k, l | k in Run(Initial(cidrs), ops).table && l in Run(Initial(cidrs), ops).table && k != l
        ensures Run(Initial(cidrs), ops).table[k] != Run(Initial(cidrs), ops).table[l]
      {
        SeparateKeepApart(cidrs, widths, ops, k, l);
      }
    } else {
      var i: nat, j: nat :| i < |cidrs| && j < |cidrs| && i != j && Serves(cidrs, i) && Serves(cidrs, j)
                            && !Apart(cidrs, widths, i, j);
      var t :| ServedBy(cidrs, i, t);
      var u :| ServedBy(cidrs, j, u);
      NotApartCollide(cidrs, widths, i, j, t, u);
      var ops: seq<Op>, k, l :| Collide(cidrs, i, j, ops, k, l);
      assert k != l;
    }
  }

  lemma {:induction false} NotApartCollide(
    cidrs: seq<Subnet>, widths: seq<nat>, i: nat, j: nat, t: IpText, u: IpText)
    requires i < |cidrs| && j < |cidrs| && i != j && |widths| == |cidrs|
    requires V4Cidr(cidrs[i], widths[i]) && V4Cidr(cidrs[j], widths[j]) && !Apart(cidrs, widths, i, j)
    requires ServedBy(cidrs, i, t) && ServedBy(cidrs, j, u)
    ensures CanCollide(cidrs, i, j)
  {
    hide V4Cidr, KeepsWidth, Overlap, ServedBy, CanCollide;
    CollisionsExactly(cidrs, i, widths[i], j, widths[j], t, u);
  }

  lemma {:induction false} SeparateKeepApart(cidrs: seq<Subnet>, widths: seq<nat>, ops: seq<Op>, k: IpText, l: IpText)
    requires ServingV4(cidrs, widths) && Separate(cidrs, widths)
    requires k in Run(Initial(cidrs), ops).table && l in Run(Initial(cidrs), ops).table && k != l
    ensures Run(Initial(cidrs), ops).table[k] != Run(Initial(cidrs), ops).table[l]
  {
    hide V4Cidr, KeepsWidth, Overlap, ServedBy, Run, FirstMatch, Step;
    InTableIsServed(cidrs, ops, k);
    InTableIsServed(cidrs, ops, l);
    var i, j := FirstMatch(cidrs, k.ip), FirstMatch(cidrs, l.ip);
    assert Serves(cidrs, i) && Serves(cidrs, j);
    assert i != j ==> Apart(cidrs, widths, i, j);
    if i == j {
      ReplacementsAreDistinct(cidrs, i, widths[i], ops, k, l);
    } else if Run(Initial(cidrs), ops).table[k] == Run(Initial(cidrs), ops).table[l] {
      CollisionNeedsOverlap(cidrs, i, widths[i], j, widths[j], ops, k, l);
    }
  }

  lemma {:induction false} InTableIsServed(cidrs: seq<Subnet>, ops: seq<Op>, t: IpText)
    requires t in Run(Initial(cidrs), ops).table
    ensures t.V4? && FirstMatch(cidrs, t.ip) < |cidrs| && ServedBy(cidrs, FirstMatch(cidrs, t.ip), t)
  {
    hide FirstMatch, Step, Run;
    assert Subnets(Initial(cidrs).networks) == cidrs;
    if !GetsReplacement(cidrs, t) {
      OnlyReplacedTextsEnterTheTable(Initial(cidrs), ops, t);
    }
  }

  // ---------- the replies, bases included ----------

  /** An address that is its own reply: the first network that matches it is based at it. */
  predicate FixedBase(cidrs: seq<Subnet>, t: IpText)
  {
    t.V4? && var i := FirstMatch(cidrs, t.ip); i < |cidrs| && IpEqual(cidrs[i].ip, t.ip)
  }

  /** The reply to the text is known for the rest of the epoch. */
  predicate Settled(cidrs: seq<Subnet>, ops: seq<Op>, t: IpText)
  {
    t in Run(Initial(cidrs), ops).table || FixedBase(cidrs, t)
  }

  function Reply(cidrs: seq<Subnet>, ops: seq<Op>, t: IpText): IpText { Obfuscate(Run(Initial(cidrs), ops), t).1 }

  ghost predicate RepliesAreOneToOne(cidrs: seq<Subnet>)
  {
    forall ops: seq<Op>, k, l | Settled(cidrs, ops, k) && Settled(cidrs, ops, l) && k != l ::
      Reply(cidrs, ops, k) != Reply(cidrs, ops, l)
  }

  /** The network can hand out the address. */
  ghost predicate CanHandOut(n: Subnet, h: nat, a: seq<Byte>)
    requires V4Cidr(n, h)
  {
    Contains(n, a) && (a == n.ip ==> KeepsWidth(n, h))
  }

  /** No serving network can hand out a fixed base. */
  ghost predicate BasesAreSpared(cidrs: seq<Subnet>, widths: seq<nat>)
    requires ServingV4(cidrs, widths)
  {
    forall i: nat, t: IpText | i < |cidrs| && Serves(cidrs, i) && FixedBase(cidrs, t) ::
      !CanHandOut(cidrs[i], widths[i], t.ip)
  }

  /**
    The replies to all addresses of an epoch, those at bases included, are one-to-one in every run exactly when the
    serving networks are separate and none of them can hand out a fixed base.
   */
  lemma {:induction false} RepliesAreOneToOneExactly(cidrs: seq<Subnet>, widths: seq<nat>)
    requires ServingV4(cidrs, widths)
    ensures RepliesAreOneToOne(cidrs) <==> Separate(cidrs, widths) && BasesAreSpared(cidrs, widths)
  {
    hide V4Cidr, Separate, CanHandOut, ServedBy, Run, Initial, FirstMatch, IpEqual, Obfuscate;
    TableIsOneToOneExactly(cidrs, widths);
    if Separate(cidrs, widths) && BasesAreSpared(cidrs, widths) {
      forall ops: seq<Op>, k, l | Settled(cidrs, ops, k) && Settled(cidrs, ops, l) && k != l
        ensures Reply(cidrs, ops, k) != Reply(cidrs, ops, l)
      {
        SparedRepliesDiffer(cidrs, widths, ops, k, l);
      }
    } else if !Separate(cidrs, widths) {
      var ops: seq<Op>, k, l :| k in Run(Initial(cidrs), ops).table && l in Run(Initial(cidrs), ops).table && k != l
                                && Run(Initial(cidrs), ops).table[k] == Run(Initial(cidrs), ops).table[l];
      RecordedReply(cidrs, ops, k);
      RecordedReply(cidrs, ops, l);
      assert Settled(cidrs, ops, k) && Settled(cidrs, ops, l);
    } else {
      var i: nat, t: IpText :| i < |cidrs| && Serves(cidrs, i) && FixedBase(cidrs, t)
                               && CanHandOut(cidrs[i], widths[i], t.ip);
      var u :| ServedBy(cidrs, i, u);
      var ops := BaseIsTaken(cidrs, i, widths[i], t, u);
      assert Settled(cidrs, ops, t) && Settled(cidrs, ops, u);
    }
  }

  /** So they are not as soon as one serving network keeps its cursor's width: in time it hands out its own base. */
  lemma {:induction false} WideNetworkRepeatsItsBase(cidrs: seq<Subnet>, widths: seq<nat>, i: nat)
    requires ServingV4(cidrs, widths) && i < |cidrs| && Serves(cidrs, i) && KeepsWidth(cidrs[i], widths[i])
    ensures !RepliesAreOneToOne(cidrs)
  {
    hide V4Cidr, KeepsWidth, RepliesAreOneToOne, Contains, IpEqual, Inside;
    RepliesAreOneToOneExactly(cidrs, widths);
    BaseInside(cidrs[i], widths[i]);
    BaseIsV4(cidrs[i], widths[i]);
    var b := V4(cidrs[i].ip);
    InsideIsContained(cidrs[i], widths[i], b.ip);
    var m := FirstMatch(cidrs, b.ip);
    if IpEqual(cidrs[m].ip, b.ip) {
      assert FixedBase(cidrs, b);
    } else {
      assert ServedBy(cidrs, m, b);
      assert Contains(cidrs[m], b.ip);
      assert m != i;
      assert !Apart(cidrs, widths, m, i);
    }
  }

  lemma {:induction false} BaseIsV4(n: Subnet, h: nat)
    requires V4Cidr(n, h)
    ensures |n.ip| == IPV4LEN && IpEqual(n.ip, n.ip)
  {}

  lemma {:induction false} RecordedReply(cidrs: seq<Subnet>, ops: seq<Op>, t: IpText)
    requires t in Run(Initial(cidrs), ops).table
    ensures Reply(cidrs, ops, t) == Run(Initial(cidrs), ops).table[t]
  {
    hide FirstMatch, NextAddress, Run, IpEqual;
    InTableIsServed(cidrs, ops, t);
  }

  lemma {:induction false} FixedBaseReply(cidrs: seq<Subnet>, ops: seq<Op>, t: IpText)
    requires FixedBase(cidrs, t)
    ensures Reply(cidrs, ops, t) == t && t !in Run(Initial(cidrs), ops).table
  {
    hide Obfuscate, Run, FirstMatch, IpEqual;
    FixedReplies(cidrs, ops, t);
    if t in Run(Initial(cidrs), ops).table {
      InTableIsServed(cidrs, ops, t);
    }
  }

  lemma {:induction false} SparedRepliesDiffer(
    cidrs: seq<Subnet>, widths: seq<nat>, ops: seq<Op>, k: IpText, l: IpText)
    requires ServingV4(cidrs, widths) && Separate(cidrs, widths) && BasesAreSpared(cidrs, widths)
    requires Settled(cidrs, ops, k) && Settled(cidrs, ops, l) && k != l
    ensures Reply(cidrs, ops, k) != Reply(cidrs, ops, l)
  {
    hide V4Cidr, Separate, BasesAreSpared, Run, Initial, FixedBase, Reply;
    if FixedBase(cidrs, k) {
      FixedBaseReply(cidrs, ops, k);
      if FixedBase(cidrs, l) {
        FixedBaseReply(cidrs, ops, l);
      } else {
        SparedBase(cidrs, widths, ops, l, k);
      }
    } else if FixedBase(cidrs, l) {
      FixedBaseReply(cidrs, ops, l);
      SparedBase(cidrs, widths, ops, k, l);
    } else {
      RecordedReply(cidrs, ops, k);
      RecordedReply(cidrs, ops, l);
      SeparateKeepApart(cidrs, widths, ops, k, l);
    }
  }

  /** A replacement is no fixed base. */
  lemma {:induction false} SparedBase(cidrs: seq<Subnet>, widths: seq<nat>, ops: seq<Op>, k: IpText, base: IpText)
    requires ServingV4(cidrs, widths) && BasesAreSpared(cidrs, widths)
    requires k in Run(Initial(cidrs), ops).table && FixedBase(cidrs, base)
    ensures Reply(cidrs, ops, k) != base
  {
    hide V4Cidr, KeepsWidth, Obfuscate, Run, Initial, FirstMatch, ServedBy, Contains, IpEqual, Inside;
    InTableIsServed(cidrs, ops, k);
    var i := FirstMatch(cidrs, k.ip);
    assert Serves(cidrs, i);
    assert !CanHandOut(cidrs[i], widths[i], base.ip);
    if Reply(cidrs, ops, k) == base {
      HandedOutExactly(cidrs, i, widths[i], k, base.ip);
      assert HandsOut(cidrs, i, V4(base.ip));
      InsideIsContained(cidrs[i], widths[i], base.ip);
    }
  }

  lemma {:induction false} InsideIsContained(n: Subnet, h: nat, a: V4Bytes)
    requires V4Cidr(n, h)
    ensures Inside(n, h, a) <==> Contains(n, a)
  {
    hide V4Cidr, Contains;
    ContainsIsSamePrefix(n, h, a);
  }

  /** A serving network that can hand out a fixed base does so in some epoch. */
  lemma {:induction false} BaseIsTaken(cidrs: seq<Subnet>, i: nat, h: nat, t: IpText, u: IpText)
    returns (ops: seq<Op>)
    requires i < |cidrs| && V4Cidr(cidrs[i], h) && ServedBy(cidrs, i, u)
    requires FixedBase(cidrs, t) && CanHandOut(cidrs[i], h, t.ip)
    ensures u in Run(Initial(cidrs), ops).table && u != t
    ensures Reply(cidrs, ops, u) == Reply(cidrs, ops, t)
  {
    hide V4Cidr, KeepsWidth, Obfuscate, Run, Initial, FirstMatch, Contains, IpEqual, Orbit, Inside, NextAddress;
    InsideIsContained(cidrs[i], h, t.ip);
    var j := ReplyOnOrbit(cidrs, i, h, [], u);
    var p := PositionOf(cidrs[i], h, t.ip);
    var before := ReachPosition(cidrs, i, u, p);
    ops := before + [Call(u)];
    var s := Run(Initial(cidrs), before);
    InitialSubnets(cidrs);
    NetworksAreFixed(Initial(cidrs), before);
    ReplyIsRecorded(s, u);
    RunConcat(Initial(cidrs), before, [Call(u)]);
    RunOne(s, Call(u));
    RecordedReply(cidrs, ops, u);
    FixedBaseReply(cidrs, ops, t);
  }

  lemma {:induction false} InitialSubnets(cidrs: seq<Subnet>)
    ensures Subnets(Initial(cidrs).networks) == cidrs
  {}
}
