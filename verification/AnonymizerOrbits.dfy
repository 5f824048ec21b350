/**
  The obfuscator's cursors: where a network's cursor goes, move by move.

  A cursor runs along a fixed orbit.  While the network's first byte is not zero the orbit is the cycle of the
  network's addresses; otherwise it leaves the network at the first overflow, and goes on as a 16-byte address
  until it would become an IPv4-mapped one.
 */
module AnonymizerOrbits {
  import opened Bits
  import opened Bytes
  import opened NextIp
  import opened Networks
  import opened Anonymizer

  // ---------- the cycle of a network's addresses ----------

  /** Steps of the cyclic successor that lead from v to c on the 2^h addresses of a network. */
  function Distance(h: nat, c: nat, v: nat): int
  {
    if v <= c then c - v else c - v + Pow2(h)
  }

  predicate InCycle(base: nat, h: nat, v: nat) { base <= v < base + Pow2(h) }

  lemma {:induction false} DistanceAfterStep(base: nat, h: nat, c: nat, v: nat)
    requires InCycle(base, h, c) && InCycle(base, h, v)
    ensures var c' := CyclicSuccessor(base, h, c);
            && InCycle(base, h, c')
            && Distance(h, c', v) == (if v == c' then 0 else Distance(h, c, v) + 1)
            && (v == c' <==> Distance(h, c, v) == Pow2(h) - 1)
  {}

  /**
    A network whose cursor never loses a byte: its first byte is not zero, or it cannot overflow, or it serves
    nobody.
   */
  predicate KeepsWidth(n: Subnet, h: nat)
    requires |n.ip| == IPV4LEN
  {
    n.ip[0] != 0 || h == 0 || h == 32
  }

  ghost predicate Inside(n: Subnet, h: nat, ip: seq<Byte>)
  {
    |ip| == IPV4LEN && High(Value(ip), h) == Value(n.ip)
  }

  lemma {:induction false} InsideIsInCycle(n: Subnet, h: nat, ip: seq<Byte>)
    requires V4Cidr(n, h) && |ip| == IPV4LEN
    ensures Inside(n, h, ip) <==> InCycle(Value(n.ip), h, Value(ip))
    ensures Inside(n, h, ip) <==> Matches(n, ip)
  {
    hide CidrMask;
    ContainsIsSamePrefix(n, h, ip);
    HighLow(Value(ip), h);
    if InCycle(Value(n.ip), h, Value(ip)) {
      HighOfBase(Value(n.ip), Value(ip) - Value(n.ip), h);
    }
  }

  lemma {:induction false} HighOfBase(base: nat, r: nat, h: nat)
    requires High(base, h) == base && r < Pow2(h)
    ensures High(base + r, h) == base
  {
    if h > 0 {
      assert (base + r) / 2 == base / 2 + r / 2;
      HighOfBase(base / 2, r / 2, h - 1);
    }
  }

  lemma {:induction false} FirstByteZero(ip: seq<Byte>)
    requires |ip| == 4
    ensures ip[0] != 0 <==> Value(ip) >= Pow2(24)
  {
    FirstByteDecides(ip, 1);
    FirstByteDecides(ip, 2);
    FirstByteDecides(ip, 3);
    FirstByteDecides(ip, 4);
    assert ip[..4] == ip;
  }

  lemma {:induction false} FirstByteDecides(ip: seq<Byte>, n: nat)
    requires 0 < n <= |ip|
    requires n > 1 ==> (ip[0] != 0 <==> Value(ip[..n - 1]) >= Pow2(8 * (n - 2)))
    ensures ip[0] != 0 <==> Value(ip[..n]) >= Pow2(8 * (n - 1))
  {
    assert ip[..n] == ip[..n - 1] + [ip[n - 1]];
    ValueSnoc(ip[..n - 1], ip[n - 1]);
    if n > 1 {
      Pow2Byte(8 * (n - 2));
    }
  }

  /** One move of a cursor: it goes to the next address of its network's cycle, and keeps its width. */
  lemma {:induction false} CursorStep(n: Subnet, h: nat, c: seq<Byte>)
    requires V4Cidr(n, h) && Inside(n, h, c)
    ensures var next := NextAddress(c, n.mask).0;
            && Value(next) == CyclicSuccessor(Value(n.ip), h, Value(c))
            && |next| <= 4
            && (|next| == 4 <==> h == 32 || Value(c) != Value(n.ip) + Pow2(h) - 1 || n.ip[0] != 0)
            && (|next| == 4 ==> Inside(n, h, next) && Print(next) == V4(next))
  {
    hide NextOf, CidrMask, BigBytes;
    assert LastN(c, 4) == c;
    NextAddressIsCyclicSuccessor(c, h);
    FirstByteZero(n.ip);
    InsideIsInCycle(n, h, c);
    HighLow(Value(c), h);
    var next := NextAddress(c, n.mask).0;
    assert |next| == 4 ==> Inside(n, h, next) by {
      if |next| == 4 {
        DistanceAfterStep(Value(n.ip), h, Value(c), Value(c));
        InsideIsInCycle(n, h, next);
      }
    }
  }

  lemma {:induction false} WideCursorStep(n: Subnet, h: nat, c: seq<Byte>)
    requires V4Cidr(n, h) && Inside(n, h, c) && KeepsWidth(n, h) && h > 0
    ensures var next := NextAddress(c, n.mask).0;
            && Value(next) == CyclicSuccessor(Value(n.ip), h, Value(c))
            && Inside(n, h, next) && Print(next) == V4(next)
  {
    hide V4Cidr, Inside, NextAddress;
    CursorStep(n, h, c);
  }

  // ---------- orbits ----------

  function Orbit(n: Subnet, k: nat): seq<Byte>
  {
    if k == 0 then n.ip else NextAddress(Orbit(n, k - 1), n.mask).0
  }

  // ---------- the orbit stays in the network ----------

  lemma {:induction false} WideOrbit(n: Subnet, h: nat, k: nat)
    requires V4Cidr(n, h) && KeepsWidth(n, h) && h > 0
    ensures Inside(n, h, Orbit(n, k))
    ensures k > 0 ==> Value(Orbit(n, k)) == CyclicSuccessor(Value(n.ip), h, Value(Orbit(n, k - 1)))
  {
    hide V4Cidr, KeepsWidth, Inside, NextAddress;
    if k == 0 {
      BaseInside(n, h);
    } else {
      WideOrbit(n, h, k - 1);
      WideCursorStep(n, h, Orbit(n, k - 1));
    }
  }

  lemma {:induction false} BaseInside(n: Subnet, h: nat)
    requires V4Cidr(n, h)
    ensures Inside(n, h, n.ip)
  {}

  /** Before the first overflow every orbit counts up from the base. */
  lemma {:induction false} EarlyOrbit(n: Subnet, h: nat, k: nat)
    requires V4Cidr(n, h) && k < Pow2(h)
    ensures Inside(n, h, Orbit(n, k)) && Value(Orbit(n, k)) == Value(n.ip) + k
  {
    hide V4Cidr, Inside, NextAddress, Pow2;
    if k == 0 {
      BaseInside(n, h);
    } else {
      EarlyOrbit(n, h, k - 1);
      CursorStep(n, h, Orbit(n, k - 1));
    }
  }

  /** After 2^h moves a cursor that keeps its width is back at the base. */
  lemma {:induction false} BackToBase(n: Subnet, h: nat)
    requires V4Cidr(n, h) && KeepsWidth(n, h) && h > 0
    ensures Orbit(n, Pow2(h)) == n.ip
  {
    hide V4Cidr, KeepsWidth, NextAddress, Orbit, Pow2, High, Value;
    BaseInside(n, h);
    EarlyOrbit(n, h, Pow2(h) - 1);
    WideOrbit(n, h, Pow2(h));
    ValueInjective(Orbit(n, Pow2(h)), n.ip);
  }

  /** Where on the orbit an address of the network is met, after the start. */
  lemma {:induction false} PositionOf(n: Subnet, h: nat, a: seq<Byte>) returns (p: nat)
    requires V4Cidr(n, h) && h > 0 && Inside(n, h, a)
    requires a == n.ip ==> KeepsWidth(n, h)
    ensures Orbit(n, p + 1) == a
  {
    hide V4Cidr, KeepsWidth, NextAddress, Orbit, Pow2, High, Value;
    BaseInside(n, h);
    if a == n.ip {
      BackToBase(n, h);
      p := Pow2(h) - 1;
    } else {
      InsideIsInCycle(n, h, a);
      if Value(a) == Value(n.ip) {
        ValueInjective(a, n.ip);
      }
      p := Value(a) - Value(n.ip) - 1;
      EarlyOrbit(n, h, p + 1);
      ValueInjective(Orbit(n, p + 1), a);
    }
  }

  lemma {:induction false} WideAhead(n: Subnet, h: nat, i: nat, d: nat)
    requires V4Cidr(n, h) && KeepsWidth(n, h) && h > 0 && d < Pow2(h)
    ensures Distance(h, Value(Orbit(n, i + d)), Value(Orbit(n, i))) == d
  {
    hide V4Cidr, KeepsWidth, NextAddress, Orbit, Pow2, High;
    if d > 0 {
      WideAhead(n, h, i, d - 1);
      WideOrbit(n, h, i);
      WideOrbit(n, h, i + d - 1);
      WideOrbit(n, h, i + d);
      InsideIsInCycle(n, h, Orbit(n, i));
      InsideIsInCycle(n, h, Orbit(n, i + d - 1));
      DistanceAfterStep(Value(n.ip), h, Value(Orbit(n, i + d - 1)), Value(Orbit(n, i)));
    }
  }

  // ---------- the orbit leaves the network ----------

  /** The first value of the IPv4-mapped addresses, 0xffff * 2^32. */
  const MAPPED: nat := 0xffff_0000_0000

  /** A cursor that has left: too short for an address, or an IPv6 address below the IPv4-mapped ones. */
  predicate Outside(c: seq<Byte>) { (|c| < IPV4LEN || |c| == IPV6LEN) && Value(c) < MAPPED }

  ghost predicate OnOrbit(n: Subnet, h: nat, c: seq<Byte>) { Inside(n, h, c) || Outside(c) }

  /** The place of a cursor: first the network's addresses, then the values outside. */
  function Place(n: Subnet, h: nat, c: seq<Byte>): int
  {
    if |c| == IPV4LEN then Value(c) - Value(n.ip) else Pow2(h) + Value(c)
  }

  /** The place d steps on, for d up to the size of the network. */
  function Onward(base: nat, size: nat, place: nat, d: nat): nat
  {
    if place >= size then if place - size + d < MAPPED then place + d else place + d - MAPPED
    else if place + d < size then place + d else base + place + d
  }

  lemma {:induction false} Mapped(ip: seq<Byte>)
    requires |ip| == IPV6LEN
    ensures ip[..12] == V4_IN_V6_PREFIX <==> MAPPED <= Value(ip) < MAPPED + 0x1_0000_0000
    ensures Value(ip) == MAPPED ==> ip[12..] == [0, 0, 0, 0]
  {
    var front, back := ip[..12], ip[12..];
    FourMore(front, back);
    assert ip == front + back;
    FourMore([], back);
    assert [] + back == back;
    PrefixValue();
    if Value(front) == 0xffff {
      ValueInjective(front, V4_IN_V6_PREFIX);
    }
    if Value(back) == 0 {
      FourMore([], [0, 0, 0, 0]);
      assert [] + [0, 0, 0, 0] == [0, 0, 0, 0];
      ValueInjective(back, [0, 0, 0, 0]);
    }
  }

  lemma {:induction false} PrefixValue()
    ensures Value(V4_IN_V6_PREFIX) == 0xffff
  {
    FourMore([], [0, 0, 0, 0]);
    FourMore([0, 0, 0, 0], [0, 0, 0, 0]);
    FourMore([0, 0, 0, 0, 0, 0, 0, 0], [0, 0, 0xff, 0xff]);
    assert [] + [0, 0, 0, 0] == [0, 0, 0, 0];
    assert [0, 0, 0, 0] + [0, 0, 0, 0] == [0, 0, 0, 0, 0, 0, 0, 0];
    assert V4_IN_V6_PREFIX == [0, 0, 0, 0, 0, 0, 0, 0] + [0, 0, 0xff, 0xff];
  }

  lemma {:induction false} MappedFits()
    ensures MAPPED + 0x1_0000_0000 <= Pow2(128)
    ensures Pow2(24) == 0x100_0000 && Pow2(31) == 0x8000_0000
  {
    SmallPowers();
    hide Pow2;
    Pow2Byte(32);
    Pow2Byte(40);
    Pow2Monotone(48, 128);
  }

  /** Outside, the cursor counts up, and starts again from nothing when it would become IPv4-mapped. */
  lemma {:induction false} OutsideStep(c: seq<Byte>, mask: seq<Byte>)
    requires Outside(c) && |mask| == IPV4LEN
    ensures var next := NextAddress(c, mask).0;
            && Outside(next)
            && Value(next) == (if Value(c) + 1 < MAPPED then Value(c) + 1 else 0)
            && (Value(c) + 1 < MAPPED ==> |next| == IPV6LEN)
  {
    hide Value, BigBytes, LastN, Pow2, Low, High, BitOr, AndBytes, Inverted, AllOnes;
    var ip := LastN(c, IPV6LEN);
    var next := LastN(BigBytes(Value(ip) + 1), IPV6LEN);
    SixteenBytes(c);
    Mapped(ip);
    Mapped(next);
    Unmapped(ip, mask);
    if Value(c) + 1 < MAPPED {
      Unmapped(next, mask);
    } else {
      MappedZero(next, mask);
      NothingLeft();
    }
  }

  lemma {:induction false} SixteenBytes(c: seq<Byte>)
    requires Outside(c)
    ensures AddressLength(c) == IPV6LEN
    ensures var ip := LastN(c, IPV6LEN);
            Value(ip) == Value(c) && Value(LastN(BigBytes(Value(ip) + 1), IPV6LEN)) == Value(c) + 1
  {
    hide Value, BigBytes, LastN, Pow2;
    MappedFits();
    if |c| == IPV6LEN {
      Mapped(c);
    }
    LastNValue(c, IPV6LEN);
    LowSmall(Value(c), 128);
    SuccessorValue(Value(c), IPV6LEN);
    LowSmall(Value(c) + 1, 128);
  }

  /** A mask of four bytes masks no IPv6 address, and an IPv4-mapped one as the IPv4 address. */
  lemma {:induction false} Unmapped(ip: seq<Byte>, mask: seq<Byte>)
    requires |ip| == IPV6LEN && |mask| == IPV4LEN && ip[..12] != V4_IN_V6_PREFIX
    ensures MaskIp(ip, mask) == []
  {}

  lemma {:induction false} MappedZero(ip: seq<Byte>, mask: seq<Byte>)
    requires |ip| == IPV6LEN && |mask| == IPV4LEN && ip[..12] == V4_IN_V6_PREFIX && ip[12..] == [0, 0, 0, 0]
    ensures MaskIp(ip, mask) == [0, 0, 0, 0] == MaskIp(ip, Inverted(mask))
  {
    ZeroMasked(mask);
    ZeroMasked(Inverted(mask));
  }

  lemma {:induction false} ZeroMasked(mask: seq<Byte>)
    requires |mask| == 4
    ensures AndBytes([0, 0, 0, 0], mask) == [0, 0, 0, 0]
  {}

  lemma {:induction false} NothingLeft()
    ensures Value([]) == 0 && BigBytes(BitOr(Value([]), Value([0, 0, 0, 0]))) == []
  {
    FourMore([], [0, 0, 0, 0]);
    assert [] + [0, 0, 0, 0] == [0, 0, 0, 0];
  }

  /** One step of the orbit of a network whose first byte is zero. */
  lemma {:induction false} NarrowStep(n: Subnet, h: nat, c: seq<Byte>)
    requires V4Cidr(n, h) && !KeepsWidth(n, h) && OnOrbit(n, h, c)
    ensures var next := NextAddress(c, n.mask).0;
            && OnOrbit(n, h, next)
            && Place(n, h, c) >= 0
            && Place(n, h, next) == Onward(Value(n.ip), Pow2(h), Place(n, h, c), 1)
  {
    hide NextAddress, CidrMask;
    FirstByteZero(n.ip);
    MappedFits();
    if Inside(n, h, c) {
      CursorStep(n, h, c);
      InsideIsInCycle(n, h, c);
    } else {
      OutsideStep(c, n.mask);
    }
  }

  lemma {:induction false} NarrowOrbit(n: Subnet, h: nat, k: nat)
    requires V4Cidr(n, h) && !KeepsWidth(n, h)
    ensures OnOrbit(n, h, Orbit(n, k)) && Place(n, h, Orbit(n, k)) >= 0
  {
    hide V4Cidr, KeepsWidth, Inside, NextAddress, Outside, Place;
    if k == 0 {
      BaseInside(n, h);
    } else {
      NarrowOrbit(n, h, k - 1);
      NarrowStep(n, h, Orbit(n, k - 1));
    }
    OrbitPlace(n, h, Orbit(n, k));
  }

  /** After 2^h moves the orbit has left, and counts up from the base again. */
  lemma {:induction false} OutsideOrbit(n: Subnet, h: nat, e: nat)
    requires V4Cidr(n, h) && !KeepsWidth(n, h) && Value(n.ip) + e < MAPPED
    ensures var c := Orbit(n, Pow2(h) + e);
            Outside(c) && Value(c) == Value(n.ip) + e && (e > 0 ==> |c| == IPV6LEN)
  {
    hide V4Cidr, KeepsWidth, Inside, NextAddress, Outside, Pow2;
    var c := Orbit(n, Pow2(h) + e - 1);
    BaseInside(n, h);
    MaskBytes(n, h);
    if e == 0 {
      EarlyOrbit(n, h, Pow2(h) - 1);
      LeavesAtTheEnd(n, h, c);
    } else {
      OutsideOrbit(n, h, e - 1);
      OutsideStep(c, n.mask);
    }
  }

  /** It never comes back. */
  lemma {:induction false} StaysOutside(n: Subnet, h: nat, e: nat)
    requires V4Cidr(n, h) && !KeepsWidth(n, h)
    ensures Outside(Orbit(n, Pow2(h) + e))
  {
    hide V4Cidr, KeepsWidth, NextAddress, Outside, Pow2;
    MaskBytes(n, h);
    if e == 0 {
      SmallNetwork(n, h);
      OutsideOrbit(n, h, 0);
    } else {
      StaysOutside(n, h, e - 1);
      OutsideStep(Orbit(n, Pow2(h) + e - 1), n.mask);
    }
  }

  /** So it meets the network's addresses other than the base, and no others. */
  lemma {:induction false} NarrowMeets(n: Subnet, h: nat, p: nat)
    requires V4Cidr(n, h) && !KeepsWidth(n, h) && p > 0
    ensures Orbit(n, p) != n.ip && (Inside(n, h, Orbit(n, p)) || Outside(Orbit(n, p)))
  {
    hide V4Cidr, KeepsWidth, NextAddress, Orbit, Pow2, High, Value;
    BaseInside(n, h);
    if p < Pow2(h) {
      EarlyOrbit(n, h, p);
    } else {
      StaysOutside(n, h, p - Pow2(h));
    }
  }

  lemma {:induction false} OutsidePrint(c: seq<Byte>)
    requires Outside(c)
    ensures Print(c) == Odd(c)
  {
    if |c| == IPV6LEN {
      Mapped(c);
    }
  }

  lemma {:induction false} MaskBytes(n: Subnet, h: nat)
    requires V4Cidr(n, h)
    ensures |n.mask| == IPV4LEN
  {}

  lemma {:induction false} LeavesAtTheEnd(n: Subnet, h: nat, c: seq<Byte>)
    requires V4Cidr(n, h) && !KeepsWidth(n, h) && Inside(n, h, c) && Value(c) == Value(n.ip) + Pow2(h) - 1
    ensures var next := NextAddress(c, n.mask).0; Outside(next) && Value(next) == Value(n.ip)
  {
    hide NextAddress, CidrMask;
    CursorStep(n, h, c);
    SmallNetwork(n, h);
  }

  lemma {:induction false} OrbitPlace(n: Subnet, h: nat, c: seq<Byte>)
    requires V4Cidr(n, h) && OnOrbit(n, h, c)
    ensures Place(n, h, c) >= 0
    ensures |c| != IPV4LEN ==> Pow2(h) <= Place(n, h, c) < Pow2(h) + MAPPED
  {
    if |c| == IPV4LEN {
      InsideIsInCycle(n, h, c);
    }
  }

  lemma {:induction false} SmallNetwork(n: Subnet, h: nat)
    requires V4Cidr(n, h) && !KeepsWidth(n, h)
    ensures Value(n.ip) < 0x100_0000 && Pow2(h) <= 0x8000_0000
  {
    FirstByteZero(n.ip);
    MappedFits();
    Pow2Monotone(h, 31);
  }

  lemma {:induction false} NarrowAhead(n: Subnet, h: nat, i: nat, d: nat)
    requires V4Cidr(n, h) && !KeepsWidth(n, h) && d < Pow2(h)
    ensures Place(n, h, Orbit(n, i)) >= 0
    ensures Place(n, h, Orbit(n, i + d)) == Onward(Value(n.ip), Pow2(h), Place(n, h, Orbit(n, i)), d)
  {
    hide V4Cidr, KeepsWidth, Inside, NextAddress, Outside, Place, Pow2, OnOrbit, CidrMask;
    NarrowOrbit(n, h, i);
    OrbitPlace(n, h, Orbit(n, i));
    SmallNetwork(n, h);
    if d > 0 {
      NarrowAhead(n, h, i, d - 1);
      NarrowOrbit(n, h, i + d - 1);
      NarrowStep(n, h, Orbit(n, i + d - 1));
      PlaceBound(n, h, Orbit(n, i));
      OnwardMore(Value(n.ip), Pow2(h), Place(n, h, Orbit(n, i)), d);
    } else {
      OnwardNowhere(n, h, Orbit(n, i));
    }
  }

  lemma {:induction false} PlaceBound(n: Subnet, h: nat, c: seq<Byte>)
    requires V4Cidr(n, h) && OnOrbit(n, h, c)
    ensures Place(n, h, c) < Pow2(h) + MAPPED
  {
    OrbitPlace(n, h, c);
    if |c| == IPV4LEN {
      InsideIsInCycle(n, h, c);
    }
  }

  lemma {:induction false} OnwardMore(base: nat, size: nat, place: nat, d: nat)
    requires base < 0x100_0000 && size <= 0x8000_0000 && place < size + MAPPED && 0 < d < size
    ensures Onward(base, size, Onward(base, size, place, d - 1), 1) == Onward(base, size, place, d)
  {}

  lemma {:induction false} OnwardNowhere(n: Subnet, h: nat, c: seq<Byte>)
    requires V4Cidr(n, h) && OnOrbit(n, h, c) && Place(n, h, c) >= 0
    ensures Onward(Value(n.ip), Pow2(h), Place(n, h, c), 0) == Place(n, h, c)
  {
    OrbitPlace(n, h, c);
    if |c| == IPV4LEN {
      InsideIsInCycle(n, h, c);
    }
  }

  // ---------- fewer than 2^h steps never repeat a text ----------

  lemma {:induction false} PrintTells(n: Subnet, h: nat, a: seq<Byte>, b: seq<Byte>)
    requires OnOrbit(n, h, a) && OnOrbit(n, h, b) && Print(a) == Print(b)
    ensures a == b
  {
    if |a| == IPV6LEN {
      Mapped(a);
    }
    if |b| == IPV6LEN {
      Mapped(b);
    }
  }

  lemma {:induction false} OrbitDoesNotRepeat(n: Subnet, h: nat, i: nat, d: nat)
    requires V4Cidr(n, h) && 0 < d < Pow2(h)
    ensures Print(Orbit(n, i + d)) != Print(Orbit(n, i))
  {
    hide V4Cidr, KeepsWidth, NextAddress, Outside, Print, Orbit, OnOrbit, High;
    BaseInside(n, h);
    if KeepsWidth(n, h) {
      NeedsHostBits(h, d);
      WideAhead(n, h, i, d);
      WideOrbit(n, h, i);
      WideOrbit(n, h, i + d);
      InsideIsOnOrbit(n, h, Orbit(n, i));
      InsideIsOnOrbit(n, h, Orbit(n, i + d));
    } else {
      NarrowAhead(n, h, i, d);
      NarrowOrbit(n, h, i);
      NarrowOrbit(n, h, i + d);
      SmallNetwork(n, h);
    }
    if Print(Orbit(n, i + d)) == Print(Orbit(n, i)) {
      PrintTells(n, h, Orbit(n, i + d), Orbit(n, i));
    }
  }

  lemma {:induction false} NeedsHostBits(h: nat, d: nat)
    requires 0 < d < Pow2(h)
    ensures h > 0
  {}

  lemma {:induction false} InsideIsOnOrbit(n: Subnet, h: nat, c: seq<Byte>)
    requires Inside(n, h, c)
    ensures OnOrbit(n, h, c)
  {}
}
