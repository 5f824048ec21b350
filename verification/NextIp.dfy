/**
  pkg/anonymization/network_anonymizer.go: getNextIP, over byte slices, and
  pkg/utils/slices.go: TakeLastNItemsFromByteArray.

  Addresses and masks are byte slices, as in package net; the functions IpTo4, MaskIp and IpEqual
  are net.IP's To4, Mask and Equal.  The value of an address is its big-endian number.
 */
module NextIp {
  import opened Bits
  import opened Bytes
  import opened Options

  const IPV4LEN: nat := 4
  const IPV6LEN: nat := 16
  const V4_IN_V6_PREFIX: seq<Byte> := [0, 0, 0, 0, 0, 0, 0, 0, 0, 0, 0xff, 0xff]

  // ---------- big-endian values ----------

  function Value(s: seq<Byte>): (v: nat)
  {
    if s == [] then 0 else Value(s[..|s| - 1]) * 256 + s[|s| - 1]
  }

  /** big.Int.Bytes: the shortest big-endian form, without leading zeros. */
  function BigBytes(n: nat): (s: seq<Byte>)
  {
    if n == 0 then [] else BigBytes(n / 256) + [n % 256]
  }

  lemma {:induction false} ValueBound(s: seq<Byte>)
    ensures Value(s) < Pow2(8 * |s|)
  {
    if s != [] {
      ValueBound(s[..|s| - 1]);
      Pow2Byte(8 * (|s| - 1));
    }
  }

  lemma {:induction false} ValueBigBytes(n: nat)
    ensures Value(BigBytes(n)) == n
  {
    if n > 0 {
      ValueBigBytes(n / 256);
      var s := BigBytes(n);
      assert s[..|s| - 1] == BigBytes(n / 256);
    }
  }

  /** A number needs at most k bytes exactly when it is below 256^k. */
  lemma {:induction false} BigBytesLength(n: nat, k: nat)
    ensures |BigBytes(n)| <= k <==> n < Pow2(8 * k)
  {
    if n == 0 {
    } else if k == 0 {
    } else {
      BigBytesLength(n / 256, k - 1);
      Pow2Byte(8 * (k - 1));
    }
  }

  lemma {:induction false} ValueInjective(s: seq<Byte>, t: seq<Byte>)
    requires |s| == |t| && Value(s) == Value(t)
    ensures s == t
  {
    if s != [] {
      var n := |s| - 1;
      assert s[n] == t[n];
      ValueInjective(s[..n], t[..n]);
      assert s == s[..n] + [s[n]];
      assert t == t[..n] + [t[n]];
    }
  }

  lemma {:induction false} ValueLeadingZero(s: seq<Byte>)
    ensures Value([0] + s) == Value(s)
  {
    var z := [0] + s;
    if s == [] {
      assert z[..|z| - 1] == [];
    } else {
      ValueLeadingZero(s[..|s| - 1]);
      assert z[..|z| - 1] == [0] + s[..|s| - 1];
    }
  }

  // ---------- TakeLastNItemsFromByteArray ----------

  /** The last n bytes, or the bytes behind enough leading zeros. */
  function LastN(bytes: seq<Byte>, n: nat): (r: seq<Byte>)
    ensures |r| == n
  {
    if |bytes| > n then bytes[|bytes| - n..] else seq(n - |bytes|, _ => 0) + bytes
  }

  method TakeLastNItemsFromByteArray(bytes: seq<Byte>, desiredLength: nat) returns (r: seq<Byte>)
    ensures |r| == desiredLength
    ensures r == LastN(bytes, desiredLength)
    ensures Value(r) == Low(Value(bytes), 8 * desiredLength)
  {
    r := bytes;
    if |r| > desiredLength {
      r := r[|r| - desiredLength..];
    } else {
      while |r| < desiredLength
        invariant |bytes| <= |r| <= desiredLength
        invariant r == seq(|r| - |bytes|, _ => 0) + bytes
      {
        r := [0] + r;
      }
    }
    LastNValue(bytes, desiredLength);
  }

  lemma {:induction false} LastNValue(bytes: seq<Byte>, n: nat)
    ensures Value(LastN(bytes, n)) == Low(Value(bytes), 8 * n)
  {
    if |bytes| > n {
      SuffixValue(bytes, n);
    } else {
      PaddedValue(bytes, n - |bytes|);
      ValueBound(bytes);
      Pow2Monotone(8 * |bytes|, 8 * n);
      LowSmall(Value(bytes), 8 * n);
    }
  }

  lemma {:induction false} SuffixValue(s: seq<Byte>, n: nat)
    requires n <= |s|
    ensures Value(s[|s| - n..]) == Low(Value(s), 8 * n)
  {
    if n > 0 {
      var init, last := s[..|s| - 1], s[|s| - 1];
      var t := s[|s| - n..];
      SuffixValue(init, n - 1);
      assert t[..|t| - 1] == init[|init| - (n - 1)..];
      HighByte(Value(init), last, 8 * n);
      HighLow(Value(s), 8 * n);
      HighLow(Value(init), 8 * (n - 1));
    }
  }

  lemma {:induction false} PaddedValue(s: seq<Byte>, zeros: nat)
    ensures Value(seq(zeros, _ => 0) + s) == Value(s)
  {
    if zeros == 0 {
      assert seq(zeros, _ => 0) + s == s;
    } else {
      PaddedValue(s, zeros - 1);
      var rest := seq(zeros - 1, _ => 0) + s;
      assert seq(zeros, _ => 0) + s == [0] + rest;
      ValueLeadingZero(rest);
    }
  }

  // ---------- net.IP ----------

  function IpTo4(ip: seq<Byte>): Option<seq<Byte>>
  {
    if |ip| == IPV4LEN then Some(ip)
    else if |ip| == IPV6LEN && ip[..12] == V4_IN_V6_PREFIX then Some(ip[12..])
    else None
  }

  predicate AllOnes(mask: seq<Byte>) { forall i | 0 <= i < |mask| :: mask[i] == 0xff }

  function ByteAnd(x: Byte, y: Byte): Byte
  {
    AndBound(x, y);
    BitAnd(x, y)
  }

  function ByteXor(x: Byte, y: Byte): Byte
  {
    Pow2Byte(0);
    XorBound(x, y, 8);
    BitXor(x, y)
  }

  function AndBytes(ip: seq<Byte>, mask: seq<Byte>): (r: seq<Byte>)
    requires |ip| == |mask|
    ensures |r| == |ip|
  {
    seq(|ip|, i requires 0 <= i < |ip| => ByteAnd(ip[i], mask[i]))
  }

  /** net.IP.Mask; the empty slice stands for nil. */
  function MaskIp(ip: seq<Byte>, mask: seq<Byte>): seq<Byte>
  {
    var m := if |mask| == IPV6LEN && |ip| == IPV4LEN && AllOnes(mask[..12]) then mask[12..] else mask;
    var a := if |m| == IPV4LEN && |ip| == IPV6LEN && ip[..12] == V4_IN_V6_PREFIX then ip[12..] else ip;
    if |a| != |m| then [] else AndBytes(a, m)
  }

  predicate IpEqual(a: seq<Byte>, b: seq<Byte>)
  {
    if |a| == |b| then a == b
    else if |a| == IPV4LEN && |b| == IPV6LEN then b[..12] == V4_IN_V6_PREFIX && a == b[12..]
    else if |a| == IPV6LEN && |b| == IPV4LEN then a[..12] == V4_IN_V6_PREFIX && b == a[12..]
    else false
  }

  function Inverted(mask: seq<Byte>): (r: seq<Byte>)
    ensures |r| == |mask|
  {
    seq(|mask|, i requires 0 <= i < |mask| => ByteXor(mask[i], 255))
  }

  // ---------- CIDR masks (section 3.1 of RFC 4632) ----------

  /** The mask of n bytes whose last h bits are zero and all others one. */
  function CidrMask(n: nat, h: nat): (m: seq<Byte>)
    requires h <= 8 * n
    ensures |m| == n
  {
    if n == 0 then []
    else if h <= 8 then CidrMask(n - 1, 0) + [PartialByte(h)]
    else CidrMask(n - 1, h - 8) + [0]
  }

  function PartialByte(h: nat): Byte
    requires h <= 8
  {
    Pow2Byte(0);
    Pow2Monotone(h, 8);
    256 - Pow2(h)
  }

  lemma {:induction false} ByteMask(b: Byte, h: nat)
    requires h <= 8
    ensures ByteAnd(b, PartialByte(h)) == High(b, h)
    ensures ByteAnd(b, ByteXor(PartialByte(h), 255)) == Low(b, h)
  {
    Pow2Byte(0);
    Pow2Monotone(h, 8);
    AndHigh(b, 8, h);
    XorOnes(PartialByte(h), 8);
    AndLow(b, h);
  }

  lemma {:induction false} ValueSnoc(s: seq<Byte>, b: Byte)
    ensures Value(s + [b]) == Value(s) * 256 + b
  {
    assert (s + [b])[..|s|] == s;
  }

  /** The value of four more bytes. */
  lemma {:induction false} FourMore(front: seq<Byte>, b: seq<Byte>)
    requires |b| == 4
    ensures Value(front + b)
            == Value(front) * 0x1_0000_0000
               + (b[0] as int) * 0x100_0000 + (b[1] as int) * 0x1_0000 + (b[2] as int) * 0x100 + b[3]
  {
    hide Value;
    ValueSnoc(front, b[0]);
    ValueSnoc(front + [b[0]], b[1]);
    ValueSnoc(front + [b[0]] + [b[1]], b[2]);
    ValueSnoc(front + [b[0]] + [b[1]] + [b[2]], b[3]);
    assert front + b == front + [b[0]] + [b[1]] + [b[2]] + [b[3]];
  }

  lemma {:induction false} MaskSnoc(s: seq<Byte>, b: Byte, mask: seq<Byte>, m: Byte)
    requires |s| == |mask|
    ensures Value(AndBytes(s + [b], mask + [m])) == Value(AndBytes(s, mask)) * 256 + ByteAnd(b, m)
    ensures Inverted(mask + [m]) == Inverted(mask) + [ByteXor(m, 255)]
  {
    assert AndBytes(s + [b], mask + [m]) == AndBytes(s, mask) + [ByteAnd(b, m)];
    ValueSnoc(AndBytes(s, mask), ByteAnd(b, m));
  }

  lemma {:induction false} CidrMaskSnoc(n: nat, h: nat)
    requires h <= 8 * (n + 1)
    ensures CidrMask(n + 1, h) == CidrMask(n, if h <= 8 then 0 else h - 8) + [PartialByte(if h <= 8 then h else 8)]
  {
    Pow2Byte(0);
  }

  /** Masking keeps the network part of the value; the inverted mask keeps the host part. */
  lemma {:induction false} MaskValue(ip: seq<Byte>, h: nat)
    requires h <= 8 * |ip|
    ensures Value(AndBytes(ip, CidrMask(|ip|, h))) == High(Value(ip), h)
    ensures Value(AndBytes(ip, Inverted(CidrMask(|ip|, h)))) == Low(Value(ip), h)
  {
    hide High, Low, Pow2, BitAnd, BitXor, ByteAnd, ByteXor, PartialByte;
    if ip == [] {
      HighLowByte(0, 0, 0);
    } else {
      var n := |ip| - 1;
      var init, b := ip[..n], ip[n];
      var g, k := if h <= 8 then 0 else h - 8, if h <= 8 then h else 8;
      var mask, m := CidrMask(n, g), PartialByte(k);
      assert ip == init + [b];
      MaskValue(init, g);
      CidrMaskSnoc(n, h);
      MaskSnoc(init, b, mask, m);
      MaskSnoc(init, b, Inverted(mask), ByteXor(m, 255));
      ByteMask(b, k);
      HighLowByte(Value(init), b, h);
    }
  }

  lemma {:induction false} HighLowByte(v: nat, b: Byte, h: nat)
    ensures h <= 8 ==> High(v * 256 + b, h) == v * 256 + High(b, h) && Low(v * 256 + b, h) == Low(b, h)
    ensures h >= 8 ==> High(v * 256 + b, h) == 256 * High(v, h - 8) && Low(v * 256 + b, h) == 256 * Low(v, h - 8) + b
    ensures High(v, 0) == v && Low(v, 0) == 0
    ensures High(b, 8) == 0 && Low(b, 8) == b
  {
    HighByte(v, b, h);
    HighLow(v * 256 + b, h);
    HighLow(b, h);
    if h >= 8 {
      HighLow(v, h - 8);
    }
    Pow2Byte(0);
    LowSmall(b, 8);
  }

  // ---------- getNextIP ----------

  function AddressLength(ip: seq<Byte>): nat
  {
    if IpTo4(ip).Some? then IPV4LEN else IPV6LEN
  }

  /** What getNextIP returns, on whole numbers instead of byte loops. */
  function NextAddress(originalIP: seq<Byte>, mask: seq<Byte>): (seq<Byte>, bool)
  {
    NextOf(LastN(originalIP, AddressLength(originalIP)), mask)
  }

  function NextOf(ip: seq<Byte>, mask: seq<Byte>): (seq<Byte>, bool)
  {
    var next := LastN(BigBytes(Value(ip) + 1), |ip|);
    if IpEqual(MaskIp(ip, mask), MaskIp(next, mask)) then (next, false)
    else (BigBytes(BitOr(Value(MaskIp(ip, mask)), Value(MaskIp(next, Inverted(mask))))), true)
  }

  method GetNextIP(originalIP: seq<Byte>, mask: seq<Byte>) returns (resultIP: seq<Byte>, overflow: bool)
    ensures (resultIP, overflow) == NextAddress(originalIP, mask)
  {
    hide Value, BigBytes, MaskIp, IpEqual, IpTo4, Inverted, BitOr;
    var isIpv4 := IpTo4(originalIP).Some?;
    var length := if isIpv4 then IPV4LEN else IPV6LEN;
    // an IPv4 address may come in 16 bytes, of which only the last four count
    var ip := TakeLastNItemsFromByteArray(originalIP, length);
    var intValue := IntValue(ip);
    intValue := intValue + 1;

    // the sum may need a byte more, or fewer when it begins with zeros
    resultIP := TakeLastNItemsFromByteArray(BigBytes(intValue), length);

    var originalIPNetwork := MaskIp(ip, mask);
    var resultIPNetwork := MaskIp(resultIP, mask);
    if !IpEqual(originalIPNetwork, resultIPNetwork) {
      // the carry has left the host part: put the old network back
      var invertedMask := InvertedMask(mask);
      var resultHostIP := MaskIp(resultIP, invertedMask);
      // the old network with the new host part
      return BigBytes(BitOr(Value(originalIPNetwork), Value(resultHostIP))), true;
    }
    return resultIP, false;
  }

  /** The loop that shifts each byte to its place and ors it in. */
  method IntValue(ip: seq<Byte>) returns (intValue: nat)
    ensures intValue == Value(ip)
  {
    intValue := 0;
    ShlAdd(0, 0, 8 * |ip|);
    for byteIndex := 0 to |ip|
      invariant intValue == Shl(Value(ip[..byteIndex]), 8 * (|ip| - byteIndex))
    {
      var shiftTo := (|ip| - byteIndex - 1) * 8;
      ShiftedByte(ip, byteIndex);
      intValue := BitOr(intValue, Shl(ip[byteIndex], shiftTo));
    }
    assert ip[..|ip|] == ip;
  }

  /** The loop that rebuilds the mask with every byte flipped. */
  method InvertedMask(mask: seq<Byte>) returns (invertedMask: seq<Byte>)
    ensures invertedMask == Inverted(mask)
  {
    invertedMask := [];
    for i := 0 to |mask|
      invariant invertedMask == Inverted(mask)[..i]
    {
      invertedMask := invertedMask + [ByteXor(mask[i], 255)];
    }
  }

  /** One round of the shift-and-or loop appends one byte to the value read so far. */
  lemma {:induction false} ShiftedByte(ip: seq<Byte>, i: nat)
    requires i < |ip|
    ensures BitOr(Shl(Value(ip[..i]), 8 * (|ip| - i)), Shl(ip[i], (|ip| - i - 1) * 8))
         == Shl(Value(ip[..i + 1]), 8 * (|ip| - (i + 1)))
  {
    var k := (|ip| - i - 1) * 8;
    var a, b := Value(ip[..i]), ip[i];
    assert ip[..i + 1][..i] == ip[..i];
    Pow2Byte(0);
    ShlBound(b, 8, k);
    OrDisjoint(a, Shl(b, k), 8 + k);
    ShlShl(a, 8, k);
    ShlByte(a);
    ShlAdd(a * 256, b, k);
  }

  /** The address after v on the cycle of the 2^h addresses from base. */
  function CyclicSuccessor(base: nat, h: nat, v: nat): nat
  {
    if v == base + Pow2(h) - 1 then base else v + 1
  }

  /**
    For a CIDR mask with h host bits, getNextIP is the cyclic successor inside the network of the given
    address, base + ((v - base + 1) mod 2^h); the flag is set exactly when the host bits are all ones and the mask
    is not /0; and the result keeps its width unless an overflow meets a network whose first byte is zero.
   */
  lemma {:induction false} NextAddressIsCyclicSuccessor(originalIP: seq<Byte>, h: nat)
    requires h <= 8 * AddressLength(originalIP)
    ensures var n := AddressLength(originalIP);
            var v := Value(LastN(originalIP, n));
            var base := High(v, h);
            var (ip, overflow) := NextAddress(originalIP, CidrMask(n, h));
            && Value(ip) == CyclicSuccessor(base, h, v)
            && base <= v && Value(ip) == base + (v - base + 1) % Pow2(h)
            && (overflow <==> Low(v, h) == Pow2(h) - 1 && h < 8 * n)
            && (|ip| == n <==> !overflow || base >= Pow2(8 * (n - 1)))
            && |ip| <= n
  {
    hide NextOf, Value, CidrMask, High, Low;
    var ip := LastN(originalIP, AddressLength(originalIP));
    NextOfIsCyclicSuccessor(ip, h);
    HighLow(Value(ip), h);
    SuccessorIsModular(High(Value(ip), h), h, Value(ip));
  }

  lemma {:induction false} SuccessorIsModular(base: nat, h: nat, v: nat)
    requires base <= v < base + Pow2(h)
    ensures CyclicSuccessor(base, h, v) == base + (v - base + 1) % Pow2(h)
  {
    hide Pow2;
    if v == base + Pow2(h) - 1 {
      RemainderUnique(v - base + 1, Pow2(h), 1, 0);
    } else {
      RemainderUnique(v - base + 1, Pow2(h), 0, v - base + 1);
    }
  }

  /** With a CIDR mask, both branches of getNextIP are arithmetic on the address value. */
  lemma {:induction false} NextOfByNumbers(ip: seq<Byte>, h: nat)
    requires h <= 8 * |ip|
    ensures var v := Value(ip);
            var next := LastN(BigBytes(v + 1), |ip|);
            && Value(next) == Low(v + 1, 8 * |ip|)
            && NextOf(ip, CidrMask(|ip|, h)) ==
               if High(v, h) == High(Value(next), h) then (next, false)
               else (BigBytes(BitOr(High(v, h), Low(Value(next), h))), true)
  {
    hide CidrMask, High, Low, Value, BigBytes, LastN, MaskIp, IpEqual, BitOr, Inverted;
    SuccessorValue(Value(ip), |ip|);
    MaskedCompare(ip, LastN(BigBytes(Value(ip) + 1), |ip|), h);
  }

  lemma {:induction false} NextOfIsCyclicSuccessor(ip: seq<Byte>, h: nat)
    requires |ip| > 0 && h <= 8 * |ip|
    ensures var (r, overflow) := NextOf(ip, CidrMask(|ip|, h));
            && Value(r) == CyclicSuccessor(High(Value(ip), h), h, Value(ip))
            && (overflow <==> Low(Value(ip), h) == Pow2(h) - 1 && h < 8 * |ip|)
            && (|r| == |ip| <==> !overflow || High(Value(ip), h) >= Pow2(8 * (|ip| - 1)))
            && |r| <= |ip|
  {
    hide *;
    NextOfByNumbers(ip, h);
    ValueBound(ip);
    BranchesAreCyclic(Value(ip), |ip|, h, LastN(BigBytes(Value(ip) + 1), |ip|));
  }

  lemma {:induction false} BranchesAreCyclic(v: nat, n: nat, h: nat, next: seq<Byte>)
    requires n > 0 && h <= 8 * n && v < Pow2(8 * n)
    requires |next| == n && Value(next) == Low(v + 1, 8 * n)
    ensures var overflow := High(v, h) != High(Value(next), h);
            var r := if overflow then BigBytes(BitOr(High(v, h), Low(Value(next), h))) else next;
            && Value(r) == CyclicSuccessor(High(v, h), h, v)
            && (overflow <==> Low(v, h) == Pow2(h) - 1 && h < 8 * n)
            && (|r| == n <==> !overflow || High(v, h) >= Pow2(8 * (n - 1)))
            && (overflow && High(v, h) == 0 ==> r == [])
            && |r| <= n
  {
    CyclicArithmetic(v, 8 * n, h);
    ShortForm(High(v, h), n);
  }

  lemma {:induction false} CyclicArithmetic(v: nat, w: nat, h: nat)
    requires v < Pow2(w) && h <= w
    ensures High(v, h) < Pow2(w)
    ensures var s := Low(v + 1, w);
            var overflow := Low(v, h) == Pow2(h) - 1 && h < w;
            && (overflow <==> High(s, h) != High(v, h))
            && (overflow ==> Low(s, h) == 0 && CyclicSuccessor(High(v, h), h, v) == High(v, h))
            && (!overflow ==> s == CyclicSuccessor(High(v, h), h, v))
  {
    Increment(v, w, h);
    HighLow(v, h);
    HighLow(Low(v + 1, w), h);
  }

  lemma {:induction false} SuccessorValue(v: nat, n: nat)
    ensures Value(LastN(BigBytes(v + 1), n)) == Low(v + 1, 8 * n)
  {
    LastNValue(BigBytes(v + 1), n);
    ValueBigBytes(v + 1);
  }

  lemma {:induction false} ShortForm(v: nat, n: nat)
    requires n > 0 && v < Pow2(8 * n)
    ensures Value(BigBytes(v)) == v
    ensures |BigBytes(v)| <= n
    ensures |BigBytes(v)| == n <==> v >= Pow2(8 * (n - 1))
    ensures BitOr(v, 0) == v
  {
    ValueBigBytes(v);
    BigBytesLength(v, n);
    BigBytesLength(v, n - 1);
  }

  /** Two masked addresses of one family are Equal exactly when the network parts of their values are. */
  lemma {:induction false} MaskedCompare(ip: seq<Byte>, next: seq<Byte>, h: nat)
    requires |ip| == |next| && h <= 8 * |ip|
    ensures var mask := CidrMask(|ip|, h);
            && (IpEqual(MaskIp(ip, mask), MaskIp(next, mask)) <==> High(Value(ip), h) == High(Value(next), h))
            && Value(MaskIp(ip, mask)) == High(Value(ip), h)
            && Value(MaskIp(next, Inverted(mask))) == Low(Value(next), h)
  {
    var mask := CidrMask(|ip|, h);
    MaskValue(ip, h);
    MaskValue(next, h);
    var a, b := AndBytes(ip, mask), AndBytes(next, mask);
    assert MaskIp(ip, mask) == a && MaskIp(next, mask) == b;
    assert MaskIp(next, Inverted(mask)) == AndBytes(next, Inverted(mask));
    if Value(a) == Value(b) {
      ValueInjective(a, b);
    }
  }

  /**
    The overflowing case that loses its width: past the last address of a network based at zero comes the empty
    slice.
   */
  lemma {:induction false} ZeroNetworkLosesItsWidth(ip: seq<Byte>, h: nat)
    requires |ip| > 0 && h < 8 * |ip|
    requires Value(ip) == Pow2(h) - 1
    ensures NextOf(ip, CidrMask(|ip|, h)) == ([], true)
  {
    LowSmall(Value(ip), h);
    hide *;
    NextOfByNumbers(ip, h);
    ValueBound(ip);
    BranchesAreCyclic(Value(ip), |ip|, h, LastN(BigBytes(Value(ip) + 1), |ip|));
  }
}
