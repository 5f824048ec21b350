/**
  pkg/anonymization/network_anonymizer.go: the network list.  getNetworksForAnonymizer and sortNetworks
  build it; ObfuscateIP looks for the first network that has the address as its base or contains it.
 */
module Networks {
  import opened Bits
  import opened Bytes
  import opened Options
  import opened Orders
  import opened Slices
  import opened NextIp

  // ---------- net.IPNet ----------

  datatype Subnet = Subnet(ip: seq<Byte>, mask: seq<Byte>)

  function NetworkNumberAndMask(n: Subnet): (r: Option<(seq<Byte>, seq<Byte>)>)
    ensures r.Some? ==> |r.value.0| == |r.value.1|
  {
    match IpTo4(n.ip)
    case Some(v4) =>
      if |n.mask| == IPV4LEN then Some((v4, n.mask))
      else if |n.mask| == IPV6LEN then Some((v4, n.mask[12..]))
      else None
    case None =>
      if |n.ip| == IPV6LEN && |n.mask| == IPV6LEN then Some((n.ip, n.mask)) else None
  }

  /** net.IPNet.Contains. */
  predicate Contains(n: Subnet, ip: seq<Byte>)
  {
    var x := match IpTo4(ip) case Some(v4) => v4 case None => ip;
    match NetworkNumberAndMask(n)
    case Some((number, mask)) =>
      |x| == |number| && forall i | 0 <= i < |x| :: ByteAnd(number[i], mask[i]) == ByteAnd(x[i], mask[i])
    case None => x == []
  }

  predicate Matches(n: Subnet, ip: seq<Byte>) { IpEqual(n.ip, ip) || Contains(n, ip) }

  /** The index at which ObfuscateIP's loop stops, or the length of the list. */
  function FirstMatch(networks: seq<Subnet>, ip: seq<Byte>): (i: nat)
    ensures i <= |networks|
    ensures i < |networks| ==> Matches(networks[i], ip)
    ensures forall j | 0 <= j < i :: !Matches(networks[j], ip)
  {
    if networks == [] || Matches(networks[0], ip) then 0 else 1 + FirstMatch(networks[1..], ip)
  }

  lemma {:induction false} FirstMatchUnique(networks: seq<Subnet>, ip: seq<Byte>, i: nat)
    requires i <= |networks|
    requires i < |networks| ==> Matches(networks[i], ip)
    requires forall j | 0 <= j < i :: !Matches(networks[j], ip)
    ensures FirstMatch(networks, ip) == i
  {}

  /** An IPv4 network in CIDR form with h host bits, as net.ParseCIDR returns it. */
  ghost predicate V4Cidr(n: Subnet, h: nat)
  {
    && |n.ip| == IPV4LEN && h <= 32 && n.mask == CidrMask(4, h)
    && High(Value(n.ip), h) == Value(n.ip)
  }

  /** Membership in an IPv4 network is agreement of the network parts. */
  lemma {:induction false} ContainsIsSamePrefix(n: Subnet, h: nat, ip: seq<Byte>)
    requires V4Cidr(n, h) && |ip| == IPV4LEN
    ensures Contains(n, ip) <==> High(Value(ip), h) == Value(n.ip)
    ensures IpEqual(n.ip, ip) <==> Value(ip) == Value(n.ip)
    ensures Matches(n, ip) <==> Contains(n, ip)
  {
    hide High, Value, CidrMask, ByteAnd;
    var a, b := AndBytes(n.ip, n.mask), AndBytes(ip, n.mask);
    MaskValue(n.ip, h);
    MaskValue(ip, h);
    if Value(a) == Value(b) {
      ValueInjective(a, b);
    }
    if Value(n.ip) == Value(ip) {
      ValueInjective(n.ip, ip);
    }
    assert Contains(n, ip) <==> a == b by {
      assert forall i | 0 <= i < 4 :: a[i] == ByteAnd(n.ip[i], n.mask[i]) && b[i] == ByteAnd(ip[i], n.mask[i]);
    }
  }

  // ---------- sortNetworks ----------

  /** A network as text, split at its slash: "10.128.0.0/14" is NetworkText("10.128.0.0", "14"). */
  datatype NetworkText = NetworkText(address: string, length: string)

  /** First by the text of the length, then by the text of the address, both descending. */
  predicate Before(x: NetworkText, y: NetworkText)
  {
    if x.length != y.length then StringLess(y.length, x.length) else StringLess(y.address, x.address)
  }

  lemma {:induction false} BeforeIsTotal()
    ensures StrictTotalOrder(Before)
  {
    StringOrder();
  }

  method SortNetworks(networks: array<NetworkText>) returns (n: nat, ghost sorted: seq<NetworkText>)
    modifies networks
    ensures Sorted(Before, sorted) && multiset(sorted) == multiset(old(networks[..]))
    ensures n == |Compact(Before, sorted)|
    ensures networks[..] == Compact(Before, sorted) + sorted[n..]
  {
    BeforeIsTotal();
    TotalIsWeak(Before);
    n, sorted := SortAndRemoveDuplicates(networks, Before);
  }

  /** The list that the anonymizer gets: n distinct networks in order, then leftovers that all occur among them. */
  ghost predicate OrderedWithStaleTail(networks: seq<NetworkText>, n: nat)
  {
    && n <= |networks|
    && StrictlySorted(Before, networks[..n])
    && (forall x | x in networks[n..] :: x in networks[..n])
  }

  const LOOPBACK := NetworkText("127.0.0.0", "8")
  const OVN_EGRESS := NetworkText("192.168.126.0", "18")

  /** A network of the cluster's configuration, its install-config, its host subnets, or one that is always added. */
  predicate Listed(
      x: NetworkText, clusterNetworks: seq<NetworkText>, installConfig: Option<seq<NetworkText>>,
      hostSubnets: seq<seq<NetworkText>>)
  {
    || x == LOOPBACK
    || x in clusterNetworks
    || (installConfig.Some? && x in installConfig.value)
    || (exists i | 0 <= i < |hostSubnets| :: x in hostSubnets[i])
    || (hostSubnets == [] && x == OVN_EGRESS)
  }

  method JoinNetworks(
      clusterNetworks: seq<NetworkText>, installConfig: Option<seq<NetworkText>>, hostSubnets: seq<seq<NetworkText>>)
    returns (networks: seq<NetworkText>)
    ensures forall x :: x in networks <==> Listed(x, clusterNetworks, installConfig, hostSubnets)
  {
    networks := [LOOPBACK] + clusterNetworks;
    if installConfig.Some? {
      networks := networks + installConfig.value;
    }
    ghost var fixedPart := networks;
    for i := 0 to |hostSubnets|
      invariant forall x :: x in networks <==> x in fixedPart || exists k | 0 <= k < i :: x in hostSubnets[k]
    {
      networks := networks + hostSubnets[i];
    }
    // a cluster without host subnets runs on OVN
    if |hostSubnets| == 0 {
      networks := networks + [OVN_EGRESS];
    }
  }

  /**
    The networks of a cluster, in order.  The callee shortens only its own slice header, so the result keeps the
    length of the unsorted list.
   */
  method GetNetworksForAnonymizer(
      clusterNetworks: seq<NetworkText>, installConfig: Option<seq<NetworkText>>, hostSubnets: seq<seq<NetworkText>>)
    returns (networks: seq<NetworkText>, ghost n: nat)
    ensures OrderedWithStaleTail(networks, n)
    ensures forall x :: x in networks <==> Listed(x, clusterNetworks, installConfig, hostSubnets)
    ensures forall x :: x in networks[..n] <==> Listed(x, clusterNetworks, installConfig, hostSubnets)
    ensures forall i, j | 0 <= i < j < n ::
              var x, y := networks[i], networks[j];
              StringLess(y.length, x.length) || (y.length == x.length && StringLess(y.address, x.address))
  {
    hide Listed, Before, Sorted, StrictTotalOrder, Compact;
    var original := JoinNetworks(clusterNetworks, installConfig, hostSubnets);
    var backing := new NetworkText[|original|](i requires 0 <= i < |original| => original[i]);
    assert backing[..] == original;
    ghost var sorted;
    n, sorted := SortNetworks(backing);
    networks := backing[..];
    BeforeIsTotal();
    StaleTailIsHarmless(Before, original, sorted, n, networks);
    assert networks == networks[..n] + networks[n..];
    DescendingTexts(networks[..n]);
    assert forall i | 0 <= i < n :: networks[..n][i] == networks[i];
  }

  lemma {:induction false} DescendingTexts(networks: seq<NetworkText>)
    requires StrictlySorted(Before, networks)
    ensures forall i, j | 0 <= i < j < |networks| ::
              var x, y := networks[i], networks[j];
              StringLess(y.length, x.length) || (y.length == x.length && StringLess(y.address, x.address))
  {
    hide StringLess;
  }

  // ---------- longest prefix first (section 5.1 of RFC 4632) ----------

  predicate IsDigit(c: char) { '0' <= c <= '9' }

  /**
    An IPv4 prefix length in one or two decimal digits.  net.ParseCIDR also takes longer texts with leading zeros:
    the results below are for lists without such texts.
   */
  predicate LengthText(s: string)
  {
    1 <= |s| <= 2 && (forall c | c in s :: IsDigit(c)) && Decimal(s) <= 32
  }

  function Decimal(s: string): nat
  {
    if s == [] then 0
    else Decimal(s[..|s| - 1]) * 10 + (if IsDigit(s[|s| - 1]) then s[|s| - 1] as nat - '0' as nat else 0)
  }

  lemma {:induction false} DecimalOfTwo(s: string)
    requires LengthText(s)
    ensures IsDigit(s[0]) && (|s| == 2 ==> IsDigit(s[1]))
    ensures |s| == 1 ==> Decimal(s) == s[0] as nat - '0' as nat
    ensures |s| == 2 ==> Decimal(s) == 10 * (s[0] as nat - '0' as nat) + (s[1] as nat - '0' as nat)
  {
    assert s[0] in s;
    if |s| == 1 {
      assert s[..0] == [];
    } else {
      assert s[1] in s;
      assert s[..1][..0] == [];
    }
  }

  /** A one-digit length whose digit exceeds the first digit of a two-digit length sorts before it. */
  predicate DigitBeatsTens(short: string, long: string)
  {
    |short| == 1 && |long| == 2 && long[0] < short[0]
  }

  /** Exactly when the text order puts a shorter prefix first. */
  lemma {:induction false} TextOrderMisordersLengths(x: string, y: string)
    requires LengthText(x) && LengthText(y) && Decimal(x) < Decimal(y)
    ensures StringLess(y, x) <==> DigitBeatsTens(x, y)
  {
    DecimalOfTwo(x);
    DecimalOfTwo(y);
    assert StringLess(y[1..], x[1..]) <==>
           x[1..] != [] && (y[1..] == [] || y[1..][0] < x[1..][0]
             || (y[1..][0] == x[1..][0] && StringLess(y[1..][1..], x[1..][1..])));
  }

  /** An IPv4 network; `resolve` reads the address. */
  predicate V4Text(t: NetworkText, resolve: string -> seq<Byte>)
  {
    LengthText(t.length) && |resolve(t.address)| == IPV4LEN
  }

  /** An IPv6 network, as in the lists of dual-stack clusters, that is no IPv4 network in disguise. */
  predicate V6Text(t: NetworkText, resolve: string -> seq<Byte>)
  {
    |resolve(t.address)| == IPV6LEN && Decimal(t.length) <= 128 && IpTo4(ParseV6(t, resolve).ip).None?
  }

  function ParseV4(t: NetworkText, resolve: string -> seq<Byte>): Subnet
    requires V4Text(t, resolve)
  {
    var mask := CidrMask(IPV4LEN, 32 - Decimal(t.length));
    Subnet(AndBytes(resolve(t.address), mask), mask)
  }

  function ParseV6(t: NetworkText, resolve: string -> seq<Byte>): Subnet
    requires |resolve(t.address)| == IPV6LEN && Decimal(t.length) <= 128
  {
    var mask := CidrMask(IPV6LEN, 128 - Decimal(t.length));
    Subnet(AndBytes(resolve(t.address), mask), mask)
  }

  /** net.ParseCIDR. */
  function ParseCidr(t: NetworkText, resolve: string -> seq<Byte>): Subnet
    requires V4Text(t, resolve) || V6Text(t, resolve)
  {
    if V4Text(t, resolve) then ParseV4(t, resolve) else ParseV6(t, resolve)
  }

  ghost predicate Parsable(networks: seq<NetworkText>, resolve: string -> seq<Byte>)
  {
    forall t | t in networks :: V4Text(t, resolve) || V6Text(t, resolve)
  }

  function ParseCidrs(networks: seq<NetworkText>, resolve: string -> seq<Byte>): (r: seq<Subnet>)
    requires Parsable(networks, resolve)
    ensures |r| == |networks|
  {
    seq(|networks|, i requires 0 <= i < |networks| => ParseCidr(networks[i], resolve))
  }

  /** Parsing IPv4 networks yields CIDR form. */
  lemma {:induction false} ParseCidrIsV4Cidr(t: NetworkText, resolve: string -> seq<Byte>)
    requires V4Text(t, resolve)
    ensures Decimal(t.length) <= 32 && t.length != ""
    ensures V4Cidr(ParseCidr(t, resolve), 32 - Decimal(t.length))
    ensures Value(ParseCidr(t, resolve).ip) == High(Value(resolve(t.address)), 32 - Decimal(t.length))
  {
    hide Value, High, Decimal, CidrMask, AndBytes, Inverted;
    var h := 32 - Decimal(t.length);
    MaskValue(resolve(t.address), h);
    HighOfHigh(Value(resolve(t.address)), h, h);
  }

  /** An IPv6 network matches no IPv4 address. */
  lemma {:induction false} V6MatchesNoV4(t: NetworkText, resolve: string -> seq<Byte>, ip: seq<Byte>)
    requires V6Text(t, resolve) && |ip| == IPV4LEN
    ensures !Matches(ParseCidr(t, resolve), ip)
  {
    hide CidrMask, Decimal, LengthText, ByteAnd;
  }

  predicate ContainsAt(networks: seq<NetworkText>, resolve: string -> seq<Byte>, ip: seq<Byte>, j: nat)
    requires Parsable(networks, resolve)
  {
    j < |networks| && Contains(ParseCidrs(networks, resolve)[j], ip)
  }

  /** `i` matches the address and no matching network of the list has a longer prefix. */
  ghost predicate LongestMatch(
      networks: seq<NetworkText>, resolve: string -> seq<Byte>, ip: seq<Byte>, i: nat)
    requires Parsable(networks, resolve) && i < |networks|
  {
    && ContainsAt(networks, resolve, ip, i)
    && forall j: nat | ContainsAt(networks, resolve, ip, j) ::
         Decimal(networks[j].length) <= Decimal(networks[i].length)
  }

  /** No one-digit length of a containing network exceeds the first digit of the text. */
  ghost predicate NoDigitAbove(networks: seq<NetworkText>, resolve: string -> seq<Byte>, ip: seq<Byte>, length: string)
    requires Parsable(networks, resolve) && length != ""
  {
    forall i: nat | ContainsAt(networks, resolve, ip, i) && |networks[i].length| == 1 ::
      networks[i].length[0] <= length[0]
  }

  /** Some containing network has that length in one digit. */
  ghost predicate InOneDigit(networks: seq<NetworkText>, resolve: string -> seq<Byte>, ip: seq<Byte>, length: nat)
    requires Parsable(networks, resolve)
  {
    exists i: nat ::
      ContainsAt(networks, resolve, ip, i) && |networks[i].length| == 1 && Decimal(networks[i].length) == length
  }

  /**
    For every list that getNetworksForAnonymizer can return and every address, with j any longest match: the first
    match is a longest match exactly when the longest length is written in one digit, or no one-digit length of a
    containing network exceeds its first digit.
   */
  lemma {:induction false} FirstMatchIsLongestExactly(
      networks: seq<NetworkText>, n: nat, resolve: string -> seq<Byte>, ip: seq<Byte>, j: nat)
    requires Parsable(networks, resolve) && OrderedWithStaleTail(networks, n)
    requires |ip| == IPV4LEN && j < |networks| && LongestMatch(networks, resolve, ip, j)
    ensures networks[j].length != ""
    ensures var i := FirstMatch(ParseCidrs(networks, resolve), ip);
            && i < |networks|
            && (LongestMatch(networks, resolve, ip, i) <==>
                  || InOneDigit(networks, resolve, ip, Decimal(networks[j].length))
                  || NoDigitAbove(networks, resolve, ip, networks[j].length))
  {
    hide Contains, ParseCidr, Before, LengthText, Decimal, StringLess, V4Text, V6Text;
    var i := FirstMatch(ParseCidrs(networks, resolve), ip);
    FirstMatchPrecedes(networks, n, resolve, ip, j);
    FirstMatchContains(networks, resolve, ip);
    ContainingIsV4(networks, resolve, ip, i);
    ContainingIsV4(networks, resolve, ip, j);
    var x, y := networks[i].length, networks[j].length;
    if Decimal(x) < Decimal(y) {
      ShorterFirst(networks[i], networks[j]);
      forall k: nat | ContainsAt(networks, resolve, ip, k) && |networks[k].length| == 1
        ensures Decimal(networks[k].length) != Decimal(y)
      {
        FirstMatchPrecedes(networks, n, resolve, ip, k);
        ContainingIsV4(networks, resolve, ip, k);
        if Decimal(networks[k].length) == Decimal(y) {
          ShorterFirst(networks[i], networks[k]);
          assert false;
        }
      }
    } else if !NoDigitAbove(networks, resolve, ip, y) {
      var k: nat :| ContainsAt(networks, resolve, ip, k) && |networks[k].length| == 1 && networks[k].length[0] > y[0];
      FirstMatchPrecedes(networks, n, resolve, ip, k);
      ContainingIsV4(networks, resolve, ip, k);
      DigitFirst(networks[i], networks[k], y);
    }
  }

  /** A network that sorts first although it is shorter has a one-digit length above the other's first digit. */
  lemma {:induction false} ShorterFirst(x: NetworkText, y: NetworkText)
    requires LengthText(x.length) && LengthText(y.length) && Decimal(x.length) < Decimal(y.length)
    requires x == y || Before(x, y)
    ensures |x.length| == 1 && |y.length| == 2 && y.length[0] < x.length[0]
  {
    TextOrderMisordersLengths(x.length, y.length);
  }

  /** What sorts no later than a one-digit length above y, and is no shorter than y, has one digit as well. */
  lemma {:induction false} DigitFirst(x: NetworkText, k: NetworkText, y: string)
    requires LengthText(x.length) && LengthText(k.length) && LengthText(y)
    requires |k.length| == 1 && k.length[0] > y[0] && Decimal(x.length) == Decimal(y)
    requires x == k || Before(x, k)
    ensures |x.length| == 1
  {
    DecimalOfTwo(x.length);
    DecimalOfTwo(y);
    hide LengthText, Decimal;
  }

  lemma {:induction false} FirstMatchContains(networks: seq<NetworkText>, resolve: string -> seq<Byte>, ip: seq<Byte>)
    requires Parsable(networks, resolve) && |ip| == IPV4LEN
    requires FirstMatch(ParseCidrs(networks, resolve), ip) < |networks|
    ensures ContainsAt(networks, resolve, ip, FirstMatch(ParseCidrs(networks, resolve), ip))
  {
    hide ParseCidr, Contains, V4Text, V6Text;
    var i := FirstMatch(ParseCidrs(networks, resolve), ip);
    MatchingIsV4(networks[i], resolve, ip);
  }

  /** Only IPv4 networks contain IPv4 addresses. */
  lemma {:induction false} ContainingIsV4(
      networks: seq<NetworkText>, resolve: string -> seq<Byte>, ip: seq<Byte>, j: nat)
    requires Parsable(networks, resolve) && |ip| == IPV4LEN && ContainsAt(networks, resolve, ip, j)
    ensures V4Text(networks[j], resolve) && LengthText(networks[j].length)
    ensures Decimal(networks[j].length) <= 32 && networks[j].length != ""
  {
    hide ParseCidr, Contains, Decimal, V6Text;
    MatchingIsV4(networks[j], resolve, ip);
  }

  lemma {:induction false} MatchingIsV4(t: NetworkText, resolve: string -> seq<Byte>, ip: seq<Byte>)
    requires (V4Text(t, resolve) || V6Text(t, resolve)) && |ip| == IPV4LEN
    ensures Matches(ParseCidr(t, resolve), ip) <==> Contains(ParseCidr(t, resolve), ip)
    ensures Matches(ParseCidr(t, resolve), ip) ==> V4Text(t, resolve)
  {
    hide Contains, ParseCidr, LengthText, Decimal, CidrMask, V6Text;
    if V4Text(t, resolve) {
      ParseCidrIsV4Cidr(t, resolve);
      ContainsIsSamePrefix(ParseCidr(t, resolve), 32 - Decimal(t.length), ip);
    } else {
      V6MatchesNoV4(t, resolve, ip);
    }
  }

  /** The first match is one of the ordered networks and sorts before every other match, leftovers included. */
  lemma {:induction false} FirstMatchPrecedes(
      networks: seq<NetworkText>, n: nat, resolve: string -> seq<Byte>, ip: seq<Byte>, j: nat)
    requires Parsable(networks, resolve) && OrderedWithStaleTail(networks, n)
    requires j < |networks| && Matches(ParseCidrs(networks, resolve)[j], ip)
    ensures var i := FirstMatch(ParseCidrs(networks, resolve), ip);
            i < n && (networks[i] == networks[j] || Before(networks[i], networks[j]))
  {
    hide Matches, ParseCidr, Before, V4Text, V6Text, FirstMatch;
    var parsed := ParseCidrs(networks, resolve);
    var i := FirstMatch(parsed, ip);
    var k := InPrefix(networks, n, j);
    assert parsed[k] == parsed[j];
    if i < k {
      assert networks[..n][i] == networks[i] && networks[..n][k] == networks[k];
    }
  }

  lemma {:induction false} InPrefix(networks: seq<NetworkText>, n: nat, j: nat) returns (k: nat)
    requires OrderedWithStaleTail(networks, n) && j < |networks|
    ensures k < n && networks[k] == networks[j]
  {
    if j < n {
      k := j;
    } else {
      assert networks[n..][j - n] == networks[j];
      assert networks[j] in networks[..n];
      k :| 0 <= k < n && networks[..n][k] == networks[j];
    }
  }

  /** When every network that holds the address has a two-digit length, the first match is a longest match. */
  lemma {:induction false} TwoDigitLengthsGiveLongestMatch(
      networks: seq<NetworkText>, n: nat, resolve: string -> seq<Byte>, ip: seq<Byte>)
    requires Parsable(networks, resolve) && OrderedWithStaleTail(networks, n)
    requires |ip| == IPV4LEN && FirstMatch(ParseCidrs(networks, resolve), ip) < |networks|
    requires forall j: nat | ContainsAt(networks, resolve, ip, j) :: |networks[j].length| == 2
    ensures LongestMatch(networks, resolve, ip, FirstMatch(ParseCidrs(networks, resolve), ip))
  {
    hide Contains, ParseCidr, Decimal, V4Text, V6Text;
    FirstMatchContains(networks, resolve, ip);
    var j := LongestOf(networks, resolve, ip, FirstMatch(ParseCidrs(networks, resolve), ip), |networks|);
    FirstMatchIsLongestExactly(networks, n, resolve, ip, j);
  }

  /** A longest one among the containing networks before position m. */
  lemma {:induction false} LongestOf(
      networks: seq<NetworkText>, resolve: string -> seq<Byte>, ip: seq<Byte>, i: nat, m: nat) returns (j: nat)
    requires Parsable(networks, resolve) && ContainsAt(networks, resolve, ip, i) && m <= |networks|
    ensures ContainsAt(networks, resolve, ip, j)
    ensures forall k: nat | k < m && ContainsAt(networks, resolve, ip, k) ::
              Decimal(networks[k].length) <= Decimal(networks[j].length)
  {
    hide Contains, ParseCidr, Decimal, V4Text, V6Text;
    if m == 0 {
      j := i;
    } else {
      j := LongestOf(networks, resolve, ip, i, m - 1);
      if ContainsAt(networks, resolve, ip, m - 1) && Decimal(networks[m - 1].length) > Decimal(networks[j].length) {
        j := m - 1;
      }
    }
  }

  /** The restriction is needed: "8" sorts before "16", so 10.0.0.0/8 takes every address of 10.1.0.0/16. */
  lemma {:induction false} SlashEightShadowsSlashSixteen(resolve: string -> seq<Byte>, ip: seq<Byte>)
    requires resolve("10.0.0.0") == [10, 0, 0, 0] && resolve("10.1.0.0") == [10, 1, 0, 0]
    requires |ip| == IPV4LEN && ip[0] == 10 && ip[1] == 1
    ensures var networks := [NetworkText("10.0.0.0", "8"), NetworkText("10.1.0.0", "16")];
            && OrderedWithStaleTail(networks, 2) && Parsable(networks, resolve)
            && FirstMatch(ParseCidrs(networks, resolve), ip) == 0
            && LongestMatch(networks, resolve, ip, 1)
            && !LongestMatch(networks, resolve, ip, 0)
  {
    var networks := [NetworkText("10.0.0.0", "8"), NetworkText("10.1.0.0", "16")];
    EightAndSixteen();
    hide Matches, Contains, ParseCidr, LengthText, Decimal, OrderedWithStaleTail, StringLess, Value, High;
    SamePrefixes(ip);
    TextContains(networks[0], resolve, ip);
    TextContains(networks[1], resolve, ip);
    MatchingIsV4(networks[0], resolve, ip);
    FirstMatchUnique(ParseCidrs(networks, resolve), ip, 0);
  }

  lemma {:induction false} EightAndSixteen()
    ensures OrderedWithStaleTail([NetworkText("10.0.0.0", "8"), NetworkText("10.1.0.0", "16")], 2)
    ensures LengthText("8") && LengthText("16") && Decimal("8") == 8 && Decimal("16") == 16
  {
    assert "8"[..0] == "" && "16"[..1] == "1" && "1"[..0] == "";
  }

  /** A parsed network contains the addresses that share its prefix with the address in its text. */
  lemma {:induction false} TextContains(t: NetworkText, resolve: string -> seq<Byte>, ip: seq<Byte>)
    requires V4Text(t, resolve) && |ip| == IPV4LEN
    ensures Decimal(t.length) <= 32
    ensures Contains(ParseCidr(t, resolve), ip)
            <==> High(Value(ip), 32 - Decimal(t.length)) == High(Value(resolve(t.address)), 32 - Decimal(t.length))
  {
    hide Contains, V4Text, ParseCidr, Decimal, CidrMask, Value, High;
    ParseCidrIsV4Cidr(t, resolve);
    ContainsIsSamePrefix(ParseCidr(t, resolve), 32 - Decimal(t.length), ip);
  }

  lemma {:induction false} SamePrefixes(ip: seq<Byte>)
    requires |ip| == IPV4LEN && ip[0] == 10 && ip[1] == 1
    ensures High(Value(ip), 24) == High(Value([10, 0, 0, 0]), 24)
    ensures High(Value(ip), 16) == High(Value([10, 1, 0, 0]), 16)
  {
    hide High, Value;
    ByteBoundaries(Value(ip));
    ByteBoundaries(Value([10, 0, 0, 0]));
    ByteBoundaries(Value([10, 1, 0, 0]));
    FourMore([], ip);
    FourMore([], [10, 0, 0, 0]);
    FourMore([], [10, 1, 0, 0]);
    EmptyFront(ip);
    EmptyFront([10, 0, 0, 0]);
    EmptyFront([10, 1, 0, 0]);
  }

  lemma {:induction false} EmptyFront(s: seq<Byte>)
    ensures [] + s == s && Value([]) == 0
  {}

  lemma {:induction false} ByteBoundaries(v: nat)
    ensures High(v, 24) == v - v % 0x100_0000 && High(v, 16) == v - v % 0x1_0000
  {
    hide High, Low;
    SmallPowers();
    HighLow(v, 24);
    HighLow(v, 16);
    LowIsMod(v, 24);
    LowIsMod(v, 16);
  }
}
