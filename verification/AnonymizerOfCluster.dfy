/** The obfuscator of a cluster: the promises for the list that getNetworksForAnonymizer returns, parsed and built. */
module AnonymizerOfCluster {
  import opened Bits
  import opened Bytes
  import opened NextIp
  import opened Networks
  import opened Anonymizer
  import opened AnonymizerOrbits
  import opened AnonymizerEpochs
  import opened AnonymizerLimits
  import opened AnonymizerCollisions

  /** The host bits of the IPv4 networks. */
  function Widths(networks: seq<NetworkText>): (r: seq<nat>)
    ensures |r| == |networks|
  {
    seq(|networks|, i requires 0 <= i < |networks| =>
      if Decimal(networks[i].length) <= 32 then 32 - Decimal(networks[i].length) else 0)
  }

  /** IPv6 networks of a dual-stack cluster serve no address. */
  lemma {:induction false} ParsedServingV4(networks: seq<NetworkText>, resolve: string -> seq<Byte>)
    requires Parsable(networks, resolve)
    ensures ServingV4(ParseCidrs(networks, resolve), Widths(networks))
  {
    hide V4Cidr, ParseCidr, Decimal, V4Text, V6Text, Matches;
    var cidrs := ParseCidrs(networks, resolve);
    forall i | 0 <= i < |networks| && Serves(cidrs, i) ensures V4Cidr(cidrs[i], Widths(networks)[i]) {
      var t :| ServedBy(cidrs, i, t);
      MatchingIsV4(networks[i], resolve, t.ip);
      ParseCidrIsV4Cidr(networks[i], resolve);
    }
  }

  /** In every run, two addresses that one network of the cluster replaced in an epoch have different replacements. */
  lemma {:induction false} ClusterReplacementsAreDistinct(
    networks: seq<NetworkText>, n: nat, resolve: string -> seq<Byte>, ops: seq<Op>, k: IpText, l: IpText)
    requires Parsable(networks, resolve) && OrderedWithStaleTail(networks, n)
    requires var s := Run(Initial(ParseCidrs(networks, resolve)), ops); k in s.table && l in s.table && k != l
    ensures var cidrs := ParseCidrs(networks, resolve);
            var s := Run(Initial(cidrs), ops);
            && k.V4? && l.V4? && FirstMatch(cidrs, k.ip) < n && FirstMatch(cidrs, l.ip) < n
            && (FirstMatch(cidrs, k.ip) == FirstMatch(cidrs, l.ip) ==> s.table[k] != s.table[l])
  {
    hide Parsable, OrderedWithStaleTail, ParseCidrs, FirstMatch, Run, V4Cidr, ServedBy;
    var cidrs := ParseCidrs(networks, resolve);
    ParsedServingV4(networks, resolve);
    ParsedListHasRepeatingTail(networks, n, resolve);
    InTableIsServed(cidrs, ops, k);
    InTableIsServed(cidrs, ops, l);
    TailNeverMatchesFirst(cidrs, n, k.ip);
    TailNeverMatchesFirst(cidrs, n, l.ip);
    var i := FirstMatch(cidrs, k.ip);
    assert Serves(cidrs, i);
    if FirstMatch(cidrs, l.ip) == i {
      ReplacementsAreDistinct(cidrs, i, Widths(networks)[i], ops, k, l);
    }
  }

  /**
    The leftovers of sorting change no reply, and the cluster's table is one-to-one exactly when no two networks that
    serve addresses overlap, and at most one of them loses its cursor's width; none of the leftovers serves any.
   */
  lemma {:induction false} ClusterTable(
    networks: seq<NetworkText>, n: nat, resolve: string -> seq<Byte>, ops: seq<Op>, t: IpText)
    requires Parsable(networks, resolve) && OrderedWithStaleTail(networks, n)
    ensures var cidrs := ParseCidrs(networks, resolve);
            && Obfuscate(Run(Initial(cidrs), ops), t).1 == Obfuscate(Run(Initial(cidrs[..n]), ops), t).1
            && ServingV4(cidrs, Widths(networks))
            && (TableIsOneToOne(cidrs) <==> Separate(cidrs, Widths(networks)))
            && forall i | n <= i < |cidrs| :: !Serves(cidrs, i)
  {
    hide Parsable, OrderedWithStaleTail, ParseCidrs, Run, V4Cidr, Obfuscate, Separate, FirstMatch;
    var cidrs := ParseCidrs(networks, resolve);
    ParsedServingV4(networks, resolve);
    ParsedListHasRepeatingTail(networks, n, resolve);
    StaleTailChangesNoReply(cidrs, n, ops, t);
    TableIsOneToOneExactly(cidrs, Widths(networks));
    forall i, u: IpText | n <= i < |cidrs| ensures !ServedBy(cidrs, i, u) {
      if u.V4? {
        TailNeverMatchesFirst(cidrs, n, u.ip);
      }
    }
  }
}
