/**
  pkg/anonymization/network_anonymizer.go: the stateful IPv4 obfuscator.

  Every network has a cursor, the last address handed out in it; a translation table remembers the
  replacement of every address seen.  The table is reset after each gathering, the cursors are not.
  An epoch is the time between two resets.
 */
module Anonymizer {
  import opened Bits
  import opened Bytes
  import opened NextIp
  import opened Networks

  type V4Bytes = s: seq<Byte> | |s| == IPV4LEN witness [0, 0, 0, 0]

  /**
    The text given to ObfuscateIP, by what it denotes: something with a slash, text that is no address, an
    IPv6 address, or the canonical text of an IPv4 address.
   */
  datatype IpText = Slashed(text: string) | NotAnIp(text: string) | V6(text: string) | V4(ip: V4Bytes)
                  | Odd(bytes: seq<Byte>)  // what net.IP.String prints for bytes that are no IPv4 address

  /** net.IP.String. */
  function Print(ip: seq<Byte>): IpText
  {
    match IpTo4(ip)
    case Some(v4) => V4(v4)
    case None => Odd(ip)
  }

  datatype SubnetInformation = SubnetInformation(network: Subnet, lastIP: seq<Byte>)

  datatype State = State(networks: seq<SubnetInformation>, table: map<IpText, IpText>)

  function Subnets(networks: seq<SubnetInformation>): (r: seq<Subnet>)
    ensures |r| == |networks|
  {
    seq(|networks|, i requires 0 <= i < |networks| => networks[i].network)
  }

  /** The network that serves an address. */
  function Serving(s: State, ip: seq<Byte>): (i: nat)
    ensures i <= |s.networks|
  {
    FirstMatch(Subnets(s.networks), ip)
  }

  /** One call of ObfuscateIP: the new state and the returned text. */
  function Obfuscate(s: State, t: IpText): (State, IpText)
  {
    if t.Slashed? then (s, t)
    else if t in s.table then (s, s.table[t])
    else if !t.V4? then (s, t)
    else
      var i := Serving(s, t.ip);
      if i == |s.networks| then (s, V4([0, 0, 0, 0]))
      else if IpEqual(s.networks[i].network.ip, t.ip) then (s, t)
      else
        var next := NextAddress(s.networks[i].lastIP, s.networks[i].network.mask).0;
        (State(s.networks[i := s.networks[i].(lastIP := next)], s.table[t := Print(next)]), Print(next))
  }

  /** The state after ResetTranslationTable: cursors stay. */
  function Reset(s: State): State { s.(table := map[]) }

  /** The state Build starts from: each cursor at its network's base, nothing translated. */
  function Initial(cidrs: seq<Subnet>): State
  {
    State(seq(|cidrs|, i requires 0 <= i < |cidrs| => SubnetInformation(cidrs[i], cidrs[i].ip)), map[])
  }

  class NetworkAnonymizer {
    var networks: seq<SubnetInformation>
    var translationTable: map<IpText, IpText>

    ghost function Abstract(): State
      reads this
    {
      State(networks, translationTable)
    }

    /** NetworkAnonymizerBuilder.Build with the given networks. */
    constructor (cidrs: seq<Subnet>)
      ensures Abstract() == Initial(cidrs)
    {
      var networksInformation: seq<SubnetInformation> := [];
      for i := 0 to |cidrs|
        invariant networksInformation == Initial(cidrs).networks[..i]
      {
        networksInformation := networksInformation + [SubnetInformation(cidrs[i], cidrs[i].ip)];
      }
      networks := networksInformation;
      translationTable := map[];
    }

    /** The loop of readNetworkConfigs: the cluster's networks join those given to Build. */
    method ReadNetworkConfigs(cidrs: seq<Subnet>)
      modifies this`networks
      ensures networks == old(networks) + Initial(cidrs).networks
    {
      for i := 0 to |cidrs|
        invariant networks == old(networks) + Initial(cidrs).networks[..i]
      {
        networks := networks + [SubnetInformation(cidrs[i], cidrs[i].ip)];
      }
    }

    method ObfuscateIP(ipStr: IpText) returns (r: IpText)
      modifies this
      ensures (Abstract(), r) == Obfuscate(old(Abstract()), ipStr)
    {
      if ipStr.Slashed? {
        // networks are left as they are
        return ipStr;
      }
      if ipStr in translationTable {
        return translationTable[ipStr];
      }
      if !ipStr.V4? {
        return ipStr;
      }
      var originalIP := ipStr.ip;
      ghost var subnets := Subnets(networks);
      for i := 0 to |networks|
        invariant Abstract() == old(Abstract())
        invariant forall j | 0 <= j < i :: !Matches(subnets[j], originalIP)
      {
        var network := networks[i].network;
        assert subnets[i] == network;
        if IpEqual(network.ip, originalIP) {
          FirstMatchUnique(subnets, originalIP, i);
          return Print(originalIP);
        }
        if Contains(network, originalIP) {
          FirstMatchUnique(subnets, originalIP, i);
          var nextIP, overflow := GetNextIP(networks[i].lastIP, network.mask);
          networks := networks[i := networks[i].(lastIP := nextIP)];
          translationTable := translationTable[ipStr := Print(nextIP)];
          return Print(nextIP);
        }
      }
      FirstMatchUnique(subnets, originalIP, |networks|);
      return V4([0, 0, 0, 0]);
    }

    method ResetTranslationTable()
      modifies this`translationTable
      ensures Abstract() == Reset(old(Abstract()))
    {
      translationTable := map[];
    }
  }

  // ---------- runs ----------

  datatype Op = Call(t: IpText) | EndEpoch

  function Step(s: State, op: Op): State
  {
    match op
    case Call(t) => Obfuscate(s, t).0
    case EndEpoch => Reset(s)
  }

  function Run(s: State, ops: seq<Op>): State
    decreases |ops|
  {
    if ops == [] then s else Run(Step(s, ops[0]), ops[1..])
  }

  predicate SameEpoch(ops: seq<Op>) { forall op | op in ops :: op.Call? }

  lemma {:induction false} StepKeepsNetworks(s: State, op: Op)
    ensures Subnets(Step(s, op).networks) == Subnets(s.networks)
  {
    hide NextAddress, Matches, FirstMatch;
  }

  /** No operation changes which networks there are or their order; only cursors move. */
  lemma {:induction false} NetworksAreFixed(s: State, ops: seq<Op>)
    ensures Subnets(Run(s, ops).networks) == Subnets(s.networks)
    decreases |ops|
  {
    if ops != [] {
      StepKeepsNetworks(s, ops[0]);
      NetworksAreFixed(Step(s, ops[0]), ops[1..]);
    }
  }

  // ---------- the mapping within one epoch ----------

  /** Table entries never change within an epoch. */
  lemma {:induction false} EntriesNeverChange(s: State, ops: seq<Op>, k: IpText)
    requires SameEpoch(ops) && k in s.table
    ensures k in Run(s, ops).table && Run(s, ops).table[k] == s.table[k]
    decreases |ops|
  {
    hide NextAddress, FirstMatch;
    if ops != [] {
      assert ops[0] in ops;
      EntriesNeverChange(Step(s, ops[0]), ops[1..], k);
    }
  }

  /** Whether the networks let ObfuscateIP hand out a replacement for the text; other texts have fixed replies. */
  predicate GetsReplacement(subnets: seq<Subnet>, t: IpText)
  {
    && t.V4?
    && var i := FirstMatch(subnets, t.ip);
    && i < |subnets|
    && !IpEqual(subnets[i].ip, t.ip)
  }

  function FixedReply(subnets: seq<Subnet>, t: IpText): IpText
  {
    if t.V4? && FirstMatch(subnets, t.ip) == |subnets| then V4([0, 0, 0, 0]) else t
  }

  lemma {:induction false} ReplyWithoutReplacement(s: State, t: IpText)
    requires !GetsReplacement(Subnets(s.networks), t) && t !in s.table
    ensures Obfuscate(s, t) == (s, FixedReply(Subnets(s.networks), t))
  {
    if t.V4? && Serving(s, t.ip) < |s.networks| {
      assert Subnets(s.networks)[Serving(s, t.ip)] == s.networks[Serving(s, t.ip)].network;
    }
  }

  lemma {:induction false} OnlyReplacedTextsEnterTheTable(s: State, ops: seq<Op>, t: IpText)
    requires t !in s.table && !GetsReplacement(Subnets(s.networks), t)
    ensures t !in Run(s, ops).table
    decreases |ops|
  {
    hide GetsReplacement;
    if ops != [] {
      StepKeepsNetworks(s, ops[0]);
      if ops[0] == Call(t) {
        ReplyWithoutReplacement(s, t);
      } else {
        StepAddsOnlyItsText(s, ops[0], t);
      }
      OnlyReplacedTextsEnterTheTable(Step(s, ops[0]), ops[1..], t);
    }
  }

  lemma {:induction false} StepAddsOnlyItsText(s: State, op: Op, t: IpText)
    requires t !in s.table && op != Call(t)
    ensures t !in Step(s, op).table
  {
    hide NextAddress, FirstMatch;
  }

  /** Within an epoch obfuscation is a function: a text gets the same reply whenever it is asked again. */
  lemma {:induction false} SameReplyAllEpoch(s: State, ops: seq<Op>, t: IpText)
    requires SameEpoch(ops)
    ensures Obfuscate(Run(Obfuscate(s, t).0, ops), t).1 == Obfuscate(s, t).1
  {
    hide FirstMatch, NextAddress, IpEqual;
    var s1 := Obfuscate(s, t).0;
    StepKeepsNetworks(s, Call(t));
    NetworksAreFixed(s1, ops);
    if t in s1.table {
      EntriesNeverChange(s1, ops, t);
    } else {
      NotRecorded(s, t);
      ReplyWithoutReplacement(s, t);
      OnlyReplacedTextsEnterTheTable(s1, ops, t);
      ReplyWithoutReplacement(Run(s1, ops), t);
    }
  }

  lemma {:induction false} NotRecorded(s: State, t: IpText)
    requires t !in Obfuscate(s, t).0.table
    ensures t !in s.table && (t.Slashed? || !GetsReplacement(Subnets(s.networks), t))
  {
    hide NextAddress;
    if t.V4? && Serving(s, t.ip) < |s.networks| {
      assert Subnets(s.networks)[Serving(s, t.ip)] == s.networks[Serving(s, t.ip)].network;
    }
  }

  /**
    The replies that are the same in every state of every run: text that is no IPv4 address is returned as
    it is, an address outside every network becomes 0.0.0.0, and an address is its own reply if the first
    network that matches it is based at it.
   */
  lemma {:induction false} FixedReplies(cidrs: seq<Subnet>, ops: seq<Op>, t: IpText)
    ensures var reply := Obfuscate(Run(Initial(cidrs), ops), t).1;
            && (!t.V4? ==> reply == t)
            && (t.V4? && FirstMatch(cidrs, t.ip) == |cidrs| ==> reply == V4([0, 0, 0, 0]))
            && (t.V4? && FirstMatch(cidrs, t.ip) < |cidrs| && IpEqual(cidrs[FirstMatch(cidrs, t.ip)].ip, t.ip)
                ==> reply == t)
  {
    hide IpEqual, FirstMatch, NextAddress;
    var s0 := Initial(cidrs);
    assert Subnets(s0.networks) == cidrs;
    NetworksAreFixed(s0, ops);
    if !GetsReplacement(cidrs, t) {
      OnlyReplacedTextsEnterTheTable(s0, ops, t);
      ReplyWithoutReplacement(Run(s0, ops), t);
    }
  }
}
