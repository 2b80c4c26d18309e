/** Publishing the ports of a container and taking them back when it stops, on anchors
    shared by many containers. */
module PfPorts {
  import opened PfRules
  import opened PfPackets

  /** One entry of a container's port list, with the addresses to redirect to and whether all of
      them are addresses. */
  datatype Port = Port(host: int, container: int, proto: Proto, targets: seq<string>, parses: bool)

  type Anchors = map<string, Ruleset>

  function AnchorOf(network: string): string
  {
    "cni-rdr/" + network
  }

  function RdrRule(network: string, p: Port): Rule
  {
    Rule("!" + network, "0.0.0.0/0.0.0.0", "(self)", p.proto, StoredPort(p.host), p.targets, p.container, 1)
  }

  function NatRule(network: string, p: Port): Rule
    requires p.targets != []
  {
    Rule(network, "(lo0)", p.targets[0], p.proto, StoredPort(p.container), [network], -1, 0)
  }

  function Publish(a: Ruleset, network: string, p: Port): Ruleset
  {
    var withRdr := Appended(a, Rdr, RdrRule(network, p));
    if p.targets == [] then withRdr else Appended(withRdr, Nat, NatRule(network, p))
  }

  function PublishAll(a: Ruleset, network: string, ports: seq<Port>): Ruleset
  {
    if ports == [] then a
    else Publish(PublishAll(a, network, ports[..|ports| - 1]), network, ports[|ports| - 1])
  }

  /** The ports before the first one with a target that is no address. */
  function Accepted(ports: seq<Port>): (front: seq<Port>)
    ensures |front| <= |ports| && front == ports[..|front|]
    ensures forall k :: 0 <= k < |front| ==> ports[k].parses
    ensures |front| < |ports| ==> !ports[|front|].parses
  {
    if ports == [] || !ports[0].parses then [] else [ports[0]] + Accepted(ports[1..])
  }

  /** The anchors after publishing n ports of the list. */
  predicate Published(before: Anchors, now: Anchors, network: string, ports: seq<Port>, n: nat)
  {
    && n <= |ports|
    && now == if n == 0 then before
              else before[AnchorOf(network) := PublishAll(Lookup(before, AnchorOf(network)), network, ports[..n])]
  }

  lemma PublishesNext(before: Anchors, now: Anchors, next: Anchors, network: string, ports: seq<Port>, n: nat)
    requires Published(before, now, network, ports, n) && n < |ports|
    requires next == now[AnchorOf(network) := Publish(Lookup(now, AnchorOf(network)), network, ports[n])]
    ensures Published(before, next, network, ports, n + 1)
  {
    var anchor := AnchorOf(network);
    var a := Lookup(before, anchor);
    var more := ports[..n + 1];
    assert more[..n] == ports[..n] && more[n] == ports[n];
    assert Lookup(now, anchor) == PublishAll(a, network, ports[..n]);
    assert PublishAll(a, network, more) == Publish(PublishAll(a, network, ports[..n]), network, ports[n]);
    assert next == before[anchor := PublishAll(a, network, more)];
  }

  // ---- Where published ports lead ----

  /** A number of a port or none. A positive multiple of 65536 is neither: its word is that of none. */
  predicate Proper(port: int)
  {
    port > 0 ==> port % 65536 != 0
  }

  predicate ProperPorts(ports: seq<Port>)
  {
    forall k :: 0 <= k < |ports| ==> Proper(ports[k].host) && Proper(ports[k].container)
  }

  /** The packet goes to this port, or the port is none and stands for all. */
  predicate IsFor(x: Packet, port: int, proto: Proto)
  {
    x.proto == proto && (port <= 0 || x.port == port % 65536)
  }

  /** Where a packet from outside goes: to the container of the first port published for it. */
  function Inward(ports: seq<Port>, x: Packet): Verdict
  {
    if ports == [] then Untouched
    else if IsFor(x, ports[0].host, ports[0].proto) then Sent(ports[0].targets, ports[0].container)
    else Inward(ports[1..], x)
  }

  /** A packet of the host to a published container gets its source from the network. */
  function Outward(network: string, ports: seq<Port>, x: Packet): Verdict
  {
    if ports == [] then Untouched
    else if && ports[0].targets != [] && Covered(ports[0].targets[0], x.to)
            && IsFor(x, ports[0].container, ports[0].proto) then Sent([network], -1)
    else Outward(network, ports[1..], x)
  }

  lemma {:induction false} InwardSnoc(ports: seq<Port>, p: Port, x: Packet)
    ensures Inward(ports + [p], x)
            == if Inward(ports, x).Sent? then Inward(ports, x)
               else if IsFor(x, p.host, p.proto) then Sent(p.targets, p.container) else Untouched
  {
    if ports == [] {
      assert Inward([p][1..], x) == Untouched;
    } else {
      assert (ports + [p])[1..] == ports[1..] + [p];
      InwardSnoc(ports[1..], p, x);
    }
  }

  lemma {:induction false} OutwardSnoc(network: string, ports: seq<Port>, p: Port, x: Packet)
    ensures Outward(network, ports + [p], x)
            == if Outward(network, ports, x).Sent? then Outward(network, ports, x)
               else if p.targets != [] && Covered(p.targets[0], x.to) && IsFor(x, p.container, p.proto)
               then Sent([network], -1) else Untouched
  {
    if ports == [] {
      assert Outward(network, [p][1..], x) == Untouched;
    } else {
      assert (ports + [p])[1..] == ports[1..] + [p];
      OutwardSnoc(network, ports[1..], p, x);
    }
  }

  /** A name that the rules read as an interface and not as every other one. */
  predicate Plain(network: string)
  {
    network != "" && network[0] != '!'
  }

  /** What publishing the ports makes of packets: the rules that were there come first, and then the
      first port published for the packet. Packets from the network itself, and packets not for this
      host, are not redirected. */
  ghost predicate Leads(before: Ruleset, after: Ruleset, network: string, ports: seq<Port>)
  {
    && (forall x: Packet :: Translated(after.rdr, x) ==
          if Translated(before.rdr, x).Sent? then Translated(before.rdr, x)
          else if x.iface != network && "(self)" in x.to then Inward(ports, x)
          else Untouched)
    && (forall x: Packet :: Translated(after.nat_, x) ==
          if Translated(before.nat_, x).Sent? then Translated(before.nat_, x)
          else if x.iface == network && "(lo0)" in x.from then Outward(network, ports, x)
          else Untouched)
  }

  lemma PublishLeads(a: Ruleset, network: string, p: Port, x: Packet)
    requires Consistent(a) && Plain(network) && Proper(p.host) && Proper(p.container)
    ensures var b := Publish(a, network, p);
            && Translated(b.rdr, x)
               == (if Translated(a.rdr, x).Sent? then Translated(a.rdr, x)
                   else if x.iface != network && "(self)" in x.to && IsFor(x, p.host, p.proto)
                   then Sent(p.targets, p.container) else Untouched)
            && Translated(b.nat_, x)
               == (if Translated(a.nat_, x).Sent? then Translated(a.nat_, x)
                   else if x.iface == network && "(lo0)" in x.from && p.targets != []
                           && Covered(p.targets[0], x.to) && IsFor(x, p.container, p.proto)
                   then Sent([network], -1) else Untouched)
  {
    var b := Publish(a, network, p);
    var rdr := RdrRule(network, p).(quick := if a.exists_ then 1 else 0);
    assert b.rdr == a.rdr + [rdr];
    LastDecidesRest(a.rdr, rdr, x);
    assert ("!" + network)[1..] == network;
    assert Hits(rdr, x) <==> x.iface != network && "(self)" in x.to && IsFor(x, p.host, p.proto);
    if p.targets != [] {
      assert b.nat_ == a.nat_ + [NatRule(network, p)];
      LastDecidesRest(a.nat_, NatRule(network, p), x);
    }
  }

  /** Where every packet goes after publishing, for every anchor and list of ports. */
  lemma {:induction false} PublishedPortsLead(a: Ruleset, network: string, ports: seq<Port>)
    requires Consistent(a) && Plain(network) && ProperPorts(ports)
    ensures Consistent(PublishAll(a, network, ports))
    ensures Leads(a, PublishAll(a, network, ports), network, ports)
  {
    if ports != [] {
      var fewer, p := ports[..|ports| - 1], ports[|ports| - 1];
      assert ports == fewer + [p];
      PublishedPortsLead(a, network, fewer);
      forall x: Packet
        ensures Translated(PublishAll(a, network, ports).rdr, x) ==
                if Translated(a.rdr, x).Sent? then Translated(a.rdr, x)
                else if x.iface != network && "(self)" in x.to then Inward(ports, x)
                else Untouched
        ensures Translated(PublishAll(a, network, ports).nat_, x) ==
                if Translated(a.nat_, x).Sent? then Translated(a.nat_, x)
                else if x.iface == network && "(lo0)" in x.from then Outward(network, ports, x)
                else Untouched
      {
        PublishLeads(PublishAll(a, network, fewer), network, p, x);
        InwardSnoc(fewer, p, x);
        OutwardSnoc(network, fewer, p, x);
      }
    }
  }

  lemma {:induction false} InwardFirst(ports: seq<Port>, i: nat, x: Packet)
    requires i < |ports| && x.port == ports[i].host && x.proto == ports[i].proto && 0 < x.port < 65536
    requires forall k :: 0 <= k < i ==>
               0 < ports[k].host < 65536 && (ports[k].host != ports[i].host || ports[k].proto != ports[i].proto)
    ensures Inward(ports, x) == Sent(ports[i].targets, ports[i].container)
  {
    if i > 0 {
      assert forall k :: 0 <= k < i - 1 ==> ports[1..][k] == ports[k + 1];
      InwardFirst(ports[1..], i - 1, x);
    }
  }

  /** In particular: a packet from another interface to a published port of this host goes to the
      container of that port, at the port inside, unless a rule that was there takes it or an earlier
      entry has the same number and protocol. */
  lemma PublishedPortLeads(a: Ruleset, network: string, ports: seq<Port>, i: nat, x: Packet)
    requires Consistent(a) && Plain(network) && ProperPorts(ports)
    requires i < |ports| && x.port == ports[i].host && x.proto == ports[i].proto && 0 < x.port < 65536
    requires x.iface != network && "(self)" in x.to && Translated(a.rdr, x).Untouched?
    requires forall k :: 0 <= k < i ==>
               0 < ports[k].host < 65536 && (ports[k].host != ports[i].host || ports[k].proto != ports[i].proto)
    ensures Translated(PublishAll(a, network, ports).rdr, x) == Sent(ports[i].targets, ports[i].container)
  {
    PublishedPortsLead(a, network, ports);
    InwardFirst(ports, i, x);
  }

  /** The rdr rules published are quick, but for the first one of a new anchor; the nat rules are not. */
  lemma {:induction false} PublishedQuick(a: Ruleset, network: string, ports: seq<Port>)
    requires Consistent(a)
    ensures var b := PublishAll(a, network, ports);
            && |b.rdr| == |a.rdr| + |ports| && a.rdr <= b.rdr && a.nat_ <= b.nat_
            && (forall k :: |a.rdr| <= k < |b.rdr| ==>
                  b.rdr[k].quick == if a.exists_ || k > |a.rdr| then 1 else 0)
            && (forall k :: |a.nat_| <= k < |b.nat_| ==> b.nat_[k].quick == 0)
            && b.filter == a.filter && (b.exists_ <==> a.exists_ || ports != [])
  {
    if ports != [] {
      PublishedQuick(a, network, ports[..|ports| - 1]);
    }
  }

  /** How add_rdr_ports ends: a request without a network is refused, and a target that is no address
      raises. */
  datatype Outcome = NoNetwork | Raised | Served

  /** One turn of the loop of add_rdr_ports. Without an address to redirect to, building the nat rule
      fails and the failure is swallowed. */
  method PublishPort(pf: Pf, network: string, p: Port) returns (ok: bool)
    requires pf.Valid()
    modifies pf
    ensures pf.Valid()
    ensures ok == p.parses
    ensures pf.anchors
            == if ok then old(pf.anchors)[AnchorOf(network) := Publish(Lookup(old(pf.anchors), AnchorOf(network)),
                                                                       network, p)]
               else old(pf.anchors)
  {
    var anchor := AnchorOf(network);
    var failed := pf.Append(anchor, Rdr, "!" + network, "0.0.0.0/0.0.0.0", "(self)", p.host, p.targets,
                            p.container, p.parses, p.proto, 1);
    if failed != 0 {
      return false;
    }
    if p.targets != [] {
      failed := pf.Append(anchor, Nat, network, "(lo0)", p.targets[0], p.container, [network],
                          -1, true, p.proto, 0);
    }
    ok := true;
  }

  /** add_rdr_ports. A target that is no address makes the rdr append fail, which raises and ends
      the loop. */
  method AddRdrPorts(pf: Pf, network: string, ports: seq<Port>) returns (outcome: Outcome)
    requires pf.Valid()
    modifies pf
    ensures pf.Valid()
    ensures outcome.NoNetwork? <==> network == ""
    ensures outcome.Raised? <==> network != "" && Accepted(ports) != ports
    ensures Published(old(pf.anchors), pf.anchors, network, ports,
                      if network == "" then 0 else |Accepted(ports)|)
    ensures Plain(network) && ProperPorts(ports) ==>
              Leads(Lookup(old(pf.anchors), "cni-rdr/" + network), Lookup(pf.anchors, "cni-rdr/" + network),
                    network, Accepted(ports))
  {
    if network == "" {
      return NoNetwork;
    }
    for i := 0 to |ports|
      invariant pf.Valid() && i <= |Accepted(ports)|
      invariant Published(old(pf.anchors), pf.anchors, network, ports, i)
    {
      ghost var now := pf.anchors;
      var ok := PublishPort(pf, network, ports[i]);
      if !ok {
        PublishedLeads(old(pf.anchors), now, network, ports, i);
        return Raised;
      }
      PublishesNext(old(pf.anchors), now, pf.anchors, network, ports, i);
    }
    PublishedLeads(old(pf.anchors), pf.anchors, network, ports, |ports|);
    outcome := Served;
  }

  lemma PublishedLeads(before: Anchors, now: Anchors, network: string, ports: seq<Port>, n: nat)
    requires Published(before, now, network, ports, n) && Consistent(Lookup(before, AnchorOf(network)))
    ensures Plain(network) && ProperPorts(ports) ==>
              Leads(Lookup(before, AnchorOf(network)), Lookup(now, AnchorOf(network)), network, ports[..n])
  {
    if Plain(network) && ProperPorts(ports) {
      PublishedPortsLead(Lookup(before, AnchorOf(network)), network, ports[..n]);
    }
  }

  /** The rule that start_network puts on the anchor: DNS queries from the subnet to its gateway go
      to the local resolver. */
  function DnsRule(network: string, subnet: string, gateway: string, quick: nat): Rule
  {
    Rule(network, subnet, gateway, Udp, 53, ["127.0.0.11/32"], 53, quick)
  }

  /** What start_network finds: no such network, or its interface is there, is made, or cannot be made. */
  datatype Interface = NoRow | Present | New | Failed

  /** It puts the rule on the anchor; the network "host" has none and is always started. */
  predicate Started(network: string, interface_: Interface)
  {
    network != "host" && (interface_.Present? || interface_.New?)
  }

  /** What a started network does to packets: DNS queries on it from its subnet to its gateway go to the
      local resolver, unless a rule that was there takes them; nothing else changes. */
  ghost predicate Resolves(before: Ruleset, after: Ruleset, network: string, subnet: string, gateway: string)
  {
    && after.nat_ == before.nat_ && after.filter == before.filter
    && forall x: Packet :: Translated(after.rdr, x) ==
         if Translated(before.rdr, x).Sent? then Translated(before.rdr, x)
         else if && x.iface == network && Covered(subnet, x.from) && Covered(gateway, x.to)
                 && x.proto == Udp && x.port == 53
              then Sent(["127.0.0.11/32"], 53) else Untouched
  }

  lemma DnsRuleResolves(a: Ruleset, network: string, subnet: string, gateway: string, quick: nat)
    requires Consistent(a) && Plain(network)
    ensures Resolves(a, Appended(a, Rdr, DnsRule(network, subnet, gateway, quick)), network, subnet, gateway)
  {
    var b := Appended(a, Rdr, DnsRule(network, subnet, gateway, quick));
    var r := b.rdr[|a.rdr|];
    assert b.rdr == a.rdr + [r];
    forall x: Packet
      ensures Translated(b.rdr, x) ==
              if Translated(a.rdr, x).Sent? then Translated(a.rdr, x)
              else if && x.iface == network && Covered(subnet, x.from) && Covered(gateway, x.to)
                      && x.proto == Udp && x.port == 53
                   then Sent(["127.0.0.11/32"], 53) else Untouched
    {
      LastDecidesRest(a.rdr, r, x);
    }
  }

  /** start_network as far as pf goes. */
  method StartNetwork(pf: Pf, network: string, subnet: string, gateway: string, interface_: Interface)
    returns (ok: bool)
    requires pf.Valid()
    modifies pf
    ensures pf.Valid()
    ensures ok <==> network == "host" || Started(network, interface_)
    ensures pf.anchors ==
      if !Started(network, interface_) then old(pf.anchors)
      else old(pf.anchors)[AnchorOf(network) :=
        Appended(Lookup(old(pf.anchors), AnchorOf(network)), Rdr,
                 DnsRule(network, subnet, gateway, if interface_.Present? then 1 else 0))]
    ensures Started(network, interface_) && Plain(network) ==>
              var before := Lookup(old(pf.anchors), "cni-rdr/" + network);
              var after := Lookup(pf.anchors, "cni-rdr/" + network);
              && Resolves(before, after, network, subnet, gateway)
              && |after.rdr| == |before.rdr| + 1
              && after.rdr[|before.rdr|].quick == if interface_.Present? && before.exists_ then 1 else 0
  {
    if network == "host" {
      return true;
    }
    if interface_.NoRow? || interface_.Failed? {
      return false;
    }
    var quick := if interface_.Present? then 1 else 0;
    var failed := pf.Append(AnchorOf(network), Rdr, network, subnet, gateway, 53, ["127.0.0.11/32"], 53, true,
                            Udp, quick);
    if Plain(network) {
      DnsRuleResolves(Lookup(old(pf.anchors), AnchorOf(network)), network, subnet, gateway, quick);
    }
    ok := true;
  }

  // ---- Stopping ----

  function Withdraw(a: Ruleset, p: Port): Ruleset
  {
    NatRemoved(RdrRemoved(a, p.host, p.proto), p.container, p.proto)
  }

  /** What stopping a container does to the anchor of one of its networks. */
  function WithdrawAll(a: Ruleset, ports: seq<Port>): Ruleset
  {
    if ports == [] then a
    else Withdraw(WithdrawAll(a, ports[..|ports| - 1]), ports[|ports| - 1])
  }

  /** At most 16 rules match any of the removals, the size of the position buffer. */
  predicate Small(a: Ruleset, ports: seq<Port>)
  {
    forall k :: 0 <= k < |ports| ==>
      && MatchCount(a.rdr, ports[k].host, ports[k].proto) <= 16
      && MatchCount(a.nat_, ports[k].container, ports[k].proto) <= 16
  }

  lemma {:induction false} RemovalShrinks(rules: seq<Rule>, n: nat, port: int, proto: Proto, port': int, proto': Proto)
    requires n <= |rules|
    ensures MatchCount(Kept(rules, n, port, proto), port', proto')
            <= |Positions(rules, n, port', proto')|
  {
    if n > 0 {
      RemovalShrinks(rules, n - 1, port, proto, port', proto');
      if !Matches(rules[n - 1], port, proto) {
        MatchCountSnoc(Kept(rules, n - 1, port, proto), rules[n - 1], port', proto');
      }
    }
  }

  lemma WithdrawKeepsSmall(a: Ruleset, p: Port, ports: seq<Port>)
    requires Small(a, ports)
    ensures Small(RdrRemoved(a, p.host, p.proto), ports)
    ensures Small(Withdraw(a, p), ports)
  {
    var b := RdrRemoved(a, p.host, p.proto);
    forall k | 0 <= k < |ports|
      ensures MatchCount(b.rdr, ports[k].host, ports[k].proto) <= 16
      ensures MatchCount(b.nat_, ports[k].container, ports[k].proto) <= 16
    {
      RemovalShrinks(a.rdr, |a.rdr|, p.host, p.proto, ports[k].host, ports[k].proto);
    }
    forall k | 0 <= k < |ports|
      ensures MatchCount(Withdraw(a, p).nat_, ports[k].container, ports[k].proto) <= 16
    {
      RemovalShrinks(b.nat_, |b.nat_|, p.container, p.proto, ports[k].container, ports[k].proto);
    }
  }

  /** One turn of the inner loop of stop_jail. */
  method WithdrawPort(pf: Pf, anchor: string, p: Port)
    requires pf.Valid() && Small(Lookup(pf.anchors, anchor), [p])
    modifies pf
    ensures pf.Valid()
    ensures pf.anchors == if anchor in old(pf.anchors)
                          then old(pf.anchors)[anchor := Withdraw(old(pf.anchors)[anchor], p)]
                          else old(pf.anchors)
  {
    WithdrawKeepsSmall(Lookup(pf.anchors, anchor), p, [p]);
    assert [p][0] == p;
    var rdr := pf.RemoveRdrPortRule(anchor, p.host, p.proto);
    var nat_ := pf.RemoveNatPortRule(anchor, p.container, p.proto);
  }

  predicate Distinct(names: seq<string>)
  {
    forall a, b :: 0 <= a < b < |names| ==> names[a] != names[b]
  }

  /** The anchors after withdrawing `done` ports everywhere, and one more on the first
      `half` networks. */
  predicate StopReached(before: Anchors, now: Anchors, ports: seq<Port>, networks: seq<string>,
                        done: nat, half: nat)
    requires done <= |ports| && half <= |networks| && (half > 0 ==> done < |ports|)
  {
    && now.Keys == before.Keys
    && (forall anchor :: anchor in before && (forall k :: 0 <= k < |networks| ==> AnchorOf(networks[k]) != anchor)
                         ==> now[anchor] == before[anchor])
    && (forall k :: 0 <= k < |networks| && AnchorOf(networks[k]) in before ==>
          now[AnchorOf(networks[k])]
          == WithdrawAll(before[AnchorOf(networks[k])], ports[..if k < half then done + 1 else done]))
  }

  lemma {:induction false} WithdrawAllKeepsSmall(a: Ruleset, ports: seq<Port>, all: seq<Port>)
    requires Small(a, all)
    ensures Small(WithdrawAll(a, ports), all)
  {
    if ports != [] {
      WithdrawAllKeepsSmall(a, ports[..|ports| - 1], all);
      WithdrawKeepsSmall(WithdrawAll(a, ports[..|ports| - 1]), ports[|ports| - 1], all);
    }
  }

  lemma StopAdvances(before: Anchors, now: Anchors, next: Anchors, ports: seq<Port>, networks: seq<string>,
                     i: nat, j: nat)
    requires i < |ports| && j < |networks| && Distinct(networks)
    requires StopReached(before, now, ports, networks, i, j)
    requires var anchor := AnchorOf(networks[j]);
             next == if anchor in now then now[anchor := Withdraw(now[anchor], ports[i])] else now
    ensures StopReached(before, next, ports, networks, i, j + 1)
  {
    forall k | 0 <= k < |networks| && k != j
      ensures AnchorOf(networks[k]) != AnchorOf(networks[j])
    {
      assert AnchorOf(networks[k])[8..] == networks[k] && AnchorOf(networks[j])[8..] == networks[j];
    }
    assert ports[..i + 1][..i] == ports[..i];
  }

  /** The port loop of stop_jail: every port of the container, on every network it is on. */
  method StopContainerPorts(pf: Pf, ports: seq<Port>, networks: seq<string>)
    requires pf.Valid() && Distinct(networks)
    requires forall k :: 0 <= k < |networks| ==> Small(Lookup(pf.anchors, AnchorOf(networks[k])), ports)
    modifies pf
    ensures pf.Valid()
    ensures StopReached(old(pf.anchors), pf.anchors, ports, networks, |ports|, 0)
  {
    ghost var before := pf.anchors;
    for i := 0 to |ports|
      invariant pf.Valid()
      invariant StopReached(before, pf.anchors, ports, networks, i, 0)
    {
      for j := 0 to |networks|
        invariant pf.Valid()
        invariant StopReached(before, pf.anchors, ports, networks, i, j)
      {
        ghost var now := pf.anchors;
        ghost var anchor := AnchorOf(networks[j]);
        WithdrawAllKeepsSmall(Lookup(before, anchor), ports[..i], ports);
        assert anchor in before ==> now[anchor] == WithdrawAll(before[anchor], ports[..i]);
        WithdrawPort(pf, AnchorOf(networks[j]), ports[i]);
        StopAdvances(before, now, pf.anchors, ports, networks, i, j);
      }
    }
  }

  // ---- What that means for the rules ----

  /** A port and protocol that a removal names. */
  datatype Pair = Pair(port: int, proto: Proto)

  /** What a stop removes rdr rules by, and what it removes nat rules by. */
  function Hosts(ports: seq<Port>): (pairs: seq<Pair>)
    ensures |pairs| == |ports|
  {
    seq(|ports|, k requires 0 <= k < |ports| => Pair(ports[k].host, ports[k].proto))
  }

  function Insides(ports: seq<Port>): (pairs: seq<Pair>)
    ensures |pairs| == |ports|
  {
    seq(|ports|, k requires 0 <= k < |ports| => Pair(ports[k].container, ports[k].proto))
  }

  lemma PairsSnoc(ports: seq<Port>, p: Port)
    ensures Hosts(ports + [p]) == Hosts(ports) + [Pair(p.host, p.proto)]
    ensures Insides(ports + [p]) == Insides(ports) + [Pair(p.container, p.proto)]
  {
  }

  predicate OnSome(r: Rule, pairs: seq<Pair>)
  {
    exists k :: 0 <= k < |pairs| && Matches(r, pairs[k].port, pairs[k].proto)
  }

  /** The rules below n that are on none of the pairs, in order. */
  function OthersBelow(rules: seq<Rule>, n: nat, pairs: seq<Pair>): seq<Rule>
    requires n <= |rules|
  {
    if n == 0 then []
    else if OnSome(rules[n - 1], pairs) then OthersBelow(rules, n - 1, pairs)
    else OthersBelow(rules, n - 1, pairs) + [rules[n - 1]]
  }

  function Others(rules: seq<Rule>, pairs: seq<Pair>): seq<Rule>
  {
    OthersBelow(rules, |rules|, pairs)
  }

  lemma OnSomeSnoc(r: Rule, pairs: seq<Pair>, p: Pair)
    ensures OnSome(r, pairs + [p]) <==> OnSome(r, pairs) || Matches(r, p.port, p.proto)
  {
    var all := pairs + [p];
    assert all[|pairs|] == p;
    assert forall k :: 0 <= k < |pairs| ==> all[k] == pairs[k];
  }

  lemma {:induction false} OthersSnoc(rules: seq<Rule>, n: nat, pairs: seq<Pair>, p: Pair)
    requires n <= |rules|
    ensures Unmatched(OthersBelow(rules, n, pairs), p.port, p.proto) == OthersBelow(rules, n, pairs + [p])
  {
    if n > 0 {
      OthersSnoc(rules, n - 1, pairs, p);
      OnSomeSnoc(rules[n - 1], pairs, p);
      if !OnSome(rules[n - 1], pairs) {
        UnmatchedSnoc(OthersBelow(rules, n - 1, pairs), rules[n - 1], p.port, p.proto);
      }
    }
  }

  lemma {:induction false} OthersOfFree(rules: seq<Rule>, n: nat, pairs: seq<Pair>)
    requires n <= |rules| && forall k :: 0 <= k < |rules| ==> !OnSome(rules[k], pairs)
    ensures OthersBelow(rules, n, pairs) == rules[..n]
  {
    if n > 0 {
      OthersOfFree(rules, n - 1, pairs);
      assert rules[..n] == rules[..n - 1] + [rules[n - 1]];
    }
  }

  lemma AllOthers(rules: seq<Rule>, pairs: seq<Pair>)
    requires forall k :: 0 <= k < |rules| ==> !OnSome(rules[k], pairs)
    ensures Others(rules, pairs) == rules
  {
    OthersOfFree(rules, |rules|, pairs);
    assert rules[..|rules|] == rules;
  }

  /** What stopping a container leaves on each of its networks: the rdr rules on none of its (host
      port, protocol) pairs, in order; and the nat rules on none of its (container port, protocol)
      pairs, in order, unless no rdr rule is left, when no nat rule is left either. */
  lemma {:induction false} StopLeavesOthers(a: Ruleset, ports: seq<Port>)
    requires Consistent(a)
    ensures Consistent(WithdrawAll(a, ports)) && WithdrawAll(a, ports).exists_ == a.exists_
    ensures WithdrawAll(a, ports).rdr == Others(a.rdr, Hosts(ports))
    ensures WithdrawAll(a, ports).nat_
            == if ports != [] && Others(a.rdr, Hosts(ports)) == [] then [] else Others(a.nat_, Insides(ports))
  {
    if ports == [] {
      AllOthers(a.rdr, []);
      AllOthers(a.nat_, []);
    } else {
      var fewer, p := ports[..|ports| - 1], ports[|ports| - 1];
      assert ports == fewer + [p];
      StopLeavesOthers(a, fewer);
      PairsSnoc(fewer, p);
      OthersSnoc(a.rdr, |a.rdr|, Hosts(fewer), Pair(p.host, p.proto));
      OthersSnoc(a.nat_, |a.nat_|, Insides(fewer), Pair(p.container, p.proto));
      AllRecordedIsAllMatch(WithdrawAll(a, fewer).rdr, p.host, p.proto);
    }
  }

  lemma {:induction false} InOthersBelow(rules: seq<Rule>, n: nat, pairs: seq<Pair>, r: Rule)
    requires n <= |rules|
    ensures r in OthersBelow(rules, n, pairs) <==> r in rules[..n] && !OnSome(r, pairs)
  {
    if n > 0 {
      InOthersBelow(rules, n - 1, pairs, r);
      assert rules[..n] == rules[..n - 1] + [rules[n - 1]];
    }
  }

  lemma InOthers(rules: seq<Rule>, pairs: seq<Pair>, r: Rule)
    ensures r in Others(rules, pairs) <==> r in rules && !OnSome(r, pairs)
  {
    InOthersBelow(rules, |rules|, pairs, r);
    assert rules[..|rules|] == rules;
  }

  /** Exactly when a nat rule, whoever put it there, survives a stop: its container port is none of
      the stopped container's, and some rdr rule stays. */
  lemma StopSparesNatIff(a: Ruleset, ports: seq<Port>, r: Rule)
    requires Consistent(a) && r in a.nat_
    ensures r in WithdrawAll(a, ports).nat_
            <==> !OnSome(r, Insides(ports)) && (ports == [] || Others(a.rdr, Hosts(ports)) != [])
  {
    StopLeavesOthers(a, ports);
    InOthers(a.nat_, Insides(ports), r);
    if ports == [] {
      assert !OnSome(r, Insides(ports));
    }
  }

  /** While the DNS rule of the network is on the anchor, a stop of a container that does not publish
      53/udp leaves exactly the nat rules on none of its container ports. */
  lemma DnsRuleShields(a: Ruleset, dns: Rule, ports: seq<Port>, r: Rule)
    requires Consistent(a) && dns in a.rdr && dns.proto == Udp && dns.dstPort == 53
    requires forall k :: 0 <= k < |ports| ==> ports[k].proto != Udp || PortWord(ports[k].host) != 53
    ensures dns in WithdrawAll(a, ports).rdr
    ensures r in WithdrawAll(a, ports).nat_ <==> r in a.nat_ && !OnSome(r, Insides(ports))
  {
    StopLeavesOthers(a, ports);
    InOthers(a.rdr, Hosts(ports), dns);
    InOthers(a.nat_, Insides(ports), r);
  }

  lemma {:induction false} OthersTranslate(rules: seq<Rule>, n: nat, pairs: seq<Pair>, x: Packet)
    requires n <= |rules|
    requires forall k :: 0 <= k < |rules| && Hits(rules[k], x) ==> !OnSome(rules[k], pairs)
    ensures Translated(OthersBelow(rules, n, pairs), x) == Translated(rules[..n], x)
  {
    if n > 0 {
      OthersTranslate(rules, n - 1, pairs, x);
      assert rules[..n] == rules[..n - 1] + [rules[n - 1]];
      LastDecidesRest(rules[..n - 1], rules[n - 1], x);
      LastDecidesRest(OthersBelow(rules, n - 1, pairs), rules[n - 1], x);
    }
  }

  lemma {:induction false} NothingHits(rules: seq<Rule>, x: Packet)
    requires forall r :: r in rules ==> !Hits(r, x)
    ensures Translated(rules, x) == Untouched
  {
    if rules != [] {
      assert rules[0] in rules && forall r :: r in rules[1..] ==> r in rules;
      NothingHits(rules[1..], x);
    }
  }

  /** Every rule of the list names a port. */
  predicate Numbered(rules: seq<Rule>)
  {
    forall k :: 0 <= k < |rules| ==> rules[k].dstPort != 0
  }

  predicate Publishes(ports: seq<Port>, port: int, proto: Proto)
  {
    exists k :: 0 <= k < |ports| && ports[k].host == port && ports[k].proto == proto
  }

  lemma OnHostPort(r: Rule, ports: seq<Port>)
    requires forall k :: 0 <= k < |ports| ==> 0 < ports[k].host < 65536
    ensures OnSome(r, Hosts(ports)) <==> Publishes(ports, r.dstPort, r.proto)
  {
    var pairs := Hosts(ports);
    assert forall k :: 0 <= k < |ports| ==> pairs[k] == Pair(ports[k].host, ports[k].proto);
    assert forall k :: 0 <= k < |ports| ==>
        (Matches(r, ports[k].host, ports[k].proto) <==> r.dstPort == ports[k].host && r.proto == ports[k].proto);
  }

  /** What stopping a container does to packets from outside, when every rdr rule names a port: those to
      one of its host ports are redirected no more, whoever published it too, and all others go where
      they went. */
  lemma StopEndsRedirection(a: Ruleset, ports: seq<Port>, x: Packet)
    requires Consistent(a) && Numbered(a.rdr)
    requires forall k :: 0 <= k < |ports| ==> 0 < ports[k].host < 65536
    ensures Translated(WithdrawAll(a, ports).rdr, x)
            == if exists k :: 0 <= k < |ports| && ports[k].host == x.port && ports[k].proto == x.proto
               then Untouched else Translated(a.rdr, x)
  {
    StopLeavesOthers(a, ports);
    var left, pairs := WithdrawAll(a, ports).rdr, Hosts(ports);
    if Publishes(ports, x.port, x.proto) {
      forall r | r in left
        ensures !Hits(r, x)
      {
        InOthers(a.rdr, pairs, r);
        OnHostPort(r, ports);
      }
      NothingHits(left, x);
    } else {
      forall k | 0 <= k < |a.rdr| && Hits(a.rdr[k], x)
        ensures !OnSome(a.rdr[k], pairs)
      {
        OnHostPort(a.rdr[k], ports);
      }
      OthersTranslate(a.rdr, |a.rdr|, pairs, x);
      assert a.rdr[..|a.rdr|] == a.rdr;
    }
  }

  /** A network with its DNS rule on which two containers publish different host ports and listen on
      the same port inside. */
  function SharedInside(network: string, first: Port, second: Port): Ruleset
  {
    var started := Appended(ABSENT, Rdr, DnsRule(network, "10.0.0.0/24", "10.0.0.1", 0));
    PublishAll(started, network, [first, second])
  }

  lemma TwoPublished(a: Ruleset, network: string, first: Port, second: Port)
    ensures PublishAll(a, network, [first, second]) == Publish(Publish(a, network, first), network, second)
  {
    assert [first, second][..1] == [first] && [first][..0] == [];
    assert PublishAll(a, network, [first]) == Publish(a, network, first);
  }

  lemma SharedInsideRules(network: string, first: Port, second: Port)
    requires first.targets != [] && second.targets != []
    ensures var both := SharedInside(network, first, second);
            && Consistent(both)
            && both.nat_ == [NatRule(network, first), NatRule(network, second)]
            && both.rdr == [DnsRule(network, "10.0.0.0/24", "10.0.0.1", 0), RdrRule(network, first),
                            RdrRule(network, second)]
  {
    TwoPublished(Appended(ABSENT, Rdr, DnsRule(network, "10.0.0.0/24", "10.0.0.1", 0)), network, first, second);
  }

  /** Stopping the first takes the nat rule of the second along, though the DNS rule and the rdr rule
      of the second stay: the removal goes by container port and protocol alone. */
  lemma NatLostWithSharedInside(network: string)
    ensures var first := Port(8080, 80, Tcp, ["10.0.0.2"], true);
            var second := Port(8081, 80, Tcp, ["10.0.0.3"], true);
            var both := SharedInside(network, first, second);
            var after := WithdrawAll(both, [first]);
            && NatRule(network, first) != NatRule(network, second) && NatRule(network, second) in both.nat_
            && DnsRule(network, "10.0.0.0/24", "10.0.0.1", 0) in after.rdr
            && RdrRule(network, second) in after.rdr && after.nat_ == []
  {
    var first := Port(8080, 80, Tcp, ["10.0.0.2"], true);
    var second := Port(8081, 80, Tcp, ["10.0.0.3"], true);
    var both := SharedInside(network, first, second);
    SharedInsideRules(network, first, second);
    StopLeavesOthers(both, [first]);
    InOthers(both.rdr, Hosts([first]), both.rdr[0]);
    InOthers(both.rdr, Hosts([first]), both.rdr[2]);
    assert Insides([first])[0] == Pair(80, Tcp);
    assert Matches(both.nat_[0], 80, Tcp) && Matches(both.nat_[1], 80, Tcp);
    NoOthers(both.nat_, |both.nat_|, Insides([first]));
  }

  lemma {:induction false} NoOthers(rules: seq<Rule>, n: nat, pairs: seq<Pair>)
    requires n <= |rules| && forall k :: 0 <= k < |rules| ==> OnSome(rules[k], pairs)
    ensures OthersBelow(rules, n, pairs) == []
  {
    if n > 0 {
      NoOthers(rules, n - 1, pairs);
    }
  }

  /** Two containers publish the same host port on a network whose DNS rule is not there; stopping
      the first takes the nat rule of the second along. */
  lemma NatLostWithSharedPort(network: string)
    ensures var first := Port(80, 8080, Tcp, ["10.0.0.2"], true);
            var second := Port(80, 9000, Tcp, ["10.0.0.3"], true);
            var both := PublishAll(ABSENT, network, [first, second]);
            && NatRule(network, second) in both.nat_ && !OnSome(NatRule(network, second), Insides([first]))
            && WithdrawAll(both, [first]).nat_ == []
  {
    var first := Port(80, 8080, Tcp, ["10.0.0.2"], true);
    var second := Port(80, 9000, Tcp, ["10.0.0.3"], true);
    var both := PublishAll(ABSENT, network, [first, second]);
    TwoPublished(ABSENT, network, first, second);
    assert both.nat_ == [NatRule(network, first), NatRule(network, second)];
    assert [first] == [] + [first] && WithdrawAll(both, []) == both;
    assert AllMatch(both.rdr, 80, Tcp);
  }

  lemma {:induction false} OthersPrefix(rules: seq<Rule>, more: seq<Rule>, n: nat, pairs: seq<Pair>)
    requires n <= |rules|
    ensures OthersBelow(rules + more, n, pairs) == OthersBelow(rules, n, pairs)
  {
    if n > 0 {
      OthersPrefix(rules, more, n - 1, pairs);
    }
  }

  lemma OthersSkip(rules: seq<Rule>, r: Rule, pairs: seq<Pair>)
    requires OnSome(r, pairs)
    ensures Others(rules + [r], pairs) == Others(rules, pairs)
  {
    OthersPrefix(rules, [r], |rules|, pairs);
  }

  /** Publishing a port appends one rdr rule and at most one nat rule, both on the port. */
  lemma PublishAppends(a: Ruleset, network: string, p: Port) returns (r: Rule, n: seq<Rule>)
    requires Consistent(a) && p.host >= 0 && p.container >= 0
    ensures var b := Publish(a, network, p);
            Consistent(b) && b.rdr == a.rdr + [r] && b.nat_ == a.nat_ + n
    ensures Matches(r, p.host, p.proto)
    ensures n == [] || (|n| == 1 && Matches(n[0], p.container, p.proto))
  {
    var b := Publish(a, network, p);
    r, n := b.rdr[|a.rdr|], b.nat_[|a.nat_|..];
  }

  lemma {:induction false} PublishedIsOwn(a: Ruleset, network: string, ports: seq<Port>, n: nat)
    requires Consistent(a) && n <= |ports|
    requires forall k :: 0 <= k < |ports| ==> ports[k].host >= 0 && ports[k].container >= 0
    ensures var b := PublishAll(a, network, ports[..n]);
            && Consistent(b)
            && Others(b.rdr, Hosts(ports)) == Others(a.rdr, Hosts(ports))
            && Others(b.nat_, Insides(ports)) == Others(a.nat_, Insides(ports))
  {
    if n > 0 {
      PublishedIsOwn(a, network, ports, n - 1);
      var before, p := PublishAll(a, network, ports[..n - 1]), ports[n - 1];
      assert ports[..n][..n - 1] == ports[..n - 1];
      var r, added := PublishAppends(before, network, p);
      assert Hosts(ports)[n - 1] == Pair(p.host, p.proto) && Insides(ports)[n - 1] == Pair(p.container, p.proto);
      OthersSkip(before.rdr, r, Hosts(ports));
      if added == [] {
        assert before.nat_ + added == before.nat_;
      } else {
        assert added == [added[0]];
        OthersSkip(before.nat_, added[0], Insides(ports));
      }
    }
  }

  predicate NoneOn(rules: seq<Rule>, pairs: seq<Pair>)
  {
    forall k :: 0 <= k < |rules| ==> !OnSome(rules[k], pairs)
  }

  /** Taking away the rules on some pairs restores a list exactly when none of it was on them. */
  lemma RestoredIff(rules: seq<Rule>, pairs: seq<Pair>)
    ensures Others(rules, pairs) == rules <==> NoneOn(rules, pairs)
  {
    if NoneOn(rules, pairs) {
      AllOthers(rules, pairs);
    } else {
      var k :| 0 <= k < |rules| && OnSome(rules[k], pairs);
      InOthers(rules, pairs, rules[k]);
    }
  }

  /** Publishing and then stopping restores the rdr list exactly when no rule of it was on the host
      ports; and the nat list exactly when it was empty, or nothing was published, or none of it was
      on the container ports and an rdr rule of another port stays. */
  lemma StopUndoesPublish(a: Ruleset, network: string, ports: seq<Port>)
    requires Consistent(a)
    requires forall k :: 0 <= k < |ports| ==> ports[k].host >= 0 && ports[k].container >= 0
    ensures WithdrawAll(PublishAll(a, network, ports), ports).rdr == a.rdr <==> NoneOn(a.rdr, Hosts(ports))
    ensures WithdrawAll(PublishAll(a, network, ports), ports).nat_ == a.nat_
            <==> a.nat_ == [] || ports == []
                 || (NoneOn(a.nat_, Insides(ports)) && Others(a.rdr, Hosts(ports)) != [])
  {
    PublishedIsOwn(a, network, ports, |ports|);
    assert ports[..|ports|] == ports;
    StopLeavesOthers(PublishAll(a, network, ports), ports);
    RestoredIff(a.rdr, Hosts(ports));
    RestoredIff(a.nat_, Insides(ports));
    assert a.nat_ == [] || ports == [] ==> NoneOn(a.nat_, Insides(ports));
  }
}
