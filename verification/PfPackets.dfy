/** What a list of translation rules does to a packet: the first rule that hits it decides. */
module PfPackets {
  import opened PfRules

  /** A packet as the rules see it: the interface it is on, the address texts that cover its source
      and its destination, its destination port and its protocol. */
  datatype Packet = Packet(iface: string, from: set<string>, to: set<string>, port: nat, proto: Proto)

  /** An interface given as a name, as "!" and a name for every other one, or not at all. */
  predicate OnInterface(text: string, iface: string)
  {
    if text == "" || text == "!" then true
    else if text[0] == '!' then iface != text[1..]
    else iface == text
  }

  predicate Covered(text: string, texts: set<string>)
  {
    text == "0.0.0.0/0.0.0.0" || text in texts
  }

  predicate Hits(r: Rule, x: Packet)
  {
    && OnInterface(r.ifname, x.iface)
    && Covered(r.src, x.from) && Covered(r.dst, x.to)
    && r.proto == x.proto && (r.dstPort == 0 || r.dstPort == x.port)
  }

  /** Where a packet is sent: on, or to one of the targets at a port. */
  datatype Verdict = Untouched | Sent(targets: seq<string>, port: int)

  function Translated(rules: seq<Rule>, x: Packet): Verdict
  {
    if rules == [] then Untouched
    else if Hits(rules[0], x) then Sent(rules[0].targets, rules[0].toPort)
    else Translated(rules[1..], x)
  }

  /** A rule at the end decides only what no rule before it does. */
  lemma {:induction false} LastDecidesRest(rules: seq<Rule>, r: Rule, x: Packet)
    ensures Translated(rules + [r], x)
            == if Translated(rules, x).Sent? then Translated(rules, x)
               else if Hits(r, x) then Sent(r.targets, r.toPort) else Untouched
  {
    if rules == [] {
      assert Translated([r][1..], x) == Untouched;
    } else {
      assert (rules + [r])[1..] == rules[1..] + [r];
      LastDecidesRest(rules[1..], r, x);
    }
  }
}
