/** The rule lists of pf anchors: append-or-create, and removal by port in two passes. */
module PfRules {

  datatype Proto = Tcp | Udp

  /** What a rule matches and does: interface, source and destination as given, protocol, and the
      16-bit destination port word, 0 when the rule names no port; the addresses it redirects to
      and the port there; and the quick flag. */
  datatype Rule = Rule(ifname: string, src: string, dst: string, proto: Proto, dstPort: nat,
                       targets: seq<string>, toPort: int, quick: nat)

  datatype Action = Rdr | Nat

  /** One anchor: whether pf knows it, and its three rule lists. */
  datatype Ruleset = Ruleset(exists_: bool, rdr: seq<Rule>, nat_: seq<Rule>, filter: seq<Rule>)

  const ABSENT := Ruleset(false, [], [], [])

  /** pf drops an anchor only when it is empty, so an anchor it does not know has no rules. */
  predicate Consistent(a: Ruleset)
  {
    a.exists_ || a == ABSENT
  }

  function Lookup(anchors: map<string, Ruleset>, name: string): Ruleset
  {
    if name in anchors then anchors[name] else ABSENT
  }

  function RulesOf(a: Ruleset, action: Action): seq<Rule>
  {
    if action == Rdr then a.rdr else a.nat_
  }

  function WithRules(a: Ruleset, action: Action, rules: seq<Rule>): Ruleset
  {
    if action == Rdr then a.(rdr := rules) else a.(nat_ := rules)
  }

  /** One list of one anchor replaced. */
  function Put(anchors: map<string, Ruleset>, anchor: string, action: Action, rules: seq<Rule>)
    : map<string, Ruleset>
  {
    anchors[anchor := WithRules(Lookup(anchors, anchor), action, rules)]
  }

  lemma PutSame(anchors: map<string, Ruleset>, anchor: string, action: Action)
    requires anchor in anchors
    ensures Put(anchors, anchor, action, RulesOf(anchors[anchor], action)) == anchors
  {
  }

  function DropNth(rules: seq<Rule>, nr: int): seq<Rule>
  {
    if 0 <= nr < |rules| then rules[..nr] + rules[nr + 1..] else rules
  }

  /** The kernel's removal by position, which it refuses past the end. */
  function NthRemoved(anchors: map<string, Ruleset>, anchor: string, nr: int, action: Action)
    : map<string, Ruleset>
    requires anchor in anchors
  {
    Put(anchors, anchor, action, DropNth(RulesOf(anchors[anchor], action), nr))
  }

  /** htons: a port argument as the 16-bit word of a rule. */
  function PortWord(port: int): nat
  {
    port % 0x1_0000
  }

  /** The word a new rule gets: only positive ports are stored. */
  function StoredPort(port: int): nat
  {
    if port > 0 then PortWord(port) else 0
  }

  predicate Matches(r: Rule, port: int, proto: Proto)
  {
    r.dstPort == PortWord(port) && r.proto == proto
  }

  /** The rules below position n that do not match, in their order. */
  function Kept(rules: seq<Rule>, n: nat, port: int, proto: Proto): seq<Rule>
    requires n <= |rules|
  {
    if n == 0 then []
    else if Matches(rules[n - 1], port, proto) then Kept(rules, n - 1, port, proto)
    else Kept(rules, n - 1, port, proto) + [rules[n - 1]]
  }

  /** What a removal leaves of a list. */
  function Unmatched(rules: seq<Rule>, port: int, proto: Proto): seq<Rule>
  {
    Kept(rules, |rules|, port, proto)
  }

  /** The positions below n whose rules match, in increasing order. */
  function Positions(rules: seq<Rule>, n: nat, port: int, proto: Proto): (marks: seq<int>)
    requires n <= |rules|
    ensures |marks| <= n
  {
    if n == 0 then []
    else if Matches(rules[n - 1], port, proto) then Positions(rules, n - 1, port, proto) + [n - 1]
    else Positions(rules, n - 1, port, proto)
  }

  function MatchCount(rules: seq<Rule>, port: int, proto: Proto): nat
  {
    |Positions(rules, |rules|, port, proto)|
  }

  predicate AllMatch(rules: seq<Rule>, port: int, proto: Proto)
  {
    forall k :: 0 <= k < |rules| ==> Matches(rules[k], port, proto)
  }

  // ---- What each call does to one anchor ----

  /** Append at the tail of an anchor pf knows; otherwise begin and commit a list of one,
      which forgets the quick flag. */
  function Appended(a: Ruleset, action: Action, r: Rule): Ruleset
  {
    var stored := if a.exists_ then r else r.(quick := 0);
    match action
    case Rdr => Ruleset(true, if a.exists_ then a.rdr + [stored] else [stored], a.nat_, a.filter)
    case Nat => Ruleset(true, a.rdr, if a.exists_ then a.nat_ + [stored] else [stored], a.filter)
  }

  /** When every rdr rule matches, the whole anchor is cleared, nat and filter included. */
  function RdrRemoved(a: Ruleset, port: int, proto: Proto): Ruleset
  {
    if !a.exists_ then a
    else if AllMatch(a.rdr, port, proto) then Ruleset(true, [], [], [])
    else a.(rdr := Unmatched(a.rdr, port, proto))
  }

  function NatRemoved(a: Ruleset, port: int, proto: Proto): Ruleset
  {
    if a.exists_ then a.(nat_ := Unmatched(a.nat_, port, proto)) else a
  }

  // ---- Facts about the filter ----

  lemma {:induction false} KeptOfPrefix(rules: seq<Rule>, more: seq<Rule>, n: nat, port: int, proto: Proto)
    requires n <= |rules|
    ensures Kept(rules + more, n, port, proto) == Kept(rules, n, port, proto)
  {
    if n > 0 {
      KeptOfPrefix(rules, more, n - 1, port, proto);
    }
  }

  lemma UnmatchedSnoc(rules: seq<Rule>, r: Rule, port: int, proto: Proto)
    ensures Unmatched(rules + [r], port, proto)
            == if Matches(r, port, proto) then Unmatched(rules, port, proto)
               else Unmatched(rules, port, proto) + [r]
  {
    KeptOfPrefix(rules, [r], |rules|, port, proto);
  }

  // ---- Ports as numbers ----

  /** A stored port and a port to remove have the same word exactly when they differ by a multiple of
      65536, a port that is not positive being stored as 0. */
  lemma WordsAgreeIff(p: int, q: int)
    ensures StoredPort(p) == PortWord(q) <==> (if p > 0 then p - q else q) % 65536 == 0
  {
  }

  /** A rule just appended with destination port p is taken by a removal of q exactly when the numbers
      are the same and the protocols are; a removal that spares it leaves it last. */
  lemma RemovalTakesItsPort(a: Ruleset, action: Action, r: Rule, p: int, q: int, proto: Proto)
    requires Consistent(a) && 0 < p < 65536 && 0 < q < 65536 && r.dstPort == StoredPort(p)
    ensures var after := Appended(a, action, r);
            var stored := r.(quick := if a.exists_ then r.quick else 0);
            && RulesOf(after, action) == RulesOf(a, action) + [stored]
            && (action == Rdr ==>
                  RdrRemoved(after, q, proto).rdr
                  == RdrRemoved(a, q, proto).rdr + (if p == q && r.proto == proto then [] else [stored]))
            && (action == Nat ==>
                  NatRemoved(after, q, proto).nat_
                  == NatRemoved(a, q, proto).nat_ + (if p == q && r.proto == proto then [] else [stored]))
  {
    var stored := r.(quick := if a.exists_ then r.quick else 0);
    assert [] + [stored] == [stored];
    UnmatchedSnoc(RulesOf(a, action), stored, q, proto);
    AllRecordedIsAllMatch(RulesOf(a, action), q, proto);
    AllRecordedIsAllMatch(RulesOf(a, action) + [stored], q, proto);
  }

  /** A removal keeps exactly the rules of another number or another protocol. */
  lemma {:induction false} KeptByNumber(rules: seq<Rule>, n: nat, port: int, proto: Proto, r: Rule)
    requires n <= |rules| && 0 < port < 65536
    ensures r in Kept(rules, n, port, proto) <==> r in rules[..n] && (r.dstPort != port || r.proto != proto)
  {
    if n > 0 {
      KeptByNumber(rules, n - 1, port, proto, r);
      assert rules[..n] == rules[..n - 1] + [rules[n - 1]];
    }
  }

  /** Every rule is either kept or recorded. */
  lemma {:induction false} KeptOrRecorded(rules: seq<Rule>, n: nat, port: int, proto: Proto)
    requires n <= |rules|
    ensures |Kept(rules, n, port, proto)| + |Positions(rules, n, port, proto)| == n
  {
    if n > 0 {
      KeptOrRecorded(rules, n - 1, port, proto);
    }
  }

  lemma {:induction false} PositionsGrow(rules: seq<Rule>, m: nat, n: nat, port: int, proto: Proto)
    requires m <= n <= |rules|
    ensures Positions(rules, m, port, proto) <= Positions(rules, n, port, proto)
  {
    if m < n {
      PositionsGrow(rules, m, n - 1, port, proto);
    }
  }

  lemma {:induction false} NothingKept(rules: seq<Rule>, n: nat, port: int, proto: Proto)
    requires n <= |rules|
    ensures (forall k :: 0 <= k < n ==> Matches(rules[k], port, proto))
            <==> Kept(rules, n, port, proto) == []
  {
    if n > 0 {
      NothingKept(rules, n - 1, port, proto);
    }
  }

  lemma AllRecordedIsAllMatch(rules: seq<Rule>, port: int, proto: Proto)
    ensures MatchCount(rules, port, proto) == |rules| <==> AllMatch(rules, port, proto)
    ensures AllMatch(rules, port, proto) <==> Unmatched(rules, port, proto) == []
  {
    KeptOrRecorded(rules, |rules|, port, proto);
    NothingKept(rules, |rules|, port, proto);
  }

  lemma {:induction false} PositionsOfPrefix(rules: seq<Rule>, more: seq<Rule>, n: nat, port: int, proto: Proto)
    requires n <= |rules|
    ensures Positions(rules + more, n, port, proto) == Positions(rules, n, port, proto)
  {
    if n > 0 {
      PositionsOfPrefix(rules, more, n - 1, port, proto);
    }
  }

  lemma MatchCountSnoc(rules: seq<Rule>, r: Rule, port: int, proto: Proto)
    ensures MatchCount(rules + [r], port, proto)
            == MatchCount(rules, port, proto) + (if Matches(r, port, proto) then 1 else 0)
  {
    PositionsOfPrefix(rules, [r], |rules|, port, proto);
  }

  // ---- The second pass ----

  /** The list once everything below `done` is filtered. */
  function HalfFiltered(rules: seq<Rule>, done: nat, port: int, proto: Proto): seq<Rule>
    requires done <= |rules|
  {
    Kept(rules, done, port, proto) + rules[done..]
  }

  lemma HalfFilteredEnds(rules: seq<Rule>, port: int, proto: Proto)
    ensures HalfFiltered(rules, 0, port, proto) == rules
    ensures HalfFiltered(rules, |rules|, port, proto) == Unmatched(rules, port, proto)
  {
    assert rules[0..] == rules && rules[|rules|..] == [];
  }

  /** Passing over a rule that does not match changes nothing. */
  lemma SkipRule(rules: seq<Rule>, p: nat, port: int, proto: Proto)
    requires p < |rules| && !Matches(rules[p], port, proto)
    ensures HalfFiltered(rules, p, port, proto) == HalfFiltered(rules, p + 1, port, proto)
  {
    assert rules[p..] == [rules[p]] + rules[p + 1..];
  }

  /** Dropping the first rule not yet filtered, when it matches. */
  lemma DropRule(rules: seq<Rule>, p: nat, port: int, proto: Proto)
    requires p < |rules| && Matches(rules[p], port, proto)
    ensures 0 <= p - |Positions(rules, p, port, proto)| < |HalfFiltered(rules, p, port, proto)|
    ensures DropNth(HalfFiltered(rules, p, port, proto), p - |Positions(rules, p, port, proto)|)
            == HalfFiltered(rules, p + 1, port, proto)
  {
    KeptOrRecorded(rules, p, port, proto);
    var kept, list := Kept(rules, p, port, proto), HalfFiltered(rules, p, port, proto);
    assert list[..|kept|] == kept && list[|kept| + 1..] == rules[p + 1..];
  }

  /** The i-th recorded position has i matches before it. */
  lemma {:induction false} MarkIndex(rules: seq<Rule>, n: nat, i: nat, port: int, proto: Proto)
    requires n <= |rules| && i < |Positions(rules, n, port, proto)|
    ensures var p := Positions(rules, n, port, proto)[i];
            0 <= p < n && Matches(rules[p], port, proto) && |Positions(rules, p, port, proto)| == i
  {
    if i < |Positions(rules, n - 1, port, proto)| {
      MarkIndex(rules, n - 1, i, port, proto);
    }
  }

  /** The list after the first i deletions of the second pass. */
  function AfterDeletions(rules: seq<Rule>, marks: seq<int>, i: nat): seq<Rule>
    requires i <= |marks|
  {
    if i == 0 then rules
    else DropNth(AfterDeletions(rules, marks, i - 1), marks[i - 1] - (i - 1))
  }

  /** Deleting, for every match below n in turn, at its position less the deletions already
      made leaves exactly the filter of the rules below n. */
  lemma {:induction false} DeletionsFilter(rules: seq<Rule>, marks: seq<int>, n: nat, port: int, proto: Proto)
    requires n <= |rules| && Positions(rules, n, port, proto) <= marks
    ensures AfterDeletions(rules, marks, |Positions(rules, n, port, proto)|)
            == HalfFiltered(rules, n, port, proto)
  {
    if n == 0 {
      HalfFilteredEnds(rules, port, proto);
    } else {
      DeletionsFilter(rules, marks, n - 1, port, proto);
      if Matches(rules[n - 1], port, proto) {
        DropRule(rules, n - 1, port, proto);
        var i := |Positions(rules, n - 1, port, proto)|;
        assert marks[i] == Positions(rules, n, port, proto)[i] == n - 1;
      } else {
        SkipRule(rules, n - 1, port, proto);
      }
    }
  }

  /** Every recorded position, less the deletions before it, is in range. */
  lemma DeletionInRange(rules: seq<Rule>, marks: seq<int>, i: nat, port: int, proto: Proto)
    requires marks == Positions(rules, |rules|, port, proto) && i < |marks|
    ensures 0 <= marks[i] - i < |AfterDeletions(rules, marks, i)|
  {
    MarkIndex(rules, |rules|, i, port, proto);
    PositionsGrow(rules, marks[i], |rules|, port, proto);
    DeletionsFilter(rules, marks, marks[i], port, proto);
    DropRule(rules, marks[i], port, proto);
  }

  /** Deleting by position - i, once per match, is the filter. */
  lemma AllDeleted(rules: seq<Rule>, marks: seq<int>, port: int, proto: Proto)
    requires marks == Positions(rules, |rules|, port, proto)
    ensures AfterDeletions(rules, marks, |marks|) == Unmatched(rules, port, proto)
  {
    DeletionsFilter(rules, marks, |rules|, port, proto);
    HalfFilteredEnds(rules, port, proto);
  }

  lemma DeletionStep(base: map<string, Ruleset>, anchor: string, action: Action,
                     rules: seq<Rule>, marks: seq<int>, i: nat)
    requires i < |marks|
    ensures var now := Put(base, anchor, action, AfterDeletions(rules, marks, i));
            NthRemoved(now, anchor, marks[i] - i, action)
            == Put(base, anchor, action, AfterDeletions(rules, marks, i + 1))
  {
    var list := AfterDeletions(rules, marks, i);
    var now := Put(base, anchor, action, list);
    assert RulesOf(now[anchor], action) == list;
  }

  class Pf {
    var anchors: map<string, Ruleset>

    ghost predicate Valid()
      reads this
    {
      forall name :: name in anchors ==> Consistent(anchors[name])
    }

    constructor ()
      ensures Valid() && anchors == map[]
    {
      anchors := map[];
    }

    /** DIOCGETRULE for one list. */
    function Rules(anchor: string, action: Action): seq<Rule>
      reads this
    {
      RulesOf(Lookup(anchors, anchor), action)
    }

    /** append_rdr_rule_generic and append_nat_rule_generic with their add_..._generic; parses
        says whether every address text is one, without which nothing is committed. */
    method Append(anchor: string, action: Action, ifname: string, src: string, dst: string, dstPort: int,
                  targets: seq<string>, toPort: int, parses: bool, proto: Proto, quick: nat)
      returns (res: int)
      requires Valid()
      modifies this
      ensures Valid()
      ensures res == if parses then 0 else 1
      ensures var r := Rule(ifname, src, dst, proto, StoredPort(dstPort), targets, toPort, quick);
              anchors == if parses
                         then old(anchors)[anchor := Appended(Lookup(old(anchors), anchor), action, r)]
                         else old(anchors)
    {
      if !parses {
        return 1;
      }
      var a := Lookup(anchors, anchor);
      var port := if dstPort > 0 then PortWord(dstPort) else 0;
      var r := Rule(ifname, src, dst, proto, port, targets, toPort, quick);
      if !a.exists_ {
        r := r.(quick := 0);
        a := a.(exists_ := true);
        if action == Rdr {
          a := a.(rdr := [r]);
        } else {
          a := a.(nat_ := [r]);
        }
      } else if action == Rdr {
        a := a.(rdr := a.rdr + [r]);
      } else {
        a := a.(nat_ := a.nat_ + [r]);
      }
      anchors := anchors[anchor := a];
      res := 0;
    }

    /** remove_nth_rule. */
    method RemoveNthRule(anchor: string, nr: nat, action: Action) returns (res: int)
      modifies this
      ensures res == if nr < |old(Rules(anchor, action))| then 0 else -1
      ensures res == 0 ==> anchor in old(anchors)
      ensures anchors == if res == 0 then NthRemoved(old(anchors), anchor, nr, action) else old(anchors)
    {
      var rules := Rules(anchor, action);
      if nr >= |rules| {
        return -1;
      }
      anchors := Put(anchors, anchor, action, rules[..nr] + rules[nr + 1..]);
      res := 0;
    }

    /** clear_nat_ruleset and clear_rdr_ruleset: begin and commit an empty list. For an anchor pf does
        not know that makes and drops it again. */
    method ClearList(anchor: string, action: Action)
      modifies this
      ensures anchors == if Lookup(old(anchors), anchor).exists_ then Put(old(anchors), anchor, action, [])
                         else old(anchors)
    {
      if Lookup(anchors, anchor).exists_ {
        anchors := Put(anchors, anchor, action, []);
      }
    }

    /** clear_ruleset: nat, then rdr, then filter. */
    method ClearRuleset(anchor: string)
      modifies this
      ensures anchors == if Lookup(old(anchors), anchor).exists_
                         then old(anchors)[anchor := Ruleset(true, [], [], [])] else old(anchors)
    {
      ClearList(anchor, Nat);
      ClearList(anchor, Rdr);
      if Lookup(anchors, anchor).exists_ {
        anchors := anchors[anchor := anchors[anchor].(filter := [])];
      }
    }

    /** The first pass of both removals: the positions of the matching rules, in a buffer
        of 16 entries. */
    method CollectPositions(anchor: string, action: Action, port: int, proto: Proto)
      returns (positions: array<int>, pos: nat)
      requires MatchCount(Rules(anchor, action), port, proto) <= 16
      ensures fresh(positions) && positions.Length == 16
      ensures pos <= 16
      ensures var rules := Rules(anchor, action);
              positions[..pos] == Positions(rules, |rules|, port, proto)
    {
      positions := new int[16];
      pos := 0;
      var rules := Rules(anchor, action);
      for i := 0 to |rules|
        invariant pos <= 16
        invariant positions[..pos] == Positions(rules, i, port, proto)
      {
        PositionsGrow(rules, i + 1, |rules|, port, proto);
        ghost var marks := positions[..pos];
        if Matches(rules[i], port, proto) {
          positions[pos] := i;
          pos := pos + 1;
          assert positions[..pos] == marks + [i];
        }
      }
    }

    /** The second pass: delete by recorded position, less the deletions already made. */
    method DeletePositions(anchor: string, action: Action, positions: array<int>, pos: nat,
                           port: int, proto: Proto)
      returns (res: int)
      requires anchor in anchors
      requires pos <= positions.Length
      requires var rules := Rules(anchor, action);
               positions[..pos] == Positions(rules, |rules|, port, proto)
      modifies this
      ensures res == 0
      ensures anchors == Put(old(anchors), anchor, action,
                             Unmatched(old(Rules(anchor, action)), port, proto))
    {
      ghost var base, rules, marks := anchors, Rules(anchor, action), positions[..pos];
      PutSame(base, anchor, action);
      for i := 0 to pos
        invariant anchors == Put(base, anchor, action, AfterDeletions(rules, marks, i))
      {
        DeletionInRange(rules, marks, i, port, proto);
        DeletionStep(base, anchor, action, rules, marks, i);
        assert positions[i] == marks[i];
        res := RemoveNthRule(anchor, positions[i] - i, action);
      }
      AllDeleted(rules, marks, port, proto);
      res := 0;
    }

    /** remove_rdr_port_rule. */
    method RemoveRdrPortRule(anchor: string, port: int, proto: Proto) returns (res: int)
      requires Valid()
      requires MatchCount(Lookup(anchors, anchor).rdr, port, proto) <= 16
      modifies this
      ensures Valid() && res == 0
      ensures anchors == if anchor in old(anchors)
                         then old(anchors)[anchor := RdrRemoved(old(anchors)[anchor], port, proto)]
                         else old(anchors)
    {
      if anchor !in anchors || !anchors[anchor].exists_ {
        return 0;
      }
      var positions, pos := CollectPositions(anchor, Rdr, port, proto);
      var total := |Rules(anchor, Rdr)|;
      AllRecordedIsAllMatch(Rules(anchor, Rdr), port, proto);
      if total == pos {
        ClearRuleset(anchor);
        return 0;
      }
      res := DeletePositions(anchor, Rdr, positions, pos, port, proto);
    }

    /** remove_nat_port_rule: the clear-all path touches the nat list only. */
    method RemoveNatPortRule(anchor: string, port: int, proto: Proto) returns (res: int)
      requires Valid()
      requires MatchCount(Lookup(anchors, anchor).nat_, port, proto) <= 16
      modifies this
      ensures Valid() && res == 0
      ensures anchors == if anchor in old(anchors)
                         then old(anchors)[anchor := NatRemoved(old(anchors)[anchor], port, proto)]
                         else old(anchors)
    {
      if anchor !in anchors || !anchors[anchor].exists_ {
        return 0;
      }
      var positions, pos := CollectPositions(anchor, Nat, port, proto);
      var total := |Rules(anchor, Nat)|;
      AllRecordedIsAllMatch(Rules(anchor, Nat), port, proto);
      if total == pos {
        ClearList(anchor, Nat);
        return 0;
      }
      res := DeletePositions(anchor, Nat, positions, pos, port, proto);
    }
  }
}
