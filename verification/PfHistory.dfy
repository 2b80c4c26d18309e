/** Which rules of an anchor are left after any run of appends and port removals. */
module PfHistory {
  import opened PfRules

  datatype Event =
    | Add(action: Action, rule: Rule)
    | RemoveRdr(port: int, proto: Proto)
    | RemoveNat(port: int, proto: Proto)
    | Reap  // pf forgets an anchor without rules

  function Apply(a: Ruleset, e: Event): Ruleset
  {
    match e
    case Add(action, rule) => Appended(a, action, rule)
    case RemoveRdr(port, proto) => RdrRemoved(a, port, proto)
    case RemoveNat(port, proto) => NatRemoved(a, port, proto)
    case Reap => if a.rdr == [] && a.nat_ == [] && a.filter == [] then ABSENT else a
  }

  function Run(events: seq<Event>): (a: Ruleset)
    ensures Consistent(a)
  {
    if events == [] then ABSENT
    else Apply(Run(events[..|events| - 1]), events[|events| - 1])
  }

  lemma RunSnoc(events: seq<Event>, e: Event)
    ensures Run(events + [e]) == Apply(Run(events), e)
  {
    assert (events + [e])[..|events|] == events;
  }

  /** The rule as event k stores it: the append that creates the anchor forgets the quick flag. */
  function Stored(events: seq<Event>, k: nat): Rule
    requires k < |events| && events[k].Add?
  {
    if Run(events[..k]).exists_ then events[k].rule else events[k].rule.(quick := 0)
  }

  lemma StoredEarlier(events: seq<Event>, e: Event, k: nat)
    requires k < |events| && events[k].Add?
    ensures (events + [e])[k] == events[k] && Stored(events + [e], k) == Stored(events, k)
  {
    assert (events + [e])[..k] == events[..k];
  }

  // ---- Rdr rules ----

  predicate RdrKilled(events: seq<Event>, since: nat, r: Rule)
  {
    exists k :: since <= k < |events|
                && events[k].RemoveRdr? && Matches(r, events[k].port, events[k].proto)
  }

  /** The rdr rules appended by the first n events, in order, less those that match some
      later removal. */
  function LiveRdr(events: seq<Event>, n: nat): seq<Rule>
    requires n <= |events|
  {
    if n == 0 then []
    else
      var e := events[n - 1];
      if e.Add? && e.action == Rdr && !RdrKilled(events, n, e.rule)
      then LiveRdr(events, n - 1) + [Stored(events, n - 1)]
      else LiveRdr(events, n - 1)
  }

  lemma RdrKilledSnoc(events: seq<Event>, e: Event, since: nat, r: Rule)
    requires since <= |events|
    ensures RdrKilled(events + [e], since, r)
            <==> RdrKilled(events, since, r) || (e.RemoveRdr? && Matches(r, e.port, e.proto))
  {
    var all := events + [e];
    assert forall k :: 0 <= k < |events| ==> all[k] == events[k];
    assert all[|events|] == e;
  }

  /** One more event filters the live rules when it is a removal, and leaves them otherwise. */
  lemma {:induction false} LiveRdrSnoc(events: seq<Event>, e: Event, n: nat)
    requires n <= |events|
    ensures LiveRdr(events + [e], n)
            == if e.RemoveRdr? then Unmatched(LiveRdr(events, n), e.port, e.proto)
               else LiveRdr(events, n)
  {
    if n > 0 {
      LiveRdrSnoc(events, e, n - 1);
      var at := events[n - 1];
      assert (events + [e])[n - 1] == at;
      if at.Add? && at.action == Rdr {
        StoredEarlier(events, e, n - 1);
        RdrKilledSnoc(events, e, n, at.rule);
        if e.RemoveRdr? {
          UnmatchedSnoc(LiveRdr(events, n - 1), Stored(events, n - 1), e.port, e.proto);
        }
      }
    }
  }

  /** After any run, the rdr list is the appended rules in order minus those matching a
      later removal. */
  lemma {:induction false} RdrHistory(events: seq<Event>)
    ensures Run(events).rdr == LiveRdr(events, |events|)
  {
    if events != [] {
      var n := |events| - 1;
      var before, e := events[..n], events[n];
      assert events == before + [e];
      RdrHistory(before);
      LiveRdrSnoc(before, e, n);
      if e.Add? {
        assert !RdrKilled(events, n + 1, e.rule);
      } else if e.RemoveRdr? {
        AllRecordedIsAllMatch(Run(before).rdr, e.port, e.proto);
      }
    }
  }

  // ---- Nat rules: a full clear of the rdr list takes them along ----

  /** Event k is an rdr removal that matches every rdr rule then live, possibly none at all. */
  predicate ClearsAll(events: seq<Event>, k: nat)
    requires k < |events|
  {
    events[k].RemoveRdr? && AllMatch(LiveRdr(events[..k], k), events[k].port, events[k].proto)
  }

  predicate NatKilled(events: seq<Event>, since: nat, r: Rule)
  {
    exists k :: since <= k < |events|
                && (ClearsAll(events, k)
                    || (events[k].RemoveNat? && Matches(r, events[k].port, events[k].proto)))
  }

  function LiveNat(events: seq<Event>, n: nat): seq<Rule>
    requires n <= |events|
  {
    if n == 0 then []
    else
      var e := events[n - 1];
      if e.Add? && e.action == Nat && !NatKilled(events, n, e.rule)
      then LiveNat(events, n - 1) + [Stored(events, n - 1)]
      else LiveNat(events, n - 1)
  }

  lemma NatKilledSnoc(events: seq<Event>, e: Event, since: nat, r: Rule)
    requires since <= |events|
    ensures NatKilled(events + [e], since, r)
            <==> NatKilled(events, since, r) || ClearsAll(events + [e], |events|)
                 || (e.RemoveNat? && Matches(r, e.port, e.proto))
  {
    var all := events + [e];
    assert all[|events|] == e;
    forall k | 0 <= k < |events|
      ensures all[k] == events[k] && ClearsAll(all, k) == ClearsAll(events, k)
    {
      assert all[..k] == events[..k];
    }
  }

  lemma {:induction false} LiveNatSnoc(events: seq<Event>, e: Event, n: nat)
    requires n <= |events|
    ensures LiveNat(events + [e], n)
            == if ClearsAll(events + [e], |events|) then []
               else if e.RemoveNat? then Unmatched(LiveNat(events, n), e.port, e.proto)
               else LiveNat(events, n)
  {
    if n > 0 {
      LiveNatSnoc(events, e, n - 1);
      var at := events[n - 1];
      assert (events + [e])[n - 1] == at;
      if at.Add? && at.action == Nat {
        StoredEarlier(events, e, n - 1);
        NatKilledSnoc(events, e, n, at.rule);
        if e.RemoveNat? {
          UnmatchedSnoc(LiveNat(events, n - 1), Stored(events, n - 1), e.port, e.proto);
        }
      }
    }
  }

  lemma NatStep(events: seq<Event>, e: Event)
    ensures var all, rules := events + [e], Run(events).nat_;
            Run(all).nat_
            == if ClearsAll(all, |events|) then []
               else if e.RemoveNat? then Unmatched(rules, e.port, e.proto)
               else if e.Add? && e.action == Nat then rules + [Stored(all, |events|)]
               else rules
  {
    RunSnoc(events, e);
    RdrHistory(events);
    assert (events + [e])[..|events|] == events;
  }

  /** After any run, the nat list is the appended rules in order minus those matching a
      later nat removal and minus everything before a removal that matched all live rdr rules. */
  lemma {:induction false} NatHistory(events: seq<Event>)
    ensures Run(events).nat_ == LiveNat(events, |events|)
  {
    if events != [] {
      var n := |events| - 1;
      var before, e := events[..n], events[n];
      assert events == before + [e];
      NatHistory(before);
      NatStep(before, e);
      LiveNatSnoc(before, e, n);
      if e.Add? {
        assert !NatKilled(events, n + 1, e.rule);
      }
    }
  }

  /** Removing an rdr port keeps the nat rules exactly when some rdr rule stays behind, or
      there was nothing to lose; so with the filter rules. */
  lemma RdrRemovalKeepsNat(events: seq<Event>, port: int, proto: Proto)
    ensures var a := Run(events);
            Run(events + [RemoveRdr(port, proto)]).nat_ == a.nat_
            <==> a.nat_ == [] || Unmatched(a.rdr, port, proto) != []
    ensures var a := Run(events);
            Run(events + [RemoveRdr(port, proto)]).filter
            == if Unmatched(a.rdr, port, proto) != [] then a.filter else []
  {
    RunSnoc(events, RemoveRdr(port, proto));
    AllRecordedIsAllMatch(Run(events).rdr, port, proto);
  }

  // ---- How many rules a removal will find ----

  predicate SamePair(port: int, proto: Proto, port': int, proto': Proto)
  {
    PortWord(port) == PortWord(port') && proto == proto'
  }

  /** The rdr appends on a port and protocol since the last removal by them. */
  function Unremoved(events: seq<Event>, port: int, proto: Proto): nat
  {
    if events == [] then 0
    else
      var before, e := events[..|events| - 1], events[|events| - 1];
      if e.RemoveRdr? && SamePair(e.port, e.proto, port, proto) then 0
      else if e.Add? && e.action == Rdr && Matches(e.rule, port, proto) then Unremoved(before, port, proto) + 1
      else Unremoved(before, port, proto)
  }

  /** A removal by one pair takes all rules on it, and none on another. */
  lemma {:induction false} RemovalCounts(rules: seq<Rule>, n: nat, port: int, proto: Proto, port': int, proto': Proto)
    requires n <= |rules|
    ensures MatchCount(Kept(rules, n, port, proto), port', proto')
            == if SamePair(port, proto, port', proto') then 0 else |Positions(rules, n, port', proto')|
  {
    if n > 0 {
      RemovalCounts(rules, n - 1, port, proto, port', proto');
      if !Matches(rules[n - 1], port, proto) {
        MatchCountSnoc(Kept(rules, n - 1, port, proto), rules[n - 1], port', proto');
      }
    }
  }

  lemma ClearedCounts(rules: seq<Rule>, port: int, proto: Proto, port': int, proto': Proto)
    requires AllMatch(rules, port, proto)
    ensures SamePair(port, proto, port', proto') || MatchCount(rules, port', proto') == 0
  {
    RemovalCounts(rules, |rules|, port, proto, port', proto');
    AllRecordedIsAllMatch(rules, port, proto);
    assert MatchCount([], port', proto') == 0;
  }

  /** After any run, a removal by a port and protocol finds as many rdr rules as were appended on them
      since the last such removal; the buffer of 16 suffices exactly when that is at most 16. */
  lemma {:induction false} MatchesAreUnremoved(events: seq<Event>, port: int, proto: Proto)
    ensures MatchCount(Run(events).rdr, port, proto) == Unremoved(events, port, proto)
  {
    if events != [] {
      var n := |events| - 1;
      var a, e := Run(events[..n]), events[n];
      MatchesAreUnremoved(events[..n], port, proto);
      if e.Add? && e.action == Rdr {
        MatchCountSnoc(a.rdr, e.rule, port, proto);
        MatchCountSnoc(a.rdr, e.rule.(quick := 0), port, proto);
        assert !a.exists_ ==> a.rdr + [e.rule.(quick := 0)] == [e.rule.(quick := 0)];
      } else if e.RemoveRdr? {
        RemovalCounts(a.rdr, |a.rdr|, e.port, e.proto, port, proto);
        if AllMatch(a.rdr, e.port, e.proto) {
          ClearedCounts(a.rdr, e.port, e.proto, port, proto);
        }
      }
    }
  }

  /** A container that exits by itself keeps its rules, and each start publishes them again. */
  function Restarts(rule: Rule, n: nat): seq<Event>
  {
    if n == 0 then [] else Restarts(rule, n - 1) + [Add(Rdr, rule)]
  }

  /** So after n starts without a stop a removal finds n rules, one more than fit after seventeen. */
  lemma {:induction false} RestartsPileUp(rule: Rule, n: nat, port: int)
    requires Matches(rule, port, rule.proto)
    ensures MatchCount(Run(Restarts(rule, n)).rdr, port, rule.proto) == n
  {
    MatchesAreUnremoved(Restarts(rule, n), port, rule.proto);
    RestartsUnremoved(rule, n, port);
  }

  lemma {:induction false} RestartsUnremoved(rule: Rule, n: nat, port: int)
    requires Matches(rule, port, rule.proto)
    ensures Unremoved(Restarts(rule, n), port, rule.proto) == n
  {
    if n > 0 {
      RestartsUnremoved(rule, n - 1, port);
      assert Restarts(rule, n)[..|Restarts(rule, n)| - 1] == Restarts(rule, n - 1);
    }
  }

  // ---- The same for nat rules ----

  /** The nat appends on a port and protocol since the last removal by them or clearing rdr removal. */
  function UnremovedNat(events: seq<Event>, port: int, proto: Proto): nat
  {
    if events == [] then 0
    else
      var n := |events| - 1;
      var before, e := events[..n], events[n];
      if ClearsAll(events, n) || (e.RemoveNat? && SamePair(e.port, e.proto, port, proto)) then 0
      else if e.Add? && e.action == Nat && Matches(e.rule, port, proto) then UnremovedNat(before, port, proto) + 1
      else UnremovedNat(before, port, proto)
  }

  lemma {:induction false} NatMatchesAreUnremoved(events: seq<Event>, port: int, proto: Proto)
    ensures MatchCount(Run(events).nat_, port, proto) == UnremovedNat(events, port, proto)
  {
    if events != [] {
      var n := |events| - 1;
      var before, e := events[..n], events[n];
      assert events == before + [e];
      NatMatchesAreUnremoved(before, port, proto);
      NatStep(before, e);
      var rules := Run(before).nat_;
      if e.Add? && e.action == Nat {
        MatchCountSnoc(rules, Stored(events, n), port, proto);
      } else if e.RemoveNat? {
        RemovalCounts(rules, |rules|, e.port, e.proto, port, proto);
      }
    }
  }
}
