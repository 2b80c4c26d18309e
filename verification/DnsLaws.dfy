/** What collecting from the name tree means, and why one network's names never show up in
    another's. */
module DnsLaws {
  import opened Paths
  import opened DnsNames
  import opened DnsTree

  /** The address at a path is the one last inserted for a name with that path. */
  lemma {:induction false} AddressesMeaning(history: seq<Entry>, p: NamePath)
    ensures match Addressed(AddressesOf(history), p)
            case None => forall k :: 0 <= k < |history| ==> PathOf(history[k].domain) != p
            case Some(ip) =>
              exists k :: 0 <= k < |history| && PathOf(history[k].domain) == p && history[k].ip == ip
                          && forall j :: k < j < |history| ==> PathOf(history[j].domain) != p
  {
    if history != [] {
      var n := |history| - 1;
      AddressesMeaning(history[..n], p);
      assert forall k :: 0 <= k < n ==> history[..n][k] == history[k];
    }
  }

  /** As a multiset, what is collected is determined by the addresses alone, in whatever
      order the children are visited. */
  lemma CollectionUnique(addresses: map<NamePath, string>, p: NamePath, f: seq<string>, g: seq<string>)
    requires Collects(addresses, p, f)
    ensures Collects(addresses, p, g) <==> multiset(f) == multiset(g)
  {
    if Collects(addresses, p, g) {
      assert forall ip :: multiset(f)[ip] == multiset(g)[ip];
    }
  }

  /** Entry k is the last one inserted for its name. */
  predicate Latest(history: seq<Entry>, k: nat)
    requires k < |history|
  {
    forall j :: k < j < |history| ==> PathOf(history[j].domain) != PathOf(history[k].domain)
  }

  /** Entry k is collected for d: the last one for its name, whose labels from the right start
      with those of d. */
  predicate Answers(history: seq<Entry>, d: string, k: nat)
    requires k < |history|
  {
    Parts(d) <= Parts(history[k].domain) && Latest(history, k)
  }

  lemma HeldIsAnswered(history: seq<Entry>, d: string, q: NamePath, ip: string) returns (k: nat)
    requires q in Holders(AddressesOf(history), PathOf(d), ip)
    ensures k < |history| && history[k].ip == ip && Answers(history, d, k)
  {
    AddressesMeaning(history, q);
    k :| 0 <= k < |history| && PathOf(history[k].domain) == q && history[k].ip == ip
         && forall j :: k < j < |history| ==> PathOf(history[j].domain) != q;
    AboveIsPrefix(Parts(d), Parts(history[k].domain));
  }

  lemma AnsweredIsHeld(history: seq<Entry>, d: string, k: nat)
    requires k < |history| && Answers(history, d, k)
    ensures PathOf(history[k].domain) in Holders(AddressesOf(history), PathOf(d), history[k].ip)
  {
    AddressesMeaning(history, PathOf(history[k].domain));
    AboveIsPrefix(Parts(d), Parts(history[k].domain));
  }

  /** An address is collected for d exactly when some entry at or below d, the last one of its
      name, has it. */
  lemma CollectedAddresses(history: seq<Entry>, d: string, found: seq<string>, ip: string)
    requires Collects(AddressesOf(history), PathOf(d), found)
    ensures ip in found <==> exists k :: 0 <= k < |history| && history[k].ip == ip && Answers(history, d, k)
  {
    var held := Holders(AddressesOf(history), PathOf(d), ip);
    assert ip in found <==> multiset(found)[ip] > 0;
    if ip in found {
      assert held != {};
      var q :| q in held;
      var k := HeldIsAnswered(history, d, q, ip);
    }
    if k :| 0 <= k < |history| && history[k].ip == ip && Answers(history, d, k) {
      AnsweredIsHeld(history, d, k);
      assert held != {};
    }
  }

  // ---- Isolation ----

  lemma LastLabelsFirst(front: seq<string>, back: seq<string>)
    ensures Reverse(DropLeadingEmpty(back)) <= Reverse(front + back)
  {
    var dropped := |back| - |DropLeadingEmpty(back)|;
    assert front + back == (front + back[..dropped]) + DropLeadingEmpty(back);
    ReverseConcat(front + back[..dropped], DropLeadingEmpty(back));
  }

  /** A name inside a network starts, from the right, with the parts of the network. */
  lemma NetworkPartsFirst(d: string, network: string)
    ensures Parts(network) <= Parts(d + "." + network)
  {
    PartsAreLabels(d + "." + network);
    PartsAreLabels(network);
    SplitConcat(d, network);
    var front, back := Split(d), Split(network);
    assert DropLeadingEmpty(front + back) == DropLeadingEmpty(front) + back;
    LastLabelsFirst(DropLeadingEmpty(front), back);
  }

  predicate Unrelated(a: string, b: string)
  {
    !(Parts(a) <= Parts(b)) && !(Parts(b) <= Parts(a))
  }

  /** With neither network's labels a prefix of the other's, nothing added under one changes
      what is collected under the other. */
  lemma Isolation(history: seq<Entry>, d: string, network: string, ip: string, d': string, network': string,
                  found: seq<string>)
    requires Unrelated(network, network')
    ensures Collects(AddressesOf(history), PathOf(d' + "." + network'), found)
            <==> Collects(AddressesOf(history + [Entry(d + "." + network, ip)]),
                          PathOf(d' + "." + network'), found)
  {
    var name, name' := d + "." + network, d' + "." + network';
    AddressesSnoc(history, Entry(name, ip));
    NetworkPartsFirst(d, network);
    NetworkPartsFirst(d', network');
    AboveIsPrefix(Parts(name'), Parts(name));
    if Parts(name') <= Parts(name) {
      PrefixesCompare(Parts(network), Parts(network'), Parts(name));
    }
    OutsideDoesNotCount(AddressesOf(history), PathOf(name'), PathOf(name), ip, found);
  }

  /** An address set elsewhere than at or below p does not count there. */
  lemma OutsideDoesNotCount(addresses: map<NamePath, string>, p: NamePath, elsewhere: NamePath, ip: string,
                            found: seq<string>)
    requires !Above(p, elsewhere)
    ensures Collects(addresses, p, found) <==> Collects(addresses[elsewhere := ip], p, found)
  {
    assert forall x :: Holders(addresses, p, x) == Holders(addresses[elsewhere := ip], p, x);
  }

  /** Inserting d under the network changes nothing collected for d' under the other one. */
  ghost predicate Spares(network: string, network': string)
  {
    forall history, d, ip, d', found ::
      Collects(AddressesOf(history), PathOf(d' + "." + network'), found)
      <==> Collects(AddressesOf(history + [Entry(d + "." + network, ip)]), PathOf(d' + "." + network'), found)
  }

  /** What is inserted under a network that lies inside the other is collected for the other. */
  lemma InnerIsCollected(outer: string, inner: string, d: string, ip: string)
    requires outer != "" && outer[0] != '.' && Parts(outer) <= Parts(inner)
    ensures !Collects(AddressesOf([Entry(d + "." + inner, ip)]), PathOf("." + outer), [])
  {
    var history := [Entry(d + "." + inner, ip)];
    PartsOfQualified("", outer);
    assert "" + "." + outer == "." + outer && Parts("") == [];
    assert Parts(outer) + [] == Parts(outer);
    NetworkPartsFirst(d, inner);
    AnsweredIsHeld(history, "." + outer, 0);
    assert Holders(AddressesOf(history), PathOf("." + outer), ip) != {};
  }

  lemma NestedIsNotSpared(outer: string, inner: string)
    requires outer != "" && outer[0] != '.' && Parts(outer) <= Parts(inner)
    ensures !Spares(inner, outer)
  {
    var d, ip := "d", "ip";
    InnerIsCollected(outer, inner, d, ip);
    assert "" + "." + outer == "." + outer;
    assert [] + [Entry(d + "." + inner, ip)] == [Entry(d + "." + inner, ip)];
    NothingHeld(PathOf("" + "." + outer));
    assert Collects(AddressesOf([]), PathOf("" + "." + outer), []);
    assert !Collects(AddressesOf([] + [Entry(d + "." + inner, ip)]), PathOf("" + "." + outer), []);
  }

  lemma NothingHeld(p: NamePath)
    ensures Collects(AddressesOf([]), p, [])
  {
    assert forall ip :: Holders(AddressesOf([]), p, ip) == {};
  }

  /** Two networks with proper names leave each other's answers alone, whatever is inserted under
      them, exactly when the labels of neither are a prefix of the other's. */
  lemma IsolationIff(network: string, network': string)
    requires network != "" && network[0] != '.' && network' != "" && network'[0] != '.'
    ensures Spares(network, network') && Spares(network', network) <==> Unrelated(network, network')
  {
    if Unrelated(network, network') {
      UnrelatedSpare(network, network');
      UnrelatedSpare(network', network);
    } else if Parts(network) <= Parts(network') {
      NestedIsNotSpared(network, network');
    } else {
      NestedIsNotSpared(network', network);
    }
  }

  lemma UnrelatedSpare(network: string, network': string)
    requires Unrelated(network, network')
    ensures Spares(network, network')
  {
    forall history, d, ip, d', found
      ensures Collects(AddressesOf(history), PathOf(d' + "." + network'), found)
              <==> Collects(AddressesOf(history + [Entry(d + "." + network, ip)]), PathOf(d' + "." + network'), found)
    {
      Isolation(history, d, network, ip, d', network', found);
    }
  }

  lemma PrefixesCompare(a: seq<string>, b: seq<string>, whole: seq<string>)
    requires a <= whole && b <= whole
    ensures a <= b || b <= a
  {
  }

  /** The condition is needed: what is added under m.n is what (d.m) under n is asked for. */
  lemma NestedNetworksLeak(history: seq<Entry>, d: string, m: string, n: string, ip: string)
    ensures var inserted := d + "." + (m + "." + n);
            var asked := PathOf((d + "." + m) + "." + n);
            var addresses := AddressesOf(history + [Entry(inserted, ip)]);
            Parts(n) <= Parts(m + "." + n) && asked in addresses && addresses[asked] == ip
  {
    NetworkPartsFirst(m, n);
    AddressesSnoc(history, Entry(d + "." + (m + "." + n), ip));
    assert d + "." + (m + "." + n) == (d + "." + m) + "." + n;
  }
}
