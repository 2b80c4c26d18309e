/** The resolver's local answer, and what it is worth when networks are allocated and
    registered the way the manager and the worker do it. */
module Resolver {
  import opened Cidr
  import opened DnsNames
  import opened SubnetAllocator
  import opened Database
  import opened AddressText
  import DatabaseRuns
  import DnsLaws
  import Trie = SubnetTrie
  import Tree = DnsTree

  function LowerChar(c: char): char
  {
    if 'A' <= c <= 'Z' then c - 'A' + 'a' else c
  }

  /** lower(), for the ASCII letters. */
  function Lower(s: string): (t: string)
    ensures |t| == |s| && forall k :: 0 <= k < |s| ==> t[k] == LowerChar(s[k])
  {
    seq(|s|, k requires 0 <= k < |s| => LowerChar(s[k]))
  }

  lemma LowerConcat(a: string, b: string)
    ensures Lower(a + b) == Lower(a) + Lower(b)
  {
  }

  /** The loop of resolve: one answer record for each address. */
  method AddAnswers(hostIp: seq<string>) returns (reply: seq<string>)
    ensures reply == hostIp
  {
    reply := [];
    for k := 0 to |hostIp|
      invariant reply == hostIp[..k]
    {
      reply := reply + [hostIp[k]];
    }
    assert hostIp[..|hostIp|] == hostIp;
  }

  /** resolve: the addresses of a local answer, or None when the query is forwarded. */
  method Resolve(trie: Trie.SubnetTrie, tree: Tree.DnsTree, clientIp: Address, qname: string, isA: bool)
    returns (answers: Option<seq<string>>)
    requires trie.Valid() && tree.Valid()
    ensures var network := Trie.Walk(trie.names, clientIp, 32);
            if isA && network.Some? && network.value != "" then
              var asked := PathOf(Lower(qname) + network.value);
              if answers.Some? then answers.value != [] && Tree.Collects(tree.addresses, asked, answers.value)
              else Tree.Collects(tree.addresses, asked, [])
            else answers.None?
  {
    answers := None;
    var name := Lower(qname);
    if isA {
      var networkName := trie.Find(clientIp);
      if networkName.Some? && networkName.value != "" {
        var hostIp := tree.CollectFrom(name + networkName.value);
        if hostIp != [] {
          var reply := AddAnswers(hostIp);
          return Some(reply);
        }
      }
    }
  }

  // ---- The system around it ----

  /** The tables and what has been registered with the two DNS structures. */
  datatype World = World(db: Db, subnets: seq<Trie.Registration>, names: seq<Tree.Entry>)

  datatype Event =
    | Table(request: DatabaseRuns.Request)
    | RegisterSubnet(network: string)                   // POST /subnet from the worker
    | RegisterName(container: string, network: string)  // POST /dns from the worker
    | RegisterHost(network: string, ip: string)         // host.jail.internal of a started network

  /** The interface name a network is registered under. */
  function InterfaceOf(network: string): string
  {
    if network == "" then "default" else network
  }

  /** The real address a container holds on a network. */
  function AddressOn(db: Db, container: string, network: string): Option<Address>
  {
    if container in db.containers && (network, db.containers[container]) in db.attached
    then db.attached[(network, db.containers[container])] else None
  }

  function Happen(w: World, e: Event): World
  {
    match e
    case Table(q) => w.(db := DatabaseRuns.Step(w.db, q))
    case RegisterSubnet(n) =>
      if n in w.db.networks
      then w.(subnets := w.subnets + [Trie.Registration(InterfaceOf(n), w.db.networks[n])]) else w
    case RegisterName(c, n) =>
      if AddressOn(w.db, c, n).Some?
      then w.(names := w.names + [NameEntry(c, n, AddressOn(w.db, c, n).value)]) else w
    case RegisterHost(n, ip) =>
      w.(names := w.names + [Tree.Entry("host.jail.internal" + "." + n, ip)])
  }

  function NameEntry(container: string, network: string, ip: Address): Tree.Entry
  {
    Tree.Entry(container + "." + InterfaceOf(network), DottedQuad(ip))
  }

  function Run(events: seq<Event>): World
  {
    if events == [] then World(EMPTY, [], [])
    else Happen(Run(events[..|events| - 1]), events[|events| - 1])
  }

  predicate AutoOnly(events: seq<Event>)
  {
    forall k :: 0 <= k < |events| && events[k].Table? && events[k].request.NewNetwork? ==>
      events[k].request.subnet.Absent?
  }

  /** This registration is the range of a network under that network's name. */
  ghost predicate Known(networks: map<string, Range>, r: Trie.Registration)
  {
    exists n :: n in networks && r == Trie.Registration(InterfaceOf(n), networks[n])
  }

  ghost predicate SubnetsKnown(w: World)
  {
    forall k :: 0 <= k < |w.subnets| ==> Known(w.db.networks, w.subnets[k])
  }

  /** Different networks have disjoint ranges, all of the automatic length. */
  ghost predicate Apart(networks: map<string, Range>)
  {
    && (forall n :: n in networks ==> networks[n].prefix == AUTO_PREFIX)
    && (forall m, n :: m in networks && n in networks && m != n ==> Disjoint(networks[m], networks[n]))
  }

  ghost predicate NetworksApart(db: Db)
  {
    Apart(db.networks)
  }

  lemma KnownStays(networks: map<string, Range>, more: map<string, Range>, r: Trie.Registration)
    requires Known(networks, r)
    requires forall n :: n in networks ==> n in more && more[n] == networks[n]
    ensures Known(more, r)
  {
    var n :| n in networks && r == Trie.Registration(InterfaceOf(n), networks[n]);
    assert n in more;
  }

  lemma EventKeepsSubnetsKnown(w: World, e: Event)
    requires SubnetsKnown(w)
    ensures SubnetsKnown(Happen(w, e))
  {
    var after := Happen(w, e);
    forall k | 0 <= k < |w.subnets|
      ensures Known(after.db.networks, w.subnets[k])
    {
      KnownStays(w.db.networks, after.db.networks, w.subnets[k]);
    }
    if e.RegisterSubnet? && e.network in w.db.networks {
      assert Known(w.db.networks, Trie.Registration(InterfaceOf(e.network), w.db.networks[e.network]));
    }
  }

  lemma ApartExtends(networks: map<string, Range>, name: string, r: Range)
    requires Apart(networks) && name !in networks && r.prefix == AUTO_PREFIX
    requires forall m :: m in networks ==> Disjoint(r, networks[m])
    ensures Apart(networks[name := r])
  {
    var after := networks[name := r];
    forall m, n | m in after && n in after && m != n
      ensures Disjoint(after[m], after[n])
    {
      assert m == name || m in networks;
      assert n == name || n in networks;
    }
  }

  lemma AutoNetworkApart(db: Db, name: string)
    requires NetworksApart(db) && DatabaseRuns.NetworksMatch(db)
    ensures NetworksApart(CreateNetworkStep(db, name, Absent))
  {
    DatabaseRuns.AutoChoice(db);
    var reply := CreateNetworkReply(db, name, Absent);
    if reply.Created? {
      forall m | m in db.networks
        ensures Disjoint(reply.range, db.networks[m])
      {
        assert db.networks[m] in db.networks.Values;
        assert db.networks[m] in db.subnets;
      }
      ApartExtends(db.networks, name, reply.range);
    }
  }

  lemma RequestKeepsApart(db: Db, q: DatabaseRuns.Request)
    requires NetworksApart(db) && DatabaseRuns.NetworksMatch(db)
    requires q.NewNetwork? ==> q.subnet.Absent?
    ensures NetworksApart(DatabaseRuns.Step(db, q)) && DatabaseRuns.NetworksMatch(DatabaseRuns.Step(db, q))
  {
    if q.NewNetwork? {
      AutoNetworkApart(db, q.name);
      DatabaseRuns.NetworkStepMatches(db, q.name, q.subnet);
    }
  }

  lemma {:induction false} RunsStayApart(events: seq<Event>)
    requires AutoOnly(events)
    ensures NetworksApart(Run(events).db) && DatabaseRuns.NetworksMatch(Run(events).db)
    ensures DatabaseRuns.AddressesSound(Run(events).db)
    ensures SubnetsKnown(Run(events))
  {
    if events != [] {
      var n := |events| - 1;
      RunsStayApart(events[..n]);
      EventKeepsSubnetsKnown(Run(events[..n]), events[n]);
      if events[n].Table? {
        RequestKeepsApart(Run(events[..n]).db, events[n].request);
        DatabaseRuns.StepKeepsAddresses(Run(events[..n]).db, events[n].request);
      }
    }
  }

  lemma OneHolder(networks: map<string, Range>, m: string, n: string, ip: Address)
    requires Apart(networks) && m in networks && n in networks
    requires networks[m].Contains(ip) && networks[n].Contains(ip)
    ensures m == n
  {
  }

  // ---- What events leave behind ----

  lemma {:induction false} EarlierStays(events: seq<Event>, k: nat)
    requires k <= |events|
    ensures Run(events[..k]).names <= Run(events).names && Run(events[..k]).subnets <= Run(events).subnets
    ensures forall n :: n in Run(events[..k]).db.networks ==>
              n in Run(events).db.networks && Run(events).db.networks[n] == Run(events[..k]).db.networks[n]
  {
    if k == |events| {
      assert events[..k] == events;
    } else {
      var n := |events| - 1;
      assert events[..n][..k] == events[..k];
      EarlierStays(events[..n], k);
    }
  }

  /** At the j-th event the worker registers the subnet of a network that is in the tables then. */
  predicate Registers(events: seq<Event>, j: nat, network: string)
  {
    j < |events| && events[j] == RegisterSubnet(network) && network in Run(events[..j]).db.networks
  }

  /** At the k-th event the worker posts the name of a container with the address it holds then. */
  predicate Posts(events: seq<Event>, k: nat, container: string, network: string, a: Address)
  {
    && k < |events| && events[k] == RegisterName(container, network)
    && var db := Run(events[..k]).db;
       && container in db.containers && (network, db.containers[container]) in db.attached
       && db.attached[(network, db.containers[container])] == Some(a)
  }

  /** The event asks for an entry with the labels of this name. */
  predicate Renames(e: Event, domain: string)
  {
    match e
    case RegisterName(c, n) => Parts(c + "." + (if n == "" then "default" else n)) == Parts(domain)
    case RegisterHost(n, _) => Parts("host.jail.internal." + n) == Parts(domain)
    case _ => false
  }

  /** No event after the k-th does. */
  predicate StillLast(events: seq<Event>, k: nat, domain: string)
  {
    forall m :: k < m < |events| ==> !Renames(events[m], domain)
  }

  lemma HappenedAt(events: seq<Event>, k: nat)
    requires k < |events|
    ensures Run(events[..k + 1]) == Happen(Run(events[..k]), events[k])
  {
    assert events[..k + 1][..k] == events[..k];
  }

  lemma SubnetRegistered(events: seq<Event>, j: nat, network: string)
    requires Registers(events, j, network)
    ensures network in Run(events).db.networks
    ensures Trie.Registration(if network == "" then "default" else network, Run(events).db.networks[network])
            in Run(events).subnets
  {
    HappenedAt(events, j);
    EarlierStays(events, j);
    EarlierStays(events, j + 1);
    var w := Run(events[..j + 1]);
    assert w.subnets[|w.subnets| - 1]
        == Trie.Registration(if network == "" then "default" else network, Run(events).db.networks[network]);
  }

  lemma HostDomain(n: string)
    ensures "host.jail.internal" + "." + n == "host.jail.internal." + n
  {
    assert "host.jail.internal" + "." == "host.jail.internal.";
  }

  lemma OtherNameKeepsLast(w: World, e: Event, k: nat)
    requires k < |w.names| && DnsLaws.Latest(w.names, k) && !Renames(e, w.names[k].domain)
    ensures var after := Happen(w, e).names;
            k < |after| && after[k] == w.names[k] && DnsLaws.Latest(after, k)
  {
    var after := Happen(w, e).names;
    if after != w.names {
      var added := after[|w.names|].domain;
      if e.RegisterHost? {
        HostDomain(e.network);
      }
      assert Parts(added) != Parts(w.names[k].domain);
      if PathOf(added) == PathOf(w.names[k].domain) {
        SamePathSameName(added, w.names[k].domain);
        SamePathSameName(w.names[k].domain, added);
      }
    }
  }

  /** An entry inserted by the k-th event is the last one for its name as long as no later event asks
      for that name. */
  lemma {:induction false} LastInRun(events: seq<Event>, k: nat, e: Tree.Entry)
    requires k < |events| && Run(events[..k + 1]).names == Run(events[..k]).names + [e]
    requires StillLast(events, k, e.domain)
    ensures var m := |Run(events[..k]).names|;
            m < |Run(events).names| && Run(events).names[m] == e && DnsLaws.Latest(Run(events).names, m)
  {
    var n := |events| - 1;
    if k == n {
      assert events[..k + 1] == events;
    } else {
      var fewer := events[..n];
      assert fewer[..k] == events[..k] && fewer[..k + 1] == events[..k + 1];
      LastInRun(fewer, k, e);
      OtherNameKeepsLast(Run(fewer), events[n], |Run(events[..k]).names|);
    }
  }

  lemma NamePosted(events: seq<Event>, k: nat, container: string, network: string, a: Address)
    requires Posts(events, k, container, network, a)
    ensures Run(events[..k + 1]).names == Run(events[..k]).names
            + [Tree.Entry(container + "." + (if network == "" then "default" else network), DottedQuad(a))]
  {
    HappenedAt(events, k);
  }

  // ---- Clients ----

  /** Addresses inside a network made without a subnet and registered by the worker are mapped to its
      name, and to "default" when it has none. */
  lemma Attribution(events: seq<Event>, j: nat, network: string, ip: Address)
    requires AutoOnly(events) && Registers(events, j, network)
    ensures network in Run(events).db.networks
    ensures Run(events).db.networks[network].Contains(ip) ==>
              Trie.Walk(Trie.NamesOf(Run(events).subnets), ip, 32)
              == Some(if network == "" then "default" else network)
  {
    SubnetRegistered(events, j, network);
    RunsStayApart(events);
    var w := Run(events);
    var r := w.db.networks[network];
    if r.Contains(ip) {
      forall k | 0 <= k < |w.subnets| && Trie.Covers(w.subnets[k], ip)
        ensures w.subnets[k] == Trie.Registration(InterfaceOf(network), r)
      {
        var n :| n in w.db.networks && w.subnets[k] == Trie.Registration(InterfaceOf(n), w.db.networks[n]);
        OneHolder(w.db.networks, n, network, ip);
      }
      Trie.FindIsNaive(w.subnets, ip);
      var k :| 0 <= k < |w.subnets| && w.subnets[k] == Trie.Registration(InterfaceOf(network), r);
      assert Trie.Covers(w.subnets[k], ip);
    }
  }

  /** In particular the address a container was given, and the next one to be given. */
  lemma GivenAddressesAttributed(events: seq<Event>, j: nat, network: string, ip: Address)
    requires AutoOnly(events) && Registers(events, j, network) && network in Run(events).db.networks
    requires var db := Run(events).db;
             || FreeIp(db, network) == Some(ip)
             || exists key :: key in db.attached && key.0 == network && db.attached[key] == Some(ip)
    ensures Trie.Walk(Trie.NamesOf(Run(events).subnets), ip, 32)
            == Some(if network == "" then "default" else network)
  {
    RunsStayApart(events);
    DatabaseRuns.FreeIpIsFree(Run(events).db, network);
    Attribution(events, j, network, ip);
  }

  /** Some entry is the last one for every name ever inserted. */
  lemma {:induction false} LatestFor(names: seq<Tree.Entry>, e: Tree.Entry) returns (k: nat)
    requires e in names
    ensures k < |names| && PathOf(names[k].domain) == PathOf(e.domain) && DnsLaws.Latest(names, k)
  {
    var n := |names| - 1;
    if PathOf(names[n].domain) == PathOf(e.domain) {
      return n;
    }
    assert names == names[..n] + [names[n]];
    k := LatestFor(names[..n], e);
  }

  // ---- Names ----

  predicate NoCapitals(s: string)
  {
    forall k :: 0 <= k < |s| ==> !('A' <= s[k] <= 'Z')
  }

  /** Small is a small letter and big its capital, 32 places before it. */
  predicate CapitalOf(big: char, small: char)
  {
    'a' <= small <= 'z' && big as int + 32 == small as int
  }

  predicate SameUpToCase(asked: string, name: string)
  {
    && |asked| == |name|
    && forall k :: 0 <= k < |name| ==>
         asked[k] == name[k] || CapitalOf(asked[k], name[k]) || CapitalOf(name[k], asked[k])
  }

  lemma SpellingDoesNotMatter(asked: string, name: string)
    requires SameUpToCase(asked, name) && NoCapitals(name)
    ensures Lower(asked) == name
  {
  }

  lemma AskedName(asked: string, name: string, network: string)
    requires SameUpToCase(asked, name) && NoCapitals(name)
    ensures Lower(asked + ".") + network == name + "." + network
  {
    SpellingDoesNotMatter(asked, name);
    LowerConcat(asked, ".");
    assert Lower(".") == ".";
  }

  lemma {:induction false} SplitSameShape(a: string, b: string)
    requires |a| == |b| && forall k :: 0 <= k < |a| ==> (a[k] == '.' <==> b[k] == '.')
    ensures |Split(a)| == |Split(b)|
  {
    if a != [] {
      SplitSameShape(a[1..], b[1..]);
    }
  }

  lemma SameShapeSameCount(a: string, b: string)
    requires |a| == |b| && forall k :: 0 <= k < |a| ==> (a[k] == '.' <==> b[k] == '.')
    ensures |Parts(a)| == |Parts(b)|
  {
    SplitSameShape(a, b);
    SplitHead(a);
    SplitHead(b);
    PartsAreLabels(a);
    PartsAreLabels(b);
  }

  /** Names of one shape, dots in the same places, lie one above the other only when they are equal. */
  lemma SameShapeSameName(a: string, b: string)
    requires |a| == |b| && forall k :: 0 <= k < |a| ==> (a[k] == '.' <==> b[k] == '.')
    ensures Parts(a) <= Parts(b) <==> a == b
  {
    SameShapeSameCount(a, b);
    if Parts(a) <= Parts(b) {
      assert Parts(a) == Parts(b);
      PartsRejoin(a);
      PartsRejoin(b);
      if a != "" && a[0] == '.' {
        assert a == ['.'] + a[1..] && b == ['.'] + b[1..];
      }
    }
  }

  /** Whoever asks for a container asks for its name in lower case, so its own entry is among those
      collected exactly when that name has no capitals; the network's may have them. */
  lemma FoundIffNoCapitals(names: seq<Tree.Entry>, asked: string, container: string, network: string, k: nat)
    requires k < |names| && names[k].domain == container + "." + network && DnsLaws.Latest(names, k)
    requires SameUpToCase(asked, container)
    ensures DnsLaws.Answers(names, Lower(asked + ".") + network, k) <==> NoCapitals(container)
  {
    var heard := Lower(asked + ".") + network;
    var stored := names[k].domain;
    LowerConcat(asked, ".");
    assert Lower(".") == ".";
    assert heard == Lower(asked) + "." + network;
    SameDots(asked, container, network);
    SameShapeSameName(heard, stored);
    assert heard[..|container|] == Lower(asked) && stored[..|container|] == container;
    LowerIsItself(asked, container);
  }

  lemma LowerIsItself(asked: string, name: string)
    requires SameUpToCase(asked, name)
    ensures Lower(asked) == name <==> NoCapitals(name)
  {
    if Lower(asked) == name {
      assert forall k :: 0 <= k < |name| ==> name[k] == LowerChar(asked[k]);
    }
  }

  lemma SameDots(asked: string, name: string, network: string)
    requires SameUpToCase(asked, name)
    ensures var heard, stored := Lower(asked) + "." + network, name + "." + network;
            |heard| == |stored| && forall k :: 0 <= k < |heard| ==> (heard[k] == '.' <==> stored[k] == '.')
  {
    assert forall k :: 0 <= k < |name| ==> (LowerChar(asked[k]) == '.' <==> name[k] == '.');
  }

  /** End to end: the worker registers a network and posts a container with the address it holds on
      it. Any client of that network that asks for the container, in whatever case, gets a local answer.
      It holds exactly the addresses last inserted for the names at or below the container's, and the
      text of the posted address unless a later event asks for the same name. */
  method AnswerClient(trie: Trie.SubnetTrie, tree: Tree.DnsTree, ghost events: seq<Event>, ghost j: nat,
                      ghost k: nat, client: Address, asked: string, ghost container: string,
                      ghost network: string, ghost a: Address)
    returns (answers: Option<seq<string>>)
    requires trie.Valid() && tree.Valid()
    requires trie.history == Run(events).subnets && tree.history == Run(events).names
    requires AutoOnly(events) && Registers(events, j, network) && Posts(events, k, container, network, a)
    requires network in Run(events).db.networks && Run(events).db.networks[network].Contains(client)
    requires NoCapitals(container) && SameUpToCase(asked, container)
    ensures answers.Some? && answers.value != []
    ensures var name := container + "." + (if network == "" then "default" else network);
            && AnswersExactly(tree.history, name, answers.value)
            && (StillLast(events, k, name) ==> DottedQuad(a) in answers.value)
  {
    ghost var under := if network == "" then "default" else network;
    ghost var name := container + "." + under;
    Attribution(events, j, network, client);
    AskedName(asked, container, under);
    answers := Resolve(trie, tree, client, asked + ".", true);
    NamePosted(events, k, container, network, a);
    InsertedIsAnswered(events, k, Tree.Entry(name, DottedQuad(a)), if answers.Some? then answers.value else []);
  }

  lemma HostAsked(asked: string, network: string)
    requires SameUpToCase(asked, "host.jail.internal")
    ensures Lower(asked + ".") + network == "host.jail.internal." + network
  {
    AskedName(asked, "host.jail.internal", network);
    HostDomain(network);
  }

  lemma HostInserted(events: seq<Event>, k: nat, network: string, ip: string)
    requires k < |events| && events[k] == RegisterHost(network, ip)
    ensures Run(events[..k + 1]).names == Run(events[..k]).names + [Tree.Entry("host.jail.internal." + network, ip)]
  {
    HappenedAt(events, k);
    HostDomain(network);
  }

  /** The same for the name of the host, which every started network has. */
  method AnswerHost(trie: Trie.SubnetTrie, tree: Tree.DnsTree, ghost events: seq<Event>, ghost j: nat,
                    ghost k: nat, client: Address, asked: string, ghost network: string, ghost ip: string)
    returns (answers: Option<seq<string>>)
    requires trie.Valid() && tree.Valid()
    requires trie.history == Run(events).subnets && tree.history == Run(events).names
    requires AutoOnly(events) && Registers(events, j, network) && network != ""
    requires k < |events| && events[k] == RegisterHost(network, ip)
    requires network in Run(events).db.networks && Run(events).db.networks[network].Contains(client)
    requires SameUpToCase(asked, "host.jail.internal")
    ensures answers.Some? && answers.value != []
    ensures AnswersExactly(tree.history, "host.jail.internal." + network, answers.value)
    ensures StillLast(events, k, "host.jail.internal." + network) ==> ip in answers.value
  {
    Attribution(events, j, network, client);
    HostAsked(asked, network);
    answers := Resolve(trie, tree, client, asked + ".", true);
    HostInserted(events, k, network, ip);
    InsertedIsAnswered(events, k, Tree.Entry("host.jail.internal." + network, ip),
                       if answers.Some? then answers.value else []);
  }

  /** What was inserted by the k-th event is collected for its name, if it is the last one. */
  lemma InsertedIsAnswered(events: seq<Event>, k: nat, e: Tree.Entry, found: seq<string>)
    requires k < |events| && Run(events[..k + 1]).names == Run(events[..k]).names + [e]
    requires Tree.Collects(Tree.AddressesOf(Run(events).names), PathOf(e.domain), found)
    ensures found != [] && AnswersExactly(Run(events).names, e.domain, found)
    ensures StillLast(events, k, e.domain) ==> e.ip in found
  {
    var names, early := Run(events).names, Run(events[..k + 1]).names;
    CollectedExactly(names, e.domain, found);
    EarlierStays(events, k + 1);
    assert early[|early| - 1] == e && names[|early| - 1] == e;
    var m := LatestFor(names, e);
    SamePathSameName(names[m].domain, e.domain);
    assert DnsLaws.Answers(names, e.domain, m);
    assert names[m].ip in found;
    if StillLast(events, k, e.domain) {
      LastInRun(events, k, e);
      assert DnsLaws.Answers(names, e.domain, |Run(events[..k]).names|);
    }
  }

  /** The answer holds the addresses of the entries at or below the name, and no others. */
  ghost predicate AnswersExactly(names: seq<Tree.Entry>, name: string, found: seq<string>)
  {
    forall x :: x in found <==> exists k :: 0 <= k < |names| && names[k].ip == x && DnsLaws.Answers(names, name, k)
  }

  lemma CollectedExactly(names: seq<Tree.Entry>, name: string, found: seq<string>)
    requires Tree.Collects(Tree.AddressesOf(names), PathOf(name), found)
    ensures AnswersExactly(names, name, found)
  {
    forall x
      ensures x in found <==> exists k :: 0 <= k < |names| && names[k].ip == x && DnsLaws.Answers(names, name, k)
    {
      DnsLaws.CollectedAddresses(names, name, found, x);
    }
  }

  lemma SamePathSameName(a: string, b: string)
    requires PathOf(a) == PathOf(b)
    ensures Parts(b) <= Parts(a)
  {
    AboveIsPrefix(Parts(b), Parts(a));
  }
}
