/** What holds of the tables after any serial run of requests. */
module DatabaseRuns {
  import opened Cidr
  import opened SubnetAllocator
  import opened Database

  datatype Request =
    | NewNetwork(name: string, subnet: SubnetArg)
    | NewContainer(name: string, networks: set<string>, cloned: bool)
    | Attach(name: string, network: string)
    | Remove(name: string, running: bool, deleted: bool)

  function Step(db: Db, q: Request): Db
  {
    match q
    case NewNetwork(name, subnet) => CreateNetworkStep(db, name, subnet)
    case NewContainer(name, networks, cloned) => CreateContainerStep(db, name, networks, cloned)
    case Attach(name, network) => AttachStep(db, name, network)
    case Remove(name, running, deleted) => RemoveContainerStep(db, name, running, deleted)
  }

  function Run(requests: seq<Request>): Db
  {
    if requests == [] then EMPTY
    else Step(Run(requests[..|requests| - 1]), requests[|requests| - 1])
  }

  // ---- Networks ----

  /** Both tables hold the same subnets, each once, and none is a single address. */
  ghost predicate Match(networks: map<string, Range>, subnets: seq<Range>)
  {
    && networks.Values == (set r | r in subnets)
    && (forall a, b :: 0 <= a < b < |subnets| ==> subnets[a] != subnets[b])
    && (forall m, n :: m in networks && n in networks && networks[m] == networks[n] ==> m == n)
    && (forall r :: r in subnets ==> r.Aligned() && r.prefix < 32)
  }

  ghost predicate NetworksMatch(db: Db)
  {
    Match(db.networks, db.subnets)
  }

  lemma MatchExtends(networks: map<string, Range>, subnets: seq<Range>, name: string, r: Range)
    requires Match(networks, subnets) && name !in networks && r !in subnets
    requires r.Aligned() && r.prefix < 32
    ensures Match(networks[name := r], subnets + [r])
  {
    var after := networks[name := r];
    assert forall n :: n in networks ==> after[n] == networks[n];
    forall x | x in networks.Values
      ensures x in after.Values
    {
      var n :| n in networks && networks[n] == x;
      assert after[n] == x;
    }
    assert after[name] == r;
    assert after.Values == networks.Values + {r};
  }

  lemma AutoChoice(db: Db)
    ensures var reply := ChosenSubnet(db, Absent);
            reply.Created? ==>
              && reply.range.prefix == AUTO_PREFIX && reply.range.Aligned() && reply.range.Inside(BASE)
              && forall a :: 0 <= a < |db.subnets| ==> Disjoint(reply.range, db.subnets[a])
  {
    BaseIsAligned();
    FirstFit(BASE, AUTO_PREFIX, db.subnets);
  }

  lemma ChosenIsSound(db: Db, subnet: SubnetArg)
    ensures var reply := ChosenSubnet(db, subnet);
            reply.Created? ==> reply.range.Aligned() && reply.range.prefix < 32
  {
    if subnet.Absent? {
      AutoChoice(db);
    }
  }

  lemma NetworkStepMatches(db: Db, name: string, subnet: SubnetArg)
    requires NetworksMatch(db)
    ensures NetworksMatch(CreateNetworkStep(db, name, subnet))
  {
    ChosenIsSound(db, subnet);
    var reply := CreateNetworkReply(db, name, subnet);
    if reply.Created? {
      MatchExtends(db.networks, db.subnets, name, reply.range);
    }
  }

  ghost predicate AllDisjoint(ranges: seq<Range>)
  {
    forall a, b :: 0 <= a < b < |ranges| ==> Disjoint(ranges[a], ranges[b])
  }

  lemma DisjointBothWays(a: Range, b: Range)
    ensures Disjoint(a, b) <==> Disjoint(b, a)
  {
  }

  lemma DisjointSnoc(ranges: seq<Range>, r: Range)
    requires AllDisjoint(ranges)
    ensures AllDisjoint(ranges + [r]) <==> forall a :: 0 <= a < |ranges| ==> Disjoint(r, ranges[a])
  {
    var n, after := |ranges|, ranges + [r];
    assert after[n] == r && after[..n] == ranges;
    forall a | 0 <= a < n
      ensures after[a] == ranges[a] && (Disjoint(r, ranges[a]) <==> Disjoint(after[a], after[n]))
    {
      DisjointBothWays(r, ranges[a]);
    }
  }

  /** An automatic subnet never overlaps anything; the ranges stay pairwise disjoint through
      a request exactly when the request is automatic or its own range is free. */
  lemma OverlapComesFromUsers(db: Db, name: string, subnet: SubnetArg)
    requires AllDisjoint(db.subnets)
    requires CreateNetworkReply(db, name, subnet).Created?
    ensures AllDisjoint(CreateNetworkStep(db, name, subnet).subnets)
            <==> subnet.Absent?
                 || forall a :: 0 <= a < |db.subnets| ==> Disjoint(subnet.range, db.subnets[a])
  {
    AutoChoice(db);
    var r := CreateNetworkReply(db, name, subnet).range;
    assert CreateNetworkStep(db, name, subnet).subnets == db.subnets + [r];
    DisjointSnoc(db.subnets, r);
  }

  lemma RunSnoc(requests: seq<Request>, q: Request)
    ensures Run(requests + [q]) == Step(Run(requests), q)
  {
    assert (requests + [q])[..|requests|] == requests;
  }

  /** A user's subnet that is valid, not a single address and not in the table is taken as it is. */
  lemma UserSubnetTaken(db: Db, name: string, r: Range)
    requires name !in db.networks && r.Aligned() && r.prefix < 32 && r !in db.subnets
    ensures CreateNetworkStep(db, name, Given(r))
            == db.(networks := db.networks[name := r], subnets := db.subnets + [r])
  {
  }

  /** The whole base given by a user after an automatic network is accepted, overlap and all. */
  lemma UserSubnetMayOverlap()
    ensures var requests := [NewNetwork("a", Absent), NewNetwork("b", Given(BASE))];
            var db := Run(requests);
            && db.networks.Keys == {"a", "b"} && db.networks["b"] == BASE
            && db.subnets == [db.networks["a"], BASE] && Overlaps(db.networks["a"], BASE)
  {
    var first, second := NewNetwork("a", Absent), NewNetwork("b", Given(BASE));
    BaseIsAligned();
    NextBlock(EMPTY);
    RunSnoc([], first);
    assert [] + [first] == [first];
    var db := Run([first]);
    assert db == EMPTY.(networks := map["a" := Block(0)], subnets := [Block(0)]);
    RunSnoc([first], second);
    assert [first] + [second] == [first, second];
    UserSubnetTaken(db, "b", BASE);
    assert Size(24) == 0x100;
    Pow2Sum(8, 8);
    assert Size(16) == 0x1_0000;
  }

  // ---- Automatic networks only ----

  /** The k-th /24 of the base. */
  function Block(k: nat): Range
    requires k < 256
  {
    Range(0x0A00_0000 + 0x100 * k, 24)
  }

  lemma BlockIsCandidate()
    ensures BASE.Aligned() && Count(BASE, AUTO_PREFIX) == 256
    ensures forall k: nat :: k < 256 ==> Candidate(BASE, AUTO_PREFIX, k) == Block(k)
  {
    BaseIsAligned();
    assert Size(24) == 0x100;
    assert Count(BASE, AUTO_PREFIX) == 256;
  }

  ghost predicate AreFirstBlocks(subnets: seq<Range>)
  {
    |subnets| <= 256 && forall k :: 0 <= k < |subnets| ==> subnets[k] == Block(k)
  }

  /** With the first k blocks taken, the next is the k-th, or none after 256. */
  lemma NextBlock(db: Db)
    requires AreFirstBlocks(db.subnets)
    ensures ChosenSubnet(db, Absent)
            == if |db.subnets| < 256 then Created(Block(|db.subnets|)) else TypeError
  {
    BlockIsCandidate();
    NextInLine(BASE, AUTO_PREFIX, db.subnets);
  }

  predicate AutoOnly(requests: seq<Request>)
  {
    forall k :: 0 <= k < |requests| && requests[k].NewNetwork? ==> requests[k].subnet.Absent?
  }

  lemma BlocksInOrder(db: Db, q: Request)
    requires AreFirstBlocks(db.subnets) && (q.NewNetwork? ==> q.subnet.Absent?)
    ensures AreFirstBlocks(Step(db, q).subnets)
  {
    NextBlock(db);
  }

  /** When no subnet is ever asked for, the k-th network is the k-th /24 of the base. */
  lemma {:induction false} AutoRun(requests: seq<Request>)
    requires AutoOnly(requests)
    ensures AreFirstBlocks(Run(requests).subnets)
  {
    if requests != [] {
      var n := |requests| - 1;
      AutoRun(requests[..n]);
      BlocksInOrder(Run(requests[..n]), requests[n]);
    }
  }

  // ---- Addresses ----

  lemma {:induction false} FirstFreeMeaning(lo: int, hi: int, used: set<Address>)
    requires 0 <= lo && hi < 0x1_0000_0000
    ensures match FirstFree(lo, hi, used)
            case Some(ip) => lo <= ip <= hi && ip !in used && forall x: Address :: lo <= x < ip ==> x in used
            case None => forall x: Address :: lo <= x <= hi ==> x in used
    decreases hi - lo
  {
    if lo <= hi && lo in used {
      FirstFreeMeaning(lo + 1, hi, used);
    }
  }

  /** A usable host of the range other than its first, the gateway. */
  predicate Usable(r: Range, ip: Address)
  {
    FirstHost(r) < ip <= LastHost(r)
  }

  /** Attachments name rows that exist; real addresses are usable, and no two containers on
      one network share one. */
  ghost predicate AddressesSound(db: Db)
  {
    && (forall n :: n in db.containers ==> db.containers[n] < db.nextId)
    && (forall m, n :: m in db.containers && n in db.containers && m != n ==> db.containers[m] != db.containers[n])
    && (forall key :: key in db.attached ==> key.0 in db.networks && key.1 < db.nextId)
    && (forall key :: key in db.attached && db.attached[key].Some? ==>
          Usable(db.networks[key.0], db.attached[key].value))
    && (forall k, l :: k in db.attached && l in db.attached && k.0 == l.0 && k != l && db.attached[k].Some?
                       ==> db.attached[k] != db.attached[l])
  }

  /** Some container on the network has the address. */
  predicate Held(db: Db, network: string, ip: Address)
  {
    exists key :: key in db.attached && key.0 == network && db.attached[key] == Some(ip)
  }

  /** The answer is the lowest host other than the gateway that nobody on the network has; there is none
      exactly when all of them are taken. */
  predicate IsLowestFree(db: Db, network: string, answer: Option<Address>)
    requires network in db.networks
  {
    match answer
    case Some(ip) =>
      && Usable(db.networks[network], ip) && !Held(db, network, ip)
      && forall x: Address :: x < ip && Usable(db.networks[network], x) ==> Held(db, network, x)
    case None => forall x: Address :: Usable(db.networks[network], x) ==> Held(db, network, x)
  }

  lemma HeldIsUsed(db: Db, network: string, x: Address)
    ensures x in UsedAddresses(db, network) <==> Held(db, network, x)
  {
    if x in UsedAddresses(db, network) {
      var key :| key in db.attached && key.0 == network && db.attached[key].Some? && db.attached[key].value == x;
      assert db.attached[key] == Some(x);
    }
  }

  lemma FreeIpIsFree(db: Db, network: string)
    requires network in db.networks
    ensures IsLowestFree(db, network, FreeIp(db, network))
  {
    var r, used := db.networks[network], UsedAddresses(db, network);
    NetworkIsAddress(r);
    FirstFreeMeaning(FirstHost(r) + 1, LastHost(r), used);
    forall x: Address
      ensures x in used <==> Held(db, network, x)
    {
      HeldIsUsed(db, network, x);
    }
  }

  lemma OneLowestFree(db: Db, network: string, a: Option<Address>, b: Option<Address>)
    requires network in db.networks && IsLowestFree(db, network, a) && IsLowestFree(db, network, b)
    ensures a == b
  {
  }

  lemma ContainerKeepsAddresses(db: Db, name: string, networks: set<string>, cloned: bool)
    requires AddressesSound(db)
    ensures AddressesSound(CreateContainerStep(db, name, networks, cloned))
  {
    forall n | n in networks && n in db.networks
      ensures IsLowestFree(db, n, FreeIp(db, n))
    {
      FreeIpIsFree(db, n);
    }
  }

  lemma AttachKeepsAddresses(db: Db, container: string, network: string)
    requires AddressesSound(db)
    ensures AddressesSound(AttachStep(db, container, network))
  {
    if network in db.networks {
      FreeIpIsFree(db, network);
    }
  }

  lemma StepKeepsAddresses(db: Db, q: Request)
    requires AddressesSound(db)
    ensures AddressesSound(Step(db, q))
  {
    match q
    case NewNetwork(name, subnet) =>
    case NewContainer(name, networks, cloned) => ContainerKeepsAddresses(db, name, networks, cloned);
    case Attach(name, network) => AttachKeepsAddresses(db, name, network);
    case Remove(_, _, _) =>
  }

  /** After any run: the two network tables agree, and addresses are usable and unique. */
  lemma {:induction false} RunsAreSound(requests: seq<Request>)
    ensures NetworksMatch(Run(requests))
    ensures AddressesSound(Run(requests))
  {
    if requests != [] {
      var n := |requests| - 1;
      RunsAreSound(requests[..n]);
      var db, q := Run(requests[..n]), requests[n];
      StepKeepsAddresses(db, q);
      if q.NewNetwork? {
        NetworkStepMatches(db, q.name, q.subnet);
      }
    }
  }

  // ---- Running out of addresses ----

  /** The addresses from lo to hi. */
  function Between(lo: int, hi: int): (s: set<Address>)
    requires 0 <= lo && hi < 0x1_0000_0000
    ensures forall x: Address :: x in s <==> lo <= x <= hi
    ensures lo <= hi + 1 ==> |s| == hi - lo + 1
    decreases hi - lo
  {
    if lo > hi then {} else Between(lo, hi - 1) + {hi}
  }

  /** No address is left exactly when all 2^(32-p) - 3 hosts other than the gateway are in
      use: there is then no room for another. */
  lemma FullMeansAllTaken(db: Db, network: string)
    requires AddressesSound(db) && network in db.networks && db.networks[network].prefix <= 30
    ensures |UsedAddresses(db, network)| <= Size(db.networks[network].prefix) - 3
    ensures FreeIp(db, network).None?
            <==> |UsedAddresses(db, network)| == Size(db.networks[network].prefix) - 3
  {
    var r := db.networks[network];
    NetworkIsAddress(r);
    assert Size(r.prefix) >= 4 by {
      Pow2Sum(2, 30 - r.prefix);
      assert Pow2(2) == 4;
    }
    var lo, hi := FirstHost(r) + 1, LastHost(r);
    var hosts, used := Between(lo, hi), UsedAddresses(db, network);
    FreeIpIsFree(db, network);
    assert used <= hosts;
    SubsetSize(used, hosts);
    if FreeIp(db, network).None? {
      forall x: Address | x in hosts
        ensures x in used
      {
        HeldIsUsed(db, network, x);
      }
      assert hosts == used;
    } else {
      var ip := FreeIp(db, network).value;
      HeldIsUsed(db, network, ip);
      assert ip in hosts && ip !in used;
      SubsetSize(used, hosts - {ip});
    }
  }

  lemma {:induction false} SubsetSize(a: set<Address>, b: set<Address>)
    requires a <= b
    ensures |a| <= |b|
  {
    if a != {} {
      var x :| x in a;
      SubsetSize(a - {x}, b - {x});
    }
  }

  /** On a full network, creating a container stores a row without an address, while
      attaching one refuses and changes nothing. */
  lemma FullNetwork(db: Db, network: string, fresh_: string, container: string)
    requires network in db.networks && FreeIp(db, network).None?
    requires fresh_ != "" && fresh_ !in db.containers
    requires container in db.containers && (network, db.containers[container]) !in db.attached
    ensures (network, db.nextId) in CreateContainerStep(db, fresh_, {network}, true).attached
    ensures CreateContainerStep(db, fresh_, {network}, true).attached[(network, db.nextId)] == None
    ensures AttachReplyOf(db, container, network) == NoAddress && AttachStep(db, container, network) == db
  {
  }

  const SMALL := Range(0x0B00_0000, 30)

  lemma SmallHasOneHost()
    ensures SMALL.Aligned() && FirstHost(SMALL) == 0x0B00_0001 && LastHost(SMALL) == 0x0B00_0002
  {
    assert Size(30) == 4;
  }

  /** A /30 with one container on it, and one container beside it. */
  function Crowd(): seq<Request>
  {
    [NewNetwork("n", Given(SMALL)), NewContainer("a", {"n"}, true), NewContainer("b", {}, true)]
  }

  lemma FirstOnSmall(db: Db)
    requires db == EMPTY.(networks := map["n" := SMALL], subnets := [SMALL])
    ensures CreateContainerStep(db, "a", {"n"}, true)
            == db.(containers := map["a" := 1], nextId := 2, attached := map[("n", 1) := Some(0x0B00_0002)])
  {
    SmallHasOneHost();
    assert UsedAddresses(db, "n") == {};
    assert FreeIp(db, "n") == Some(0x0B00_0002);
  }

  lemma CrowdedNetwork()
    ensures var db := Run(Crowd());
            && db.networks == map["n" := SMALL] && db.containers == map["a" := 1, "b" := 2] && db.nextId == 3
            && db.attached == map[("n", 1) := Some(0x0B00_0002)]
  {
    var first, second, third := Crowd()[0], Crowd()[1], Crowd()[2];
    RunSnoc([], first);
    RunSnoc([first], second);
    RunSnoc([first, second], third);
    assert [] + [first] == [first] && [first] + [second] == [first, second];
    assert [first, second] + [third] == Crowd();
    SmallHasOneHost();
    UserSubnetTaken(EMPTY, "n", SMALL);
    FirstOnSmall(Step(EMPTY, first));
    var two := Run([first, second]);
    assert Step(two, third).attached == two.attached;
  }

  /** A run that fills a network: the next container created there gets no address, while attaching
      an existing one is refused. */
  lemma FullNetworkReached()
    ensures var db := Run(Crowd());
            && AttachReplyOf(db, "b", "n") == NoAddress
            && ("n", 3) in Run(Crowd() + [NewContainer("c", {"n"}, true)]).attached
            && Run(Crowd() + [NewContainer("c", {"n"}, true)]).attached[("n", 3)] == None
  {
    var db := Run(Crowd());
    CrowdedNetwork();
    SmallHasOneHost();
    assert db.attached[("n", 1)].value == 0x0B00_0002;
    assert 0x0B00_0002 in UsedAddresses(db, "n");
    assert FreeIp(db, "n") == None;
    RunSnoc(Crowd(), NewContainer("c", {"n"}, true));
    FullNetwork(db, "n", "c", "b");
  }
}
