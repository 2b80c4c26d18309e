/** What each request answers and stores, said of the tables themselves. */
module DatabaseLaws {
  import opened Cidr
  import opened SubnetAllocator
  import opened Database
  import opened DatabaseRuns

  // ---- Addresses in numbers ----

  /** Which addresses of a network a container may get: all but its first, its last and the gateway; in
      a /31 the second one alone. */
  lemma UsableInNumbers(r: Range, ip: Address)
    requires r.Aligned()
    ensures r.prefix <= 30 ==> (Usable(r, ip) <==> r.addr + 2 <= ip <= r.addr + Pow2(32 - r.prefix) - 2)
    ensures r.prefix == 31 ==> (Usable(r, ip) <==> ip == r.addr + 1)
    ensures r.prefix == 32 ==> !Usable(r, ip)
  {
    assert Pow2(1) == 2 && Pow2(0) == 1;
  }

  lemma LowestInNumbers(db: Db, network: string, answer: Option<Address>)
    requires network in db.networks && IsLowestFree(db, network, answer)
    requires db.networks[network].Aligned() && db.networks[network].prefix <= 30
    ensures var base, size := db.networks[network].addr, Pow2(32 - db.networks[network].prefix);
            match answer
            case Some(ip) =>
              && base + 2 <= ip <= base + size - 2 && !Held(db, network, ip)
              && forall x: Address :: base + 2 <= x < ip ==> Held(db, network, x)
            case None => forall x: Address :: base + 2 <= x <= base + size - 2 ==> Held(db, network, x)
  {
    var r := db.networks[network];
    if answer.Some? {
      UsableInNumbers(r, answer.value);
    }
    forall x: Address | !Held(db, network, x)
      ensures Usable(r, x) <==> r.addr + 2 <= x <= r.addr + Pow2(32 - r.prefix) - 2
    {
      UsableInNumbers(r, x);
    }
  }

  /** After any run of requests, what get_free_ip_for_network answers is the lowest such address that
      nobody there holds; none exactly when there is no such address. */
  lemma LowestFree(requests: seq<Request>, network: string)
    requires network in Run(requests).networks && Run(requests).networks[network].prefix <= 30
    ensures var db := Run(requests);
            var base, size := db.networks[network].addr, Pow2(32 - db.networks[network].prefix);
            match FreeIp(db, network)
            case Some(ip) =>
              && base + 2 <= ip <= base + size - 2 && !Held(db, network, ip)
              && forall x: Address :: base + 2 <= x < ip ==> Held(db, network, x)
            case None => forall x: Address :: base + 2 <= x <= base + size - 2 ==> Held(db, network, x)
  {
    var db := Run(requests);
    RunsAreSound(requests);
    var r := db.networks[network];
    assert r in db.networks.Values && r in db.subnets;
    FreeIpIsFree(db, network);
    LowestInNumbers(db, network, FreeIp(db, network));
  }

  // ---- Networks ----

  /** The k-th /24 of 10.0.0.0/16 overlaps a subnet there is. */
  predicate Taken(db: Db, k: nat)
    requires k < 256
  {
    exists a :: 0 <= a < |db.subnets| && !Disjoint(Range(0x0A00_0000 + 0x100 * k, 24), db.subnets[a])
  }

  lemma TakenIsBlocked(db: Db, k: nat)
    requires k < 256
    ensures BASE.Aligned() && Count(BASE, AUTO_PREFIX) == 256
    ensures Taken(db, k) <==> Blocked(BASE, AUTO_PREFIX, db.subnets, k)
  {
    BlockIsCandidate();
    assert Candidate(BASE, AUTO_PREFIX, k) == Block(k);
    forall a | 0 <= a < |db.subnets|
      ensures Overlaps(Block(k), db.subnets[a]) <==> !Disjoint(Block(k), db.subnets[a])
    {
      OverlapsMeansShare(Block(k), db.subnets[a]);
    }
  }

  /** A network made without a subnet gets the first /24 of 10.0.0.0/16, the k-th, that overlaps no
      subnet there is; it fails exactly when all 256 overlap one. */
  lemma AutoPick(db: Db, name: string) returns (k: nat)
    requires name !in db.networks
    ensures k <= 256 && (forall j: nat :: j < k ==> Taken(db, j)) && (k < 256 ==> !Taken(db, k))
    ensures CreateNetworkReply(db, name, Absent)
            == if k < 256 then Created(Range(0x0A00_0000 + 0x100 * k, 24)) else TypeError
  {
    BlockIsCandidate();
    k := FindFromMeaning(BASE, AUTO_PREFIX, db.subnets, 0);
    forall j: nat | j < 256
      ensures Taken(db, j) <==> Blocked(BASE, AUTO_PREFIX, db.subnets, j)
    {
      TakenIsBlocked(db, j);
    }
    if k < 256 {
      NotInTable(db, k);
    }
  }

  lemma NotInTable(db: Db, k: nat)
    requires k < 256 && !Taken(db, k)
    ensures Block(k) !in db.subnets
  {
    NetworkIsAddress(Block(k));
  }

  /** How a request with a subnet is answered, and that only a created network changes the tables. */
  lemma NetworkAnswered(db: Db, name: string, subnet: SubnetArg)
    ensures var reply, after := CreateNetworkReply(db, name, subnet), CreateNetworkStep(db, name, subnet);
            && (reply.AlreadyExists? <==> name in db.networks)
            && (reply.InvalidSubnet?
                <==> && name !in db.networks
                     && (subnet.NotANetwork? || (subnet.Given? && subnet.range.Network() != subnet.range.addr)))
            && (subnet.Given? && name !in db.networks && subnet.range.Network() == subnet.range.addr ==>
                  reply == if subnet.range.prefix == 32 then TypeError
                           else if subnet.range in db.subnets then Duplicate else Created(subnet.range))
            && (if reply.Created? then
                  && name in after.networks && after.networks[name] == reply.range
                  && after.networks - {name} == db.networks && after.subnets == db.subnets + [reply.range]
                  && (after.containers, after.attached, after.nextId) == (db.containers, db.attached, db.nextId)
                else after == db)
  {
    var after := CreateNetworkStep(db, name, subnet);
    if name !in db.networks && after != db {
      assert after.networks - {name} == db.networks;
    }
  }

  // ---- Containers ----

  /** Every old row is still there. */
  predicate RowsKept(before: Db, after: Db)
  {
    forall key :: key in before.attached ==> key in after.attached && after.attached[key] == before.attached[key]
  }

  /** A container is made exactly when its name is new and not empty, its networks exist and its image
      can be cloned. Then it gets a number of its own and one row for each of its networks, with the
      lowest free address there, or with none when all are taken; nothing else changes. */
  lemma ContainerStored(db: Db, name: string, networks: set<string>, cloned: bool)
    requires AddressesSound(db)
    ensures var reply := CreateReplyOf(db, name, networks, cloned);
            var after := CreateContainerStep(db, name, networks, cloned);
            && (reply.Made? <==> name != "" && name !in db.containers && networks <= db.networks.Keys && cloned)
            && (reply.NameTaken? <==> name != "" && name in db.containers && networks <= db.networks.Keys)
            && (!reply.Made? ==> after == db)
            && (reply.Made? ==>
                  && (after.networks, after.subnets) == (db.networks, db.subnets)
                  && name in after.containers && after.containers - {name} == db.containers
                  && after.containers[name] !in db.containers.Values
                  && RowsKept(db, after)
                  && after.attached.Keys
                     == db.attached.Keys + (set n | n in networks :: (n, after.containers[name]))
                  && forall n :: n in networks ==>
                       && (n, after.containers[name]) !in db.attached
                       && IsLowestFree(db, n, after.attached[(n, after.containers[name])]))
  {
    if CreateReplyOf(db, name, networks, cloned).Made? {
      var after := CreateContainerStep(db, name, networks, cloned);
      var id := db.nextId;
      assert after.containers - {name} == db.containers;
      forall n | n in networks
        ensures (n, id) !in db.attached && after.attached[(n, id)] == FreeIp(db, n)
        ensures IsLowestFree(db, n, FreeIp(db, n))
      {
        FreeIpIsFree(db, n);
      }
    }
  }

  /** An attachment is accepted exactly when both rows exist, the pair is new and an address is left.
      Then the pair gets the lowest free address, which nobody on the network had; nothing else
      changes, and otherwise nothing at all. */
  lemma AttachmentStored(db: Db, container: string, network: string)
    ensures var reply, after := AttachReplyOf(db, container, network), AttachStep(db, container, network);
            && (reply.NoContainer? <==> container !in db.containers)
            && (reply.NoNetwork? <==> container in db.containers && network !in db.networks)
            && (reply.Present? <==> container in db.containers && network in db.networks
                                    && (network, db.containers[container]) in db.attached)
            && (!reply.Attached? ==> after == db)
            && (reply.NoAddress? ==> IsLowestFree(db, network, None))
            && (reply.Attached? ==>
                  var key := (network, db.containers[container]);
                  && key !in db.attached && after.attached.Keys == db.attached.Keys + {key}
                  && RowsKept(db, after)
                  && after.attached[key].Some? && IsLowestFree(db, network, after.attached[key])
                  && after == db.(attached := after.attached))
  {
    if network in db.networks {
      FreeIpIsFree(db, network);
    }
  }

  /** A container is removed unless it is not there, runs, or its data cannot be deleted. Exactly its
      own rows go: every other container keeps its rows, and what it held is free again. */
  lemma ContainerRemoved(db: Db, name: string, running: bool, deleted: bool)
    requires AddressesSound(db)
    ensures var after := RemoveContainerStep(db, name, running, deleted);
            && (after.networks, after.subnets, after.nextId) == (db.networks, db.subnets, db.nextId)
            && (name !in db.containers || running || !deleted ==> after == db)
            && (name in db.containers && !running && deleted ==>
                  && after.containers == db.containers - {name}
                  && (forall key :: key in after.attached <==> key in db.attached && key.1 != db.containers[name])
                  && RowsKept(after, db)
                  && (forall n, m :: m in after.containers ==>
                        ((n, after.containers[m]) in after.attached <==> (n, db.containers[m]) in db.attached))
                  && forall key :: key in db.attached && key.1 == db.containers[name] && db.attached[key].Some? ==>
                       !Held(after, key.0, db.attached[key].value))
  {
  }

  /** Removing a container just made leaves the tables as they were, but for the next number. */
  lemma RemoveUndoesCreate(db: Db, name: string, networks: set<string>)
    requires AddressesSound(db) && CreateReplyOf(db, name, networks, true).Made?
    ensures RemoveContainerStep(CreateContainerStep(db, name, networks, true), name, false, true)
            == db.(nextId := db.nextId + 1)
  {
    var made := CreateContainerStep(db, name, networks, true);
    assert made.containers - {name} == db.containers;
    assert RowsWithout(made.attached, db.nextId) == db.attached;
  }

  /** The address a removed container held can be given again. */
  lemma RemovedAddressReturns(db: Db, name: string, network: string)
    requires AddressesSound(db) && name in db.containers && (network, db.containers[name]) in db.attached
    requires db.attached[(network, db.containers[name])].Some?
    ensures FreeIp(RemoveContainerStep(db, name, false, true), network).Some?
    ensures FreeIp(RemoveContainerStep(db, name, false, true), network).value
            <= db.attached[(network, db.containers[name])].value
  {
    var after := RemoveContainerStep(db, name, false, true);
    ContainerRemoved(db, name, false, true);
    FreeIpIsFree(after, network);
  }
}
