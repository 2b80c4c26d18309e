/** The manager's tables of networks, allocated subnets, containers and attachments, and the
    methods that change them. */
module Database {
  import opened Cidr
  import opened SubnetAllocator

  const BASE := Range(0x0A00_0000, 16)
  const AUTO_PREFIX: Prefix := 24

  lemma BaseIsAligned()
    ensures BASE.Aligned()
  {
    assert Size(24) == 0x100;
    Pow2Sum(8, 8);
    assert Size(16) == 0x1_0000;
  }

  /** The rows, committed. An attachment without an address holds the text None. */
  datatype Db = Db(
    networks: map<string, Range>,
    subnets: seq<Range>,
    containers: map<string, nat>,
    attached: map<(string, nat), Option<Address>>,
    nextId: nat)

  const EMPTY := Db(map[], [], map[], map[], 1)

  /** A user's subnet argument: absent, text that is no network, or a network. */
  datatype SubnetArg = Absent | NotANetwork | Given(range: Range)

  datatype Reply =
    | Created(range: Range)
    | AlreadyExists
    | InvalidSubnet
    | Duplicate   // the UNIQUE(subnet, prefix) constraint
    | TypeError   // no gateway in a /32, or no free subnet to unpack

  /** What create_network settles on before it inserts. */
  function ChosenSubnet(db: Db, subnet: SubnetArg): Reply
  {
    BaseIsAligned();
    match subnet
    case NotANetwork => InvalidSubnet
    case Given(range) =>
      if !range.Aligned() then InvalidSubnet
      else if range.prefix == 32 then TypeError
      else Created(range)
    case Absent =>
      match FindAvailableSubnet(BASE, AUTO_PREFIX, db.subnets)
      case Found(range) => Created(range)
      case _ => TypeError
  }

  function CreateNetworkReply(db: Db, name: string, subnet: SubnetArg): Reply
  {
    if name in db.networks then AlreadyExists
    else
      var chosen := ChosenSubnet(db, subnet);
      if chosen.Created? && chosen.range in db.subnets then Duplicate else chosen
  }

  function CreateNetworkStep(db: Db, name: string, subnet: SubnetArg): Db
  {
    var reply := CreateNetworkReply(db, name, subnet);
    if reply.Created? then
      db.(networks := db.networks[name := reply.range], subnets := db.subnets + [reply.range])
    else db
  }

  // ---- Addresses of one network ----

  /** The first and last address hosts() yields. */
  function FirstHost(r: Range): int
  {
    if r.prefix <= 30 then r.Network() + 1 else r.Network()
  }

  function LastHost(r: Range): int
  {
    if r.prefix <= 30 then r.Broadcast() - 1 else r.Broadcast()
  }

  function UsedAddresses(db: Db, network: string): set<Address>
  {
    set key | key in db.attached && key.0 == network && db.attached[key].Some? :: db.attached[key].value
  }

  /** The lowest number from lo to hi not in use. */
  function FirstFree(lo: int, hi: int, used: set<Address>): Option<Address>
    requires 0 <= lo && hi < 0x1_0000_0000
    decreases hi - lo
  {
    if lo > hi then None
    else if lo !in used then Some(lo)
    else FirstFree(lo + 1, hi, used)
  }

  function FreeIp(db: Db, network: string): Option<Address>
    requires network in db.networks
  {
    var r := db.networks[network];
    NetworkIsAddress(r);
    FirstFree(FirstHost(r) + 1, LastHost(r), UsedAddresses(db, network))
  }

  // ---- Containers ----

  /** How create_container ends: made, refused with a message, or an IntegrityError for a name in
      use, which nothing catches. */
  datatype CreateReply = Made | NotMade | NameTaken

  function CreateReplyOf(db: Db, name: string, networks: set<string>, cloned: bool): CreateReply
  {
    if name == "" || !(networks <= db.networks.Keys) then NotMade
    else if name in db.containers then NameTaken
    else if cloned then Made
    else NotMade
  }

  /** create_container as far as the tables go; the addresses are all read before any is
      stored. A failed clone of the image rolls everything back. */
  function CreateContainerStep(db: Db, name: string, networks: set<string>, cloned: bool): Db
  {
    if CreateReplyOf(db, name, networks, cloned) != Made then db
    else
      var id := db.nextId;
      db.(containers := db.containers[name := id],
          nextId := id + 1,
          attached := db.attached + map n | n in networks :: (n, id) := FreeIp(db, n))
  }

  datatype AttachReply = NoContainer | NoNetwork | Present | NoAddress | Attached

  function AttachReplyOf(db: Db, container: string, network: string): AttachReply
  {
    if container !in db.containers then NoContainer
    else if network !in db.networks then NoNetwork
    else if (network, db.containers[container]) in db.attached then Present
    else if FreeIp(db, network).None? then NoAddress
    else Attached
  }

  function AttachStep(db: Db, container: string, network: string): Db
  {
    if AttachReplyOf(db, container, network) == Attached then
      db.(attached := db.attached[(network, db.containers[container]) := FreeIp(db, network)])
    else db
  }

  function RowsWithout(attached: map<(string, nat), Option<Address>>, id: nat)
    : map<(string, nat), Option<Address>>
  {
    map key | key in attached && key.1 != id :: attached[key]
  }

  /** remove_container: refused while the jail runs or when its data cannot be deleted. */
  function RemoveContainerStep(db: Db, name: string, running: bool, deleted: bool): Db
  {
    if name !in db.containers || running || !deleted then db
    else
      db.(containers := db.containers - {name},
          attached := RowsWithout(db.attached, db.containers[name]))
  }

  class JailManager {
    var networks: map<string, Range>
    var subnets: seq<Range>
    var containers: map<string, nat>
    var attached: map<(string, nat), Option<Address>>
    var nextId: nat

    function Rows(): Db
      reads this
    {
      Db(networks, subnets, containers, attached, nextId)
    }

    constructor ()
      ensures Rows() == EMPTY
    {
      networks, subnets, containers, attached, nextId := map[], [], map[], map[], 1;
    }

    /** create_network. */
    method CreateNetwork(name: string, subnet: SubnetArg) returns (reply: Reply)
      modifies this
      ensures reply == CreateNetworkReply(old(Rows()), name, subnet)
      ensures Rows() == CreateNetworkStep(old(Rows()), name, subnet)
    {
      if name in networks {
        return AlreadyExists;
      }
      reply := ChosenSubnet(Rows(), subnet);
      if reply.Created? {
        if reply.range in subnets {
          return Duplicate;
        }
        subnets := subnets + [reply.range];
        networks := networks[name := reply.range];
      }
    }

    /** get_free_ip_for_network: skip the first usable address, then the first not in use. */
    method GetFreeIpForNetwork(network: string) returns (ip: Option<Address>)
      requires network in networks
      ensures ip == FreeIp(Rows(), network)
    {
      var r := networks[network];
      NetworkIsAddress(r);
      var used := UsedAddresses(Rows(), network);
      var candidate := FirstHost(r) + 1;
      while candidate <= LastHost(r)
        invariant FirstHost(r) < candidate
        invariant FreeIp(Rows(), network) == FirstFree(candidate, LastHost(r), used)
      {
        if candidate !in used {
          return Some(candidate);
        }
        candidate := candidate + 1;
      }
      ip := None;
    }

    /** create_container. */
    method CreateContainer(name: string, wanted: set<string>, cloned: bool) returns (reply: CreateReply)
      modifies this
      ensures reply == CreateReplyOf(old(Rows()), name, wanted, cloned)
      ensures Rows() == CreateContainerStep(old(Rows()), name, wanted, cloned)
    {
      if name == "" || !(wanted <= networks.Keys) {
        return NotMade;
      }
      if name in containers {
        return NameTaken;
      }
      var rows: map<(string, nat), Option<Address>> := map[];
      var todo := wanted;
      while todo != {}
        invariant Rows() == old(Rows()) && todo <= wanted
        invariant rows == map n | n in wanted - todo :: (n, nextId) := FreeIp(Rows(), n)
        decreases todo
      {
        var n :| n in todo;
        var address := GetFreeIpForNetwork(n);
        rows := rows[(n, nextId) := address];
        todo := todo - {n};
      }
      assert wanted - {} == wanted;
      if !cloned {
        return NotMade;
      }
      containers := containers[name := nextId];
      attached := attached + rows;
      nextId := nextId + 1;
      reply := Made;
    }

    /** attach_network. */
    method AttachNetwork(container: string, network: string) returns (reply: AttachReply)
      modifies this
      ensures reply == AttachReplyOf(old(Rows()), container, network)
      ensures Rows() == AttachStep(old(Rows()), container, network)
    {
      if container !in containers {
        return NoContainer;
      }
      if network !in networks {
        return NoNetwork;
      }
      if (network, containers[container]) in attached {
        return Present;
      }
      var address := GetFreeIpForNetwork(network);
      if address.None? {
        return NoAddress;
      }
      attached := attached[(network, containers[container]) := address];
      reply := Attached;
    }

    /** remove_container: the row deletes. */
    method RemoveContainer(name: string, running: bool, deleted: bool)
      modifies this
      ensures Rows() == RemoveContainerStep(old(Rows()), name, running, deleted)
    {
      if name !in containers || running || !deleted {
        return;
      }
      attached := RowsWithout(attached, containers[name]);
      containers := containers - {name};
    }
  }
}
