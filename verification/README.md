# A verified model of dockermock

dockermock manages FreeBSD jails: a server keeps tables of containers and networks, a worker process
starts jails that the server asks for over a socket, pf rules redirect published ports, and a small DNS
server answers the jails. This project models the parts of it that hold logic of their own and proves
what they do on all inputs and over all runs. `dafny verify dfyconfig.toml` checks everything.

| File | What it models |
|---|---|
| `Cidr.dfy`, `PfWords.dfy` | IPv4 ranges as integers (section 3.1 of RFC 4632), and the same ranges as masked 32-bit words |
| `PfPool.dfy`, `PfPoolLaws.dfy` | the address pool of a pf rule, edited in place by two cursor loops; what that means for sorted pools |
| `PfRules.dfy`, `PfHistory.dfy` | the rule lists of pf anchors, the two-pass removal by port, histories of rules |
| `PfPackets.dfy`, `PfPorts.dfy` | what a rule list does to a packet; publishing and withdrawing the ports of containers that share an anchor, and where packets go then |
| `Paths.dfy`, `SubnetTrie.dfy` | the binary trie from client address to network, on the heap, against a plain list of ranges |
| `SubnetAllocator.dfy`, `Database.dfy`, `DatabaseLaws.dfy`, `DatabaseRuns.dfy` | first-fit subnets and addresses, the tables, what each request stores, and runs of requests |
| `DnsNames.dfy`, `DnsTree.dfy`, `DnsLaws.dfy` | the right-to-left splitter, the label tree on the heap (section 3.1 of RFC 1034), collection and isolation |
| `AddressText.dfy`, `Resolver.dfy` | addresses as text; the local answer that joins trie and tree, and the end-to-end path from what the worker registers to what a client is told |
| `Framing.dfy`, `Protocol.dfy`, `Daemons.dfy` | names as lines on a byte stream, the server/worker protocol as a transition system, and the two programs' methods as runs of it |

Objects that the source updates in place are classes here (`AddressPool`, `Pf`, `SubnetTrie`, `DnsTree`,
`JailManager`, `Worker`, `Receiver`). Their methods are proved against functions and ghost histories, and
the lemmas say what those mean. The nodes of both trees carry their path as a ghost constant, and the
trees a ghost map from path to node; neither exists in the source.

## Where the code differs from what one would expect

The model follows the code; each point has a lemma that says exactly when it matters.

- A range of prefix 0 is stored at the root of the trie but `find` never looks there, so it is never
  returned (`SubnetTrie.FindIsNaive` asks for prefix 1 or more).
- `remove_addressList_from_pool` says in a comment that it lowers `total`, and does not. A walk past the
  shrunken pool ends in -1 with the right pool (`PfPoolLaws.RemoveReturnCode`).
- Adding a range to a pool that holds a narrower range at the same address does nothing
  (`PfPoolLaws.WiderRangeIsDropped`), unless a wider range of the same list covers it
  (`PfPoolLaws.AddCoversIff`). Removing a host takes away the whole entry that holds it
  (`PfPoolLaws.RemoveListExactly`).
- When every rdr rule of an anchor matches a removal, or there is none, the nat and filter lists go too
  (`PfHistory.RdrRemovalKeepsNat`). And nat rules are removed by the container port and protocol alone. So
  one container's stop can take another's nat rule in two ways: when no rdr rule is left, and when both
  listen on the same port inside (`PfPorts.StopSparesNatIff`, `PfPorts.NatLostWithSharedPort`,
  `PfPorts.NatLostWithSharedInside`). The DNS rule of the network prevents the first only
  (`PfPorts.DnsRuleShields`). The append that creates an anchor forgets the quick flag.
- A container that exits by itself keeps its rules on the anchor, and each start adds them again, so the
  buffer of 16 positions is overrun after seventeen starts (`PfHistory.RestartsPileUp`).
- A text that does not parse counts as equal to the entry it meets: adding passes over both, so what follows
  may land out of order with success reported (`PfPoolLaws.UnparsedDisorders`); removing stops there
  (`PfPoolLaws.UnparsedStopsRemoval`).
- `create_network` unpacks the answer of the allocator without looking, so a full base ends in a
  TypeError and the reply "No Empty Network" is never given; a /32 fails in the same way when its gateway
  is looked for (`Reply.TypeError`). The prefix that the caller of the API passes is ignored.
- Subnets given by users are checked only against exact repetition (`DatabaseRuns.OverlapComesFromUsers`,
  `DatabaseRuns.UserSubnetMayOverlap`).
- On a full network `create_container` stores the text `None` as the address, `attach_network` refuses
  (`DatabaseRuns.FullNetwork`, `DatabaseRuns.FullNetworkReached`).
- `remove_container` in app2/JailManager_.py:755-757 reads a variable before it is assigned and always fails;
  the row deletes of app2/JailManager.py:712-732 are modelled.
- Questions are put in lower case and names are stored as given, so a container with a capital in its name is
  never found under it (`Resolver.FoundIffNoCapitals`).
- The splitter drops one leading dot (`DnsNames.PartsRejoin`).
- Networks nested inside one another share answers (`DnsLaws.NestedNetworksLeak`, `DnsLaws.IsolationIff`).
- `start_jail` sends the name as it stands and the worker strips the line. Names with white space outside
  or a newline inside are unclean. A container with such a name can never leave the status `running`
  (`Protocol.StopsIffClean`). When one arrives as another container's name, that container can get two
  entries in `JAIL_DICT` (`Protocol.OneEntryIffNoCollision`), and can be reported as exited while it is
  alive, because the kernel refuses the second jail (`Protocol.MisreportIffCollision`); neither happens
  otherwise. `stop_jail` answers `exited` without writing any status.
- `start_jail` sends with the lock held, and the worker needs the lock for each name. Once the socket is
  full the two can wait for one another for ever (`Protocol.SocketFills`, `Protocol.CanFinishIff`).

## Model

| member | source | states |
|---|---|---|
| PfWords.WordsAreBounds | app2/pf/pf_util.c:758-824 | the masked words of an address are the first and last address of its range, for every address and prefix, the special mask of prefix 0 included |
| PfPool.AddressPool.AddAddress | app2/pf/pf_util.c:826-866 | position 0 inserts at the head, -1 at the tail, another before the entry there; refused past the end or when the text does not parse, and then nothing changes |
| PfPool.AddressPool.RemoveAddress | app2/pf/pf_util.c:869-896 | removes exactly the entry at the position, or refuses and changes nothing |
| PfPool.AddressPool.AddAddressList | app2/pf/pf_util.c:900-1015 | the cursor walk with its stale fetched entry leaves the merge of pool and list, and returns 0 exactly when the texts left for the tail parse |
| PfPool.AddressPool.AddToTail | app2/pf/pf_util.c:1003-1013 | the second loop appends the texts up to the first that does not parse |
| PfPool.AddressPool.RemoveAddressList | app2/pf/pf_util.c:1020-1119 | the removing walk over a shrinking pool leaves the subtraction, and returns -1 also where the old total leads it past the end |
| PfPool.CompareEntry | app2/pf/pf_util.c:758-824 | the comparison on masked words is: equal when the text does not parse or lies inside the entry, else the order of the first addresses |
| PfPoolLaws.AddIsSortedUnion | app2/pf/pf_util.c:900-1015 | for strictly increasing host pools and lists the result is strictly increasing, holds exactly the union, and the call returns 0 |
| PfPoolLaws.StrictHostsUnique | app2/pf/pf_util.c:900-1015 | such a pool is determined by its elements, so the union has one possible result |
| PfPoolLaws.AddTwiceIsAddOnce | app2/pf/pf_util.c:900-1015 | adding a host list twice is adding it once |
| PfPoolLaws.AddsCommute | app2/pf/pf_util.c:900-1015 | the order of two additions does not matter |
| PfPoolLaws.AddKeepsSorted | app2/pf/pf_util.c:947-1013 | with any CIDR entries in order of first address, the result is in that order and invents nothing |
| PfPoolLaws.AddKeepsOldEntries | app2/pf/pf_util.c:947-1013 | whatever pool and texts, the old entries survive in their old order |
| PfPoolLaws.AddCovers | app2/pf/pf_util.c:947-1013 | every range added ends up inside some entry or at the same first address as one |
| PfPoolLaws.AddCoversHosts | app2/pf/pf_util.c:947-1013 | every single host added lies inside some entry afterwards |
| PfPoolLaws.WiderRangeIsDropped | app2/pf/pf_util.c:806-823 | adding 10.0.0.0/24 to a pool holding 10.0.0.0/25 reports success and adds nothing |
| PfPoolLaws.AddCoversExactly | app2/pf/pf_util.c:947-1013 | for a sorted pool and a list with increasing first addresses, what lies inside some entry afterwards is exactly what did before and what lies inside a range of the list that starts where no pool entry does |
| PfPoolLaws.AddCoversIff | app2/pf/pf_util.c:947-1013 | a range of such a list is covered afterwards if and only if it lies inside one of the list that was covered before or that nothing in the pool starts at |
| PfPoolLaws.AddOneCoversIff | app2/pf/pf_util.c:947-1013 | for a single range: covered afterwards if and only if it was before or nothing starts at its address |
| PfPoolLaws.RemoveIsDifference | app2/pf/pf_util.c:1020-1119 | for strictly increasing host pools and lists the result is the pool without the list, in order, whatever is returned |
| PfPoolLaws.RemoveKeepsOrder | app2/pf/pf_util.c:1020-1119 | whatever pool and texts, removing leaves a subsequence of the pool |
| PfPoolLaws.GoneOnlyWhenHit | app2/pf/pf_util.c:1020-1119 | whatever pool and list, an entry goes only for a range of the list that lies inside it or starts where it does |
| PfPoolLaws.RemoveOneExactly | app2/pf/pf_util.c:1020-1119 | from a sorted pool one range takes away exactly the first entry that holds it or starts where it does, and nothing when there is none |
| PfPoolLaws.RemoveListExactly | app2/pf/pf_util.c:1020-1119 | from a sorted pool a sorted list takes away, for each of its ranges in turn, the first entry left that holds it or starts where it does, and nothing else |
| PfPoolLaws.RemoveFirstThenRest | app2/pf/pf_util.c:1020-1119 | removing a sorted list is removing its first range and then the rest |
| PfPoolLaws.HostTakesRangeAway | app2/pf/pf_util.c:806-823 | removing 10.0.0.5/32 from a pool with 10.0.0.0/8 takes the whole /8 away |
| PfPoolLaws.RemoveReturnCode | app2/pf/pf_util.c:1094-1107 | -1 is returned exactly when something was removed and the list's last address lies beyond every entry the pool had |
| PfPoolLaws.RemoveUndoesAdd | app2/pf/pf_util.c:900-1119 | removing a list just added gives back the pool without that list |
| PfPoolLaws.ParsedMeaning | app2/pf/pf_util.c:1003-1013 | the tail takes the longest front of the texts that parses, all of them exactly when all parse |
| PfPoolLaws.UnparsedAddsNothing | app2/pf/pf_util.c:758-824 | a text that does not parse at the end of a list adds nothing, and fails the call alone exactly when the pool is empty |
| PfPoolLaws.UnparsedDisorders | app2/pf/pf_util.c:947-1000 | in front of others it makes a smaller address land behind a larger one, with success reported |
| PfPoolLaws.UnparsedStopsRemoval | app2/pf/pf_util.c:1058-1107 | removing takes exactly what the texts before the first that does not parse take; success there means that nothing was removed |
| PfRules.Pf.Append | app2/pf/pf_util.c:1438-1611 | appends at the tail of a known anchor, else commits a list of one that forgets the quick flag; fails and changes nothing when an address does not parse; no other anchor changes |
| PfRules.Pf.RemoveNthRule | app2/pf/pf_util.c:1613-1639 | removes exactly the rule at the position; returns -1 and changes nothing past the end and for an anchor pf does not know |
| PfRules.Pf.ClearRuleset | app2/pf/pf_util.c:292-302 | empties the nat, rdr and filter lists of one anchor, if pf knows it, and touches no other |
| PfRules.Pf.CollectPositions | app2/pf/pf_util.c:1669-1713 | the first pass records the positions of the matching rules, increasing, within the buffer of 16 |
| PfRules.Pf.DeletePositions | app2/pf/pf_util.c:1719-1725 | the second pass, deleting at position - i, leaves the list without its matching rules and touches nothing else |
| PfRules.AllRecordedIsAllMatch | app2/pf/pf_util.c:1714-1717 | the test of the two counters means that every rule matches, and that the filter would leave nothing |
| PfRules.DeletionsFilter | app2/pf/pf_util.c:1719-1725 | after the deletions for the matches below n, the list is the filter of its first n rules followed by the rest unchanged |
| PfRules.DeletionInRange | app2/pf/pf_util.c:1719-1725 | every shifted position lies inside the list it is applied to |
| PfRules.AllDeleted | app2/pf/pf_util.c:1719-1725 | all deletions together are the stable filter |
| PfRules.WordsAgreeIff | app2/pf/pf_util.c:1517-1519 | a stored port and a port to remove have one word if and only if they differ by a multiple of 65536, what is not positive being stored as 0 |
| PfRules.RemovalTakesItsPort | app2/pf/pf_util.c:1702 | a rule appended with destination port p is taken by a removal of q if and only if p is q and the protocols agree, for all ports below 65536, rdr and nat; what was there is treated as without it |
| PfRules.KeptByNumber | app2/pf/pf_util.c:1702 | a removal keeps exactly the rules of another port number or another protocol |
| PfRules.Pf.RemoveRdrPortRule | app2/pf/pf_util.c:1643-1727 | on both paths the rdr list keeps exactly the rules that do not match, in order; nat and filter go only on the clear-all path; other anchors stay |
| PfRules.Pf.RemoveNatPortRule | app2/pf/pf_util.c:2080-2162 | on both paths the nat list keeps exactly the rules that do not match, in order; the rdr list is never touched |
| PfHistory.RdrHistory | app2/pf/pf_util.c:1261-1727 | after any run of appends and removals the rdr list is the appended rules as stored, quick flag included, in order, less those matching a later removal |
| PfHistory.NatHistory | app2/pf/pf_util.c:1729-2478 | the same for nat rules, which are also lost to every later removal that matches all rdr rules then live |
| PfHistory.RdrRemovalKeepsNat | app2/pf/pf_util.c:1714-1717 | an rdr removal keeps the nat rules if and only if there are none or some rdr rule stays behind, and the filter rules unless none does |
| PfHistory.MatchesAreUnremoved | app2/pf/pf_util.c:1669-1713 | after any run a removal finds as many rdr rules as were appended on its port and protocol since the last such removal, which is what the buffer of 16 must hold |
| PfHistory.NatMatchesAreUnremoved | app2/pf/pf_util.c:2080-2162 | the same for nat rules, where a clearing rdr removal counts too |
| PfHistory.RestartsPileUp | kqueue_parent.py:240-257 | a container that exits by itself and is started n times without a stop leaves n rdr rules, so seventeen starts overrun the buffer |
| PfPorts.AddRdrPorts | app2/JailManager_.py:677-721 | without a network nothing happens; else an rdr and a nat rule for each port in order on the network's anchor, up to the first port with a target that is no address, where it raises; no other anchor changes, and every packet goes where PublishedPortsLead says |
| PfPorts.PublishedPortsLead | app2/JailManager_.py:683-715 | for every anchor, list of ports and packet: the rules that were there decide first; else a packet for this host from another interface goes to the targets and the container port of the first port published for it, and one of the host to a published container gets its source from the network; nothing else is redirected |
| PfPorts.PublishedPortLeads | app2/JailManager_.py:683-700 | in particular a packet to a published number and protocol goes to that port's targets at its container port, unless an earlier rule or entry takes it |
| PfPorts.PublishedQuick | app2/pf/pf_util.c:1438-1502 | one rdr rule for each port, after those there, quick but for the first of a new anchor; the nat rules are not quick |
| PfPorts.StartNetwork | app2/JailManager_.py:325-374 | starting a network appends one rule to its anchor, unless it is the host's, is not there or its interface cannot be made; a DNS query on the network from its subnet to its gateway then goes to port 53 of 127.0.0.11 unless a rule that was there takes it, every other packet where it went, and the rule is quick exactly when interface and anchor were there |
| PfPorts.StopContainerPorts | app2/JailManager_.py:260-276 | the nested loops withdraw every port from every network's anchor and leave every other anchor as it was |
| PfPorts.StopLeavesOthers | app2/JailManager_.py:268-276 | stopping leaves on each network exactly the rdr rules on none of the container's host ports, and the nat rules on none of its container ports, in order, but no nat rule when no rdr rule is left |
| PfPorts.StopEndsRedirection | app2/JailManager_.py:260-276 | after a stop no packet to one of the container's host ports is redirected on its networks, and every other packet goes where it went |
| PfPorts.StopSparesNatIff | app2/pf/pf_util.c:2080-2162 | a nat rule, whoever's it is, survives a stop if and only if it is on none of the stopped container's container ports and some rdr rule stays or there was nothing to stop |
| PfPorts.DnsRuleShields | app2/JailManager_.py:336-371 | while the network's DNS rule is on the anchor, stopping a container that does not publish 53/udp leaves exactly the nat rules on none of its container ports, and that rule |
| PfPorts.NatLostWithSharedInside | app2/JailManager_.py:268-274 | with that rule there, two containers published on different host ports that listen on one port inside: stopping the first takes the second's nat rule, and leaves its rdr rule |
| PfPorts.NatLostWithSharedPort | app2/JailManager_.py:683-715 | two containers published on one host port without that rule: stopping the first takes the second's nat rule along |
| PfPorts.StopUndoesPublish | app2/JailManager_.py:260-276 | publishing and then stopping restores the rdr list if and only if none of it was on the host ports, and the nat list if and only if it was empty, nothing was published, or none of it was on the container ports and an rdr rule of another port stays |
| SubnetTrie.GetBit | app2/dns/SubnetTrie.py:16-17 | the bit read extends the path of the first bits of the address by one |
| SubnetTrie.BitsAreTop | app2/dns/SubnetTrie.py:16-31 | two addresses share a path of n bits if and only if they lie in one aligned block of that length |
| SubnetTrie.SubnetTrie.Insert | app2/dns/SubnetTrie.py:19-31 | refuses a range with host bits and changes nothing, else extends the history, with names, node set and node count kept in step |
| SubnetTrie.SubnetTrie.WalkDown | app2/dns/SubnetTrie.py:25-30 | the loop reaches the node of the range and adds exactly the missing nodes on the way |
| SubnetTrie.SubnetTrie.NodeCountIsClosureSize | app2/dns/SubnetTrie.py:13-29 | after any run of inserts node_count is the size of the prefix closure of the inserted bit strings, root included |
| SubnetTrie.ClosureMember | app2/dns/SubnetTrie.py:19-31 | that closure is the root and exactly the prefixes of registered ranges |
| SubnetTrie.ReregisterAddsNothing | app2/dns/SubnetTrie.py:25-31 | registering a range again adds no node |
| SubnetTrie.SubnetTrie.Find | app2/dns/SubnetTrie.py:52-63 | the walk over the nodes returns the deepest name on the bits of the address, the root left out |
| SubnetTrie.FindIsNaive | app2/dns/SubnetTrie.py:52-63 | after any run, that is the name last registered for the smallest registered range of prefix 1 or more that holds the address, or none when there is none |
| SubnetTrie.NaiveAnswerUnique | app2/dns/SubnetTrie.py:52-63 | that answer is determined by the registrations |
| SubnetAllocator.OverlapsMeansShare | app2/network/SubnetAllocator.py:26-31 | two ranges overlap if and only if they share an address, if and only if neither ends before the other begins |
| SubnetAllocator.IsOverlappingMeaning | app2/network/SubnetAllocator.py:26-31 | the search says yes if and only if the candidate overlaps some allocated network |
| SubnetAllocator.FirstFit | app2/network/SubnetAllocator.py:33-40 | the answer is an aligned block in the base, disjoint from everything allocated and the lowest such; none exactly when every candidate overlaps something; an error exactly for a prefix shorter than the base's, unless the base is a single address |
| SubnetAllocator.RoomMeansFound | app2/network/SubnetAllocator.py:33-40 | with only allocations at least as narrow as the request and fewer of them than candidates, a subnet is found |
| SubnetAllocator.NextInLine | app2/network/SubnetAllocator.py:42-48 | with exactly the first k candidates taken the next is the k-th, or none when all are taken |
| Database.JailManager.CreateNetwork | app2/JailManager_.py:386-422 | the reply and both tables afterwards, for a name in use, a bad or repeated subnet, a full base and a /32 |
| Database.JailManager.GetFreeIpForNetwork | app2/JailManager_.py:550-567 | the loop returns the lowest unused host after the first, or nothing |
| Database.JailManager.CreateContainer | app2/JailManager_.py:592-650 | all addresses are chosen before any row is stored; an unknown network or a clone that fails is refused, a name in use raises, and then no table changes |
| Database.JailManager.AttachNetwork | app2/JailManager_.py:775-803 | the reply and the tables in each of its five outcomes |
| Database.JailManager.RemoveContainer | app2/JailManager.py:712-732 | the container's row and all its attachments go, nothing else does |
| DatabaseLaws.NetworkAnswered | app2/JailManager_.py:386-422 | how a request with a subnet is answered in each case; a created network adds its one row to both tables, and nothing else changes anything |
| DatabaseLaws.AutoPick | app2/JailManager_.py:404 | without a subnet the first /24 of 10.0.0.0/16 that overlaps none there is; a failure exactly when all 256 do |
| DatabaseLaws.UsableInNumbers | app2/JailManager_.py:553-560 | the addresses that may be given: all but the first, the last and the gateway, in a /31 the second alone |
| DatabaseLaws.LowestFree | app2/JailManager_.py:550-567 | after every run the address answered is the lowest of those that nobody on the network holds, and none exactly when all are held |
| DatabaseLaws.ContainerStored | app2/JailManager_.py:592-650 | exactly when a container is made; then it gets a number of its own and one row for each network, with the lowest free address or none when all are taken, and nothing else changes |
| DatabaseLaws.AttachmentStored | app2/JailManager_.py:775-803 | exactly when an attachment is accepted; then the new row holds the lowest free address, which nobody on the network had, and nothing else changes; otherwise nothing does |
| DatabaseLaws.ContainerRemoved | app2/JailManager.py:712-732 | exactly the container's own rows go, every other container keeps its rows, and no address it held is held any more |
| DatabaseLaws.RemoveUndoesCreate | app2/JailManager.py:712-732 | removing a container just made leaves all tables as they were, but for the next number |
| DatabaseLaws.RemovedAddressReturns | app2/JailManager.py:712-732 | after a removal the network has a free address, no higher than the one given up |
| DatabaseRuns.AutoChoice | app2/JailManager_.py:404 | an automatic subnet is an aligned /24 of the base, disjoint from all allocated before |
| DatabaseRuns.OverlapComesFromUsers | app2/JailManager_.py:395-411 | pairwise disjoint subnets stay so if and only if the new one is automatic or the user's range is free |
| DatabaseRuns.UserSubnetMayOverlap | app2/JailManager_.py:395-402 | a run of an automatic network and then the whole base given by a user, both accepted and overlapping |
| DatabaseRuns.NextBlock | app2/JailManager_.py:404 | with the first k blocks taken the next is the k-th, and after 256 the call fails |
| DatabaseRuns.AutoRun | app2/JailManager_.py:386-422 | in every run without user subnets the k-th network is the k-th /24 of the base |
| DatabaseRuns.RunsAreSound | app2/JailManager_.py:313-803 | after every run both network tables hold the same subnets once each under unique names, attachments name existing rows, real addresses are usable and unique on their network |
| DatabaseRuns.FreeIpIsFree | app2/JailManager_.py:550-567 | an address returned is the lowest host other than the gateway that nobody on the network has; none means all of them are held |
| DatabaseRuns.FullMeansAllTaken | app2/JailManager_.py:550-567 | for prefix at most 30 no address is left if and only if 2^(32-p) - 3 are in use |
| DatabaseRuns.FullNetwork | app2/JailManager_.py:638-639 | on a full network creating stores a row without an address while attaching refuses |
| DatabaseRuns.FullNetworkReached | app2/JailManager_.py:638-639 | a run that fills a /30, after which a new container gets no address and an attachment is refused |
| DnsNames.RsplitGenerator | app2/dns/DnsTree.py:16-23 | the loop ends and yields the parts from the right |
| DnsNames.PartsAreLabels | app2/dns/DnsTree.py:16-23 | those are the labels of splitting on dots, reversed, without a leading empty one |
| DnsNames.PartsRejoin | app2/dns/DnsTree.py:16-23 | reversing and joining them gives the name back if and only if it does not start with a dot |
| DnsNames.AboveIsPrefix | app2/dns/DnsTree.py:25-33 | one tree path lies above another if and only if its parts are a prefix |
| DnsNames.PartsOfQualified | app2/dns/DnsTree.py:16-23 | the parts of d.network are those of the network and then those of d |
| DnsTree.DnsTree.Insert | app2/dns/DnsTree.py:25-33 | the address at the name's path is overwritten, every other stays, and the node dictionaries keep agreeing with the paths |
| DnsTree.DnsTree.CollectAll | app2/dns/DnsTree.py:70-78 | the recursion over the mutable nodes finds each address exactly as often as there are paths at or below the node that hold it |
| DnsTree.DnsTree.CollectFrom | app2/dns/DnsTree.py:48-55 | the same for the path of a name; when a label is missing that is nothing |
| DnsTree.DnsTree.LongestPrefixNode | app2/dns/DnsTree.py:58-68 | the node returned is the deepest addressed one on the way below the root; none exactly when there is none |
| DnsLaws.AddressesMeaning | app2/dns/DnsTree.py:25-33 | the address at a path is the one last inserted for a name with that path, and none when there is no such name |
| DnsLaws.CollectionUnique | app2/dns/DnsTree.py:70-78 | this fixes the result up to order: two collections qualify if and only if they are the same multiset |
| DnsLaws.CollectedAddresses | app2/dns/DnsTree.py:48-55 | after any run of inserts an address is collected for d if and only if some entry has it that is the last of its name and whose labels from the right start with those of d |
| DnsLaws.Isolation | server.py:151-160 | with neither network's labels a prefix of the other's, an insert under one changes no collection under the other |
| DnsLaws.IsolationIff | server.py:151-160 | two networks named by proper labels leave all collections of each other alone, whatever is inserted, if and only if the labels of neither are a prefix of the other's |
| DnsLaws.NestedNetworksLeak | server.py:151-160 | for nested networks an insert under the inner one is found from the outer one |
| AddressText.QuadReadsBack | app2/JailManager_.py:563 | the text of an address is four decimal numbers below 256 that read back as it |
| AddressText.QuadIsCanonical | app2/JailManager_.py:552-564 | a text reads as an address if and only if it is the text of that address, so comparing texts is comparing addresses |
| Resolver.Resolve | app2/dns/DnsServer.py:28-51 | an A query of a client in a named network is answered with exactly the collected addresses, and forwarded exactly when there are none; any other query is forwarded |
| Resolver.RunsStayApart | server.py:163-171 | in every run of requests and registrations with automatic networks, ranges stay disjoint and every registered range is that of its network |
| Resolver.Attribution | app2/dns/SubnetTrie.py:52-63 | when the worker registers a network made without a subnet, every address in it is from then on mapped to its name, and to default when it has none |
| Resolver.GivenAddressesAttributed | app2/JailManager_.py:550-567 | so is every address a container holds there and the next one to be given |
| Resolver.AnswerClient | kqueue_parent.py:97-115 | end to end: the worker registers a network and posts a container with the address it holds on it at that moment; any client of the network that asks for the container, in whatever case, gets an answer; it holds exactly the addresses last inserted for the names at or below the container's, and the text of the posted address unless a later event asks for the same name |
| Resolver.AnswerHost | server.py:224-230 | the same for host.jail.internal and the address posted when its network was started |
| Resolver.FoundIffNoCapitals | app2/dns/DnsServer.py:30-36 | asked for in any case, the entry of a container is among the answers if and only if its name has no capitals |
| Resolver.LastInRun | server.py:151-160 | what an event inserts is the last entry for its name as long as no later event asks for that name |
| Framing.StripMeaning | kqueue_parent.py:327 | stripping takes white space off both ends and nothing else, and leaves none there |
| Framing.Receiver.Receive | kqueue_parent.py:321-327 | one read appends exactly the complete lines of buffer and data, stripped, and keeps the unfinished one |
| Framing.ReadOn | kqueue_parent.py:314-332 | reading a and then b is reading both at once |
| Framing.ChunksDoNotMatter | kqueue_parent.py:314-332 | names and leftover depend only on the concatenated chunks, for every way to cut the stream |
| Framing.StripIsClean | kqueue_parent.py:327 | what is stripped off a line has no white space left outside and no newline |
| Framing.LastLine | app2/JailManager_.py:148 | a sent name arrives as that name alone if and only if it is clean; otherwise its first line is another name |
| Framing.ArrivesAsSentIffClean | app2/JailManager_.py:148 | all names arrive as sent, in order, if and only if every one is clean |
| Framing.ArrivedNamesArePrefix | kqueue_parent.py:314-332 | of clean names, those received at any moment are the first ones sent, and all once every byte has come |
| Protocol.OwedAfter | kqueue_parent.py:118-257 | how every event changes the requests, starts in hand, live entries and pending notices of a name |
| Protocol.StepKeepsSound | kqueue_parent.py:282-340 | every event keeps the invariant of all runs: whole lines on the stream, names taken in the order sent, a running clean name owed at least once |
| Protocol.TakenInOrder | kqueue_parent.py:314-332 | in every run the names taken are the first ones of the lines sent, and as sent when those are clean |
| Protocol.AccountedIffClean | app2/JailManager_.py:139-151 | in all runs over a set of names each name is owed exactly once while running or being started and never otherwise, if and only if all those names are clean |
| Protocol.OneContainerPerName | kqueue_parent.py:118-165 | with clean names queued requests and live JAIL_DICT entries of a name are at most one together, none unless it is running or being started, and when all is quiet nothing is left running |
| Protocol.OneEntryIffNoCollision | kqueue_parent.py:214-222 | no run over a set of names, whatever the socket holds, gives a name two entries in JAIL_DICT if and only if no unclean name arrives as another name of the set |
| Protocol.DoublesNeedRemoval | app2/helpers.py:62-67 | whatever the names, a name has two entries only in runs with a stop or the destruction of a half-made jail, because the kernel refuses a second jail |
| Protocol.CollisionDoubles | kqueue_parent.py:160-163 | any collision has a run to two entries: a stop removes the jail while the second line is in hand, and a new one is made before the first exit is seen |
| Protocol.MisreportIffCollision | kqueue_parent.py:123-126 | a container whose jail and child are alive can come to be reported as exited, the kernel refusing a second jail of its name, if and only if names collide |
| Protocol.CollisionMisreports | app2/helpers.py:62-67 | from any collision such a run is built: the refused second start is reported as the exit of the first |
| Protocol.CollisionTearsDown | kqueue_parent.py:138-143 | from any collision a run is built in which a start that fails half made destroys the jail of the running container, whose child has not exited and which is reported as exited |
| Protocol.RunKeepsKernel | kqueue_parent.py:249-251 | in every run the kernel has a jail of a name only while JAIL_DICT has an entry for it, so an exit that is dealt with frees the name |
| Protocol.EntryGoesOnExit | kqueue_parent.py:240-257 | an entry goes only when its child has exited, and then the notice for its container is due |
| Protocol.CanStartAgain | app2/JailManager_.py:139-151 | from every state at rest a clean name that has a row can be started and made again: some run ends with exactly one entry for it, running |
| Protocol.PublishingWaits | kqueue_parent.py:127-136 | while a start is in progress a jail that could be made is made exactly when its container publishes no ports |
| Protocol.CanFinish | kqueue_parent.py:240-257 | from every state reached whose start in progress, if any, can be sent, exits, the worker and the start in progress alone can bring everything to rest |
| Protocol.CanFinishIff | app2/JailManager_.py:148 | that is possible if and only if no start is in progress, or the socket has room for it, or the worker can read enough before it needs the lock |
| Protocol.SocketFills | server.py:130-134 | whatever the socket holds, a run to the deadlock: start_jail waits for room with the lock held while the worker waits for the lock |
| Protocol.BusyRunsEnd | kqueue_parent.py:282-340 | without new calls every run of steps that do something is finite, bounded by the work there is at its start |
| Protocol.NothingToDoIff | kqueue_parent.py:282-340 | the worker has nothing it can do if and only if every line and exit is dealt with, or it is in that deadlock |
| Protocol.WorkerSettles | kqueue_parent.py:282-340 | with no call in progress and no new one, whatever order the worker takes, it ends with every line and exit dealt with |
| Protocol.StopsIffClean | app2/JailManager_.py:107-110 | in every run a running container has a continuation that reports it exited if and only if its name is clean and the start in progress, if any, can be sent; otherwise no event ever changes its status |
| Daemons.JailManager.StartJail | app2/JailManager_.py:139-151 | the locked call, when its line fits the socket, is the two events send and commit, and its reply tells whether the name is running afterwards |
| Daemons.JailManager.UpdateExitCode | app2/JailManager_.py:107-110 | the call sets the status of the row there is, whoever makes it; made by the worker with a notice in hand it is the notice event |
| Daemons.Worker.ProcessContainer | kqueue_parent.py:118-222 | looking a name up and starting it, or reporting a jail that is refused or half made, is the corresponding run of events; the pid is returned exactly for a new entry, and the kernel has the jail afterwards exactly when it was made, or was there and not destroyed |
| Daemons.Worker.RemoveContainer | kqueue_parent.py:240-257 | an exit event pops the entry, destroys its jail and reports it, or does nothing for a process it does not know |
| Daemons.Worker.ProcessLine | kqueue_parent.py:323-332 | one turn of the loop takes the first line off the buffer and processes it |
| Daemons.Worker.Readable | kqueue_parent.py:314-332 | one readable event takes every complete line and processes it, as a run of the transition system that the lines and outcomes determine |

## Left out

- Kernel and library calls: ioctl layouts and tickets, ctypes, nvlists, libzfs, mounts, rctl and route sockets; a pf list is a sequence with one editor at a time, where the kernel refuses only positions out of range, and of the kernel's jails only the set of names is kept.
- PfRules.Pf.CollectPositions: requires at most 16 matches, because the buffer of positions holds 16 and the code writes past it without a check; PfHistory.MatchesAreUnremoved says when that holds.
- PfRules.Pf.RemoveRdrPortRule: requires at most 16 matching rdr rules, for the same buffer.
- PfRules.Pf.RemoveNatPortRule: requires at most 16 matching nat rules, for the same buffer.
- PfPool.AddressPool.AddAddressList: texts that do not parse are one value; how inet_pton and the prefix are read is not modelled, nor is IPv6.
- PfRules.Pf.Append: of a pf rule interface, source and destination as given, protocol, destination port, targets, their port and quick are kept; the other fields have one value for each kind of rule here, as no caller gives a source port.
- PfPorts.AddRdrPorts: the port list of a request is taken as read, with a flag that says whether its targets are addresses; a port without targets fails in its nat part only, as the code swallows that failure.
- PfPorts.PublishedPortsLead: asks for a network name that pf reads as an interface, so neither empty nor starting with `!`, and for no positive multiple of 65536 as a port, whose word is that of no port; how long an interface name may be is not modelled.
- PfPorts.PublishedPortLeads: asks for the same, and for numbers of ports before the entry.
- PfPorts.StopEndsRedirection: asks for host ports from 1 to 65535 and rdr rules that name a port; PfPorts.StopLeavesOthers covers the others.
- PfPorts.StopContainerPorts: requires the networks of a container to be distinct, as the rows they come from are, and at most 16 rules on each of its ports, for the buffer of positions.
- PfPorts.StopUndoesPublish: asks for ports that are not negative; a negative one is stored as no port and removed by its 16-bit word.
- DnsTree.DnsTree.CollectAll: dictionaries iterate in insertion order in the source; the children are visited in any order here, so the result is stated as a multiset.
- Resolver.Resolve: lower() is modelled for ASCII letters; forwarding to other resolvers is the answer none.
- Resolver.AnswerClient: asks for automatic networks, and for a container name without capitals, as Resolver.FoundIffNoCapitals says it must; that a later event asks for the same name is taken to end the promise even when it inserts nothing.
- Resolver.AnswerHost: asks for automatic networks, and for a network with a name, as no other can be started.
- Resolver.Attribution: asks for automatic networks; overlap of user subnets is covered by DatabaseRuns.OverlapComesFromUsers.
- DatabaseLaws.LowestFree: says the bounds for prefixes up to 30; DatabaseLaws.UsableInNumbers has the other two, and DatabaseRuns.FreeIpIsFree all.
- DatabaseLaws.ContainerStored: asks for tables that agree, which DatabaseRuns.RunsAreSound proves of every run.
- DatabaseLaws.ContainerRemoved: asks for the same.
- Database.JailManager.CreateNetwork: requests are served one after another; the API does not hold its lock for this call, and sqlite's own isolation is not modelled.
- Database.JailManager.CreateContainer: images, volumes and the stored configuration are not modelled, and a clone that fails is a parameter; for an image without a dataset the source raises a NameError at app2/JailManager_.py:573 with nothing rolled back, so that the next commit stores the rows, and that case is not modelled.
- Framing.Receiver.Receive: characters stand for bytes; decoding UTF-8 and what happens to a line that is not UTF-8 are not modelled.
- Protocol.AccountedIffClean: container deletion, shutdown with `clean_all_jails` and `mark_all_exited`, a failing fork, a lost server, a failing exit watch and exit codes posted by anyone but the worker are not events.
- Protocol.OneContainerPerName: names are looked up as they are; the worker builds URLs without quoting, so names with `/`, `?`, `#` or `%` reach other rows than modelled here.
- Protocol.MisreportIffCollision: the processes that die with a jail are any of its children; jails made or removed by hand are not events.
- Daemons.JailManager.StartJail: asks for room in the socket when it sends; a send that waits is the events apart in the transition system, which has the worker read in between.
- Daemons.Worker.Readable: the outcome of each start is a parameter, a child only where its jail name is free; requests of other clients between two lines are events of the transition system, not of this method.
- `clear_ip`, anonymous volumes, IPv6, the CLI, the image builder, exec, logging and process titles.
- app2/Jail.py, parent.py and the rest of app2/JailManager.py: older duplicates of the files modelled.
