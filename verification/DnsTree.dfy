/** The tree of names: nodes with a dictionary of children and maybe an address. */
module DnsTree {
  import opened Cidr
  import opened Paths
  import opened DnsNames

  datatype Entry = Entry(domain: string, ip: string)

  /** The address last inserted at each path. */
  function AddressesOf(history: seq<Entry>): map<NamePath, string>
  {
    if history == [] then map[]
    else
      var last := history[|history| - 1];
      AddressesOf(history[..|history| - 1])[PathOf(last.domain) := last.ip]
  }

  lemma AddressesSnoc(history: seq<Entry>, e: Entry)
    ensures AddressesOf(history + [e]) == AddressesOf(history)[PathOf(e.domain) := e.ip]
  {
    assert (history + [e])[..|history|] == history;
  }

  /** The paths at or below p. */
  function Below(paths: set<NamePath>, p: NamePath): set<NamePath>
  {
    set q | q in paths && Above(p, q)
  }

  lemma BelowShrinks(paths: set<NamePath>, p: NamePath, label_: string)
    requires p in paths
    ensures Below(paths, Down(p, label_)) < Below(paths, p)
  {
    forall q | q in Below(paths, Down(p, label_))
      ensures q in Below(paths, p)
    {
      AboveTransitive(p, Down(p, label_), q);
    }
    if Above(Down(p, label_), p) {
      AboveIsShorter(Down(p, label_), p);
    }
    assert p in Below(paths, p) && p !in Below(paths, Down(p, label_));
  }

  /** The paths at or below p that hold this address. */
  function Holders(addresses: map<NamePath, string>, p: NamePath, ip: string): set<NamePath>
  {
    set q | q in addresses && Above(p, q) && addresses[q] == ip
  }

  /** Each address is found exactly as often as there are paths at or below p that hold it. */
  ghost predicate Collects(addresses: map<NamePath, string>, p: NamePath, ips: seq<string>)
  {
    forall ip :: multiset(ips)[ip] == |Holders(addresses, p, ip)|
  }

  /** The same for p itself and the children already visited. */
  function HoldersPart(addresses: map<NamePath, string>, p: NamePath, done: set<string>, ip: string): set<NamePath>
  {
    set q | q in addresses && Above(p, q) && (q == p || StepToward(p, q) in done) && addresses[q] == ip
  }

  ghost predicate CollectsPart(addresses: map<NamePath, string>, p: NamePath, done: set<string>, ips: seq<string>)
  {
    forall ip :: multiset(ips)[ip] == |HoldersPart(addresses, p, done, ip)|
  }

  lemma CollectsStart(addresses: map<NamePath, string>, p: NamePath)
    ensures CollectsPart(addresses, p, {}, if p in addresses then [addresses[p]] else [])
  {
    forall ip
      ensures HoldersPart(addresses, p, {}, ip) == if p in addresses && addresses[p] == ip then {p} else {}
    {
    }
  }

  lemma HoldersMore(addresses: map<NamePath, string>, p: NamePath, done: set<string>, l: string, ip: string)
    requires l !in done
    ensures |HoldersPart(addresses, p, done + {l}, ip)|
            == |HoldersPart(addresses, p, done, ip)| + |Holders(addresses, Down(p, l), ip)|
  {
    var before, child := HoldersPart(addresses, p, done, ip), Holders(addresses, Down(p, l), ip);
    forall q
      ensures q in HoldersPart(addresses, p, done + {l}, ip) <==> q in before || q in child
      ensures !(q in before && q in child)
    {
      BelowChild(p, q, l);
    }
    assert HoldersPart(addresses, p, done + {l}, ip) == before + child && before !! child;
  }

  lemma CollectsMore(addresses: map<NamePath, string>, p: NamePath, done: set<string>, l: string,
                     ips: seq<string>, more: seq<string>)
    requires CollectsPart(addresses, p, done, ips) && l !in done
    requires Collects(addresses, Down(p, l), more)
    ensures CollectsPart(addresses, p, done + {l}, ips + more)
  {
    forall ip
      ensures multiset(ips + more)[ip] == |HoldersPart(addresses, p, done + {l}, ip)|
    {
      HoldersMore(addresses, p, done, l, ip);
    }
  }

  /** When the children of a node are all visited, so is everything addressed below it. */
  lemma CollectsAll(addresses: map<NamePath, string>, paths: set<NamePath>, p: NamePath, done: set<string>,
                    ips: seq<string>)
    requires UpClosed(paths) && addresses.Keys <= paths
    requires forall l :: Down(p, l) in paths ==> l in done
    requires CollectsPart(addresses, p, done, ips)
    ensures Collects(addresses, p, ips)
  {
    forall q | q in addresses && Above(p, q) && q != p
      ensures StepToward(p, q) in done
    {
      BelowOneStep(p, q, StepToward(p, q));
      UpClosedAbove(paths, Down(p, StepToward(p, q)), q);
    }
    forall ip
      ensures HoldersPart(addresses, p, done, ip) == Holders(addresses, p, ip)
    {
    }
  }

  /** Nothing is held at or below a path that passes through a missing one. */
  lemma NothingBelow(addresses: map<NamePath, string>, paths: set<NamePath>, missing: NamePath, p: NamePath)
    requires UpClosed(paths) && addresses.Keys <= paths && missing !in paths && Above(missing, p)
    ensures Collects(addresses, p, [])
  {
    forall q | q in addresses
      ensures !Above(p, q)
    {
      if Above(p, q) {
        AboveTransitive(missing, p, q);
        UpClosedAbove(paths, missing, q);
      }
    }
    assert forall ip :: Holders(addresses, p, ip) == {};
  }

  class DnsTreeNode {
    var children: map<string, DnsTreeNode>
    var ip: Option<string>
    ghost const path: NamePath

    constructor (ghost path: NamePath)
      ensures children == map[] && ip == None && this.path == path
    {
      children := map[];
      ip := None;
      this.path := path;
    }
  }

  function Addressed(addresses: map<NamePath, string>, p: NamePath): Option<string>
  {
    if p in addresses then Some(addresses[p]) else None
  }

  /** The dictionary of the node of a path: the nodes one label down. */
  ghost predicate Kids(nodes: map<NamePath, DnsTreeNode>, p: NamePath, children: map<string, DnsTreeNode>)
  {
    && (forall l :: l in children ==> Down(p, l) in nodes && nodes[Down(p, l)] == children[l])
    && (forall l :: Down(p, l) in nodes ==> l in children)
  }

  /** The node of its path, with the children and the address it must have. */
  ghost predicate Fits(nodes: map<NamePath, DnsTreeNode>, addresses: map<NamePath, string>, n: DnsTreeNode,
                       children: map<string, DnsTreeNode>, ip: Option<string>)
  {
    && n.path in nodes && nodes[n.path] == n
    && Kids(nodes, n.path, children)
    && ip == Addressed(addresses, n.path)
  }

  /** A node other than the parent fits as before once a new node is hung. */
  lemma StillFits(nodes: map<NamePath, DnsTreeNode>, addresses: map<NamePath, string>, path: NamePath, part: string,
                  child: DnsTreeNode, n: DnsTreeNode, children: map<string, DnsTreeNode>, ip: Option<string>)
    requires Fits(nodes, addresses, n, children, ip) && n.path != path && Down(path, part) !in nodes
    ensures Fits(nodes[Down(path, part) := child], addresses, n, children, ip)
  {
  }

  class DnsTree {
    var root: DnsTreeNode
    ghost var nodes: map<NamePath, DnsTreeNode>
    ghost var repr: set<DnsTreeNode>
    ghost var addresses: map<NamePath, string>
    ghost var history: seq<Entry>

    /** One node for each path; its dictionary leads to the nodes one label down. */
    ghost predicate Linked()
      reads this, repr
    {
      && Root in nodes && nodes[Root] == root
      && (forall p {:trigger nodes[p]} :: p in nodes ==> nodes[p] in repr && nodes[p].path == p)
      && (forall n :: n in repr ==>
            && n.path in nodes && nodes[n.path] == n
            && n.ip == Addressed(addresses, n.path))
      && (forall n, l :: n in repr && l in n.children ==>
            Down(n.path, l) in nodes && nodes[Down(n.path, l)] == n.children[l])
      && (forall n, l :: n in repr && Down(n.path, l) in nodes ==> l in n.children)
    }

    /** No gap on the way to a node, and no address without a node. */
    ghost predicate Shaped()
      reads this
    {
      UpClosed(nodes.Keys) && addresses.Keys <= nodes.Keys
    }

    ghost predicate Valid()
      reads this, repr
    {
      Linked() && Shaped() && addresses == AddressesOf(history)
    }

    /** A walk has come to this node by this path. */
    ghost predicate Reached(path: NamePath, node: DnsTreeNode)
      reads this, repr
    {
      Linked() && Shaped() && path in nodes && nodes[path] == node
    }

    constructor ()
      ensures Valid() && history == [] && fresh(repr)
    {
      var r := new DnsTreeNode(Root);
      root := r;
      nodes := map[Root := r];
      repr := {r};
      addresses := map[];
      history := [];
    }

    /** What is left to show once a child is hung: all but the parent and the child fit as before. */
    lemma Relinked(before: map<NamePath, DnsTreeNode>, path: NamePath, node: DnsTreeNode, part: string,
                   child: DnsTreeNode, children: map<string, DnsTreeNode>)
      requires Down(path, part) !in before && forall l :: Down(Down(path, part), l) !in before
      requires Root in before && before[Root] == root && path in before && before[path] == node
      requires forall p {:trigger before[p]} :: p in before ==> before[p] in repr && before[p].path == p
      requires nodes == before[Down(path, part) := child]
      requires {node, child} <= repr && child.path == Down(path, part) && node.path == path
      requires forall n :: n in repr && n != node && n != child ==> Fits(before, addresses, n, n.children, n.ip)
      requires Kids(before, path, children) && node.children == children[part := child]
      requires node.ip == Addressed(addresses, path)
      requires child.children == map[] && child.ip == Addressed(addresses, child.path)
      ensures Linked()
    {
      forall n | n in repr
        ensures Fits(nodes, addresses, n, n.children, n.ip)
      {
        if n != node && n != child {
          assert n.path != path;
          StillFits(before, addresses, path, part, child, n, n.children, n.ip);
        }
      }
      LinkedIfAllFit();
    }

    lemma LinkedIfAllFit()
      requires Root in nodes && nodes[Root] == root
      requires forall p {:trigger nodes[p]} :: p in nodes ==> nodes[p] in repr && nodes[p].path == p
      requires forall n :: n in repr ==> Fits(nodes, addresses, n, n.children, n.ip)
      ensures Linked()
    {
    }

    /** Hang a new node below the node of a path. */
    method Hang(ghost path: NamePath, node: DnsTreeNode, part: string, child: DnsTreeNode)
      requires Linked() && path in nodes && nodes[path] == node
      requires Down(path, part) !in nodes && Down(path, part) !in addresses
      requires forall l :: Down(Down(path, part), l) !in nodes
      requires child !in repr && child.path == Down(path, part)
      requires child.children == map[] && child.ip == None
      modifies this`nodes, this`repr, node`children
      ensures Linked()
      ensures nodes == old(nodes)[Down(path, part) := child] && repr == old(repr) + {child}
    {
      ghost var before, children := nodes, node.children;
      node.children := node.children[part := child];
      nodes := nodes[Down(path, part) := child];
      repr := repr + {child};
      Relinked(before, path, node, part, child, children);
    }

    /** One turn of the loop of insert. */
    method Descend(ghost path: NamePath, node: DnsTreeNode, part: string) returns (child: DnsTreeNode)
      requires Reached(path, node)
      modifies this`nodes, this`repr, node`children
      ensures Reached(Down(path, part), child)
      ensures child in repr && fresh(repr - old(repr))
    {
      if part !in node.children {
        assert forall l :: Down(Down(path, part), l).up !in nodes;
        child := new DnsTreeNode(Down(path, part));
        Hang(path, node, part, child);
      } else {
        child := node.children[part];
      }
    }

    /** The last step of insert: overwrite the address. */
    method SetIp(ghost path: NamePath, node: DnsTreeNode, ip: string, ghost e: Entry)
      requires Reached(path, node)
      modifies this`addresses, this`history, node`ip
      ensures Reached(path, node)
      ensures addresses == old(addresses)[path := ip] && history == old(history) + [e]
    {
      node.ip := Some(ip);
      addresses := addresses[path := ip];
      history := history + [e];
    }

    /** The loop of insert. */
    method WalkDown(parts: seq<string>) returns (node: DnsTreeNode)
      requires Linked() && Shaped()
      modifies this`nodes, this`repr, repr`children
      ensures Reached(PathUpTo(parts, |parts|), node) && node in repr && fresh(repr - old(repr))
    {
      node := root;
      ghost var path: NamePath := Root;
      for i := 0 to |parts|
        invariant Reached(path, node) && path == PathUpTo(parts, i)
        invariant node in repr && fresh(repr - old(repr))
      {
        node := Descend(path, node, parts[i]);
        path := Down(path, parts[i]);
      }
    }

    method Insert(domain: string, ip: string)
      requires Valid()
      modifies this, repr
      ensures Valid() && fresh(repr - old(repr))
      ensures history == old(history) + [Entry(domain, ip)]
    {
      var parts := RsplitGenerator(domain);
      var node := WalkDown(parts);
      SetIp(PathOf(domain), node, ip, Entry(domain, ip));
      AddressesSnoc(old(history), Entry(domain, ip));
    }

    /** A child of the node of a path is the node one label down. */
    lemma Follow(path: NamePath, node: DnsTreeNode, part: string)
      requires Reached(path, node) && part in node.children
      ensures Reached(Down(path, part), node.children[part])
      ensures node.children[part].ip == Addressed(addresses, Down(path, part))
    {
    }

    /** The children of a node are the nodes one label down, and fewer paths lie below each. */
    lemma ChildrenOf(node: DnsTreeNode)
      requires Linked() && node in repr
      ensures forall l :: l in node.children <==> Down(node.path, l) in nodes
      ensures forall l :: l in node.children ==> node.children[l] in repr
                                                 && node.children[l].path == Down(node.path, l)
                                                 && Below(nodes.Keys, Down(node.path, l)) < Below(nodes.Keys, node.path)
    {
      forall l | l in node.children
        ensures Below(nodes.Keys, Down(node.path, l)) < Below(nodes.Keys, node.path)
      {
        BelowShrinks(nodes.Keys, node.path, l);
      }
    }

    lemma OwnAddress(node: DnsTreeNode)
      requires Linked() && node in repr
      ensures CollectsPart(addresses, node.path, {}, if node.ip.Some? then [node.ip.value] else [])
    {
      CollectsStart(addresses, node.path);
    }

    /** collect_all from one node: the recursion visits each node below once. */
    method CollectAll(node: DnsTreeNode) returns (ips: seq<string>)
      requires Linked() && Shaped() && node in repr
      ensures Collects(addresses, node.path, ips)
      decreases Below(nodes.Keys, node.path)
    {
      ghost var p := node.path;
      ips := [];
      if node.ip.Some? {
        ips := [node.ip.value];
      }
      OwnAddress(node);
      ChildrenOf(node);
      var todo := node.children.Keys;
      ghost var done: set<string> := {};
      while todo != {}
        invariant todo + done == node.children.Keys && todo !! done
        invariant CollectsPart(addresses, p, done, ips)
        decreases todo
      {
        var l :| l in todo;
        var more := CollectAll(node.children[l]);
        CollectsMore(addresses, p, done, l, ips, more);
        ips := ips + more;
        todo, done := todo - {l}, done + {l};
      }
      CollectsAll(addresses, nodes.Keys, p, done, ips);
    }

    /** collect_from: nothing when a label is missing, else the whole subtree. */
    method CollectFrom(domain: string) returns (ips: seq<string>)
      requires Linked() && Shaped()
      ensures Collects(addresses, PathOf(domain), ips)
    {
      var parts := RsplitGenerator(domain);
      var node := root;
      for i := 0 to |parts|
        invariant Reached(PathUpTo(parts, i), node)
      {
        if parts[i] !in node.children {
          PathUpToAbove(parts, i + 1, |parts|);
          NothingBelow(addresses, nodes.Keys, PathUpTo(parts, i + 1), PathOf(domain));
          return [];
        }
        Follow(PathUpTo(parts, i), node, parts[i]);
        node := node.children[parts[i]];
      }
      ips := CollectAll(node);
    }

    /** longest_prefix_node: the deepest addressed node on the way, the root not counted. */
    method LongestPrefixNode(parts: seq<string>) returns (last: DnsTreeNode?)
      requires Linked() && Shaped()
      ensures last == null <==> Deepest(addresses, parts, |parts|) == 0
      ensures last != null ==>
        Reached(PathUpTo(parts, Deepest(addresses, parts, |parts|)), last) && last.ip.Some?
    {
      var node: DnsTreeNode := root;
      last := null;
      ghost var deepest := 0;
      for i := 0 to |parts|
        invariant Reached(PathUpTo(parts, i), node)
        invariant deepest == Deepest(addresses, parts, i)
        invariant last == null <==> deepest == 0
        invariant last != null ==> Reached(PathUpTo(parts, deepest), last) && last.ip.Some?
      {
        if parts[i] !in node.children {
          DeepestStops(addresses, nodes.Keys, parts, i, |parts|);
          return;
        }
        Follow(PathUpTo(parts, i), node, parts[i]);
        node := node.children[parts[i]];
        if node.ip.Some? {
          last, deepest := node, i + 1;
        }
      }
    }
  }

  /** How many of the first n parts lead to the deepest address on the way; 0 when none does. */
  function Deepest(addresses: map<NamePath, string>, parts: seq<string>, n: nat): (k: nat)
    requires n <= |parts|
    ensures k <= n
    ensures k > 0 ==> PathUpTo(parts, k) in addresses
    ensures forall j :: k < j <= n ==> PathUpTo(parts, j) !in addresses
  {
    if n == 0 then 0
    else if PathUpTo(parts, n) in addresses then n
    else Deepest(addresses, parts, n - 1)
  }

  lemma {:induction false} DeepestStops(addresses: map<NamePath, string>, paths: set<NamePath>,
                                        parts: seq<string>, m: nat, n: nat)
    requires m < n <= |parts| && UpClosed(paths) && addresses.Keys <= paths
    requires PathUpTo(parts, m + 1) !in paths
    ensures Deepest(addresses, parts, n) == Deepest(addresses, parts, m)
  {
    if PathUpTo(parts, n) in paths {
      PathUpToAbove(parts, m + 1, n);
      UpClosedAbove(paths, PathUpTo(parts, m + 1), PathUpTo(parts, n));
    }
    if m + 1 < n {
      DeepestStops(addresses, paths, parts, m, n - 1);
    }
  }
}
