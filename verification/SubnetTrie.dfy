/** The binary trie that maps a client address to the name of its network, against a plain
    list of the registered ranges. */
module SubnetTrie {
  import opened Cidr
  import opened Paths

  datatype Registration = Registration(name: string, range: Range)

  type BitPath = Path<int>

  /** The first n bits of an address as a path from the root. */
  function Bits(a: Address, n: nat): BitPath
    requires n <= 32
  {
    if n == 0 then Root else Down(Bits(a, n - 1), Bit(a, n - 1))
  }

  function PathOf(r: Range): BitPath
  {
    Bits(r.addr, r.prefix)
  }

  /** The bit walk and the arithmetic range agree: two addresses share their first n bits
      exactly when they lie in the same block of 2^(32-n) addresses. */
  lemma {:induction false} BitsAreTop(a: Address, b: Address, n: Prefix)
    ensures Bits(a, n) == Bits(b, n) <==> Top(a, n) == Top(b, n)
  {
    if n == 0 {
      TopOfNothing(a);
      TopOfNothing(b);
    } else {
      BitsAreTop(a, b, n - 1);
      BitIsTop(a, n - 1);
      BitIsTop(b, n - 1);
    }
  }

  /** Paths of different lengths differ. */
  lemma {:induction false} BitsLength(a: Address, b: Address, m: nat, n: nat)
    requires m <= 32 && n <= 32 && Bits(a, m) == Bits(b, n)
    ensures m == n
  {
    if m > 0 && n > 0 {
      BitsLength(a, b, m - 1, n - 1);
    }
  }

  lemma {:induction false} BitsAbove(a: Address, m: nat, n: nat)
    requires m <= n <= 32
    ensures Above(Bits(a, m), Bits(a, n))
  {
    if m < n {
      BitsAbove(a, m, n - 1);
    }
  }

  /** The name last registered at each path. */
  function NamesOf(history: seq<Registration>): map<BitPath, string>
  {
    if history == [] then map[]
    else
      var last := history[|history| - 1];
      NamesOf(history[..|history| - 1])[PathOf(last.range) := last.name]
  }

  function At<T>(table: map<BitPath, T>, path: BitPath): Option<T>
  {
    if path in table then Some(table[path]) else None
  }

  /** The root and every prefix of a registered bit string. */
  function PrefixClosure(history: seq<Registration>): set<BitPath>
  {
    if history == [] then {Root}
    else PrefixClosure(history[..|history| - 1]) + OnTheWay(PathOf(history[|history| - 1].range))
  }

  lemma {:induction false} ClosureMember(history: seq<Registration>, path: BitPath)
    ensures path in PrefixClosure(history)
            <==> path == Root || exists k :: 0 <= k < |history| && Above(path, PathOf(history[k].range))
  {
    if history != [] {
      var n := |history| - 1;
      ClosureMember(history[..n], path);
      OnTheWayIsAbove(path, PathOf(history[n].range));
      assert forall k :: 0 <= k < n ==> history[..n][k] == history[k];
    }
  }

  lemma HistorySnoc(history: seq<Registration>, r: Registration)
    ensures NamesOf(history + [r]) == NamesOf(history)[PathOf(r.range) := r.name]
    ensures PrefixClosure(history + [r]) == PrefixClosure(history) + OnTheWay(PathOf(r.range))
  {
    assert (history + [r])[..|history|] == history;
  }

  lemma WayInClosure(history: seq<Registration>, k: nat)
    requires k < |history|
    ensures OnTheWay(PathOf(history[k].range)) <= PrefixClosure(history)
  {
    forall p | p in OnTheWay(PathOf(history[k].range))
      ensures p in PrefixClosure(history)
    {
      OnTheWayIsAbove(p, PathOf(history[k].range));
      ClosureMember(history, p);
    }
  }

  /** Registering a range a second time adds no node. */
  lemma ReregisterAddsNothing(history: seq<Registration>, r: Registration)
    requires exists k :: 0 <= k < |history| && history[k].range == r.range
    ensures PrefixClosure(history + [r]) == PrefixClosure(history)
  {
    var k :| 0 <= k < |history| && history[k].range == r.range;
    WayInClosure(history, k);
    HistorySnoc(history, r);
  }

  lemma {:induction false} NamedIsInClosure(history: seq<Registration>, path: BitPath)
    ensures path in NamesOf(history) ==> path in PrefixClosure(history)
  {
    if history != [] {
      NamedIsInClosure(history[..|history| - 1], path);
    }
  }

  lemma OneStepFurther(paths: set<BitPath>, grown: set<BitPath>, more: set<BitPath>, path: BitPath, bit: int)
    requires grown == paths + OnTheWay(path) && more == grown + {Down(path, bit)}
    ensures more == paths + OnTheWay(Down(path, bit))
  {
  }

  lemma NoneBelow(paths: set<BitPath>, p: BitPath)
    requires UpClosed(paths) && p !in paths
    ensures forall b :: Down(p, b) !in paths
  {
    assert forall b :: Down(p, b).up == p;
  }

  lemma UpClosedGrowth(paths: set<BitPath>, path: BitPath, bit: int)
    requires UpClosed(paths) && path in paths
    ensures UpClosed(paths + {Down(path, bit)})
  {
  }

  class TrieNode {
    var children: seq<TrieNode?>
    var networkName: Option<string>
    ghost const path: BitPath

    constructor (ghost path: BitPath)
      ensures children == [null, null] && networkName == None && this.path == path
    {
      children := [null, null];
      networkName := None;
      this.path := path;
    }
  }

  /** The children the node of a path must have: the nodes one bit down. */
  ghost function Kids(nodes: map<BitPath, TrieNode>, p: BitPath): seq<TrieNode?>
  {
    [if Down(p, 0) in nodes then nodes[Down(p, 0)] else null,
     if Down(p, 1) in nodes then nodes[Down(p, 1)] else null]
  }

  /** The node of its path, with the children and the name it must have. */
  ghost predicate Fits(nodes: map<BitPath, TrieNode>, names: map<BitPath, string>, n: TrieNode,
                       children: seq<TrieNode?>, name: Option<string>)
  {
    && n.path in nodes && nodes[n.path] == n
    && children == Kids(nodes, n.path)
    && name == At(names, n.path)
  }

  /** A node other than the parent fits as before once a new node is hung. */
  lemma StillFits(nodes: map<BitPath, TrieNode>, names: map<BitPath, string>, path: BitPath, bit: int,
                  child: TrieNode, n: TrieNode, children: seq<TrieNode?>, name: Option<string>)
    requires Fits(nodes, names, n, children, name) && n.path != path && Down(path, bit) !in nodes
    ensures Fits(nodes[Down(path, bit) := child], names, n, children, name)
  {
  }

  /** Hanging one new node below the node of a path changes the children of that node only. */
  lemma KidsAfterGrowth(nodes: map<BitPath, TrieNode>, path: BitPath, bit: int, child: TrieNode)
    requires 0 <= bit < 2 && Down(path, bit) !in nodes
    requires forall b :: Down(Down(path, bit), b) !in nodes
    ensures var grown := nodes[Down(path, bit) := child];
            && Kids(grown, Down(path, bit)) == [null, null]
            && Kids(grown, path) == Kids(nodes, path)[bit := child]
            && forall p :: p != path && p != Down(path, bit) ==> Kids(grown, p) == Kids(nodes, p)
  {
    var next := Down(path, bit);
    assert forall b :: Depth(Down(next, b)) != Depth(next);
  }

  /** Naming one path changes the name of that path only. */
  lemma NamesAfterLabel(names: map<BitPath, string>, path: BitPath, name: string)
    ensures At(names[path := name], path) == Some(name)
    ensures forall p :: p != path ==> At(names[path := name], p) == At(names, p)
  {
  }

  /** _get_bit. */
  method GetBit(ip: Address, bitIndex: nat) returns (bit: int)
    requires bitIndex < 32
    ensures 0 <= bit < 2 && Bits(ip, bitIndex + 1) == Down(Bits(ip, bitIndex), bit)
  {
    bit := ip / Pow2(31 - bitIndex) % 2;
  }

  class SubnetTrie {
    var root: TrieNode
    var nodeCount: nat
    ghost var nodes: map<BitPath, TrieNode>
    ghost var repr: set<TrieNode>
    ghost var names: map<BitPath, string>
    ghost var history: seq<Registration>

    /** The nodes hang together as `nodes` says: one node for each path, each with the nodes
        one bit down as its children and with its name. */
    ghost predicate Linked()
      reads this, repr
    {
      match At(nodes, Root)
      case None => false
      case Some(top) =>
        && top == root && nodeCount == |nodes|
        && (forall p {:trigger nodes[p]} :: p in nodes ==> nodes[p] in repr && nodes[p].path == p)
        && (forall n :: n in repr ==> Fits(nodes, names, n, n.children, n.networkName))
    }

    /** No gap on the way to a node, and no name without a node. */
    ghost predicate Shaped()
      reads this
    {
      UpClosed(nodes.Keys) && names.Keys <= nodes.Keys
    }

    ghost predicate Valid()
      reads this, repr
    {
      Linked() && Shaped() && names == NamesOf(history) && nodes.Keys == PrefixClosure(history)
    }

    /** A walk has come to this node by this path. */
    ghost predicate Reached(path: BitPath, node: TrieNode)
      reads this, repr
    {
      Linked() && Shaped() && path in nodes && nodes[path] == node
    }

    constructor ()
      ensures Valid() && history == [] && fresh(repr)
    {
      var r := new TrieNode(Root);
      root := r;
      nodeCount := 1;
      nodes := map[Root := r];
      repr := {r};
      names := map[];
      history := [];
    }

    /** All but the parent and the new child fit as they did before the child was hung. */
    ghost predicate RestFits(before: map<BitPath, TrieNode>, node: TrieNode, child: TrieNode)
      reads this, repr
    {
      forall n :: n in repr && n != node && n != child ==> Fits(before, names, n, n.children, n.networkName)
    }

    lemma Relinked(before: map<BitPath, TrieNode>, path: BitPath, node: TrieNode, bit: int, child: TrieNode)
      requires 0 <= bit < 2 && Down(path, bit) !in before && forall b :: Down(Down(path, bit), b) !in before
      requires Root in before && before[Root] == root && path in before && before[path] == node
      requires forall p {:trigger before[p]} :: p in before ==> before[p] in repr && before[p].path == p
      requires nodes == before[Down(path, bit) := child] && nodeCount == |before| + 1
      requires {node, child} <= repr && child !in before.Values && child.path == Down(path, bit) && node.path == path
      requires RestFits(before, node, child)
      requires node.children == Kids(before, path)[bit := child] && node.networkName == At(names, path)
      requires child.children == [null, null] && child.networkName == At(names, child.path)
      ensures Linked()
    {
      KidsAfterGrowth(before, path, bit, child);
      forall n | n in repr
        ensures Fits(nodes, names, n, n.children, n.networkName)
      {
        if n != node && n != child {
          assert n.path != path;
          StillFits(before, names, path, bit, child, n, n.children, n.networkName);
        }
      }
    }

    /** Hang a new node below the node of a path. */
    method Hang(ghost path: BitPath, node: TrieNode, bit: int, child: TrieNode)
      requires Linked() && path in nodes && nodes[path] == node && 0 <= bit < 2
      requires Down(path, bit) !in nodes && Down(path, bit) !in names
      requires forall b :: Down(Down(path, bit), b) !in nodes
      requires child !in repr && child.path == Down(path, bit)
      requires child.children == [null, null] && child.networkName == None
      modifies this`nodeCount, this`nodes, this`repr, node`children
      ensures Linked()
      ensures nodes == old(nodes)[Down(path, bit) := child] && repr == old(repr) + {child}
    {
      ghost var before := nodes;
      node.children := node.children[bit := child];
      nodeCount := nodeCount + 1;
      nodes := nodes[Down(path, bit) := child];
      repr := repr + {child};
      Relinked(before, path, node, bit, child);
    }

    /** Make the missing child of a node. */
    method Grow(ghost path: BitPath, node: TrieNode, bit: int) returns (child: TrieNode)
      requires Reached(path, node) && 0 <= bit < 2 && Down(path, bit) !in nodes
      modifies this`nodeCount, this`nodes, this`repr, node`children
      ensures Reached(Down(path, bit), child)
      ensures nodes.Keys == old(nodes).Keys + {Down(path, bit)}
      ensures fresh(child) && repr == old(repr) + {child}
    {
      NoneBelow(nodes.Keys, Down(path, bit));
      UpClosedGrowth(nodes.Keys, path, bit);
      child := new TrieNode(Down(path, bit));
      Hang(path, node, bit, child);
      assert nodes.Keys == old(nodes).Keys + {Down(path, bit)};
    }

    /** One turn of the loop of insert: follow the bit, making the child if it is missing. */
    method Descend(ghost path: BitPath, node: TrieNode, bit: int) returns (child: TrieNode)
      requires Reached(path, node) && 0 <= bit < 2
      modifies this`nodeCount, this`nodes, this`repr, node`children
      ensures Reached(Down(path, bit), child)
      ensures nodes.Keys == old(nodes).Keys + {Down(path, bit)}
      ensures child in repr && fresh(repr - old(repr))
    {
      assert node.children == Kids(nodes, path);
      if node.children[bit] == null {
        child := Grow(path, node, bit);
      } else {
        child := node.children[bit];
      }
    }

    lemma Renamed(before: map<BitPath, string>, path: BitPath, node: TrieNode, name: string)
      requires Root in nodes && nodes[Root] == root && nodeCount == |nodes|
      requires forall p {:trigger nodes[p]} :: p in nodes ==> nodes[p] in repr && nodes[p].path == p
      requires path in nodes && nodes[path] == node && names == before[path := name]
      requires forall n :: n in repr && n != node ==> Fits(nodes, before, n, n.children, n.networkName)
      requires node.children == Kids(nodes, path) && node.networkName == Some(name)
      ensures Linked()
    {
      NamesAfterLabel(before, path, name);
      forall n | n in repr
        ensures Fits(nodes, names, n, n.children, n.networkName)
      {
        assert n != node ==> n.path != path;
      }
    }

    /** The last step of insert: name the node the bits lead to. */
    method Label(ghost path: BitPath, node: TrieNode, name: string, ghost r: Registration)
      requires Reached(path, node)
      modifies this`names, this`history, node`networkName
      ensures Reached(path, node)
      ensures names == old(names)[path := name] && history == old(history) + [r]
    {
      node.networkName := Some(name);
      names := names[path := name];
      history := history + [r];
      Renamed(old(names), path, node, name);
    }

    /** The loop of insert: to the node of a range, making what is missing on the way. */
    method WalkDown(range: Range) returns (node: TrieNode)
      requires Linked() && Shaped()
      modifies this`nodeCount, this`nodes, this`repr, repr`children
      ensures Reached(PathOf(range), node) && node in repr && fresh(repr - old(repr))
      ensures nodes.Keys == old(nodes).Keys + OnTheWay(PathOf(range))
    {
      node := root;
      ghost var path: BitPath := Root;
      for bitIndex := 0 to range.prefix
        invariant Reached(path, node) && path == Bits(range.addr, bitIndex)
        invariant node in repr && fresh(repr - old(repr))
        invariant nodes.Keys == old(nodes).Keys + OnTheWay(path)
      {
        var bit := GetBit(range.addr, bitIndex);
        ghost var grown := nodes.Keys;
        node := Descend(path, node, bit);
        OneStepFurther(old(nodes).Keys, grown, nodes.Keys, path, bit);
        path := Down(path, bit);
      }
    }

    /** insert once the range is accepted. */
    method Register(name: string, range: Range)
      requires Valid()
      modifies this, repr
      ensures Valid() && fresh(repr - old(repr))
      ensures history == old(history) + [Registration(name, range)]
    {
      var node := WalkDown(range);
      Label(PathOf(range), node, name, Registration(name, range));
      HistorySnoc(old(history), Registration(name, range));
    }

    /** insert: refused for a range with host bits set, before anything is touched. */
    method Insert(name: string, range: Range) returns (ok: bool)
      requires Valid()
      modifies this, repr
      ensures Valid() && fresh(repr - old(repr))
      ensures ok == range.Aligned()
      ensures history == if ok then old(history) + [Registration(name, range)] else old(history)
    {
      ok := range.Aligned();
      if ok {
        Register(name, range);
      }
    }

    /** node_count is the size of the prefix closure of the registered bit strings. */
    lemma NodeCountIsClosureSize()
      requires Valid()
      ensures nodeCount == |PrefixClosure(history)|
    {
      assert |nodes| == |nodes.Keys|;
    }

    /** find: walk the bits of the address as far as there are nodes. */
    method Find(ip: Address) returns (found: Option<string>)
      requires Linked() && Shaped()
      ensures found == Walk(names, ip, 32)
    {
      var node: TrieNode := root;
      found := None;
      ghost var path: BitPath := Root;
      for bitIndex := 0 to 32
        invariant Reached(path, node) && path == Bits(ip, bitIndex)
        invariant found == Walk(names, ip, bitIndex)
      {
        var bit := GetBit(ip, bitIndex);
        assert node.children == Kids(nodes, path);
        path := Down(path, bit);
        if node.children[bit] == null {
          WalkStopsOutside(names, nodes.Keys, ip, bitIndex, 32);
          return;
        }
        node := node.children[bit];
        if node.networkName.Some? {
          found := node.networkName;
        }
      }
    }
  }

  /** The deepest name on the first n bits of the walk, the root not counted. */
  function Walk(names: map<BitPath, string>, ip: Address, n: nat): Option<string>
    requires n <= 32
  {
    if n == 0 then None
    else if Bits(ip, n) in names then Some(names[Bits(ip, n)])
    else Walk(names, ip, n - 1)
  }

  lemma {:induction false} WalkStopsOutside(names: map<BitPath, string>, paths: set<BitPath>, ip: Address,
                                            m: nat, n: nat)
    requires m < n <= 32 && UpClosed(paths) && names.Keys <= paths && Bits(ip, m + 1) !in paths
    ensures Walk(names, ip, n) == Walk(names, ip, m)
  {
    if Bits(ip, n) in paths {
      BitsAbove(ip, m + 1, n);
      UpClosedAbove(paths, Bits(ip, m + 1), Bits(ip, n));
    }
    if m + 1 < n {
      WalkStopsOutside(names, paths, ip, m, n - 1);
    }
  }

  // ---- The naive answer ----

  predicate Covers(r: Registration, ip: Address)
  {
    r.range.prefix >= 1 && r.range.Contains(ip)
  }

  /** a is a narrower range than b, or as narrow and registered later or at the same time. */
  predicate AtLeast(history: seq<Registration>, a: nat, b: nat)
    requires a < |history| && b < |history|
  {
    var p, q := history[a].range.prefix, history[b].range.prefix;
    p > q || (p == q && a >= b)
  }

  /** The name last registered for the smallest registered range that holds the address;
      none when no range of prefix 1 or more does. */
  ghost predicate IsNaiveAnswer(history: seq<Registration>, ip: Address, answer: Option<string>)
  {
    match answer
    case None => forall k :: 0 <= k < |history| ==> !Covers(history[k], ip)
    case Some(name) =>
      exists k :: 0 <= k < |history| && history[k].name == name && Covers(history[k], ip)
                  && forall j :: 0 <= j < |history| && Covers(history[j], ip) ==> AtLeast(history, k, j)
  }

  lemma NaiveAnswerUnique(history: seq<Registration>, ip: Address, x: Option<string>, y: Option<string>)
    requires IsNaiveAnswer(history, ip, x) && IsNaiveAnswer(history, ip, y)
    ensures x == y
  {
  }

  lemma CoversIsBits(r: Registration, ip: Address)
    ensures r.range.Contains(ip) <==> PathOf(r.range) == Bits(ip, r.range.prefix)
  {
    ContainsIsTop(r.range, ip);
    BitsAreTop(r.range.addr, ip, r.range.prefix);
  }

  lemma {:induction false} NamesMeaning(history: seq<Registration>, path: BitPath)
    ensures match At(NamesOf(history), path)
            case None => forall k :: 0 <= k < |history| ==> PathOf(history[k].range) != path
            case Some(name) =>
              exists k :: 0 <= k < |history| && history[k].name == name && PathOf(history[k].range) == path
                          && forall j :: k < j < |history| ==> PathOf(history[j].range) != path
  {
    if history != [] {
      var n := |history| - 1;
      NamesMeaning(history[..n], path);
      assert forall k :: 0 <= k < n ==> history[..n][k] == history[k];
    }
  }

  /** The naive answer among the ranges of prefix at most n. */
  ghost predicate IsNaiveUpTo(history: seq<Registration>, ip: Address, n: nat, answer: Option<string>)
  {
    match answer
    case None => forall k :: 0 <= k < |history| && history[k].range.prefix <= n ==> !Covers(history[k], ip)
    case Some(name) =>
      exists k :: 0 <= k < |history| && history[k].name == name && Covers(history[k], ip)
                  && history[k].range.prefix <= n
                  && forall j :: 0 <= j < |history| && Covers(history[j], ip) && history[j].range.prefix <= n
                                 ==> AtLeast(history, k, j)
  }

  lemma {:induction false} WalkUpTo(history: seq<Registration>, ip: Address, n: nat)
    requires n <= 32
    ensures IsNaiveUpTo(history, ip, n, Walk(NamesOf(history), ip, n))
  {
    if n > 0 {
      WalkUpTo(history, ip, n - 1);
      NamesMeaning(history, Bits(ip, n));
      forall k | 0 <= k < |history| && PathOf(history[k].range) == Bits(ip, n)
        ensures history[k].range.prefix == n
      {
        BitsLength(history[k].range.addr, ip, history[k].range.prefix, n);
      }
      forall k | 0 <= k < |history| && history[k].range.prefix == n
        ensures Covers(history[k], ip) <==> PathOf(history[k].range) == Bits(ip, n)
      {
        CoversIsBits(history[k], ip);
      }
    }
  }

  /** After any sequence of registrations, the bit walk gives the naive answer. */
  lemma FindIsNaive(history: seq<Registration>, ip: Address)
    ensures IsNaiveAnswer(history, ip, Walk(NamesOf(history), ip, 32))
  {
    WalkUpTo(history, ip, 32);
  }
}
