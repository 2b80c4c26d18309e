/** First-fit choice of a subnet inside the base network. */
module SubnetAllocator {
  import opened Cidr

  /** IPv4Network.overlaps: an end of one lies in the other. */
  predicate Overlaps(a: Range, b: Range)
  {
    || a.Contains(b.Network()) || a.Contains(b.Broadcast())
    || b.Contains(a.Network()) || b.Contains(a.Broadcast())
  }

  /** _is_overlapping. */
  predicate IsOverlapping(candidate: Range, taken: seq<Range>)
  {
    if taken == [] then false
    else Overlaps(candidate, taken[0]) || IsOverlapping(candidate, taken[1..])
  }

  predicate Disjoint(a: Range, b: Range)
  {
    a.Broadcast() < b.Network() || b.Broadcast() < a.Network()
  }

  /** Two ranges overlap exactly when they share an address. */
  lemma OverlapsMeansShare(a: Range, b: Range)
    ensures Overlaps(a, b) <==> exists ip: Address :: a.Contains(ip) && b.Contains(ip)
    ensures Overlaps(a, b) <==> !Disjoint(a, b)
  {
    NetworkIsAddress(a);
    NetworkIsAddress(b);
    if !Disjoint(a, b) {
      var ip: Address := if a.Network() <= b.Network() then b.Network() else a.Network();
      assert a.Contains(ip) && b.Contains(ip);
    }
  }

  lemma {:induction false} IsOverlappingMeaning(candidate: Range, taken: seq<Range>)
    ensures IsOverlapping(candidate, taken)
            <==> exists k :: 0 <= k < |taken| && Overlaps(candidate, taken[k])
  {
    if taken != [] {
      IsOverlappingMeaning(candidate, taken[1..]);
      assert forall k :: 0 < k < |taken| ==> taken[k] == taken[1..][k - 1];
      assert forall k :: 0 <= k < |taken| - 1 ==> taken[1..][k] == taken[k + 1];
    }
  }

  /** How many subnets of a prefix the base has. */
  function Count(base: Range, prefix: Prefix): nat
    requires base.prefix <= prefix
  {
    Pow2(prefix - base.prefix)
  }

  /** base.subnets(new_prefix=prefix)[k]. */
  function Candidate(base: Range, prefix: Prefix, k: nat): Range
    requires base.Aligned() && base.prefix <= prefix && k < Count(base, prefix)
  {
    CandidateFits(base, prefix, k);
    Range(base.addr + k * Size(prefix), prefix)
  }

  lemma CandidateFits(base: Range, prefix: Prefix, k: nat)
    requires base.Aligned() && base.prefix <= prefix && k < Count(base, prefix)
    ensures 0 <= k * Size(prefix) && k * Size(prefix) + Size(prefix) <= Size(base.prefix)
    ensures 0 <= base.addr + k * Size(prefix) < 0x1_0000_0000
    ensures (base.addr + k * Size(prefix)) % Size(prefix) == 0
  {
    var s, n := Size(prefix), Count(base, prefix);
    Pow2Sum(prefix - base.prefix, 32 - prefix);
    assert n * s == Size(base.prefix);
    MulMonotone(0, k, s);
    MulMonotone(k + 1, n, s);
    assert (k + 1) * s == k * s + s;
    NetworkIsAddress(base);
    MultipleOfBlock(base.addr, n, s, k);
  }

  lemma MultipleOfBlock(a: nat, n: nat, s: nat, k: nat)
    requires s > 0 && n > 0 && n * s > 0 && a % (n * s) == 0
    ensures (a + k * s) % s == 0
  {
    var q := a / (n * s);
    assert a == q * (n * s);
    assert q * (n * s) == (q * n) * s;
    assert a + k * s == (q * n + k) * s;
    DivUnique(a + k * s, s, q * n + k, 0);
  }

  lemma BlockInside(c: Range, base: Range, offset: int)
    requires base.Aligned() && c.addr == base.addr + offset && c.addr % Size(c.prefix) == 0
    requires 0 <= offset && offset + Size(c.prefix) <= Size(base.prefix)
    ensures c.Aligned() && c.Inside(base) && c.Network() == base.addr + offset
  {
  }

  /** Each candidate is an aligned block inside the base. */
  lemma CandidateInside(base: Range, prefix: Prefix, k: nat)
    requires base.Aligned() && base.prefix <= prefix && k < Count(base, prefix)
    ensures var c := Candidate(base, prefix, k);
            && c.Aligned() && c.Inside(base)
            && c.Network() == base.addr + k * Size(prefix)
  {
    CandidateFits(base, prefix, k);
    BlockInside(Candidate(base, prefix, k), base, k * Size(prefix));
  }

  /** find_available_subnet, from the k-th candidate on. */
  function FindFrom(base: Range, prefix: Prefix, taken: seq<Range>, k: nat): Option<Range>
    requires base.Aligned() && base.prefix <= prefix && k <= Count(base, prefix)
    decreases Count(base, prefix) - k
  {
    if k == Count(base, prefix) then None
    else if !IsOverlapping(Candidate(base, prefix, k), taken) then Some(Candidate(base, prefix, k))
    else FindFrom(base, prefix, taken, k + 1)
  }

  datatype Outcome = Found(subnet: Range) | Full | BadPrefix

  /** A single address has itself for its only subnet, whatever prefix is asked for. */
  function Asked(base: Range, prefix: Prefix): Prefix
  {
    if base.prefix == 32 then 32 else prefix
  }

  /** find_available_subnet: a prefix shorter than the base's is a ValueError. */
  function FindAvailableSubnet(base: Range, prefix: Prefix, taken: seq<Range>): Outcome
    requires base.Aligned()
  {
    if Asked(base, prefix) < base.prefix then BadPrefix
    else match FindFrom(base, Asked(base, prefix), taken, 0)
      case None => Full
      case Some(subnet) => Found(subnet)
  }

  predicate Blocked(base: Range, prefix: Prefix, taken: seq<Range>, k: nat)
    requires base.Aligned() && base.prefix <= prefix && k < Count(base, prefix)
  {
    exists a :: 0 <= a < |taken| && Overlaps(Candidate(base, prefix, k), taken[a])
  }

  lemma {:induction false} FindFromMeaning(base: Range, prefix: Prefix, taken: seq<Range>, k: nat)
    returns (at: nat)
    requires base.Aligned() && base.prefix <= prefix && k <= Count(base, prefix)
    ensures k <= at <= Count(base, prefix)
    ensures forall j :: k <= j < at ==> Blocked(base, prefix, taken, j)
    ensures at < Count(base, prefix) ==>
      && FindFrom(base, prefix, taken, k) == Some(Candidate(base, prefix, at))
      && !Blocked(base, prefix, taken, at)
    ensures at == Count(base, prefix) ==> FindFrom(base, prefix, taken, k) == None
    decreases Count(base, prefix) - k
  {
    at := k;
    if k < Count(base, prefix) {
      IsOverlappingMeaning(Candidate(base, prefix, k), taken);
      if IsOverlapping(Candidate(base, prefix, k), taken) {
        at := FindFromMeaning(base, prefix, taken, k + 1);
      }
    }
  }

  /** First fit: the answer lies in the base, is disjoint from everything taken, and is
      the lowest such candidate; there is none exactly when every candidate overlaps. */
  lemma FirstFit(base: Range, prefix: Prefix, taken: seq<Range>)
    requires base.Aligned()
    ensures FindAvailableSubnet(base, prefix, taken).BadPrefix? <==> prefix < base.prefix < 32
    ensures var p := if base.prefix == 32 then 32 else prefix;
            match FindAvailableSubnet(base, prefix, taken)
            case Found(subnet) =>
              && subnet.prefix == p && subnet.Aligned() && subnet.Inside(base)
              && (forall a :: 0 <= a < |taken| ==> Disjoint(subnet, taken[a]))
              && (forall k: nat :: k < Count(base, p) && base.addr + k * Size(p) < subnet.addr
                    ==> Blocked(base, p, taken, k))
            case Full => forall k: nat :: k < Count(base, p) ==> Blocked(base, p, taken, k)
            case BadPrefix => true
  {
    if Asked(base, prefix) >= base.prefix {
      FirstFitFor(base, Asked(base, prefix), taken);
    }
  }

  lemma FirstFitFor(base: Range, prefix: Prefix, taken: seq<Range>)
    requires base.Aligned() && base.prefix <= prefix
    ensures match FindFrom(base, prefix, taken, 0)
            case Some(subnet) =>
              && subnet.prefix == prefix && subnet.Aligned() && subnet.Inside(base)
              && (forall a :: 0 <= a < |taken| ==> Disjoint(subnet, taken[a]))
              && (forall k: nat :: k < Count(base, prefix) && base.addr + k * Size(prefix) < subnet.addr
                    ==> Blocked(base, prefix, taken, k))
            case None => forall k: nat :: k < Count(base, prefix) ==> Blocked(base, prefix, taken, k)
  {
    var at := FindFromMeaning(base, prefix, taken, 0);
    if at < Count(base, prefix) {
      CandidateInside(base, prefix, at);
      var subnet := Candidate(base, prefix, at);
      forall a | 0 <= a < |taken|
        ensures Disjoint(subnet, taken[a])
      {
        OverlapsMeansShare(subnet, taken[a]);
      }
      forall k: nat | k < Count(base, prefix) && base.addr + k * Size(prefix) < subnet.addr
        ensures Blocked(base, prefix, taken, k)
      {
        MulMonotone(at, if k >= at then k else at, Size(prefix));
      }
    }
  }

  // ---- The pigeonhole: a narrow allocation blocks at most one candidate ----

  lemma CandidatesDisjoint(base: Range, prefix: Prefix, j: nat, k: nat)
    requires base.Aligned() && base.prefix <= prefix && j < k < Count(base, prefix)
    ensures Disjoint(Candidate(base, prefix, j), Candidate(base, prefix, k))
  {
    CandidateInside(base, prefix, j);
    CandidateInside(base, prefix, k);
    MulMonotone(j + 1, k, Size(prefix));
    assert (j + 1) * Size(prefix) == j * Size(prefix) + Size(prefix);
  }

  /** A range no wider than c that overlaps c misses everything c misses. */
  lemma InsideOneOnly(c: Range, d: Range, net: Range)
    requires c.prefix <= net.prefix && Disjoint(c, d) && Overlaps(c, net)
    ensures !Overlaps(d, net)
  {
    NestedOrDisjoint(c, net);
    OverlapsMeansShare(c, net);
    OverlapsMeansShare(d, net);
    NetworkIsAddress(net);
  }

  lemma BlocksOne(base: Range, prefix: Prefix, net: Range, j: nat, k: nat)
    requires base.Aligned() && base.prefix <= prefix <= net.prefix
    requires j < k < Count(base, prefix)
    requires Overlaps(Candidate(base, prefix, j), net)
    ensures !Overlaps(Candidate(base, prefix, k), net)
  {
    CandidatesDisjoint(base, prefix, j, k);
    InsideOneOnly(Candidate(base, prefix, j), Candidate(base, prefix, k), net);
  }

  ghost function Blocker(base: Range, prefix: Prefix, taken: seq<Range>, k: nat): (a: nat)
    requires base.Aligned() && base.prefix <= prefix && k < Count(base, prefix)
    requires Blocked(base, prefix, taken, k)
    ensures a < |taken| && Overlaps(Candidate(base, prefix, k), taken[a])
  {
    var a :| 0 <= a < |taken| && Overlaps(Candidate(base, prefix, k), taken[a]);
    a
  }

  lemma {:induction false} DistinctBelow(indices: seq<nat>, n: nat)
    requires forall a, b :: 0 <= a < b < |indices| ==> indices[a] != indices[b]
    requires forall a :: 0 <= a < |indices| ==> indices[a] < n
    ensures |indices| <= n
  {
    assert indices == [] || indices[0] < n;
    if n == 0 {
    } else if n - 1 in indices {
      var k :| 0 <= k < |indices| && indices[k] == n - 1;
      var rest := indices[..k] + indices[k + 1..];
      DistinctBelow(rest, n - 1);
    } else {
      DistinctBelow(indices, n - 1);
    }
  }

  /** With every allocation at least as narrow as the request and fewer of them than there
      are candidates, a subnet is found. */
  lemma RoomMeansFound(base: Range, prefix: Prefix, taken: seq<Range>)
    requires base.Aligned() && base.prefix <= prefix
    requires forall a :: 0 <= a < |taken| ==> taken[a].prefix >= prefix
    requires |taken| < Count(base, prefix)
    ensures FindAvailableSubnet(base, prefix, taken).Found?
  {
    FirstFit(base, prefix, taken);
    if FindAvailableSubnet(base, prefix, taken).Full? {
      var n := Count(base, prefix);
      var blockers := seq(n, k requires 0 <= k < n && Blocked(base, prefix, taken, k) =>
                          Blocker(base, prefix, taken, k));
      forall j, k | 0 <= j < k < n
        ensures blockers[j] != blockers[k]
      {
        BlocksOne(base, prefix, taken[blockers[j]], j, k);
      }
      DistinctBelow(blockers, |taken|);
    }
  }

  // ---- When only first-fit answers were ever taken ----

  /** With exactly the first k candidates taken, the next answer is the k-th. */
  lemma NextInLine(base: Range, prefix: Prefix, taken: seq<Range>)
    requires base.Aligned() && base.prefix <= prefix && |taken| <= Count(base, prefix)
    requires forall j :: 0 <= j < |taken| ==> taken[j] == Candidate(base, prefix, j)
    ensures FindAvailableSubnet(base, prefix, taken)
            == if |taken| < Count(base, prefix) then Found(Candidate(base, prefix, |taken|)) else Full
  {
    var k := |taken|;
    var at := FindFromMeaning(base, prefix, taken, 0);
    forall j: nat | j < k
      ensures Blocked(base, prefix, taken, j)
    {
      var c := Candidate(base, prefix, j);
      CandidateInside(base, prefix, j);
      assert Overlaps(c, taken[j]);
    }
    if k < Count(base, prefix) {
      forall a | 0 <= a < k
        ensures !Overlaps(Candidate(base, prefix, k), taken[a])
      {
        CandidatesDisjoint(base, prefix, a, k);
        OverlapsMeansShare(Candidate(base, prefix, k), taken[a]);
      }
      assert !Blocked(base, prefix, taken, k);
    }
    assert at == k;
  }
}
