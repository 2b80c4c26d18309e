/** What adding and removing address lists mean for a pool kept in address order. */
module PfPoolLaws {
  import opened Cidr
  import opened PfPool

  /** In order of first address, as the pool is kept. */
  predicate Sorted(pool: seq<Range>)
  {
    forall a, b :: 0 <= a < b < |pool| ==> pool[a].Network() <= pool[b].Network()
  }

  /** Distinct single hosts in address order. */
  predicate StrictHosts(pool: seq<Range>)
  {
    && (forall k :: 0 <= k < |pool| ==> pool[k].IsHost())
    && (forall a, b :: 0 <= a < b < |pool| ==> pool[a].addr < pool[b].addr)
  }

  /** a can be got from b by leaving entries out. */
  predicate Subsequence(a: seq<Range>, b: seq<Range>)
  {
    if a == [] then true
    else if b == [] then false
    else Subsequence(a, b[1..]) || (a[0] == b[0] && Subsequence(a[1..], b[1..]))
  }

  function Without(pool: seq<Range>, gone: seq<Range>): seq<Range>
  {
    if pool == [] then []
    else if pool[0] in gone then Without(pool[1..], gone)
    else [pool[0]] + Without(pool[1..], gone)
  }

  lemma HostCompare(e: Range, c: Range)
    requires e.IsHost() && c.IsHost()
    ensures Compare(e, Some(c)) < 0 <==> e.addr < c.addr
    ensures Compare(e, Some(c)) == 0 <==> e == c
    ensures Compare(e, Some(c)) > 0 <==> e.addr > c.addr
  {
    HostIsItself(e);
    HostIsItself(c);
  }

  lemma StrictTail(pool: seq<Range>)
    requires pool != [] && StrictHosts(pool)
    ensures StrictHosts(pool[1..])
    ensures forall x :: x in pool[1..] ==> pool[0].addr < x.addr
    ensures forall x :: x in pool <==> x == pool[0] || x in pool[1..]
  {
    forall x
      ensures x in pool <==> x == pool[0] || x in pool[1..]
    {
      assert pool == [pool[0]] + pool[1..];
    }
  }

  lemma StrictCons(h: Range, rest: seq<Range>)
    requires h.IsHost() && StrictHosts(rest)
    requires forall x :: x in rest ==> h.addr < x.addr
    ensures StrictHosts([h] + rest)
  {
    forall k | 0 <= k < |rest|
      ensures h.addr < rest[k].addr
    {
      assert rest[k] in rest;
    }
  }

  lemma {:induction false} ParsedTexts(ranges: seq<Range>)
    ensures Parsed(Texts(ranges)) == ranges
    ensures AllParse(Texts(ranges))
  {
    if ranges != [] {
      TextsOfTail(ranges);
      ParsedTexts(ranges[1..]);
    }
  }

  /** Adding host lists is sorted union, with no duplicates left. */
  lemma {:induction false} AddIsSortedUnion(pool: seq<Range>, list: seq<Range>)
    requires StrictHosts(pool) && StrictHosts(list)
    ensures StrictHosts(Merge(pool, Texts(list)))
    ensures forall x :: x in Merge(pool, Texts(list)) <==> x in pool || x in list
    ensures MergeOk(pool, Texts(list))
    decreases |pool| + |list|
  {
    if list == [] {
    } else if pool == [] {
      ParsedTexts(list);
    } else {
      HostCompare(pool[0], list[0]);
      TextsOfTail(list);
      StrictTail(pool);
      StrictTail(list);
      if pool[0].addr < list[0].addr {
        AddIsSortedUnion(pool[1..], list);
        StrictCons(pool[0], Merge(pool[1..], Texts(list)));
      } else if pool[0] == list[0] {
        AddIsSortedUnion(pool[1..], list[1..]);
        StrictCons(pool[0], Merge(pool[1..], Texts(list[1..])));
      } else {
        HostIsItself(pool[0]);
        HostIsItself(list[0]);
        AddIsSortedUnion(pool, list[1..]);
        StrictCons(list[0], Merge(pool, Texts(list[1..])));
      }
    }
  }

  /** A pool of distinct hosts in order is determined by its elements. */
  lemma {:induction false} StrictHostsUnique(a: seq<Range>, b: seq<Range>)
    requires StrictHosts(a) && StrictHosts(b)
    requires forall x :: x in a <==> x in b
    ensures a == b
    decreases |a|
  {
    assert b == [] || b[0] in b;
    if a != [] {
      assert a[0] in a;
      StrictTail(a);
      StrictTail(b);
      assert b[0] in b;
      StrictHostsUnique(a[1..], b[1..]);
    }
  }

  lemma AddTwiceIsAddOnce(pool: seq<Range>, list: seq<Range>)
    requires StrictHosts(pool) && StrictHosts(list)
    ensures Merge(Merge(pool, Texts(list)), Texts(list)) == Merge(pool, Texts(list))
  {
    var once := Merge(pool, Texts(list));
    AddIsSortedUnion(pool, list);
    AddIsSortedUnion(once, list);
    StrictHostsUnique(Merge(once, Texts(list)), once);
  }

  lemma AddsCommute(pool: seq<Range>, a: seq<Range>, b: seq<Range>)
    requires StrictHosts(pool) && StrictHosts(a) && StrictHosts(b)
    ensures Merge(Merge(pool, Texts(a)), Texts(b)) == Merge(Merge(pool, Texts(b)), Texts(a))
  {
    AddIsSortedUnion(pool, a);
    AddIsSortedUnion(pool, b);
    AddIsSortedUnion(Merge(pool, Texts(a)), b);
    AddIsSortedUnion(Merge(pool, Texts(b)), a);
    StrictHostsUnique(Merge(Merge(pool, Texts(a)), Texts(b)), Merge(Merge(pool, Texts(b)), Texts(a)));
  }

  // ---- Arbitrary CIDR entries ----

  /** Nothing in the list starts before h. */
  predicate From(h: Range, list: seq<Range>)
  {
    forall x :: x in list ==> h.Network() <= x.Network()
  }

  lemma SortedTail(pool: seq<Range>)
    requires pool != [] && Sorted(pool)
    ensures Sorted(pool[1..]) && From(pool[0], pool) && From(pool[0], pool[1..])
  {
  }

  lemma SortedCons(h: Range, rest: seq<Range>)
    requires Sorted(rest) && From(h, rest)
    ensures Sorted([h] + rest)
  {
    forall k | 0 <= k < |rest|
      ensures h.Network() <= rest[k].Network()
    {
      assert rest[k] in rest;
    }
  }

  lemma FromEarlier(h: Range, g: Range, list: seq<Range>)
    requires From(g, list) && h.Network() <= g.Network()
    ensures From(h, list)
  {
  }

  lemma CompareOrders(e: Range, c: Range)
    ensures if Compare(e, Some(c)) <= 0 then e.Network() <= c.Network() else c.Network() <= e.Network()
  {
  }

  predicate MadeOf(merged: seq<Range>, pool: seq<Range>, list: seq<Range>)
  {
    forall x :: x in merged ==> x in pool || x in list
  }

  /** Putting the first of the two heads before the merged rest. */
  lemma MergeCons(h: Range, merged: seq<Range>, pool: seq<Range>, list: seq<Range>)
    requires Sorted(merged) && MadeOf(merged, pool, list) && From(h, pool) && From(h, list)
    ensures Sorted([h] + merged)
  {
    SortedCons(h, merged);
  }

  lemma {:induction false} AddKeepsSorted(pool: seq<Range>, list: seq<Range>)
    requires Sorted(pool) && Sorted(list)
    ensures Sorted(Merge(pool, Texts(list))) && MadeOf(Merge(pool, Texts(list)), pool, list)
    decreases |pool| + |list|
  {
    if list == [] {
    } else if pool == [] {
      ParsedTexts(list);
    } else {
      var h, c := pool[0], list[0];
      TextsOfTail(list);
      SortedTail(pool);
      SortedTail(list);
      CompareOrders(h, c);
      if Compare(h, Some(c)) < 0 {
        AddKeepsSorted(pool[1..], list);
        FromEarlier(h, c, list);
        MergeCons(h, Merge(pool[1..], Texts(list)), pool[1..], list);
      } else if Compare(h, Some(c)) == 0 {
        AddKeepsSorted(pool[1..], list[1..]);
        FromEarlier(h, c, list[1..]);
        MergeCons(h, Merge(pool[1..], Texts(list[1..])), pool[1..], list[1..]);
      } else {
        AddKeepsSorted(pool, list[1..]);
        FromEarlier(c, h, pool);
        MergeCons(c, Merge(pool, Texts(list[1..])), pool, list[1..]);
      }
    }
  }

  lemma {:induction false} SubsequenceOfItself(a: seq<Range>)
    ensures Subsequence(a, a)
  {
    if a != [] {
      SubsequenceOfItself(a[1..]);
    }
  }

  lemma SubsequenceCons(h: Range, a: seq<Range>, b: seq<Range>)
    requires Subsequence(a, b)
    ensures Subsequence(a, [h] + b)
    ensures Subsequence([h] + a, [h] + b)
  {
    assert ([h] + b)[1..] == b && ([h] + a)[1..] == a;
  }

  /** Whatever is added, every old entry survives and the old order is kept. */
  lemma {:induction false} AddKeepsOldEntries(pool: seq<Range>, texts: seq<Text>)
    ensures Subsequence(pool, Merge(pool, texts))
    decreases |pool| + |texts|
  {
    if texts == [] {
      SubsequenceOfItself(pool);
    } else if pool == [] {
    } else if Compare(pool[0], texts[0]) <= 0 {
      var rest := if Compare(pool[0], texts[0]) < 0 then texts else texts[1..];
      AddKeepsOldEntries(pool[1..], rest);
      SubsequenceCons(pool[0], pool[1..], Merge(pool[1..], rest));
      assert pool == [pool[0]] + pool[1..];
    } else {
      AddKeepsOldEntries(pool, texts[1..]);
      SubsequenceCons(texts[0].value, pool, Merge(pool, texts[1..]));
    }
  }

  /** c is taken care of by e: it lies inside, or starts at the same address. */
  predicate Covers(e: Range, c: Range)
  {
    c.Inside(e) || c.Network() == e.Network()
  }

  /** For any pool and list, in any order, each text that parses ends up covered. */
  lemma {:induction false} AddCovers(pool: seq<Range>, list: seq<Range>, c: Range)
    requires c in list
    ensures exists e :: e in Merge(pool, Texts(list)) && Covers(e, c)
    decreases |pool| + |list|
  {
    var merged := Merge(pool, Texts(list));
    if pool == [] {
      ParsedTexts(list);
      assert c in merged && Covers(c, c);
    } else {
      TextsOfTail(list);
      var cmp := Compare(pool[0], Some(list[0]));
      if cmp < 0 {
        AddCovers(pool[1..], list, c);
        var e :| e in Merge(pool[1..], Texts(list)) && Covers(e, c);
        assert e in merged;
      } else if c == list[0] {
        var e := if cmp == 0 then pool[0] else c;
        assert merged[0] == e;
        assert e in merged && Covers(e, c);
      } else {
        assert c in list[1..] by {
          assert list == [list[0]] + list[1..];
        }
        var rest := if cmp == 0 then pool[1..] else pool;
        AddCovers(rest, list[1..], c);
        var e :| e in Merge(rest, Texts(list[1..])) && Covers(e, c);
        assert e in merged;
      }
    }
  }

  /** Every host in the list lies inside some entry afterwards. */
  lemma AddCoversHosts(pool: seq<Range>, list: seq<Range>, host: Range)
    requires host in list && host.IsHost()
    ensures exists e :: e in Merge(pool, Texts(list)) && e.Contains(host.addr)
  {
    AddCovers(pool, list, host);
    var e :| e in Merge(pool, Texts(list)) && Covers(e, host);
    HostIsItself(host);
    assert e.Contains(host.addr);
  }

  /** A wider range is NOT covered when the pool holds a narrower one at the same address:
      10.0.0.0/25 in the pool makes adding 10.0.0.0/24 a no-op. */
  lemma WiderRangeIsDropped()
    ensures var narrow, wide := Range(0x0A00_0000, 25), Range(0x0A00_0000, 24);
            && Merge([narrow], Texts([wide])) == [narrow]
            && MergeOk([narrow], Texts([wide]))
            && wide.Contains(0x0A00_0080) && !narrow.Contains(0x0A00_0080)
  {
    var narrow, wide := Range(0x0A00_0000, 25), Range(0x0A00_0000, 24);
    assert Size(25) == 128 && Size(24) == 256;
    var t := Texts([wide]);
    assert t == [Some(wide)];
    assert Compare(narrow, t[0]) == 0;
    assert [narrow][1..] == [] && t[1..] == [];
    assert Merge([narrow], t) == [narrow] + Merge([], []);
  }

  predicate HoldsCover(pool: seq<Range>, c: Range)
  {
    exists e :: e in pool && c.Inside(e)
  }

  predicate StartsThere(pool: seq<Range>, c: Range)
  {
    exists e :: e in pool && e.Network() == c.Network()
  }

  lemma CoverOfCons(h: Range, rest: seq<Range>, c: Range)
    ensures HoldsCover([h] + rest, c) <==> c.Inside(h) || HoldsCover(rest, c)
    ensures StartsThere([h] + rest, c) <==> h.Network() == c.Network() || StartsThere(rest, c)
  {
    var all := [h] + rest;
    assert all[0] == h;
    assert forall e :: e in all <==> e == h || e in rest;
  }

  /** In order of first address, no two at the same one. */
  predicate StrictlySorted(list: seq<Range>)
  {
    forall a, b :: 0 <= a < b < |list| ==> list[a].Network() < list[b].Network()
  }

  /** Everything in the list starts after h. */
  predicate After(h: Range, list: seq<Range>)
  {
    forall x :: x in list ==> h.Network() < x.Network()
  }

  lemma StrictlySortedTail(list: seq<Range>)
    requires list != [] && StrictlySorted(list)
    ensures StrictlySorted(list[1..]) && After(list[0], list[1..])
  {
  }

  /** Some range of the list holds c and starts where no pool entry does. */
  predicate FreshCover(pool: seq<Range>, list: seq<Range>, c: Range)
  {
    exists d :: d in list && c.Inside(d) && !StartsThere(pool, d)
  }

  lemma FreshCoverOfCons(pool: seq<Range>, d: Range, rest: seq<Range>, c: Range)
    ensures FreshCover(pool, [d] + rest, c) <==> (c.Inside(d) && !StartsThere(pool, d)) || FreshCover(pool, rest, c)
  {
    var all := [d] + rest;
    assert all[0] == d;
    assert forall x :: x in all <==> x == d || x in rest;
  }

  /** A pool head that starts before the whole list plays no part in where the list starts. */
  lemma FreshCoverSkips(h: Range, pool: seq<Range>, list: seq<Range>, c: Range)
    requires After(h, list)
    ensures FreshCover([h] + pool, list, c) <==> FreshCover(pool, list, c)
  {
    forall d | d in list
      ensures StartsThere([h] + pool, d) <==> StartsThere(pool, d)
    {
      CoverOfCons(h, pool, d);
    }
  }

  lemma AfterEarlier(h: Range, d: Range, rest: seq<Range>)
    requires After(d, rest) && h.Network() <= d.Network()
    ensures After(h, rest)
    ensures h.Network() < d.Network() ==> After(h, [d] + rest)
  {
    assert forall x :: x in [d] + rest <==> x == d || x in rest;
  }

  lemma NothingStarts(pool: seq<Range>, d: Range)
    requires pool != [] && From(pool[0], pool) && d.Network() < pool[0].Network()
    ensures !StartsThere(pool, d)
  {
  }

  lemma InsideTransitive(c: Range, d: Range, e: Range)
    requires c.Inside(d) && d.Inside(e)
    ensures c.Inside(e)
  {
  }

  lemma CompareMeaning(e: Range, d: Range)
    ensures Compare(e, Some(d)) < 0 ==> e.Network() < d.Network()
    ensures Compare(e, Some(d)) == 0 ==>
      e.Network() <= d.Network() && (d.Inside(e) || e.Network() == d.Network())
    ensures Compare(e, Some(d)) > 0 ==> d.Network() < e.Network()
  {
  }

  lemma MatchedHead(e: Range, pool: seq<Range>, d: Range, c: Range)
    requires Compare(e, Some(d)) == 0 && c.Inside(d) && !StartsThere([e] + pool, d)
    ensures c.Inside(e)
  {
    CompareMeaning(e, d);
    CoverOfCons(e, pool, d);
    InsideTransitive(c, d, e);
  }

  lemma {:induction false} ParsedCovers(list: seq<Range>, c: Range)
    ensures HoldsCover(list, c) <==> FreshCover([], list, c)
  {
  }

  /** Exactly what lies inside some entry after adding a list: what did before, and what lies
      inside a range of the list that starts where no pool entry does. */
  lemma {:induction false} AddCoversExactly(pool: seq<Range>, list: seq<Range>, c: Range)
    requires Sorted(pool) && StrictlySorted(list)
    ensures HoldsCover(Merge(pool, Texts(list)), c) <==> HoldsCover(pool, c) || FreshCover(pool, list, c)
    decreases |pool| + |list|
  {
    if list == [] {
    } else if pool == [] {
      ParsedTexts(list);
      ParsedCovers(list, c);
    } else {
      var e, d, pool', list' := pool[0], list[0], pool[1..], list[1..];
      assert pool == [e] + pool' && list == [d] + list';
      TextsOfTail(list);
      SortedTail(pool);
      StrictlySortedTail(list);
      CompareMeaning(e, d);
      CoverOfCons(e, pool', c);
      if Compare(e, Some(d)) < 0 {
        AddCoversExactly(pool', list, c);
        CoverOfCons(e, Merge(pool', Texts(list)), c);
        AfterEarlier(e, d, list');
        FreshCoverSkips(e, pool', list, c);
      } else if Compare(e, Some(d)) == 0 {
        AddCoversExactly(pool', list', c);
        CoverOfCons(e, Merge(pool', Texts(list')), c);
        AfterEarlier(e, d, list');
        FreshCoverSkips(e, pool', list', c);
        FreshCoverOfCons(pool, d, list', c);
        if c.Inside(d) && !StartsThere(pool, d) {
          MatchedHead(e, pool', d, c);
        }
      } else {
        AddCoversExactly(pool, list', c);
        CoverOfCons(d, Merge(pool, Texts(list')), c);
        NothingStarts(pool, d);
        FreshCoverOfCons(pool, d, list', c);
      }
    }
  }

  /** Exactly when a range of the list is covered afterwards: it lies inside one of the list that
      was covered already or that nothing in the pool starts at. */
  lemma AddCoversIff(pool: seq<Range>, list: seq<Range>, c: Range)
    requires Sorted(pool) && StrictlySorted(list) && c in list
    ensures HoldsCover(Merge(pool, Texts(list)), c)
            <==> exists d :: d in list && c.Inside(d) && (HoldsCover(pool, d) || !StartsThere(pool, d))
  {
    AddCoversExactly(pool, list, c);
    assert c.Inside(c);
    forall d, e | d in list && c.Inside(d) && e in pool && d.Inside(e)
      ensures c.Inside(e)
    {
      InsideTransitive(c, d, e);
    }
  }

  /** For a single range: it was covered already, or nothing in the pool starts at its address. */
  lemma AddOneCoversIff(pool: seq<Range>, c: Range)
    requires Sorted(pool)
    ensures HoldsCover(Merge(pool, Texts([c])), c) <==> HoldsCover(pool, c) || !StartsThere(pool, c)
  {
    assert [c][0] == c;
    AddCoversIff(pool, [c], c);
  }

  // ---- Removal ----

  /** Whatever the pool and the texts, removing keeps a subsequence of the pool. */
  lemma {:induction false} RemoveKeepsOrder(pool: seq<Range>, texts: seq<Text>)
    ensures Subsequence(Subtract(pool, texts), pool)
    decreases |pool| + |texts|
  {
    if texts == [] || pool == [] {
      SubsequenceOfItself(pool);
    } else {
      assert pool == [pool[0]] + pool[1..];
      if Compare(pool[0], texts[0]) < 0 {
        RemoveKeepsOrder(pool[1..], texts);
        SubsequenceCons(pool[0], Subtract(pool[1..], texts), pool[1..]);
      } else if Compare(pool[0], texts[0]) > 0 {
        RemoveKeepsOrder(pool, texts[1..]);
      } else if texts[0].None? {
        SubsequenceOfItself(pool);
      } else {
        RemoveKeepsOrder(pool[1..], texts[1..]);
        SubsequenceCons(pool[0], Subtract(pool[1..], texts[1..]), pool[1..]);
      }
    }
  }

  /** An entry goes only for a range of the list that lies inside it or starts where it does. */
  lemma {:induction false} GoneOnlyWhenHit(pool: seq<Range>, list: seq<Range>, e: Range)
    requires e in pool && e !in Subtract(pool, Texts(list))
    ensures exists d :: d in list && Covers(e, d)
    decreases |pool| + |list|
  {
    if list != [] {
      assert pool == [pool[0]] + pool[1..] && list == [list[0]] + list[1..];
      TextsOfTail(list);
      CompareMeaning(pool[0], list[0]);
      if Compare(pool[0], Some(list[0])) < 0 {
        GoneOnlyWhenHit(pool[1..], list, e);
      } else if Compare(pool[0], Some(list[0])) > 0 {
        GoneOnlyWhenHit(pool, list[1..], e);
      } else if e == pool[0] {
        assert list[0] in list && Covers(e, list[0]);
      } else {
        GoneOnlyWhenHit(pool[1..], list[1..], e);
      }
    }
  }

  /** Entry k is the first that holds c or starts where it does; k is past the end when none is. */
  predicate FirstHit(pool: seq<Range>, c: Range, k: nat)
  {
    && k <= |pool|
    && (k < |pool| ==> Covers(pool[k], c))
    && forall j :: 0 <= j < k ==> !Covers(pool[j], c)
  }

  lemma FirstHitTail(pool: seq<Range>, c: Range, k: nat)
    requires pool != [] && FirstHit(pool, c, k) && !Covers(pool[0], c)
    ensures k > 0 && FirstHit(pool[1..], c, k - 1)
  {
    assert forall j :: 0 <= j < |pool| - 1 ==> pool[1..][j] == pool[j + 1];
  }

  lemma WithoutKth(pool: seq<Range>, k: nat)
    requires 0 < k < |pool|
    ensures [pool[0]] + (pool[1..][..k - 1] + pool[1..][k..]) == pool[..k] + pool[k + 1..]
  {
  }

  lemma CompareIsHit(e: Range, c: Range)
    ensures Compare(e, Some(c)) == 0 <==> Covers(e, c)
  {
  }

  /** Past the place where c would go, nothing holds it or starts where it does. */
  lemma NoHitBeyond(pool: seq<Range>, c: Range)
    requires pool != [] && From(pool[0], pool) && Compare(pool[0], Some(c)) > 0
    ensures forall j :: 0 <= j < |pool| ==> !Covers(pool[j], c)
  {
    CompareMeaning(pool[0], c);
    forall j | 0 <= j < |pool|
      ensures !Covers(pool[j], c)
    {
      assert pool[j] in pool;
    }
  }

  /** From a sorted pool, removing one range takes away the first entry that holds it or starts
      where it does, however much more that entry holds; and nothing when there is none. */
  lemma {:induction false} RemoveOneExactly(pool: seq<Range>, c: Range, k: nat)
    requires Sorted(pool) && FirstHit(pool, c, k)
    ensures Subtract(pool, Texts([c])) == if k == |pool| then pool else pool[..k] + pool[k + 1..]
  {
    var one := Texts([c]);
    assert one[1..] == [];
    if pool != [] {
      SortedTail(pool);
      CompareIsHit(pool[0], c);
      if Compare(pool[0], one[0]) > 0 {
        NoHitBeyond(pool, c);
      } else if Compare(pool[0], one[0]) < 0 {
        FirstHitTail(pool, c, k);
        RemoveOneExactly(pool[1..], c, k - 1);
        if k < |pool| {
          WithoutKth(pool, k);
        }
      }
    }
  }

  /** The pool without the first entry that holds c or starts where it does. */
  function WithoutFirstHit(pool: seq<Range>, c: Range): seq<Range>
  {
    if pool == [] then []
    else if Covers(pool[0], c) then pool[1..]
    else [pool[0]] + WithoutFirstHit(pool[1..], c)
  }

  /** That, for each range of the list in turn. */
  function WithoutFirstHits(pool: seq<Range>, list: seq<Range>): seq<Range>
    decreases |list|
  {
    if list == [] then pool else WithoutFirstHits(WithoutFirstHit(pool, list[0]), list[1..])
  }

  lemma {:induction false} WithoutFirstHitFrom(h: Range, pool: seq<Range>, c: Range)
    requires From(h, pool) && Sorted(pool)
    ensures From(h, WithoutFirstHit(pool, c)) && Sorted(WithoutFirstHit(pool, c))
    decreases |pool|
  {
    if pool != [] {
      SortedTail(pool);
      if !Covers(pool[0], c) {
        WithoutFirstHitFrom(pool[0], pool[1..], c);
        WithoutFirstHitFrom(h, pool[1..], c);
        SortedCons(pool[0], WithoutFirstHit(pool[1..], c));
        FromCons(h, pool[0], WithoutFirstHit(pool[1..], c));
      }
    }
  }

  lemma FromCons(h: Range, e: Range, list: seq<Range>)
    requires h.Network() <= e.Network() && From(h, list)
    ensures From(h, [e] + list)
  {
  }

  lemma {:induction false} NoHitStays(pool: seq<Range>, c: Range)
    requires forall j :: 0 <= j < |pool| ==> !Covers(pool[j], c)
    ensures WithoutFirstHit(pool, c) == pool
  {
    if pool != [] {
      NoHitStays(pool[1..], c);
    }
  }

  /** An entry that lies below a range lies below every range that starts no earlier. */
  lemma BelowLater(e: Range, c: Range, d: Range)
    requires Compare(e, Some(c)) < 0 && c.Network() <= d.Network()
    ensures Compare(e, Some(d)) < 0
  {
    CompareMeaning(e, c);
    NetworkIsAddress(c);
    NetworkIsAddress(d);
    if d.Inside(e) {
      BelowMisses(e, c);
    }
  }

  lemma BelowMisses(e: Range, c: Range)
    requires Compare(e, Some(c)) < 0
    ensures e.Broadcast() < c.Network()
  {
    NetworkIsAddress(c);
    NetworkIsAddress(e);
    if e.prefix <= c.prefix {
      NestedOrDisjoint(e, c);
    } else {
      NestedOrDisjoint(c, e);
    }
  }

  /** An entry below the whole list stays in front of whatever else is removed. */
  lemma {:induction false} HeadStays(e: Range, pool: seq<Range>, list: seq<Range>)
    requires forall d :: d in list ==> Compare(e, Some(d)) < 0
    ensures WithoutFirstHits([e] + pool, list) == [e] + WithoutFirstHits(pool, list)
    decreases |list|
  {
    if list != [] {
      CompareIsHit(e, list[0]);
      assert ([e] + pool)[1..] == pool;
      HeadStays(e, WithoutFirstHit(pool, list[0]), list[1..]);
    }
  }

  lemma HeadBelowList(e: Range, list: seq<Range>)
    requires list != [] && Sorted(list) && Compare(e, Some(list[0])) < 0
    ensures forall d :: d in list ==> Compare(e, Some(d)) < 0
  {
    SortedTail(list);
    forall d | d in list
      ensures Compare(e, Some(d)) < 0
    {
      BelowLater(e, list[0], d);
    }
  }

  lemma {:induction false} NothingToRemove(list: seq<Range>)
    ensures WithoutFirstHits([], list) == []
    decreases |list|
  {
    if list != [] {
      NothingToRemove(list[1..]);
    }
  }

  /** From a sorted pool, removing a sorted list takes away, for each of its ranges in turn, the first
      entry left that holds it or starts where it does, and nothing else. */
  lemma {:induction false} RemoveListExactly(pool: seq<Range>, list: seq<Range>)
    requires Sorted(pool) && Sorted(list)
    ensures Subtract(pool, Texts(list)) == WithoutFirstHits(pool, list)
    decreases |pool| + |list|
  {
    if list == [] {
    } else if pool == [] {
      NothingToRemove(list);
    } else {
      var e, d := pool[0], list[0];
      assert pool == [e] + pool[1..];
      TextsOfTail(list);
      SortedTail(pool);
      SortedTail(list);
      CompareIsHit(e, d);
      if Compare(e, Some(d)) < 0 {
        RemoveListExactly(pool[1..], list);
        HeadBelowList(e, list);
        HeadStays(e, pool[1..], list);
      } else if Compare(e, Some(d)) == 0 {
        RemoveListExactly(pool[1..], list[1..]);
      } else {
        RemoveListExactly(pool, list[1..]);
        NoHitBeyond(pool, d);
        NoHitStays(pool, d);
      }
    }
  }

  /** So removing a list is removing its first range and then the others. */
  lemma RemoveFirstThenRest(pool: seq<Range>, d: Range, rest: seq<Range>)
    requires Sorted(pool) && Sorted([d] + rest)
    ensures Subtract(pool, Texts([d] + rest)) == Subtract(Subtract(pool, Texts([d])), Texts(rest))
  {
    var list := [d] + rest;
    assert list[0] == d && list[1..] == rest && [d][1..] == [];
    SortedTail(list);
    RemoveListExactly(pool, list);
    RemoveListExactly(pool, [d]);
    KeepsSorted(pool, d);
    RemoveListExactly(WithoutFirstHit(pool, d), rest);
  }

  lemma KeepsSorted(pool: seq<Range>, c: Range)
    requires Sorted(pool)
    ensures Sorted(WithoutFirstHit(pool, c))
  {
    if pool != [] {
      SortedTail(pool);
      WithoutFirstHitFrom(pool[0], pool, c);
    }
  }

  /** Removing one host from a pool that holds 10.0.0.0/8 takes the whole /8 away. */
  lemma HostTakesRangeAway()
    ensures Subtract([Range(0x0A00_0000, 8)], Texts([Range(0x0A00_0005, 32)])) == []
  {
    var wide, host := Range(0x0A00_0000, 8), Range(0x0A00_0005, 32);
    Pow2Sum(12, 12);
    assert Pow2(12) == 0x1000 && Size(8) == 0x100_0000 && Size(32) == 1;
    RemoveOneExactly([wide], host, 0);
  }

  /** Removing a host list is set difference in order, whatever the call returns. */
  lemma {:induction false} RemoveIsDifference(pool: seq<Range>, list: seq<Range>)
    requires StrictHosts(pool) && StrictHosts(list)
    ensures Subtract(pool, Texts(list)) == Without(pool, list)
    decreases |pool| + |list|
  {
    if list == [] {
      WithoutAbsent(pool, list);
    } else if pool != [] {
      HostCompare(pool[0], list[0]);
      TextsOfTail(list);
      StrictTail(pool);
      StrictTail(list);
      if pool[0].addr < list[0].addr {
        RemoveIsDifference(pool[1..], list);
      } else if pool[0] == list[0] {
        WithoutFirst(pool[1..], list);
        RemoveIsDifference(pool[1..], list[1..]);
      } else {
        WithoutFirst(pool, list);
        RemoveIsDifference(pool, list[1..]);
      }
    }
  }

  /** The list reaches past every entry of the pool. */
  predicate Outruns(list: seq<Range>, pool: seq<Range>)
  {
    list != [] && forall x :: x in pool ==> x.addr < list[|list| - 1].addr
  }

  predicate Shared(pool: seq<Range>, list: seq<Range>)
  {
    exists x :: x in pool && x in list
  }

  lemma SharedTail(pool: seq<Range>, list: seq<Range>)
    requires pool != [] && list != []
    ensures pool[0] !in list ==> Shared(pool, list) == Shared(pool[1..], list)
    ensures list[0] !in pool ==> Shared(pool, list) == Shared(pool, list[1..])
  {
    assert forall x :: x in pool <==> x == pool[0] || x in pool[1..] by {
      assert pool == [pool[0]] + pool[1..];
    }
    assert forall x :: x in list <==> x == list[0] || x in list[1..] by {
      assert list == [list[0]] + list[1..];
    }
  }

  lemma OutrunsTail(list: seq<Range>, pool: seq<Range>)
    requires pool != [] && list != [] && StrictHosts(list)
    ensures pool[0].addr < list[0].addr ==> Outruns(list, pool) == Outruns(list, pool[1..])
    ensures pool[0].addr > list[0].addr ==> Outruns(list, pool) == Outruns(list[1..], pool)
    ensures pool[0] == list[0] ==>
      Outruns(list, pool) == (list[1..] != [] && Outruns(list[1..], pool[1..]))
  {
    var last := list[|list| - 1];
    assert list[0].addr <= last.addr;
    assert |list| > 1 ==> list[1..][|list| - 2] == last;
    assert forall x :: x in pool <==> x == pool[0] || x in pool[1..] by {
      assert pool == [pool[0]] + pool[1..];
    }
    assert pool[0] in pool;
  }

  /** Because the total is never lowered, the call returns -1 exactly when an entry went
      and the list's last address lies beyond every entry the pool had. */
  lemma {:induction false} RemoveReturnCode(pool: seq<Range>, list: seq<Range>, shrunk: bool)
    requires StrictHosts(pool) && StrictHosts(list)
    ensures SubtractOk(pool, Texts(list), shrunk)
            <==> !((shrunk || Shared(pool, list)) && Outruns(list, pool))
    decreases |pool| + |list|
  {
    if list != [] && pool != [] {
      HostCompare(pool[0], list[0]);
      TextsOfTail(list);
      StrictTail(pool);
      StrictTail(list);
      SharedTail(pool, list);
      OutrunsTail(list, pool);
      if pool[0].addr < list[0].addr {
        RemoveReturnCode(pool[1..], list, shrunk);
      } else if pool[0] == list[0] {
        RemoveReturnCode(pool[1..], list[1..], true);
        assert pool[0] in pool && list[0] in list;
      } else {
        RemoveReturnCode(pool, list[1..], shrunk);
      }
    }
  }

  lemma {:induction false} WithoutAbsent(pool: seq<Range>, gone: seq<Range>)
    requires forall x :: x in pool ==> x !in gone
    ensures Without(pool, gone) == pool
  {
    if pool != [] {
      assert pool[0] in pool;
      WithoutAbsent(pool[1..], gone);
    }
  }

  lemma {:induction false} WithoutFirst(pool: seq<Range>, gone: seq<Range>)
    requires gone != []
    requires gone[0] !in pool
    ensures Without(pool, gone) == Without(pool, gone[1..])
  {
    if pool != [] {
      assert gone[0] !in pool[1..];
      assert pool[0] in pool;
      assert pool[0] in gone <==> pool[0] in gone[1..] by {
        assert gone == [gone[0]] + gone[1..];
      }
      WithoutFirst(pool[1..], gone);
    }
  }

  lemma {:induction false} WithoutElements(pool: seq<Range>, gone: seq<Range>)
    requires StrictHosts(pool)
    ensures StrictHosts(Without(pool, gone))
    ensures forall x :: x in Without(pool, gone) <==> x in pool && x !in gone
  {
    if pool != [] {
      StrictTail(pool);
      WithoutElements(pool[1..], gone);
      if pool[0] !in gone {
        StrictCons(pool[0], Without(pool[1..], gone));
      }
    }
  }

  /** Removing what was just added gives the old pool back, less what it already shared. */
  lemma RemoveUndoesAdd(pool: seq<Range>, list: seq<Range>)
    requires StrictHosts(pool) && StrictHosts(list)
    ensures Subtract(Merge(pool, Texts(list)), Texts(list)) == Without(pool, list)
    ensures (forall x :: x in list ==> x !in pool)
            ==> Subtract(Merge(pool, Texts(list)), Texts(list)) == pool
    ensures SubtractOk(Merge(pool, Texts(list)), Texts(list), false)
  {
    var both := Merge(pool, Texts(list));
    AddIsSortedUnion(pool, list);
    RemoveIsDifference(both, list);
    RemoveReturnCode(both, list, false);
    WithoutElements(both, list);
    WithoutElements(pool, list);
    StrictHostsUnique(Without(both, list), Without(pool, list));
    if forall x :: x in list ==> x !in pool {
      WithoutAbsent(pool, list);
    }
    if list != [] {
      assert list[|list| - 1] in both;
    }
  }

  // ---- Texts that do not parse ----

  /** The tail takes the texts before the first that does not parse, all of them exactly when all parse. */
  lemma {:induction false} ParsedMeaning(texts: seq<Text>)
    ensures Texts(Parsed(texts)) <= texts
    ensures |Parsed(texts)| < |texts| ==> texts[|Parsed(texts)|].None?
    ensures AllParse(texts) <==> |Parsed(texts)| == |texts|
  {
    if texts != [] && texts[0].Some? {
      ParsedMeaning(texts[1..]);
      TextsOfTail(Parsed(texts));
    }
  }

  /** Adding a list with a text that does not parse at its end adds what the list does. */
  lemma {:induction false} UnparsedAddsNothing(pool: seq<Range>, list: seq<Range>)
    ensures Merge(pool, Texts(list) + [None]) == Merge(pool, Texts(list))
    ensures pool == [] || list == [] ==> (MergeOk(pool, Texts(list) + [None]) <==> pool != [])
    decreases |pool| + |list|
  {
    var texts := Texts(list) + [None];
    if pool == [] {
      UnparsedEnds(list);
      assert texts[|list|].None?;
    } else if list == [] {
      assert texts == [None] && texts[1..] == [];
      assert [pool[0]] + pool[1..] == pool;
    } else {
      assert texts[0] == Some(list[0]) == Texts(list)[0];
      assert texts[1..] == Texts(list[1..]) + [None];
      TextsOfTail(list);
      var cmp := Compare(pool[0], Some(list[0]));
      if cmp < 0 {
        UnparsedAddsNothing(pool[1..], list);
      } else if cmp == 0 {
        UnparsedAddsNothing(pool[1..], list[1..]);
      } else {
        UnparsedAddsNothing(pool, list[1..]);
      }
    }
  }

  lemma {:induction false} UnparsedEnds(list: seq<Range>)
    ensures Parsed(Texts(list) + [None]) == list == Parsed(Texts(list))
  {
    if list == [] {
      assert Texts(list) + [None] == [None];
    } else {
      UnparsedEnds(list[1..]);
      assert (Texts(list) + [None])[1..] == Texts(list[1..]) + [None];
      TextsOfTail(list);
    }
  }

  /** In front of others it is passed over together with an entry: what comes after may land behind a
      larger address, and the call reports success. */
  lemma UnparsedDisorders()
    ensures var one, two := Range(0x0A00_0001, 32), Range(0x0A00_0002, 32);
            Merge([two], [None, Some(one)]) == [two, one] && MergeOk([two], [None, Some(one)])
  {
    var one, two := Range(0x0A00_0001, 32), Range(0x0A00_0002, 32);
    var texts: seq<Text>, tail: seq<Text> := [None, Some(one)], [Some(one)];
    assert texts[1..] == tail && [two][1..] == [] && tail[1..] == [];
    assert Parsed(tail) == [one] + Parsed([]) == [one];
    assert AllParse(tail);
  }

  /** Removing stops at the first text that does not parse: the texts before it are removed, and those
      after it are not looked at. It is success only when the pool ran out before, and then nothing was
      removed. */
  lemma {:induction false} UnparsedStopsRemoval(pool: seq<Range>, list: seq<Range>, rest: seq<Text>, shrunk: bool)
    ensures Subtract(pool, Texts(list) + [None] + rest) == Subtract(pool, Texts(list))
    ensures SubtractOk(pool, Texts(list) + [None] + rest, shrunk) ==> !shrunk && Subtract(pool, Texts(list)) == pool
    ensures pool == [] ==> SubtractOk(pool, Texts(list) + [None] + rest, false)
    decreases |pool| + |list|
  {
    var texts := Texts(list) + [None] + rest;
    if pool != [] && list != [] {
      assert texts[0] == Some(list[0]) == Texts(list)[0];
      assert texts[1..] == Texts(list[1..]) + [None] + rest;
      TextsOfTail(list);
      var cmp := Compare(pool[0], Some(list[0]));
      if cmp < 0 {
        UnparsedStopsRemoval(pool[1..], list, rest, shrunk);
        assert [pool[0]] + pool[1..] == pool;
      } else if cmp > 0 {
        UnparsedStopsRemoval(pool, list[1..], rest, shrunk);
      } else {
        UnparsedStopsRemoval(pool[1..], list[1..], rest, true);
      }
    } else if list == [] {
      assert texts[0] == None;
    }
  }
}
