/** The address pool of one rdr rule, edited in place while two cursors walk it. */
module PfPool {
  import opened Cidr
  import opened PfWords

  /** An address argument: None when the text does not parse. */
  type Text = Option<Range>

  /** compare_cidr on ranges instead of masked words. */
  function Compare(e: Range, text: Text): int
  {
    if text.None? || text.value.Inside(e) then 0
    else if e.Network() > text.value.Network() then 1
    else if e.Network() < text.value.Network() then -1
    else 0
  }

  /** compare_cidr itself, called on the address and mask words of a stored entry. */
  method CompareEntry(e: Range, text: Text) returns (cmp: int)
    ensures cmp == Compare(e, text)
  {
    cmp := CompareCidr(e.addr, MaskOf(e.prefix), text);
    if text.Some? {
      WordsAreBounds(e);
      WordsAreBounds(text.value);
    }
  }

  function Texts(ranges: seq<Range>): (texts: seq<Text>)
    ensures |texts| == |ranges|
    ensures forall k :: 0 <= k < |ranges| ==> texts[k] == Some(ranges[k])
  {
    seq(|ranges|, k requires 0 <= k < |ranges| => Some(ranges[k]))
  }

  lemma TextsOfTail(ranges: seq<Range>)
    requires ranges != []
    ensures Texts(ranges)[1..] == Texts(ranges[1..])
  {
  }

  // ---- What the walks compute ----

  /** The texts up to the first one that does not parse. */
  function Parsed(texts: seq<Text>): seq<Range>
  {
    if texts == [] || texts[0].None? then [] else [texts[0].value] + Parsed(texts[1..])
  }

  predicate AllParse(texts: seq<Text>)
  {
    forall k :: 0 <= k < |texts| ==> texts[k].Some?
  }

  /** The pool after adding: what is still ahead of both cursors. */
  function Merge(pool: seq<Range>, texts: seq<Text>): seq<Range>
    decreases |pool| + |texts|
  {
    if texts == [] then pool
    else if pool == [] then Parsed(texts)
    else if Compare(pool[0], texts[0]) < 0 then [pool[0]] + Merge(pool[1..], texts)
    else if Compare(pool[0], texts[0]) == 0 then [pool[0]] + Merge(pool[1..], texts[1..])
    else [texts[0].value] + Merge(pool, texts[1..])
  }

  /** Whether adding returns 0: every text left over for the tail must parse. */
  predicate MergeOk(pool: seq<Range>, texts: seq<Text>)
    decreases |pool| + |texts|
  {
    if texts == [] then true
    else if pool == [] then AllParse(texts)
    else if Compare(pool[0], texts[0]) < 0 then MergeOk(pool[1..], texts)
    else if Compare(pool[0], texts[0]) == 0 then MergeOk(pool[1..], texts[1..])
    else MergeOk(pool, texts[1..])
  }

  /** The pool after removing, and whether the walk ends normally; `shrunk` says that
      an entry is gone already, so that the remembered total is too large. */
  function Subtract(pool: seq<Range>, texts: seq<Text>): seq<Range>
    decreases |pool| + |texts|
  {
    if texts == [] || pool == [] then pool
    else if Compare(pool[0], texts[0]) < 0 then [pool[0]] + Subtract(pool[1..], texts)
    else if Compare(pool[0], texts[0]) > 0 then Subtract(pool, texts[1..])
    else if texts[0].None? then pool
    else Subtract(pool[1..], texts[1..])
  }

  predicate SubtractOk(pool: seq<Range>, texts: seq<Text>, shrunk: bool)
    decreases |pool| + |texts|
  {
    if texts == [] then true
    else if pool == [] then !shrunk
    else if Compare(pool[0], texts[0]) < 0 then SubtractOk(pool[1..], texts, shrunk)
    else if Compare(pool[0], texts[0]) > 0 then SubtractOk(pool, texts[1..], shrunk)
    else if texts[0].None? then false
    else SubtractOk(pool[1..], texts[1..], true)
  }

  // ---- One turn of each loop, in terms of the two cursors ----

  /** The walk has come to entry i and text j: what is left to merge gives the outcome of the
      whole call. */
  predicate Merging(start: seq<Range>, t: seq<Text>, e: seq<Range>, i: nat, j: nat)
  {
    && i <= |e| && j <= |t|
    && Merge(start, t) == e[..i] + Merge(e[i..], t[j..])
    && MergeOk(start, t) == MergeOk(e[i..], t[j..])
  }

  lemma MergeBegins(start: seq<Range>, t: seq<Text>)
    ensures Merging(start, t, start, 0, 0)
  {
    assert start[0..] == start && t[0..] == t && start[..0] == [];
  }

  lemma MergeSkip(start: seq<Range>, t: seq<Text>, e: seq<Range>, i: nat, j: nat)
    requires Merging(start, t, e, i, j) && i < |e| && j < |t| && Compare(e[i], t[j]) < 0
    ensures Merging(start, t, e, i + 1, j)
  {
    assert e[i..][0] == e[i] && e[i..][1..] == e[i + 1..];
    assert e[..i + 1] == e[..i] + [e[i]];
  }

  lemma MergeMatch(start: seq<Range>, t: seq<Text>, e: seq<Range>, i: nat, j: nat)
    requires Merging(start, t, e, i, j) && i < |e| && j < |t| && Compare(e[i], t[j]) == 0
    ensures Merging(start, t, e, i + 1, j + 1)
  {
    assert e[i..][0] == e[i] && e[i..][1..] == e[i + 1..];
    assert t[j..][0] == t[j] && t[j..][1..] == t[j + 1..];
    assert e[..i + 1] == e[..i] + [e[i]];
  }

  lemma MergeInsert(start: seq<Range>, t: seq<Text>, e: seq<Range>, i: nat, j: nat, e': seq<Range>)
    requires Merging(start, t, e, i, j) && i < |e| && j < |t| && Compare(e[i], t[j]) > 0
    requires e' == e[..i] + [t[j].value] + e[i..]
    ensures Merging(start, t, e', i + 1, j + 1)
    ensures e'[i + 1] == e[i]
  {
    assert t[j..][0] == t[j] && t[j..][1..] == t[j + 1..];
    assert e'[..i + 1] == e[..i] + [t[j].value];
    assert e'[i + 1..] == e[i..];
  }

  lemma MergeEnd(start: seq<Range>, t: seq<Text>, e: seq<Range>, i: nat, j: nat)
    requires Merging(start, t, e, i, j) && (i == |e| || j == |t|)
    ensures Merge(start, t) == e + Parsed(t[j..])
    ensures MergeOk(start, t) == AllParse(t[j..])
  {
    assert e[..i] + e[i..] == e;
    if i == |e| {
      assert e[..i] == e && e[i..] == [];
    }
  }

  /** The same for removing, with the number of entries the walk believes in. */
  predicate Subtracting(start: seq<Range>, t: seq<Text>, e: seq<Range>, i: nat, j: nat, total: nat)
  {
    && i <= |e| <= total && j <= |t|
    && Subtract(start, t) == e[..i] + Subtract(e[i..], t[j..])
    && SubtractOk(start, t, false) == SubtractOk(e[i..], t[j..], |e| < total)
  }

  lemma SubtractBegins(start: seq<Range>, t: seq<Text>)
    ensures Subtracting(start, t, start, 0, 0, |start|)
  {
    assert start[0..] == start && t[0..] == t && start[..0] == [];
  }

  lemma SubtractSkip(start: seq<Range>, t: seq<Text>, e: seq<Range>, i: nat, j: nat, total: nat)
    requires Subtracting(start, t, e, i, j, total) && i < |e| && j < |t| && Compare(e[i], t[j]) < 0
    ensures Subtracting(start, t, e, i + 1, j, total)
  {
    assert e[i..][0] == e[i] && e[i..][1..] == e[i + 1..];
    assert e[..i + 1] == e[..i] + [e[i]];
  }

  lemma SubtractNext(start: seq<Range>, t: seq<Text>, e: seq<Range>, i: nat, j: nat, total: nat)
    requires Subtracting(start, t, e, i, j, total) && i < |e| && j < |t| && Compare(e[i], t[j]) > 0
    ensures Subtracting(start, t, e, i, j + 1, total)
  {
    assert e[i..][0] == e[i];
    assert t[j..][0] == t[j] && t[j..][1..] == t[j + 1..];
  }

  lemma SubtractMatch(start: seq<Range>, t: seq<Text>, e: seq<Range>, i: nat, j: nat, total: nat, e': seq<Range>)
    requires Subtracting(start, t, e, i, j, total) && i < |e| && j < |t|
    requires t[j].Some? && Compare(e[i], t[j]) == 0 && e' == e[..i] + e[i + 1..]
    ensures Subtracting(start, t, e', i, j + 1, total)
  {
    assert e[i..][0] == e[i] && e[i..][1..] == e[i + 1..];
    assert t[j..][0] == t[j] && t[j..][1..] == t[j + 1..];
    assert e'[..i] == e[..i] && e'[i..] == e[i + 1..];
  }

  /** A text that does not parse stops the walk at the entry it is compared with. */
  lemma SubtractStops(start: seq<Range>, t: seq<Text>, e: seq<Range>, i: nat, j: nat, total: nat)
    requires Subtracting(start, t, e, i, j, total) && i < |e| && j < |t| && t[j].None?
    ensures Subtract(start, t) == e && !SubtractOk(start, t, false)
  {
    assert e[i..][0] == e[i] && t[j..][0] == t[j];
    assert e[..i] + e[i..] == e;
  }

  lemma SubtractEnd(start: seq<Range>, t: seq<Text>, e: seq<Range>, i: nat, j: nat, total: nat)
    requires Subtracting(start, t, e, i, j, total) && (i == |e| || j == |t|)
    ensures Subtract(start, t) == e
    ensures SubtractOk(start, t, false) == (j == |t| || |e| == total)
  {
    assert e[..i] + e[i..] == e;
  }

  // ---- The kernel's pool and the two walks ----

  class AddressPool {
    var entries: seq<Range>

    constructor (initial: seq<Range>)
      ensures entries == initial
    {
      entries := initial;
    }

    /** DIOCGETADDR: refused past the end. */
    method Get(nr: nat) returns (e: Option<Range>)
      ensures e == if nr < |entries| then Some(entries[nr]) else None
    {
      e := if nr < |entries| then Some(entries[nr]) else None;
    }

    /** add_address_to_pool: position 0 inserts at the head, -1 at the tail, any other
        position before the entry there. */
    method AddAddress(text: Text, pos: int) returns (res: int)
      requires -1 <= pos
      modifies this
      ensures res == if text.Some? && pos < |old(entries)| + (if pos == 0 then 1 else 0)
                     then 0 else -1
      ensures res < 0 ==> entries == old(entries)
      ensures res >= 0 && pos == -1 ==> entries == old(entries) + [text.value]
      ensures res >= 0 && pos >= 0 ==>
        pos <= |old(entries)| &&
        entries == old(entries)[..pos] + [text.value] + old(entries)[pos..]
    {
      if text.None? {
        return -1;
      }
      if pos == 0 {
        entries := [text.value] + entries;
      } else if pos == -1 {
        entries := entries + [text.value];
      } else if pos < |entries| {
        entries := entries[..pos] + [text.value] + entries[pos..];
      } else {
        return -1;
      }
      res := 0;
    }

    /** remove_address_from_pool: the kernel removes by position, the text must parse. */
    method RemoveAddress(text: Text, pos: nat) returns (res: int)
      modifies this
      ensures res == if text.Some? && pos < |old(entries)| then 0 else -1
      ensures entries == if res < 0 then old(entries)
                         else old(entries)[..pos] + old(entries)[pos + 1..]
    {
      if text.None? || pos >= |entries| {
        return -1;
      }
      entries := entries[..pos] + entries[pos + 1..];
      res := 0;
    }

    method AddAddressList(texts: seq<Text>) returns (res: int)
      modifies this
      ensures texts == [] ==> res == -1 && entries == old(entries)
      ensures texts != [] ==> entries == Merge(old(entries), texts)
      ensures texts != [] ==> res == if MergeOk(old(entries), texts) then 0 else -1
    {
      if texts == [] {
        return -1;
      }
      var total := |entries|;
      var i, j, fetch := 0, 0, true;
      var current: Range := Range(0, 0);
      MergeBegins(entries, texts);
      while i < total && j < |texts|
        invariant 0 <= i <= total == |entries|
        invariant 0 <= j <= |texts|
        invariant !fetch ==> i < total && current == entries[i]
        invariant Merging(old(entries), texts, entries, i, j)
        decreases total - i + 2 * (|texts| - j)
      {
        if fetch {
          var got := Get(i);
          current := got.value;
        }
        ghost var before := entries;
        var cmp := CompareEntry(current, texts[j]);
        if cmp < 0 {
          MergeSkip(old(entries), texts, before, i, j);
          i := i + 1;
          fetch := true;
        } else if cmp == 0 {
          MergeMatch(old(entries), texts, before, i, j);
          i := i + 1;
          j := j + 1;
          fetch := true;
        } else {
          var added := AddAddress(texts[j], i);
          MergeInsert(old(entries), texts, before, i, j, entries);
          total := total + 1;
          i := i + 1;
          j := j + 1;
          fetch := false;
        }
      }
      MergeEnd(old(entries), texts, entries, i, j);
      res := AddToTail(texts, j);
    }

    /** The second loop of add_addressList_to_pool. */
    method AddToTail(texts: seq<Text>, start: nat) returns (res: int)
      requires start <= |texts|
      modifies this
      ensures entries == old(entries) + Parsed(texts[start..])
      ensures res == if AllParse(texts[start..]) then 0 else -1
    {
      var j := start;
      assert entries == old(entries) + [];
      while j < |texts|
        invariant start <= j <= |texts|
        invariant old(entries) + Parsed(texts[start..]) == entries + Parsed(texts[j..])
        invariant AllParse(texts[start..]) == AllParse(texts[j..])
      {
        ghost var before := entries;
        assert texts[j..][0] == texts[j] && texts[j..][1..] == texts[j + 1..];
        var added := AddAddress(texts[j], -1);
        if added < 0 {
          return -1;
        }
        AllParseTail(texts[j..]);
        assert before + ([texts[j].value] + Parsed(texts[j + 1..]))
            == entries + Parsed(texts[j + 1..]);
        j := j + 1;
      }
      res := 0;
    }

    method RemoveAddressList(texts: seq<Text>) returns (res: int)
      modifies this
      ensures texts == [] ==> res == -1 && entries == old(entries)
      ensures texts != [] ==> entries == Subtract(old(entries), texts)
      ensures texts != [] ==> res == if SubtractOk(old(entries), texts, false) then 0 else -1
    {
      if texts == [] {
        return -1;
      }
      var total := |entries|;
      var i, j, fetch := 0, 0, true;
      var current: Range := Range(0, 0);
      SubtractBegins(entries, texts);
      while i < total && j < |texts|
        invariant 0 <= i <= |entries| <= total
        invariant 0 <= j <= |texts|
        invariant !fetch ==> i < |entries| && current == entries[i]
        invariant i == |entries| ==> fetch
        invariant Subtracting(old(entries), texts, entries, i, j, total)
        decreases total - i + 2 * (|texts| - j)
      {
        if fetch {
          var got := Get(i);
          if got.None? {
            SubtractEnd(old(entries), texts, entries, i, j, total);
            return -1;
          }
          current := got.value;
        }
        ghost var before := entries;
        var cmp := CompareEntry(current, texts[j]);
        if cmp < 0 {
          SubtractSkip(old(entries), texts, before, i, j, total);
          i := i + 1;
          fetch := true;
        } else if cmp == 0 {
          var removed := RemoveAddress(texts[j], i);
          if removed < 0 {
            SubtractStops(old(entries), texts, before, i, j, total);
            return -1;
          }
          SubtractMatch(old(entries), texts, before, i, j, total, entries);
          j := j + 1;
          fetch := true;
        } else {
          SubtractNext(old(entries), texts, before, i, j, total);
          j := j + 1;
          fetch := false;
        }
      }
      SubtractEnd(old(entries), texts, entries, i, j, total);
      res := 0;
    }
  }

  lemma AllParseTail(texts: seq<Text>)
    requires texts != [] && texts[0].Some?
    ensures AllParse(texts) == AllParse(texts[1..])
  {
    forall k | 0 < k < |texts|
      ensures texts[k] == texts[1..][k - 1]
    {
    }
  }
}
