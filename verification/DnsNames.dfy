/** The labels of a domain name, right to left, and the tree path they spell (section 3.1 of
    RFC 1034). */
module DnsNames {
  import opened Paths

  type NamePath = Path<string>

  /** The last dot below `start`, or -1. */
  function RFind(domain: string, start: nat): (end: int)
    requires start <= |domain|
    ensures -1 <= end < start
    ensures end >= 0 ==> domain[end] == '.'
    ensures forall k :: end < k < start ==> domain[k] != '.'
  {
    if start == 0 then -1
    else if domain[start - 1] == '.' then start - 1
    else RFind(domain, start - 1)
  }

  /** What the generator yields once its cursor is at `start`. */
  function PartsFrom(domain: string, start: nat): seq<string>
    requires start <= |domain|
  {
    if start == 0 then []
    else
      var end := RFind(domain, start);
      [domain[end + 1..start]] + (if end == -1 then [] else PartsFrom(domain, end))
  }

  function Parts(domain: string): seq<string>
  {
    PartsFrom(domain, |domain|)
  }

  lemma MoveOver(done: seq<string>, part: string, rest: seq<string>)
    ensures done + ([part] + rest) == (done + [part]) + rest
  {
  }

  /** rsplit_generator, its yields collected in order. */
  method RsplitGenerator(domain: string) returns (parts: seq<string>)
    ensures parts == Parts(domain)
  {
    parts := [];
    var start := |domain|;
    ghost var left := Parts(domain);
    while start != 0
      invariant 0 <= start <= |domain|
      invariant left == PartsFrom(domain, start) && Parts(domain) == parts + left
    {
      var end := RFind(domain, start);
      var part := domain[end + 1..start];
      ghost var next := if end == -1 then [] else PartsFrom(domain, end);
      MoveOver(parts, part, next);
      assert left == [part] + next;
      parts, left := parts + [part], next;
      if end == -1 {
        break;
      }
      start := end;
    }
  }

  // ---- Against splitting from the left ----

  /** Ordinary splitting on dots: never empty. */
  function Split(s: string): (labels: seq<string>)
    ensures |labels| > 0
  {
    if s == [] then [""]
    else
      var rest := Split(s[1..]);
      if s[0] == '.' then [""] + rest else [[s[0]] + rest[0]] + rest[1..]
  }

  function Join(labels: seq<string>): string
  {
    if labels == [] then ""
    else if |labels| == 1 then labels[0]
    else labels[0] + "." + Join(labels[1..])
  }

  function Reverse<T>(s: seq<T>): (r: seq<T>)
    ensures |r| == |s|
    ensures forall k :: 0 <= k < |s| ==> r[k] == s[|s| - 1 - k]
  {
    if s == [] then [] else Reverse(s[1..]) + [s[0]]
  }

  /** The labels without a leading empty one. */
  function DropLeadingEmpty(labels: seq<string>): seq<string>
  {
    if labels != [] && labels[0] == "" then labels[1..] else labels
  }

  lemma {:induction false} SplitNoDot(s: string)
    requires '.' !in s
    ensures Split(s) == [s]
  {
    if s != [] {
      SplitNoDot(s[1..]);
      assert s == [s[0]] + s[1..];
    }
  }

  lemma {:induction false} SplitAtDot(a: string, b: string)
    requires '.' !in b
    ensures Split(a + "." + b) == Split(a) + [b]
  {
    var s := a + "." + b;
    if a == [] {
      assert s[1..] == b;
      SplitNoDot(b);
      assert s[0] == '.' && Split(s) == [""] + [b];
    } else {
      assert s[0] == a[0] && s[1..] == a[1..] + "." + b;
      SplitAtDot(a[1..], b);
    }
  }

  lemma {:induction false} SplitHead(s: string)
    ensures Split(s)[0] == "" <==> s == [] || s[0] == '.'
  {
  }

  lemma ReverseSnoc<T>(s: seq<T>, x: T)
    ensures Reverse(s + [x]) == [x] + Reverse(s)
  {
  }

  /** The labels left of the last dot, then the label after it. */
  lemma LabelsSnoc(front: string, last: string)
    requires '.' !in last
    ensures Reverse(DropLeadingEmpty(Split(front + "." + last)))
            == [last] + Reverse(DropLeadingEmpty(Split(front)))
  {
    SplitAtDot(front, last);
    var labels := Split(front);
    assert DropLeadingEmpty(labels + [last]) == DropLeadingEmpty(labels) + [last];
    ReverseSnoc(DropLeadingEmpty(labels), last);
  }

  lemma OneLabel(last: string)
    requires last != "" && '.' !in last
    ensures Reverse(DropLeadingEmpty(Split(last))) == [last]
  {
    SplitNoDot(last);
  }

  lemma SliceAtDot(domain: string, end: nat, start: nat)
    requires end < start <= |domain| && domain[end] == '.'
    ensures domain[..start] == domain[..end] + "." + domain[end + 1..start]
  {
  }

  lemma {:induction false} PartsFromLabels(domain: string, start: nat)
    requires start <= |domain|
    ensures PartsFrom(domain, start) == Reverse(DropLeadingEmpty(Split(domain[..start])))
  {
    if start > 0 {
      var end := RFind(domain, start);
      var last := domain[end + 1..start];
      assert forall c :: c in last ==> c != '.';
      if end == -1 {
        assert last == domain[..start];
        OneLabel(last);
      } else {
        PartsFromLabels(domain, end);
        SliceAtDot(domain, end, start);
        LabelsSnoc(domain[..end], last);
      }
    }
  }

  /** The generator yields the labels of the name from right to left, without a leading
      empty one. */
  lemma PartsAreLabels(domain: string)
    ensures Parts(domain) == Reverse(DropLeadingEmpty(Split(domain)))
  {
    PartsFromLabels(domain, |domain|);
    assert domain[..|domain|] == domain;
  }

  lemma {:induction false} JoinSplit(s: string)
    ensures Join(Split(s)) == s
  {
    if s != [] {
      JoinSplit(s[1..]);
      var rest := Split(s[1..]);
      if s[0] == '.' {
        assert Split(s)[1..] == rest;
        assert s == "." + s[1..];
      } else {
        assert Split(s)[1..] == rest[1..];
        assert s == [s[0]] + s[1..];
      }
    }
  }

  lemma ReverseTwice<T>(s: seq<T>)
    ensures Reverse(Reverse(s)) == s
  {
  }

  /** Reversing and joining the parts gives the name back exactly when it does not start with
      a dot; otherwise that dot is lost. */
  lemma PartsRejoin(domain: string)
    ensures Join(Reverse(Parts(domain)))
            == if domain != "" && domain[0] == '.' then domain[1..] else domain
    ensures Join(Reverse(Parts(domain))) == domain <==> domain == "" || domain[0] != '.'
  {
    PartsAreLabels(domain);
    var labels := Split(domain);
    ReverseTwice(DropLeadingEmpty(labels));
    JoinSplit(domain);
    SplitHead(domain);
    if domain != "" && domain[0] == '.' {
      JoinSplit(domain[1..]);
      assert labels[1..] == Split(domain[1..]);
    } else if domain == "" {
      assert labels == [""] && labels[1..] == [];
    }
  }

  // ---- Tree paths ----

  /** The path of the first n parts. */
  function PathUpTo(parts: seq<string>, n: nat): NamePath
    requires n <= |parts|
  {
    if n == 0 then Root else Down(PathUpTo(parts, n - 1), parts[n - 1])
  }

  function PathOf(domain: string): NamePath
  {
    PathUpTo(Parts(domain), |Parts(domain)|)
  }

  lemma {:induction false} PathOfPrefix(parts: seq<string>, more: seq<string>, n: nat)
    requires n <= |parts|
    ensures PathUpTo(parts + more, n) == PathUpTo(parts, n)
  {
    if n > 0 {
      PathOfPrefix(parts, more, n - 1);
    }
  }

  lemma {:induction false} PathUpToAbove(parts: seq<string>, m: nat, n: nat)
    requires m <= n <= |parts|
    ensures Above(PathUpTo(parts, m), PathUpTo(parts, n))
  {
    if m < n {
      PathUpToAbove(parts, m, n - 1);
    }
  }

  lemma {:induction false} PathDepth(parts: seq<string>, n: nat)
    requires n <= |parts|
    ensures Depth(PathUpTo(parts, n)) == n
  {
    if n > 0 {
      PathDepth(parts, n - 1);
    }
  }

  /** A path lies above another exactly when its parts are a prefix. */
  lemma {:induction false} AboveIsPrefix(p: seq<string>, q: seq<string>)
    ensures Above(PathUpTo(p, |p|), PathUpTo(q, |q|)) <==> p <= q
  {
    PathDepth(p, |p|);
    PathDepth(q, |q|);
    if |p| > |q| {
      if Above(PathUpTo(p, |p|), PathUpTo(q, |q|)) {
        AboveIsShorter(PathUpTo(p, |p|), PathUpTo(q, |q|));
      }
    } else if |p| == |q| {
      if PathUpTo(p, |p|) != PathUpTo(q, |q|) && Above(PathUpTo(p, |p|), PathUpTo(q, |q|)) {
        AboveIsShorter(PathUpTo(p, |p|), PathUpTo(q, |q|).up);
      }
      SamePathSameParts(p, q, |p|);
      assert p[..|p|] == p && q[..|q|] == q;
    } else {
      var shorter := q[..|q| - 1];
      AboveIsPrefix(p, shorter);
      assert q == shorter + [q[|q| - 1]];
      PathOfPrefix(shorter, [q[|q| - 1]], |shorter|);
    }
  }

  lemma {:induction false} SamePathSameParts(p: seq<string>, q: seq<string>, n: nat)
    requires n <= |p| && n <= |q|
    ensures PathUpTo(p, n) == PathUpTo(q, n) <==> p[..n] == q[..n]
  {
    if n > 0 {
      SamePathSameParts(p, q, n - 1);
      assert p[..n] == p[..n - 1] + [p[n - 1]] && q[..n] == q[..n - 1] + [q[n - 1]];
      if p[..n] == q[..n] {
        assert p[..n][..n - 1] == q[..n][..n - 1];
        assert p[..n][n - 1] == q[..n][n - 1];
      }
    }
  }

  // ---- Names inside networks ----

  /** d.network spells the parts of the network first, then those of d. */
  lemma PartsOfQualified(d: string, network: string)
    requires network != "" && network[0] != '.'
    ensures Parts(d + "." + network) == Parts(network) + Parts(d)
  {
    PartsAreLabels(d + "." + network);
    PartsAreLabels(network);
    PartsAreLabels(d);
    SplitConcat(d, network);
    SplitHead(network);
    LabelsConcat(Split(d), Split(network));
  }

  lemma LabelsConcat(front: seq<string>, back: seq<string>)
    requires front != [] && back != [] && back[0] != ""
    ensures Reverse(DropLeadingEmpty(front + back))
            == Reverse(DropLeadingEmpty(back)) + Reverse(DropLeadingEmpty(front))
  {
    assert DropLeadingEmpty(front + back) == DropLeadingEmpty(front) + back;
    ReverseConcat(DropLeadingEmpty(front), back);
  }

  lemma {:induction false} SplitConcat(a: string, b: string)
    ensures Split(a + "." + b) == Split(a) + Split(b)
  {
    var s := a + "." + b;
    if a == [] {
      assert s[1..] == b && s[0] == '.';
    } else {
      assert s[0] == a[0] && s[1..] == a[1..] + "." + b;
      SplitConcat(a[1..], b);
    }
  }

  lemma ReverseConcat<T>(a: seq<T>, b: seq<T>)
    ensures Reverse(a + b) == Reverse(b) + Reverse(a)
  {
  }
}
