/** Names on the socket: one per line, read in chunks of any size. */
module Framing {

  /** str.isspace. */
  predicate IsSpace(c: char)
  {
    || '\t' <= c <= '\r' || '\U{1c}' <= c <= ' ' || c == '\U{85}' || c == '\U{a0}'
    || c == '\U{1680}' || '\U{2000}' <= c <= '\U{200a}' || c == '\U{2028}' || c == '\U{2029}'
    || c == '\U{202f}' || c == '\U{205f}' || c == '\U{3000}'
  }

  /** The code points that isspace accepts. */
  lemma SpaceCodes(c: char)
    ensures IsSpace(c) <==>
            var n := c as int;
            || 9 <= n <= 13 || 28 <= n <= 32 || n in {133, 160, 5760, 8232, 8233, 8239, 8287, 12288}
            || 8192 <= n <= 8202
  {
  }

  /** str.strip. */
  function Strip(s: string): (t: string)
    ensures |t| <= |s|
    ensures '\n' !in s ==> '\n' !in t
  {
    if s == [] then s
    else if IsSpace(s[0]) then Strip(s[1..])
    else if IsSpace(s[|s| - 1]) then Strip(s[..|s| - 1])
    else s
  }

  /** Where the first newline is. */
  function Newline(s: string): (i: nat)
    requires '\n' in s
    ensures i < |s| && s[i] == '\n' && '\n' !in s[..i]
  {
    if s[0] == '\n' then 0 else 1 + Newline(s[1..])
  }

  /** The names of the complete lines, and the unfinished line after them. */
  function Names(s: string): seq<string>
  {
    if '\n' !in s then []
    else [Strip(s[..Newline(s)])] + Names(s[Newline(s) + 1..])
  }

  function Rest(s: string): (r: string)
    ensures '\n' !in r
  {
    if '\n' !in s then s else Rest(s[Newline(s) + 1..])
  }

  /** What start_jail sends for each name. */
  function Wire(names: seq<string>): string
  {
    if names == [] then ""
    else Wire(names[..|names| - 1]) + (names[|names| - 1] + "\n")
  }

  class Receiver {
    var buffer: string
    var received: seq<string>

    constructor ()
      ensures buffer == "" && received == []
    {
      buffer, received := "", [];
    }

    /** One readable event of run: extend the buffer and take every complete line off it. */
    method Receive(data: string)
      modifies this
      ensures received == old(received) + Names(old(buffer) + data)
      ensures buffer == Rest(old(buffer) + data)
    {
      buffer := buffer + data;
      ghost var before, whole := received, buffer;
      ghost var taken: seq<string> := [];
      while '\n' in buffer
        invariant received == before + taken
        invariant Taken(whole, taken, buffer)
        decreases |buffer|
      {
        var i := Newline(buffer);
        var line := buffer[..i];
        TakeLine(whole, taken, buffer);
        ghost var more := taken + [Strip(line)];
        assert (before + taken) + [Strip(line)] == before + more;
        taken := more;
        buffer := buffer[i + 1..];
        received := received + [Strip(line)];
      }
      assert taken + Names(buffer) == taken;
    }
  }

  /** After some lines are taken off the whole, the buffer still holds the others. */
  predicate Taken(whole: string, taken: seq<string>, buffer: string)
  {
    Names(whole) == taken + Names(buffer) && Rest(whole) == Rest(buffer)
  }

  lemma TakeLine(whole: string, taken: seq<string>, buffer: string)
    requires '\n' in buffer && Taken(whole, taken, buffer)
    ensures Taken(whole, taken + [Strip(buffer[..Newline(buffer)])], buffer[Newline(buffer) + 1..])
  {
    var i := Newline(buffer);
    Regroup(taken, [Strip(buffer[..i])], Names(buffer[i + 1..]));
  }

  predicate AllSpace(s: string)
  {
    forall k :: 0 <= k < |s| ==> IsSpace(s[k])
  }

  /** Stripping takes white space off both ends and nothing else. */
  lemma {:induction false} StripMeaning(s: string) returns (left: string, right: string)
    ensures s == left + Strip(s) + right && AllSpace(left) && AllSpace(right)
    ensures Strip(s) != "" ==> !IsSpace(Strip(s)[0]) && !IsSpace(Strip(s)[|Strip(s)| - 1])
    decreases |s|
  {
    left, right := "", "";
    if s != [] && IsSpace(s[0]) {
      var more;
      more, right := StripMeaning(s[1..]);
      left := [s[0]] + more;
      AddsLeft(s, more, Strip(s[1..]), right);
    } else if s != [] && IsSpace(s[|s| - 1]) {
      var more;
      left, more := StripMeaning(s[..|s| - 1]);
      right := more + [s[|s| - 1]];
      AddsRight(s, left, Strip(s[..|s| - 1]), more);
    }
  }

  lemma AddsLeft(s: string, left: string, middle: string, right: string)
    requires s != [] && s[1..] == left + middle + right
    ensures s == ([s[0]] + left) + middle + right
  {
    assert s == [s[0]] + s[1..];
  }

  lemma AddsRight(s: string, left: string, middle: string, right: string)
    requires s != [] && s[..|s| - 1] == left + middle + right
    ensures s == left + middle + (right + [s[|s| - 1]])
  {
    assert s == s[..|s| - 1] + [s[|s| - 1]];
  }

  // ---- Chunks ----

  /** The line up to a newline that none comes before. */
  lemma LineOf(s: string, i: nat)
    requires i < |s| && s[i] == '\n' && '\n' !in s[..i]
    ensures '\n' in s && Newline(s) == i
    ensures Names(s) == [Strip(s[..i])] + Names(s[i + 1..]) && Rest(s) == Rest(s[i + 1..])
  {
    NewlineAt(s, i);
    var rest := s[i + 1..];
    assert s[Newline(s) + 1..] == rest;
    assert Names(s) == [Strip(s[..i])] + Names(rest);
  }

  lemma {:induction false} NewlineAt(s: string, i: nat)
    requires i < |s| && s[i] == '\n' && '\n' !in s[..i]
    ensures '\n' in s && Newline(s) == i
  {
    assert s[i] in s;
    if i > 0 {
      assert s[..i][0] == s[0] && s[1..][..i - 1] == s[..i][1..];
      NewlineAt(s[1..], i - 1);
    }
  }

  lemma SplitConcat(a: string, b: string, i: nat)
    requires i < |a|
    ensures (a + b)[i] == a[i] && (a + b)[..i] == a[..i] && (a + b)[i + 1..] == a[i + 1..] + b
  {
  }

  /** The first complete line of a is the first line of a + b. */
  lemma FirstLine(a: string, b: string)
    requires '\n' in a
    ensures Names(a + b) == [Strip(a[..Newline(a)])] + Names(a[Newline(a) + 1..] + b)
    ensures Rest(a + b) == Rest(a[Newline(a) + 1..] + b)
  {
    var i := Newline(a);
    SplitConcat(a, b, i);
    LineOf(a + b, i);
  }

  /** Reading a and then b is reading a + b. */
  lemma {:induction false} ReadOn(a: string, b: string)
    ensures Names(a + b) == Names(a) + Names(Rest(a) + b)
    ensures Rest(a + b) == Rest(Rest(a) + b)
    decreases |a|
  {
    if '\n' in a {
      var i := Newline(a);
      var line, rest := [Strip(a[..i])], a[i + 1..];
      FirstLine(a, b);
      LineOf(a, i);
      ReadOn(rest, b);
      Regroup(line, Names(rest), Names(Rest(a) + b));
    }
  }

  lemma Regroup(a: seq<string>, b: seq<string>, c: seq<string>)
    ensures a + (b + c) == (a + b) + c
  {
  }

  function Concat(chunks: seq<string>): string
  {
    if chunks == [] then "" else Concat(chunks[..|chunks| - 1]) + chunks[|chunks| - 1]
  }

  /** Names received and buffer left after reading the chunks one by one. */
  function AfterChunks(chunks: seq<string>): (seq<string>, string)
  {
    if chunks == [] then ([], "")
    else
      var (names, buffer) := AfterChunks(chunks[..|chunks| - 1]);
      var all := buffer + chunks[|chunks| - 1];
      (names + Names(all), Rest(all))
  }

  /** However the stream is cut, the outcome is that of the whole stream. */
  lemma {:induction false} ChunksDoNotMatter(chunks: seq<string>)
    ensures AfterChunks(chunks) == (Names(Concat(chunks)), Rest(Concat(chunks)))
  {
    if chunks != [] {
      var n := |chunks| - 1;
      ChunksDoNotMatter(chunks[..n]);
      ReadOn(Concat(chunks[..n]), chunks[n]);
    }
  }

  // ---- Clean names ----

  /** No newline inside, no white space outside. */
  predicate Clean(name: string)
  {
    '\n' !in name && Strip(name) == name
  }

  /** Stripping is idempotent, so what is stripped off a line is clean. */
  lemma {:induction false} StripIsClean(line: string)
    requires '\n' !in line
    ensures Clean(Strip(line))
    decreases |line|
  {
    if line != [] && IsSpace(line[0]) {
      StripIsClean(line[1..]);
    } else if line != [] && IsSpace(line[|line| - 1]) {
      StripIsClean(line[..|line| - 1]);
    }
  }

  lemma {:induction false} ReceivedAreClean(s: string, name: string)
    requires name in Names(s)
    ensures Clean(name)
    decreases |s|
  {
    if '\n' in s {
      var i := Newline(s);
      StripIsClean(s[..i]);
      assert name == Strip(s[..i]) || name in Names(s[i + 1..]);
      if name != Strip(s[..i]) {
        ReceivedAreClean(s[i + 1..], name);
      }
    }
  }

  lemma OneLine(name: string)
    requires '\n' !in name
    ensures Names(name + "\n") == [Strip(name)] && Rest(name + "\n") == ""
  {
    var s := name + "\n";
    assert s[..|name|] == name && s[|name|] == '\n' && s[|name| + 1..] == "";
    LineOf(s, |name|);
    assert [Strip(name)] + Names("") == [Strip(name)];
  }

  predicate AllClean(names: seq<string>)
  {
    forall k :: 0 <= k < |names| ==> Clean(names[k])
  }

  /** What follows a complete stream is read on its own. */
  lemma ReadAfterWhole(whole: string, more: string)
    requires Rest(whole) == ""
    ensures Names(whole + more) == Names(whole) + Names(more)
    ensures Rest(whole + more) == Rest(more)
  {
    ReadOn(whole, more);
    assert "" + more == more;
  }

  /** Splitting off the last name when at least n lines came for the first n names. */
  lemma LastOfEqual(got: seq<string>, tail: seq<string>, names: seq<string>)
    requires names != [] && |got| >= |names| - 1 && |tail| >= 1
    ensures got + tail == names <==> got == names[..|names| - 1] && tail == [names[|names| - 1]]
  {
    var n := |names| - 1;
    assert names == names[..n] + [names[n]];
    if got + tail == names {
      assert |got| == n && |tail| == 1;
      assert got == (got + tail)[..n] && tail[0] == (got + tail)[n];
    }
  }

  lemma {:induction false} WireRest(names: seq<string>)
    ensures Rest(Wire(names)) == ""
    ensures |Names(Wire(names))| >= |names|
    ensures Names(Wire(names)) == names <==> AllClean(names)
  {
    if names != [] {
      var n := |names| - 1;
      WireRest(names[..n]);
      ReadAfterWhole(Wire(names[..n]), names[n] + "\n");
      LastLine(names[n]);
      LastOfEqual(Names(Wire(names[..n])), Names(names[n] + "\n"), names);
      assert AllClean(names) <==> AllClean(names[..n]) && Clean(names[n]) by {
        assert forall k :: 0 <= k < n ==> names[..n][k] == names[k];
      }
    }
  }

  /** One sent name arrives as at least one line, and as itself alone exactly when clean. */
  lemma {:induction false} LastLine(name: string)
    ensures Rest(name + "\n") == "" && |Names(name + "\n")| >= 1
    ensures Names(name + "\n") == [name] <==> Clean(name)
    ensures !Clean(name) ==> Names(name + "\n")[0] != name
    decreases |name|
  {
    var s := name + "\n";
    if '\n' !in name {
      OneLine(name);
    } else {
      var i := Newline(name);
      FirstLine(name, "\n");
      LastLine(name[i + 1..]);
      assert '\n' !in Strip(name[..i]);
      assert Names(s)[0] == Strip(name[..i]);
    }
  }

  /** A whole line after a complete stream leaves a complete stream. */
  lemma SendLine(pending: string, name: string)
    requires Rest(pending) == ""
    ensures Names(pending + (name + "\n")) == Names(pending) + Names(name + "\n")
    ensures Rest(pending + (name + "\n")) == ""
  {
    LastLine(name);
    ReadAfterWhole(pending, name + "\n");
  }

  /** Every name arrives as sent, in order, exactly when every name is clean. */
  lemma ArrivesAsSentIffClean(names: seq<string>)
    ensures Names(Wire(names)) == names <==> forall k :: 0 <= k < |names| ==> Clean(names[k])
  {
    WireRest(names);
  }

  /** Whatever part of the stream has arrived, the names received so far are the first ones
      sent, in order. */
  lemma ArrivedNamesArePrefix(names: seq<string>, arrived: string, coming: string)
    requires forall k :: 0 <= k < |names| ==> Clean(names[k])
    requires arrived + coming == Wire(names)
    ensures Names(arrived) <= names
    ensures coming == "" ==> Names(arrived) == names && Rest(arrived) == ""
  {
    ArrivesAsSentIffClean(names);
    WireRest(names);
    ReadOn(arrived, coming);
    assert coming == "" ==> arrived + coming == arrived;
  }
}
