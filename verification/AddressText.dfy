/** The dotted text of an address (section 3.2.2 of RFC 3986), written and read. */
module AddressText {
  import opened Cidr
  import opened DnsNames

  function Digits(n: nat): string
  {
    if n < 10 then ['0' + n as char] else Digits(n / 10) + ['0' + (n % 10) as char]
  }

  /** str(ip). */
  function DottedQuad(a: Address): string
  {
    Digits(a / 0x100_0000) + "." + Digits(a / 0x1_0000 % 0x100) + "."
    + Digits(a / 0x100 % 0x100) + "." + Digits(a % 0x100)
  }

  /** A decimal number as ipaddress accepts it: digits alone, and no zero in front. */
  predicate IsDecimal(s: string)
  {
    s != "" && (forall k :: 0 <= k < |s| ==> '0' <= s[k] <= '9') && (|s| > 1 ==> s[0] != '0')
  }

  function ValueOf(s: string): nat
    requires forall k :: 0 <= k < |s| ==> '0' <= s[k] <= '9'
  {
    if s == "" then 0 else 10 * ValueOf(s[..|s| - 1]) + (s[|s| - 1] as int - 48)
  }

  /** Four labels, each a decimal number below 256, the most significant first. */
  function ReadQuad(text: string): Option<Address>
  {
    var labels := Split(text);
    if && |labels| == 4 && (forall k :: 0 <= k < 4 ==> IsDecimal(labels[k]))
       && (forall k :: 0 <= k < 4 ==> ValueOf(labels[k]) < 256)
    then Some(ValueOf(labels[0]) * 0x100_0000 + ValueOf(labels[1]) * 0x1_0000
              + ValueOf(labels[2]) * 0x100 + ValueOf(labels[3]))
    else None
  }

  lemma {:induction false} DigitsRead(n: nat)
    ensures IsDecimal(Digits(n)) && ValueOf(Digits(n)) == n
    ensures n > 0 ==> Digits(n)[0] != '0'
  {
    if n >= 10 {
      DigitsRead(n / 10);
      var front, s := Digits(n / 10), Digits(n);
      assert s[..|s| - 1] == front;
      assert forall k :: 0 <= k < |front| ==> s[k] == front[k];
    }
  }

  lemma {:induction false} ReadDigits(s: string)
    requires IsDecimal(s)
    ensures Digits(ValueOf(s)) == s
  {
    if |s| > 1 {
      var front := s[..|s| - 1];
      ReadDigits(front);
      assert s == front + [s[|s| - 1]];
      PositiveValue(front);
    } else {
      assert ValueOf(s[..0]) == 0;
    }
  }

  lemma {:induction false} PositiveValue(s: string)
    requires IsDecimal(s) && s[0] != '0'
    ensures ValueOf(s) > 0
  {
    if |s| > 1 {
      PositiveValue(s[..|s| - 1]);
    }
  }

  lemma NoDotInDigits(s: string)
    requires IsDecimal(s)
    ensures '.' !in s
  {
  }

  lemma SplitQuad(a: string, b: string, c: string, d: string)
    requires IsDecimal(a) && IsDecimal(b) && IsDecimal(c) && IsDecimal(d)
    ensures Split(a + "." + b + "." + c + "." + d) == [a, b, c, d]
  {
    SplitNoDot(a);
    SplitAtDot(a, b);
    SplitAtDot(a + "." + b, c);
    SplitAtDot(a + "." + b + "." + c, d);
  }

  lemma BytesJoin(a: Address)
    ensures 0 <= a / 0x100_0000 < 256
    ensures a / 0x100_0000 * 0x100_0000 + a / 0x1_0000 % 0x100 * 0x1_0000 + a / 0x100 % 0x100 * 0x100
            + a % 0x100 == a
  {
    var b, c := a / 0x100, a / 0x1_0000;
    assert c == b / 0x100 && a / 0x100_0000 == c / 0x100;
  }

  lemma BytesApart(w: nat, x: nat, y: nat, z: nat)
    requires w < 256 && x < 256 && y < 256 && z < 256
    ensures var a := w * 0x100_0000 + x * 0x1_0000 + y * 0x100 + z;
            && 0 <= a < 0x1_0000_0000
            && a / 0x100_0000 == w && a / 0x1_0000 % 0x100 == x && a / 0x100 % 0x100 == y && a % 0x100 == z
  {
    var a := w * 0x100_0000 + x * 0x1_0000 + y * 0x100 + z;
    assert a / 0x100 == w * 0x1_0000 + x * 0x100 + y;
    assert a / 0x1_0000 == w * 0x100 + x;
  }

  /** The text of an address reads back as that address. */
  lemma QuadReadsBack(a: Address)
    ensures ReadQuad(DottedQuad(a)) == Some(a)
  {
    BytesJoin(a);
    var w, x, y, z := a / 0x100_0000, a / 0x1_0000 % 0x100, a / 0x100 % 0x100, a % 0x100;
    DigitsRead(w);
    DigitsRead(x);
    DigitsRead(y);
    DigitsRead(z);
    SplitQuad(Digits(w), Digits(x), Digits(y), Digits(z));
  }

  lemma JoinFour(a: string, b: string, c: string, d: string)
    ensures Join([a, b, c, d]) == a + "." + b + "." + c + "." + d
  {
    assert [a, b, c, d][1..] == [b, c, d] && [b, c, d][1..] == [c, d] && [c, d][1..] == [d];
    assert Join([c, d]) == c + "." + d;
    assert b + "." + (c + "." + d) == b + "." + c + "." + d;
    assert a + "." + (b + "." + c + "." + d) == a + "." + b + "." + c + "." + d;
  }

  /** And any text that reads as an address is the text of that address: the two are one to one, so
      comparing texts is comparing addresses. */
  lemma QuadIsCanonical(text: string, a: Address)
    ensures ReadQuad(text) == Some(a) <==> text == DottedQuad(a)
  {
    QuadReadsBack(a);
    if ReadQuad(text) == Some(a) {
      var l := Split(text);
      assert IsDecimal(l[0]) && IsDecimal(l[1]) && IsDecimal(l[2]) && IsDecimal(l[3]);
      ReadDigits(l[0]);
      ReadDigits(l[1]);
      ReadDigits(l[2]);
      ReadDigits(l[3]);
      BytesApart(ValueOf(l[0]), ValueOf(l[1]), ValueOf(l[2]), ValueOf(l[3]));
      JoinSplit(text);
      assert l == [l[0], l[1], l[2], l[3]];
      JoinFour(l[0], l[1], l[2], l[3]);
    }
  }
}
