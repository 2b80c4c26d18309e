/** IPv4 addresses and CIDR ranges (section 3.1 of RFC 4632) as the unbounded integers
    that Python's ipaddress module computes with, and the 32-bit words the C code masks. */
module Cidr {

  type Address = a: int | 0 <= a < 0x1_0000_0000
  type Prefix = p: int | 0 <= p <= 32

  datatype Option<+T> = None | Some(value: T)

  function Pow2(n: nat): (r: nat)
    ensures r >= 1
  {
    if n == 0 then 1 else 2 * Pow2(n - 1)
  }

  lemma {:induction false} Pow2Sum(m: nat, n: nat)
    ensures Pow2(m + n) == Pow2(m) * Pow2(n)
  {
    if m > 0 {
      Pow2Sum(m - 1, n);
      assert Pow2(m + n) == 2 * Pow2(m - 1 + n);
    }
  }

  lemma Pow2Of32()
    ensures Pow2(32) == 0x1_0000_0000
  {
    assert Pow2(8) == 0x100;
    Pow2Sum(8, 8);
    Pow2Sum(16, 16);
  }

  /** How many addresses a prefix leaves free. */
  function Size(p: Prefix): (s: nat)
    ensures s >= 1
  {
    Pow2(32 - p)
  }

  /** The first p bits of an address, read as a number. */
  function Top(a: Address, p: Prefix): int
  {
    a / Size(p)
  }

  datatype Range = Range(addr: Address, prefix: Prefix) {
    function Network(): int
    {
      addr - addr % Size(prefix)
    }

    function Broadcast(): int
    {
      Network() + Size(prefix) - 1
    }

    predicate Contains(ip: int)
    {
      Network() <= ip <= Broadcast()
    }

    /** Whether the host bits are clear, which ipaddress.ip_network insists on. */
    predicate Aligned()
    {
      Network() == addr
    }

    predicate Inside(outer: Range)
    {
      outer.Network() <= Network() && Broadcast() <= outer.Broadcast()
    }

    predicate IsHost()
    {
      prefix == 32
    }
  }

  lemma HostIsItself(r: Range)
    requires r.IsHost()
    ensures r.Network() == r.Broadcast() == r.addr
  {
    assert Size(32) == 1;
  }

  lemma MulMonotone(a: int, b: int, d: int)
    requires a <= b && d >= 0
    ensures a * d <= b * d
  {
  }

  lemma DivUnique(x: int, d: int, q: int, r: int)
    requires d > 0 && x == q * d + r && 0 <= r < d
    ensures x / d == q && x % d == r
  {
    var e := x / d;
    assert x == e * d + x % d;
    MulMonotone(if e < q then e + 1 else q, q, d);
    MulMonotone(if q < e then q + 1 else e, e, d);
  }

  /** Halving a quotient is dividing by twice as much. */
  lemma HalveQuotient(x: int, s: int)
    requires s > 0
    ensures x / (2 * s) == x / s / 2
  {
    var q, r := x / s, x % s;
    var h, b := q / 2, q % 2;
    var rest := if b == 0 then r else s + r;
    assert x == q * s + r;
    calc {
      q * s;
      (2 * h + b) * s;
      (2 * h) * s + b * s;
      h * (2 * s) + b * s;
    }
    DivUnique(x, 2 * s, h, rest);
  }

  lemma BlockMembers(a: int, ip: int, s: int)
    requires s > 0
    ensures a - a % s <= ip <= a - a % s + s - 1 <==> ip / s == a / s
  {
    var q, block := a / s, a / s * s;
    assert a == block + a % s;
    if block <= ip < block + s {
      DivUnique(ip, s, q, ip - block);
    }
    assert ip == ip / s * s + ip % s;
  }

  /** Membership in an arithmetic interval is agreement on the leading bits. */
  lemma ContainsIsTop(r: Range, ip: Address)
    ensures r.Contains(ip) <==> Top(ip, r.prefix) == Top(r.addr, r.prefix)
  {
    BlockMembers(r.addr, ip, Size(r.prefix));
  }

  /** Dropping one more bit halves the leading part. */
  lemma TopStep(a: Address, p: Prefix)
    requires p < 32
    ensures Top(a, p + 1) == 2 * Top(a, p) + Top(a, p + 1) % 2
  {
    assert Size(p) == 2 * Size(p + 1);
    HalveQuotient(a, Size(p + 1));
  }

  lemma {:induction false} TopShorter(a: Address, b: Address, p: Prefix, q: Prefix)
    requires p <= q
    requires Top(a, q) == Top(b, q)
    ensures Top(a, p) == Top(b, p)
    decreases q
  {
    if p < q {
      TopStep(a, q - 1);
      TopStep(b, q - 1);
      TopShorter(a, b, p, q - 1);
    }
  }

  lemma BlockEndFits(q: int, t: int, s: int)
    requires s >= 1 && 0 <= q && q * s < t * s
    ensures q < t && 0 <= q * s && q * s + s <= t * s
  {
    MulMonotone(if q < t then q else t, q, s);
    MulMonotone(q + 1, if q < t then t else q + 1, s);
    assert (q + 1) * s == q * s + s;
  }

  lemma BlockStart(a: int, s: int, t: int)
    requires 0 <= a < t * s && s >= 1
    ensures 0 <= a - a % s && a - a % s + s <= t * s
    ensures (a - a % s) % s == 0 && (a - a % s) / s == a / s
  {
    var q := a / s;
    assert a == q * s + a % s;
    BlockEndFits(q, t, s);
    DivUnique(q * s, s, q, 0);
  }

  lemma NetworkIsAddress(r: Range)
    ensures 0 <= r.Network() <= r.addr <= r.Broadcast() < 0x1_0000_0000
    ensures Range(r.Network(), r.prefix).Network() == r.Network()
    ensures Top(r.Network(), r.prefix) == Top(r.addr, r.prefix)
  {
    Pow2Of32();
    Pow2Sum(r.prefix, 32 - r.prefix);
    BlockStart(r.addr, Size(r.prefix), Pow2(r.prefix));
  }

  /** Two CIDR ranges are nested or disjoint, never partly overlapping. */
  lemma NestedOrDisjoint(a: Range, b: Range)
    requires a.prefix <= b.prefix
    ensures b.Inside(a) || b.Broadcast() < a.Network() || a.Broadcast() < b.Network()
  {
    NetworkIsAddress(a);
    NetworkIsAddress(b);
    if !(b.Broadcast() < a.Network() || a.Broadcast() < b.Network()) {
      var ip: Address := if a.Network() <= b.Network() then b.Network() else a.Network();
      assert a.Contains(ip) && b.Contains(ip);
      ContainsIsTop(a, ip);
      ContainsIsTop(b, ip);
      forall x: Address | b.Contains(x)
        ensures a.Contains(x)
      {
        ContainsIsTop(b, x);
        TopShorter(x, ip, a.prefix, b.prefix);
        ContainsIsTop(a, x);
      }
      assert b.Contains(b.Network()) && b.Contains(b.Broadcast());
    }
  }

  // ---- Bits, most significant first ----

  function Bit(a: Address, i: nat): int
    requires i < 32
  {
    a / Pow2(31 - i) % 2
  }

  lemma BitIsTop(a: Address, i: Prefix)
    requires i < 32
    ensures Bit(a, i) == Top(a, i + 1) % 2
    ensures Top(a, i + 1) == 2 * Top(a, i) + Bit(a, i)
  {
    TopStep(a, i);
  }

  lemma TopOfNothing(a: Address)
    ensures Top(a, 0) == 0
  {
    Pow2Of32();
  }
}
