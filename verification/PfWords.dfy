/** The 32-bit word arithmetic behind compare_cidr: masks, and, or and not on the bits of
    an address, and what they mean for CIDR ranges. */
module PfWords {
  import opened Cidr

  function BitAnd(x: nat, y: nat): nat
  {
    if x == 0 then 0 else x % 2 * (y % 2) + 2 * BitAnd(x / 2, y / 2)
  }

  function BitOr(x: nat, y: nat): nat
    decreases x + y
  {
    if x == 0 && y == 0 then 0
    else (if x % 2 == 1 || y % 2 == 1 then 1 else 0) + 2 * BitOr(x / 2, y / 2)
  }

  function BitNot(x: Address): Address
  {
    0xFFFF_FFFF - x
  }

  /** 0xFFFFFFFF << (32 - prefix) in a 32-bit word, with the special case for prefix 0. */
  function MaskOf(p: Prefix): Address
  {
    if p == 0 then 0 else 0xFFFF_FFFF * Size(p) % 0x1_0000_0000
  }

  lemma MaskValue(p: Prefix)
    ensures MaskOf(p) == 0x1_0000_0000 - Size(p)
    ensures BitNot(MaskOf(p)) == Size(p) - 1
  {
    Pow2Of32();
    var s := Size(p);
    if p > 0 {
      Pow2Sum(p, 32 - p);
      MulMonotone(2, Pow2(p), s);
      DivUnique(0xFFFF_FFFF * s, 0x1_0000_0000, s - 1, 0x1_0000_0000 - s);
    }
  }

  lemma {:induction false} AndAllOnes(a: nat, n: nat)
    requires a < Pow2(n)
    ensures BitAnd(a, Pow2(n) - 1) == a
  {
    if a != 0 {
      AndAllOnes(a / 2, n - 1);
    }
  }

  lemma ModDouble(a: nat, half: nat)
    requires half > 0
    ensures a % (2 * half) == 2 * (a / 2 % half) + a % 2
  {
    var q, r := a / 2 / half, a / 2 % half;
    assert a / 2 == q * half + r;
    assert q * (2 * half) == 2 * (q * half);
    DivUnique(a, 2 * half, q, 2 * r + a % 2);
  }

  /** And-ing with a run of leading ones clears the low k bits. */
  lemma {:induction false} AndLeadingOnes(a: nat, n: nat, k: nat)
    requires k <= n && a < Pow2(n)
    ensures Pow2(k) <= Pow2(n)
    ensures BitAnd(a, Pow2(n) - Pow2(k)) == a - a % Pow2(k)
  {
    if k == 0 {
      AndAllOnes(a, n);
    } else {
      AndLeadingOnes(a / 2, n - 1, k - 1);
      ModDouble(a, Pow2(k - 1));
      var mask, half := Pow2(n) - Pow2(k), Pow2(n - 1) - Pow2(k - 1);
      assert mask == 2 * half && mask % 2 == 0 && mask / 2 == half;
      assert a % 2 * 0 == 0;
      assert BitAnd(a, mask) == 2 * BitAnd(a / 2, half);
    }
  }

  lemma DoubleProduct(q: int, half: int)
    ensures q * (2 * half) == 2 * (q * half)
  {
  }

  /** Or-ing low ones into a number whose low bits are clear adds them. */
  lemma {:induction false} OrLowBits(q: nat, k: nat, y: nat)
    requires y < Pow2(k)
    ensures 0 <= q * Pow2(k)
    ensures BitOr(q * Pow2(k), y) == q * Pow2(k) + y
    decreases k
  {
    MulMonotone(0, q, Pow2(k));
    if k == 0 {
      OrZero(q);
    } else {
      var half := q * Pow2(k - 1);
      DoubleProduct(q, Pow2(k - 1));
      OrLowBits(q, k - 1, y / 2);
      assert BitOr(2 * half, y) == y % 2 + 2 * BitOr(half, y / 2);
    }
  }

  lemma {:induction false} OrZero(x: nat)
    ensures BitOr(x, 0) == x
  {
    if x > 0 {
      OrZero(x / 2);
    }
  }

  lemma RoundDown(a: nat, m: nat)
    requires m > 0
    ensures a - a % m == a / m * m >= 0
  {
  }

  lemma OrRestoresBlock(a: nat, k: nat)
    ensures 0 <= a - a % Pow2(k)
    ensures BitOr(a - a % Pow2(k), Pow2(k) - 1) == a - a % Pow2(k) + Pow2(k) - 1
  {
    RoundDown(a, Pow2(k));
    OrLowBits(a / Pow2(k), k, Pow2(k) - 1);
  }

  lemma MaskedBounds(a: nat, n: nat, k: nat, total: nat, size: nat, mask: nat)
    requires k <= n && total == Pow2(n) && size == Pow2(k)
    requires mask + size == total && a < total
    ensures BitAnd(a, mask) == a - a % size >= 0
    ensures BitOr(a - a % size, size - 1) == a - a % size + size - 1
  {
    AndLeadingOnes(a, n, k);
    OrRestoresBlock(a, k);
  }

  lemma MaskedRange(r: Range, width: nat, free: nat, mask: Address)
    requires Pow2(width) == 0x1_0000_0000 && free <= width && Pow2(free) == Size(r.prefix)
    requires mask + Size(r.prefix) == 0x1_0000_0000
    ensures BitAnd(r.addr, mask) == r.Network() >= 0
    ensures BitOr(r.Network(), BitNot(mask)) == r.Broadcast()
  {
    MaskedBounds(r.addr, width, free, 0x1_0000_0000, Size(r.prefix), mask);
  }

  /** What the masked words are: the first and last address of the range. */
  lemma WordsAreBounds(r: Range)
    ensures BitAnd(r.addr, MaskOf(r.prefix)) == r.Network()
    ensures 0 <= r.Network()
    ensures BitOr(r.Network(), BitNot(MaskOf(r.prefix))) == r.Broadcast()
  {
    MaskValue(r.prefix);
    Pow2Of32();
    MaskedRange(r, 32, 32 - r.prefix, MaskOf(r.prefix));
  }

  /** compare_cidr: the sign of the stored entry against the text; a text that does not
      parse is reported as equal. */
  function CompareCidr(a: Address, aMask: Address, text: Option<Range>): int
  {
    match text
    case None => 0
    case Some(cidr) =>
      var cidrMask := MaskOf(cidr.prefix);
      var aNetwork := BitAnd(a, aMask);
      var aBroadcast := BitOr(aNetwork, BitNot(aMask));
      var cidrNetwork := BitAnd(cidr.addr, cidrMask);
      var cidrEnd := BitOr(cidrNetwork, BitNot(cidrMask));
      if cidrNetwork >= aNetwork && cidrEnd <= aBroadcast then 0
      else if aNetwork > cidrNetwork then 1
      else if aNetwork < cidrNetwork then -1
      else 0
  }
}
