/** IPv4 blocks as (address, prefix length) pairs over powers of two. */
module Cidr {
  function Pow2(n: nat): (r: nat)
    ensures r > 0
  {
    if n == 0 then 1 else 2 * Pow2(n - 1)
  }

  function Quot(x: nat, d: nat): nat
    requires d > 0
  {
    x / d
  }

  /** The address may carry host bits, as in `172.27.1.0/12`. */
  datatype Net = Net(addr: nat, plen: nat) {
    ghost predicate Valid() { plen <= 32 && addr < 0x1_0000_0000 }

    function Size(): (r: nat)
      requires plen <= 32
      ensures r > 0
    {
      Pow2(32 - plen)
    }

    /** Number of the block among all blocks of its size. */
    function Index(): nat
      requires plen <= 32
    {
      Quot(addr, Size())
    }

    function Network(): nat
      requires plen <= 32
    {
      Index() * Size()
    }

    function Broadcast(): nat
      requires plen <= 32
    {
      Network() + Size() - 1
    }

    predicate Contains(other: Net)
      requires plen <= 32 && other.plen <= 32
    {
      Network() <= other.Network() && other.Broadcast() <= Broadcast()
    }

    /** An address belongs to the block. */
    ghost predicate Has(ip: nat)
      requires plen <= 32
    {
      Network() <= ip <= Broadcast()
    }
  }

  /** Derived order of the pair: address first, prefix length second. */
  predicate Less(a: Net, b: Net) {
    a.addr < b.addr || (a.addr == b.addr && a.plen < b.plen)
  }

  predicate Nested(a: Net, b: Net)
    requires a.plen <= 32 && b.plen <= 32
  {
    a.Contains(b) || b.Contains(a)
  }

  ghost predicate Overlap(a: Net, b: Net)
    requires a.plen <= 32 && b.plen <= 32
  {
    exists ip: nat :: a.Has(ip) && b.Has(ip)
  }

  // ----- powers of two and division

  lemma {:induction false} Pow2Add(a: nat, b: nat)
    ensures Pow2(a + b) == Pow2(a) * Pow2(b)
  {
    if a > 0 {
      Pow2Add(a - 1, b);
      assert 2 * Pow2(a - 1) * Pow2(b) == 2 * (Pow2(a - 1) * Pow2(b));
    }
  }

  lemma DivUnique(x: nat, d: nat, q: nat, r: nat)
    requires d > 0 && x == q * d + r && r < d
    ensures x / d == q && x % d == r
  {
    QuotientFixed(d, q, r, x / d, x % d);
  }

  lemma QuotientFixed(d: nat, q: int, r: nat, q': int, r': nat)
    requires r < d && r' < d && q * d + r == q' * d + r'
    ensures q == q' && r == r'
  {
    if q > q' {
      ProductGap(q, q', d);
    } else if q < q' {
      ProductGap(q', q, d);
    }
  }

  lemma ProductGap(p: int, q: int, d: nat)
    requires p > q
    ensures p * d >= q * d + d
  {
    var k := p - q - 1;
    assert p * d == (q + 1 + k) * d == q * d + d + k * d;
  }

  lemma Distribute(a: int, b: int, c: int)
    ensures (a + b) * c == a * c + b * c
  {}

  lemma Reassociate(a: nat, b: nat, c: nat)
    ensures a * b * c == a * (c * b)
  {}

  lemma Regroup(b: nat, m: nat, q: nat, r: nat, low: nat)
    requires r < m && low < b
    ensures (q * m + r) * b + low == q * (b * m) + (r * b + low)
    ensures r * b + low < b * m
  {
    Distribute(q * m, r, b);
    Reassociate(q, m, b);
    ProductGap(m, r, b);
  }

  lemma DivMod(x: nat, d: nat)
    requires d > 0
    ensures x == x / d * d + x % d
  {}

  lemma DivDiv(x: nat, b: nat, m: nat)
    requires b > 0 && m > 0
    ensures b * m > 0 && x / (b * m) == (x / b) / m
  {
    DivMod(x, b);
    DivMod(x / b, m);
    Regroup(b, m, x / b / m, x / b % m, x % b);
    Quotient(x, b, m, x / b, x / b / m, x / b % m, x % b);
  }

  lemma Quotient(x: nat, b: nat, m: nat, outer: nat, q: nat, r: nat, low: nat)
    requires x == outer * b + low && outer == q * m + r
    requires (q * m + r) * b + low == q * (b * m) + (r * b + low) && r * b + low < b * m
    ensures b * m > 0 && x / (b * m) == q
  {
    DivUnique(x, b * m, q, r * b + low);
  }

  /** Membership is equality of block numbers. */
  lemma HasIffIndex(n: Net, ip: nat)
    requires n.plen <= 32
    ensures n.Has(ip) <==> ip / n.Size() == n.Index()
  {
    hide Pow2;
    InBlock(ip, n.Size(), n.Index());
  }

  lemma InBlock(ip: nat, d: nat, k: nat)
    requires d > 0
    ensures k * d <= ip <= k * d + d - 1 <==> ip / d == k
  {
    DivMod(ip, d);
    if k * d <= ip <= k * d + d - 1 {
      DivUnique(ip, d, k, ip - k * d);
    }
  }

  /** The number of the enclosing block of a shorter prefix. */
  lemma IndexOfWider(addr: nat, wide: nat, narrow: nat)
    requires wide <= narrow <= 32
    ensures Net(addr, wide).Size() == Net(addr, narrow).Size() * Pow2(narrow - wide)
    ensures Net(addr, wide).Index() == Net(addr, narrow).Index() / Pow2(narrow - wide)
  {
    Pow2Add(32 - narrow, narrow - wide);
    DivDiv(addr, Net(addr, narrow).Size(), Pow2(narrow - wide));
  }

  lemma HasOwnAddress(n: Net)
    requires n.plen <= 32
    ensures n.Has(n.addr) && n.Has(n.Network()) && n.Has(n.Broadcast())
  {
    HasIffIndex(n, n.addr);
  }

  /** Blocks that share an address are nested, the longer prefix inside. */
  lemma SharedAddressNests(a: Net, b: Net, ip: nat)
    requires a.plen <= b.plen <= 32 && a.Has(ip) && b.Has(ip)
    ensures a.Contains(b)
  {
    HasIffIndex(a, ip);
    HasIffIndex(b, ip);
    IndexOfWider(ip, a.plen, b.plen);
    HasOwnAddress(b);
    forall x: nat | b.Has(x) ensures a.Has(x) {
      HasIffIndex(b, x);
      IndexOfWider(x, a.plen, b.plen);
      HasIffIndex(a, x);
    }
  }

  /** The code's conflict test is exactly "the two blocks share an address". */
  lemma NestedIffOverlap(a: Net, b: Net)
    requires a.plen <= 32 && b.plen <= 32
    ensures Nested(a, b) <==> Overlap(a, b)
  {
    if Nested(a, b) {
      HasOwnAddress(a);
      HasOwnAddress(b);
      assert a.Has(b.addr) || b.Has(a.addr);
    }
    if Overlap(a, b) {
      var ip: nat :| a.Has(ip) && b.Has(ip);
      if a.plen <= b.plen {
        SharedAddressNests(a, b, ip);
      } else {
        SharedAddressNests(b, a, ip);
      }
    }
  }
}
