/** What every run of the block search guarantees, whatever the used networks are. */
module NetSearchFacts {
  import opened Wrappers
  import opened Basics
  import opened Cidr
  import opened NetSearch

  /** The address lies in the block. */
  ghost predicate Within(addr: nat, block: Net)
    requires block.plen <= 32
  {
    addr / block.Size() == block.Index()
  }

  lemma TruncatedKeepsIndex(n: Net)
    requires n.plen <= 32
    ensures Truncated(n).Index() == n.Index() && Truncated(n).Network() == n.Network()
  {
    DivUnique(n.Network(), n.Size(), n.Index(), 0);
  }

  /** The widest block contains every block it was chosen from. */
  lemma WidestContains(candidate: Net, nets: seq<Net>, n: Net)
    requires candidate.plen <= 32 && Blocks(nets) && (n in nets || n == candidate)
    requires forall n :: n in nets ==> Nested(candidate, n)
    ensures Widest(candidate, nets).Contains(n)
  {
    hide Net.Index, Net.Network, Net.Size, Pow2, Widest, Truncated, Net.Has;
    var w := Widest(candidate, nets);
    var m := candidate;
    if w != Truncated(candidate) {
      m :| m in nets && w == Truncated(m);
    }
    SameBlock(m);
    WiderContains(m, candidate);
    if n.plen >= candidate.plen {
      WiderContains(candidate, n);
      ContainsTransitive(m, candidate, n);
    } else {
      WiderContains(n, candidate);
      HasOwnAddress(candidate);
      ContainsHas(n, candidate, candidate.addr);
      ContainsHas(m, candidate, candidate.addr);
      SharedAddressNests(m, n, candidate.addr);
    }
    ContainsSame(w, m, n);
  }

  lemma SameBlock(m: Net)
    requires m.plen <= 32
    ensures Truncated(m).plen == m.plen && Truncated(m).Index() == m.Index()
  {
    TruncatedKeepsIndex(m);
  }

  lemma ContainsSame(w: Net, m: Net, n: Net)
    requires w.plen == m.plen <= n.plen <= 32 && w.Index() == m.Index() && m.Contains(n)
    ensures w.Contains(n)
  {}

  lemma ContainsHas(a: Net, b: Net, ip: nat)
    requires a.plen <= 32 && b.plen <= 32 && a.Contains(b) && b.Has(ip)
    ensures a.Has(ip)
  {}

  lemma ContainsTransitive(a: Net, b: Net, c: Net)
    requires a.plen <= b.plen <= c.plen <= 32 && a.Contains(b) && b.Contains(c)
    ensures a.Contains(c)
  {}

  /**
    Aggregating a candidate with blocks nested with it yields one block that
    covers exactly the same addresses.
   */
  lemma AggregateIsUnion(candidate: Net, nets: seq<Net>, ip: nat)
    requires candidate.plen <= 32 && Blocks(nets)
    requires forall n :: n in nets ==> Nested(candidate, n)
    ensures Widest(candidate, nets).Has(ip) <==> candidate.Has(ip) || exists n :: n in nets && n.Has(ip)
  {
    hide Net.Index, Net.Network, Net.Size, Net.Has, Net.Contains, Pow2, Widest, Truncated;
    var w := Widest(candidate, nets);
    if w.Has(ip) {
      var m := candidate;
      if w != Truncated(candidate) {
        m :| m in nets && w == Truncated(m);
      }
      SameHas(m, ip);
    } else {
      forall n | n in nets || n == candidate ensures !n.Has(ip) {
        WidestContains(candidate, nets, n);
        if n.Has(ip) { ContainsHas(w, n, ip); }
      }
    }
  }

  lemma SameHas(m: Net, ip: nat)
    requires m.plen <= 32
    ensures Truncated(m).Has(ip) <==> m.Has(ip)
  {
    TruncatedKeepsIndex(m);
  }

  /** Of two nested blocks the shorter prefix is the outer one. */
  lemma WiderContains(a: Net, b: Net)
    requires a.plen <= b.plen <= 32 && Nested(a, b)
    ensures a.Contains(b)
  {
    NestedIffOverlap(a, b);
    var ip: nat :| a.Has(ip) && b.Has(ip);
    SharedAddressNests(a, b, ip);
  }

  // ----- the next sibling in closed form

  lemma {:induction false} FirstAfterAt(siblings: seq<Net>, candidate: Net, k: nat)
    requires k <= |siblings|
    requires forall j :: 0 <= j < k ==> !Less(candidate, siblings[j])
    requires k < |siblings| ==> Less(candidate, siblings[k])
    ensures FirstAfter(siblings, candidate) == if k < |siblings| then Some(siblings[k]) else None
  {
    if k > 0 {
      FirstAfterAt(siblings[1..], candidate, k - 1);
    }
  }

  lemma ScaledOrder(i: nat, j: nat, d: nat, r: nat)
    requires d > 0 && r < d
    ensures j > i ==> j * d > i * d + r
    ensures j <= i ==> j * d <= i * d
  {
    if j > i {
      ProductGap(j, i, d);
    } else if j < i {
      ProductGap(i, j, d);
    }
  }

  /** Number of the block after `i` among the `count` blocks from `first`, cyclically. */
  function Cyclic(first: nat, count: nat, i: nat): nat {
    if i + 1 < first + count then i + 1 else first
  }

  /** First sub-block number of a network. */
  function FirstOf(net: Net, plen: nat): nat
    requires net.plen <= plen <= 32
  {
    net.Index() * Pow2(plen - net.plen)
  }

  lemma QuotientRange(i: nat, n: nat, q: nat)
    requires n > 0
    ensures i / n == q <==> q * n <= i < q * n + n
  {
    if q * n <= i < q * n + n {
      DivUnique(i, n, q, i - q * n);
    }
  }

  /** An address is in a network iff its sub-block number is in the network's range. */
  lemma WithinIffRange(addr: nat, net: Net, plen: nat)
    requires net.plen <= plen <= 32
    ensures net.Network() == FirstOf(net, plen) * Pow2(32 - plen)
    ensures Within(addr, net) <==> FirstOf(net, plen) <= addr / Pow2(32 - plen) < FirstOf(net, plen) + Pow2(plen - net.plen)
  {
    hide Pow2;
    IndexOfWider(addr, net.plen, plen);
    Reassociate(net.Index(), Pow2(32 - plen), Pow2(plen - net.plen));
    QuotientRange(addr / Pow2(32 - plen), Pow2(plen - net.plen), net.Index());
  }

  lemma NextOfBlocks(siblings: seq<Net>, candidate: Net, plen: nat, s: nat, f: nat, n: nat, i: nat)
    requires s > 0 && 2 <= n == |siblings| && f <= i < f + n && plen <= candidate.plen
    requires forall j: nat :: j < n ==> siblings[j] == Net((f + j) * s, plen)
    requires i * s <= candidate.addr < i * s + s
    ensures NextSibling(siblings, candidate) == Some(Net(Cyclic(f, n, i) * s, plen))
  {
    forall j: nat | j < n ensures Less(candidate, siblings[j]) <==> f + j > i {
      ScaledOrder(i, f + j, s, candidate.addr - i * s);
    }
    FirstAfterAt(siblings, candidate, i + 1 - f);
    if i + 1 == f + n {
      ProductGap(i, f, s);
      assert siblings[0] == Net((f + 0) * s, plen);
    } else {
      assert siblings[i + 1 - f] == Net((f + (i + 1 - f)) * s, plen);
    }
  }

  lemma NextSiblingIsCyclic(supernet: Net, plen: nat, candidate: Net)
    requires supernet.plen < plen <= candidate.plen <= 32 && Within(candidate.addr, supernet)
    ensures NextSibling(Subnets(supernet, plen), candidate) ==
            Some(Net(Cyclic(FirstOf(supernet, plen), Pow2(plen - supernet.plen), Net(candidate.addr, plen).Index()) * Pow2(32 - plen), plen))
  {
    var s, n, i, f := Pow2(32 - plen), Pow2(plen - supernet.plen), candidate.addr / Pow2(32 - plen), FirstOf(supernet, plen);
    assert n == 2 * Pow2(plen - supernet.plen - 1);
    hide Pow2, NextSibling, FirstOf;
    var siblings := Subnets(supernet, plen);
    WithinIffRange(candidate.addr, supernet, plen);
    forall j: nat | j < n ensures siblings[j] == Net((f + j) * s, plen) {
      Distribute(f, j, s);
    }
    QuotientRange(candidate.addr, s, i);
    NextOfBlocks(siblings, candidate, plen, s, f, n, i);
  }

  /** A multiple of the block size that numbers a sub-block lies in the network. */
  lemma SubBlockWithin(net: Net, plen: nat, k: nat)
    requires net.plen <= plen <= 32 && FirstOf(net, plen) <= k < FirstOf(net, plen) + Pow2(plen - net.plen)
    ensures Within(k * Pow2(32 - plen), net) && k * Pow2(32 - plen) / Pow2(32 - plen) == k
  {
    DivUnique(k * Pow2(32 - plen), Pow2(32 - plen), k, 0);
    WithinIffRange(k * Pow2(32 - plen), net, plen);
  }

  lemma WithinSupernet(addr: nat, net: Net)
    requires 0 < net.plen <= 32 && Within(addr, net)
    ensures Within(addr, Supernet(net))
  {
    IndexOfWider(addr, net.plen - 1, net.plen);
    IndexOfWider(net.addr, net.plen - 1, net.plen);
    TruncatedKeepsIndex(Net(net.addr, net.plen - 1));
  }

  lemma WithinIsValid(addr: nat, net: Net)
    requires net.Valid() && Within(addr, net)
    ensures addr < 0x1_0000_0000
  {
    IndexOfWider(addr, 0, net.plen);
    IndexOfWider(net.addr, 0, net.plen);
    FullSize();
    DivUnique(net.addr, 0x1_0000_0000, 0, net.addr);
    assert addr == addr / 0x1_0000_0000 * 0x1_0000_0000 + addr % 0x1_0000_0000;
  }

  lemma FullSize()
    ensures Pow2(32) == 0x1_0000_0000
  {
    Pow2Add(16, 16);
    Pow2Add(8, 8);
    assert Pow2(8) == 256;
  }

  lemma {:induction false} AdvanceFacts(base: Net, candidate: Net, plen: nat, supernet: Net)
    requires supernet.plen < plen <= base.plen <= 32 && candidate.plen == base.plen
    requires supernet.Valid() && Within(candidate.addr, supernet)
    ensures var r := Advance(base, candidate, plen, supernet);
            r == Failed(Exhausted) ||
              (r.Searching? && r.candidate.Valid() && r.searchLen <= supernet.plen && Within(r.candidate.addr, Net(supernet.addr, r.searchLen)))
    decreases supernet.plen
  {
    NextSiblingIsCyclic(supernet, plen, candidate);
    WithinIffRange(candidate.addr, supernet, plen);
    var k := Cyclic(FirstOf(supernet, plen), Pow2(plen - supernet.plen), candidate.addr / Pow2(32 - plen));
    SubBlockWithin(supernet, plen, k);
    var next := Net(k * Pow2(32 - plen), base.plen);
    assert Net(k * Pow2(32 - plen), plen).Network() == k * Pow2(32 - plen);
    WithinIsValid(next.addr, supernet);
    if next == base && supernet.plen > MIN_SUPERNET_LEN {
      WithinSupernet(next.addr, supernet);
      HasOwnAddress(Net(supernet.addr, supernet.plen - 1));
      AdvanceFacts(base, next, plen, Supernet(supernet));
      var r := Advance(base, next, plen, Supernet(supernet));
      if r.Searching? {
        TruncatedStaysWithin(r.candidate.addr, Net(supernet.addr, supernet.plen - 1), r.searchLen);
      }
    }
  }

  /** Cutting off host bits does not change the wider blocks around an address. */
  lemma TruncatedStaysWithin(addr: nat, net: Net, len: nat)
    requires len <= net.plen <= 32 && Within(addr, Net(Truncated(net).addr, len))
    ensures Within(addr, Net(net.addr, len))
  {
    TruncatedKeepsIndex(net);
    IndexOfWider(net.addr, len, net.plen);
    IndexOfWider(net.Network(), len, net.plen);
  }

  lemma RoundFacts(base: Net, used: seq<Net>, candidate: Net, searchLen: nat)
    requires 0 < base.plen == candidate.plen <= 32 && candidate.Valid() && Blocks(used)
    ensures var r := Round(base, used, candidate, searchLen);
      && (r.Chosen? ==> r.net == candidate && forall u :: u in used ==> !Overlap(candidate, u))
      && (r.Searching? ==> r.candidate.Valid() && r.candidate.plen == base.plen)
      && (r.Searching? ==> r.searchLen <= searchLen && r.searchLen <= 32 && Within(r.candidate.addr, Net(candidate.addr, r.searchLen)))
      && (r.Failed? ==> r.error == Exhausted || (r.error == Underflow && exists u :: u in used && u.plen == 0))
  {
    hide Pow2, Conflicts, Widest, Advance, Overlap, Nested, Within;
    var conflicting := Conflicts(candidate, used);
    if conflicting == [] {
      forall u | u in used ensures !Overlap(candidate, u) {
        NestedIffOverlap(candidate, u);
        assert Nested(candidate, u) ==> u in conflicting;
      }
    } else {
      var w := Widest(candidate, conflicting);
      WidestHolds(candidate, conflicting);
      if w.plen > 0 {
        var len := Min(searchLen, w.plen - 1);
        WithinWider(candidate.addr, w, len);
        AdvanceFacts(base, candidate, w.plen, Net(w.Network(), len));
        var r := Advance(base, candidate, w.plen, Net(w.Network(), len));
        if r.Searching? {
          SameSurroundings(candidate.addr, w, r.candidate.addr, r.searchLen);
        }
      }
    }
  }

  lemma SameSurroundings(inside: nat, net: Net, other: nat, len: nat)
    requires len <= net.plen <= 32 && Within(inside, net) && Within(other, Net(net.Network(), len))
    ensures Within(other, Net(inside, len))
  {
    TruncatedStaysWithin(other, net, len);
    IndexOfWider(inside, len, net.plen);
    IndexOfWider(net.addr, len, net.plen);
  }

  lemma WithinWider(addr: nat, net: Net, len: nat)
    requires len <= net.plen <= 32 && Within(addr, net)
    ensures Within(addr, Net(net.addr, len))
  {
    IndexOfWider(addr, len, net.plen);
    IndexOfWider(net.addr, len, net.plen);
  }

  lemma WidestHolds(candidate: Net, nets: seq<Net>)
    requires candidate.plen <= 32 && Blocks(nets)
    requires forall n :: n in nets ==> Nested(candidate, n)
    ensures var w := Widest(candidate, nets); w == Truncated(w) && Within(candidate.addr, w) && (candidate.Valid() ==> w.Valid())
    ensures Widest(candidate, nets).plen == 0 ==> candidate.plen == 0 || exists n :: n in nets && n.plen == 0
  {
    var w := Widest(candidate, nets);
    HasOwnAddress(candidate);
    AggregateIsUnion(candidate, nets, candidate.addr);
    HasIffIndex(w, candidate.addr);
    if w == Truncated(candidate) {
      TruncatedKeepsIndex(candidate);
    } else {
      var n :| n in nets && w == Truncated(n);
      TruncatedKeepsIndex(n);
      HasOwnAddress(n);
    }
  }

  /**
    Whatever was used and however many rounds it took: a chosen block has the
    requested length and shares no address with any used network; the only
    errors are an exhausted search and a default route among the used networks.
   */
  lemma {:induction false} IterateFacts(base: Net, used: seq<Net>, s: Search, rounds: nat)
    requires 0 < base.plen <= 32 && Blocks(used)
    requires s.Searching? && s.candidate.Valid() && s.candidate.plen == base.plen
    ensures var r := Iterate(base, used, s, rounds);
      && (r.Chosen? ==> r.net.Valid() && r.net.plen == base.plen && forall u :: u in used ==> !Overlap(r.net, u))
      && (r.Failed? ==> r.error == Exhausted || (r.error == Underflow && exists u :: u in used && u.plen == 0))
    decreases rounds
  {
    hide Round;
    if rounds > 0 {
      RoundFacts(base, used, s.candidate, s.searchLen);
      var next := Round(base, used, s.candidate, s.searchLen);
      if next.Searching? {
        IterateFacts(base, used, next, rounds - 1);
      }
    }
  }

  lemma PickIsSound(prefixLen: nat, used: seq<Net>, pool: Net, rounds: nat)
    requires Blocks(used) && pool.Valid()
    ensures var r := Pick(prefixLen, used, pool, rounds);
      && (r == Failed(BadPrefix) <==> prefixLen <= pool.plen || prefixLen > 32)
      && (r.Chosen? ==> r.net.Valid() && r.net.plen == prefixLen && forall u :: u in used ==> !Overlap(r.net, u))
      && r != Failed(NoSibling)
      && (r == Failed(Underflow) ==> exists u :: u in used && u.plen == 0)
  {
    var s := Start(prefixLen, pool);
    if s.Searching? {
      IterateFacts(s.candidate, used, s, rounds);
    }
  }
}
