/** One move of the block search, for any used networks, in numbers of blocks. */
module NetSearchStep {
  import opened Wrappers
  import opened Cidr
  import opened NetSearch
  import opened NetSearchFacts

  ghost predicate Free(net: Net, used: seq<Net>)
    requires net.plen <= 32 && Blocks(used)
  {
    forall u :: u in used ==> !Overlap(net, u)
  }

  /** Block number `k` among the blocks of the requested length. */
  function Block(k: nat, plen: nat): Net
    requires plen <= 32
  {
    Net(k * Pow2(32 - plen), plen)
  }

  lemma BlockNumber(k: nat, plen: nat)
    requires plen <= 32
    ensures Block(k, plen).Index() == k && Truncated(Block(k, plen)) == Block(k, plen)
  {
    DivUnique(k * Pow2(32 - plen), Pow2(32 - plen), k, 0);
  }

  /** Host bits do not matter for conflicts. */
  lemma SameBlockSameFreedom(a: Net, b: Net, used: seq<Net>)
    requires a.plen == b.plen <= 32 && a.Index() == b.Index() && Blocks(used)
    ensures Free(a, used) <==> Free(b, used)
  {
    assert forall ip: nat :: a.Has(ip) <==> b.Has(ip);
  }

  // ----- numbers around a circle

  /** Distance from `origin` to `j`, upwards and around. */
  function Distance(count: nat, origin: nat, j: nat): int {
    if j >= origin then j - origin else j - origin + count
  }

  /** Going from `k` on to `to`, or all the way round to the origin, one passes `j`. */
  predicate Passed(count: nat, origin: nat, k: nat, to: nat, j: nat) {
    && Distance(count, origin, k) <= Distance(count, origin, j)
    && (to == origin || Distance(count, origin, j) < Distance(count, origin, to))
  }

  /** The next multiple of `d` above `k` inside a range, or the start of the range. */
  function Jump(first: nat, count: nat, k: nat, d: nat): nat
    requires d > 0
  {
    var next := (k / d + 1) * d;
    if next < first + count then next else first
  }

  lemma JumpAround(first: nat, count: nat, origin: nat, k: nat, low: nat, next: nat)
    requires first <= low <= k < next <= first + count && first <= origin < first + count
    requires !(low < origin < next)
    ensures var to := if next < first + count then next else first;
      && first <= to < first + count
      && (to == origin || Distance(count, origin, k) < Distance(count, origin, to))
      && (forall j: nat :: first <= j < first + count && Passed(count, origin, k, to, j) ==> low <= j < next)
  {}

  /**
    A jump over blocks of `d` never steps over the origin, unless it started
    inside a block that straddles it; what lies between is in one such block.
   */
  lemma JumpFacts(f: nat, n: nat, origin: nat, k: nat, d: nat)
    requires d > 0 && f * d <= k < f * d + n * d && f * d <= origin < f * d + n * d
    requires origin / d == k / d ==> origin == origin / d * d
    ensures var first, count, to := f * d, n * d, Jump(f * d, n * d, k, d);
      && first <= to < first + count && to == to / d * d
      && (to == origin || Distance(count, origin, k) < Distance(count, origin, to))
      && (forall j: nat :: first <= j < first + count && Passed(count, origin, k, to, j) ==> j / d == k / d)
  {
    var q := k / d;
    var low, next := q * d, (q + 1) * d;
    InBlock(k, d, q);
    InBlock(origin, d, q);
    Distribute(q, 1, d);
    Distribute(f, n, d);
    Between(f, n, q, d, k);
    JumpAround(f * d, n * d, origin, k, low, next);
    DivUnique(next, d, q + 1, 0);
    DivUnique(f * d, d, f, 0);
    forall j: nat ensures low <= j < next ==> j / d == q {
      InBlock(j, d, q);
    }
  }

  lemma Between(f: nat, n: nat, q: nat, d: nat, k: nat)
    requires d > 0 && f * d <= k < (f + n) * d && q * d <= k < (q + 1) * d
    ensures f * d <= q * d && (q + 1) * d <= (f + n) * d
  {
    if f > q { ProductGap(f, q, d); Distribute(q, 1, d); }
    if q + 1 > f + n { ProductGap(q + 1, f + n, d); Distribute(q, 1, d); }
    ScaledOrder(f, q, d, 0);
    ScaledOrder(q + 1, f + n, d, 0);
  }

  lemma CyclicIsJump(f: nat, n: nat, i: nat, d: nat, k: nat)
    requires d > 0 && i == k / d
    ensures Cyclic(f, n, i) * d == Jump(f * d, n * d, k, d)
  {
    Distribute(f, n, d);
    ScaledOrder(i + 1, f + n, d, 0);
    ScaledOrder(f + n, i + 1, d, 0);
  }

  // ----- the move in block numbers

  lemma NetworkOfBlocks(net: Net, plen: nat, wide: nat)
    requires net.plen <= wide <= plen <= 32
    ensures FirstOf(net, plen) == FirstOf(net, wide) * Pow2(plen - wide)
    ensures Pow2(plen - net.plen) == Pow2(wide - net.plen) * Pow2(plen - wide)
    ensures Pow2(32 - wide) == Pow2(32 - plen) * Pow2(plen - wide)
  {
    hide Pow2, Net.Index;
    Pow2Add(wide - net.plen, plen - wide);
    Pow2Add(plen - wide, wide - net.plen);
    Pow2Add(32 - plen, plen - wide);
    Reassociate(net.Index(), Pow2(wide - net.plen), Pow2(plen - wide));
  }

  /** The next sibling of a candidate, cut down to the requested length. */
  lemma NextBlock(supernet: Net, conflictLen: nat, candidate: Net) returns (next: Net)
    requires supernet.plen < conflictLen <= candidate.plen <= 32 && Within(candidate.addr, supernet)
    ensures NextSibling(Subnets(supernet, conflictLen), candidate) == Some(next)
    ensures Net(next.Network(), candidate.plen) ==
            Block(Jump(FirstOf(supernet, candidate.plen), Pow2(candidate.plen - supernet.plen), candidate.Index(), Pow2(candidate.plen - conflictLen)), candidate.plen)
  {
    hide Pow2, NextSibling, Subnets, Within, FirstOf, Jump, Cyclic;
    var p := candidate.plen;
    var f, n, i := FirstOf(supernet, conflictLen), Pow2(conflictLen - supernet.plen), Net(candidate.addr, conflictLen).Index();
    var to := Cyclic(f, n, i);
    NextSiblingIsCyclic(supernet, conflictLen, candidate);
    next := Block(to, conflictLen);
    BlockNumber(to, conflictLen);
    NetworkOfBlocks(supernet, p, conflictLen);
    IndexOfWider(candidate.addr, conflictLen, p);
    CyclicIsJump(f, n, i, Pow2(p - conflictLen), candidate.Index());
    Reassociate(to, Pow2(p - conflictLen), Pow2(32 - p));
  }

  /** The inner loop, unrolled once. */
  lemma AdvanceUnrolled(base: Net, candidate: Net, conflictLen: nat, supernet: Net) returns (to: nat)
    requires supernet.plen < conflictLen <= base.plen == candidate.plen <= 32 && Within(candidate.addr, supernet)
    ensures to == Jump(FirstOf(supernet, base.plen), Pow2(base.plen - supernet.plen), candidate.Index(), Pow2(base.plen - conflictLen))
    ensures Advance(base, candidate, conflictLen, supernet) ==
            if Block(to, base.plen) != base then Searching(Block(to, base.plen), supernet.plen)
            else if supernet.plen > MIN_SUPERNET_LEN then Advance(base, base, conflictLen, Supernet(supernet))
            else Failed(Exhausted)
  {
    hide Pow2, NextSibling, Subnets, Supernet, Within, FirstOf, Jump, Block;
    var next := NextBlock(supernet, conflictLen, candidate);
    to := Jump(FirstOf(supernet, base.plen), Pow2(base.plen - supernet.plen), candidate.Index(), Pow2(base.plen - conflictLen));
  }

  // ----- what a conflicting candidate aggregates to

  function Aggregate(candidate: Net, used: seq<Net>): Net
    requires candidate.plen <= 32 && Blocks(used)
  {
    Widest(candidate, Conflicts(candidate, used))
  }

  lemma AggregateFacts(candidate: Net, used: seq<Net>)
    requires candidate.plen <= 32 && Blocks(used)
    ensures var w := Aggregate(candidate, used);
      && w.plen <= candidate.plen && w == Truncated(w) && Within(candidate.addr, w)
      && (w.plen == candidate.plen || exists u :: u in used && u.plen == w.plen && u.Index() == w.Index())
    ensures forall u :: u in used && Overlap(candidate, u) ==> Aggregate(candidate, used).plen <= u.plen
    ensures Free(candidate, used) <==> Conflicts(candidate, used) == []
  {
    hide Pow2, Widest, Conflicts, Overlap, Nested, Net.Index, Net.Network, Truncated, Within;
    var conflicting := Conflicts(candidate, used);
    var w := Widest(candidate, conflicting);
    WidestHolds(candidate, conflicting);
    forall u | u in used ensures Overlap(candidate, u) <==> u in conflicting {
      NestedIffOverlap(candidate, u);
    }
    if conflicting != [] { assert conflicting[0] in conflicting; }
    if w != Truncated(candidate) {
      var u :| u in conflicting && w == Truncated(u);
      SameBlock(u);
    } else {
      SameBlock(candidate);
    }
  }

  /** Every requested-size block inside the aggregate of a taken candidate is taken. */
  lemma TakenInside(candidate: Net, used: seq<Net>, k: nat)
    requires candidate.plen <= 32 && Blocks(used) && !Free(candidate, used)
    requires Within(Block(k, candidate.plen).addr, Aggregate(candidate, used))
    ensures !Free(Block(k, candidate.plen), used)
  {
    hide Pow2, Aggregate;
    var block, w := Block(k, candidate.plen), Aggregate(candidate, used);
    AggregateFacts(candidate, used);
    if w.plen == candidate.plen {
      SameBlockSameFreedom(block, candidate, used);
    } else {
      var u :| u in used && u.plen == w.plen && u.Index() == w.Index();
      HasIffIndex(u, block.addr);
      HasOwnAddress(block);
      assert Overlap(block, u);
    }
  }

  /** A candidate inside another one's aggregate aggregates at least as widely. */
  lemma AggregatesAtLeast(inner: Net, outer: Net, used: seq<Net>)
    requires inner.plen == outer.plen <= 32 && Blocks(used) && Within(inner.addr, Aggregate(outer, used))
    ensures Aggregate(inner, used).plen <= Aggregate(outer, used).plen
  {
    hide Pow2, Aggregate;
    var w := Aggregate(outer, used);
    AggregateFacts(outer, used);
    AggregateFacts(inner, used);
    if w.plen < outer.plen {
      var u :| u in used && u.plen == w.plen && u.Index() == w.Index();
      HasIffIndex(u, inner.addr);
      HasOwnAddress(inner);
      assert Overlap(inner, u);
    }
  }
}
