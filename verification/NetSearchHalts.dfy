/**
  The walk of the block search around the widest block in use at its first
  candidate, the anchor. The anchor decides where the search looks; the search
  is a walk over block numbers that never steps over the anchor's first block.
 */
module NetSearchHalts {
  import opened Basics
  import opened Cidr
  import opened NetSearch
  import opened NetSearchFacts
  import opened NetSearchStep

  /** The widest supernet a search around a block of this length broadens to: a /12, or its parent. */
  function RegionLen(plen: nat): nat
    requires plen > 0
  {
    Min(MIN_SUPERNET_LEN, plen - 1)
  }

  /** An admissible request: the picker does not reject it. */
  ghost predicate Request(prefixLen: nat, used: seq<Net>, pool: Net) {
    pool.Valid() && pool.plen < prefixLen <= 32 && Blocks(used)
  }

  /** The first candidate aggregated with everything in use that overlaps it. */
  function Anchor(prefixLen: nat, used: seq<Net>, pool: Net): Net
    requires prefixLen <= 32 && Blocks(used)
  {
    Aggregate(Net(pool.addr, prefixLen), used)
  }

  function Origin(prefixLen: nat, used: seq<Net>, pool: Net): nat
    requires prefixLen <= 32 && Blocks(used)
  {
    AggregateFacts(Net(pool.addr, prefixLen), used);
    FirstOf(Anchor(prefixLen, used, pool), prefixLen)
  }

  /** Block `k` lies in the supernet of this length around the pool address. */
  ghost predicate Near(k: nat, pool: Net, len: nat, plen: nat)
    requires len <= plen <= 32
  {
    Within(Block(k, plen).addr, Net(pool.addr, len))
  }

  function First(pool: Net, len: nat, plen: nat): nat
    requires len <= plen <= 32
  {
    FirstOf(Net(pool.addr, len), plen)
  }

  lemma NearIffRange(pool: Net, len: nat, plen: nat, k: nat)
    requires len <= plen <= 32
    ensures Near(k, pool, len, plen) <==> First(pool, len, plen) <= k < First(pool, len, plen) + Pow2(plen - len)
  {
    BlockNumber(k, plen);
    WithinIffRange(Block(k, plen).addr, Net(pool.addr, len), plen);
  }

  lemma AnchorFacts(prefixLen: nat, used: seq<Net>, pool: Net)
    requires Request(prefixLen, used, pool)
    ensures var anchor, origin := Anchor(prefixLen, used, pool), Origin(prefixLen, used, pool);
      && anchor.plen <= prefixLen && anchor == Truncated(anchor)
      && anchor.Index() == Net(pool.addr, anchor.plen).Index()
      && anchor.addr == Block(origin, prefixLen).addr
      && origin == anchor.Index() * Pow2(prefixLen - anchor.plen)
      && Net(pool.addr, prefixLen).Index() / Pow2(prefixLen - anchor.plen) == anchor.Index()
  {
    hide Pow2, Aggregate, Net.Index;
    var anchor := Anchor(prefixLen, used, pool);
    AggregateFacts(Net(pool.addr, prefixLen), used);
    WithinIffRange(pool.addr, anchor, prefixLen);
    IndexOfWider(pool.addr, anchor.plen, prefixLen);
    WithinIsIndex(pool.addr, anchor);
  }

  lemma WithinIsIndex(addr: nat, net: Net)
    requires net.plen <= 32
    ensures Within(addr, net) <==> Net(addr, net.plen).Index() == net.Index()
  {}

  lemma OriginIsNear(prefixLen: nat, used: seq<Net>, pool: Net, len: nat)
    requires Request(prefixLen, used, pool) && len <= Anchor(prefixLen, used, pool).plen
    ensures len <= prefixLen && Near(Origin(prefixLen, used, pool), pool, len, prefixLen)
  {
    hide Pow2, Aggregate, Net.Index, Within, Anchor, Origin;
    var anchor := Anchor(prefixLen, used, pool);
    AnchorFacts(prefixLen, used, pool);
    WithinIsIndex(anchor.addr, anchor);
    WithinIsIndex(anchor.addr, Net(pool.addr, anchor.plen));
    WithinWider(anchor.addr, Net(pool.addr, anchor.plen), len);
  }

  /** What a candidate in a supernet below the anchor's aggregates to is smaller than that supernet. */
  lemma AggregateIsSmaller(prefixLen: nat, used: seq<Net>, pool: Net, len: nat, candidate: Net)
    requires Request(prefixLen, used, pool) && len < Anchor(prefixLen, used, pool).plen && candidate.plen == prefixLen
    requires Within(candidate.addr, Net(pool.addr, len))
    ensures len < Aggregate(candidate, used).plen
  {
    hide Pow2, Aggregate, Net.Index, Net.Network, Within, Overlap, Free, Conflicts, Truncated;
    var w := Aggregate(candidate, used);
    AggregateFacts(candidate, used);
    AggregateFacts(Net(pool.addr, prefixLen), used);
    if w.plen <= len {
      WithinWider(candidate.addr, Net(pool.addr, len), w.plen);
      WithinIsIndex(candidate.addr, Net(pool.addr, w.plen));
      WithinIsIndex(candidate.addr, w);
      WithinIsIndex(pool.addr, w);
      AggregatesAtLeast(Net(pool.addr, prefixLen), candidate, used);
    }
  }

  /** An aggregate that reaches the origin starts there or before the anchor was met: it never straddles the origin. */
  lemma NoStraddle(prefixLen: nat, used: seq<Net>, pool: Net, k: nat)
    requires Request(prefixLen, used, pool)
    ensures var origin, w := Origin(prefixLen, used, pool), Aggregate(Block(k, prefixLen), used);
            w.plen <= prefixLen &&
            var d := Pow2(prefixLen - w.plen);
            origin / d == k / d ==> origin == origin / d * d
  {
    hide Pow2, Aggregate, Net.Index, Net.Network, Within, Origin, Overlap, Free, Conflicts, Truncated;
    var origin, anchor, w := Origin(prefixLen, used, pool), Anchor(prefixLen, used, pool), Aggregate(Block(k, prefixLen), used);
    AggregateFacts(Block(k, prefixLen), used);
    AnchorFacts(prefixLen, used, pool);
    var d := Pow2(prefixLen - w.plen);
    if w.plen >= anchor.plen {
      NetworkOfBlocks(anchor, prefixLen, w.plen);
      OriginIs(prefixLen, used, pool);
      DivUnique(origin, d, FirstOf(anchor, w.plen), 0);
    } else if origin / d == k / d {
      WiderMeetsAnchor(prefixLen, used, pool, k);
    }
  }

  lemma OriginIs(prefixLen: nat, used: seq<Net>, pool: Net)
    requires prefixLen <= 32 && Blocks(used)
    ensures Anchor(prefixLen, used, pool).plen <= prefixLen
    ensures Origin(prefixLen, used, pool) == FirstOf(Anchor(prefixLen, used, pool), prefixLen)
  {
    AggregateFacts(Net(pool.addr, prefixLen), used);
  }

  /** An aggregate wider than the anchor does not reach the anchor's first block. */
  lemma WiderMeetsAnchor(prefixLen: nat, used: seq<Net>, pool: Net, k: nat)
    requires Request(prefixLen, used, pool)
    requires Aggregate(Block(k, prefixLen), used).plen < Anchor(prefixLen, used, pool).plen <= prefixLen
    ensures var d := Pow2(prefixLen - Aggregate(Block(k, prefixLen), used).plen);
            Origin(prefixLen, used, pool) / d != k / d
  {
    hide Pow2, Aggregate, Net.Index, Net.Network, Within, Origin, Overlap, Free, Conflicts, Truncated;
    var candidate, origin, anchor := Block(k, prefixLen), Origin(prefixLen, used, pool), Anchor(prefixLen, used, pool);
    var w := Aggregate(candidate, used);
    AggregateFacts(candidate, used);
    AnchorFacts(prefixLen, used, pool);
    BlockNumber(k, prefixLen);
    BlockNumber(origin, prefixLen);
    IndexOfWider(candidate.addr, w.plen, prefixLen);
    IndexOfWider(anchor.addr, w.plen, prefixLen);
    IndexOfWider(anchor.addr, w.plen, anchor.plen);
    IndexOfWider(pool.addr, w.plen, anchor.plen);
    WithinIsIndex(candidate.addr, w);
    WithinIsIndex(pool.addr, w);
    if Within(pool.addr, w) {
      AggregatesAtLeast(Net(pool.addr, prefixLen), candidate, used);
    }
  }

  /** A round on a taken candidate stays in the supernet around the pool and moves on by what it conflicts with. */
  lemma TakenRound(prefixLen: nat, used: seq<Net>, pool: Net, len: nat, candidate: Net) returns (supernet: Net)
    requires Request(prefixLen, used, pool) && candidate.plen == prefixLen && !Free(candidate, used)
    requires var w := Aggregate(candidate, used); 0 < w.plen <= prefixLen && Within(candidate.addr, Net(pool.addr, Min(len, w.plen - 1)))
    ensures var w := Aggregate(candidate, used);
      && supernet.plen == Min(len, w.plen - 1) && supernet.Index() == Net(pool.addr, supernet.plen).Index()
      && Within(candidate.addr, supernet)
      && Round(Net(pool.addr, prefixLen), used, candidate, len) == Advance(Net(pool.addr, prefixLen), candidate, w.plen, supernet)
  {
    hide Pow2, Advance, Conflicts, Widest, Net.Index, Within;
    var w := Aggregate(candidate, used);
    AggregateFacts(candidate, used);
    supernet := Net(w.Network(), Min(len, w.plen - 1));
    IndexOfWider(candidate.addr, supernet.plen, w.plen);
    IndexOfWider(w.Network(), supernet.plen, w.plen);
    WithinIsIndex(candidate.addr, w);
    WithinIsIndex(candidate.addr, supernet);
    WithinIsIndex(candidate.addr, Net(pool.addr, supernet.plen));
  }

  lemma FirstIs(pool: Net, supernet: Net, plen: nat)
    requires supernet.plen <= plen <= 32 && supernet.Index() == Net(pool.addr, supernet.plen).Index()
    ensures FirstOf(supernet, plen) == First(pool, supernet.plen, plen)
  {}

  /** How far block `k` is from the anchor's first block, in the supernet of this length. */
  function Gone(prefixLen: nat, used: seq<Net>, pool: Net, len: nat, k: nat): int
    requires len <= prefixLen <= 32 && Blocks(used)
  {
    Distance(Pow2(prefixLen - len), Origin(prefixLen, used, pool), k)
  }

  /** Everything the walk passes on its way from `k` to `to` is taken. */
  ghost predicate AllPassedTaken(prefixLen: nat, used: seq<Net>, pool: Net, len: nat, k: nat, to: nat)
    requires len <= prefixLen <= 32 && Blocks(used)
  {
    forall j: nat :: Near(j, pool, len, prefixLen) && Passed(Pow2(prefixLen - len), Origin(prefixLen, used, pool), k, to, j) ==>
      !Free(Block(j, prefixLen), used)
  }

  /** One move from a taken block, in any supernet smaller than the anchor's parent or equal to it. */
  lemma TakenMove(prefixLen: nat, used: seq<Net>, pool: Net, len: nat, k: nat) returns (to: nat, conflictLen: nat, supernet: Net)
    requires Request(prefixLen, used, pool) && len < Anchor(prefixLen, used, pool).plen <= prefixLen
    requires Near(k, pool, len, prefixLen) && !Free(Block(k, prefixLen), used)
    ensures len < conflictLen <= prefixLen && supernet.plen == len && supernet.Index() == Net(pool.addr, len).Index()
    ensures var d := Pow2(prefixLen - conflictLen); to == to / d * d
    ensures Near(to, pool, len, prefixLen)
    ensures to == Origin(prefixLen, used, pool) || Gone(prefixLen, used, pool, len, k) < Gone(prefixLen, used, pool, len, to)
    ensures AllPassedTaken(prefixLen, used, pool, len, k, to)
    ensures var base := Net(pool.addr, prefixLen);
      Round(base, used, Block(k, prefixLen), len) ==
        if Block(to, prefixLen) != base then Searching(Block(to, prefixLen), len)
        else if len > MIN_SUPERNET_LEN then Advance(base, base, conflictLen, Supernet(supernet))
        else Failed(Exhausted)
  {
    hide Pow2, Aggregate, Net.Index, Advance, Round, Anchor, Origin, Free, Jump, Distance, Passed, First, FirstOf, Supernet;
    var base, candidate, origin := Net(pool.addr, prefixLen), Block(k, prefixLen), Origin(prefixLen, used, pool);
    AggregateIsSmaller(prefixLen, used, pool, len, candidate);
    AggregateFacts(candidate, used);
    BlockNumber(k, prefixLen);
    conflictLen := Aggregate(candidate, used).plen;
    var d := Pow2(prefixLen - conflictLen);
    supernet := TakenRound(prefixLen, used, pool, len, candidate);
    to := AdvanceUnrolled(base, candidate, conflictLen, supernet);
    FirstIs(pool, supernet, prefixLen);
    NetworkOfBlocks(Net(pool.addr, len), prefixLen, conflictLen);
    FirstUnfolds(pool, len, prefixLen);
    NearIffRange(pool, len, prefixLen, k);
    OriginIsNear(prefixLen, used, pool, len);
    NearIffRange(pool, len, prefixLen, origin);
    NoStraddle(prefixLen, used, pool, k);
    JumpFacts(FirstOf(Net(pool.addr, len), conflictLen), Pow2(conflictLen - len), origin, k, d);
    NearIffRange(pool, len, prefixLen, to);
    forall j: nat | Near(j, pool, len, prefixLen) && Passed(Pow2(prefixLen - len), origin, k, to, j)
      ensures !Free(Block(j, prefixLen), used)
    {
      NearIffRange(pool, len, prefixLen, j);
      SharesWider(candidate, Aggregate(candidate, used), k, j);
      TakenInside(candidate, used, j);
    }
  }

  lemma FirstUnfolds(pool: Net, len: nat, plen: nat)
    requires len <= plen <= 32
    ensures First(pool, len, plen) == FirstOf(Net(pool.addr, len), plen)
  {}

  lemma SharesWider(candidate: Net, w: Net, k: nat, j: nat)
    requires w.plen <= candidate.plen <= 32 && candidate == Block(k, candidate.plen) && Within(candidate.addr, w)
    requires j / Pow2(candidate.plen - w.plen) == k / Pow2(candidate.plen - w.plen)
    ensures Within(Block(j, candidate.plen).addr, w)
  {
    hide Pow2, Net.Index, Within;
    var p := candidate.plen;
    BlockNumber(k, p);
    BlockNumber(j, p);
    IndexOfWider(candidate.addr, w.plen, p);
    IndexOfWider(Block(j, p).addr, w.plen, p);
    WithinIsIndex(candidate.addr, w);
    WithinIsIndex(Block(j, p).addr, w);
  }

  lemma SupernetAround(supernet: Net, pool: Net)
    requires 0 < supernet.plen <= 32 && supernet.Index() == Net(pool.addr, supernet.plen).Index()
    ensures Supernet(supernet).plen == supernet.plen - 1
    ensures Supernet(supernet).Index() == Net(pool.addr, supernet.plen - 1).Index()
    ensures Within(pool.addr, Supernet(supernet))
  {
    TruncatedKeepsIndex(Net(supernet.addr, supernet.plen - 1));
    IndexOfWider(supernet.addr, supernet.plen - 1, supernet.plen);
    IndexOfWider(pool.addr, supernet.plen - 1, supernet.plen);
  }

  /** A jump over whole blocks, out of at least two, leaves the block it starts from. */
  lemma JumpLeaves(f: nat, n: nat, k: nat, d: nat)
    requires d > 0 && n >= 2 && f * d <= k < f * d + n * d && k == k / d * d
    ensures Jump(f * d, n * d, k, d) != k
  {
    var q := k / d;
    Distribute(q, 1, d);
    Distribute(f, n, d);
    ProductGap(q + 1, q, d);
    if q == f { ScaledOrder(f + n, q + 1, d, 0); ProductGap(f + n, f + 1, d); }
  }

  /** Back at the origin with a whole supernet taken: the search moves on in the next wider one. */
  lemma BroadenedMove(prefixLen: nat, used: seq<Net>, pool: Net, len: nat, conflictLen: nat, supernet: Net) returns (to: nat)
    requires Request(prefixLen, used, pool) && 0 < len < Anchor(prefixLen, used, pool).plen && len < conflictLen <= prefixLen
    requires Net(pool.addr, prefixLen) == Block(Origin(prefixLen, used, pool), prefixLen)
    requires var d := Pow2(prefixLen - conflictLen); Origin(prefixLen, used, pool) == Origin(prefixLen, used, pool) / d * d
    requires supernet.plen == len && supernet.Index() == Net(pool.addr, len).Index()
    requires forall j: nat :: Near(j, pool, len, prefixLen) ==> !Free(Block(j, prefixLen), used)
    ensures var base := Net(pool.addr, prefixLen);
            Advance(base, base, conflictLen, Supernet(supernet)) == Searching(Block(to, prefixLen), len - 1)
    ensures Near(to, pool, len - 1, prefixLen)
    ensures AllPassedTaken(prefixLen, used, pool, len - 1, Origin(prefixLen, used, pool), to)
    ensures to != Origin(prefixLen, used, pool)
  {
    hide Pow2, Aggregate, Net.Index, Net.Network, Advance, Anchor, Origin, Free, Jump, Distance, First, FirstOf, Supernet, Within, Overlap, Truncated;
    var base, origin, d := Net(pool.addr, prefixLen), Origin(prefixLen, used, pool), Pow2(prefixLen - conflictLen);
    var f, n := FirstOf(Net(pool.addr, len - 1), conflictLen), Pow2(conflictLen - (len - 1));
    BlockNumber(origin, prefixLen);
    SupernetAround(supernet, pool);
    to := AdvanceUnrolled(base, base, conflictLen, Supernet(supernet));
    FirstIs(pool, Supernet(supernet), prefixLen);
    FirstUnfolds(pool, len - 1, prefixLen);
    NetworkOfBlocks(Net(pool.addr, len - 1), prefixLen, conflictLen);
    OriginIsNear(prefixLen, used, pool, len - 1);
    NearIffRange(pool, len - 1, prefixLen, origin);
    AtLeastTwo(conflictLen - (len - 1));
    JumpFacts(f, n, origin, origin, d);
    JumpLeaves(f, n, origin, d);
    NearIffRange(pool, len - 1, prefixLen, to);
    BlockNumber(to, prefixLen);
    OriginIsNear(prefixLen, used, pool, len);
    forall j: nat | Near(j, pool, len - 1, prefixLen) && Passed(Pow2(prefixLen - (len - 1)), origin, origin, to, j)
      ensures !Free(Block(j, prefixLen), used)
    {
      NearIffRange(pool, len - 1, prefixLen, j);
      SharesSupernet(pool, prefixLen, len, conflictLen, origin, j);
    }
  }

  lemma AtLeastTwo(n: nat)
    requires n > 0
    ensures Pow2(n) >= 2
  {}

  lemma SharesSupernet(pool: Net, prefixLen: nat, len: nat, conflictLen: nat, k: nat, j: nat)
    requires len <= conflictLen <= prefixLen <= 32 && Near(k, pool, len, prefixLen)
    requires j / Pow2(prefixLen - conflictLen) == k / Pow2(prefixLen - conflictLen)
    ensures Near(j, pool, len, prefixLen)
  {
    hide Pow2, Net.Index;
    var narrow := Net(Block(k, prefixLen).addr, conflictLen);
    WithinIsIndex(Block(k, prefixLen).addr, narrow);
    SharesWider(Block(k, prefixLen), narrow, k, j);
    WithinIsIndex(Block(j, prefixLen).addr, narrow);
    IndexOfWider(Block(k, prefixLen).addr, len, conflictLen);
    IndexOfWider(Block(j, prefixLen).addr, len, conflictLen);
    WithinIsIndex(Block(k, prefixLen).addr, Net(pool.addr, len));
    WithinIsIndex(Block(j, prefixLen).addr, Net(pool.addr, len));
  }

  // ----- the first round

  /** The other half of the parent block. */
  function Twin(k: nat): nat { if k % 2 == 0 then k + 1 else k - 1 }

  function Sibling(net: Net): (r: Net)
    requires net.plen <= 32
    ensures r.plen == net.plen
  {
    Block(Twin(net.Index()), net.plen)
  }

  lemma JumpToTwin(i: nat, d: nat, k: nat)
    requires d > 0 && k / d == i
    ensures Jump(i / 2 * (2 * d), 2 * d, k, d) == Twin(i) * d
  {
    Reassociate(i / 2, 2, d);
    Distribute(i, 1, d);
    if i % 2 == 0 {
      assert i / 2 * 2 == i;
    } else {
      assert i / 2 * 2 == i - 1;
      Distribute(i - 1, 2, d);
    }
  }

  /** From anywhere in the anchor the search moves to the start of the anchor's sibling. */
  lemma LeavesAnchor(prefixLen: nat, used: seq<Net>, pool: Net, len: nat, candidate: Net)
    requires Request(prefixLen, used, pool) && candidate.plen == prefixLen && !Free(candidate, used)
    requires var a := Anchor(prefixLen, used, pool).plen;
      && 0 < a <= prefixLen && a - 1 <= len && Within(candidate.addr, Anchor(prefixLen, used, pool))
      && a <= Aggregate(candidate, used).plen
    ensures var anchor := Anchor(prefixLen, used, pool);
      Round(Net(pool.addr, prefixLen), used, candidate, len) ==
        Searching(Block(Twin(anchor.Index()) * Pow2(prefixLen - anchor.plen), prefixLen), anchor.plen - 1)
  {
    hide Pow2, Aggregate, Net.Index, Net.Network, Within, Overlap, Free, Conflicts, Truncated, Advance, Round, Jump, FirstOf, Supernet;
    var base, anchor := Net(pool.addr, prefixLen), Anchor(prefixLen, used, pool);
    var a, i, d := anchor.plen, anchor.Index(), Pow2(prefixLen - anchor.plen);
    AnchorFacts(prefixLen, used, pool);
    AggregatesAtLeast(candidate, base, used);
    WithinIsIndex(candidate.addr, anchor);
    WithinIsIndex(candidate.addr, Net(pool.addr, a));
    WithinWider(candidate.addr, Net(pool.addr, a), a - 1);
    IndexOfWider(candidate.addr, a, prefixLen);
    var supernet := TakenRound(prefixLen, used, pool, len, candidate);
    var to := AdvanceUnrolled(base, candidate, a, supernet);
    HalfOfSupernet(prefixLen, pool, a, supernet);
    JumpToTwin(i, d, candidate.Index());
    DivUnique(to, d, Twin(i), 0);
    BlockNumber(to, prefixLen);
  }

  lemma HalfOfSupernet(prefixLen: nat, pool: Net, a: nat, supernet: Net)
    requires 0 < a <= prefixLen <= 32 && supernet.plen == a - 1 && supernet.Index() == Net(pool.addr, a - 1).Index()
    ensures FirstOf(supernet, prefixLen) == Net(pool.addr, a).Index() / 2 * (2 * Pow2(prefixLen - a))
    ensures Pow2(prefixLen - (a - 1)) == 2 * Pow2(prefixLen - a)
  {
    IndexOfWider(pool.addr, a - 1, a);
    assert Pow2(1) == 2 * Pow2(0) == 2;
  }
}
