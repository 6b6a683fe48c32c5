/** When the block search stops, and with what: for every admissible request, whatever is in use. */
module NetSearchTheorems {
  import opened Cidr
  import opened NetSearch
  import opened NetSearchFacts
  import opened NetSearchStep
  import opened NetSearchHalts

  ghost predicate Halts(prefixLen: nat, used: seq<Net>, pool: Net)
    requires Blocks(used)
  {
    exists rounds: nat :: !Pick(prefixLen, used, pool, rounds).Searching?
  }

  /** Some block of the requested length inside the region overlaps nothing in use. */
  ghost predicate HasFree(prefixLen: nat, used: seq<Net>, region: Net)
    requires prefixLen <= 32 && region.plen <= 32 && Blocks(used)
  {
    exists k: nat :: FreeIn(prefixLen, used, region, k)
  }

  ghost predicate FreeIn(prefixLen: nat, used: seq<Net>, region: Net, k: nat)
    requires prefixLen <= 32 && region.plen <= 32 && Blocks(used)
  {
    Within(Block(k, prefixLen).addr, region) && Free(Block(k, prefixLen), used)
  }

  /** Settled inside a region: with a free block there, or because none is left there. */
  ghost predicate Settled(prefixLen: nat, used: seq<Net>, region: Net, r: Search)
    requires prefixLen <= 32 && region.plen <= 32 && Blocks(used)
  {
    match r
    case Searching(_, _) => false
    case Chosen(net) => net.plen == prefixLen && net.addr < 0x1_0000_0000 && Within(net.addr, region) && Free(net, used)
    case Failed(e) => e == Exhausted && !HasFree(prefixLen, used, region)
  }

  lemma ChosenIsFree(prefixLen: nat, used: seq<Net>, region: Net, net: Net)
    requires region.plen <= prefixLen <= 32 && Blocks(used) && net.plen == prefixLen && Within(net.addr, region) && Free(net, used)
    ensures HasFree(prefixLen, used, region)
  {
    hide Pow2, Net.Index, Within, Free;
    var k := net.Index();
    BlockNumber(k, prefixLen);
    SameBlockSameFreedom(net, Block(k, prefixLen), used);
    IndexOfWider(net.addr, region.plen, prefixLen);
    IndexOfWider(Block(k, prefixLen).addr, region.plen, prefixLen);
    WithinIsIndex(net.addr, region);
    WithinIsIndex(Block(k, prefixLen).addr, region);
    assert FreeIn(prefixLen, used, region, k);
  }

  lemma IterateStep(base: Net, used: seq<Net>, candidate: Net, len: nat, rounds: nat)
    requires base.plen <= 32 && candidate.plen <= 32 && Blocks(used)
    requires WellFormed(Round(base, used, candidate, len))
    ensures Iterate(base, used, Searching(candidate, len), rounds + 1) ==
            Iterate(base, used, Round(base, used, candidate, len), rounds)
    ensures Iterate(base, used, Round(base, used, candidate, len), 0) == Round(base, used, candidate, len)
  {
    hide Round;
  }

  /** A free candidate is chosen at once. */
  lemma FreeIsChosen(base: Net, used: seq<Net>, candidate: Net, len: nat)
    requires base.plen <= 32 && candidate.plen <= 32 && Blocks(used) && Free(candidate, used)
    ensures Iterate(base, used, Searching(candidate, len), 1) == Chosen(candidate)
  {
    AggregateFacts(candidate, used);
    IterateStep(base, used, candidate, len, 0);
  }

  /** Everything up to the block, counted from the origin, is taken. */
  ghost predicate TakenBefore(prefixLen: nat, used: seq<Net>, pool: Net, len: nat, k: nat)
    requires len <= prefixLen <= 32 && Blocks(used)
  {
    forall j: nat :: Near(j, pool, len, prefixLen) && Gone(prefixLen, used, pool, len, j) < Gone(prefixLen, used, pool, len, k) ==>
      !Free(Block(j, prefixLen), used)
  }

  ghost predicate AllTaken(prefixLen: nat, used: seq<Net>, pool: Net, len: nat)
    requires len <= prefixLen <= 32 && Blocks(used)
  {
    forall j: nat :: Near(j, pool, len, prefixLen) ==> !Free(Block(j, prefixLen), used)
  }

  /** Taken before, taken on the way: taken before the next stop, or all round. */
  lemma Extend(prefixLen: nat, used: seq<Net>, pool: Net, len: nat, k: nat, to: nat)
    requires len <= prefixLen <= 32 && Blocks(used)
    requires TakenBefore(prefixLen, used, pool, len, k) && AllPassedTaken(prefixLen, used, pool, len, k, to)
    ensures to != Origin(prefixLen, used, pool) ==> TakenBefore(prefixLen, used, pool, len, to)
    ensures to == Origin(prefixLen, used, pool) ==> AllTaken(prefixLen, used, pool, len)
  {
    hide Pow2, Origin, Near, Free, Block;
  }

  lemma GoneBounds(prefixLen: nat, used: seq<Net>, pool: Net, len: nat, k: nat)
    requires Request(prefixLen, used, pool) && len <= Anchor(prefixLen, used, pool).plen <= prefixLen
    requires Near(k, pool, len, prefixLen)
    ensures 0 <= Gone(prefixLen, used, pool, len, k) < Pow2(prefixLen - len)
    ensures Gone(prefixLen, used, pool, len, k) == 0 <==> k == Origin(prefixLen, used, pool)
  {
    hide Pow2, Origin, Near, Anchor, First;
    OriginIsNear(prefixLen, used, pool, len);
    NearIffRange(pool, len, prefixLen, k);
    NearIffRange(pool, len, prefixLen, Origin(prefixLen, used, pool));
  }

  // ----- the first candidate starts the anchor: the walk comes round

  /** Termination by supernet length, then by the distance left to the origin. */
  lemma {:induction false} SettlesFrom(prefixLen: nat, used: seq<Net>, pool: Net, len: nat, k: nat) returns (rounds: nat)
    requires Request(prefixLen, used, pool) && 0 < Anchor(prefixLen, used, pool).plen <= prefixLen
    requires Net(pool.addr, prefixLen) == Block(Origin(prefixLen, used, pool), prefixLen)
    requires RegionLen(Anchor(prefixLen, used, pool).plen) <= len < Anchor(prefixLen, used, pool).plen
    requires Near(k, pool, len, prefixLen) && TakenBefore(prefixLen, used, pool, len, k)
    ensures Settled(prefixLen, used, Net(pool.addr, RegionLen(Anchor(prefixLen, used, pool).plen)),
              Iterate(Net(pool.addr, prefixLen), used, Searching(Block(k, prefixLen), len), rounds))
    decreases len, Pow2(prefixLen - len) - Gone(prefixLen, used, pool, len, k)
  {
    hide Pow2, Anchor, Origin, Free, Near, TakenBefore, AllTaken, AllPassedTaken, Gone, Iterate, Round, Advance, Settled, Block, Supernet;
    var base, candidate, region := Net(pool.addr, prefixLen), Block(k, prefixLen), Net(pool.addr, RegionLen(Anchor(prefixLen, used, pool).plen));
    BlockLen(k, prefixLen);
    if Free(candidate, used) {
      FreeIsChosen(base, used, candidate, len);
      NearSettles(prefixLen, used, pool, len, k, region);
      return 1;
    }
    var to, conflictLen, supernet := TakenMove(prefixLen, used, pool, len, k);
    BlockLen(to, prefixLen);
    Extend(prefixLen, used, pool, len, k, to);
    SameNumber(to, Origin(prefixLen, used, pool), prefixLen);
    GoneBounds(prefixLen, used, pool, len, to);
    GoneBounds(prefixLen, used, pool, len, k);
    var more := 0;
    if to != Origin(prefixLen, used, pool) {
      more := SettlesFrom(prefixLen, used, pool, len, to);
    } else if len > MIN_SUPERNET_LEN {
      AllTakenMeans(prefixLen, used, pool, len);
      var next := BroadenedMove(prefixLen, used, pool, len, conflictLen, supernet);
      BlockLen(next, prefixLen);
      NothingBeforeOrigin(prefixLen, used, pool, len - 1);
      Extend(prefixLen, used, pool, len - 1, Origin(prefixLen, used, pool), next);
      more := SettlesFrom(prefixLen, used, pool, len - 1, next);
    } else {
      NothingLeft(prefixLen, used, pool, len);
    }
    IterateStep(base, used, candidate, len, more);
    rounds := more + 1;
  }

  lemma BlockLen(k: nat, plen: nat)
    requires plen <= 32
    ensures Block(k, plen).plen == plen
  {}

  lemma SameNumber(a: nat, b: nat, plen: nat)
    requires plen <= 32
    ensures Block(a, plen) == Block(b, plen) <==> a == b
  {
    BlockNumber(a, plen);
    BlockNumber(b, plen);
  }

  lemma AllTakenMeans(prefixLen: nat, used: seq<Net>, pool: Net, len: nat)
    requires len <= prefixLen <= 32 && Blocks(used) && AllTaken(prefixLen, used, pool, len)
    ensures forall j: nat :: Near(j, pool, len, prefixLen) ==> !Free(Block(j, prefixLen), used)
  {}

  lemma NothingBeforeOrigin(prefixLen: nat, used: seq<Net>, pool: Net, len: nat)
    requires Request(prefixLen, used, pool) && len <= Anchor(prefixLen, used, pool).plen <= prefixLen
    ensures TakenBefore(prefixLen, used, pool, len, Origin(prefixLen, used, pool))
  {
    hide Pow2, Anchor, Origin, Free, Near, Gone, Block;
    var origin := Origin(prefixLen, used, pool);
    OriginIsNear(prefixLen, used, pool, len);
    GoneBounds(prefixLen, used, pool, len, origin);
    forall j: nat | Near(j, pool, len, prefixLen) ensures Gone(prefixLen, used, pool, len, j) >= 0 {
      GoneBounds(prefixLen, used, pool, len, j);
    }
  }

  lemma NothingLeft(prefixLen: nat, used: seq<Net>, pool: Net, len: nat)
    requires len <= prefixLen <= 32 && Blocks(used) && AllTaken(prefixLen, used, pool, len)
    ensures Settled(prefixLen, used, Net(pool.addr, len), Failed(Exhausted))
  {
    hide Free, Within, Block;
  }

  lemma NearSettles(prefixLen: nat, used: seq<Net>, pool: Net, len: nat, k: nat, region: Net)
    requires Request(prefixLen, used, pool) && len <= prefixLen && region.plen <= len && region == Net(pool.addr, region.plen)
    requires Near(k, pool, len, prefixLen) && Free(Block(k, prefixLen), used)
    ensures Settled(prefixLen, used, region, Chosen(Block(k, prefixLen)))
  {
    hide Pow2, Free, Within;
    WithinWider(Block(k, prefixLen).addr, Net(pool.addr, len), region.plen);
    WithinIsValid(Block(k, prefixLen).addr, region);
  }

  // ----- the anchor and its sibling

  lemma HalfRanges(i: nat, d: nat, j: nat)
    requires d > 0 && i / 2 * (2 * d) <= j < i / 2 * (2 * d) + 2 * d
    ensures var gone := Distance(2 * d, i * d, j);
      && (gone < d <==> j / d == i) && (gone >= d <==> j / d == Twin(i))
      && 0 <= gone < 2 * d
    ensures Distance(2 * d, i * d, Twin(i) * d) == d
    ensures i / 2 * (2 * d) <= Twin(i) * d < i / 2 * (2 * d) + 2 * d
  {
    Reassociate(i / 2, 2, d);
    InBlock(j, d, i);
    InBlock(j, d, Twin(i));
    Distribute(i, 1, d);
    if i % 2 == 0 {
      assert i / 2 * 2 == i;
    } else {
      assert i / 2 * 2 == i - 1;
      Distribute(i - 1, 1, d);
    }
  }

  /** In the anchor's parent, what is nearer to the origin than the sibling's start is the anchor, the rest the sibling. */
  lemma Halves(prefixLen: nat, used: seq<Net>, pool: Net, j: nat)
    requires Request(prefixLen, used, pool) && 0 < Anchor(prefixLen, used, pool).plen <= prefixLen
    requires Near(j, pool, Anchor(prefixLen, used, pool).plen - 1, prefixLen)
    ensures var anchor := Anchor(prefixLen, used, pool);
      var d, gone := Pow2(prefixLen - anchor.plen), Gone(prefixLen, used, pool, anchor.plen - 1, j);
      && (gone < d <==> Within(Block(j, prefixLen).addr, anchor))
      && (gone >= d <==> Within(Block(j, prefixLen).addr, Sibling(anchor)))
  {
    hide Pow2, Anchor, Origin, Net.Index, Within, Truncated, First, FirstOf, Distance, Twin, Net.Network;
    var anchor := Anchor(prefixLen, used, pool);
    var a, d := anchor.plen, Pow2(prefixLen - anchor.plen);
    AnchorFacts(prefixLen, used, pool);
    NearIffRange(pool, a - 1, prefixLen, j);
    FirstUnfolds(pool, a - 1, prefixLen);
    HalfOfSupernet(prefixLen, pool, a, Net(pool.addr, a - 1));
    HalfRanges(anchor.Index(), d, j);
    BlockNumber(j, prefixLen);
    IndexOfWider(Block(j, prefixLen).addr, a, prefixLen);
    WithinIsIndex(Block(j, prefixLen).addr, anchor);
    BlockNumber(Twin(anchor.Index()), a);
    WithinIsIndex(Block(j, prefixLen).addr, Sibling(anchor));
  }

  lemma SiblingIsNear(prefixLen: nat, used: seq<Net>, pool: Net) returns (start: nat)
    requires Request(prefixLen, used, pool) && 0 < Anchor(prefixLen, used, pool).plen <= prefixLen
    ensures var anchor := Anchor(prefixLen, used, pool);
      && start == Twin(anchor.Index()) * Pow2(prefixLen - anchor.plen)
      && Near(start, pool, anchor.plen - 1, prefixLen)
      && Gone(prefixLen, used, pool, anchor.plen - 1, start) == Pow2(prefixLen - anchor.plen)
    ensures forall j: nat :: Within(Block(j, prefixLen).addr, Sibling(Anchor(prefixLen, used, pool))) ==>
              Near(j, pool, Anchor(prefixLen, used, pool).plen - 1, prefixLen)
  {
    hide Pow2, Anchor, Origin, Net.Index, Truncated, First, FirstOf, Distance, Twin, Net.Network, Within;
    var anchor := Anchor(prefixLen, used, pool);
    var a, d, i := anchor.plen, Pow2(prefixLen - anchor.plen), anchor.Index();
    start := Twin(i) * d;
    AnchorFacts(prefixLen, used, pool);
    FirstUnfolds(pool, a - 1, prefixLen);
    HalfOfSupernet(prefixLen, pool, a, Net(pool.addr, a - 1));
    OriginIsNear(prefixLen, used, pool, a - 1);
    NearIffRange(pool, a - 1, prefixLen, Origin(prefixLen, used, pool));
    HalfRanges(i, d, Origin(prefixLen, used, pool));
    NearIffRange(pool, a - 1, prefixLen, start);
    forall j: nat | Within(Block(j, prefixLen).addr, Sibling(anchor)) ensures Near(j, pool, a - 1, prefixLen) {
      SiblingInParent(pool, anchor, Block(j, prefixLen).addr);
    }
  }

  lemma SiblingInParent(pool: Net, anchor: Net, addr: nat)
    requires 0 < anchor.plen <= 32 && anchor.Index() == Net(pool.addr, anchor.plen).Index() && Within(addr, Sibling(anchor))
    ensures Within(addr, Net(pool.addr, anchor.plen - 1))
  {
    hide Pow2, Net.Index, Within, Net.Network, Truncated;
    var a, i := anchor.plen, anchor.Index();
    BlockNumber(Twin(i), a);
    WithinIsIndex(addr, Sibling(anchor));
    IndexOfWider(addr, a - 1, a);
    IndexOfWider(pool.addr, a - 1, a);
    WithinIsIndex(addr, Net(pool.addr, a - 1));
    AtMostTwo();
    assert Twin(i) / 2 == i / 2;
  }

  lemma AtMostTwo()
    ensures Pow2(1) == 2
  {
    assert Pow2(1) == 2 * Pow2(0);
  }

  /** The first round: a taken base sends the search to the start of the anchor's sibling. */
  lemma FirstRound(prefixLen: nat, used: seq<Net>, pool: Net) returns (start: nat)
    requires Request(prefixLen, used, pool) && !Free(Net(pool.addr, prefixLen), used)
    requires 0 < Anchor(prefixLen, used, pool).plen <= prefixLen
    ensures var a := Anchor(prefixLen, used, pool).plen;
      && Round(Net(pool.addr, prefixLen), used, Net(pool.addr, prefixLen), prefixLen - 1) == Searching(Block(start, prefixLen), a - 1)
      && Near(start, pool, a - 1, prefixLen)
      && Gone(prefixLen, used, pool, a - 1, start) == Pow2(prefixLen - a)
      && TakenBefore(prefixLen, used, pool, a - 1, start)
  {
    hide Pow2, Origin, Net.Index, Within, Truncated, First, FirstOf, Distance, Twin, Net.Network, Round, Free, Aggregate, Gone;
    var base, anchor := Net(pool.addr, prefixLen), Anchor(prefixLen, used, pool);
    AggregateFacts(base, used);
    LeavesAnchor(prefixLen, used, pool, prefixLen - 1, base);
    start := SiblingIsNear(prefixLen, used, pool);
    forall j: nat | Near(j, pool, anchor.plen - 1, prefixLen) && Gone(prefixLen, used, pool, anchor.plen - 1, j) < Pow2(prefixLen - anchor.plen)
      ensures !Free(Block(j, prefixLen), used)
    {
      Halves(prefixLen, used, pool, j);
      TakenInside(base, used, j);
    }
  }

  /**
    When the first candidate starts its anchor, the search stops inside the
    region around the pool address: with a free block, or because none is left.
   */
  lemma SearchSettles(prefixLen: nat, used: seq<Net>, pool: Net) returns (rounds: nat)
    requires Request(prefixLen, used, pool)
    requires var anchor := Anchor(prefixLen, used, pool); anchor.plen > 0 && anchor.addr == pool.addr
    ensures var len := Anchor(prefixLen, used, pool).plen;
            var region := Net(pool.addr, if len > 12 then 12 else len - 1);
            var r := Pick(prefixLen, used, pool, rounds);
      && Settled(prefixLen, used, region, r)
      && (r.Chosen? <==> HasFree(prefixLen, used, region))
  {
    hide Pow2, Origin, Net.Index, Within, Truncated, Free, Aggregate, Gone, Round, Near, TakenBefore, Iterate, Anchor;
    var base, anchor := Net(pool.addr, prefixLen), Anchor(prefixLen, used, pool);
    AnchorFacts(prefixLen, used, pool);
    var region := Net(pool.addr, RegionLen(anchor.plen));
    var origin := Origin(prefixLen, used, pool);
    BlockLen(origin, prefixLen);
    if Free(base, used) {
      FreeIsChosen(base, used, base, prefixLen - 1);
      OriginIsNear(prefixLen, used, pool, RegionLen(anchor.plen));
      NearSettles(prefixLen, used, pool, RegionLen(anchor.plen), origin, region);
      rounds := 1;
    } else {
      var start := FirstRound(prefixLen, used, pool);
      BlockLen(start, prefixLen);
      var more := SettlesFrom(prefixLen, used, pool, anchor.plen - 1, start);
      IterateStep(base, used, base, prefixLen - 1, more);
      rounds := more + 1;
    }
    var r := Pick(prefixLen, used, pool, rounds);
    if r.Chosen? { ChosenIsFree(prefixLen, used, region, r.net); }
  }

  // ----- the first candidate lies inside its anchor: the walk keeps to the sibling

  /** With a free block ahead in the sibling, the walk stops at it or before it. */
  lemma {:induction false} SiblingWalk(prefixLen: nat, used: seq<Net>, pool: Net, k: nat, free: nat) returns (rounds: nat)
    requires Request(prefixLen, used, pool) && 0 < Anchor(prefixLen, used, pool).plen <= prefixLen
    requires var len := Anchor(prefixLen, used, pool).plen - 1;
      && Near(k, pool, len, prefixLen) && Near(free, pool, len, prefixLen) && Free(Block(free, prefixLen), used)
      && Pow2(prefixLen - len - 1) <= Gone(prefixLen, used, pool, len, k) <= Gone(prefixLen, used, pool, len, free)
    ensures var sibling := Sibling(Anchor(prefixLen, used, pool));
            Settled(prefixLen, used, sibling,
              Iterate(Net(pool.addr, prefixLen), used, Searching(Block(k, prefixLen), Anchor(prefixLen, used, pool).plen - 1), rounds))
    decreases Pow2(prefixLen - Anchor(prefixLen, used, pool).plen + 1) - Gone(prefixLen, used, pool, Anchor(prefixLen, used, pool).plen - 1, k)
  {
    hide Pow2, Origin, Net.Index, Within, Truncated, Free, Aggregate, Gone, Round, Near, Iterate, Anchor, Block, Advance, Supernet;
    var base, candidate, len := Net(pool.addr, prefixLen), Block(k, prefixLen), Anchor(prefixLen, used, pool).plen - 1;
    BlockLen(k, prefixLen);
    if Free(candidate, used) {
      FreeIsChosen(base, used, candidate, len);
      ChosenInSibling(prefixLen, used, pool, k);
      return 1;
    }
    var to, conflictLen, supernet := TakenMove(prefixLen, used, pool, len, k);
    BlockLen(to, prefixLen);
    GoneBounds(prefixLen, used, pool, len, to);
    StopsBefore(prefixLen, used, pool, len, k, to, free);
    SiblingIsNotBase(prefixLen, used, pool, to);
    var more := SiblingWalk(prefixLen, used, pool, to, free);
    IterateStep(base, used, candidate, len, more);
    rounds := more + 1;
  }

  lemma StopsBefore(prefixLen: nat, used: seq<Net>, pool: Net, len: nat, k: nat, to: nat, free: nat)
    requires len <= prefixLen <= 32 && Blocks(used) && AllPassedTaken(prefixLen, used, pool, len, k, to)
    requires Near(free, pool, len, prefixLen) && Free(Block(free, prefixLen), used)
    requires Gone(prefixLen, used, pool, len, k) <= Gone(prefixLen, used, pool, len, free)
    ensures to != Origin(prefixLen, used, pool) && Gone(prefixLen, used, pool, len, to) <= Gone(prefixLen, used, pool, len, free)
  {
    hide Pow2, Origin, Near, Free, Block;
  }

  lemma ChosenInSibling(prefixLen: nat, used: seq<Net>, pool: Net, k: nat)
    requires Request(prefixLen, used, pool) && 0 < Anchor(prefixLen, used, pool).plen <= prefixLen
    requires var len := Anchor(prefixLen, used, pool).plen - 1;
      && Near(k, pool, len, prefixLen) && Free(Block(k, prefixLen), used)
      && Pow2(prefixLen - len - 1) <= Gone(prefixLen, used, pool, len, k)
    ensures Settled(prefixLen, used, Sibling(Anchor(prefixLen, used, pool)), Chosen(Block(k, prefixLen)))
  {
    hide Pow2, Free, Within, Anchor, Gone, Near, Net.Index;
    Halves(prefixLen, used, pool, k);
    NearValid(pool, Anchor(prefixLen, used, pool).plen - 1, prefixLen, k);
  }

  lemma NearValid(pool: Net, len: nat, plen: nat, k: nat)
    requires pool.Valid() && len <= plen <= 32 && Near(k, pool, len, plen)
    ensures Block(k, plen).addr < 0x1_0000_0000
  {
    hide Within;
    WithinIsValid(Block(k, plen).addr, Net(pool.addr, len));
  }

  lemma SiblingIsNotBase(prefixLen: nat, used: seq<Net>, pool: Net, k: nat)
    requires Request(prefixLen, used, pool) && 0 < Anchor(prefixLen, used, pool).plen <= prefixLen
    requires var len := Anchor(prefixLen, used, pool).plen - 1;
      Near(k, pool, len, prefixLen) && Pow2(prefixLen - len - 1) <= Gone(prefixLen, used, pool, len, k)
    ensures Block(k, prefixLen) != Net(pool.addr, prefixLen)
  {
    hide Pow2, Free, Within, Gone, Near, Net.Index, Aggregate;
    Halves(prefixLen, used, pool, k);
    AggregateFacts(Net(pool.addr, prefixLen), used);
  }

  /** With the whole sibling taken, the walk goes round it and the anchor's first block for ever. */
  lemma {:induction false} NeverStops(prefixLen: nat, used: seq<Net>, pool: Net, k: nat, rounds: nat)
    requires Request(prefixLen, used, pool) && 0 < Anchor(prefixLen, used, pool).plen <= prefixLen
    requires !Free(Net(pool.addr, prefixLen), used) && Anchor(prefixLen, used, pool).addr != pool.addr
    requires !HasFree(prefixLen, used, Sibling(Anchor(prefixLen, used, pool)))
    requires var len := Anchor(prefixLen, used, pool).plen - 1;
      && Near(k, pool, len, prefixLen)
      && (k == Origin(prefixLen, used, pool) || Pow2(prefixLen - len - 1) <= Gone(prefixLen, used, pool, len, k))
    ensures Iterate(Net(pool.addr, prefixLen), used, Searching(Block(k, prefixLen), Anchor(prefixLen, used, pool).plen - 1), rounds).Searching?
    decreases rounds
  {
    hide Pow2, Origin, Net.Index, Within, Truncated, Free, Aggregate, Gone, Round, Near, Anchor, Block, Advance, Supernet, HasFree;
    if rounds > 0 {
      var base, candidate, len := Net(pool.addr, prefixLen), Block(k, prefixLen), Anchor(prefixLen, used, pool).plen - 1;
      BlockLen(k, prefixLen);
      var to := StillTaken(prefixLen, used, pool, k);
      BlockLen(to, prefixLen);
      NeverStops(prefixLen, used, pool, to, rounds - 1);
    }
  }

  lemma StillTaken(prefixLen: nat, used: seq<Net>, pool: Net, k: nat) returns (to: nat)
    requires Request(prefixLen, used, pool) && 0 < Anchor(prefixLen, used, pool).plen <= prefixLen
    requires !Free(Net(pool.addr, prefixLen), used) && Anchor(prefixLen, used, pool).addr != pool.addr
    requires !HasFree(prefixLen, used, Sibling(Anchor(prefixLen, used, pool)))
    requires var len := Anchor(prefixLen, used, pool).plen - 1;
      && Near(k, pool, len, prefixLen)
      && (k == Origin(prefixLen, used, pool) || Pow2(prefixLen - len - 1) <= Gone(prefixLen, used, pool, len, k))
    ensures var len := Anchor(prefixLen, used, pool).plen - 1;
      && Near(to, pool, len, prefixLen)
      && (to == Origin(prefixLen, used, pool) || Pow2(prefixLen - len - 1) <= Gone(prefixLen, used, pool, len, to))
      && Round(Net(pool.addr, prefixLen), used, Block(k, prefixLen), len) == Searching(Block(to, prefixLen), len)
  {
    hide Pow2, Origin, Net.Index, Within, Truncated, Free, Aggregate, Gone, Round, Near, Anchor, Advance, Supernet, Net.Network;
    var base, candidate, anchor := Net(pool.addr, prefixLen), Block(k, prefixLen), Anchor(prefixLen, used, pool);
    var len := anchor.plen - 1;
    AnchorFacts(prefixLen, used, pool);
    Halves(prefixLen, used, pool, k);
    GoneBounds(prefixLen, used, pool, len, k);
    if k == Origin(prefixLen, used, pool) {
      AnchorIsTaken(prefixLen, used, pool, k);
      AggregateOfNear(prefixLen, used, pool, k);
      LeavesAnchor(prefixLen, used, pool, len, candidate);
      to := SiblingIsNear(prefixLen, used, pool);
    } else {
      NoneFree(prefixLen, used, Sibling(anchor), k);
      var conflictLen, supernet;
      to, conflictLen, supernet := TakenMove(prefixLen, used, pool, len, k);
      if to != Origin(prefixLen, used, pool) {
        SiblingIsNotBase(prefixLen, used, pool, to);
      }
    }
  }

  lemma NoneFree(prefixLen: nat, used: seq<Net>, region: Net, k: nat)
    requires prefixLen <= 32 && region.plen <= 32 && Blocks(used) && !HasFree(prefixLen, used, region)
    ensures Within(Block(k, prefixLen).addr, region) ==> !Free(Block(k, prefixLen), used)
  {
    hide Within, Free;
    assert !FreeIn(prefixLen, used, region, k);
  }

  lemma AnchorIsTaken(prefixLen: nat, used: seq<Net>, pool: Net, k: nat)
    requires Request(prefixLen, used, pool) && Anchor(prefixLen, used, pool).plen <= prefixLen
    requires !Free(Net(pool.addr, prefixLen), used) && Within(Block(k, prefixLen).addr, Anchor(prefixLen, used, pool))
    ensures !Free(Block(k, prefixLen), used)
  {
    hide Free, Within, Aggregate;
    TakenInside(Net(pool.addr, prefixLen), used, k);
  }

  lemma AggregateOfNear(prefixLen: nat, used: seq<Net>, pool: Net, k: nat)
    requires Request(prefixLen, used, pool) && 0 < Anchor(prefixLen, used, pool).plen <= prefixLen
    requires Near(k, pool, Anchor(prefixLen, used, pool).plen - 1, prefixLen)
    ensures Anchor(prefixLen, used, pool).plen <= Aggregate(Block(k, prefixLen), used).plen
  {
    hide Within, Aggregate;
    AggregateIsSmaller(prefixLen, used, pool, Anchor(prefixLen, used, pool).plen - 1, Block(k, prefixLen));
  }

  // ----- the exact conditions

  /** A first candidate inside its anchor: the search stops exactly with a free block of the anchor's sibling. */
  lemma SiblingDecides(prefixLen: nat, used: seq<Net>, pool: Net)
    requires Request(prefixLen, used, pool) && !Free(Net(pool.addr, prefixLen), used)
    requires var anchor := Anchor(prefixLen, used, pool); anchor.plen > 0 && anchor.addr != pool.addr
    ensures var sibling := Sibling(Anchor(prefixLen, used, pool));
      && (Halts(prefixLen, used, pool) <==> HasFree(prefixLen, used, sibling))
      && (HasFree(prefixLen, used, sibling) ==> exists rounds :: Settled(prefixLen, used, sibling, Pick(prefixLen, used, pool, rounds)))
  {
    hide Pow2, Origin, Net.Index, Within, Truncated, Free, Aggregate, Gone, Round, Near, Iterate, Anchor, Block, TakenBefore, Settled;
    var base, anchor := Net(pool.addr, prefixLen), Anchor(prefixLen, used, pool);
    AnchorFacts(prefixLen, used, pool);
    var sibling := Sibling(anchor);
    var start := FirstRound(prefixLen, used, pool);
    BlockLen(start, prefixLen);
    if HasFree(prefixLen, used, sibling) {
      var free: nat :| FreeIn(prefixLen, used, sibling, free);
      FreeAhead(prefixLen, used, pool, free);
      var more := SiblingWalk(prefixLen, used, pool, start, free);
      IterateStep(base, used, base, prefixLen - 1, more);
      var r := Pick(prefixLen, used, pool, more + 1);
      assert Settled(prefixLen, used, sibling, r);
      assert !r.Searching? by { SettledIsOver(prefixLen, used, sibling, r); }
    } else {
      forall rounds: nat ensures Pick(prefixLen, used, pool, rounds).Searching? {
        if rounds > 0 {
          NeverStops(prefixLen, used, pool, start, rounds - 1);
          IterateStep(base, used, base, prefixLen - 1, rounds - 1);
        } else {
          NoRounds(prefixLen, used, pool);
        }
      }
    }
  }

  lemma NoRounds(prefixLen: nat, used: seq<Net>, pool: Net)
    requires Request(prefixLen, used, pool)
    ensures Pick(prefixLen, used, pool, 0).Searching?
  {}

  lemma SettledIsOver(prefixLen: nat, used: seq<Net>, region: Net, r: Search)
    requires prefixLen <= 32 && region.plen <= 32 && Blocks(used) && Settled(prefixLen, used, region, r)
    ensures !r.Searching?
  {}

  lemma FreeAhead(prefixLen: nat, used: seq<Net>, pool: Net, free: nat)
    requires Request(prefixLen, used, pool) && 0 < Anchor(prefixLen, used, pool).plen <= prefixLen
    requires FreeIn(prefixLen, used, Sibling(Anchor(prefixLen, used, pool)), free)
    ensures var len := Anchor(prefixLen, used, pool).plen - 1;
      && Near(free, pool, len, prefixLen) && Free(Block(free, prefixLen), used)
      && Pow2(prefixLen - len - 1) <= Gone(prefixLen, used, pool, len, free)
  {
    hide Pow2, Origin, Net.Index, Within, Free, Gone, Near, Anchor;
    var start := SiblingIsNear(prefixLen, used, pool);
    Halves(prefixLen, used, pool, free);
  }

  /**
    For every admissible request the search stops if and only if the first
    candidate is free, or everything is in use as one block, or the first
    candidate starts its anchor, or the anchor's sibling has a free block.
   */
  lemma HaltsIff(prefixLen: nat, used: seq<Net>, pool: Net)
    requires Request(prefixLen, used, pool)
    ensures var anchor := Anchor(prefixLen, used, pool);
      Halts(prefixLen, used, pool) <==>
        || Free(Net(pool.addr, prefixLen), used)
        || anchor.plen == 0
        || anchor.addr == pool.addr
        || HasFree(prefixLen, used, Sibling(anchor))
  {
    hide Pow2, Net.Index, Within, Truncated, Free, Aggregate, Iterate, Anchor, HasFree, Settled, Sibling;
    var base, anchor := Net(pool.addr, prefixLen), Anchor(prefixLen, used, pool);
    AnchorFacts(prefixLen, used, pool);
    if Free(base, used) {
      FreeIsChosen(base, used, base, prefixLen - 1);
      assert !Pick(prefixLen, used, pool, 1).Searching?;
    } else if anchor.plen == 0 {
      WholeSpaceUsed(prefixLen, used, pool);
    } else if anchor.addr == pool.addr {
      var rounds := SearchSettles(prefixLen, used, pool);
      var region := Net(pool.addr, RegionLen(anchor.plen));
      SettledIsOver(prefixLen, used, region, Pick(prefixLen, used, pool, rounds));
    } else {
      SiblingDecides(prefixLen, used, pool);
    }
  }

  lemma WholeSpaceUsed(prefixLen: nat, used: seq<Net>, pool: Net)
    requires Request(prefixLen, used, pool) && !Free(Net(pool.addr, prefixLen), used)
    requires Anchor(prefixLen, used, pool).plen == 0
    ensures Pick(prefixLen, used, pool, 1) == Failed(Underflow) && Halts(prefixLen, used, pool)
  {
    hide Widest, Conflicts, Free;
    var base := Net(pool.addr, prefixLen);
    AggregateFacts(base, used);
    IterateStep(base, used, base, prefixLen - 1, 0);
  }

  /**
    The documented use: an aligned pool address and, around the first candidate,
    nothing larger than the request. The search stops inside the /12 (or the
    parent of a shorter request) and fails only if nothing there is free.
   */
  lemma AlignedPoolSettles(prefixLen: nat, used: seq<Net>, pool: Net) returns (rounds: nat)
    requires Request(prefixLen, used, pool)
    requires Truncated(Net(pool.addr, prefixLen)) == Net(pool.addr, prefixLen)
    requires forall u :: u in used && Overlap(Net(pool.addr, prefixLen), u) ==> prefixLen <= u.plen
    ensures var region := Net(pool.addr, if prefixLen > 12 then 12 else prefixLen - 1);
            var r := Pick(prefixLen, used, pool, rounds);
      && Settled(prefixLen, used, region, r)
      && (r.Chosen? <==> HasFree(prefixLen, used, region))
  {
    OwnAnchor(prefixLen, used, pool);
    hide Pow2, Aggregate, Anchor, Settled, HasFree, Iterate;
    rounds := SearchSettles(prefixLen, used, pool);
  }

  /** With nothing larger than the request around it, the first candidate is its own anchor. */
  lemma OwnAnchor(prefixLen: nat, used: seq<Net>, pool: Net)
    requires Request(prefixLen, used, pool)
    requires forall u :: u in used && Overlap(Net(pool.addr, prefixLen), u) ==> prefixLen <= u.plen
    ensures Anchor(prefixLen, used, pool) == Truncated(Net(pool.addr, prefixLen))
  {
    hide Pow2, Aggregate, Net.Index, Net.Network, Within;
    var base, anchor := Net(pool.addr, prefixLen), Anchor(prefixLen, used, pool);
    AggregateFacts(base, used);
    TruncatedKeepsIndex(base);
    AnchorFacts(prefixLen, used, pool);
    if anchor.plen < prefixLen {
      var u :| u in used && u.plen == anchor.plen && u.Index() == anchor.Index();
      WithinIsIndex(pool.addr, u);
      OverlapsAtStart(base, u);
    }
    SameNetwork(anchor, base);
  }

  lemma OverlapsAtStart(net: Net, u: Net)
    requires net.plen <= 32 && u.plen <= 32 && Within(net.addr, u)
    ensures Overlap(net, u)
  {
    WithinMeansHas(net.addr, u);
    HasOwnAddress(net);
  }

  /** For small used networks the condition is plain: aligned, or one of the two first blocks free. */
  lemma SmallNetworksHaltIff(prefixLen: nat, used: seq<Net>, pool: Net)
    requires Request(prefixLen, used, pool)
    requires forall u :: u in used && Overlap(Net(pool.addr, prefixLen), u) ==> prefixLen <= u.plen
    ensures var base := Net(pool.addr, prefixLen);
      Halts(prefixLen, used, pool) <==>
        Truncated(base) == base || Free(base, used) || Free(Block(Twin(base.Index()), prefixLen), used)
  {
    hide Pow2, Aggregate, Anchor, Net.Index, Net.Network, Within, Free, Halts;
    var base := Net(pool.addr, prefixLen);
    OwnAnchor(prefixLen, used, pool);
    TruncatedKeepsIndex(base);
    HaltsIff(prefixLen, used, pool);
    var twin := Block(Twin(base.Index()), prefixLen);
    assert Sibling(Anchor(prefixLen, used, pool)) == twin;
    if Free(twin, used) {
      WithinIsIndex(twin.addr, twin);
      ChosenIsFree(prefixLen, used, twin, twin);
    }
    if HasFree(prefixLen, used, twin) {
      var k: nat :| FreeIn(prefixLen, used, twin, k);
      WithinIsIndex(Block(k, prefixLen).addr, twin);
      SameBlockSameFreedom(Block(k, prefixLen), twin, used);
    }
  }

  lemma WithinMeansHas(addr: nat, net: Net)
    requires net.plen <= 32
    ensures Within(addr, net) <==> net.Has(addr)
  {
    HasIffIndex(net, addr);
  }

  lemma SameNetwork(a: Net, b: Net)
    requires a.plen == b.plen <= 32 && a.Index() == b.Index() && Truncated(a) == a
    ensures a == Truncated(b)
  {}

  /** The region of the default pool in plain numbers: 172.16.0.0 to 172.31.255.255. */
  lemma TheRegion(addr: nat)
    ensures Within(addr, Net(0xAC1B0100, 12)) <==> 0xAC100000 <= addr <= 0xAC1FFFFF
  {
    Sizes();
    WithinMeansHas(addr, Net(0xAC1B0100, 12));
    hide Pow2;
  }

  // ----- the request the program makes, with two networks in use

  /** 172.27.1.0/12, a /30 request, and 172.27.0.0/16 and 172.26.0.0/16 in use. */
  const POOL := Net(0xAC1B0100, 12)
  const USED := [Net(0xAC1B0000, 16), Net(0xAC1A0000, 16)]

  lemma Sizes()
    ensures Pow2(0) == 1 && Pow2(2) == 4 && Pow2(16) == 0x1_0000 && Pow2(20) == 0x10_0000
  {
    Pow2Add(8, 8);
    assert Pow2(2) == 4 && Pow2(4) == 16;
    Pow2Add(4, 4);
    Pow2Add(16, 4);
  }

  /** The promise to find a free block fails here: 172.16.0.0/30 is free, yet the search never stops. */
  lemma LargerUsedNetworksDefeatTheSearch()
    ensures Request(30, USED, POOL) && !Halts(30, USED, POOL)
    ensures Free(Net(0xAC100000, 30), USED) && Within(0xAC100000, Net(POOL.addr, 12))
  {
    Sizes();
    hide Pow2;
    var base, hit, other := Net(0xAC1B0100, 30), USED[0], USED[1];
    assert hit in USED && other in USED;
    AnchorOfExample();
    NestedIffOverlap(base, hit);
    assert !Free(base, USED);
    forall k: nat | Within(Block(k, 30).addr, other) ensures !Free(Block(k, 30), USED) {
      HasOwnAddress(Block(k, 30));
      WithinMeansHas(Block(k, 30).addr, other);
      assert Overlap(Block(k, 30), other);
    }
    assert Sibling(hit) == other;
    HaltsIff(30, USED, POOL);
  }

  lemma AnchorOfExample()
    ensures Request(30, USED, POOL) && Anchor(30, USED, POOL) == USED[0]
  {
    Sizes();
    hide Pow2;
    var base := Net(0xAC1B0100, 30);
    assert USED[0] in USED;
    AggregateFacts(base, USED);
    NestedIffOverlap(base, USED[0]);
    NestedIffOverlap(base, USED[1]);
    AnchorFacts(30, USED, POOL);
    var anchor := Anchor(30, USED, POOL);
    hide Aggregate;
    assert anchor.plen == 16;
    assert Truncated(USED[0]) == USED[0];
    SameNetwork(anchor, USED[0]);
  }
}
