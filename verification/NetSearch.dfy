/**
  The deterministic search for a free block around a pool address. Whether its
  loop stops depends on the input, so the search is a function of the number of
  rounds it is given; `Searching` means that it has not stopped yet.
 */
module NetSearch {
  import opened Wrappers
  import opened Basics
  import opened Cidr

  datatype Error =
    | BadPrefix   // not longer than the pool's, or over 32
    | Exhausted   // wrapped around to the first candidate with nothing left to broaden
    | NoSibling   // no sibling to move to
    | Underflow   // a conflict with 0.0.0.0/0: prefix length 0 minus 1

  datatype Search =
    | Searching(candidate: Net, searchLen: nat)
    | Chosen(net: Net)
    | Failed(error: Error)

  const MIN_SUPERNET_LEN: nat := 12

  ghost predicate Blocks(nets: seq<Net>) { forall n :: n in nets ==> n.Valid() }

  /** The used networks nested with the candidate, in order. */
  function Conflicts(candidate: Net, used: seq<Net>): (r: seq<Net>)
    requires candidate.plen <= 32 && Blocks(used)
    ensures forall n :: n in r <==> n in used && Nested(candidate, n)
  {
    if used == [] then []
    else
      assert used[|used| - 1] in used;
      var rest := Conflicts(candidate, used[..|used| - 1]);
      if Nested(candidate, used[|used| - 1]) then rest + [used[|used| - 1]] else rest
  }

  function Truncated(n: Net): Net
    requires n.plen <= 32
  {
    Net(n.Network(), n.plen)
  }

  /** The block that aggregation puts first: the widest of the candidate and its conflicts. */
  function Widest(candidate: Net, nets: seq<Net>): (r: Net)
    requires candidate.plen <= 32 && Blocks(nets)
    ensures r.plen <= candidate.plen
    ensures forall n :: n in nets ==> r.plen <= n.plen
    ensures r == Truncated(candidate) || exists n :: n in nets && r == Truncated(n)
  {
    if nets == [] then Truncated(candidate)
    else
      var w := Widest(candidate, nets[1..]);
      if nets[0].plen < w.plen then Truncated(nets[0]) else w
  }

  /** All blocks of the given length inside a network, in address order. */
  function Subnets(net: Net, plen: nat): (r: seq<Net>)
    requires net.plen <= plen <= 32
    ensures |r| == Pow2(plen - net.plen)
    ensures forall i :: 0 <= i < |r| ==> r[i] == Net(net.Network() + i * Pow2(32 - plen), plen)
  {
    seq(Pow2(plen - net.plen), (i: nat) => Net(net.Network() + i * Pow2(32 - plen), plen))
  }

  /** Skip the siblings not above the candidate, take the next one. */
  function FirstAfter(siblings: seq<Net>, candidate: Net): (r: Option<Net>)
    ensures r.Some? ==> r.value in siblings && Less(candidate, r.value)
    ensures r.None? ==> forall n :: n in siblings ==> !Less(candidate, n)
  {
    if siblings == [] then None
    else if Less(candidate, siblings[0]) then Some(siblings[0])
    else FirstAfter(siblings[1..], candidate)
  }

  /** Take siblings while they are below the candidate, keep the first. */
  function FirstBefore(siblings: seq<Net>, candidate: Net): Option<Net> {
    if siblings != [] && Less(siblings[0], candidate) then Some(siblings[0]) else None
  }

  function NextSibling(siblings: seq<Net>, candidate: Net): (r: Option<Net>)
    ensures r.Some? ==> r.value in siblings && r.value != candidate
  {
    match FirstAfter(siblings, candidate)
    case Some(n) => Some(n)
    case None => FirstBefore(siblings, candidate)
  }

  function Supernet(n: Net): Net
    requires 0 < n.plen <= 32
  {
    Truncated(Net(n.addr, n.plen - 1))
  }

  /** The inner loop: move on, broadening every time the move wraps around to the base. */
  function Advance(base: Net, candidate: Net, conflictLen: nat, supernet: Net): (r: Search)
    requires base.plen <= 32 && supernet.plen <= conflictLen <= 32
    ensures r.Searching? ==> r.candidate.plen == base.plen && r.candidate != base && r.searchLen <= supernet.plen
    ensures !r.Chosen?
    decreases supernet.plen
  {
    match NextSibling(Subnets(supernet, conflictLen), candidate)
    case None => Failed(NoSibling)
    case Some(n) =>
      var next := Net(n.Network(), base.plen);
      if next != base then Searching(next, supernet.plen)
      else if supernet.plen > MIN_SUPERNET_LEN then Advance(base, next, conflictLen, Supernet(supernet))
      else Failed(Exhausted)
  }

  /** One iteration of the outer loop. */
  function Round(base: Net, used: seq<Net>, candidate: Net, searchLen: nat): Search
    requires base.plen <= 32 && candidate.plen <= 32 && Blocks(used)
  {
    var conflicting := Conflicts(candidate, used);
    if conflicting == [] then Chosen(candidate)
    else
      var aggregated := Widest(candidate, conflicting);
      if aggregated.plen == 0 then Failed(Underflow)
      else
        var len := Min(searchLen, aggregated.plen - 1);
        Advance(base, candidate, aggregated.plen, Net(aggregated.Network(), len))
  }

  ghost predicate WellFormed(s: Search) { s.Searching? ==> s.candidate.plen <= 32 }

  function Start(prefixLen: nat, pool: Net): Search {
    if prefixLen <= pool.plen || prefixLen > 32 then Failed(BadPrefix)
    else Searching(Net(pool.addr, prefixLen), prefixLen - 1)
  }

  function Iterate(base: Net, used: seq<Net>, s: Search, rounds: nat): Search
    requires base.plen <= 32 && Blocks(used) && WellFormed(s)
    decreases rounds
  {
    if rounds == 0 || !s.Searching? then s
    else
      Iterate(base, used, Round(base, used, s.candidate, s.searchLen), rounds - 1)
  }

  /** The picker after a number of rounds. */
  function Pick(prefixLen: nat, used: seq<Net>, pool: Net, rounds: nat): Search
    requires Blocks(used)
  {
    var s := Start(prefixLen, pool);
    if s.Searching? then Iterate(s.candidate, used, s, rounds) else s
  }

  // ----- the loops

  method CollectConflicts(candidate: Net, used: seq<Net>) returns (conflicting: seq<Net>)
    requires candidate.plen <= 32 && Blocks(used)
    ensures conflicting == Conflicts(candidate, used)
  {
    conflicting := [];
    for i := 0 to |used|
      invariant conflicting == Conflicts(candidate, used[..i])
    {
      assert used[..i + 1][..i] == used[..i] && used[i] in used;
      if candidate.Contains(used[i]) || used[i].Contains(candidate) {
        conflicting := conflicting + [used[i]];
      }
    }
    assert used[..|used|] == used;
  }

  method MoveOn(base: Net, current: Net, conflictLen: nat, start: Net) returns (r: Search)
    requires base.plen <= 32 && start.plen <= conflictLen <= 32
    ensures r == Advance(base, current, conflictLen, start)
  {
    var candidate, supernet := current, start;
    while true
      invariant supernet.plen <= conflictLen
      invariant Advance(base, candidate, conflictLen, supernet) == Advance(base, current, conflictLen, start)
      decreases supernet.plen
    {
      var sibling := NextSibling(Subnets(supernet, conflictLen), candidate);
      if sibling == None {
        return Failed(NoSibling);
      }
      candidate := Net(sibling.value.Network(), base.plen);
      if candidate != base {
        return Searching(candidate, supernet.plen);
      }
      if supernet.plen <= MIN_SUPERNET_LEN {
        return Failed(Exhausted);
      }
      supernet := Supernet(supernet);
    }
  }

  method SearchRound(base: Net, used: seq<Net>, candidate: Net, searchLen: nat) returns (r: Search)
    requires base.plen <= 32 && candidate.plen <= 32 && Blocks(used)
    ensures r == Round(base, used, candidate, searchLen)
  {
    hide Conflicts, Widest, Advance, Net.Index, Net.Size, Pow2;
    var conflicting := CollectConflicts(candidate, used);
    if conflicting == [] {
      return Chosen(candidate);
    }
    var aggregated := Widest(candidate, conflicting);
    if aggregated.plen == 0 {
      return Failed(Underflow);
    }
    var len := Min(searchLen, aggregated.plen - 1);
    r := MoveOn(base, candidate, aggregated.plen, Net(aggregated.Network(), len));
  }

  /** The imperative search computes exactly `Pick`. */
  method PickAvailable(prefixLen: nat, used: seq<Net>, pool: Net, rounds: nat) returns (r: Search)
    requires Blocks(used)
    ensures r == Pick(prefixLen, used, pool, rounds)
  {
    if prefixLen <= pool.plen || prefixLen > 32 {
      return Failed(BadPrefix);
    }
    var base := Net(pool.addr, prefixLen);
    r := Searching(base, prefixLen - 1);
    for round := 0 to rounds
      invariant r.Searching? && r.candidate.plen == prefixLen
      invariant Iterate(base, used, r, rounds - round) == Pick(prefixLen, used, pool, rounds)
    {
      var next := SearchRound(base, used, r.candidate, r.searchLen);
      assert WellFormed(next) && Iterate(base, used, r, rounds - round) == Iterate(base, used, next, rounds - round - 1);
      hide Round;
      if !next.Searching? {
        return next;
      }
      r := next;
    }
  }
}
