/** The randomised picker: a uniform index into the sub-blocks of the pool. */
module NetPicker {
  import opened Wrappers
  import opened Cidr
  import opened NetSearch
  import opened NetSearchFacts

  datatype PickError = PrefixOver32 | PrefixNotLonger

  /** 64-bit arithmetic on the pool's base, truncated to 32 bits as the code casts it. */
  function ByIndex(prefixLen: nat, pool: Net, index: nat): (n: Net)
    requires prefixLen <= 32 && pool.plen <= 32
    ensures n.Valid() && n.plen == prefixLen
  {
    Net((pool.Network() + index * Pow2(32 - prefixLen)) % 0x1_0000_0000, prefixLen)
  }

  function CandidateCount(prefixLen: nat, pool: Net): nat
    requires pool.plen <= prefixLen
  {
    Pow2(prefixLen - pool.plen)
  }

  ghost predicate SubBlock(n: Net, prefixLen: nat, pool: Net)
    requires prefixLen <= 32 && pool.plen <= 32
  {
    n.plen == prefixLen && Truncated(n) == n && pool.Contains(n)
  }

  /** No wrap-around: the index-th block starts where 64-bit arithmetic says, inside the pool. */
  lemma ByIndexExact(prefixLen: nat, pool: Net, index: nat)
    requires pool.Valid() && pool.plen <= prefixLen <= 32 && index < CandidateCount(prefixLen, pool)
    ensures pool.Network() + index * Pow2(32 - prefixLen) < 0x1_0000_0000
    ensures ByIndex(prefixLen, pool, index).Index() == FirstOf(pool, prefixLen) + index
    ensures SubBlock(ByIndex(prefixLen, pool, index), prefixLen, pool)
  {
    hide Pow2;
    var s, f := Pow2(32 - prefixLen), FirstOf(pool, prefixLen);
    WithinIffRange(pool.addr, pool, prefixLen);
    assert Within(pool.addr, pool);
    Distribute(f, index, s);
    SubBlockWithin(pool, prefixLen, f + index);
    WithinIsValid((f + index) * s, pool);
    var n := Net((f + index) * s, prefixLen);
    HasOwnAddress(n);
    HasIffIndex(pool, n.addr);
    SharedAddressNests(pool, n, n.addr);
  }

  /** Index to block is a bijection onto the aligned sub-blocks of the pool: injective ... */
  lemma ByIndexInjective(prefixLen: nat, pool: Net, i: nat, j: nat)
    requires pool.Valid() && pool.plen <= prefixLen <= 32
    requires i < CandidateCount(prefixLen, pool) && j < CandidateCount(prefixLen, pool)
    requires ByIndex(prefixLen, pool, i) == ByIndex(prefixLen, pool, j)
    ensures i == j
  {
    ByIndexExact(prefixLen, pool, i);
    ByIndexExact(prefixLen, pool, j);
  }

  /** ... and onto. */
  lemma ByIndexOnto(prefixLen: nat, pool: Net, n: Net) returns (index: nat)
    requires pool.Valid() && pool.plen <= prefixLen <= 32 && SubBlock(n, prefixLen, pool)
    ensures index < CandidateCount(prefixLen, pool) && ByIndex(prefixLen, pool, index) == n
  {
    hide Pow2;
    HasOwnAddress(n);
    HasIffIndex(pool, n.addr);
    WithinIffRange(n.addr, pool, prefixLen);
    index := n.Index() - FirstOf(pool, prefixLen);
    ByIndexExact(prefixLen, pool, index);
  }

  predicate OverlapsAny(candidate: Net, used: seq<Net>): (r: bool)
    requires candidate.plen <= 32 && Blocks(used)
    ensures r <==> exists u :: u in used && Overlap(candidate, u)
  {
    assert forall u :: u in used ==> (Nested(candidate, u) <==> Overlap(candidate, u)) by {
      forall u | u in used ensures Nested(candidate, u) <==> Overlap(candidate, u) {
        NestedIffOverlap(candidate, u);
      }
    }
    exists u :: u in used && Nested(candidate, u)
  }

  /** `rng` gives the draws, one per attempt, each below the candidate count. */
  method PickRandom(prefixLen: nat, used: seq<Net>, pool: Net, maxAttempts: nat, rng: nat -> nat)
    returns (r: Result<Option<Net>, PickError>)
    requires pool.Valid() && Blocks(used)
    requires pool.plen < prefixLen <= 32 ==> forall i :: rng(i) < CandidateCount(prefixLen, pool)
    ensures prefixLen > 32 <==> r == Failure(PrefixOver32)
    ensures prefixLen <= 32 && prefixLen <= pool.plen <==> r == Failure(PrefixNotLonger)
    ensures r.Success? && r.value.Some? ==>
              var n := r.value.value;
              && SubBlock(n, prefixLen, pool) && n.Valid()
              && (forall u :: u in used ==> !Overlap(n, u))
              && exists i :: 0 <= i < maxAttempts && n == ByIndex(prefixLen, pool, rng(i))
                             && forall j :: 0 <= j < i ==> OverlapsAny(ByIndex(prefixLen, pool, rng(j)), used)
    ensures r == Success(None) ==> forall i :: 0 <= i < maxAttempts ==> OverlapsAny(ByIndex(prefixLen, pool, rng(i)), used)
  {
    hide OverlapsAny, ByIndex, SubBlock;
    if prefixLen > 32 {
      return Failure(PrefixOver32);
    }
    if prefixLen <= pool.plen {
      return Failure(PrefixNotLonger);
    }
    if maxAttempts == 0 {
      return Success(None);
    }
    for i := 0 to maxAttempts
      invariant forall j :: 0 <= j < i ==> OverlapsAny(ByIndex(prefixLen, pool, rng(j)), used)
    {
      var candidate := ByIndex(prefixLen, pool, rng(i));
      ByIndexExact(prefixLen, pool, rng(i));
      if !OverlapsAny(candidate, used) {
        return Success(Some(candidate));
      }
    }
    return Success(None);
  }
}
