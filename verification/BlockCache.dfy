/** The block cache over a remote reader: the cached reads refine plain ones. */
module BlockCache {
  import opened Basics

  /** Division rounding toward zero, as Go's `/` on integers. */
  function TruncDiv(a: int, b: int): int
    requires b > 0
  {
    if a >= 0 then a / b else -((-a) / b)
  }

  lemma TruncDivMeans(a: int, b: int)
    requires b > 0
    ensures var r := a - TruncDiv(a, b) * b;
      if a >= 0 then 0 <= r < b else -b < r <= 0
  {}

  /** The remote file continued with zeros. */
  function Padded(content: seq<byte>, i: nat): byte {
    if i < |content| then content[i] else 0
  }

  /** Bytes of a block that the file has. */
  function Available(content: seq<byte>, offset: nat, size: nat): nat {
    Max(0, Min(|content| - offset, size))
  }

  /** A fresh buffer after the first `got` bytes of a block arrived: the rest is still zero. */
  function Arrived(content: seq<byte>, offset: nat, size: nat, got: nat): (r: seq<byte>)
    requires got <= Available(content, offset, size)
    ensures |r| == size && forall i :: 0 <= i < size ==> r[i] == if i < got then content[offset + i] else 0
  {
    seq(size, (i: nat) => if i < got then content[offset + i] else 0)
  }

  function Offset(blk: nat, size: nat): nat { blk * size }

  /** The blocks of a request, first and last; the last comes before the first when nothing is asked at a block's start. */
  function FirstBlock(off: nat, size: nat): nat
    requires size > 0
  {
    off / size
  }

  function LastBlock(off: nat, len: nat, size: nat): int
    requires size > 0
  {
    TruncDiv(off + len - 1, size)
  }

  /** Bytes of a request at `off` of length `len` that lie before `position`. */
  function Filled(off: int, len: nat, position: int): (r: nat)
    ensures r <= len
  {
    Max(0, Min(position - off, len))
  }

  /** Where a block that the loop visits lies relative to the request. */
  lemma BlockBounds(off: nat, len: nat, size: nat, blk: nat)
    requires size > 0 && FirstBlock(off, size) <= blk <= LastBlock(off, len, size)
    ensures off < Offset(blk, size) + size
    ensures len > 0 ==> Offset(blk, size) < off + len
    ensures len == 0 ==> Offset(blk, size) <= off
    ensures Offset(blk + 1, size) == Offset(blk, size) + size
  {
    DivisionBounds(off, size);
    Scaled(off / size, blk, size);
    if off + len > 0 {
      DivisionBounds(off + len - 1, size);
      Scaled(blk, (off + len - 1) / size, size);
    }
  }

  lemma DivisionBounds(x: nat, size: nat)
    requires size > 0
    ensures x / size * size <= x < x / size * size + size
  {}

  lemma Scaled(a: nat, b: nat, size: nat)
    requires a <= b
    ensures a * size <= b * size
    ensures a < b ==> a * size + size <= b * size
  {
    var k := b - a;
    assert b * size == a * size + k * size;
    if k > 0 {
      assert k * size == (k - 1) * size + size;
    }
  }

  lemma BlockNumber(blk: nat, position: nat, size: nat)
    requires size > 0 && Offset(blk, size) <= position < Offset(blk, size) + size
    ensures position / size == blk
  {
    DivisionBounds(position, size);
    if position / size < blk { Scaled(position / size, blk, size); }
    if blk < position / size { Scaled(blk, position / size, size); }
  }

  /** After the last block the whole request is filled. */
  lemma PastTheEnd(off: nat, len: nat, size: nat)
    requires size > 0
    ensures var e := LastBlock(off, len, size);
      FirstBlock(off, size) > e ==> len == 0
    ensures var e := LastBlock(off, len, size);
      e >= 0 ==> Filled(off, len, Offset(e + 1, size)) == len
    ensures Filled(off, len, Offset(FirstBlock(off, size), size)) == 0
  {
    DivisionBounds(off, size);
    if off + len > 0 {
      var e := (off + len - 1) / size;
      DivisionBounds(off + len - 1, size);
      assert Offset(e + 1, size) == e * size + size;
      if len > 0 && off / size > e {
        Scaled(e, off / size, size);
      }
    }
  }

  /** What the server makes of one attempt: it fails, or the response carries this many bytes before it ends. */
  datatype Outcome = Refused | Carried(bytes: nat)

  class CachedReader {
    const content: seq<byte>           // what the remote file holds
    const blockSize: nat
    const server: nat -> Outcome       // the outcome of each attempt, in order
    var cache: map<int, seq<byte>>
    var asked: seq<int>                // the block of each attempt so far
    ghost var source: map<int, nat>        // the attempt that delivered each cached block

    /** The first bytes of the block that attempt `a` brought. */
    ghost function Got(a: nat): nat
      requires a < |asked| && asked[a] >= 0 && server(a).Carried?
      reads this
    {
      Min(server(a).bytes, Available(content, Offset(asked[a], blockSize), blockSize))
    }

    /** The cached block is what its attempt brought. */
    ghost predicate BlockOk(k: int)
      requires k in cache
      reads this
    {
      && k >= 0 && k in source && source[k] < |asked| && asked[source[k]] == k && server(source[k]).Carried?
      && cache[k] == Arrived(content, Offset(k, blockSize), blockSize, Got(source[k]))
    }

    /** Every attempt that did not fail is the one that delivered its block. */
    ghost predicate AttemptOk(a: nat)
      requires a < |asked|
      reads this
    {
      asked[a] >= 0 && (server(a).Carried? ==> asked[a] in cache && asked[a] in source && source[asked[a]] == a)
    }

    ghost predicate Valid()
      reads this
    {
      && blockSize > 0
      && (forall k :: k in cache ==> BlockOk(k))
      && (forall a :: 0 <= a < |asked| ==> AttemptOk(a))
    }

    /** The response for the block of this position ended before it. */
    ghost predicate Lost(position: nat)
      requires blockSize > 0
      reads this
    {
      var k := position / blockSize;
      k in source && position < |content| && source[k] < |asked| && server(source[k]).Carried? &&
        Offset(k, blockSize) + server(source[k]).bytes <= position
    }

    /** What the cache makes of the file at this position: its byte, or zero past the end and where it was lost. */
    ghost function Seen(position: nat): byte
      requires blockSize > 0
      reads this
    {
      if Lost(position) then 0 else Padded(content, position)
    }

    /** The block of this position is cached, and this is its byte there. */
    ghost predicate Shows(b: byte, position: nat)
      requires blockSize > 0
      reads this
    {
      position / blockSize in cache && b == Seen(position)
    }

    constructor (content: seq<byte>, blockSize: nat, server: nat -> Outcome)
      requires blockSize > 0
      ensures Valid() && this.content == content && this.blockSize == blockSize && this.server == server
      ensures cache == map[] && asked == []
    {
      this.content, this.blockSize, this.server := content, blockSize, server;
      cache, asked, source := map[], [], map[];
    }

    /**
      The base reader: one attempt, which fails or delivers a first part of what
      the file has of the block. A response that ends early passes for the end of the file.
     */
    method Fetch(blk: nat) returns (ok: bool, buf: seq<byte>)
      requires blockSize > 0
      modifies this`asked
      ensures asked == old(asked) + [blk]
      ensures ok <==> server(|old(asked)|).Carried?
      ensures ok ==> buf == Arrived(content, Offset(blk, blockSize), blockSize, Got(|old(asked)|))
    {
      var outcome := server(|asked|);
      asked := asked + [blk];
      match outcome
      case Refused => return false, [];
      case Carried(bytes) =>
        var got: nat := Min(bytes, Available(content, Offset(blk, blockSize), blockSize));
        return true, Arrived(content, Offset(blk, blockSize), blockSize, got);
    }

    /** The cached block, fetched first if need be. */
    method Block(blk: nat) returns (ok: bool, data: seq<byte>)
      requires Valid()
      modifies this
      ensures Valid()
      ensures Extends(old(cache), cache)
      ensures forall b, position :: old(Shows(b, position)) ==> Shows(b, position)
      ensures asked == old(asked) + if blk in old(cache) then [] else [blk]
      ensures ok <==> blk in old(cache) || server(|old(asked)|).Carried?
      ensures ok ==> cache.Keys == old(cache.Keys) + {blk} && data == cache[blk]
      ensures !ok ==> cache == old(cache)
    {
      if blk in cache {
        return true, cache[blk];
      }
      ghost var attempt := |asked|;
      ok, data := Fetch(blk);
      if ok {
        cache := cache[blk := data];
        source := source[blk := attempt];
      }
      forall k | k in cache ensures BlockOk(k) {
        assert k in old(cache) ==> old(BlockOk(k));
      }
      forall a | 0 <= a < |asked| ensures AttemptOk(a) {
        assert a < attempt ==> old(AttemptOk(a));
      }
      forall b, position: nat | old(Shows(b, position)) ensures Shows(b, position) {
        assert old(BlockOk(position / blockSize));
      }
    }

    /** Copies the part of one block that the request covers. */
    method CopyBlock(p: array<byte>, off: nat, data: seq<byte>, blockOff: nat) returns (copied: nat)
      requires off < blockOff + |data| && blockOff <= off + p.Length
      modifies p
      ensures Filled(off, p.Length, blockOff) + copied == Filled(off, p.Length, blockOff + |data|)
      ensures forall i :: 0 <= i < p.Length ==>
                if Filled(off, p.Length, blockOff) <= i < Filled(off, p.Length, blockOff + |data|)
                then 0 <= off + i - blockOff < |data| && p[i] == data[off + i - blockOff] else p[i] == old(p[i])
    {
      var blockStart := Max(off, blockOff);
      var blockEnd := Min(off + p.Length, blockOff + |data|);
      forall i | blockStart - off <= i < blockEnd - off {
        p[i] := data[i + off - blockOff];
      }
      copied := blockEnd - blockStart;
    }

    /** A byte of a cached block is what the cache makes of its position. */
    lemma CachedByte(blk: nat, position: nat)
      requires Valid() && blk in cache && Offset(blk, blockSize) <= position < Offset(blk, blockSize) + blockSize
      ensures |cache[blk]| == blockSize && Shows(cache[blk][position - Offset(blk, blockSize)], position)
    {
      assert BlockOk(blk);
      BlockNumber(blk, position, blockSize);
      hide Offset;
    }

    lemma BlockSizeIs(blk: nat)
      requires Valid() && blk in cache
      ensures |cache[blk]| == blockSize
    {
      assert BlockOk(blk);
    }

    /** The attempts from number `from` on all carried something, for blocks from `low` to below `high` not known before. */
    ghost predicate AskedFor(from: nat, low: int, high: int, known: set<int>)
      reads this
    {
      forall a :: from <= a < |asked| ==> server(a).Carried? && asked[a] !in known && low <= asked[a] < high
    }

    /** One block of a request: fetched if need be, and copied as far as the request covers it. */
    method ReadBlock(p: array<byte>, off: nat, blk: nat) returns (copied: nat, ok: bool)
      requires Valid() && off < Offset(blk, blockSize) + blockSize && Offset(blk, blockSize) <= off + p.Length
      modifies this, p
      ensures Valid()
      ensures Extends(old(cache), cache)
      ensures forall b, position :: old(Shows(b, position)) ==> Shows(b, position)
      ensures asked == old(asked) + if blk in old(cache) then [] else [blk]
      ensures ok <==> blk in old(cache) || server(|old(asked)|).Carried?
      ensures !ok ==> copied == 0 && cache == old(cache) && p[..] == old(p[..])
      ensures ok ==> cache.Keys == old(cache.Keys) + {blk}
      ensures ok ==> Filled(off, p.Length, Offset(blk, blockSize)) + copied == Filled(off, p.Length, Offset(blk, blockSize) + blockSize)
      ensures ok ==> forall i :: 0 <= i < p.Length ==>
                if Filled(off, p.Length, Offset(blk, blockSize)) <= i < Filled(off, p.Length, Offset(blk, blockSize) + blockSize)
                then Shows(p[i], off + i) else p[i] == old(p[i])
    {
      hide Filled, Offset, CachedReader.Shows, CachedReader.BlockOk, CachedReader.AttemptOk;
      var data;
      copied := 0;
      ok, data := Block(blk);
      if ok {
        BlockSizeIs(blk);
        copied := CopyBlock(p, off, data, Offset(blk, blockSize));
        ghost var first, last := Filled(off, p.Length, Offset(blk, blockSize)), Filled(off, p.Length, Offset(blk, blockSize) + blockSize);
        forall i | 0 <= i < p.Length && first <= i < last ensures Shows(p[i], off + i) {
          FilledRange(off, p.Length, Offset(blk, blockSize), Offset(blk, blockSize) + blockSize, i);
          CachedByte(blk, off + i);
        }
      }
    }

    /** One turn of the loop: the filled prefix grows over the next block, or the attempt failed. */
    method ReadNext(p: array<byte>, off: nat, blk: nat, read: nat) returns (copied: nat, ok: bool)
      requires Valid() && off < Offset(blk, blockSize) + blockSize && Offset(blk, blockSize) <= off + p.Length
      requires read == Filled(off, p.Length, Offset(blk, blockSize)) && forall i :: 0 <= i < read ==> Shows(p[i], off + i)
      modifies this, p
      ensures Valid() && asked == if blk in old(cache) then old(asked) else old(asked) + [blk]
      ensures Extends(old(cache), cache)
      ensures ok <==> blk in old(cache) || server(|old(asked)|).Carried?
      ensures ok ==> blk in cache && read + copied == Filled(off, p.Length, Offset(blk, blockSize) + blockSize)
      ensures !ok ==> copied == 0
      ensures read + copied <= p.Length
      ensures forall i :: 0 <= i < read + copied ==> Shows(p[i], off + i)
      ensures forall i :: read + copied <= i < p.Length ==> p[i] == old(p[i])
    {
      hide Filled, Offset, CachedReader.Shows, CachedReader.Valid;
      ghost var bytes := p[..];
      copied, ok := ReadBlock(p, off, blk);
      assert old(asked) + [] == old(asked);
      if !ok {
        assert forall i :: 0 <= i < p.Length ==> p[i] == p[..][i] == bytes[i];
      }
    }

    /**
      Fills the buffer with what the cache makes of the file from `off` on and
      returns the full length, unless an attempt of this call failed: then the
      count is exactly the prefix that was filled and the rest is untouched.
      Only blocks of the range that were not cached are asked for, each once.
     */
    method ReadAt(p: array<byte>, off: nat) returns (read: nat, ok: bool)
      requires Valid()
      modifies this, p
      ensures Valid() && old(asked) <= asked
      ensures read <= p.Length && (ok ==> read == p.Length) && (!ok && p.Length > 0 ==> read < p.Length)
      ensures forall i :: 0 <= i < read ==> Shows(p[i], off + i)
      ensures forall i :: read <= i < p.Length ==> p[i] == old(p[i])
      ensures Extends(old(cache), cache)
      ensures ok ==> AskedFor(|old(asked)|, FirstBlock(off, blockSize), LastBlock(off, p.Length, blockSize) + 1, old(cache).Keys)
      ensures !ok ==> |asked| > |old(asked)| && server(|asked| - 1).Refused? && FirstBlock(off, blockSize) <= asked[|asked| - 1] <= LastBlock(off, p.Length, blockSize)
      ensures ok ==> Covers(cache, FirstBlock(off, blockSize), LastBlock(off, p.Length, blockSize) + 1)
    {
      var startBlock, endBlock := FirstBlock(off, blockSize), LastBlock(off, p.Length, blockSize);
      assert blockSize > 0;
      hide FirstBlock, LastBlock, Padded, Filled, Offset, CachedReader.Shows, CachedReader.Valid, Extends, Covers;
      NothingCovered(cache, startBlock, startBlock);
      PastTheEnd(off, p.Length, blockSize);
      read := 0;
      var blk: nat := startBlock;
      while blk <= endBlock
        invariant Valid() && old(asked) <= asked && startBlock <= blk && (blk <= endBlock + 1 || blk == startBlock)
        invariant read == Filled(off, p.Length, Offset(blk, blockSize))
        invariant forall i :: 0 <= i < read ==> Shows(p[i], off + i)
        invariant forall i :: read <= i < p.Length ==> p[i] == old(p[i])
        invariant Extends(old(cache), cache)
        invariant AskedFor(|old(asked)|, startBlock, blk, old(cache).Keys)
        invariant Covers(cache, startBlock, blk)
      {
        BlockBounds(off, p.Length, blockSize, blk);
        FilledPart(off, p.Length, Offset(blk, blockSize));
        ghost var before := cache;
        var copied, blockOk := ReadNext(p, off, blk, read);
        KeptKnown(old(cache), before, cache, blk);
        if !blockOk {
          return read, false;
        }
        Grown(old(cache), before, cache, startBlock, blk, endBlock + 1);
        read := read + copied;
        assert read == Filled(off, p.Length, Offset(blk + 1, blockSize));
        blk := blk + 1;
      }
      CoversWithin(cache, startBlock, blk, endBlock + 1);
      ok := true;
    }
  }

  /** What was cached stays cached. */
  ghost predicate Extends(before: map<int, seq<byte>>, after: map<int, seq<byte>>) {
    forall k :: k in before ==> k in after && after[k] == before[k]
  }

  /** Blocks from `low` to below `high` are cached. */
  ghost predicate Covers(cache: map<int, seq<byte>>, low: int, high: int) {
    forall k :: low <= k < high ==> k in cache
  }

  lemma KeptKnown(start: map<int, seq<byte>>, before: map<int, seq<byte>>, after: map<int, seq<byte>>, blk: int)
    requires Extends(start, before) && Extends(before, after)
    ensures Extends(start, after) && (blk in start ==> blk in before)
  {}

  lemma NothingCovered(cache: map<int, seq<byte>>, low: int, high: int)
    ensures low >= high ==> Covers(cache, low, high)
    ensures Extends(cache, cache)
  {}

  lemma CoversWithin(cache: map<int, seq<byte>>, low: int, blk: int, high: int)
    requires Covers(cache, low, blk) && blk >= high
    ensures Covers(cache, low, high)
  {}

  lemma Grown(start: map<int, seq<byte>>, before: map<int, seq<byte>>, after: map<int, seq<byte>>, low: int, blk: int, high: int)
    requires Extends(start, before) && Extends(before, after) && Covers(before, low, blk) && blk in after
    ensures Extends(start, after) && Covers(after, low, blk + 1) && (forall k :: k in start ==> k in before)
    ensures blk >= high - 1 ==> Covers(after, low, high)
  {}

  lemma FilledRange(off: nat, len: nat, low: nat, high: nat, i: nat)
    requires Filled(off, len, low) <= i < Filled(off, len, high)
    ensures low <= off + i < high
  {}

  lemma FilledPart(off: nat, len: nat, position: nat)
    ensures position < off + len ==> Filled(off, len, position) < len || len == 0
  {}

  // ----- what the cache makes of the file, in terms of the server's outcomes

  /**
    A byte of a cached block is the file's, or zero past its end, unless the one
    response that delivered the block ended before it: then it is zero.
   */
  lemma SeenIs(reader: CachedReader, position: nat, a: nat)
    requires reader.Valid() && a < |reader.asked| && reader.asked[a] == position / reader.blockSize && reader.server(a).Carried?
    ensures reader.Seen(position) ==
            if position < |reader.content| && position % reader.blockSize < reader.server(a).bytes then reader.content[position] else 0
  {
    assert reader.AttemptOk(a);
    DivisionBounds(position, reader.blockSize);
    assert position == position / reader.blockSize * reader.blockSize + position % reader.blockSize;
  }

  /** Every cached block was delivered by one attempt that did not fail, and no other such attempt asked for it. */
  lemma DeliveredOnce(reader: CachedReader, k: int)
    requires reader.Valid()
    ensures k in reader.cache <==> exists a :: 0 <= a < |reader.asked| && reader.asked[a] == k && reader.server(a).Carried?
    ensures forall a, b :: 0 <= a < b < |reader.asked| && reader.asked[a] == reader.asked[b] ==> !reader.server(a).Carried? || !reader.server(b).Carried?
  {
    if k in reader.cache {
      assert reader.BlockOk(k);
    }
    forall a | 0 <= a < |reader.asked| && reader.server(a).Carried?
      ensures reader.asked[a] in reader.cache && reader.asked[a] in reader.source && reader.source[reader.asked[a]] == a
    {
      assert reader.AttemptOk(a);
    }
  }

  /** With a server that answers every attempt in full, a read succeeds and the buffer is the file continued with zeros. */
  method ReadFromGoodServer(reader: CachedReader, p: array<byte>, off: nat) returns (read: nat, ok: bool)
    requires reader.Valid() && forall a :: reader.server(a).Carried? && reader.server(a).bytes >= reader.blockSize
    modifies reader, p
    ensures ok && read == p.Length
    ensures forall i :: 0 <= i < p.Length ==> p[i] == if off + i < |reader.content| then reader.content[off + i] else 0
  {
    read, ok := reader.ReadAt(p, off);
    forall i | 0 <= i < p.Length ensures p[i] == if off + i < |reader.content| then reader.content[off + i] else 0 {
      GoodByte(reader, p[i], off + i);
    }
  }

  lemma GoodByte(reader: CachedReader, b: byte, position: nat)
    requires reader.Valid() && reader.Shows(b, position)
    requires forall a :: reader.server(a).Carried? && reader.server(a).bytes >= reader.blockSize
    ensures b == if position < |reader.content| then reader.content[position] else 0
  {
    DeliveredOnce(reader, position / reader.blockSize);
    var a :| 0 <= a < |reader.asked| && reader.asked[a] == position / reader.blockSize && reader.server(a).Carried?;
    SeenIs(reader, position, a);
  }

  /**
    The buffer holds the remote file, continued with zeros, exactly when no
    non-zero byte of the range was cut off by a response that ended early.
   */
  lemma FaithfulIff(reader: CachedReader, off: nat, read: nat)
    requires reader.Valid()
    ensures (forall at: nat :: off <= at < off + read ==> reader.Seen(at) == Padded(reader.content, at)) <==>
            forall at: nat :: off <= at < off + read && reader.Lost(at) ==> Padded(reader.content, at) == 0
  {
    hide CachedReader.Lost, Padded;
    forall at: nat | off <= at < off + read
      ensures reader.Seen(at) == Padded(reader.content, at) <==> (reader.Lost(at) ==> Padded(reader.content, at) == 0)
    {}
  }
}
