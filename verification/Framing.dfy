/** Length-prefixed messages over a byte stream that the transport may split anywhere. */
module Framing {
  import opened Wrappers
  import opened Basics

  type Bytes = seq<byte>

  const MAX_MSG_SIZE: nat := 1048576
  const TWO_32: nat := 0x1_0000_0000

  datatype FrameError = NoSize | ZeroSize | TooLarge | NoPayload

  /** Big-endian bytes of a 32-bit number. */
  function ToBe(n: nat): (r: Bytes)
    requires n < TWO_32
    ensures |r| == 4
  {
    var high := n / 0x100;
    var higher := high / 0x100;
    [(higher / 0x100) as byte, (higher % 0x100) as byte, (high % 0x100) as byte, (n % 0x100) as byte]
  }

  function FromBe(b: Bytes): (n: nat)
    requires |b| == 4
    ensures n < TWO_32
  {
    b[0] as nat * 0x100_0000 + b[1] as nat * 0x1_0000 + b[2] as nat * 0x100 + b[3] as nat
  }

  /** The most significant byte comes first. */
  lemma BeValue(n: nat)
    requires n < TWO_32
    ensures var b := ToBe(n);
      n == b[0] as int * 0x100_0000 + b[1] as int * 0x1_0000 + b[2] as int * 0x100 + b[3] as int
  {}

  lemma BeRoundTrip(n: nat)
    requires n < TWO_32
    ensures FromBe(ToBe(n)) == n
  {}

  function ValidateSize(size: nat): Option<FrameError> {
    if size == 0 then Some(ZeroSize) else if size > MAX_MSG_SIZE then Some(TooLarge) else None
  }

  /** What writing a message puts on the stream; the length is cast to 32 bits unchecked. */
  function Frame(payload: Bytes): Bytes { ToBe(|payload| % TWO_32) + payload }

  /** What reading one message makes of a stream, and what it leaves there. */
  function Decode(stream: Bytes): (Result<Bytes, FrameError>, Bytes) {
    if |stream| < 4 then (Failure(NoSize), [])
    else
      var size := FromBe(stream[..4]);
      var rest := stream[4..];
      match ValidateSize(size)
      case Some(e) => (Failure(e), rest)
      case None => if |rest| < size then (Failure(NoPayload), []) else (Success(rest[..size]), rest[size..])
  }

  /** A transport that hands over and takes any non-empty part at a time. */
  class Transport {
    var incoming: Bytes
    var outgoing: Bytes

    constructor (incoming: Bytes)
      ensures this.incoming == incoming && outgoing == []
    {
      this.incoming, outgoing := incoming, [];
    }

    method Read(max: nat) returns (got: Bytes)
      requires max > 0
      modifies this`incoming
      ensures |got| <= max && old(incoming) == got + incoming
      ensures got == [] <==> old(incoming) == []
    {
      if incoming == [] {
        return [];
      }
      var n: nat :| 1 <= n <= max && n <= |incoming|;
      got, incoming := incoming[..n], incoming[n..];
    }

    method Write(bytes: Bytes) returns (accepted: nat)
      requires bytes != []
      modifies this`outgoing
      ensures 1 <= accepted <= |bytes| && outgoing == old(outgoing) + bytes[..accepted]
    {
      accepted :| 1 <= accepted <= |bytes|;
      outgoing := outgoing + bytes[..accepted];
    }

    /** Reads until the buffer is full or the stream ends. */
    method ReadExact(size: nat) returns (ok: bool, buf: Bytes)
      modifies this`incoming
      ensures ok <==> |old(incoming)| >= size
      ensures ok ==> buf == old(incoming)[..size] && incoming == old(incoming)[size..]
      ensures !ok ==> incoming == []
    {
      buf := [];
      while |buf| < size
        invariant |buf| <= size && old(incoming) == buf + incoming
        decreases size - |buf|
      {
        var got := Read(size - |buf|);
        if got == [] {
          return false, buf;
        }
        assert buf + (got + incoming) == buf + got + incoming;
        buf := buf + got;
      }
      return true, buf;
    }

    method WriteAll(bytes: Bytes)
      modifies this`outgoing
      ensures outgoing == old(outgoing) + bytes
    {
      var rest := bytes;
      while rest != []
        invariant outgoing + rest == old(outgoing) + bytes
        decreases |rest|
      {
        ghost var before := outgoing;
        var n := Write(rest);
        assert before + rest[..n] + rest[n..] == before + rest;
        rest := rest[n..];
      }
      assert outgoing + [] == outgoing;
    }

    method WriteMsg(payload: Bytes)
      modifies this`outgoing
      ensures outgoing == old(outgoing) + Frame(payload)
    {
      var size := |payload| % TWO_32;
      WriteAll(ToBe(size));
      WriteAll(payload);
      assert old(outgoing) + ToBe(size) + payload == old(outgoing) + (ToBe(size) + payload);
    }

    method ReadMsg() returns (r: Result<Bytes, FrameError>)
      modifies this`incoming
      ensures (r, incoming) == Decode(old(incoming))
    {
      var ok, sizeBuf := ReadExact(4);
      if !ok {
        return Failure(NoSize);
      }
      var size := FromBe(sizeBuf);
      var invalid := ValidateSize(size);
      if invalid.Some? {
        return Failure(invalid.value);
      }
      var payload;
      ok, payload := ReadExact(size);
      if !ok {
        return Failure(NoPayload);
      }
      return Success(payload);
    }
  }

  // ----- the protocol's promises

  /** One frame is read back, and nothing after it touched, exactly for the admissible sizes. */
  lemma FrameRoundTripIff(payload: Bytes, rest: Bytes)
    ensures Decode(Frame(payload) + rest) == (Success(payload), rest) <==> 1 <= |payload| <= 1048576
  {
    var size := |payload| % TWO_32;
    var stream := Frame(payload) + rest;
    BeRoundTrip(size);
    assert stream[..4] == ToBe(size) && stream[4..] == payload + rest;
    if 1 <= |payload| <= MAX_MSG_SIZE {
      assert (payload + rest)[..size] == payload && (payload + rest)[size..] == rest;
    }
  }

  /** An empty or oversize frame is rejected with only its four size bytes consumed. */
  lemma BadSizeConsumesNoPayload(size: nat, rest: Bytes)
    requires size < TWO_32
    ensures var r := Decode(ToBe(size) + rest);
            size == 0 || size > 1048576 ==> r == (Failure(if size == 0 then ZeroSize else TooLarge), rest)
  {
    BeRoundTrip(size);
    assert (ToBe(size) + rest)[..4] == ToBe(size) && (ToBe(size) + rest)[4..] == rest;
  }

  /** Every outcome of reading: too few bytes for a size, a bad size, too few for the payload, a message. */
  lemma DecodeCases(stream: Bytes, size: Bytes, rest: Bytes)
    requires |stream| < 4 && |size| == 4
    ensures Decode(stream) == (Failure(NoSize), [])
    ensures var n := size[0] as int * 0x100_0000 + size[1] as int * 0x1_0000 + size[2] as int * 0x100 + size[3] as int;
      Decode(size + rest) ==
        if n == 0 then (Failure(ZeroSize), rest)
        else if n > 1048576 then (Failure(TooLarge), rest)
        else if |rest| < n then (Failure(NoPayload), [])
        else (Success(rest[..n]), rest[n..])
  {
    assert (size + rest)[..4] == size && (size + rest)[4..] == rest;
  }

  function Frames(payloads: seq<Bytes>): Bytes {
    if payloads == [] then [] else Frame(payloads[0]) + Frames(payloads[1..])
  }

  ghost predicate Admissible(payloads: seq<Bytes>) {
    forall i :: 0 <= i < |payloads| ==> 1 <= |payloads[i]| <= 1048576
  }

  /** Writes a list of messages and reads as many back. */
  method SendAll(t: Transport, payloads: seq<Bytes>)
    modifies t`outgoing
    ensures t.outgoing == old(t.outgoing) + Frames(payloads)
  {
    hide Frame;
    if payloads != [] {
      ghost var first, others := Frame(payloads[0]), Frames(payloads[1..]);
      t.WriteMsg(payloads[0]);
      SendAll(t, payloads[1..]);
      assert old(t.outgoing) + first + others == old(t.outgoing) + (first + others);
    }
  }

  method ReceiveAll(t: Transport, count: nat, ghost payloads: seq<Bytes>, ghost rest: Bytes) returns (messages: seq<Bytes>)
    requires count == |payloads| && Admissible(payloads) && t.incoming == Frames(payloads) + rest
    modifies t`incoming
    ensures messages == payloads && t.incoming == rest
  {
    messages := [];
    for i := 0 to count
      invariant messages == payloads[..i] && t.incoming == Frames(payloads[i..]) + rest
    {
      assert payloads[i..][1..] == payloads[i + 1..];
      assert t.incoming == Frame(payloads[i]) + (Frames(payloads[i + 1..]) + rest);
      FrameRoundTripIff(payloads[i], Frames(payloads[i + 1..]) + rest);
      var r := t.ReadMsg();
      messages := messages + [r.value];
    }
    assert payloads[count..] == [] && Frames([]) + rest == rest;
  }
}
