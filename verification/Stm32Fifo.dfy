/** The byte queue between the USB reception callback and the protocol: a ring buffer that cannot
    tell full from empty. */
module Stm32Fifo {
  import opened Crc8

  const MAX_SIZE := 40

  /** The queue after one more byte: the 40th pending byte empties the ring. */
  function Push(q: seq<Byte>, b: Byte): seq<Byte> {
    if |q| == MAX_SIZE - 1 then [] else q + [b]
  }

  function PushAll(q: seq<Byte>, bytes: seq<Byte>): seq<Byte> {
    if bytes == [] then q else Push(PushAll(q, bytes[..|bytes| - 1]), bytes[|bytes| - 1])
  }

  lemma NextModulo(m: nat)
    ensures (m + 1) % MAX_SIZE == if m % MAX_SIZE == MAX_SIZE - 1 then 0 else m % MAX_SIZE + 1
  {
  }

  lemma {:induction false} PendingIsModulo(q: seq<Byte>, bytes: seq<Byte>)
    requires |q| < MAX_SIZE
    ensures |PushAll(q, bytes)| == (|q| + |bytes|) % MAX_SIZE
  {
    if bytes != [] {
      PendingIsModulo(q, bytes[..|bytes| - 1]);
      NextModulo(|q| + |bytes| - 1);
    }
  }

  lemma {:induction false} PushAllAppends(q: seq<Byte>, bytes: seq<Byte>)
    requires |q| + |bytes| < MAX_SIZE
    ensures PushAll(q, bytes) == q + bytes
  {
    if bytes == [] {
      assert q + bytes == q;
    } else {
      var n := |bytes| - 1;
      PushAllAppends(q, bytes[..n]);
      assert q + bytes == (q + bytes[..n]) + [bytes[n]];
    }
  }

  /** The ring is a first-in, first-out queue exactly as long as no more than 39 bytes are pending. */
  lemma QueueIffNotFull(q: seq<Byte>, bytes: seq<Byte>)
    requires |q| < 40
    ensures PushAll(q, bytes) == q + bytes <==> |q| + |bytes| < 40
    ensures |PushAll(q, bytes)| == (|q| + |bytes|) % 40 < 40
  {
    hide PushAll;
    PendingIsModulo(q, bytes);
    if |q| + |bytes| < MAX_SIZE { PushAllAppends(q, bytes); }
  }

  class Fifo {
    const buffer: array<Byte>
    var begin: nat
    var end: nat

    ghost predicate Valid()
      reads this, buffer
    {
      buffer.Length == MAX_SIZE && begin < MAX_SIZE && end < MAX_SIZE
    }

    /** The pending bytes, oldest first. */
    ghost function Contents(): (q: seq<Byte>)
      reads this, buffer
      requires Valid()
      ensures |q| < MAX_SIZE && (q == [] <==> begin == end)
    {
      if begin <= end then buffer[begin..end] else buffer[begin..] + buffer[..end]
    }

    constructor ()
      ensures Valid() && fresh(buffer) && Contents() == []
    {
      buffer := new Byte[MAX_SIZE](_ => 0);
      begin, end := 0, 0;
    }

    /** push_byte. */
    method PushByte(value: Byte)
      requires Valid()
      modifies this, buffer
      ensures Valid() && Contents() == Push(old(Contents()), value)
    {
      buffer[end] := value;
      end := end + 1;
      if end == MAX_SIZE { end := 0; }
    }

    /** pop_byte. */
    method PopByte() returns (value: Byte)
      requires Valid() && begin != end
      modifies `begin
      ensures Valid() && old(Contents()) == [value] + Contents()
    {
      value := buffer[begin];
      begin := begin + 1;
      if begin == MAX_SIZE { begin := 0; }
    }

    /** devstm32_pushBytes. */
    method PushBytes(bytes: seq<Byte>)
      requires Valid()
      modifies this, buffer
      ensures Valid() && Contents() == PushAll(old(Contents()), bytes)
    {
      var i := 0;
      while i < |bytes|
        invariant 0 <= i <= |bytes| && Valid() && Contents() == PushAll(old(Contents()), bytes[..i])
      {
        assert bytes[..i + 1][..i] == bytes[..i];
        PushByte(bytes[i]);
        i := i + 1;
      }
      assert bytes[..i] == bytes;
    }

    /** devstm32_read: what is pending, up to the size of the buffer. */
    method Read(bufferSize: nat) returns (bytes: seq<Byte>)
      requires Valid()
      modifies `begin
      ensures Valid() && old(Contents()) == bytes + Contents()
      ensures |bytes| == if bufferSize < |old(Contents())| then bufferSize else |old(Contents())|
    {
      hide Contents;
      ghost var q := Contents();
      bytes := [];
      while begin != end && |bytes| < bufferSize
        invariant Valid() && |bytes| <= bufferSize && |bytes| <= |q|
        invariant bytes == q[..|bytes|] && Contents() == q[|bytes|..]
        decreases bufferSize - |bytes|
      {
        var b := PopByte();
        assert q[|bytes|] == b;
        bytes := bytes + [b];
      }
    }
  }
}
