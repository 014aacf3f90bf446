/** Entity B: the Selective-Repeat receiver. It buffers intact packets whose
    sequence numbers fall in its window, hands the payloads of the contiguous
    run starting at `expectedseq` to the application in order, and
    acknowledges every intact packet individually. */
module Receiver {
  import opened Packets
  import opened Slots
  import opened Emulator

  /** The received flags after an intact packet numbered `n` arrives: set for
      `n` when it lies in the window starting at `expected`. */
  function Stored(received: seq<bool>, expected: int, n: int): (r: seq<bool>)
    requires InWindow(n, expected) ==> 0 <= n < |received|
    ensures |r| == |received|
    ensures forall i :: 0 <= i < |r| ==> r[i] == (received[i] || (i == n && InWindow(n, expected)))
  {
    if InWindow(n, expected) then received[n := true] else received
  }

  /** The arrays are indexed by unreduced sequence numbers: an in-window
      packet's number must be a slot, and so must every flag the delivery
      scan reads, including the clear one it stops at. */
  predicate InputIndexable(received: seq<bool>, expected: int, n: int)
    requires 0 <= expected <= |received|
  {
    (InWindow(n, expected) ==> n < |received|)
    && RunEnd(Stored(received, expected, n), expected, |received|) < |received|
  }

  /** A buffered or delivered packet: intact, and numbered by its position. */
  predicate Holds(p: Packet, n: int)
  {
    p.seqnum == n && !IsCorrupted(p)
  }

  /** Every flagged slot lies in [lo, hi) and holds the intact packet of its
      own number. */
  ghost predicate Pending(buffer: seq<Packet>, received: seq<bool>, lo: int, hi: int)
    requires |buffer| == |received|
  {
    forall i :: 0 <= i < |received| && received[i] ==> lo <= i < hi && Holds(buffer[i], i)
  }

  /** Storing an intact packet under its own number keeps every flagged slot
      inside the window starting at `e` and holding the intact packet of its
      number; the new packet may be the one at `e` itself. */
  lemma StoreKeepsPending(buffer: seq<Packet>, received: seq<bool>, e: int, p: Packet)
    requires |buffer| == |received| == SEQSPACE
    requires Pending(buffer, received, e + 1, e + WINDOWSIZE)
    requires !IsCorrupted(p) && (InWindow(p.seqnum, e) ==> 0 <= p.seqnum < SEQSPACE)
    ensures var n := p.seqnum;
      Pending(if InWindow(n, e) then buffer[n := p] else buffer, Stored(received, e, n), e, e + WINDOWSIZE)
  {
  }

  /** After the delivery scan clears the run [e, k) it stopped at, what stays
      flagged lies strictly above `k` and within its window, and every
      delivered slot held the intact packet of its own number. */
  lemma DeliveryKeepsPending(buffer: seq<Packet>, flags: seq<bool>, after: seq<bool>, e: int, k: int)
    requires |buffer| == |flags| == |after| == SEQSPACE && 0 <= e <= SEQSPACE
    requires k == RunEnd(flags, e, SEQSPACE) < SEQSPACE
    requires Pending(buffer, flags, e, e + WINDOWSIZE)
    requires forall i :: 0 <= i < SEQSPACE ==> after[i] == (flags[i] && !(e <= i < k))
    ensures Pending(buffer, after, k + 1, k + WINDOWSIZE)
    ensures forall i :: e <= i < k ==> Holds(buffer[i], i)
  {
  }

  /** With the slot at `expected` clear, as between calls, an intact packet
      makes the delivery scan advance exactly when it carries the expected
      sequence number. */
  lemma DeliversIffExpected(received: seq<bool>, expected: int, n: int)
    requires 0 <= expected < |received| && !received[expected]
    requires InWindow(n, expected) ==> n < |received|
    ensures RunEnd(Stored(received, expected, n), expected, |received|) > expected <==> n == expected
  {
  }

  /** Entity B with its module-level state. */
  class EntityB {
    /** rb_buffer: the packet received under each sequence number. */
    const buffer: array<Packet>
    /** rb_received: whether that slot holds a packet not yet delivered. */
    const received: array<bool>
    var expectedseq: int
    /** The packets whose payloads went to the application since B_init,
        oldest first. */
    ghost var delivered: seq<Packet>
    /** The calls B has made into the emulator, oldest first. */
    ghost var log: seq<Event>

    /** The object invariant. Only slots above `expectedseq` and inside its
        window can be flagged, each holding the intact packet of that number;
        the i-th delivery was the intact packet numbered i. */
    ghost predicate Valid()
      reads this, buffer, received
    {
      buffer.Length == SEQSPACE && received.Length == SEQSPACE
      && 0 <= expectedseq <= SEQSPACE
      && Pending(buffer[..], received[..], expectedseq + 1, expectedseq + WINDOWSIZE)
      && |delivered| == expectedseq
      && (forall i :: 0 <= i < |delivered| ==> Holds(delivered[i], i))
    }

    /** The zero-filled static storage of the C program. */
    constructor ()
      ensures Valid() && fresh(buffer) && fresh(received)
      ensures expectedseq == 0 && delivered == [] && log == []
      ensures forall i :: 0 <= i < SEQSPACE ==> !received[i]
    {
      buffer := new Packet[SEQSPACE](_ => BLANK);
      received := new bool[SEQSPACE](_ => false);
      expectedseq := 0;
      delivered, log := [], [];
    }

    /** B_init: expect sequence number 0 with no slot flagged. The buffered
        packets are left as they are. */
    method Init()
      requires buffer.Length == SEQSPACE && received.Length == SEQSPACE
      modifies this, received
      ensures Valid()
      ensures expectedseq == 0 && delivered == [] && log == old(log)
      ensures forall i :: 0 <= i < SEQSPACE ==> !received[i]
    {
      expectedseq := 0;
      for i := 0 to SEQSPACE
        invariant expectedseq == 0 && log == old(log)
        invariant forall j :: 0 <= j < i ==> !received[j]
      {
        received[i] := false;
      }
      delivered := [];
    }

    /** The buffering step of B_input: an intact packet inside the window
        goes into the slot of its sequence number, which is flagged. */
    method Store(packet: Packet)
      requires buffer.Length == SEQSPACE && received.Length == SEQSPACE
      requires InWindow(packet.seqnum, expectedseq) ==> 0 <= packet.seqnum < SEQSPACE
      modifies buffer, received
      ensures buffer[..] == if InWindow(packet.seqnum, expectedseq) then old(buffer[..])[packet.seqnum := packet] else old(buffer[..])
      ensures received[..] == Stored(old(received[..]), expectedseq, packet.seqnum)
    {
      var n := packet.seqnum;
      if n >= expectedseq && n < expectedseq + WINDOWSIZE {
        buffer[n] := packet;
        received[n] := true;
      }
    }

    /** The delivery scan of B_input: while the slot at `expectedseq` is
        flagged, hand its payload to the application, clear the flag and
        advance. It stops at the first clear flag, which must be a slot. */
    method Deliver()
      requires buffer.Length == SEQSPACE && received.Length == SEQSPACE
      requires 0 <= expectedseq <= SEQSPACE
      requires RunEnd(received[..], expectedseq, SEQSPACE) < SEQSPACE
      modifies this, received
      ensures expectedseq == RunEnd(old(received[..]), old(expectedseq), SEQSPACE)
      ensures forall i :: 0 <= i < SEQSPACE ==>
        received[i] == (old(received[i]) && !(old(expectedseq) <= i < expectedseq))
      ensures delivered == old(delivered) + buffer[old(expectedseq)..expectedseq]
      ensures log == old(log) + Deliveries(buffer[old(expectedseq)..expectedseq])
    {
      ghost var e := expectedseq;
      ghost var flags := received[..];
      while received[expectedseq]
        modifies this, received
        invariant e <= expectedseq <= RunEnd(flags, e, SEQSPACE) < SEQSPACE
        invariant forall i :: 0 <= i < SEQSPACE ==> received[i] == (flags[i] && !(e <= i < expectedseq))
        invariant delivered == old(delivered) + buffer[e..expectedseq]
        invariant log == old(log) + Deliveries(buffer[e..expectedseq])
        decreases SEQSPACE - expectedseq
      {
        assert flags[expectedseq];
        assert buffer[e..expectedseq + 1] == buffer[e..expectedseq] + [buffer[expectedseq]];
        log := log + [ToLayer5(buffer[expectedseq].payload)];
        delivered := delivered + [buffer[expectedseq]];
        received[expectedseq] := false;
        expectedseq := expectedseq + 1;
      }
    }

    /** B_input: ignore a corrupted packet. Otherwise buffer an in-window
        packet, deliver the contiguous run of flagged slots from
        `expectedseq` (clearing each and advancing `expectedseq`), and send
        one acknowledgment carrying the packet's sequence number, whether or
        not the packet was in the window. `junk` is the uninitialised payload
        of the acknowledgment. */
    method Input(packet: Packet, junk: Payload)
      requires Valid()
      requires !IsCorrupted(packet) ==> InputIndexable(received[..], expectedseq, packet.seqnum)
      modifies this, buffer, received
      ensures Valid()
      ensures IsCorrupted(packet) ==>
        expectedseq == old(expectedseq) && buffer[..] == old(buffer[..])
        && received[..] == old(received[..]) && delivered == old(delivered) && log == old(log)
      ensures !IsCorrupted(packet) ==>
        var e, n := old(expectedseq), packet.seqnum;
        var flags := Stored(old(received[..]), e, n);
        buffer[..] == (if InWindow(n, e) then old(buffer[..])[n := packet] else old(buffer[..]))
        && expectedseq == RunEnd(flags, e, SEQSPACE)
        && (forall i :: 0 <= i < SEQSPACE ==> received[i] == (flags[i] && !(e <= i < expectedseq)))
        && e <= expectedseq < SEQSPACE && !received[expectedseq]
        && delivered == old(delivered) + buffer[e..expectedseq]
        && log == old(log) + Deliveries(buffer[e..expectedseq]) + [ToLayer3(AckPacket(n, junk))]
    {
      if packet.checksum != ComputeChecksum(packet) {
        return;
      }
      var n := packet.seqnum;
      Store(packet);
      ghost var e := expectedseq;
      ghost var flags, stored := received[..], buffer[..];
      StoreKeepsPending(old(buffer[..]), old(received[..]), e, packet);
      Deliver();
      DeliveryKeepsPending(stored, flags, received[..], e, expectedseq);
      var ack := Packet(0, n, 0, junk);
      ack := ack.(checksum := ComputeChecksum(ack));
      assert ack == AckPacket(n, junk);
      log := log + [ToLayer3(ack)];
    }
  }
}
