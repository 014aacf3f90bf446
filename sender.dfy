/** Entity A: the Selective-Repeat sender. It buffers every packet it sends
    in the slot named by its sequence number, records per-slot
    acknowledgments, slides `base` over acknowledged slots and, on a timeout,
    resends every packet of the window still unacknowledged. */
module Sender {
  import opened Packets
  import opened Slots
  import opened Emulator

  /** The part of A's state that acknowledgments act on: the acked flags and
      the counters `base` (oldest unacknowledged sequence number) and `next`
      (next sequence number to assign). */
  datatype Window = Window(acked: seq<bool>, base: int, next: int)

  /** What holds between events: no more than WINDOWSIZE packets outstanding,
      every sequence number assigned so far is a valid slot, and the slot at
      `base` is unacknowledged unless nothing is outstanding. */
  ghost predicate WindowInv(w: Window)
  {
    |w.acked| == SEQSPACE
    && 0 <= w.base <= w.next <= w.base + WINDOWSIZE
    && w.next <= SEQSPACE
    && (w.base < w.next ==> !w.acked[w.base])
  }

  /** An acknowledgment number inside the window is used as an index into the
      acked array, unreduced; it must be a slot. */
  predicate AckIndexable(w: Window, ack: int)
  {
    InWindow(ack, w.base) ==> ack < |w.acked|
  }

  /** The effect of one intact acknowledgment: an in-window `ack` marks its
      own slot only (even one not yet sent), and `base` then slides over the
      run of acknowledged slots, never past `next`. */
  function AckStep(w: Window, ack: int): (r: Window)
    requires WindowInv(w) && AckIndexable(w, ack)
    ensures WindowInv(r) && AckIndexable(r, ack)
    ensures r.next == w.next && w.base <= r.base
    ensures r.acked == if InWindow(ack, w.base) then w.acked[ack := true] else w.acked
    ensures forall i :: w.base <= i < r.base ==> r.acked[i]
    ensures r.base != w.base ==> ack == w.base
  {
    var acked := if InWindow(ack, w.base) then w.acked[ack := true] else w.acked;
    Window(acked, RunEnd(acked, w.base, w.next), w.next)
  }

  /** Delivering the same intact acknowledgment twice has the effect of
      delivering it once. */
  lemma AckIdempotent(w: Window, ack: int)
    requires WindowInv(w) && AckIndexable(w, ack)
    ensures AckStep(AckStep(w, ack), ack) == AckStep(w, ack)
  {
  }

  /** The unacknowledged slots in [lo, hi), scanned upwards. Only slots of
      that range that are unacknowledged appear; UnackedSlotsExact adds that
      all of them appear, each once, in increasing order. */
  function UnackedSlots(acked: seq<bool>, lo: int, hi: int): (r: seq<int>)
    requires 0 <= lo <= hi <= |acked|
    ensures forall k :: 0 <= k < |r| ==> lo <= r[k] < hi && !acked[r[k]]
    decreases hi - lo
  {
    if lo == hi then []
    else if acked[hi - 1] then UnackedSlots(acked, lo, hi - 1)
    else UnackedSlots(acked, lo, hi - 1) + [hi - 1]
  }

  /** The scan lists every unacknowledged slot of [lo, hi), in strictly
      increasing order (so none twice). */
  lemma {:induction false} UnackedSlotsExact(acked: seq<bool>, lo: int, hi: int)
    requires 0 <= lo <= hi <= |acked|
    ensures var r := UnackedSlots(acked, lo, hi);
      (forall k, l :: 0 <= k < l < |r| ==> r[k] < r[l])
      && (forall i :: lo <= i < hi && !acked[i] ==> i in r)
    decreases hi - lo
  {
    if lo < hi {
      UnackedSlotsExact(acked, lo, hi - 1);
    }
  }

  /** The transmissions of a scan of [lo, hi) that resends each
      unacknowledged slot's buffered packet: one per unacknowledged slot, the
      k-th carrying the packet of the k-th slot UnackedSlots lists. */
  function Resends(buffer: seq<Packet>, acked: seq<bool>, lo: int, hi: int): (r: seq<Event>)
    requires 0 <= lo <= hi <= |buffer| && hi <= |acked|
    ensures var slots := UnackedSlots(acked, lo, hi);
      |r| == |slots| && forall k :: 0 <= k < |r| ==> r[k] == ToLayer3(buffer[slots[k]])
    decreases hi - lo
  {
    if lo == hi then []
    else if acked[hi - 1] then Resends(buffer, acked, lo, hi - 1)
    else Resends(buffer, acked, lo, hi - 1) + [ToLayer3(buffer[hi - 1])]
  }

  /** Slots [base, next) hold the intact data packets built from the
      messages accepted under those sequence numbers. */
  ghost predicate Buffered(buffer: seq<Packet>, accepted: seq<Payload>, base: int, next: int)
  {
    0 <= base <= next <= |buffer| && next <= |accepted|
    && forall i :: base <= i < next ==> buffer[i] == DataPacket(i, accepted[i])
  }

  /** While the outstanding slots hold what was accepted, a timeout resends,
      for each unacknowledged slot in turn, the data packet built from the
      message accepted under that sequence number. */
  lemma ResendsAccepted(buffer: seq<Packet>, accepted: seq<Payload>, acked: seq<bool>, base: int, next: int)
    requires Buffered(buffer, accepted, base, next) && next <= |acked|
    ensures var r, slots := Resends(buffer, acked, base, next), UnackedSlots(acked, base, next);
      |r| == |slots|
      && forall k :: 0 <= k < |r| ==> r[k] == ToLayer3(DataPacket(slots[k], accepted[slots[k]]))
  {
  }

  /** Entity A with its module-level state. */
  class EntityA {
    /** sr_buffer: the packet last sent under each sequence number. */
    const buffer: array<Packet>
    /** sr_acked: whether each sequence number has been acknowledged. */
    const acked: array<bool>
    var base: int
    var nextseqnum: int
    /** The emulator's packets_resent counter. */
    var resent: int
    /** The messages accepted since A_init, indexed by sequence number. */
    ghost var accepted: seq<Payload>
    /** The calls A has made into the emulator, oldest first. */
    ghost var log: seq<Event>

    ghost function View(): Window
      reads this, acked
    {
      Window(acked[..], base, nextseqnum)
    }

    /** The object invariant: the window invariant, and every outstanding slot
        holds the intact data packet built from the message accepted under
        its sequence number. */
    ghost predicate Valid()
      reads this, buffer, acked
    {
      buffer.Length == SEQSPACE && acked.Length == SEQSPACE
      && WindowInv(View())
      && |accepted| == nextseqnum
      && Buffered(buffer[..], accepted, base, nextseqnum)
    }

    /** The zero-filled static storage of the C program. */
    constructor ()
      ensures Valid() && fresh(buffer) && fresh(acked)
      ensures base == 0 && nextseqnum == 0 && resent == 0
      ensures accepted == [] && log == []
      ensures forall i :: 0 <= i < SEQSPACE ==> !acked[i]
    {
      buffer := new Packet[SEQSPACE](_ => BLANK);
      acked := new bool[SEQSPACE](_ => false);
      base, nextseqnum, resent := 0, 0, 0;
      accepted, log := [], [];
    }

    /** A_init: empty window, every slot unacknowledged. The buffered packets
        are left as they are. */
    method Init()
      requires buffer.Length == SEQSPACE && acked.Length == SEQSPACE
      modifies this, acked
      ensures Valid()
      ensures base == 0 && nextseqnum == 0 && accepted == []
      ensures forall i :: 0 <= i < SEQSPACE ==> !acked[i]
      ensures resent == old(resent) && log == old(log)
    {
      base := 0;
      nextseqnum := 0;
      for i := 0 to SEQSPACE
        invariant base == 0 && nextseqnum == 0
        invariant resent == old(resent) && log == old(log)
        invariant forall j :: 0 <= j < i ==> !acked[j]
      {
        acked[i] := false;
      }
      accepted := [];
    }

    /** A_output: if the window has room, build the data packet for the
        message under the next sequence number, buffer it unacknowledged, send
        it, start the timer if it is the only outstanding packet, and advance
        `nextseqnum`; otherwise drop the message. */
    method Output(message: Payload)
      requires Valid()
      requires nextseqnum < base + WINDOWSIZE ==> nextseqnum < SEQSPACE
      modifies this, buffer, acked
      ensures Valid() && resent == old(resent)
      ensures old(nextseqnum) >= old(base) + WINDOWSIZE ==>
        base == old(base) && nextseqnum == old(nextseqnum)
        && buffer[..] == old(buffer[..]) && acked[..] == old(acked[..])
        && accepted == old(accepted) && log == old(log)
      ensures old(nextseqnum) < old(base) + WINDOWSIZE ==>
        var n := old(nextseqnum);
        base == old(base) && nextseqnum == n + 1
        && buffer[..] == old(buffer[..])[n := DataPacket(n, message)]
        && acked[..] == old(acked[..])[n := false]
        && accepted == old(accepted) + [message]
        && log == old(log) + [ToLayer3(DataPacket(n, message))]
                           + (if old(base) == n then [StartTimer] else [])
    {
      if nextseqnum < base + WINDOWSIZE {
        var p := Packet(nextseqnum, NO_ACK, 0, message);
        p := p.(checksum := ComputeChecksum(p));
        buffer[nextseqnum] := p;
        acked[nextseqnum] := false;
        log := log + [ToLayer3(p)];
        if base == nextseqnum {
          log := log + [StartTimer];
        }
        accepted := accepted + [message];
        nextseqnum := nextseqnum + 1;
      }
    }

    /** A_input: an intact acknowledgment marks its slot if it is in the
        window, slides `base` over the acknowledged run, then stops the timer,
        restarting it if packets remain outstanding. A corrupted one is
        ignored. */
    method Input(packet: Packet)
      requires Valid()
      requires !IsCorrupted(packet) ==> AckIndexable(View(), packet.acknum)
      modifies this, acked
      ensures Valid()
      ensures nextseqnum == old(nextseqnum) && accepted == old(accepted) && resent == old(resent)
      ensures IsCorrupted(packet) ==> View() == old(View()) && log == old(log)
      ensures !IsCorrupted(packet) ==>
        View() == AckStep(old(View()), packet.acknum)
        && log == old(log) + (if base == nextseqnum then [StopTimer] else [StopTimer, StartTimer])
    {
      if packet.checksum == ComputeChecksum(packet) {
        var ack := packet.acknum;
        if ack >= base && ack < base + WINDOWSIZE {
          acked[ack] := true;
        }
        ghost var marked := acked[..];
        ghost var base0 := base;
        while base < nextseqnum && acked[base]
          invariant base0 <= base <= nextseqnum
          invariant nextseqnum == old(nextseqnum) && accepted == old(accepted)
          invariant resent == old(resent) && log == old(log)
          invariant acked[..] == marked
          invariant RunEnd(marked, base, nextseqnum) == RunEnd(marked, base0, nextseqnum)
        {
          base := base + 1;
        }
        if base == nextseqnum {
          log := log + [StopTimer];
        } else {
          log := log + [StopTimer];
          log := log + [StartTimer];
        }
      }
    }

    /** A_timerinterrupt: resend, in increasing order, every unacknowledged
        packet from `base` up to `nextseqnum`, counting each resend, then
        restart the timer whether or not anything was outstanding. */
    method TimerInterrupt()
      requires Valid()
      modifies this
      ensures Valid()
      ensures base == old(base) && nextseqnum == old(nextseqnum) && accepted == old(accepted)
      ensures log == old(log) + Resends(buffer[..], acked[..], base, nextseqnum) + [StartTimer]
      ensures resent == old(resent) + |Resends(buffer[..], acked[..], base, nextseqnum)|
    {
      for i := base to nextseqnum
        invariant base == old(base) && nextseqnum == old(nextseqnum) && accepted == old(accepted)
        invariant log == old(log) + Resends(buffer[..], acked[..], base, i)
        invariant resent == old(resent) + |Resends(buffer[..], acked[..], base, i)|
      {
        if !acked[i] {
          log := log + [ToLayer3(buffer[i])];
          resent := resent + 1;
        }
      }
      log := log + [StartTimer];
    }
  }
}
