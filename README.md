# Selective-Repeat ARQ in Dafny

This project models `sr.c`, a Selective-Repeat automatic-repeat-request
protocol for a one-way transfer from entity A (the sender) to entity B (the
receiver) over a lossy, corrupting channel. It has three parts:

- **Checksum.** `packets.dfy` holds the packet format and the additive
  checksum both entities use to detect corruption. It proves which
  corruptions the checksum always detects and which kind it can miss.
- **Sender.** `sender.dfy` models entity A as the class `EntityA`:
  - the packet buffer, the per-slot acknowledged flags, `base` and
    `nextseqnum`;
  - the methods `Output`, `Input`, `TimerInterrupt` and `Init`.

  The effect of an acknowledgment on the window is also given as a pure
  function, `AckStep`. `Input` is proved against it, and its own properties
  (window bounds, idempotence) are proved as lemmas.
- **Receiver.** `receiver.dfy` models entity B as the class `EntityB`:
  - the packet buffer, the per-slot received flags and `expectedseq`;
  - the methods `Input` (split into its buffering step `Store` and its
    delivery scan `Deliver`) and `Init`.

The calls the entities make into the network emulator (`tolayer3`,
`tolayer5`, `starttimer`, `stoptimer`) are appended to a ghost event log
(`emulator.dfy`). Postconditions state exactly which events each call emits.
The emulator's `packets_resent` counter is the field `EntityA.resent`.

`slots.dfy` holds what both entities share: window membership and
`RunEnd`. `RunEnd` is the point where a scan over consecutive set flags
stops. It specifies both the sender's window slide and the receiver's
delivery loop.

Sequence numbers are plain counters used directly as array indices. The
program never reduces them modulo `SEQSPACE` (12). Each index the code uses
is therefore a precondition on the caller:

- `nextseqnum` for `Output`;
- an in-window acknowledgment number for `EntityA.Input`;
- an in-window sequence number, and every flag the delivery loop reads, for
  `EntityB.Input`.

The C delivery loop has no bound of its own. So `InputIndexable` demands
that the scan stops before the end of the array.

## Model

| member | source | states |
|---|---|---|
| Packets.Sum | sr.c:48-49 | the payload sum lies between -128 and 255 times the block length, whichever signedness `char` has |
| Packets.ComputeChecksum | sr.c:41-52 | the checksum is seqnum plus acknum plus the payload sum, bounded accordingly; the stored checksum field plays no part |
| Packets.Seal | sr.c:72 | filling the checksum field with ComputeChecksum gives a packet that is not corrupted, with header and payload unchanged |
| Packets.DataPacket | sr.c:68-72 | the data packet A builds is intact and carries the sequence number, acknum -1 and the message |
| Packets.AckPacket | sr.c:194-197 | B's acknowledgment is intact, has seqnum 0, acknum equal to the acknowledged number, and whatever payload the stack held |
| Packets.IsCorrupted | sr.c:54-60 | a packet is corrupted exactly when its stored checksum differs from the one computed from its seqnum, acknum and payload |
| Packets.IntactIffSealed | sr.c:54-60 | a packet passes the corruption test exactly when recomputing its checksum field would leave it unchanged |
| Packets.SumUpdate | sr.c:48-49 | changing one byte changes the sum by exactly the difference |
| Packets.PayloadByteChangeDetected | sr.c:54-60 | overwriting one payload byte of an intact packet with a different value always makes IsCorrupted true |
| Packets.HeaderChangeDetected | sr.c:54-60 | changing exactly one of seqnum and acknum of an intact packet always makes IsCorrupted true |
| Packets.PairedOverwriteUndetected | sr.c:36-60 | two overwritten bytes whose old values average the new byte leave the packet looking intact: the additive checksum cannot detect every corruption |
| Slots.RunEnd | sr.c:108-110 | the scan stops at the first clear flag in [from, limit), or at limit; every flag it passed is set |
| Sender.AckStep | sr.c:99-110 | a valid ACK inside [base, base+WINDOWSIZE) sets exactly its own flag; base never decreases, stays at most nextseqnum, and afterwards either equals nextseqnum or points at an unacknowledged slot; every slot it passed is acknowledged; base moves only when the ACK was for base |
| Sender.AckIdempotent | sr.c:103-110 | delivering the same valid ACK twice has the effect of delivering it once |
| Sender.UnackedSlots | sr.c:128-130 | the timeout scan picks only unacknowledged slots of [base, nextseqnum) |
| Sender.UnackedSlotsExact | sr.c:128-130 | the scan lists every unacknowledged slot of the range, in strictly increasing order |
| Sender.Resends | sr.c:128-135 | the timeout loop sends one packet per unacknowledged slot of [base, nextseqnum), the k-th transmission carrying the buffered packet of the k-th such slot |
| Sender.ResendsAccepted | sr.c:128-135 | each resent packet is the intact data packet built from the message accepted under that sequence number |
| Sender.EntityA.constructor | sr.c:31-34 | the zero-filled static state satisfies the object invariant |
| Sender.EntityA.Init | sr.c:145-152 | base and nextseqnum are 0, every acked flag is false, and the invariant holds |
| Sender.EntityA.Output | sr.c:65-91 | with a full window nothing changes and nothing is sent; otherwise slot nextseqnum holds the sealed data packet and is unacknowledged, exactly that packet is sent, the timer starts exactly when base equalled nextseqnum, nextseqnum grows by one, and the invariant is kept |
| Sender.EntityA.Input | sr.c:97-122 | a corrupted ACK changes nothing; a valid one changes the window exactly as AckStep, then stops the timer and restarts it exactly when packets remain outstanding |
| Sender.EntityA.TimerInterrupt | sr.c:126-138 | sends exactly Resends over [base, nextseqnum), adds their number to the resend counter, always restarts the timer, and changes no window state |
| Receiver.StoreKeepsPending | sr.c:179-184 | storing an intact packet under its own number keeps every flagged slot within [expectedseq, expectedseq+WINDOWSIZE) and holding the intact packet of its number |
| Receiver.DeliveryKeepsPending | sr.c:187-191 | after the delivery scan stops at k, every slot still flagged lies in (k, k+WINDOWSIZE) and every delivered slot held the intact packet of its own number |
| Receiver.DeliversIffExpected | sr.c:181-191 | with the slot at expectedseq clear, a packet causes a delivery exactly when its sequence number is expectedseq |
| Receiver.EntityB.constructor | sr.c:158-160 | the zero-filled static state satisfies the object invariant |
| Receiver.EntityB.Init | sr.c:164-170 | expectedseq is 0 and every received flag is false |
| Receiver.EntityB.Store | sr.c:179-184 | an in-window packet goes into the slot of its number and flags it; otherwise nothing changes |
| Receiver.EntityB.Deliver | sr.c:186-191 | delivers the buffered payloads of the run of flagged slots from expectedseq, in order, clearing each flag, and leaves expectedseq where the run ends |
| Receiver.EntityB.Input | sr.c:173-199 | a corrupted packet changes nothing and emits nothing; an intact one is stored when in window, the run starting at expectedseq is delivered in increasing order without gaps and cleared, the slot at the new expectedseq is clear, and exactly one ACK carrying the packet's seqnum is sent, in window or not; the invariant is kept, so the i-th packet ever delivered is the intact packet numbered i |

## Left out

- The emulator (`tolayer3`, `tolayer5`, `starttimer`, `stoptimer`, `packets_resent`) is declared in `emulator.h`, which is not part of this model. Its calls are logged events, and its counter is a field. Channel loss, corruption, delay and event scheduling are not modelled.
- `RTT` and `sr_expiry` are floating point and are left out. Expiry is only ever set to `RTT` or `0.0`, so the expiry test in `A_timerinterrupt` always holds, and dropping it changes no behaviour. The timer duration argument of `starttimer` is not recorded.
- Sequence numbers are never reduced modulo `SEQSPACE`, as in the code. An index at or beyond 12 is undefined behaviour in C. Here every such index is a precondition. So A sends at most the packets numbered 0 to 11. B delivers at most those numbered 0 to 10: delivering 11 would make the scan read `rb_received[12]`, and `EntityB.Input` ensures `expectedseq` stays below 12. A transfer of more than 11 messages therefore indexes the arrays out of bounds and is not modelled.
- Packets.ComputeChecksum: the C sum is an `int`. Its 32-bit overflow is not modelled, because the sum is unbounded here. For the numbers the protocol itself produces, it cannot overflow.
- `B_output` and `B_timerinterrupt` are empty stubs and are not modelled.
- Receiver.EntityB.Input: the acknowledgment's payload is uninitialised in the code. It is the arbitrary parameter `junk`, and nothing is assumed about it.
- The packet buffers' contents before the first write are the zero-filled static storage. `Init` leaves them as they are, as the code does.

Where the protocol's usual description and the code differ, the model follows the code:

- A timeout resends every unacknowledged packet in [base, nextseqnum), not only the one whose timer expired. It restarts the timer even when nothing is outstanding.
- A valid duplicate ACK still stops the timer and, if packets remain outstanding, restarts it.
- An ACK inside [base, base+WINDOWSIZE) for a number not yet sent still sets that flag. `Output` clears it again when the number is used.
- B acknowledges every intact packet, including those outside its window. There is no separate rule for re-acknowledging the previous window.
- Payload bytes are `char`, whose signedness depends on the platform. They are not assumed to be unsigned.
