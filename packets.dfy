/** Protocol constants, the packet format and the additive checksum shared by
    entity A (the sender) and entity B (the receiver). */
module Packets {

  /** At most this many packets are outstanding or buffered at once. */
  const WINDOWSIZE: int := 6
  /** Number of slots in each entity's buffer and flag arrays. */
  const SEQSPACE: int := 2 * WINDOWSIZE
  /** Bytes of application data carried by every packet and message. */
  const PAYLOAD_SIZE: int := 20
  /** The acknowledgment number a data packet carries. */
  const NO_ACK: int := -1

  /** A C `char` converted to `int`. Whether `char` is signed is up to the
      platform, so a byte is either in -128..127 or in 0..255; this type
      admits both. */
  type CChar = c: int | -128 <= c <= 255

  /** The fixed-size data block of a message or packet. */
  type Payload = s: seq<CChar> | |s| == PAYLOAD_SIZE
    witness [0, 0, 0, 0, 0, 0, 0, 0, 0, 0, 0, 0, 0, 0, 0, 0, 0, 0, 0, 0]

  /** The all-zero payload held by statically allocated packets. */
  const ZERO_PAYLOAD: Payload := [0, 0, 0, 0, 0, 0, 0, 0, 0, 0, 0, 0, 0, 0, 0, 0, 0, 0, 0, 0]

  datatype Packet = Packet(seqnum: int, acknum: int, checksum: int, payload: Payload)

  /** A packet of static storage before anything is written to it. */
  const BLANK: Packet := Packet(0, 0, 0, ZERO_PAYLOAD)

  /** Sum of the bytes of a block. */
  function Sum(s: seq<CChar>): (t: int)
    ensures -128 * |s| <= t <= 255 * |s|
  {
    if s == [] then 0 else s[0] + Sum(s[1..])
  }

  /** The checksum of a packet: its sequence number, its acknowledgment number
      and its payload bytes added together; the stored checksum field is not
      part of it. */
  function ComputeChecksum(p: Packet): (c: int)
    ensures p.seqnum + p.acknum - 128 * PAYLOAD_SIZE <= c <= p.seqnum + p.acknum + 255 * PAYLOAD_SIZE
  {
    p.seqnum + p.acknum + Sum(p.payload)
  }

  /** A packet is corrupted when its stored checksum is not the one computed
      from its contents. */
  predicate IsCorrupted(p: Packet)
  {
    p.checksum != ComputeChecksum(p)
  }

  /** The packet with its checksum field filled in by ComputeChecksum. */
  function Seal(p: Packet): (r: Packet)
    ensures !IsCorrupted(r)
    ensures r.seqnum == p.seqnum && r.acknum == p.acknum && r.payload == p.payload
  {
    p.(checksum := ComputeChecksum(p))
  }

  /** A packet passes the corruption test exactly when filling in its
      checksum field afresh would leave it as it is. */
  lemma IntactIffSealed(p: Packet)
    ensures !IsCorrupted(p) <==> Seal(p) == p
  {
  }

  /** The data packet entity A builds for message `m` under sequence number `n`
      (its checksum field is uninitialised until sealed, written 0 here). */
  function DataPacket(n: int, m: Payload): (r: Packet)
    ensures !IsCorrupted(r)
    ensures r.seqnum == n && r.acknum == NO_ACK && r.payload == m
  {
    Seal(Packet(n, NO_ACK, 0, m))
  }

  /** The acknowledgment entity B sends for sequence number `n`. Its payload
      is never written, so whatever `junk` the stack held goes into the
      checksum and onto the wire. */
  function AckPacket(n: int, junk: Payload): (r: Packet)
    ensures !IsCorrupted(r)
    ensures r.seqnum == 0 && r.acknum == n && r.payload == junk
  {
    Seal(Packet(0, n, 0, junk))
  }

  /** Changing one byte of a block changes its sum by exactly the difference. */
  lemma {:induction false} SumUpdate(s: seq<CChar>, i: int, b: CChar)
    requires 0 <= i < |s|
    ensures Sum(s[i := b]) == Sum(s) - s[i] + b
  {
    if i == 0 {
      assert s[i := b][1..] == s[1..];
    } else {
      assert s[i := b][1..] == s[1..][i - 1 := b];
      SumUpdate(s[1..], i - 1, b);
    }
  }

  /** Overwriting one payload byte of an intact packet with a different value,
      while keeping its checksum field, always yields a corrupted packet. */
  lemma PayloadByteChangeDetected(p: Packet, i: int, b: CChar)
    requires !IsCorrupted(p)
    requires 0 <= i < PAYLOAD_SIZE && b != p.payload[i]
    ensures IsCorrupted(p.(payload := p.payload[i := b]))
  {
    SumUpdate(p.payload, i, b);
  }

  /** Overwriting the sequence number or the acknowledgment number (one of
      them) of an intact packet always yields a corrupted packet. */
  lemma HeaderChangeDetected(p: Packet, seqnum: int, acknum: int)
    requires !IsCorrupted(p)
    requires (seqnum == p.seqnum) != (acknum == p.acknum)
    ensures IsCorrupted(p.(seqnum := seqnum, acknum := acknum))
  {
  }

  /** The limit of an additive checksum: overwriting two payload bytes whose
      old values average the new one goes unnoticed. With 'z' (122) as the
      new value, the bytes 'y' (121) and '{' (123) are such a pair. */
  lemma PairedOverwriteUndetected(p: Packet, i: int, j: int, z: CChar)
    requires !IsCorrupted(p)
    requires 0 <= i < j < PAYLOAD_SIZE
    requires p.payload[i] as int + p.payload[j] as int == 2 * z as int
    ensures !IsCorrupted(p.(payload := p.payload[i := z][j := z]))
  {
    SumUpdate(p.payload, i, z);
    SumUpdate(p.payload[i := z], j, z);
  }
}
