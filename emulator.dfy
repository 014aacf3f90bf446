/** The calls an entity makes into the network emulator (tolayer3, tolayer5,
    starttimer, stoptimer), recorded as events. The emulator itself is not
    part of this model. */
module Emulator {
  import opened Packets

  datatype Event =
    | ToLayer3(packet: Packet)   // hand a packet to the channel
    | ToLayer5(data: Payload)    // hand a payload to the application
    | StartTimer                 // start the entity's timer for one round trip
    | StopTimer                  // stop the entity's timer

  /** One ToLayer5 event per packet, in order, carrying its payload. */
  function Deliveries(ps: seq<Packet>): seq<Event>
  {
    seq(|ps|, i requires 0 <= i < |ps| => ToLayer5(ps[i].payload))
  }
}
