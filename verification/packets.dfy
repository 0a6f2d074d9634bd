/** Packets as they arrive from the camera decoder, already tagged by stream. */
module Packets {
  import opened Sensor

  type Byte = b: int | 0 <= b < 256

  /** A captured reference frame: row-major pixels and its exposure span. */
  datatype Frame = Frame(pixels: seq<Byte>, exposureBegin: int, exposureEnd: int)

  /** A stream id other than events (0) and frames (1); 2 is IMU, 3 triggers. */
  type OtherStreamId = n: nat | n >= 2 witness 2

  datatype Packet =
    | EventPacket(events: seq<Event>)
    | FramePacket(frame: Frame)
    | OtherPacket(streamId: OtherStreamId)

  /** The stream id carried on the wire. */
  function StreamId(p: Packet): (id: nat)
    ensures id == 0 <==> p.EventPacket?
    ensures id == 1 <==> p.FramePacket?
  {
    match p
    case EventPacket(_) => 0
    case FramePacket(_) => 1
    case OtherPacket(id) => id
  }

  /** The event packets of `ps`, in their original order. */
  function EventPackets(ps: seq<Packet>): (r: seq<Packet>)
    ensures |r| <= |ps|
    ensures forall i :: 0 <= i < |r| ==> r[i].EventPacket?
    ensures forall i :: 0 <= i < |ps| && ps[i].EventPacket? ==> ps[i] in r
    ensures forall q :: q in r ==> q in ps
  {
    if ps == [] then []
    else (if ps[0].EventPacket? then [ps[0]] else []) + EventPackets(ps[1..])
  }
}
