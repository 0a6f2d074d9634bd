/** What a packet decoder yields, and the start-up step both reconstructors
    share: skipping the input up to its first frame. */
module Decoding {
  import opened Outcomes
  import opened Packets

  /** Messages shared by both reconstructors. */
  const UNWRAP_NONE := "called `Option::unwrap()` on a `None` value"
  const UNWRAP_ERR := "called `Result::unwrap()` on an `Err` value"
  const END_OF_FILE := "End of aedat file"
  const NO_IMAGES_RETURNED := "No images returned from deblur call"
  const NO_IMAGES_QUEUED := "No images in the returned queue"

  /** One item from the decoder: a decoded packet or a decoding error. */
  datatype Read = Decoded(packet: Packet) | DecodeError(msg: string)

  predicate IsFrame(x: Read) {
    x.Decoded? && x.packet.FramePacket?
  }

  /** Skips the input up to and including its first frame; decoding errors are
      skipped too, and running out of input panics. */
  function SkipToFrame(input: seq<Read>): (r: Res<seq<Read>>)
    ensures !r.Err?
    ensures r.Panic? <==> forall i :: 0 <= i < |input| ==> !IsFrame(input[i])
    ensures r.Panic? ==> r.msg == UNWRAP_NONE
    ensures r.Ok? ==> (|r.value| < |input| && r.value == input[|input| - |r.value|..]
      && IsFrame(input[|input| - |r.value| - 1])
      && forall i :: 0 <= i < |input| - |r.value| - 1 ==> !IsFrame(input[i]))
  {
    if input == [] then Panic(UNWRAP_NONE)
    else if IsFrame(input[0]) then Ok(input[1..])
    else
      var r := SkipToFrame(input[1..]);
      assert r.Panic? ==> forall i :: 0 <= i < |input| ==> !IsFrame(input[i]) by {
        if r.Panic? {
          forall i | 0 <= i < |input| ensures !IsFrame(input[i]) {
            if i > 0 { assert input[i] == input[1..][i - 1]; }
          }
        }
      }
      r
  }
}
