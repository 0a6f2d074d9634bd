/** The asynchronous reconstructor of `src/util/reconstructor.rs`.

    Packets arrive timestamped from a receiver. Each refill drains the queued
    event packets into the event adder, deblurs, adapts the adder's
    c-optimisation flag to the observed latency, reads ahead to the next frame
    (shrinking the interval length in deblur-only mode) and records the
    events around the exposure. The adder is known only through the fields
    the reconstructor reads and writes, and three operations that are
    parameters here. */
module AsyncReconstructor {
  import opened Outcomes
  import opened Sensor
  import opened Packets
  import opened Decoding

  const INVALID_MODE := "Invalid source mode"
  const SPARSE_EVENTS := "TODO handle sparse events"
  const UNHANDLED_FRAME := "Unhandled frame?"
  const TARGET_NOT_POSITIVE := "assertion failed: target_latency > 0.0"
  const NOT_DEBLUR_ONLY := "assertion failed: self.event_adder.deblur_only"

  /** Nanoseconds per millisecond of the monotonic clock. */
  const NANOS_PER_MILLI := 1_000_000

  /** A received packet with the instant it arrived, in nanoseconds. */
  datatype TimedPacket = TimedPacket(packet: Packet, timestamp: int)

  /** An exposure slot: the frame and the instant its packet arrived. */
  datatype Exposure = Exposure(frame: Frame, packetTimestamp: int)

  /** What one deblur call returns: the images, the start of the last interval
      and the c it settled on. */
  datatype DeblurReturn = DeblurReturn(retVec: seq<Field>, lastIntervalStart: int, foundC: real)

  /** The event adder as the reconstructor sees it; `rest` is the state only
      its own operations touch. */
  datatype Adder<S> = Adder(
    blurInfo: Option<Exposure>,
    nextBlurInfo: Option<Exposure>,
    intervalT: int,
    deblurOnly: bool,
    optimizeC: bool,
    currentC: real,
    latentImage: Field,
    lastIntervalStart: int,
    eventsBefore: seq<Event>,
    eventsDuring: seq<Event>,
    eventsAfter: seq<Event>,
    rest: S)

  /** The adder operations the reconstructor calls. The reset acts on the
      adder's own state only; see `ResetEventQueues`. */
  datatype Ops<!S> = Ops(
    sortEvents: (Adder<S>, Packet) -> Adder<S>,
    deblur: Adder<S> -> (Option<DeblurReturn>, Adder<S>),
    resetEventQueues: S -> S)

  /** `reset_event_queues`: empties the adder's three event queues; whatever
      else it resets lies in the adder's own state `rest`. */
  function ResetEventQueues<S>(a: Adder<S>, ops: Ops<S>): (r: Adder<S>)
    ensures r.eventsBefore == [] && r.eventsDuring == [] && r.eventsAfter == []
    ensures r.rest == ops.resetEventQueues(a.rest)
    ensures r == a.(eventsBefore := [], eventsDuring := [], eventsAfter := [], rest := r.rest)
  {
    a.(eventsBefore := [], eventsDuring := [], eventsAfter := [], rest := ops.resetEventQueues(a.rest))
  }

  datatype Recon<S> = Recon(
    receiver: seq<TimedPacket>,
    packetQueue: seq<TimedPacket>,
    adder: Adder<S>,
    latentQueue: seq<Field>,
    optimizeC: bool,
    optimizeController: bool,
    targetLatency: real,
    mode: string,
    eventsReturnBefore: seq<Event>,
    eventsReturnAfter: seq<Event>)

  /** The events returned with an image in deblur-only mode. */
  datatype EventsReturn = EventsReturn(
    c: real, before: seq<Event>, after: seq<Event>, exposureBegin: int, lastIntervalStart: int)

  /** One item of the iterator: an image, the arrival instant of its frame,
      the surrounding events and the latency in milliseconds. */
  datatype Item = Item(image: Field, timestamp: Option<int>, events: Option<EventsReturn>, latency: Option<nat>)

  predicate EventsOnly(q: seq<TimedPacket>) {
    forall i :: 0 <= i < |q| ==> q[i].packet.EventPacket?
  }

  /** The event packets of `q`, in their original order, each with its
      arrival instant; `UntimedEvents` relates it to `Packets.EventPackets`. */
  function TimedEvents(q: seq<TimedPacket>): (r: seq<TimedPacket>)
    ensures EventsOnly(r) && |r| <= |q|
  {
    if q == [] then []
    else (if q[0].packet.EventPacket? then [q[0]] else []) + TimedEvents(q[1..])
  }

  /** The packets of `q` without their arrival instants. */
  function Untimed(q: seq<TimedPacket>): (r: seq<Packet>)
    ensures |r| == |q| && forall i :: 0 <= i < |q| ==> r[i] == q[i].packet
  {
    if q == [] then [] else [q[0].packet] + Untimed(q[1..])
  }

  /** Keeping the event packets commutes with dropping the arrival instants:
      the timed filter is the decoder's filter with the instants carried along. */
  lemma {:induction false} UntimedEvents(q: seq<TimedPacket>)
    ensures Untimed(TimedEvents(q)) == EventPackets(Untimed(q))
    decreases |q|
  {
    if q != [] {
      UntimedEvents(q[1..]);
      assert Untimed(q)[1..] == Untimed(q[1..]);
      UntimedAppend(if q[0].packet.EventPacket? then [q[0]] else [], TimedEvents(q[1..]));
    }
  }

  lemma UntimedAppend(p: seq<TimedPacket>, q: seq<TimedPacket>)
    ensures Untimed(p + q) == Untimed(p) + Untimed(q)
  {
  }

  // ---------------------------------------------------------------- setup

  /** Which decoders a source mode opens: `Ok(second)` tells whether there is
      a second one; an unknown mode is an argument error. The socket mode
      exists only on a unix build (`unix`); elsewhere it is unknown. */
  function OpenDecoders(mode: string, unix: bool): (r: Res<bool>)
    ensures r.Err? <==> mode != "file" && mode != "tcp" && (mode != "socket" || !unix)
    ensures r.Err? ==> r.msg == INVALID_MODE
    ensures r.Ok? ==> (r.value <==> mode != "file")
    ensures !r.Panic?
  {
    match mode
    case "file" => Ok(false)
    case "socket" => if unix then Ok(true) else Err(INVALID_MODE)
    case "tcp" => Ok(true)
    case _ => Err(INVALID_MODE)
  }

  /** The length of an exposure in microseconds. */
  function ExposureLength(e: Exposure): int {
    e.frame.exposureEnd - e.frame.exposureBegin
  }

  function Max(a: int, b: int): int {
    if a >= b then a else b
  }

  function Min(a: int, b: int): int {
    if a <= b then a else b
  }

  /** In deblur-only mode an exposure shorter than the interval length becomes
      the interval length, but never below 1. */
  function ShrinkInterval(intervalT: int, deblurOnly: bool, e: Exposure): (t: int)
    ensures !deblurOnly ==> t == intervalT
    ensures t != intervalT ==> t >= 1 && ExposureLength(e) < intervalT
    ensures deblurOnly && intervalT >= 1 ==> t == Max(Min(ExposureLength(e), intervalT), 1)
  {
    if ExposureLength(e) < intervalT && deblurOnly then Max(ExposureLength(e), 1) else intervalT
  }

  /** Shrinking by the same exposure twice shrinks no further. */
  lemma ShrinkSettles(intervalT: int, deblurOnly: bool, e: Exposure)
    ensures ShrinkInterval(ShrinkInterval(intervalT, deblurOnly, e), deblurOnly, e)
      == ShrinkInterval(intervalT, deblurOnly, e)
  {
  }

  /** Once at least 1, the interval length only ever shrinks, whatever
      exposures follow. */
  lemma ShrinkNeverGrows(intervalT: int, deblurOnly: bool, e: Exposure)
    requires intervalT >= 1
    ensures 1 <= ShrinkInterval(intervalT, deblurOnly, e) <= intervalT
  {
  }

  /** Skips the input to its first frame unless a second decoder exists, hands
      the rest to the packet threads, reads up to the next frame and makes it
      current. `threads` stands for the packet threads: what they deliver from
      the rest of the input. */
  function NewRecon<S>(mode: string, unix: bool, targetLatency: real, optimizeC: bool, optimizeController: bool,
                       input: seq<Read>, threads: (seq<Read>, bool) -> seq<TimedPacket>,
                       adder: Adder<S>): (r: Res<Recon<S>>)
    ensures r.Err? <==> OpenDecoders(mode, unix).Err?
    ensures r.Err? ==> r.msg == INVALID_MODE
    ensures r.Ok? ==> (targetLatency > 0.0 && r.value.latentQueue == []
      && r.value.adder.blurInfo.Some? && EventsOnly(r.value.packetQueue))
    ensures r.Ok? && adder.intervalT >= 1 ==> 1 <= r.value.adder.intervalT <= adder.intervalT
    ensures OpenDecoders(mode, unix).Ok? && !(targetLatency > 0.0) ==> r == Panic(TARGET_NOT_POSITIVE)
    ensures OpenDecoders(mode, unix) == Ok(false) && targetLatency > 0.0 && SkipToFrame(input).Panic?
            ==> r == Panic(SkipToFrame(input).msg)
  {
    var second :- OpenDecoders(mode, unix);
    if !(targetLatency > 0.0) then Panic(TARGET_NOT_POSITIVE)
    else
      var rest :- if second then Ok(input) else SkipToFrame(input);
      var f := Fill(threads(rest, second), []);
      if !f.outcome.Ok? then Panic(UNWRAP_ERR)
      else
        var e := f.outcome.value;
        var a := adder.(intervalT := ShrinkInterval(adder.intervalT, adder.deblurOnly, e), blurInfo := Some(e));
        Ok(Recon(f.receiver, f.packetQueue, a, [], optimizeC, optimizeController, targetLatency, mode, [], []))
  }

  /** A fresh reconstructor, once the mode is known and the target latency is
      positive: file mode first skips the input to its first frame; the first
      frame the packet threads then deliver becomes the current exposure,
      shrinking the interval length to it in deblur-only mode; the fill's
      receiver and queue are kept, and the settings are the arguments. */
  lemma NewReconInstallsFirstExposure<S>(mode: string, unix: bool, targetLatency: real, optimizeC: bool,
                                         optimizeController: bool, input: seq<Read>,
                                         threads: (seq<Read>, bool) -> seq<TimedPacket>, adder: Adder<S>,
                                         second: bool, rest: seq<Read>, e: Exposure)
    requires OpenDecoders(mode, unix) == Ok(second)
    requires targetLatency > 0.0
    requires if second then rest == input else SkipToFrame(input) == Ok(rest)
    requires Fill(threads(rest, second), []).outcome == Ok(e)
    ensures NewRecon(mode, unix, targetLatency, optimizeC, optimizeController, input, threads, adder).Ok?
    ensures
      var r := NewRecon(mode, unix, targetLatency, optimizeC, optimizeController, input, threads, adder).value;
      var f := Fill(threads(rest, second), []);
      && r.adder == adder.(intervalT := ShrinkInterval(adder.intervalT, adder.deblurOnly, e), blurInfo := Some(e))
      && r.receiver == f.receiver && r.packetQueue == f.packetQueue
      && r.latentQueue == [] && r.eventsReturnBefore == [] && r.eventsReturnAfter == []
      && r.optimizeC == optimizeC && r.optimizeController == optimizeController
      && r.targetLatency == targetLatency && r.mode == mode
    ensures
      var rx := threads(rest, second);
      FirstFrame(rx) < |rx| && e == Exposure(rx[FirstFrame(rx)].packet.frame, rx[FirstFrame(rx)].timestamp)
  {
    var rx := threads(rest, second);
    if FirstFrame(rx) == |rx| {
      FillWithoutFrame(rx, []);
    } else {
      FillStopsAtFirstFrame(rx, [], FirstFrame(rx));
    }
  }

  // ---------------------------------------------------------------- fill

  /** The receiver and packet queue after a fill, with its outcome: the
      exposure of the frame it stopped at. */
  datatype Filled = Filled(receiver: seq<TimedPacket>, packetQueue: seq<TimedPacket>, outcome: Res<Exposure>)

  /** Reads up to and including the next frame, queueing event packets and
      dropping others; then reads one packet more. */
  function Fill(rx: seq<TimedPacket>, q: seq<TimedPacket>): (f: Filled)
    ensures |f.packetQueue| >= |q| && f.packetQueue[..|q|] == q
    ensures EventsOnly(q) ==> EventsOnly(f.packetQueue)
    ensures !f.outcome.Panic?
    ensures f.outcome.Err? ==> f.outcome.msg == END_OF_FILE || f.outcome.msg == SPARSE_EVENTS
    ensures |f.receiver| < |rx| || (rx == [] && f.receiver == [])
    decreases |rx|
  {
    if rx == [] then Filled([], q, Err(END_OF_FILE))
    else
      match rx[0].packet
      case FramePacket(fr) => ReadOneMore(rx[1..], q, Exposure(fr, rx[0].timestamp))
      case EventPacket(_) => Fill(rx[1..], q + [rx[0]])
      case OtherPacket(_) => Fill(rx[1..], q)
  }

  /** The packet after a frame: events are queued, IMU and trigger packets
      dropped, anything else is an error, and so is the end of the input. */
  function ReadOneMore(rx: seq<TimedPacket>, q: seq<TimedPacket>, e: Exposure): (f: Filled)
    ensures f.outcome.Ok? <==> |rx| > 0 && StreamId(rx[0].packet) in {0, 2, 3}
    ensures f.outcome.Ok? ==> f.outcome.value == e
    ensures !f.outcome.Panic?
    ensures f.receiver == if rx == [] then [] else rx[1..]
    ensures f.packetQueue == q + TimedEvents(rx[..Min(1, |rx|)])
    ensures f.outcome.Err? ==> f.outcome.msg == (if rx == [] then END_OF_FILE else SPARSE_EVENTS)
  {
    if rx == [] then Filled([], q, Err(END_OF_FILE))
    else
      assert rx[..1] == [rx[0]];
      match rx[0].packet
      case EventPacket(_) => Filled(rx[1..], q + [rx[0]], Ok(e))
      case OtherPacket(id) =>
        if id == 2 || id == 3 then Filled(rx[1..], q, Ok(e)) else Filled(rx[1..], q, Err(SPARSE_EVENTS))
      case FramePacket(_) => Filled(rx[1..], q, Err(SPARSE_EVENTS))
  }

  predicate IsFramePacket(p: TimedPacket) {
    p.packet.FramePacket?
  }

  /** The index of the first frame packet, or `|rx|` if none. */
  function FirstFrame(rx: seq<TimedPacket>): (k: nat)
    ensures k <= |rx|
    ensures forall i :: 0 <= i < k ==> !IsFramePacket(rx[i])
    ensures k < |rx| ==> IsFramePacket(rx[k])
  {
    if rx == [] then 0
    else if IsFramePacket(rx[0]) then 0
    else 1 + FirstFrame(rx[1..])
  }

  /** Without a frame in the input a fill queues every event packet and
      reports the end of the input. */
  lemma {:induction false} FillWithoutFrame(rx: seq<TimedPacket>, q: seq<TimedPacket>)
    requires FirstFrame(rx) == |rx|
    ensures Fill(rx, q) == Filled([], q + TimedEvents(rx), Err(END_OF_FILE))
    decreases |rx|
  {
    if rx != [] {
      var q' := q + TimedEvents(rx[..1]);
      FillSkips(rx, q);
      assert FirstFrame(rx[1..]) == |rx[1..]|;
      FillWithoutFrame(rx[1..], q');
      assert q' + TimedEvents(rx[1..]) == q + TimedEvents(rx) by {
        TimedEventsSplit(rx, 1);
      }
    }
  }

  /** With a frame at index `k`, the first one, a fill queues the event
      packets before it and hands over to the one-more read just after it. */
  lemma {:induction false} FillStopsAtFirstFrame(rx: seq<TimedPacket>, q: seq<TimedPacket>, k: nat)
    requires k == FirstFrame(rx) < |rx|
    ensures Fill(rx, q) == ReadOneMore(rx[k + 1..], q + TimedEvents(rx[..k]), Exposure(rx[k].packet.frame, rx[k].timestamp))
    decreases |rx|
  {
    if k == 0 {
      assert rx[..0] == [];
      assert q + TimedEvents(rx[..0]) == q;
    } else {
      var q' := q + TimedEvents(rx[..1]);
      FillSkips(rx, q);
      FillStopsAtFirstFrame(rx[1..], q', k - 1);
      assert q' + TimedEvents(rx[1..][..k - 1]) == q + TimedEvents(rx[..k]) by {
        TimedEventsSplit(rx[..k], 1);
        assert rx[..k][..1] == rx[..1];
        assert rx[..k][1..] == rx[1..][..k - 1];
      }
      assert rx[1..][k..] == rx[k + 1..];
      assert rx[1..][k - 1] == rx[k];
    }
  }

  /** A fill over a packet that is not a frame continues from the next one,
      with the packet queued when it carries events. */
  lemma FillSkips(rx: seq<TimedPacket>, q: seq<TimedPacket>)
    requires rx != [] && !IsFramePacket(rx[0])
    ensures Fill(rx, q) == Fill(rx[1..], q + TimedEvents(rx[..1]))
  {
    assert rx[..1] == [rx[0]] && rx[..1][1..] == [];
    if rx[0].packet.EventPacket? {
      assert TimedEvents(rx[..1]) == [rx[0]];
    } else {
      assert TimedEvents(rx[..1]) == [];
      assert q + TimedEvents(rx[..1]) == q;
    }
  }

  lemma {:induction false} TimedEventsSplit(q: seq<TimedPacket>, n: nat)
    requires n <= |q|
    ensures TimedEvents(q) == TimedEvents(q[..n]) + TimedEvents(q[n..])
    decreases n
  {
    if n == 0 {
      assert q[..0] == [] && q[0..] == q;
    } else {
      TimedEventsSplit(q[1..], n - 1);
      assert q[..n][1..] == q[1..][..n - 1];
      assert q[1..][n - 1..] == q[n..];
    }
  }

  // ---------------------------------------------------------------- refill

  /** Hands the queued packets to the adder in order; a frame in the queue
      panics and other packets are ignored. */
  function Drain<S>(a: Adder<S>, q: seq<TimedPacket>, ops: Ops<S>): (r: Res<Adder<S>>)
    ensures r.Ok? <==> forall i :: 0 <= i < |q| ==> !IsFramePacket(q[i])
    ensures r.Panic? ==> r.msg == UNHANDLED_FRAME
    ensures !r.Err?
    decreases |q|
  {
    if q == [] then Ok(a)
    else
      var r := match q[0].packet
        case FramePacket(_) => Panic(UNHANDLED_FRAME)
        case EventPacket(_) => Drain(ops.sortEvents(a, q[0].packet), q[1..], ops)
        case OtherPacket(_) => Drain(a, q[1..], ops);
      assert r.Ok? <==> forall i :: 0 <= i < |q| ==> !IsFramePacket(q[i]) by {
        if forall i :: 0 <= i < |q[1..]| ==> !IsFramePacket(q[1..][i]) {
          forall i | 0 < i < |q| ensures !IsFramePacket(q[i]) {
            assert q[i] == q[1..][i - 1];
          }
        }
      }
      r
  }

  /** Milliseconds from `since` to `now`, saturating at zero. */
  function Latency(now: int, since: int): nat {
    if now <= since then 0 else (now - since) / NANOS_PER_MILLI
  }

  /** The target latency cast to an unsigned integer, saturating at zero. */
  function TargetMillis(target: real): nat {
    if target <= 0.0 then 0 else target.Floor
  }

  /** Comparing the latency with the truncated target is comparing it with the
      target itself. */
  lemma TruncatedTargetKeepsComparison(latency: nat, target: real)
    requires target >= 0.0
    ensures latency > TargetMillis(target) <==> latency as real > target
  {
  }

  /** The latency controller: outside file mode, with the controller and
      c-optimisation enabled, it switches the adder's optimisation off when
      over the target and on when within it. */
  function ToggleOptimize(mode: string, controller: bool, optimizeC: bool, overTarget: bool, flag: bool): (r: bool)
    ensures mode == "file" ==> r == flag
    ensures !controller || !optimizeC ==> r == flag
    ensures r != flag <==> mode != "file" && controller && optimizeC && overTarget == flag
  {
    if mode == "file" then flag
    else
      match (controller, optimizeC, overTarget, flag)
      case (true, true, true, true) => false
      case (true, true, false, false) => true
      case _ => flag
  }

  /** With the controller active the flag afterwards depends on the latency
      alone: on exactly when within the target. */
  lemma ActiveToggleFollowsLatency(mode: string, overTarget: bool, flag: bool)
    requires mode != "file"
    ensures ToggleOptimize(mode, true, true, overTarget, flag) == !overTarget
  {
  }

  /** A second toggle on the same latency changes nothing: at most one flip
      per refill. */
  lemma ToggleSettles(mode: string, controller: bool, optimizeC: bool, overTarget: bool, flag: bool)
    ensures ToggleOptimize(mode, controller, optimizeC, overTarget,
      ToggleOptimize(mode, controller, optimizeC, overTarget, flag))
      == ToggleOptimize(mode, controller, optimizeC, overTarget, flag)
  {
  }

  /** The refill: drain, deblur, toggle the optimisation flag on the latency
      observed at `now`, read ahead to the next frame, and on success book the
      results. Returns the state afterwards with the latency or the error;
      the state persists also when the outcome is an error. */
  function GetMoreImages<S>(r: Recon<S>, ops: Ops<S>, now: int): (out: (Recon<S>, Res<nat>))
    ensures out.1.Err? ==> out.1.msg == END_OF_FILE && out.0.latentQueue == r.latentQueue
    ensures out.1.Ok? ==> (|out.0.latentQueue| > |r.latentQueue|
      && out.0.latentQueue[..|r.latentQueue|] == r.latentQueue
      && out.0.adder.nextBlurInfo.Some? && EventsOnly(out.0.packetQueue))
    ensures !out.1.Panic? ==> (out.0.mode == r.mode && out.0.targetLatency == r.targetLatency
      && (|out.0.receiver| < |r.receiver| || r.receiver == []))
  {
    var drained := Drain(r.adder, r.packetQueue, ops);
    if !drained.Ok? then (r, Panic(drained.msg))
    else
      var (res, a) := ops.deblur(drained.value);
      if a.blurInfo.None? then (r, Panic(UNWRAP_NONE))
      else
        var latency := Latency(now, a.blurInfo.value.packetTimestamp);
        var over := latency > TargetMillis(r.targetLatency);
        var a1 := a.(optimizeC := ToggleOptimize(r.mode, r.optimizeController, r.optimizeC, over, a.optimizeC));
        var f := Fill(r.receiver, []);
        var a2 := if f.outcome.Ok? then a1.(intervalT := ShrinkInterval(a1.intervalT, a1.deblurOnly, f.outcome.value)) else a1;
        var s := r.(receiver := f.receiver, packetQueue := f.packetQueue, adder := a2);
        if res.None? then (s, Panic(NO_IMAGES_RETURNED))
        else if !f.outcome.Ok? then (s, Err(END_OF_FILE))
        else if |res.value.retVec| == 0 then (s, Panic(UNWRAP_NONE))
        else
          var d := res.value;
          var a3 := a2.(latentImage := d.retVec[|d.retVec| - 1], lastIntervalStart := d.lastIntervalStart,
                        eventsDuring := [], eventsBefore := []);
          var a4 := ResetEventQueues(a3, ops).(nextBlurInfo := Some(f.outcome.value), currentC := d.foundC);
          (s.(adder := a4, latentQueue := r.latentQueue + d.retVec,
              eventsReturnAfter := a2.eventsDuring + a2.eventsAfter, eventsReturnBefore := a2.eventsBefore),
           Ok(latency))
  }

  /** A successful refill queues the deblurred images in order, stages the
      frame read ahead, adopts the c found, returns the events during and after
      the exposure as "after" and those before it as "before", and reports the
      latency of the current frame. The adder's c-optimisation flag follows
      the latency controller, its interval length is shrunk to the exposure
      read ahead, its latent image is the last image returned, and its event
      queues are emptied. */
  lemma RefillBooksResults<S>(r: Recon<S>, ops: Ops<S>, now: int, a0: Adder<S>, a: Adder<S>, d: DeblurReturn)
    requires Drain(r.adder, r.packetQueue, ops) == Ok(a0)
    requires ops.deblur(a0) == (Some(d), a)
    requires a.blurInfo.Some? && |d.retVec| > 0
    requires Fill(r.receiver, []).outcome.Ok?
    ensures GetMoreImages(r, ops, now).1 == Ok(Latency(now, a.blurInfo.value.packetTimestamp))
    ensures GetMoreImages(r, ops, now).0.latentQueue == r.latentQueue + d.retVec
    ensures GetMoreImages(r, ops, now).0.adder.nextBlurInfo == Some(Fill(r.receiver, []).outcome.value)
    ensures GetMoreImages(r, ops, now).0.adder.currentC == d.foundC
    ensures GetMoreImages(r, ops, now).0.eventsReturnAfter == a.eventsDuring + a.eventsAfter
    ensures GetMoreImages(r, ops, now).0.eventsReturnBefore == a.eventsBefore
    ensures GetMoreImages(r, ops, now).0.adder.optimizeC
      == ToggleOptimize(r.mode, r.optimizeController, r.optimizeC,
                        Latency(now, a.blurInfo.value.packetTimestamp) > TargetMillis(r.targetLatency), a.optimizeC)
    ensures GetMoreImages(r, ops, now).0.adder.intervalT
      == ShrinkInterval(a.intervalT, a.deblurOnly, Fill(r.receiver, []).outcome.value)
    ensures GetMoreImages(r, ops, now).0.adder.latentImage == d.retVec[|d.retVec| - 1]
    ensures GetMoreImages(r, ops, now).0.adder.blurInfo == a.blurInfo
    ensures GetMoreImages(r, ops, now).0.adder.eventsBefore == []
    ensures GetMoreImages(r, ops, now).0.adder.eventsDuring == []
    ensures GetMoreImages(r, ops, now).0.adder.eventsAfter == []
    ensures GetMoreImages(r, ops, now).0.adder.rest == ops.resetEventQueues(a.rest)
  {
  }

  /** A refill panics when the adder returns nothing; when the read-ahead
      finds no next frame it reports the end of the input, queueing nothing,
      and the adder it keeps has had its c-optimisation flag set by the
      latency controller and its interval length left alone. */
  lemma RefillOutcomes<S>(r: Recon<S>, ops: Ops<S>, now: int, a0: Adder<S>, a: Adder<S>, d: Option<DeblurReturn>)
    requires Drain(r.adder, r.packetQueue, ops) == Ok(a0)
    requires ops.deblur(a0) == (d, a)
    requires a.blurInfo.Some?
    ensures d.None? ==> GetMoreImages(r, ops, now).1 == Panic(NO_IMAGES_RETURNED)
    ensures d.Some? && !Fill(r.receiver, []).outcome.Ok? ==>
      GetMoreImages(r, ops, now).1 == Err(END_OF_FILE)
    ensures d.Some? && !Fill(r.receiver, []).outcome.Ok? ==>
      GetMoreImages(r, ops, now).0.adder
      == a.(optimizeC := ToggleOptimize(r.mode, r.optimizeController, r.optimizeC,
                                        Latency(now, a.blurInfo.value.packetTimestamp) > TargetMillis(r.targetLatency),
                                        a.optimizeC))
  {
  }

  // ---------------------------------------------------------------- iterator

  /** Before a refill a staged exposure becomes current and the staged slot
      is emptied. */
  function PromoteStaged<S>(a: Adder<S>): (r: Adder<S>)
    ensures r.nextBlurInfo.None?
    ensures a.nextBlurInfo.Some? ==> r.blurInfo == a.nextBlurInfo
    ensures a.nextBlurInfo.None? ==> r == a
    ensures r.rest == a.rest && r.intervalT == a.intervalT && r.optimizeC == a.optimizeC
  {
    if a.nextBlurInfo.Some? then a.(blurInfo := a.nextBlurInfo, nextBlurInfo := None) else a
  }

  /** Promotion is done once per refill: repeating it changes nothing more. */
  lemma PromoteOnce<S>(a: Adder<S>)
    ensures PromoteStaged(PromoteStaged(a)) == PromoteStaged(a)
  {
  }

  /** The iterator step at instant `now`; `withEvents` asks for the events
      around the exposure, which only deblur-only mode allows. */
  function Next<S>(r: Recon<S>, ops: Ops<S>, withEvents: bool, now: int): (out: Res<(Recon<S>, Option<Item>)>)
    ensures withEvents && !r.adder.deblurOnly ==> out == Panic(NOT_DEBLUR_ONLY)
    ensures !(withEvents && !r.adder.deblurOnly) && |r.latentQueue| > 0 ==>
      out == Ok((r.(latentQueue := r.latentQueue[1..]), Some(Item(r.latentQueue[0], None, None, None))))
    ensures !out.Err?
    ensures out.Ok? && out.value.1.Some? ==> (out.value.1.value.events.Some? <==> withEvents && |r.latentQueue| == 0)
  {
    if withEvents && !r.adder.deblurOnly then Panic(NOT_DEBLUR_ONLY)
    else if |r.latentQueue| > 0 then
      Ok((r.(latentQueue := r.latentQueue[1..]), Some(Item(r.latentQueue[0], None, None, None))))
    else
      var (g, res) := GetMoreImages(r.(adder := PromoteStaged(r.adder)), ops, now);
      if res.Panic? then Panic(res.msg)
      else if res.Err? then Ok((g, None))
      // a successful refill always queues an image, so this panic cannot fire
      else if |g.latentQueue| == 0 then Panic(NO_IMAGES_QUEUED)
      else if g.adder.blurInfo.None? then Panic(UNWRAP_NONE)
      else
        var b := g.adder.blurInfo.value;
        var events := if withEvents
          then Some(EventsReturn(g.adder.currentC, g.eventsReturnBefore, g.eventsReturnAfter,
                                 b.frame.exposureBegin, g.adder.lastIntervalStart))
          else None;
        Ok((g.(latentQueue := g.latentQueue[1..]),
            Some(Item(g.latentQueue[0], Some(b.packetTimestamp), events, Some(res.value)))))
  }

  /** On refill the iterator returns the first image the refill queued, with
      the latency the refill measured, and keeps the rest queued. */
  lemma RefillServesFirstImage<S>(r: Recon<S>, ops: Ops<S>, withEvents: bool, now: int, s: Recon<S>, it: Item)
    requires |r.latentQueue| == 0
    requires Next(r, ops, withEvents, now) == Ok((s, Some(it)))
    ensures GetMoreImages(r.(adder := PromoteStaged(r.adder)), ops, now).1.Ok?
    ensures [it.image] + s.latentQueue == GetMoreImages(r.(adder := PromoteStaged(r.adder)), ops, now).0.latentQueue
    ensures it.latency == Some(GetMoreImages(r.(adder := PromoteStaged(r.adder)), ops, now).1.value)
  {
  }
}
