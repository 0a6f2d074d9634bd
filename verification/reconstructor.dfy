/** The synchronous reconstructor of `src/reconstructor.rs`.

    It reads decoded packets up to the next frame, stages that frame in one of
    the adder's two exposure slots, hands the queued event packets to the
    adder, and serves the reconstructed images one at a time. The event adder
    it drives is known only through its two slots and three operations, which
    are parameters here. */
module Reconstructor {
  import opened Outcomes
  import opened Sensor
  import opened Packets
  import opened Decoding

  /** An exposure slot of the adder: the frame it was built from, and whether
      it holds one. */
  datatype Slot = Slot(frame: Frame, init: bool)

  const EmptySlot: Slot := Slot(Frame([], 0, 0), false)

  /** The event adder as the reconstructor sees it: the current and the staged
      exposure slot, and a state `rest` that only its own operations touch. */
  datatype Adder<S> = Adder(blurInfo: Slot, nextBlurInfo: Slot, rest: S)

  /** The adder operations the reconstructor calls. The reset acts on the
      adder's own state only: it leaves the exposure slots alone. */
  datatype Ops<!S> = Ops(
    sortEvents: (Adder<S>, Packet) -> Adder<S>,
    deblur: Adder<S> -> (Option<seq<Field>>, Adder<S>),
    resetEventQueues: S -> S)

  datatype Recon<S> = Recon(
    decoder: seq<Read>,
    packetQueue: seq<Packet>,
    adder: Adder<S>,
    latentQueue: seq<Field>)

  /** Reading `x` ends a fill: a frame, or a decoding error. */
  predicate Stops(x: Read) {
    x.DecodeError? || x.packet.FramePacket?
  }

  // ---------------------------------------------------------------- slots

  /** A new exposure goes into the current slot while that is empty, and into
      the staged slot once it is filled. */
  function Stage<S>(a: Adder<S>, f: Frame): (r: Adder<S>)
    ensures r.blurInfo.init && r.rest == a.rest
    ensures !a.blurInfo.init ==> r.blurInfo.frame == f && r.nextBlurInfo == a.nextBlurInfo
    ensures a.blurInfo.init ==> r.blurInfo == a.blurInfo && r.nextBlurInfo == Slot(f, true)
  {
    if !a.blurInfo.init then a.(blurInfo := Slot(f, true))
    else a.(nextBlurInfo := Slot(f, true))
  }

  /** Before a refill, a staged exposure becomes current; the old current
      slot is kept as the staged one, marked empty. */
  function SwapIfStaged<S>(a: Adder<S>): (r: Adder<S>)
    ensures !r.nextBlurInfo.init && r.rest == a.rest
    ensures a.nextBlurInfo.init ==> r.blurInfo == a.nextBlurInfo && r.nextBlurInfo.frame == a.blurInfo.frame
    ensures !a.nextBlurInfo.init ==> r == a
  {
    if a.nextBlurInfo.init then a.(blurInfo := a.nextBlurInfo, nextBlurInfo := a.blurInfo.(init := false))
    else a
  }

  /** Two frames staged from an empty adder land in order: the first is
      current, the second staged; a third would overwrite the second. */
  lemma StageTwice<S>(a: Adder<S>, f1: Frame, f2: Frame, f3: Frame)
    requires !a.blurInfo.init
    ensures Stage(Stage(a, f1), f2).blurInfo == Slot(f1, true)
    ensures Stage(Stage(a, f1), f2).nextBlurInfo == Slot(f2, true)
    ensures Stage(Stage(Stage(a, f1), f2), f3).nextBlurInfo == Slot(f3, true)
  {
  }

  /** The swap is done once per refill: repeating it changes nothing more. */
  lemma SwapOnce<S>(a: Adder<S>)
    ensures SwapIfStaged(SwapIfStaged(a)) == SwapIfStaged(a)
  {
  }

  /** After a swap, the next frame read goes to the staged slot whenever the
      current one is filled, and the frame promoted by the swap stays current. */
  lemma SwapThenStage<S>(a: Adder<S>, f: Frame)
    requires a.nextBlurInfo.init
    ensures Stage(SwapIfStaged(a), f).blurInfo == a.nextBlurInfo
    ensures Stage(SwapIfStaged(a), f).nextBlurInfo == Slot(f, true)
  {
  }

  // ---------------------------------------------------------------- fill

  /** Reads packets up to and including the next frame. Event packets are
      queued; other packets are skipped. Returns the state afterwards with the
      outcome; the state persists also when the outcome is an error. */
  function Fill<S>(r: Recon<S>): (out: (Recon<S>, Res<()>))
    ensures out.0.latentQueue == r.latentQueue
    ensures |out.0.packetQueue| >= |r.packetQueue| && out.0.packetQueue[..|r.packetQueue|] == r.packetQueue
    ensures out.1.Err? ==> out.1.msg == END_OF_FILE && out.0.decoder == [] && out.0.adder == r.adder
    ensures out.1.Ok? ==> out.0.adder.rest == r.adder.rest && out.0.adder.blurInfo.init
    ensures out.1.Ok? && r.adder.blurInfo.init ==> out.0.adder.blurInfo == r.adder.blurInfo
    ensures out.1.Ok? && !r.adder.blurInfo.init ==> out.0.adder.nextBlurInfo == r.adder.nextBlurInfo
    decreases |r.decoder|
  {
    if r.decoder == [] then (r, Err(END_OF_FILE))
    else
      var s := r.(decoder := r.decoder[1..]);
      match r.decoder[0]
      case DecodeError(msg) => (s, Panic(msg))
      case Decoded(p) =>
        match p
        case FramePacket(f) => (s.(adder := Stage(s.adder, f)), Ok(()))
        case EventPacket(_) => Fill(s.(packetQueue := s.packetQueue + [p]))
        case OtherPacket(_) => Fill(s)
  }

  /** The index of the first read that ends a fill, or `|input|` if none. */
  function StopAt(input: seq<Read>): (k: nat)
    ensures k <= |input|
    ensures forall i :: 0 <= i < k ==> !Stops(input[i])
    ensures k < |input| ==> Stops(input[k])
  {
    if input == [] then 0
    else if Stops(input[0]) then 0
    else 1 + StopAt(input[1..])
  }

  /** The packets among `input` that were decoded. */
  function Delivered(input: seq<Read>): seq<Packet> {
    if input == [] then []
    else (if input[0].Decoded? then [input[0].packet] else []) + Delivered(input[1..])
  }

  /** A fill queues, in order, the event packets read before the first frame
      or error, and nothing else. */
  lemma {:induction false} FillQueuesEventsBeforeStop<S>(r: Recon<S>)
    ensures Fill(r).0.packetQueue
      == r.packetQueue + EventPackets(Delivered(r.decoder[..StopAt(r.decoder)]))
    decreases |r.decoder|
  {
    var d := r.decoder;
    if d == [] || Stops(d[0]) {
      assert d[..0] == [];
      FillAtStop(r);
    } else {
      var t := FillStep(r);
      FillQueuesEventsBeforeStop(t);
      var head := if d[0].packet.EventPacket? then [d[0].packet] else [];
      var tail := EventPackets(Delivered(d[1..][..StopAt(d) - 1]));
      EventsBeforeStopStep(d);
      assert (r.packetQueue + head) + tail == r.packetQueue + (head + tail);
    }
  }

  /** A fill at a stopping read, or at the end of the input, queues nothing. */
  lemma FillAtStop<S>(r: Recon<S>)
    requires r.decoder == [] || Stops(r.decoder[0])
    ensures Fill(r).0.packetQueue == r.packetQueue
  {
  }

  /** A fill over a read that does not end it continues from the next read,
      with the read's packet queued when it is an event packet. */
  lemma FillStep<S>(r: Recon<S>) returns (t: Recon<S>)
    requires r.decoder != [] && !Stops(r.decoder[0])
    ensures Fill(r) == Fill(t)
    ensures t.decoder == r.decoder[1..] && t.adder == r.adder && t.latentQueue == r.latentQueue
    ensures t.packetQueue
            == r.packetQueue + (if r.decoder[0].packet.EventPacket? then [r.decoder[0].packet] else [])
  {
    var s := r.(decoder := r.decoder[1..]);
    t := if r.decoder[0].packet.EventPacket? then s.(packetQueue := s.packetQueue + [r.decoder[0].packet]) else s;
  }

  /** The event packets before the first stopping read: those of the first
      read followed by those of the rest. */
  lemma EventsBeforeStopStep(d: seq<Read>)
    requires d != [] && !Stops(d[0])
    ensures StopAt(d[1..]) == StopAt(d) - 1
    ensures EventPackets(Delivered(d[..StopAt(d)]))
            == (if d[0].packet.EventPacket? then [d[0].packet] else [])
               + EventPackets(Delivered(d[1..][..StopAt(d) - 1]))
  {
    var k := StopAt(d);
    assert d[..k][1..] == d[1..][..k - 1];
    assert Delivered(d[..k]) == [d[0].packet] + Delivered(d[1..][..k - 1]);
  }

  /** A fill consumes the input up to and including the first frame or error,
      which decides the outcome: a frame is staged, an error panics, and no
      such read at all is the end of the input. */
  lemma {:induction false} FillStopsAtFirstStop<S>(r: Recon<S>)
    ensures StopAt(r.decoder) == |r.decoder| ==> Fill(r).1 == Err(END_OF_FILE)
    ensures StopAt(r.decoder) < |r.decoder| ==> Fill(r).0.decoder == r.decoder[StopAt(r.decoder) + 1..]
    ensures StopAt(r.decoder) < |r.decoder| && r.decoder[StopAt(r.decoder)].DecodeError? ==>
      Fill(r).1 == Panic(r.decoder[StopAt(r.decoder)].msg)
    ensures StopAt(r.decoder) < |r.decoder| && r.decoder[StopAt(r.decoder)].Decoded? ==>
      Fill(r).1 == Ok(()) && Fill(r).0.adder == Stage(r.adder, r.decoder[StopAt(r.decoder)].packet.frame)
    decreases |r.decoder|
  {
    var d := r.decoder;
    if d != [] && !Stops(d[0]) {
      var s := r.(decoder := d[1..]);
      var t := if d[0].packet.EventPacket? then s.(packetQueue := s.packetQueue + [d[0].packet]) else s;
      assert Fill(r) == Fill(t);
      FillStopsAtFirstStop(t);
      var k := StopAt(d);
      if k < |d| {
        assert d[1..][k - 1..] == d[k..];
        assert d[1..][k - 1] == d[k];
      }
    }
  }

  // ---------------------------------------------------------------- refill

  /** Hands the queued packets to the adder in order; only event packets are
      routed, frames and other packets are ignored. */
  function Drain<S>(a: Adder<S>, q: seq<Packet>, ops: Ops<S>): (r: Adder<S>)
    ensures EventPackets(q) == [] ==> r == a
    decreases |q|
  {
    if q == [] then a
    else Drain(if q[0].EventPacket? then ops.sortEvents(a, q[0]) else a, q[1..], ops)
  }

  /** Draining a queue is draining its event packets alone. */
  lemma {:induction false} DrainIgnoresOthers<S>(a: Adder<S>, q: seq<Packet>, ops: Ops<S>)
    ensures Drain(a, q, ops) == Drain(a, EventPackets(q), ops)
    decreases |q|
  {
    if q != [] {
      var b := if q[0].EventPacket? then ops.sortEvents(a, q[0]) else a;
      var e := EventPackets(q[1..]);
      assert Drain(a, q, ops) == Drain(b, q[1..], ops);
      DrainIgnoresOthers(b, q[1..], ops);
      if q[0].EventPacket? {
        var eq := [q[0]] + e;
        assert EventPackets(q) == eq;
        assert eq[0] == q[0] && eq[1..] == e;
        assert Drain(a, eq, ops) == Drain(b, e, ops);
      } else {
        assert EventPackets(q) == e;
      }
    }
  }

  /** Draining two queues one after the other is draining their concatenation. */
  lemma {:induction false} DrainAppend<S>(a: Adder<S>, q1: seq<Packet>, q2: seq<Packet>, ops: Ops<S>)
    ensures Drain(a, q1 + q2, ops) == Drain(Drain(a, q1, ops), q2, ops)
    decreases |q1|
  {
    if q1 == [] {
      assert q1 + q2 == q2;
    } else {
      assert (q1 + q2)[1..] == q1[1..] + q2;
      var b := if q1[0].EventPacket? then ops.sortEvents(a, q1[0]) else a;
      DrainAppend(b, q1[1..], q2, ops);
    }
  }

  /** Drains the packet queue into the adder, then appends the adder's images
      to the output queue and resets its event queues. */
  function GetMoreImages<S>(r: Recon<S>, ops: Ops<S>): (g: Res<Recon<S>>)
    ensures !g.Err?
    ensures g.Panic? ==> g.msg == NO_IMAGES_RETURNED
    ensures g.Ok? ==> g.value.packetQueue == [] && g.value.decoder == r.decoder
    ensures g.Ok? ==> (|g.value.latentQueue| >= |r.latentQueue|
      && g.value.latentQueue[..|r.latentQueue|] == r.latentQueue)
    ensures g.Ok? ==>
      g.value.adder == ops.deblur(Drain(r.adder, r.packetQueue, ops)).1.(
        rest := ops.resetEventQueues(ops.deblur(Drain(r.adder, r.packetQueue, ops)).1.rest))
  {
    var (imgs, a) := ops.deblur(Drain(r.adder, r.packetQueue, ops));
    if imgs.None? then Panic(NO_IMAGES_RETURNED)
    else Ok(r.(packetQueue := [], adder := a.(rest := ops.resetEventQueues(a.rest)), latentQueue := r.latentQueue + imgs.value))
  }

  /** A refill appends exactly what the adder returns after seeing the event
      packets of the queue, in order; the frames in the queue play no part,
      and the refill panics exactly when the adder returns nothing. */
  lemma RefillUsesEventPackets<S>(r: Recon<S>, ops: Ops<S>)
    ensures GetMoreImages(r, ops) == GetMoreImages(r.(packetQueue := EventPackets(r.packetQueue)), ops)
    ensures GetMoreImages(r, ops).Panic?
      <==> ops.deblur(Drain(r.adder, EventPackets(r.packetQueue), ops)).0.None?
    ensures GetMoreImages(r, ops).Ok? ==> (GetMoreImages(r, ops).value.latentQueue
      == r.latentQueue + ops.deblur(Drain(r.adder, EventPackets(r.packetQueue), ops)).0.value)
  {
    DrainIgnoresOthers(r.adder, r.packetQueue, ops);
  }

  // ---------------------------------------------------------------- iterator

  /** The iterator step: the next queued image, or else a refill; `None` when
      the input ended after a refill. */
  function Next<S>(r: Recon<S>, ops: Ops<S>): (out: Res<(Recon<S>, Option<Field>)>)
    ensures !out.Err?
    ensures |r.latentQueue| > 0 ==>
      out == Ok((r.(latentQueue := r.latentQueue[1..]), Some(r.latentQueue[0])))
    ensures out.Ok? && out.value.1.None? ==> out.value.0.decoder == []
    ensures |r.latentQueue| == 0 && GetMoreImages(r.(adder := SwapIfStaged(r.adder)), ops).Ok?
            && GetMoreImages(r.(adder := SwapIfStaged(r.adder)), ops).value.latentQueue == [] ==>
              out == Panic(NO_IMAGES_QUEUED)
  {
    if |r.latentQueue| > 0 then Ok((r.(latentQueue := r.latentQueue[1..]), Some(r.latentQueue[0])))
    else
      var g :- GetMoreImages(r.(adder := SwapIfStaged(r.adder)), ops);
      if |g.latentQueue| == 0 then Panic(NO_IMAGES_QUEUED)
      else
        var (f, res) := Fill(g.(latentQueue := g.latentQueue[1..]));
        if res.Panic? then Panic(res.msg)
        else if res.Err? then Ok((f, None))
        else Ok((f, Some(g.latentQueue[0])))
  }

  /** `n` iterator steps, collecting what each returns. */
  function Serve<S>(r: Recon<S>, ops: Ops<S>, n: nat): Res<(Recon<S>, seq<Option<Field>>)>
    decreases n
  {
    if n == 0 then Ok((r, []))
    else
      var (s, x) :- Next(r, ops);
      var (t, xs) :- Serve(s, ops, n - 1);
      Ok((t, [x] + xs))
  }

  /** While images are queued the iterator serves them first-in first-out
      and touches nothing else. */
  lemma {:induction false} ServeDrainsQueueInOrder<S>(r: Recon<S>, ops: Ops<S>, n: nat)
    requires n <= |r.latentQueue|
    ensures Serve(r, ops, n).Ok?
    ensures Serve(r, ops, n).value.0 == r.(latentQueue := r.latentQueue[n..])
    ensures |Serve(r, ops, n).value.1| == n
    ensures forall i :: 0 <= i < n ==> Serve(r, ops, n).value.1[i] == Some(r.latentQueue[i])
    decreases n
  {
    if n > 0 {
      var s := r.(latentQueue := r.latentQueue[1..]);
      ServeDrainsQueueInOrder(s, ops, n - 1);
      assert r.latentQueue[1..][n - 1..] == r.latentQueue[n..];
    }
  }

  /** On refill the iterator returns the first image the adder produced, and
      queues the rest. */
  lemma RefillServesFirstImage<S>(r: Recon<S>, ops: Ops<S>, s: Recon<S>, img: Field)
    requires |r.latentQueue| == 0
    requires Next(r, ops) == Ok((s, Some(img)))
    ensures GetMoreImages(r.(adder := SwapIfStaged(r.adder)), ops).Ok?
    ensures [img] + s.latentQueue == GetMoreImages(r.(adder := SwapIfStaged(r.adder)), ops).value.latentQueue
  {
  }

  /** When the input ends right after a refill, the iterator reports the end
      although it already took the first new image off the queue: that image
      is never returned, while the rest stay queued. */
  lemma EndOfInputLosesImage<S>(r: Recon<S>, ops: Ops<S>, g: Recon<S>)
    requires |r.latentQueue| == 0
    requires GetMoreImages(r.(adder := SwapIfStaged(r.adder)), ops) == Ok(g)
    requires |g.latentQueue| > 0
    requires StopAt(g.decoder) == |g.decoder|
    ensures Next(r, ops).Ok? && Next(r, ops).value.1.None?
    ensures Next(r, ops).value.0.latentQueue == g.latentQueue[1..]
  {
    FillStopsAtFirstStop(g.(latentQueue := g.latentQueue[1..]));
  }

  // ---------------------------------------------------------------- setup

  /** The reconstructor as constructed: the first frame of the input and the
      events before it are dropped, and the following frame is read into the
      current slot; failing to find it panics. */
  function NewRecon<S>(input: seq<Read>, initial: S): (r: Res<Recon<S>>)
    ensures !r.Err?
    ensures r.Ok? ==> (r.value.latentQueue == [] && r.value.adder.rest == initial
      && r.value.adder.blurInfo.init && !r.value.adder.nextBlurInfo.init)
  {
    var rest :- SkipToFrame(input);
    var (s, res) := Fill(Recon(rest, [], Adder(EmptySlot, EmptySlot, initial), []));
    if res.Ok? then Ok(s)
    else if res.Panic? then Panic(res.msg)
    else Panic(UNWRAP_ERR)
  }

  /** A fresh reconstructor holds the events between the first and the second
      frame of the input, in order, with the second frame current. */
  lemma NewReconQueuesSecondExposure<S>(input: seq<Read>, initial: S, rest: seq<Read>)
    requires SkipToFrame(input) == Ok(rest)
    requires StopAt(rest) < |rest| && rest[StopAt(rest)].Decoded?
    ensures NewRecon(input, initial).Ok?
    ensures NewRecon(input, initial).value.packetQueue == EventPackets(Delivered(rest[..StopAt(rest)]))
    ensures NewRecon(input, initial).value.adder.blurInfo == Slot(rest[StopAt(rest)].packet.frame, true)
  {
    FillQueuesEventsBeforeStop(Recon(rest, [], Adder(EmptySlot, EmptySlot, initial), []));
    FillStopsAtFirstStop(Recon(rest, [], Adder(EmptySlot, EmptySlot, initial), []));
  }
}
