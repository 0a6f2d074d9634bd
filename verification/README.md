# davis-EDI-rs: event interval store and reconstructor staging, in Dafny

This project models the sequential core of davis-EDI-rs. That program reconstructs
sharp frames from a DAVIS event camera with the Event-based Double
Integral (EDI). Each blurred reference frame comes with the events
recorded around its exposure. The events are binned into fixed-length
intervals, and latent images are integrated interval by interval in the
log domain.

The model has three parts.

- **Event adder** (`EventAdder`, from `src/event_adder.rs`).
  - A FIFO queue of intervals. Each interval has a sequential index and
    signed per-pixel event counts.
  - An event at time `t` goes to interval `(t - t_shift) / interval_t`.
    The queue grows at the tail until that interval exists, and the
    event adds +1 (on) or -1 (off) at its pixel.
  - While an exposure is open (`BlurInfo`), events in its first and last
    interval ("bookends") are also split into image and non-image counts.
  - The first event past the last interval resolves the exposure:
    1. pop up to the begin interval;
    2. fix c at 0.3 and take the deblurred latent image;
    3. run the backward pass from the pivot interval, emitting images
       oldest first;
    4. emit the pivot image;
    5. run the forward pass to the end interval;
    6. install the staged exposure.
  - Latent images are symbolic log-domain fields: a base image shifted by
    scaled event counts. The `exp` applied on emission is left
    uninterpreted.
  - The deblurred image itself is floating-point image processing, so it
    is a function parameter.
- **Synchronous reconstructor** (`Reconstructor`, from
  `src/reconstructor.rs`).
  - Reads decoded packets up to the next frame and queues the event
    packets.
  - Stages each frame in the adder's current slot while that is empty,
    and otherwise in its staged slot. The slots swap on refill.
  - A refill drains the packet queue into the adder and appends the
    returned images. The iterator serves images first-in first-out.
- **Asynchronous reconstructor** (`AsyncReconstructor`, from
  `src/util/reconstructor.rs`).
  - Does the same over a receiver of timestamped packets.
  - Also has:
    - the source-mode check;
    - a latency controller that switches the adder's c-optimisation on
      or off;
    - the deblur-only shrink of the interval length;
    - the events returned around each exposure.

Rust arithmetic follows a debug build:

- a `usize` subtraction below zero panics;
- `as usize` wraps modulo 2^64;
- `i64` `/` and `%` truncate toward zero.

Every operation returns `Ok`, `Err` (the source's recoverable errors) or
`Panic` (an abort, with its message). Operations whose state persists
after an `Err` return that state alongside the outcome.

`src/reconstructor.rs` imports `EventAdder` and `BlurInfo` from
`crate::event_adder`, but it calls `sort_events`, an argument-less
`deblur_image`, `reset_event_queues` and a three-argument `BlurInfo::new`,
none of which the version of `src/event_adder.rs` modelled here defines.
`src/util/reconstructor.rs` calls the same operations on its own adder
module, which is not part of this model. So each reconstructor sees its
adder only through the fields it reads and writes, and through an `Ops`
record of opaque functions standing for those calls.

The bookend split compares the event's whole time since `t_shift` against
the edge's offset inside its interval. It is modelled as written. Lemma
`EventAdder.SplitPastFirstInterval` records the consequence: past the
first interval, the begin bookend counts every event as image and the end
bookend counts every event as non-image.

Files:

- `outcomes.dfy`: `Option` and `Res`.
- `sensor.dfy`: pixels, events, counts and fields.
- `packets.dfy`: tagged packets.
- `decoding.dfy`: decoder items and the skip to the first frame.
- `event_adder.dfy`
- `reconstructor.dfy`
- `async_reconstructor.dfy`

## Model

| member | source | states |
|---|---|---|
| Sensor.Bump | src/event_adder.rs:537-543 | adds exactly the polarity (+1 on, -1 off) at the event's pixel and leaves every other pixel's count unchanged |
| Sensor.AddScaled | src/event_adder.rs:130-131 | the new latent log image is, at every pixel, the old one plus c times that pixel's count |
| Sensor.SubScaled | src/event_adder.rs:234-235 | the backward step is, at every pixel, the later image minus c times the count |
| Sensor.OppositeBumpsCancel | src/event_adder.rs:537-543 | an on and an off event at the same pixel leave every count as it was |
| Sensor.AddUndoesSub | src/event_adder.rs:229-252 | a forward step with the same c and counts undoes a backward step at every pixel |
| Packets.StreamId | src/util/reconstructor.rs:449-452 | stream id 0 means exactly an event packet and id 1 exactly a frame packet |
| Decoding.SkipToFrame | src/reconstructor.rs:59-72 | panics exactly when the input holds no frame; otherwise returns the input after its first frame, with no frame before it; decoding errors are skipped (the same loop is at src/util/reconstructor.rs:131-148) |
| EventAdder.AsUsize | src/event_adder.rs:187 | `as usize` is the identity on values in range and adds 2^64 to negative values |
| EventAdder.SubUsize | src/event_adder.rs:221 | usize subtraction succeeds exactly when the subtrahend is not larger, and otherwise panics with overflow |
| EventAdder.TruncDivRem | src/event_adder.rs:48-49 | quotient times divisor plus remainder gives back the dividend; the remainder lies in [0, d) for a non-negative dividend and in (-d, 0] for a negative one |
| EventAdder.NewAdder | src/event_adder.rs:94-111 | a new adder stores its t_shift, interval length (the output frame length), height and width, and has an empty queue with interval_count and intervals_popped at zero, an empty return queue, a zero latent image, c = 0.3 and two empty exposure slots, and satisfies the queue invariant |
| EventAdder.NewBookend | src/event_adder.rs:47-59 | for an edge at or after `t_shift`, idx * interval_t + offset == edge - t_shift with 0 <= offset < interval_t; for an edge before it, the offset is non-positive and the index wraps |
| EventAdder.NewBlurInfo | src/event_adder.rs:38-73 | panics exactly when the end interval precedes the begin interval; otherwise init is true, both bookends are located as above, and the pivot is (end - begin) / 2 + 1 + intervals_popped, stated as two-sided bounds |
| EventAdder.PushInterval | src/event_adder.rs:112-120 | appends one interval numbered with the old interval_count and with zero counts, increments interval_count by 1, changes nothing else and keeps the queue invariant |
| EventAdder.PopInterval | src/event_adder.rs:124-136 | panics exactly on an empty queue; otherwise drops exactly the head, increments intervals_popped, advances the latent image by c times the head's counts, appends that image to the return queue, changes nothing else, and the head had index intervals_popped |
| EventAdder.PushN | src/event_adder.rs:188-190 | the growth loop keeps every queued interval and appends only zeroed ones, one per count increment, keeping the invariant |
| EventAdder.PopN | src/event_adder.rs:250-252 | n pops panic exactly when fewer than n intervals are queued; otherwise they drop the first n and emit the running latent images of a forward pass over them |
| EventAdder.AddToCounter | src/event_adder.rs:537-543 | panics exactly for a pixel outside the counters; otherwise adds the polarity at the event's pixel only |
| EventAdder.IntervalSlot | src/event_adder.rs:262 | `interval_idx - intervals_popped` indexes the queue exactly when that interval is still queued; otherwise it panics on underflow or on an out-of-range index |
| EventAdder.Grow | src/event_adder.rs:186-190 | afterwards the event's interval is queued and every existing count is unchanged; interval_count becomes max(interval_count, idx + 1); panics exactly when the interval was already popped |
| EventAdder.AddToInterval | src/event_adder.rs:261-263 | adds the polarity at the event's pixel of exactly its own interval; every other count and every interval index is unchanged |
| EventAdder.DeblurIndexing | src/event_adder.rs:267-318 | the deblur indexing succeeds exactly when the end interval index is at least 1 (so `end - 1` does not underflow), both bookend intervals are queued, and, unless the exposure spans exactly two intervals, every interval the two inner loops touch (begin+1..mid and mid..end) is queued; its only panics are underflow and out-of-range index |
| EventAdder.OptimizeC | src/event_adder.rs:412-416 | fixes c at 0.3, moves the pivot for a two-interval exposure, and replaces the latent image with the deblurred one; nothing else changes |
| EventAdder.BackwardPass | src/event_adder.rs:229-248 | succeeds exactly when the pivot lies between the queue head and one past the tail; pops the intervals before the pivot and emits their backward-pass images oldest first, followed by the unchanged pivot image; panics only on underflow or an out-of-range index |
| EventAdder.PopToBegin | src/event_adder.rs:221-224 | equals popping the intervals before the begin interval, after which the head is the begin interval; under the queue invariant the `assert_eq!` cannot fail |
| EventAdder.InstallNext | src/event_adder.rs:253-254 | the staged exposure becomes current and the staging slot returns to its default; nothing else changes |
| EventAdder.Resolve | src/event_adder.rs:219-256 | keeps the configuration; under the queue invariant it never fails with the bookend mismatch |
| EventAdder.Bookends | src/event_adder.rs:193-258 | an event inside the exposure but outside the frame panics. An event whose interval is past the end interval, and is not the begin interval, runs the resolution. Any other event succeeds exactly when it is in frame, or is neither inside the exposure nor in a bookend interval. It changes only the bookend accumulators, adding its polarity once at its pixel exactly when its interval is a bookend interval |
| EventAdder.CountInBookend | src/event_adder.rs:198-217 | in a bookend interval the event is counted once at its pixel, in the begin bookend first; it panics exactly when out of frame and changes nothing else |
| EventAdder.ProcessEvent | src/event_adder.rs:181-265 | an event before t_shift changes nothing; any other event succeeds only when it is inside the frame; any successful step keeps the configuration |
| EventAdder.ProcessEventResolves | src/event_adder.rs:219-256 | an event past the end interval of an open exposure leaves the adder exactly as the resolution of the grown queue leaves it, with the event then counted +-1 in its own interval |
| EventAdder.ProcessEventQuiet | src/event_adder.rs:181-265 | any other event pops nothing and keeps the images, latent image, c and staged exposure. The open exposure keeps its edges, and its bookends gain the event exactly when it falls in a bookend interval |
| EventAdder.ProcessEventKeepsImages | src/event_adder.rs:219-256 | an event keeps the images already queued at the front, and adds images exactly when it resolves the exposure |
| EventAdder.ResolveKeepsImages | src/event_adder.rs:219-256 | a resolution keeps the images already queued and adds at least one |
| EventAdder.ProcessAllAppend | src/event_adder.rs:171-173 | processing a concatenation is processing its parts in sequence |
| EventAdder.ProcessAllQuiet | src/event_adder.rs:171-173 | a packet none of whose events resolves the exposure keeps the images, latent image, c, staged exposure and the open exposure's edges |
| EventAdder.ProcessAllKeepsImages | src/event_adder.rs:171-173 | processing a packet never takes back an image |
| EventAdder.AddEvents | src/event_adder.rs:153-179 | the state afterwards is that of processing the packet's events, in order, from the adder with one interval ensured and the return queue cleared; it fails exactly when that processing panics; it returns None exactly when no image was emitted, and otherwise every emitted image |
| EventAdder.AddEventsEmitsOnResolution | src/event_adder.rs:153-179 | `add_events` returns None exactly when none of the packet's events resolves the exposure open when the packet arrives |
| EventAdder.AddEventsFirstResolution | src/event_adder.rs:153-179 | when an event resolves the exposure and no earlier event of the packet does, the returned images begin with exactly the images that resolution emits. That resolution starts from an empty return queue and the exposure's original edges |
| EventAdder.AddEventsIgnoresHeldImages | src/event_adder.rs:153-179 | the result is the same whatever images the return queue held before the call: only this packet's images are returned |
| EventAdder.ForwardChain | src/event_adder.rs:124-136 | successive pops form a chain: each image is the previous one plus c times the next interval's counts |
| EventAdder.BackwardChain | src/event_adder.rs:232-240 | the backward pass, read oldest first, is a chain that ends at the pivot image |
| EventAdder.ChainSums | src/event_adder.rs:130-131 | every image of a chain is the first image plus c times the accumulated counts of the intervals before it |
| EventAdder.ResolveKeepsQueue | src/event_adder.rs:219-256 | a resolution pops exactly the intervals before the end interval (or before the pivot, when the pivot lies past it), keeps the queue invariant, fixes c at 0.3 and installs the staged exposure |
| EventAdder.ResolveEmitsChain | src/event_adder.rs:219-252 | a resolution emits one image per popped interval plus the pivot image. The images before the begin interval are a forward pass with the old c. From there, the images are one chain with c = 0.3 over the exposure's intervals, with the deblurred image at the pivot position. The latent image ends at the last emitted image |
| EventAdder.BookendsKeepQueue | src/event_adder.rs:198-258 | the bookend step only pops from the head and keeps the queue invariant |
| EventAdder.RoutedEventCounted | src/event_adder.rs:186-190 | after processing an event its interval is queued, interval_count is max(old, idx + 1), and every queued count is unchanged except +-1 at the event's pixel in its own interval |
| EventAdder.OppositeEventsCancel | src/event_adder.rs:262-263 | an on and an off event at the same pixel in the same interval leave every queued count as it was, even across a resolution |
| EventAdder.BeginBookendSplit | src/event_adder.rs:199-208 | in the begin interval an event goes to exactly one of the two counters: non-image when local_t <= offset, image otherwise; nothing else of the exposure changes, so the begin arm takes the event when both bookends share an interval |
| EventAdder.EndBookendSplit | src/event_adder.rs:209-218 | in the end interval the comparison is reversed: image when local_t < offset, non-image otherwise, into exactly one counter |
| EventAdder.SplitPastFirstInterval | src/event_adder.rs:200-216 | as written, past the first interval the begin split always chooses image and the end split always chooses non-image |
| EventAdder.ProcessAllKeepsInv | src/event_adder.rs:171-173 | processing a packet's events in order keeps the queue invariant |
| EventAdder.AddEventsKeepsInv | src/event_adder.rs:153-179 | `add_events` keeps the queue invariant |
| Reconstructor.Stage | src/reconstructor.rs:120-132 | a new frame fills the current slot when it is empty, and otherwise the staged slot; a filled current slot is never overwritten |
| Reconstructor.SwapIfStaged | src/reconstructor.rs:220-223 | a staged exposure becomes current and the staged slot is marked empty; with nothing staged, nothing changes |
| Reconstructor.StageTwice | src/reconstructor.rs:125-132 | two frames staged into an empty adder land in arrival order; a third overwrites only the staged slot |
| Reconstructor.SwapOnce | src/reconstructor.rs:220-223 | swapping a second time changes nothing further |
| Reconstructor.SwapThenStage | src/reconstructor.rs:125-132 | after a swap, the promoted frame stays current and the next frame goes to the staged slot |
| Reconstructor.Fill | src/reconstructor.rs:95-145 | leaves the image queue alone and only appends to the packet queue. At the end of input it returns `Err("End of aedat file")` with the adder untouched. On success the current slot is filled, and a slot already filled keeps its frame |
| Reconstructor.FillQueuesEventsBeforeStop | src/reconstructor.rs:96-143 | a fill queues exactly the event packets before the first frame or decoding error, in arrival order |
| Reconstructor.FillStopsAtFirstStop | src/reconstructor.rs:96-143 | a fill consumes input up to and including the first frame or error. A frame is staged, an error panics with its message, and running out of input is `Err` |
| Reconstructor.Drain | src/reconstructor.rs:149-160 | a queue without event packets leaves the adder unchanged |
| Reconstructor.DrainIgnoresOthers | src/reconstructor.rs:151-159 | draining the queue is the same as draining its event packets alone, in order |
| Reconstructor.DrainAppend | src/reconstructor.rs:149-160 | draining two queues in turn is the same as draining their concatenation |
| Reconstructor.GetMoreImages | src/reconstructor.rs:148-173 | never returns `Err`; panics only with "No images returned from deblur call"; on success the packet queue is empty, the input is untouched and the old images stay at the front; the adder is the one the deblur call left, with only its own state passed through the event-queue reset |
| Reconstructor.RefillUsesEventPackets | src/reconstructor.rs:148-173 | a refill depends only on the event packets of the queue. It panics exactly when the adder returns no images, and otherwise appends exactly those images in order |
| Reconstructor.Next | src/reconstructor.rs:212-249 | with images queued, returns the head and changes nothing else; returns None only once the input is exhausted; never `Err`; a refill that queues no image panics with "No images in the returned queue" |
| Reconstructor.ServeDrainsQueueInOrder | src/reconstructor.rs:213-215 | n steps over a queue of at least n images return its first n images in order and leave only the rest queued |
| Reconstructor.RefillServesFirstImage | src/reconstructor.rs:231-245 | on refill the step returns the first image of the refill and keeps the others queued |
| Reconstructor.EndOfInputLosesImage | src/reconstructor.rs:231-244 | when the input ends right after a refill, the step returns None although it already took the first new image off the queue; that image is lost and the rest stay queued |
| Reconstructor.NewRecon | src/reconstructor.rs:34-92 | never `Err`; a new reconstructor has no images queued, its current slot filled and its staged slot empty |
| Reconstructor.NewReconQueuesSecondExposure | src/reconstructor.rs:58-89 | a new reconstructor drops the first frame and the events before it. It queues the event packets up to the second frame and makes that frame current |
| AsyncReconstructor.OpenDecoders | src/util/reconstructor.rs:89-114 | an unknown mode is exactly `Err("Invalid source mode")`, and "socket" is unknown outside a unix build; "file" opens no second decoder, "socket" and "tcp" open one |
| AsyncReconstructor.NewRecon | src/util/reconstructor.rs:71-193 | returns `Err` exactly for an invalid mode. A valid mode with a target latency that is not positive panics. In file mode, an input without a frame panics. On success the target latency is positive, no images are queued, the current slot is filled, and only event packets are queued. An interval length of at least 1 is never increased |
| AsyncReconstructor.NewReconInstallsFirstExposure | src/util/reconstructor.rs:129-191 | file mode first skips to the first frame. The first frame the packet threads then deliver becomes the current exposure, and the interval length is shrunk to it in deblur-only mode. The fill's receiver and queue are kept, and the settings are the arguments |
| AsyncReconstructor.UntimedEvents | src/util/reconstructor.rs:441-507 | the timed event filter of the fill is the decoder's event filter with arrival instants carried along |
| AsyncReconstructor.ShrinkInterval | src/util/reconstructor.rs:185-189 | outside deblur-only mode the interval length is kept. In deblur-only mode, with a length of at least 1, the result is max(min(exposure, length), 1). A changed length is at least 1, and the old length exceeded the exposure |
| AsyncReconstructor.ShrinkSettles | src/util/reconstructor.rs:388-392 | shrinking again by the same exposure changes nothing |
| AsyncReconstructor.ShrinkNeverGrows | src/util/reconstructor.rs:388-392 | from a length of at least 1, a refill's shrink never increases the interval length and never takes it below 1 |
| AsyncReconstructor.Fill | src/util/reconstructor.rs:441-507 | only appends to the packet queue, and a queue of event packets stays one. It never panics, it always consumes input when there is any, and its errors are "End of aedat file" or "TODO handle sparse events" |
| AsyncReconstructor.ReadOneMore | src/util/reconstructor.rs:490-504 | the packet after a frame succeeds exactly for stream ids 0, 2 and 3 and queues it only if it is an event packet. Anything else is the sparse-events error, and no packet is end of input |
| AsyncReconstructor.FillWithoutFrame | src/util/reconstructor.rs:447-488 | without a frame, a fill queues every event packet in order and returns end of input |
| AsyncReconstructor.FillStopsAtFirstFrame | src/util/reconstructor.rs:447-504 | with a frame, a fill queues the event packets before the first frame in order. The frame, with its arrival time, goes to the read of one more packet |
| AsyncReconstructor.Drain | src/util/reconstructor.rs:323-335 | draining panics with "Unhandled frame?" exactly when the queue holds a frame packet |
| AsyncReconstructor.TruncatedTargetKeepsComparison | src/util/reconstructor.rs:361 | comparing the whole-millisecond latency with the target cast to an integer agrees with comparing it with the real target |
| AsyncReconstructor.ToggleOptimize | src/util/reconstructor.rs:357-377 | the flag changes exactly when the mode is not "file", the controller and c-optimisation are both on, and the over-target test equals the flag. File mode or a disabled controller never changes it |
| AsyncReconstructor.ActiveToggleFollowsLatency | src/util/reconstructor.rs:368-377 | with the controller active, the flag afterwards is on exactly when the latency is within the target, whatever it was before |
| AsyncReconstructor.ToggleSettles | src/util/reconstructor.rs:357-377 | a second toggle on the same latency changes nothing: at most one flip per refill |
| AsyncReconstructor.GetMoreImages | src/util/reconstructor.rs:322-437 | an error is exactly "End of aedat file" with the image queue unchanged. A success appends at least one image, stages a next exposure and leaves only event packets queued |
| AsyncReconstructor.ResetEventQueues | src/util/reconstructor.rs:429 | the reset empties the adder's before, during and after event queues and passes its own state through the reset; the exposure slots, c-optimisation flag, interval length and every other field are kept |
| AsyncReconstructor.RefillBooksResults | src/util/reconstructor.rs:347-433 | a successful refill appends the returned images in order and stages the frame read ahead. It adopts the c found, and sets the after-events to during ++ after and the before-events to before. It returns the latency of the current frame. The c-optimisation flag is the latency controller's verdict on that latency, the interval length is shrunk to the exposure read ahead, the latent image is the last image returned, and the adder's event queues are emptied |
| AsyncReconstructor.RefillOutcomes | src/util/reconstructor.rs:344-434 | no images from the adder panics; a missing next frame is `Err("End of aedat file")`, and the adder kept after it is the deblurred one with only the c-optimisation flag set by the latency controller (no interval shrink) |
| AsyncReconstructor.PromoteStaged | src/util/reconstructor.rs:214-220 | a staged exposure becomes current and the staged slot becomes None; with nothing staged, nothing changes |
| AsyncReconstructor.PromoteOnce | src/util/reconstructor.rs:214-220 | promoting again changes nothing further |
| AsyncReconstructor.Next | src/util/reconstructor.rs:202-319 | asking for events outside deblur-only mode panics. With images queued, the step returns the head with no timestamp, events or latency and changes nothing else. Events are returned exactly with images from a refill when asked for |
| AsyncReconstructor.RefillServesFirstImage | src/util/reconstructor.rs:250-313 | on refill the step returns the first image of the refill, with the refill's latency, and keeps the others queued |

## Left out

- Floating-point image numerics are not modelled. This covers `deblur_image` and `get_energy` of `src/event_adder.rs`, the Sobel gradient, `thin`, `normalize` and the `/255.0` pixel conversion. The deblurred latent image is the parameter `EventAdder.Deblur`, and `exp` on emission is uninterpreted (images stay in the log domain). Only the indexing panics of `deblur_image` are kept.
- The commented-out Fibonacci search for c (`src/event_adder.rs:352-410`) is dead code. The live path evaluates c = 0.3 only.
- `add_to_edge_boundary` only feeds the energy metric. Its exponential weights are left out, including the `mid_idx * interval_t` product; its out-of-range pixel panic is kept.
- Packet decoding is left out. This covers the flatbuffer size-prefix panics and indexing into `frame.pixels()`. An event packet is its event sequence, so `add_events` returning None for a packet without an element vector is not represented.
- Decoder construction and its `?` errors are left out, as are `id_to_stream` lookups and `split_camera_info`.
- The async runtime and the packet threads are parameters. The receiver is a sequence of timestamped packets, and `setup_packet_threads` is the `threads` function parameter of `AsyncReconstructor.NewRecon`.
- The clock is the `now` parameter, in nanoseconds, and latency is whole milliseconds saturating at zero. Printing, the display helpers, `running_fps` and the empty controller branch (`src/util/reconstructor.rs:238-248`) have no effect on state.
- `output_fps` and its float updates are left out.
- The event adders behind both reconstructors are opaque `Ops` records: `sort_events`, `deblur_image` and `reset_event_queues`. Their bodies are not part of this model.
- `reset_event_queues` is assumed to touch only the adder's event queues and its own opaque state. It leaves the exposure slots, the c-optimisation flag and the interval length alone. In the asynchronous reconstructor it empties the before, during and after event queues (`AsyncReconstructor.ResetEventQueues`).
- EventAdder.Interval: the per-interval scaled accumulator and latent image are scratch values and are not fields; the emitted images they produce are modelled.
- `sum_mat` is scratch state of `deblur_image` and is not modelled.
- EventAdder.ProcessEvent: requires a positive interval length, because the source divides by `interval_t`; a zero or negative length is not modelled.
- EventAdder.NewBookend: requires a positive interval length, for the same reason.
- EventAdder.NewBlurInfo: requires a positive interval length, for the same reason.
- EventAdder.NewBlurInfo: takes no height and width. The bookend accumulators are assumed to be sized like the adder's frame, so the `InFrame` test of `AddToCounter` gives their out-of-frame panic. No shown caller passes other sizes: the call sites of the eight-argument `BlurInfo::new` are not part of this model.
- EventAdder.AddEvents: requires a positive interval length, for the same reason.
- Fixed-width overflow is not modelled. This covers the i32 `interval_count` and `intervals_popped`, the i64 `event.t() - t_shift` and `exposure_end_t - exposure_begin_t`, and u128 latency.
- Reconstructor.Stage: a staged slot holds the frame and `init` set to true, as `BlurInfo::new` of `src/event_adder.rs` sets it. The adder state a three-argument `BlurInfo::new` would compute is not part of this model.
