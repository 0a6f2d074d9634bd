/** The event interval store, bookend tracker and integration sequence of
    `EventAdder` (src/event_adder.rs).

    The adder keeps a FIFO queue of fixed-length intervals. Every event is
    routed to interval `(t - t_shift) / interval_t` and adds its polarity to
    that interval's counts. Events in the first and last interval of the open
    exposure are also split into image / non-image counts, and the first event
    past the exposure's last interval resolves the exposure: the intervals are
    popped in a fixed order and one latent image per interval is emitted.

    Latent images are kept in the log domain; the source exponentiates each one
    on emission, and that `exp` is left uninterpreted here. The deblurred
    latent image of `optimize_c` is floating-point image processing and is a
    function parameter (`Deblur`). Rust arithmetic follows a debug build: a
    `usize` subtraction that would go below zero panics, and `as usize` wraps
    an i64 modulo 2^64. */
module EventAdder {
  import opened Outcomes
  import opened Sensor

  // ---------------------------------------------------------------------------
  // Machine arithmetic

  const USIZE_MODULUS: int := 0x1_0000_0000_0000_0000

  const SUB_OVERFLOW := "attempt to subtract with overflow"
  const INDEX_OOB := "interval index out of bounds"
  const PIXEL_OOB := "pixel outside the accumulator"
  const NO_INTERVAL := "No interval to pop"
  const BOOKEND_MISMATCH := "assertion `left == right` failed"

  /** `v as usize`: wrap-around modulo 2^64. */
  function AsUsize(v: int): (r: nat)
    ensures r < USIZE_MODULUS
    ensures 0 <= v < USIZE_MODULUS ==> r == v
    ensures -USIZE_MODULUS <= v < 0 ==> r == v + USIZE_MODULUS
  {
    v % USIZE_MODULUS
  }

  /** `a - b` on usize: panics when the difference would be negative. */
  function SubUsize(a: nat, b: nat): (r: Res<nat>)
    ensures r.Ok? <==> b <= a
    ensures r.Ok? ==> r.value + b == a
    ensures !r.Ok? ==> r == Panic(SUB_OVERFLOW)
  {
    if b <= a then Ok(a - b) else Panic(SUB_OVERFLOW)
  }

  /** i64 `/`: the quotient is truncated toward zero. */
  function TruncDiv(a: int, b: int): int
    requires b > 0
  {
    if a >= 0 then a / b else -((-a) / b)
  }

  /** i64 `%`: the remainder takes the sign of the dividend. */
  function TruncRem(a: int, b: int): int
    requires b > 0
  {
    a - b * TruncDiv(a, b)
  }

  lemma TruncDivRem(a: int, b: int)
    requires b > 0
    ensures TruncDiv(a, b) * b + TruncRem(a, b) == a
    ensures a >= 0 ==> TruncDiv(a, b) >= 0 && 0 <= TruncRem(a, b) < b
    ensures a < 0 ==> TruncDiv(a, b) <= 0 && -b < TruncRem(a, b) <= 0
  {
    if a < 0 {
      var q := (-a) / b;
      assert q * b <= -a < q * b + b;
    }
  }

  // ---------------------------------------------------------------------------
  // State

  /** One output interval: its sequential index and its signed event counts.
      The index comes from `interval_count`, which only ever counts up from 0,
      so its `as usize` cast is the identity.
      The source's scaled accumulator and per-interval latent image are
      scratch values that only feed the emitted images, which are modelled. */
  datatype Interval = Interval(idx: nat, events: Counts)

  /** The partial first or last interval of an exposure. */
  datatype Bookend = Bookend(
    outputIdx: nat,     // the interval the exposure edge falls in
    offset: int,        // where in that interval the edge falls
    image: Counts,      // events counted as inside the exposure
    nonimage: Counts)   // events counted as outside the exposure

  /** One exposure window around a blurred reference frame. */
  datatype BlurInfo = BlurInfo(
    blurred: Field,
    exposureBegin: int,
    exposureEnd: int,
    begin: Bookend,
    end: Bookend,
    midIdx: nat,
    init: bool)

  const DefaultBookend := Bookend(0, 0, map[], map[])

  /** `BlurInfo::default()`: every number zero, `init` false. */
  const DefaultBlurInfo := BlurInfo(Zero, 0, 0, DefaultBookend, DefaultBookend, 0, false)

  datatype Adder = Adder(
    tShift: int,
    intervalT: int,
    height: nat,
    width: nat,
    intervalCount: nat,
    intervalsPopped: nat,
    latent: Field,
    returnQueue: seq<Field>,
    intervals: seq<Interval>,
    blurInfo: BlurInfo,
    nextBlurInfo: BlurInfo,
    currentC: real)

  /** The deblurred log latent image computed by `deblur_image(c)` for the
      open exposure; floating-point image processing outside the model. */
  type Deblur = (Adder, real) -> Field

  /** The coefficient `optimize_c` settles on: the live code evaluates only 0.3. */
  const FIXED_C: real := 0.3

  /** The queue invariant: live interval k has index `intervals_popped + k`, and
      `interval_count` counts every interval ever pushed. */
  predicate Inv(a: Adder) {
    && a.intervalCount == a.intervalsPopped + |a.intervals|
    && forall k :: 0 <= k < |a.intervals| ==> a.intervals[k].idx == a.intervalsPopped + k
  }

  /** Interval `j` is still in the queue. */
  predicate Live(a: Adder, j: int) {
    a.intervalsPopped <= j < a.intervalsPopped + |a.intervals|
  }

  /** The count of interval `j` at pixel `p`; zero for an interval not in the queue. */
  function CountAt(a: Adder, j: int, p: Pixel): int {
    if Live(a, j) then Count(a.intervals[j - a.intervalsPopped].events, p) else 0
  }

  /** `b` has the configuration of `a`. */
  predicate SameConfig(a: Adder, b: Adder) {
    b.tShift == a.tShift && b.intervalT == a.intervalT && b.height == a.height && b.width == a.width
  }

  /** `b` is `a` after popping its first `n` intervals, configuration untouched. */
  predicate Drops(a: Adder, b: Adder, n: nat) {
    && n <= |a.intervals|
    && b.intervals == a.intervals[n..]
    && b.intervalsPopped == a.intervalsPopped + n
    && b.intervalCount == a.intervalCount
    && b.tShift == a.tShift && b.intervalT == a.intervalT
    && b.height == a.height && b.width == a.width
  }

  lemma DropsKeepsInv(a: Adder, b: Adder, n: nat)
    requires Inv(a) && Drops(a, b, n)
    ensures Inv(b)
  {
    forall k | 0 <= k < |b.intervals|
      ensures b.intervals[k].idx == b.intervalsPopped + k
    {
      assert b.intervals[k] == a.intervals[n + k];
    }
  }

  lemma DropsTrans(a: Adder, b: Adder, c: Adder, n: nat, m: nat)
    requires Drops(a, b, n) && Drops(b, c, m)
    ensures Drops(a, c, n + m)
  {
    assert a.intervals[n..][m..] == a.intervals[n + m..];
  }

  /** Popping never changes the counts of an interval that is still queued. */
  lemma DropsKeepsCounts(a: Adder, b: Adder, n: nat)
    requires Drops(a, b, n)
    ensures forall j :: Live(b, j) ==> Live(a, j)
    ensures forall j, p :: Live(b, j) ==> CountAt(b, j, p) == CountAt(a, j, p)
  {
    forall j, p | Live(b, j)
      ensures CountAt(b, j, p) == CountAt(a, j, p)
    {
      DropsKeepsCountAt(a, b, n, j, p);
    }
  }

  lemma DropsKeepsCountAt(a: Adder, b: Adder, n: nat, j: int, p: Pixel)
    requires Drops(a, b, n) && Live(b, j)
    ensures Live(a, j) && CountAt(b, j, p) == CountAt(a, j, p)
  {
    var k := j - b.intervalsPopped;
    assert b.intervals[k] == a.intervals[n + k];
  }

  // ---------------------------------------------------------------------------
  // Construction

  /** `EventAdder::new`: an empty queue, a zero latent image and c = 0.3. */
  function NewAdder(height: nat, width: nat, tShift: int, frameLength: int): (a: Adder)
    ensures a.tShift == tShift && a.intervalT == frameLength && a.height == height && a.width == width
    ensures Inv(a)
    ensures a.intervals == [] && a.intervalCount == 0 && a.intervalsPopped == 0
    ensures a.returnQueue == [] && a.currentC == FIXED_C
    ensures forall p :: Level(a.latent, p) == 0.0
    ensures !a.blurInfo.init && !a.nextBlurInfo.init
  {
    Adder(tShift, frameLength, height, width, 0, 0, Zero, [], [],
          DefaultBlurInfo, DefaultBlurInfo, FIXED_C)
  }

  /** The bookend of an exposure edge at absolute time `edgeT`: the interval
      `(edgeT - t_shift) / interval_t` (as usize) and the remainder. */
  function NewBookend(edgeT: int, tShift: int, intervalT: int): (b: Bookend)
    requires intervalT > 0
    ensures 0 <= edgeT - tShift < USIZE_MODULUS ==>
              && b.outputIdx * intervalT + b.offset == edgeT - tShift
              && 0 <= b.offset < intervalT
    ensures -USIZE_MODULUS < edgeT - tShift < 0 ==>
              && -intervalT < b.offset <= 0
              && (b.outputIdx == 0 <==> -intervalT < edgeT - tShift)
              && (b.outputIdx > 0 ==> (b.outputIdx - USIZE_MODULUS) * intervalT + b.offset == edgeT - tShift)
    ensures b.image == map[] && b.nonimage == map[]
  {
    BookendArithmetic(edgeT - tShift, intervalT);
    Bookend(AsUsize(TruncDiv(edgeT - tShift, intervalT)), TruncRem(edgeT - tShift, intervalT), map[], map[])
  }

  lemma BookendArithmetic(v: int, t: int)
    requires t > 0
    ensures var q := TruncDiv(v, t); var r := TruncRem(v, t);
      && q * t + r == v
      && (0 <= v < USIZE_MODULUS ==> 0 <= r < t && AsUsize(q) == q)
      && (-USIZE_MODULUS < v < 0 ==>
            && -t < r <= 0
            && (q == 0 <==> -t < v)
            && (q != 0 ==> AsUsize(q) == q + USIZE_MODULUS))
  {
    TruncDivRem(v, t);
    if v >= 0 {
      QuotientBound(v, t);
    } else {
      QuotientBound(-v, t);
    }
  }

  /** 0 <= v / t <= v, and v / t is zero exactly when v < t. */
  lemma QuotientBound(v: nat, t: int)
    requires t > 0
    ensures 0 <= v / t <= v
    ensures v / t == 0 <==> v < t
  {
    var q := v / t;
    assert v == q * t + v % t;
    if q > 0 {
      ProductBounds(q, t);
    }
  }

  lemma ProductBounds(q: nat, t: int)
    requires q > 0 && t > 0
    ensures q * t >= q && q * t >= t
  {
    assert q * t == q * (t - 1) + q;
    assert q * t == (q - 1) * t + t;
  }

  /** `BlurInfo::new`: locates both exposure edges in the interval grid and
      puts the pivot `(end - begin) / 2 + 1 + intervals_popped`. Panics when the
      end interval comes before the begin interval. The source also takes a
      height and width to size the zeroed bookend accumulators. The model
      assumes they are sized like the adder's frame, so the `InFrame` test of
      `AddToCounter` gives their out-of-frame panic; an empty `Counts` map is
      zero at every pixel, so height and width are not parameters here. */
  function NewBlurInfo(image: Field, beginT: int, endT: int, tShift: int, intervalT: int,
                       popped: nat): (r: Res<BlurInfo>)
    requires intervalT > 0
    ensures r.Ok? <==> NewBookend(beginT, tShift, intervalT).outputIdx
                         <= NewBookend(endT, tShift, intervalT).outputIdx
    ensures !r.Ok? ==> r == Panic(SUB_OVERFLOW)
    ensures r.Ok? ==> && r.value.init
                      && r.value.blurred == image
                      && r.value.exposureBegin == beginT && r.value.exposureEnd == endT
                      && r.value.begin == NewBookend(beginT, tShift, intervalT)
                      && r.value.end == NewBookend(endT, tShift, intervalT)
                      && r.value.midIdx * 2 + r.value.begin.outputIdx
                         <= r.value.end.outputIdx + 2 + 2 * popped
                      && r.value.end.outputIdx + 1 + 2 * popped
                         <= r.value.midIdx * 2 + r.value.begin.outputIdx
  {
    var b := NewBookend(beginT, tShift, intervalT);
    var e := NewBookend(endT, tShift, intervalT);
    var span :- SubUsize(e.outputIdx, b.outputIdx);
    Ok(BlurInfo(image, beginT, endT, b, e, span / 2 + 1 + popped, true))
  }

  // ---------------------------------------------------------------------------
  // The interval store

  /** `push_interval`: appends a zeroed interval numbered `interval_count`. */
  function PushInterval(a: Adder): (r: Adder)
    ensures r.intervals == a.intervals + [Interval(a.intervalCount, map[])]
    ensures r.intervalCount == a.intervalCount + 1
    ensures r == a.(intervals := r.intervals, intervalCount := r.intervalCount)
    ensures Inv(a) ==> Inv(r)
  {
    a.(intervals := a.intervals + [Interval(a.intervalCount, map[])],
       intervalCount := a.intervalCount + 1)
  }

  /** `pop_interval`: removes the head interval, adds `c * counts` to the
      latent image and emits the new latent image. */
  function PopInterval(a: Adder): (r: Res<Adder>)
    ensures r.Ok? <==> |a.intervals| > 0
    ensures !r.Ok? ==> r == Panic(NO_INTERVAL)
    ensures r.Ok? ==>
      && Drops(a, r.value, 1)
      && (forall p :: Level(r.value.latent, p)
                      == Level(a.latent, p) + Weight(a.currentC, a.intervals[0].events, p))
      && r.value.returnQueue == a.returnQueue + [r.value.latent]
      && r.value == a.(intervals := r.value.intervals, intervalsPopped := r.value.intervalsPopped,
                       latent := r.value.latent, returnQueue := r.value.returnQueue)
    ensures r.Ok? && Inv(a) ==> Inv(r.value) && a.intervals[0].idx == a.intervalsPopped
  {
    if |a.intervals| == 0 then Panic(NO_INTERVAL)
    else
      var l := AddScaled(a.latent, a.currentC, a.intervals[0].events);
      var r := a.(intervals := a.intervals[1..], intervalsPopped := a.intervalsPopped + 1,
                  latent := l, returnQueue := a.returnQueue + [l]);
      assert Inv(a) ==> Inv(r) by {
        if Inv(a) { DropsKeepsInv(a, r, 1); }
      }
      Ok(r)
  }

  /** Pushes `n` zeroed intervals. */
  function PushN(a: Adder, n: nat): (r: Adder)
    ensures |r.intervals| == |a.intervals| + n
    ensures r.intervals[..|a.intervals|] == a.intervals
    ensures forall k :: |a.intervals| <= k < |r.intervals| ==> r.intervals[k].events == map[]
    ensures r.intervalCount == a.intervalCount + n
    ensures r == a.(intervals := r.intervals, intervalCount := r.intervalCount)
    ensures Inv(a) ==> Inv(r)
    decreases n
  {
    if n == 0 then a else PushN(PushInterval(a), n - 1)
  }

  /** Running latent images of a forward pass: image i is `l` plus `c` times
      the counts of intervals 0..i. */
  function Forward(l: Field, c: real, ivs: seq<Interval>): (imgs: seq<Field>)
    ensures |imgs| == |ivs|
    decreases |ivs|
  {
    if ivs == [] then []
    else
      var next := AddScaled(l, c, ivs[0].events);
      [next] + Forward(next, c, ivs[1..])
  }

  /** Running latent images of a backward pass ending at `l`: image i is `l`
      minus `c` times the counts of intervals i..end, in chronological order. */
  function Backward(l: Field, c: real, ivs: seq<Interval>): (imgs: seq<Field>)
    ensures |imgs| == |ivs|
    decreases |ivs|
  {
    if ivs == [] then []
    else
      var prev := SubScaled(l, c, ivs[|ivs| - 1].events);
      Backward(prev, c, ivs[..|ivs| - 1]) + [prev]
  }

  function Last<T>(s: seq<T>): T
    requires |s| > 0
  {
    s[|s| - 1]
  }

  /** `n` successive `pop_interval`s: panics when fewer than `n` intervals are
      queued, and otherwise emits the forward pass over the first `n`. */
  function PopN(a: Adder, n: nat): (r: Res<Adder>)
    ensures r.Ok? <==> n <= |a.intervals|
    ensures !r.Ok? ==> r == Panic(NO_INTERVAL)
    ensures r.Ok? ==>
      && Drops(a, r.value, n)
      && r.value.returnQueue == a.returnQueue + Forward(a.latent, a.currentC, a.intervals[..n])
      && r.value.latent == (if n == 0 then a.latent
                            else Last(Forward(a.latent, a.currentC, a.intervals[..n])))
      && r.value == a.(intervals := r.value.intervals, intervalsPopped := r.value.intervalsPopped,
                       latent := r.value.latent, returnQueue := r.value.returnQueue)
    decreases n
  {
    if n == 0 then
      assert a.intervals[..0] == [];
      Ok(a)
    else
      var b :- PopInterval(a);
      var r := PopN(b, n - 1);
      assert r.Ok? ==> Drops(a, r.value, n) by {
        if r.Ok? { DropsTrans(a, b, r.value, 1, n - 1); }
      }
      assert r.Ok? ==> r.value.returnQueue
                       == a.returnQueue + Forward(a.latent, a.currentC, a.intervals[..n]) by {
        if r.Ok? {
          assert a.intervals[..n][1..] == b.intervals[..n - 1];
        }
      }
      assert r.Ok? && n > 1 ==> r.value.latent
                       == Last(Forward(a.latent, a.currentC, a.intervals[..n])) by {
        if r.Ok? && n > 1 {
          assert a.intervals[..n][1..] == b.intervals[..n - 1];
        }
      }
      r
  }

  // ---------------------------------------------------------------------------
  // Event routing

  /** The event lies inside the `height` x `width` accumulators. */
  predicate InFrame(a: Adder, e: Event) {
    0 <= e.y < a.height && 0 <= e.x < a.width
  }

  /** `add_to_event_counter`: +1 for on, -1 for off at (y, x); out of range panics. */
  function AddToCounter(a: Adder, m: Counts, e: Event): (r: Res<Counts>)
    ensures r.Ok? <==> InFrame(a, e)
    ensures !r.Ok? ==> r == Panic(PIXEL_OOB)
    ensures r.Ok? ==> forall q :: Count(r.value, q)
                                  == Count(m, q) + (if q == PixelOf(e) then Polarity(e.on) else 0)
  {
    if InFrame(a, e) then Ok(Bump(m, PixelOf(e), e.on)) else Panic(PIXEL_OOB)
  }

  /** `interval_idx - intervals_popped` as a queue position, with the two
      panics of that expression: usize underflow and an out-of-range index. */
  function IntervalSlot(a: Adder, i: nat): (r: Res<nat>)
    ensures r.Ok? <==> Live(a, i)
    ensures r.Ok? ==> r.value == i - a.intervalsPopped && r.value < |a.intervals|
    ensures !r.Ok? ==> r == Panic(SUB_OVERFLOW) || r == Panic(INDEX_OOB)
  {
    var s :- SubUsize(i, a.intervalsPopped);
    if s < |a.intervals| then Ok(s) else Panic(INDEX_OOB)
  }

  /** The growth loop of `process_event`: pushes intervals until `idx` is queued. */
  function Grow(a: Adder, idx: nat): (r: Res<Adder>)
    ensures r.Ok? <==> a.intervalsPopped <= idx
    ensures !r.Ok? ==> r == Panic(SUB_OVERFLOW)
    ensures r.Ok? ==>
      && Live(r.value, idx)
      && r.value.intervalsPopped == a.intervalsPopped
      && |r.value.intervals| >= |a.intervals|
      && r.value.intervals[..|a.intervals|] == a.intervals
      && (idx < a.intervalsPopped + |a.intervals| ==> r.value == a)
      && r.value == a.(intervals := r.value.intervals, intervalCount := r.value.intervalCount)
      && (forall j, p :: CountAt(r.value, j, p) == CountAt(a, j, p))
      && (Inv(a) ==> Inv(r.value))
      && (Inv(a) ==> r.value.intervalCount == if idx < a.intervalCount then a.intervalCount else idx + 1)
  {
    var gap :- SubUsize(idx, a.intervalsPopped);
    var g := PushN(a, if gap >= |a.intervals| then gap + 1 - |a.intervals| else 0);
    assert forall j, p :: CountAt(g, j, p) == CountAt(a, j, p) by {
      forall j, p ensures CountAt(g, j, p) == CountAt(a, j, p) {
        if Live(a, j) {
          assert g.intervals[j - a.intervalsPopped] == a.intervals[j - a.intervalsPopped];
        }
      }
    }
    Ok(g)
  }

  /** Adds the event to the counts of its own interval. */
  function AddToInterval(a: Adder, e: Event, idx: nat): (r: Res<Adder>)
    ensures r.Ok? <==> Live(a, idx) && InFrame(a, e)
    ensures r.Ok? ==>
      && r.value == a.(intervals := r.value.intervals)
      && |r.value.intervals| == |a.intervals|
      && (forall k :: 0 <= k < |a.intervals| ==> r.value.intervals[k].idx == a.intervals[k].idx)
      && (forall j, p :: CountAt(r.value, j, p)
                         == CountAt(a, j, p) + (if j == idx && p == PixelOf(e) then Polarity(e.on) else 0))
  {
    var slot :- IntervalSlot(a, idx);
    var counts :- AddToCounter(a, a.intervals[slot].events, e);
    Ok(a.(intervals := a.intervals[slot := a.intervals[slot].(events := counts)]))
  }

  // ---------------------------------------------------------------------------
  // Resolution of an exposure

  /** The pivot after `deblur_image`: an exposure over exactly two intervals
      moves its pivot to `intervals_popped`. */
  function DeblurMid(a: Adder): nat {
    if a.blurInfo.end.outputIdx == a.blurInfo.begin.outputIdx + 1 then a.intervalsPopped
    else a.blurInfo.midIdx
  }

  /** The queue positions `deblur_image` reads: intervals begin+1..mid
      (last first), begin, mid..end (first first) and end. Only the panics of
      that indexing are modelled; the arithmetic is in `Deblur`. */
  function DeblurIndexing(a: Adder): (r: Res<()>)
    ensures r.Ok? <==>
      && a.blurInfo.end.outputIdx >= 1
      && Live(a, a.blurInfo.begin.outputIdx) && Live(a, a.blurInfo.end.outputIdx)
      && (a.blurInfo.begin.outputIdx != a.blurInfo.end.outputIdx - 1 ==>
            && (forall i :: a.blurInfo.begin.outputIdx < i < a.blurInfo.midIdx ==> Live(a, i))
            && (forall i :: a.blurInfo.midIdx <= i < a.blurInfo.end.outputIdx ==> Live(a, i)))
    ensures r.Ok? ==> Live(a, a.blurInfo.begin.outputIdx) && Live(a, a.blurInfo.end.outputIdx)
    ensures !r.Ok? ==> r == Panic(SUB_OVERFLOW) || r == Panic(INDEX_OOB)
  {
    var bi := a.blurInfo;
    var endBefore :- SubUsize(bi.end.outputIdx, 1);
    var spansInner := bi.begin.outputIdx != endBefore;
    var _ :- if spansInner && bi.begin.outputIdx + 1 < bi.midIdx then
               var _ :- IntervalSlot(a, bi.midIdx - 1);
               IntervalSlot(a, bi.begin.outputIdx + 1)
             else Ok(0);
    var _ :- IntervalSlot(a, bi.begin.outputIdx);
    var _ :- if spansInner && bi.midIdx < bi.end.outputIdx then
               var _ :- IntervalSlot(a, bi.midIdx);
               IntervalSlot(a, bi.end.outputIdx - 1)
             else Ok(0);
    var _ :- IntervalSlot(a, bi.end.outputIdx);
    Ok(())
  }

  /** `optimize_c` in its live form: one evaluation at c = 0.3, which fixes the
      coefficient and replaces the latent image with the deblurred one. */
  function OptimizeC(a: Adder, deblur: Deblur): (r: Res<Adder>)
    ensures r.Ok? ==>
      && r.value.currentC == FIXED_C
      && r.value.blurInfo == a.blurInfo.(midIdx := DeblurMid(a))
      && r.value == a.(blurInfo := r.value.blurInfo, latent := r.value.latent, currentC := FIXED_C)
    ensures r.Ok? ==> r.value.latent == deblur(a.(blurInfo := r.value.blurInfo), FIXED_C)
    ensures !r.Ok? ==> r == Panic(SUB_OVERFLOW) || r == Panic(INDEX_OOB)
  {
    var b := a.(blurInfo := a.blurInfo.(midIdx := DeblurMid(a)));
    var _ :- DeblurIndexing(b);
    Ok(b.(latent := deblur(b, FIXED_C), currentC := FIXED_C))
  }

  /** The backward pass: from the pivot down to the queue head, each interval's
      scaled counts are subtracted; the images are emitted oldest first and
      followed by the pivot image, and those intervals are popped. The latent
      image itself stays at the pivot. */
  function BackwardPass(a: Adder): (r: Res<Adder>)
    ensures r.Ok? <==> a.intervalsPopped <= a.blurInfo.midIdx <= a.intervalsPopped + |a.intervals|
    ensures r.Ok? ==>
      var k := a.blurInfo.midIdx - a.intervalsPopped;
      && Drops(a, r.value, k)
      && r.value.returnQueue == a.returnQueue + Backward(a.latent, a.currentC, a.intervals[..k]) + [a.latent]
      && r.value == a.(intervals := r.value.intervals, intervalsPopped := r.value.intervalsPopped,
                       returnQueue := r.value.returnQueue)
    ensures !r.Ok? ==> r == Panic(SUB_OVERFLOW) || r == Panic(INDEX_OOB)
  {
    var k :- SubUsize(a.blurInfo.midIdx, a.intervalsPopped);
    if k > |a.intervals| then Panic(INDEX_OOB)
    else
      Ok(a.(intervals := a.intervals[k..], intervalsPopped := a.intervalsPopped + k,
            returnQueue := a.returnQueue + Backward(a.latent, a.currentC, a.intervals[..k]) + [a.latent]))
  }

  /** The number of `pop_interval`s of the forward pass `mid..end`. */
  function ForwardCount(bi: BlurInfo): nat {
    if bi.midIdx < bi.end.outputIdx then bi.end.outputIdx - bi.midIdx else 0
  }

  /** The first step of the resolution: pops every interval before the begin
      interval and checks that the queue head is then the begin interval. */
  function PopToBegin(a: Adder): (r: Res<Adder>)
    ensures r.Ok? ==>
      && |a.intervals| > 0
      && a.intervals[0].idx <= a.blurInfo.begin.outputIdx
      && PopN(a, a.blurInfo.begin.outputIdx - a.intervals[0].idx) == r
      && |r.value.intervals| > 0
      && r.value.intervals[0].idx == a.blurInfo.begin.outputIdx
    ensures Inv(a) && r.Panic? ==> r.msg != BOOKEND_MISMATCH
  {
    if |a.intervals| == 0 then Panic(INDEX_OOB)
    else
      var n :- SubUsize(a.blurInfo.begin.outputIdx, a.intervals[0].idx);
      var b :- PopN(a, n);
      assert Inv(a) ==> Inv(b) by {
        if Inv(a) { DropsKeepsInv(a, b, n); }
      }
      if |b.intervals| == 0 then Panic(INDEX_OOB)
      else if b.intervals[0].idx != b.blurInfo.begin.outputIdx then Panic(BOOKEND_MISMATCH)
      else Ok(b)
  }

  /** The end of the resolution: the staged exposure becomes the open one and
      the staging slot goes back to its default. */
  function InstallNext(a: Adder): (r: Adder)
    ensures r.blurInfo == a.nextBlurInfo && r.nextBlurInfo == DefaultBlurInfo
    ensures r == a.(blurInfo := r.blurInfo, nextBlurInfo := r.nextBlurInfo)
  {
    a.(blurInfo := a.nextBlurInfo, nextBlurInfo := DefaultBlurInfo)
  }

  /** The resolution sequence, run when an event lands past the end interval:
      pop up to the begin interval, fix c, run the backward pass from the
      pivot and the forward pass to the end interval, then install the staged
      exposure. */
  function Resolve(a: Adder, deblur: Deblur): (r: Res<Adder>)
    ensures r.Ok? ==> SameConfig(a, r.value)
    ensures Inv(a) && !r.Ok? ==> r.Panic? && r.msg != BOOKEND_MISMATCH
  {
    var b :- PopToBegin(a);
    var c :- OptimizeC(b, deblur);
    var d :- BackwardPass(c);
    var e :- PopN(d, ForwardCount(d.blurInfo));
    Ok(InstallNext(e))
  }

  /** The event falls inside the exposure, where the source also adds it to
      the edge image, whose accumulator is sized like the frame. */
  predicate InExposure(bi: BlurInfo, e: Event) {
    bi.exposureBegin <= e.t < bi.exposureEnd
  }

  /** Interval `idx` holds one of the two exposure edges. */
  predicate OnEdge(bi: BlurInfo, idx: int) {
    idx == bi.begin.outputIdx || idx == bi.end.outputIdx
  }

  /** The arm of the bookend match that resolves the exposure: past the end
      interval, and not the begin interval, whose arm is tried first. */
  predicate PastEnd(bi: BlurInfo, idx: int) {
    idx != bi.begin.outputIdx && idx > bi.end.outputIdx
  }

  /** `b` differs from `a` at most in the four bookend accumulators. */
  predicate SameEdges(a: BlurInfo, b: BlurInfo) {
    && b == a.(begin := b.begin, end := b.end)
    && b.begin.outputIdx == a.begin.outputIdx && b.begin.offset == a.begin.offset
    && b.end.outputIdx == a.end.outputIdx && b.end.offset == a.end.offset
  }

  /** Every event the two bookends hold at pixel `q`. */
  function BookendTotal(bi: BlurInfo, q: Pixel): int {
    Count(bi.begin.image, q) + Count(bi.begin.nonimage, q) + Count(bi.end.image, q) + Count(bi.end.nonimage, q)
  }

  /** The bookend step of `process_event` for an open exposure. The begin arm
      is tried first, so an exposure inside a single interval uses it. An
      event past the end interval resolves the exposure; any other event is
      at most counted once in a bookend of its interval, and nothing else of
      the adder changes. */
  function Bookends(a: Adder, e: Event, idx: nat, localT: int, deblur: Deblur): (r: Res<Adder>)
    ensures r.Ok? ==> SameConfig(a, r.value)
    ensures InExposure(a.blurInfo, e) && !InFrame(a, e) ==> r == Panic(PIXEL_OOB)
    ensures PastEnd(a.blurInfo, idx) && (InFrame(a, e) || !InExposure(a.blurInfo, e)) ==> r == Resolve(a, deblur)
    ensures !PastEnd(a.blurInfo, idx) ==>
              (r.Ok? <==> InFrame(a, e) || (!InExposure(a.blurInfo, e) && !OnEdge(a.blurInfo, idx)))
    ensures r.Ok? && !PastEnd(a.blurInfo, idx) ==>
      && r.value == a.(blurInfo := r.value.blurInfo)
      && SameEdges(a.blurInfo, r.value.blurInfo)
      && (forall q :: BookendTotal(r.value.blurInfo, q)
                      == BookendTotal(a.blurInfo, q)
                         + (if OnEdge(a.blurInfo, idx) && q == PixelOf(e) then Polarity(e.on) else 0))
  {
    if InExposure(a.blurInfo, e) && !InFrame(a, e) then Panic(PIXEL_OOB)
    else if OnEdge(a.blurInfo, idx) then CountInBookend(a, e, idx, localT)
    else if idx > a.blurInfo.end.outputIdx then Resolve(a, deblur)
    else Ok(a)
  }

  /** The two bookend arms of the match: the begin bookend when the event's
      interval is the begin interval, else the end bookend; the local time
      picks the image or the non-image accumulator. */
  function CountInBookend(a: Adder, e: Event, idx: nat, localT: int): (r: Res<Adder>)
    requires OnEdge(a.blurInfo, idx)
    ensures r.Ok? <==> InFrame(a, e)
    ensures !r.Ok? ==> r == Panic(PIXEL_OOB)
    ensures r.Ok? ==>
      && r.value == a.(blurInfo := r.value.blurInfo)
      && SameEdges(a.blurInfo, r.value.blurInfo)
      && (forall q :: BookendTotal(r.value.blurInfo, q)
                      == BookendTotal(a.blurInfo, q) + (if q == PixelOf(e) then Polarity(e.on) else 0))
  {
    var bi := a.blurInfo;
    if idx == bi.begin.outputIdx then
      if localT <= bi.begin.offset then
        var m :- AddToCounter(a, bi.begin.nonimage, e);
        Ok(a.(blurInfo := bi.(begin := bi.begin.(nonimage := m))))
      else
        var m :- AddToCounter(a, bi.begin.image, e);
        Ok(a.(blurInfo := bi.(begin := bi.begin.(image := m))))
    else if localT < bi.end.offset then
      var m :- AddToCounter(a, bi.end.image, e);
      Ok(a.(blurInfo := bi.(end := bi.end.(image := m))))
    else
      var m :- AddToCounter(a, bi.end.nonimage, e);
      Ok(a.(blurInfo := bi.(end := bi.end.(nonimage := m))))
  }

  /** The interval an event at or after `t_shift` is routed to. */
  function RouteIdx(a: Adder, e: Event): nat
    requires a.intervalT > 0 && e.t >= a.tShift
  {
    (e.t - a.tShift) / a.intervalT
  }

  /** `process_event`: events before `t_shift` are ignored; any other event
      grows the queue to its interval, goes through the bookend step when an
      exposure is open, and is then counted in its interval. */
  function ProcessEvent(a: Adder, e: Event, deblur: Deblur): (r: Res<Adder>)
    requires a.intervalT > 0
    ensures r.Ok? ==> SameConfig(a, r.value)
    ensures e.t < a.tShift ==> r == Ok(a)
    ensures e.t >= a.tShift && r.Ok? ==> InFrame(a, e)
  {
    if e.t < a.tShift then Ok(a)
    else
      var idx := RouteIdx(a, e);
      var g :- Grow(a, idx);
      var b :- if g.blurInfo.init then Bookends(g, e, idx, e.t - a.tShift, deblur) else Ok(g);
      AddToInterval(b, e, idx)
  }

  /** Processes the events of one packet in order; the first panic aborts. */
  function ProcessAll(a: Adder, events: seq<Event>, deblur: Deblur): (r: Res<Adder>)
    requires a.intervalT > 0
    ensures r.Ok? ==> SameConfig(a, r.value)
    decreases |events|
  {
    if events == [] then Ok(a)
    else
      var b := ProcessEvent(a, events[0], deblur);
      if !b.Ok? then b
      else ProcessAll(b.value, events[1..], deblur)
  }

  /** `add_events`: makes sure one interval exists, clears the return queue,
      processes the packet's events and returns the emitted images, if any. */
  function AddEvents(a: Adder, events: seq<Event>, deblur: Deblur): (r: Res<(Adder, Option<seq<Field>>)>)
    requires a.intervalT > 0
    ensures r.Ok? <==> ProcessAll(Started(a).(returnQueue := []), events, deblur).Ok?
    ensures r.Ok? ==> r.value.0 == ProcessAll(Started(a).(returnQueue := []), events, deblur).value
    ensures r.Ok? ==> (r.value.1 == None <==> r.value.0.returnQueue == [])
    ensures r.Ok? && r.value.1.Some? ==> r.value.1.value == r.value.0.returnQueue
  {
    var b :- ProcessAll(Started(a).(returnQueue := []), events, deblur);
    Ok((b, if |b.returnQueue| == 0 then None else Some(b.returnQueue)))
  }

  /** The adder with at least one interval queued, as `add_events` makes sure
      before its first event. */
  function Started(a: Adder): (r: Adder)
    ensures |r.intervals| > 0
    ensures |a.intervals| > 0 ==> r == a
    ensures r.returnQueue == a.returnQueue
  {
    if |a.intervals| == 0 then PushInterval(a) else a
  }

  /** The images `add_events` returns are those this packet's events emitted:
      images still held from an earlier packet play no part. */
  lemma AddEventsIgnoresHeldImages(a: Adder, events: seq<Event>, deblur: Deblur)
    requires a.intervalT > 0
    ensures AddEvents(a, events, deblur) == AddEvents(a.(returnQueue := []), events, deblur)
  {
    assert Started(a).(returnQueue := []) == Started(a.(returnQueue := [])).(returnQueue := []);
  }

  // ---------------------------------------------------------------------------
  // Properties of the integration passes

  /** `next` is `prev` plus `c` times the counts of `iv`, at every pixel. */
  ghost predicate Advances(prev: Field, next: Field, c: real, iv: Interval) {
    forall p :: Level(next, p) == Level(prev, p) + Weight(c, iv.events, p)
  }

  /** Consecutive images differ by `c` times the counts of one interval, the
      intervals taken in queue order. */
  ghost predicate Chain(imgs: seq<Field>, c: real, ivs: seq<Interval>) {
    && |imgs| == |ivs| + 1
    && forall i :: 0 <= i < |ivs| ==> Advances(imgs[i], imgs[i + 1], c, ivs[i])
  }

  /** The forward pass starting at `l` adds one interval per image. */
  lemma {:induction false} ForwardChain(l: Field, c: real, ivs: seq<Interval>)
    ensures Chain([l] + Forward(l, c, ivs), c, ivs)
    decreases |ivs|
  {
    if ivs != [] {
      var next := AddScaled(l, c, ivs[0].events);
      var rest := [next] + Forward(next, c, ivs[1..]);
      ForwardChain(next, c, ivs[1..]);
      var imgs := [l] + Forward(l, c, ivs);
      assert imgs == [l] + rest;
      forall i | 0 <= i < |ivs|
        ensures Advances(imgs[i], imgs[i + 1], c, ivs[i])
      {
        assert imgs[i + 1] == rest[i];
        if i > 0 {
          assert imgs[i] == rest[i - 1];
          assert ivs[i] == ivs[1..][i - 1];
        }
      }
    }
  }

  /** The backward pass ending at `l` undoes one interval per image: adding the
      intervals back in order walks from the first image up to `l`. */
  lemma {:induction false} BackwardChain(l: Field, c: real, ivs: seq<Interval>)
    ensures Chain(Backward(l, c, ivs) + [l], c, ivs)
    decreases |ivs|
  {
    if ivs != [] {
      var n := |ivs| - 1;
      var prev := SubScaled(l, c, ivs[n].events);
      BackwardChain(prev, c, ivs[..n]);
      var front := Backward(prev, c, ivs[..n]) + [prev];
      var imgs := Backward(l, c, ivs) + [l];
      assert imgs == front + [l];
      forall i | 0 <= i < |ivs|
        ensures Advances(imgs[i], imgs[i + 1], c, ivs[i])
      {
        if i < n {
          assert imgs[i] == front[i] && imgs[i + 1] == front[i + 1];
          assert ivs[i] == ivs[..n][i];
        } else {
          assert imgs[i] == prev && imgs[i + 1] == l;
        }
      }
    }
  }

  /** Two chains that meet at a shared image form one chain. */
  lemma ChainJoin(xs: seq<Field>, ys: seq<Field>, c: real, us: seq<Interval>, vs: seq<Interval>)
    requires Chain(xs, c, us) && Chain(ys, c, vs)
    requires xs[|xs| - 1] == ys[0]
    ensures Chain(xs + ys[1..], c, us + vs)
  {
    var imgs := xs + ys[1..];
    var ivs := us + vs;
    forall i | 0 <= i < |ivs|
      ensures Advances(imgs[i], imgs[i + 1], c, ivs[i])
    {
      if i < |us| {
        assert ivs[i] == us[i] && imgs[i] == xs[i] && imgs[i + 1] == xs[i + 1];
      } else {
        var k := i - |us|;
        assert ivs[i] == vs[k];
        assert imgs[i] == ys[k] && imgs[i + 1] == ys[k + 1];
      }
    }
  }

  /** The images of a chain are the first image plus the scaled running sums. */
  lemma {:induction false} ChainSums(imgs: seq<Field>, c: real, ivs: seq<Interval>, i: nat, p: Pixel)
    requires Chain(imgs, c, ivs) && i <= |ivs|
    ensures Level(imgs[i], p) == Level(imgs[0], p) + Accumulated(c, ivs[..i], p)
    decreases i
  {
    if i > 0 {
      ChainSums(imgs, c, ivs, i - 1, p);
      assert ivs[..i] == ivs[..i - 1] + [ivs[i - 1]];
      AccumulatedSnoc(c, ivs[..i - 1], ivs[i - 1], p);
      assert Advances(imgs[i - 1], imgs[i], c, ivs[i - 1]);
    }
  }

  /** The scaled counts at `p`, summed over a run of intervals. */
  function Accumulated(c: real, ivs: seq<Interval>, p: Pixel): real
    decreases |ivs|
  {
    if ivs == [] then 0.0 else Accumulated(c, ivs[..|ivs| - 1], p) + Weight(c, ivs[|ivs| - 1].events, p)
  }

  lemma AccumulatedSnoc(c: real, ivs: seq<Interval>, iv: Interval, p: Pixel)
    ensures Accumulated(c, ivs + [iv], p) == Accumulated(c, ivs, p) + Weight(c, iv.events, p)
  {
    assert (ivs + [iv])[..|ivs|] == ivs;
  }

  // ---------------------------------------------------------------------------
  // Properties of resolution and routing

  /** The pivot the backward pass starts from, for a queue whose head is the
      begin interval. */
  function PivotIdx(bi: BlurInfo): nat {
    if bi.end.outputIdx == bi.begin.outputIdx + 1 then bi.begin.outputIdx else bi.midIdx
  }

  /** The first interval still queued after a resolution. */
  function ResolvedUpTo(bi: BlurInfo): nat {
    if PivotIdx(bi) < bi.end.outputIdx then bi.end.outputIdx else PivotIdx(bi)
  }

  /** The number of intervals a resolution pops before the begin interval. */
  function BeginGap(a: Adder): int {
    a.blurInfo.begin.outputIdx - a.intervalsPopped
  }

  /** The number of intervals a resolution pops in all. */
  function ResolvedGap(a: Adder): int {
    ResolvedUpTo(a.blurInfo) - a.intervalsPopped
  }

  /** The position of the pivot image in the return queue after a resolution. */
  function PivotPos(a: Adder): int {
    |a.returnQueue| + BeginGap(a) + (PivotIdx(a.blurInfo) - a.blurInfo.begin.outputIdx)
  }

  /** The four steps of a successful resolution, each successful. */
  lemma ResolveSteps(a: Adder, deblur: Deblur)
    requires Resolve(a, deblur).Ok?
    ensures PopToBegin(a).Ok?
    ensures OptimizeC(PopToBegin(a).value, deblur).Ok?
    ensures BackwardPass(OptimizeC(PopToBegin(a).value, deblur).value).Ok?
    ensures
      var d := BackwardPass(OptimizeC(PopToBegin(a).value, deblur).value).value;
      && PopN(d, ForwardCount(d.blurInfo)).Ok?
      && Resolve(a, deblur) == Ok(InstallNext(PopN(d, ForwardCount(d.blurInfo)).value))
  {
  }

  /** The first step of a successful resolution, as facts about its result. */
  lemma PopToBeginStep(a: Adder, b: Adder)
    requires Inv(a) && PopToBegin(a) == Ok(b)
    ensures a.intervalsPopped <= a.blurInfo.begin.outputIdx
    ensures Drops(a, b, BeginGap(a))
    ensures b.returnQueue == a.returnQueue + Forward(a.latent, a.currentC, a.intervals[..BeginGap(a)])
    ensures PopN(a, BeginGap(a)) == Ok(b)
    ensures b.blurInfo == a.blurInfo && b.nextBlurInfo == a.nextBlurInfo && Inv(b)
    ensures |b.intervals| > 0 && b.intervals[0].idx == b.blurInfo.begin.outputIdx
  {
    DropsKeepsInv(a, b, a.blurInfo.begin.outputIdx - a.intervalsPopped);
  }

  lemma OptimizeCStep(b: Adder, c: Adder, deblur: Deblur)
    requires Inv(b) && |b.intervals| > 0 && b.intervals[0].idx == b.blurInfo.begin.outputIdx
    requires OptimizeC(b, deblur) == Ok(c)
    ensures Drops(b, c, 0) && c.nextBlurInfo == b.nextBlurInfo && c.currentC == FIXED_C
    ensures c.blurInfo == b.blurInfo.(midIdx := PivotIdx(b.blurInfo))
    ensures c.returnQueue == b.returnQueue
    ensures c.latent == deblur(b.(blurInfo := c.blurInfo), FIXED_C)
  {
    assert b.intervals[0..] == b.intervals;
  }

  lemma BackwardPassStep(c: Adder, d: Adder)
    requires BackwardPass(c) == Ok(d)
    ensures c.intervalsPopped <= c.blurInfo.midIdx
    ensures Drops(c, d, c.blurInfo.midIdx - c.intervalsPopped)
    ensures d.returnQueue == c.returnQueue + Backward(c.latent, c.currentC, c.intervals[..c.blurInfo.midIdx - c.intervalsPopped])
                             + [c.latent]
    ensures d.blurInfo == c.blurInfo && d.nextBlurInfo == c.nextBlurInfo
    ensures d.currentC == c.currentC && d.latent == c.latent
  {
  }

  lemma ForwardPassStep(d: Adder, e: Adder)
    requires PopN(d, ForwardCount(d.blurInfo)) == Ok(e)
    ensures Drops(d, e, ForwardCount(d.blurInfo))
    ensures e.returnQueue == d.returnQueue + Forward(d.latent, d.currentC, d.intervals[..ForwardCount(d.blurInfo)])
    ensures e.latent == if ForwardCount(d.blurInfo) == 0 then d.latent
                        else Last(Forward(d.latent, d.currentC, d.intervals[..ForwardCount(d.blurInfo)]))
    ensures e.nextBlurInfo == d.nextBlurInfo && e.currentC == d.currentC
  {
  }

  /** The queue bookkeeping of the four steps, composed. */
  lemma ResolveDrops(a: Adder, b: Adder, c: Adder, d: Adder, e: Adder)
    requires Inv(a) && a.intervalsPopped <= a.blurInfo.begin.outputIdx
    requires Drops(a, b, BeginGap(a))
    requires b.blurInfo == a.blurInfo && b.nextBlurInfo == a.nextBlurInfo
    requires Drops(b, c, 0) && c.nextBlurInfo == b.nextBlurInfo && c.currentC == FIXED_C
    requires c.blurInfo == b.blurInfo.(midIdx := PivotIdx(b.blurInfo))
    requires c.intervalsPopped <= c.blurInfo.midIdx
    requires Drops(c, d, c.blurInfo.midIdx - c.intervalsPopped)
    requires d.blurInfo == c.blurInfo && d.nextBlurInfo == c.nextBlurInfo && d.currentC == c.currentC
    requires Drops(d, e, ForwardCount(d.blurInfo))
    requires e.nextBlurInfo == d.nextBlurInfo && e.currentC == d.currentC
    ensures a.intervalsPopped <= a.blurInfo.begin.outputIdx <= PivotIdx(a.blurInfo)
            <= ResolvedUpTo(a.blurInfo) <= a.intervalCount
    ensures Inv(e) && Drops(a, e, ResolvedGap(a))
    ensures e.nextBlurInfo == a.nextBlurInfo && e.currentC == FIXED_C
  {
    var n := BeginGap(a);
    var k := c.blurInfo.midIdx - c.intervalsPopped;
    var f := ForwardCount(d.blurInfo);
    assert c.intervalsPopped == a.blurInfo.begin.outputIdx;
    assert d.blurInfo == a.blurInfo.(midIdx := PivotIdx(a.blurInfo));
    ResolvedGapSum(a.blurInfo, a.intervalsPopped);
    assert n + k + f == ResolvedGap(a);
    DropsTrans(a, b, c, n, 0);
    DropsTrans(a, c, d, n, k);
    DropsTrans(a, d, e, n + k, f);
    DropsKeepsInv(a, e, n + k + f);
  }

  lemma ResolvedGapSum(bi: BlurInfo, popped: nat)
    requires popped <= bi.begin.outputIdx <= PivotIdx(bi)
    ensures (bi.begin.outputIdx - popped) + (PivotIdx(bi) - bi.begin.outputIdx)
            + ForwardCount(bi.(midIdx := PivotIdx(bi))) == ResolvedUpTo(bi) - popped
  {
  }

  /** A successful resolution, under the queue invariant, pops exactly the
      intervals before `ResolvedUpTo`, keeps the invariant, fixes the
      coefficient at 0.3 and replaces the resolved exposure with the staged
      one. */
  lemma ResolveKeepsQueue(a: Adder, deblur: Deblur, z: Adder)
    requires Inv(a)
    requires Resolve(a, deblur) == Ok(z)
    ensures a.intervalsPopped <= a.blurInfo.begin.outputIdx <= PivotIdx(a.blurInfo)
            <= ResolvedUpTo(a.blurInfo) <= a.intervalCount
    ensures Inv(z) && Drops(a, z, ResolvedGap(a))
    ensures z.blurInfo == a.nextBlurInfo && z.nextBlurInfo == DefaultBlurInfo
    ensures z.currentC == FIXED_C
  {
    ResolveSteps(a, deblur);
    var b := PopToBegin(a).value;
    var c := OptimizeC(b, deblur).value;
    var d := BackwardPass(c).value;
    var e := PopN(d, ForwardCount(d.blurInfo)).value;
    PopToBeginStep(a, b);
    OptimizeCStep(b, c, deblur);
    BackwardPassStep(c, d);
    ForwardPassStep(d, e);
    ResolveDrops(a, b, c, d, e);
  }

  /** `q == p + (xs + [x] + ys)` read back by position. */
  lemma QueueLayout<T>(q: seq<T>, p: seq<T>, xs: seq<T>, x: T, ys: seq<T>)
    requires q == p + (xs + [x] + ys)
    ensures q[..|p|] == p
    ensures q[|p|..] == xs + [x] + ys
    ensures q[|p| + |xs|] == x
    ensures q[|q| - 1] == if ys == [] then x else ys[|ys| - 1]
  {
  }

  /** The images the backward and forward passes emit around a pivot image
      form one chain over the intervals they pop. */
  lemma PassesChain(q: seq<Field>, prefix: seq<Field>, pivot: Field, us: seq<Interval>, vs: seq<Interval>)
    requires q == prefix + (Backward(pivot, FIXED_C, us) + [pivot] + Forward(pivot, FIXED_C, vs))
    ensures |q| == |prefix| + |us| + |vs| + 1
    ensures q[..|prefix|] == prefix
    ensures q[|prefix| + |us|] == pivot
    ensures Chain(q[|prefix|..], FIXED_C, us + vs)
    ensures q[|q| - 1] == if vs == [] then pivot else Last(Forward(pivot, FIXED_C, vs))
  {
    var back := Backward(pivot, FIXED_C, us);
    var fwd := Forward(pivot, FIXED_C, vs);
    QueueLayout(q, prefix, back, pivot, fwd);
    BackwardChain(pivot, FIXED_C, us);
    ForwardChain(pivot, FIXED_C, vs);
    ChainJoin(back + [pivot], [pivot] + fwd, FIXED_C, us, vs);
    assert ([pivot] + fwd)[1..] == fwd;
  }

  /** The returned images of the four steps, composed. */
  lemma ResolveQueueShape(a: Adder, b: Adder, c: Adder, d: Adder, e: Adder)
    requires Inv(a) && a.intervalsPopped <= a.blurInfo.begin.outputIdx
    requires Drops(a, b, BeginGap(a))
    requires b.returnQueue == a.returnQueue + Forward(a.latent, a.currentC, a.intervals[..BeginGap(a)])
    requires b.blurInfo == a.blurInfo
    requires Drops(b, c, 0) && c.returnQueue == b.returnQueue && c.currentC == FIXED_C
    requires c.blurInfo == b.blurInfo.(midIdx := PivotIdx(b.blurInfo))
    requires c.intervalsPopped <= c.blurInfo.midIdx
    requires Drops(c, d, c.blurInfo.midIdx - c.intervalsPopped)
    requires d.returnQueue == c.returnQueue + Backward(c.latent, c.currentC, c.intervals[..c.blurInfo.midIdx - c.intervalsPopped])
                              + [c.latent]
    requires d.blurInfo == c.blurInfo && d.currentC == c.currentC && d.latent == c.latent
    requires Drops(d, e, ForwardCount(d.blurInfo))
    requires e.returnQueue == d.returnQueue + Forward(d.latent, d.currentC, d.intervals[..ForwardCount(d.blurInfo)])
    requires e.latent == if ForwardCount(d.blurInfo) == 0 then d.latent
                         else Last(Forward(d.latent, d.currentC, d.intervals[..ForwardCount(d.blurInfo)]))
    ensures 0 <= BeginGap(a) <= ResolvedGap(a) <= |a.intervals|
    ensures |e.returnQueue| == |a.returnQueue| + ResolvedGap(a) + 1
    ensures e.returnQueue[..|a.returnQueue| + BeginGap(a)]
            == a.returnQueue + Forward(a.latent, a.currentC, a.intervals[..BeginGap(a)])
    ensures Chain(e.returnQueue[|a.returnQueue| + BeginGap(a)..], FIXED_C, a.intervals[BeginGap(a)..ResolvedGap(a)])
    ensures e.returnQueue[PivotPos(a)] == c.latent
    ensures e.latent == e.returnQueue[|e.returnQueue| - 1]
  {
    var k := c.blurInfo.midIdx - c.intervalsPopped;
    var f := ForwardCount(d.blurInfo);
    ResolveGaps(a, b, c, d, e);
    var prefix := a.returnQueue + Forward(a.latent, a.currentC, a.intervals[..BeginGap(a)]);
    var back := Backward(c.latent, FIXED_C, c.intervals[..k]);
    var fwd := Forward(c.latent, FIXED_C, d.intervals[..f]);
    assert e.returnQueue == prefix + (back + [c.latent] + fwd) by {
      assert c.returnQueue == prefix;
      assert d.returnQueue == prefix + back + [c.latent];
      assert e.returnQueue == prefix + back + [c.latent] + fwd;
    }
    assert e.latent == if f == 0 then c.latent else Last(fwd);
    PassesChain(e.returnQueue, prefix, c.latent, c.intervals[..k], d.intervals[..f]);
    ChainEq(e.returnQueue[|prefix|..], e.returnQueue[|a.returnQueue| + BeginGap(a)..], FIXED_C,
            c.intervals[..k] + d.intervals[..f], a.intervals[BeginGap(a)..ResolvedGap(a)]);
  }

  /** The counts of the four steps of a resolution, in terms of the exposure. */
  lemma ResolveGaps(a: Adder, b: Adder, c: Adder, d: Adder, e: Adder)
    requires Inv(a) && a.intervalsPopped <= a.blurInfo.begin.outputIdx
    requires Drops(a, b, BeginGap(a)) && b.blurInfo == a.blurInfo
    requires Drops(b, c, 0) && c.blurInfo == b.blurInfo.(midIdx := PivotIdx(b.blurInfo))
    requires c.intervalsPopped <= c.blurInfo.midIdx
    requires Drops(c, d, c.blurInfo.midIdx - c.intervalsPopped) && d.blurInfo == c.blurInfo
    requires Drops(d, e, ForwardCount(d.blurInfo))
    ensures
      var k := c.blurInfo.midIdx - c.intervalsPopped;
      var f := ForwardCount(d.blurInfo);
      && 0 <= BeginGap(a) <= ResolvedGap(a) <= |a.intervals|
      && BeginGap(a) + k + f == ResolvedGap(a)
      && PivotPos(a) == |a.returnQueue| + BeginGap(a) + k
      && c.intervals[..k] + d.intervals[..f] == a.intervals[BeginGap(a)..ResolvedGap(a)]
  {
    var n := BeginGap(a);
    var k := c.blurInfo.midIdx - c.intervalsPopped;
    var f := ForwardCount(d.blurInfo);
    assert c.intervals == a.intervals[n..];
    assert d.intervals == a.intervals[n + k..];
    assert c.intervals[..k] + d.intervals[..f] == a.intervals[n..n + k + f];
  }

  lemma ChainEq(xs: seq<Field>, ys: seq<Field>, c: real, us: seq<Interval>, vs: seq<Interval>)
    requires Chain(xs, c, us) && xs == ys && us == vs
    ensures Chain(ys, c, vs)
  {
  }

  /** The images of a successful resolution, under the queue invariant: the
      intervals before the begin interval are popped with the old
      coefficient; then the emitted images run through the exposure one
      interval at a time, each image the previous one plus 0.3 times the
      counts of the next interval, with the deblurred latent image at the
      pivot; the running latent image ends at the last emitted image. */
  lemma ResolveEmitsChain(a: Adder, deblur: Deblur, z: Adder)
    requires Inv(a)
    requires Resolve(a, deblur) == Ok(z)
    ensures 0 <= BeginGap(a) <= ResolvedGap(a) <= |a.intervals|
    ensures |z.returnQueue| == |a.returnQueue| + ResolvedGap(a) + 1
    ensures z.returnQueue[..|a.returnQueue| + BeginGap(a)]
            == a.returnQueue + Forward(a.latent, a.currentC, a.intervals[..BeginGap(a)])
    ensures Chain(z.returnQueue[|a.returnQueue| + BeginGap(a)..], FIXED_C, a.intervals[BeginGap(a)..ResolvedGap(a)])
    ensures z.returnQueue[PivotPos(a)]
            == deblur(PopN(a, BeginGap(a)).value.(blurInfo := a.blurInfo.(midIdx := PivotIdx(a.blurInfo))), FIXED_C)
    ensures z.latent == Last(z.returnQueue)
  {
    ResolveSteps(a, deblur);
    var b := PopToBegin(a).value;
    var c := OptimizeC(b, deblur).value;
    var d := BackwardPass(c).value;
    var e := PopN(d, ForwardCount(d.blurInfo)).value;
    PopToBeginStep(a, b);
    OptimizeCStep(b, c, deblur);
    BackwardPassStep(c, d);
    ForwardPassStep(d, e);
    ResolveQueueShape(a, b, c, d, e);
    assert z.returnQueue == e.returnQueue && z.latent == e.latent;
    assert PopN(a, BeginGap(a)) == Ok(b);
  }

  /** The bookend step keeps the queue invariant and at most pops intervals. */
  lemma BookendsKeepQueue(a: Adder, e: Event, idx: nat, localT: int, deblur: Deblur)
    requires Inv(a)
    requires Bookends(a, e, idx, localT, deblur).Ok?
    ensures var r := Bookends(a, e, idx, localT, deblur).value;
      && |r.intervals| <= |a.intervals|
      && Drops(a, r, |a.intervals| - |r.intervals|)
      && Inv(r)
  {
    var r := Bookends(a, e, idx, localT, deblur).value;
    if PastEnd(a.blurInfo, idx) {
      ResolveKeepsQueue(a, deblur, r);
    } else {
      assert r.intervals == a.intervals[0..];
    }
  }

  /** Each routed event adds its polarity at its own pixel of exactly its own
      interval; every other queued count is as it was. */
  lemma RoutedEventCounted(a: Adder, e: Event, deblur: Deblur)
    requires Inv(a) && a.intervalT > 0 && e.t >= a.tShift
    requires ProcessEvent(a, e, deblur).Ok?
    ensures
      var b := ProcessEvent(a, e, deblur).value;
      var idx := RouteIdx(a, e);
      && Inv(b)
      && Live(b, idx)
      && a.intervalsPopped <= b.intervalsPopped
      && b.intervalCount == (if idx < a.intervalCount then a.intervalCount else idx + 1)
      && (forall j, q :: Live(b, j) ==>
            CountAt(b, j, q) == CountAt(a, j, q) + (if j == idx && q == PixelOf(e) then Polarity(e.on) else 0))
  {
    var bk := BeforeCounting(a, e, deblur);
    var b := ProcessEvent(a, e, deblur).value;
    assert Inv(b) by {
      assert b.intervalsPopped == bk.intervalsPopped && b.intervalCount == bk.intervalCount;
    }
    forall j, q | Live(b, j)
      ensures CountAt(b, j, q) == CountAt(a, j, q) + (if j == RouteIdx(a, e) && q == PixelOf(e) then Polarity(e.on) else 0)
    {
      assert Live(bk, j);
    }
  }

  /** The adder `process_event` counts the event in: grown to the event's
      interval and through the bookend step, it keeps the invariant, has only
      popped from the head and still holds every queued count of `a`. */
  lemma BeforeCounting(a: Adder, e: Event, deblur: Deblur) returns (bk: Adder)
    requires Inv(a) && a.intervalT > 0 && e.t >= a.tShift
    requires ProcessEvent(a, e, deblur).Ok?
    ensures ProcessEvent(a, e, deblur) == AddToInterval(bk, e, RouteIdx(a, e))
    ensures Inv(bk) && a.intervalsPopped <= bk.intervalsPopped
    ensures bk.intervalCount == (if RouteIdx(a, e) < a.intervalCount then a.intervalCount else RouteIdx(a, e) + 1)
    ensures forall j, q :: Live(bk, j) ==> CountAt(bk, j, q) == CountAt(a, j, q)
  {
    var idx := RouteIdx(a, e);
    var g := Grow(a, idx).value;
    var rb := if g.blurInfo.init then Bookends(g, e, idx, e.t - a.tShift, deblur) else Ok(g);
    assert rb.Ok? && ProcessEvent(a, e, deblur) == AddToInterval(rb.value, e, idx);
    bk := rb.value;
    BookendStepCounts(a, g, e, idx, deblur, bk);
  }

  /** The grown queue through the optional bookend step: only pops, so every
      count still queued is the one `a` held. */
  lemma BookendStepCounts(a: Adder, g: Adder, e: Event, idx: nat, deblur: Deblur, bk: Adder)
    requires Inv(a) && e.t >= a.tShift
    requires Grow(a, idx) == Ok(g)
    requires (if g.blurInfo.init then Bookends(g, e, idx, e.t - a.tShift, deblur) else Ok(g)) == Ok(bk)
    ensures Inv(bk) && a.intervalsPopped <= bk.intervalsPopped
    ensures bk.intervalCount == (if idx < a.intervalCount then a.intervalCount else idx + 1)
    ensures forall j, q :: Live(bk, j) ==> CountAt(bk, j, q) == CountAt(a, j, q)
  {
    var m := |g.intervals| - |bk.intervals|;
    assert Drops(g, bk, m) && Inv(bk) by {
      if g.blurInfo.init {
        BookendsKeepQueue(g, e, idx, e.t - a.tShift, deblur);
      }
    }
    DropsKeepsCounts(g, bk, m);
  }

  /** An on and an off event at the same pixel and in the same interval leave
      every queued interval's counts as they were, even when the first one
      triggered a resolution. */
  lemma OppositeEventsCancel(a: Adder, e1: Event, e2: Event, deblur: Deblur)
    requires Inv(a) && a.intervalT > 0
    requires e1.t >= a.tShift && e2.t >= a.tShift
    requires e1.x == e2.x && e1.y == e2.y && e1.on != e2.on
    requires RouteIdx(a, e1) == RouteIdx(a, e2)
    requires ProcessEvent(a, e1, deblur).Ok?
    requires ProcessEvent(ProcessEvent(a, e1, deblur).value, e2, deblur).Ok?
    ensures
      var b2 := ProcessEvent(ProcessEvent(a, e1, deblur).value, e2, deblur).value;
      forall j, q :: Live(b2, j) ==> CountAt(b2, j, q) == CountAt(a, j, q)
  {
    var idx := RouteIdx(a, e1);
    var b1 := ProcessEvent(a, e1, deblur).value;
    RoutedEventCounted(a, e1, deblur);
    assert RouteIdx(b1, e2) == idx;
    var b2 := ProcessEvent(b1, e2, deblur).value;
    RoutedEventCounted(b1, e2, deblur);
    CountsCancel(a, b1, b2, idx, PixelOf(e1), e1.on);
  }

  /** Two counting steps at the same interval and pixel with opposite
      polarities leave every count that is still queued as it was. */
  lemma CountsCancel(a: Adder, b1: Adder, b2: Adder, idx: nat, p: Pixel, on: bool)
    requires Inv(b1) && Inv(b2) && Live(b1, idx)
    requires b1.intervalsPopped <= b2.intervalsPopped && b2.intervalCount == b1.intervalCount
    requires forall j, q :: Live(b1, j) ==>
               CountAt(b1, j, q) == CountAt(a, j, q) + (if j == idx && q == p then Polarity(on) else 0)
    requires forall j, q :: Live(b2, j) ==>
               CountAt(b2, j, q) == CountAt(b1, j, q) + (if j == idx && q == p then Polarity(!on) else 0)
    ensures forall j, q :: Live(b2, j) ==> CountAt(b2, j, q) == CountAt(a, j, q)
  {
    forall j, q | Live(b2, j)
      ensures CountAt(b2, j, q) == CountAt(a, j, q)
    {
      assert Live(b1, j);
    }
  }

  /** In the begin bookend's interval an event goes to exactly one of the two
      accumulators: non-image when its local time is at or before the edge
      offset, image otherwise. Nothing else of the exposure changes, so when
      both bookends share an interval the begin bookend takes the event. */
  lemma BeginBookendSplit(a: Adder, e: Event, deblur: Deblur)
    requires a.intervalT > 0 && e.t >= a.tShift && a.blurInfo.init
    requires RouteIdx(a, e) == a.blurInfo.begin.outputIdx
    requires ProcessEvent(a, e, deblur).Ok?
    ensures
      var b := ProcessEvent(a, e, deblur).value;
      var before := a.blurInfo.begin;
      var after := b.blurInfo.begin;
      var outside := e.t - a.tShift <= before.offset;
      && b.blurInfo == a.blurInfo.(begin := after)
      && after.outputIdx == before.outputIdx && after.offset == before.offset
      && (outside ==> after.image == before.image)
      && (!outside ==> after.nonimage == before.nonimage)
      && (forall q :: Count(after.image, q) + Count(after.nonimage, q)
                      == Count(before.image, q) + Count(before.nonimage, q)
                         + (if q == PixelOf(e) then Polarity(e.on) else 0))
  {
    var g := Grow(a, RouteIdx(a, e)).value;
    assert g.blurInfo == a.blurInfo;
  }

  /** In the end bookend's interval the comparison is reversed: image when the
      local time is strictly before the edge offset, non-image otherwise. */
  lemma EndBookendSplit(a: Adder, e: Event, deblur: Deblur)
    requires a.intervalT > 0 && e.t >= a.tShift && a.blurInfo.init
    requires RouteIdx(a, e) == a.blurInfo.end.outputIdx != a.blurInfo.begin.outputIdx
    requires ProcessEvent(a, e, deblur).Ok?
    ensures
      var b := ProcessEvent(a, e, deblur).value;
      var before := a.blurInfo.end;
      var after := b.blurInfo.end;
      var inside := e.t - a.tShift < before.offset;
      && b.blurInfo == a.blurInfo.(end := after)
      && after.outputIdx == before.outputIdx && after.offset == before.offset
      && (inside ==> after.nonimage == before.nonimage)
      && (!inside ==> after.image == before.image)
      && (forall q :: Count(after.image, q) + Count(after.nonimage, q)
                      == Count(before.image, q) + Count(before.nonimage, q)
                         + (if q == PixelOf(e) then Polarity(e.on) else 0))
  {
    var g := Grow(a, RouteIdx(a, e)).value;
    assert g.blurInfo == a.blurInfo;
  }

  /** As written, the split compares the event's whole local time with the edge
      offset inside the interval. Past the first interval that comparison has
      one outcome only: the begin bookend counts every event as image and the
      end bookend counts every event as non-image. */
  lemma SplitPastFirstInterval(a: Adder, e: Event)
    requires a.intervalT > 0 && e.t >= a.tShift
    requires 0 <= a.blurInfo.begin.offset < a.intervalT
    requires 0 <= a.blurInfo.end.offset < a.intervalT
    requires RouteIdx(a, e) >= 1
    ensures e.t - a.tShift > a.blurInfo.begin.offset
    ensures !(e.t - a.tShift < a.blurInfo.end.offset)
  {
    QuotientBound(e.t - a.tShift, a.intervalT);
  }

  // ---------------------------------------------------------------------------
  // Which events resolve an exposure

  /** The event resolves the open exposure: it is not ignored, an exposure is
      open, and its interval is past the end interval. */
  predicate Triggers(a: Adder, e: Event) {
    a.intervalT > 0 && e.t >= a.tShift && a.blurInfo.init && PastEnd(a.blurInfo, RouteIdx(a, e))
  }

  /** An event past the end interval of the open exposure runs the resolution
      on the grown queue: afterwards the adder is the resolved one, with the
      event counted in its own interval. */
  lemma ProcessEventResolves(a: Adder, e: Event, deblur: Deblur, g: Adder)
    requires Triggers(a, e)
    requires Grow(a, RouteIdx(a, e)) == Ok(g)
    requires ProcessEvent(a, e, deblur).Ok?
    ensures Resolve(g, deblur).Ok?
    ensures
      var b := ProcessEvent(a, e, deblur).value;
      var z := Resolve(g, deblur).value;
      && b == z.(intervals := b.intervals)
      && (forall j, p :: CountAt(b, j, p)
                         == CountAt(z, j, p) + (if j == RouteIdx(a, e) && p == PixelOf(e) then Polarity(e.on) else 0))
  {
    assert g.blurInfo == a.blurInfo && SameConfig(a, g);
    assert Bookends(g, e, RouteIdx(a, e), e.t - a.tShift, deblur) == Resolve(g, deblur);
  }

  /** Any other event leaves the images, the latent image, c and both
      exposures as they were, apart from counting it once in a bookend of its
      interval; no interval is popped. */
  lemma ProcessEventQuiet(a: Adder, e: Event, deblur: Deblur)
    requires a.intervalT > 0 && !Triggers(a, e)
    requires ProcessEvent(a, e, deblur).Ok?
    ensures
      var b := ProcessEvent(a, e, deblur).value;
      && b == a.(intervals := b.intervals, intervalCount := b.intervalCount, blurInfo := b.blurInfo)
      && SameEdges(a.blurInfo, b.blurInfo)
      && (forall q :: BookendTotal(b.blurInfo, q)
                      == BookendTotal(a.blurInfo, q)
                         + (if e.t >= a.tShift && a.blurInfo.init && OnEdge(a.blurInfo, RouteIdx(a, e)) && q == PixelOf(e)
                            then Polarity(e.on) else 0))
  {
    if e.t >= a.tShift {
      var g := Grow(a, RouteIdx(a, e)).value;
      assert g.blurInfo == a.blurInfo;
    }
  }

  /** An event never takes back an image: the images held before it are still
      at the front, and it adds images exactly when it resolves the exposure. */
  lemma ProcessEventKeepsImages(a: Adder, e: Event, deblur: Deblur)
    requires Inv(a) && a.intervalT > 0
    requires ProcessEvent(a, e, deblur).Ok?
    ensures
      var b := ProcessEvent(a, e, deblur).value;
      && |a.returnQueue| <= |b.returnQueue|
      && b.returnQueue[..|a.returnQueue|] == a.returnQueue
      && (|b.returnQueue| > |a.returnQueue| <==> Triggers(a, e))
  {
    var b := ProcessEvent(a, e, deblur).value;
    if Triggers(a, e) {
      var g := Grow(a, RouteIdx(a, e)).value;
      assert Inv(g) && g.returnQueue == a.returnQueue;
      ProcessEventResolves(a, e, deblur, g);
      var z := Resolve(g, deblur).value;
      assert b.returnQueue == z.returnQueue;
      ResolveKeepsImages(g, deblur, z);
    } else {
      ProcessEventQuiet(a, e, deblur);
    }
  }

  /** A resolution keeps the images held before it and adds at least one. */
  lemma ResolveKeepsImages(a: Adder, deblur: Deblur, z: Adder)
    requires Resolve(a, deblur) == Ok(z)
    ensures |a.returnQueue| < |z.returnQueue| && z.returnQueue[..|a.returnQueue|] == a.returnQueue
  {
    ResolveSteps(a, deblur);
    var b := PopToBegin(a).value;
    var c := OptimizeC(b, deblur).value;
    var d := BackwardPass(c).value;
    var e := PopN(d, ForwardCount(d.blurInfo)).value;
    var x := Forward(a.latent, a.currentC, a.intervals[..a.blurInfo.begin.outputIdx - a.intervals[0].idx]);
    var y := Backward(c.latent, c.currentC, c.intervals[..c.blurInfo.midIdx - c.intervalsPopped]);
    var w := Forward(d.latent, d.currentC, d.intervals[..ForwardCount(d.blurInfo)]);
    assert b.returnQueue == a.returnQueue + x;
    assert c.returnQueue == b.returnQueue;
    assert d.returnQueue == c.returnQueue + y + [c.latent];
    assert z.returnQueue == e.returnQueue == d.returnQueue + w;
    AppendsKeepPrefix(a.returnQueue, x, y, c.latent, w, z.returnQueue);
  }

  lemma AppendsKeepPrefix<T>(p: seq<T>, x: seq<T>, y: seq<T>, l: T, w: seq<T>, q: seq<T>)
    requires q == p + x + y + [l] + w
    ensures |p| < |q| && q[..|p|] == p
  {
    assert q == p + (x + y + [l] + w);
  }

  /** Processing a concatenation is processing the parts in sequence. */
  lemma {:induction false} ProcessAllAppend(a: Adder, xs: seq<Event>, ys: seq<Event>, deblur: Deblur)
    requires a.intervalT > 0
    ensures ProcessAll(a, xs + ys, deblur)
            == if ProcessAll(a, xs, deblur).Ok? then ProcessAll(ProcessAll(a, xs, deblur).value, ys, deblur)
               else ProcessAll(a, xs, deblur)
    decreases |xs|
  {
    if xs == [] {
      assert xs + ys == ys;
    } else {
      assert (xs + ys)[0] == xs[0] && (xs + ys)[1..] == xs[1..] + ys;
      var b := ProcessEvent(a, xs[0], deblur);
      if b.Ok? {
        ProcessAllAppend(b.value, xs[1..], ys, deblur);
      }
    }
  }

  /** A packet none of whose events resolves the exposure leaves the images,
      the latent image, c and both exposures as they were, apart from the
      bookend accumulators. */
  lemma {:induction false} ProcessAllQuiet(a: Adder, events: seq<Event>, deblur: Deblur)
    requires a.intervalT > 0
    requires forall i :: 0 <= i < |events| ==> !Triggers(a, events[i])
    requires ProcessAll(a, events, deblur).Ok?
    ensures
      var b := ProcessAll(a, events, deblur).value;
      && b == a.(intervals := b.intervals, intervalCount := b.intervalCount, blurInfo := b.blurInfo)
      && SameEdges(a.blurInfo, b.blurInfo)
    decreases |events|
  {
    if events != [] {
      var b := ProcessEvent(a, events[0], deblur).value;
      assert ProcessAll(a, events, deblur) == ProcessAll(b, events[1..], deblur);
      assert b == a.(intervals := b.intervals, intervalCount := b.intervalCount, blurInfo := b.blurInfo)
             && SameEdges(a.blurInfo, b.blurInfo) by {
        ProcessEventQuiet(a, events[0], deblur);
      }
      assert forall i :: 0 <= i < |events[1..]| ==> !Triggers(b, events[1..][i]) by {
        forall i | 0 <= i < |events[1..]|
          ensures !Triggers(b, events[1..][i])
        {
          TriggersKept(a, b, events[i + 1]);
        }
      }
      ProcessAllQuiet(b, events[1..], deblur);
    }
  }

  /** Processing a packet never takes back an image. */
  lemma {:induction false} ProcessAllKeepsImages(a: Adder, events: seq<Event>, deblur: Deblur)
    requires Inv(a) && a.intervalT > 0
    requires ProcessAll(a, events, deblur).Ok?
    ensures
      var b := ProcessAll(a, events, deblur).value;
      |a.returnQueue| <= |b.returnQueue| && b.returnQueue[..|a.returnQueue|] == a.returnQueue
    decreases |events|
  {
    if events != [] {
      var b := ProcessEvent(a, events[0], deblur).value;
      ProcessEventKeepsImages(a, events[0], deblur);
      if events[0].t >= a.tShift {
        RoutedEventCounted(a, events[0], deblur);
      }
      ProcessAllKeepsImages(b, events[1..], deblur);
      var c := ProcessAll(b, events[1..], deblur).value;
      assert c.returnQueue[..|a.returnQueue|] == c.returnQueue[..|b.returnQueue|][..|a.returnQueue|];
    }
  }

  /** The adder `add_events` starts from keeps the invariant and the open
      exposure. */
  lemma StartedKeeps(a: Adder)
    requires Inv(a)
    ensures Inv(Started(a).(returnQueue := []))
    ensures Started(a) == a.(intervals := Started(a).intervals, intervalCount := Started(a).intervalCount)
  {
  }

  /** The first event of a packet that resolves the exposure, if any does. */
  lemma FirstTrigger(a: Adder, events: seq<Event>) returns (i: nat)
    requires exists k :: 0 <= k < |events| && Triggers(a, events[k])
    ensures i < |events| && Triggers(a, events[i])
    ensures forall k :: 0 <= k < i ==> !Triggers(a, events[k])
  {
    i := 0;
    while !Triggers(a, events[i])
      invariant i < |events|
      invariant exists k :: i <= k < |events| && Triggers(a, events[k])
      invariant forall k :: 0 <= k < i ==> !Triggers(a, events[k])
      decreases |events| - i
    {
      i := i + 1;
    }
  }

  /** The first resolution of a packet: with no earlier event resolving, the
      images `add_events` returns begin with exactly the images that
      resolution emits, starting from an empty return queue. */
  lemma AddEventsFirstResolution(a: Adder, events: seq<Event>, deblur: Deblur, i: nat)
    requires Inv(a) && a.intervalT > 0
    requires i < |events| && Triggers(a, events[i])
    requires forall k :: 0 <= k < i ==> !Triggers(a, events[k])
    requires AddEvents(a, events, deblur).Ok?
    ensures ProcessAll(Started(a).(returnQueue := []), events[..i], deblur).Ok?
    ensures Grow(ProcessAll(Started(a).(returnQueue := []), events[..i], deblur).value, RouteIdx(a, events[i])).Ok?
    ensures
      var s := ProcessAll(Started(a).(returnQueue := []), events[..i], deblur).value;
      var g := Grow(s, RouteIdx(a, events[i])).value;
      && Inv(g) && g.returnQueue == [] && g.blurInfo == a.blurInfo.(begin := g.blurInfo.begin, end := g.blurInfo.end)
      && Resolve(g, deblur).Ok?
      && var imgs := Resolve(g, deblur).value.returnQueue;
      && AddEvents(a, events, deblur).value.1.Some?
      && |imgs| <= |AddEvents(a, events, deblur).value.1.value|
      && AddEvents(a, events, deblur).value.1.value[..|imgs|] == imgs
  {
    var a0 := Started(a).(returnQueue := []);
    var s := QuietPrefix(a, events, deblur, i);
    var e := events[i];
    var g := Grow(s, RouteIdx(a, e)).value;
    assert ProcessEvent(s, e, deblur).Ok? && ProcessAll(a0, events, deblur) == ProcessAll(ProcessEvent(s, e, deblur).value, events[i + 1..], deblur) by {
      assert events[i..][0] == e && events[i..][1..] == events[i + 1..];
    }
    ProcessEventResolves(s, e, deblur, g);
    var z := Resolve(g, deblur).value;
    ResolveKeepsImages(g, deblur, z);
    var b := ProcessEvent(s, e, deblur).value;
    assert Inv(b) by {
      RoutedEventCounted(s, e, deblur);
    }
    ProcessAllKeepsImages(b, events[i + 1..], deblur);
    assert b.returnQueue == z.returnQueue;
  }

  /** The state `add_events` reaches after a prefix of events none of which
      resolves the exposure: the rest of the packet continues from it, and
      the next event still resolves or not as it would have at the start. */
  lemma QuietPrefix(a: Adder, events: seq<Event>, deblur: Deblur, i: nat) returns (s: Adder)
    requires Inv(a) && a.intervalT > 0
    requires i < |events| && Triggers(a, events[i])
    requires forall k :: 0 <= k < i ==> !Triggers(a, events[k])
    requires ProcessAll(Started(a).(returnQueue := []), events, deblur).Ok?
    ensures ProcessAll(Started(a).(returnQueue := []), events[..i], deblur) == Ok(s)
    ensures ProcessAll(Started(a).(returnQueue := []), events, deblur) == ProcessAll(s, events[i..], deblur)
    ensures Inv(s) && s.returnQueue == [] && s.intervalT == a.intervalT && s.tShift == a.tShift
    ensures s.blurInfo == a.blurInfo.(begin := s.blurInfo.begin, end := s.blurInfo.end)
    ensures SameEdges(a.blurInfo, s.blurInfo)
    ensures Triggers(s, events[i]) && RouteIdx(s, events[i]) == RouteIdx(a, events[i])
  {
    var a0 := Started(a).(returnQueue := []);
    StartedKeeps(a);
    var pre := events[..i];
    assert ProcessAll(a0, pre, deblur).Ok? && ProcessAll(a0, events, deblur) == ProcessAll(ProcessAll(a0, pre, deblur).value, events[i..], deblur) by {
      assert events == pre + events[i..];
      ProcessAllAppend(a0, pre, events[i..], deblur);
    }
    s := ProcessAll(a0, pre, deblur).value;
    assert Inv(s) by {
      ProcessAllKeepsInv(a0, pre, deblur);
    }
    assert forall k :: 0 <= k < |pre| ==> !Triggers(a0, pre[k]) by {
      forall k | 0 <= k < |pre|
        ensures !Triggers(a0, pre[k])
      {
        TriggersKept(a, a0, events[k]);
      }
    }
    ProcessAllQuiet(a0, pre, deblur);
    TriggersKept(a, s, events[i]);
  }

  /** Whether an event resolves the exposure depends only on the
      configuration and the exposure's edges. */
  lemma TriggersKept(a: Adder, b: Adder, e: Event)
    requires b.tShift == a.tShift && b.intervalT == a.intervalT
    requires b.blurInfo.init == a.blurInfo.init
    requires b.blurInfo.begin.outputIdx == a.blurInfo.begin.outputIdx
    requires b.blurInfo.end.outputIdx == a.blurInfo.end.outputIdx
    ensures Triggers(b, e) == Triggers(a, e)
    ensures a.intervalT > 0 && e.t >= a.tShift ==> RouteIdx(b, e) == RouteIdx(a, e)
  {
  }

  /** `add_events` returns no images exactly when none of the packet's events
      resolves the exposure that is open when the packet arrives. */
  lemma AddEventsEmitsOnResolution(a: Adder, events: seq<Event>, deblur: Deblur)
    requires Inv(a) && a.intervalT > 0
    requires AddEvents(a, events, deblur).Ok?
    ensures AddEvents(a, events, deblur).value.1 == None
            <==> forall i :: 0 <= i < |events| ==> !Triggers(a, events[i])
  {
    if forall i :: 0 <= i < |events| ==> !Triggers(a, events[i]) {
      var a0 := Started(a).(returnQueue := []);
      assert forall i :: 0 <= i < |events| ==> !Triggers(a0, events[i]) by {
        forall i | 0 <= i < |events|
          ensures !Triggers(a0, events[i])
        {
          assert !Triggers(a, events[i]);
        }
      }
      ProcessAllQuiet(a0, events, deblur);
    } else {
      var i := FirstTrigger(a, events);
      AddEventsFirstResolution(a, events, deblur, i);
    }
  }

  /** Processing a packet keeps the queue invariant. */
  lemma {:induction false} ProcessAllKeepsInv(a: Adder, events: seq<Event>, deblur: Deblur)
    requires Inv(a) && a.intervalT > 0
    requires ProcessAll(a, events, deblur).Ok?
    ensures Inv(ProcessAll(a, events, deblur).value)
    decreases |events|
  {
    if events != [] {
      var b := ProcessEvent(a, events[0], deblur).value;
      if events[0].t >= a.tShift {
        RoutedEventCounted(a, events[0], deblur);
      }
      ProcessAllKeepsInv(b, events[1..], deblur);
    }
  }

  /** `add_events` keeps the queue invariant. */
  lemma AddEventsKeepsInv(a: Adder, events: seq<Event>, deblur: Deblur)
    requires Inv(a) && a.intervalT > 0
    requires AddEvents(a, events, deblur).Ok?
    ensures Inv(AddEvents(a, events, deblur).value.0)
  {
    ProcessAllKeepsInv(Started(a).(returnQueue := []), events, deblur);
  }
}
