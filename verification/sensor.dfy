/** Pixels, events and the dense per-pixel fields of the sensor.

    A dense matrix of the source is a finite map from pixel to value in which
    an absent pixel reads as zero, so `map[]` is the all-zero matrix. */
module Sensor {

  /** (row, column) = (event y, event x), the order of `Mat::at_2d_mut`. */
  type Pixel = (int, int)

  /** Signed event counts per pixel. */
  type Counts = map<Pixel, int>

  /** Log-domain intensities per pixel: a dense base image, shifted by scaled
      event counts. */
  datatype Field = Dense(levels: map<Pixel, real>) | Shifted(base: Field, c: real, counts: Counts)

  /** The all-zero image. */
  const Zero: Field := Dense(map[])

  /** One brightness-change event: position, timestamp, polarity. */
  datatype Event = Event(x: int, y: int, t: int, on: bool)

  function PixelOf(e: Event): Pixel {
    (e.y, e.x)
  }

  /** +1 for an on event, -1 for an off event. */
  function Polarity(on: bool): (d: int)
    ensures d == 1 || d == -1
    ensures d > 0 <==> on
  {
    if on then 1 else -1
  }

  /** The count at `p`; a pixel missing from the map holds zero. */
  function Count(m: Counts, p: Pixel): int {
    if p in m then m[p] else 0
  }

  /** `c` times the count at `p`: what scaled counts contribute to a level. */
  function Weight(c: real, m: Counts, p: Pixel): real {
    c * Count(m, p) as real
  }

  /** The level at `p`; a pixel missing from a dense map holds zero. */
  function Level(f: Field, p: Pixel): real {
    match f
    case Dense(levels) => if p in levels then levels[p] else 0.0
    case Shifted(base, c, counts) => Level(base, p) + Weight(c, counts, p)
  }

  /** Adds one event of the given polarity at `p`. */
  function Bump(m: Counts, p: Pixel, on: bool): (r: Counts)
    ensures Count(r, p) == Count(m, p) + Polarity(on)
    ensures forall q :: q != p ==> Count(r, q) == Count(m, q)
  {
    m[p := Count(m, p) + Polarity(on)]
  }

  /** `f + c * m`, pixel by pixel. */
  function AddScaled(f: Field, c: real, m: Counts): (r: Field)
    ensures forall p :: Level(r, p) == Level(f, p) + Weight(c, m, p)
  {
    Shifted(f, c, m)
  }

  /** `f - c * m`, pixel by pixel. */
  function SubScaled(f: Field, c: real, m: Counts): (r: Field)
    ensures forall p :: Level(r, p) == Level(f, p) - Weight(c, m, p)
  {
    Shifted(f, -c, m)
  }

  /** An on and an off event at the same pixel leave every count as it was. */
  lemma OppositeBumpsCancel(m: Counts, p: Pixel, on: bool)
    ensures forall q :: Count(Bump(Bump(m, p, on), p, !on), q) == Count(m, q)
  {
  }

  /** Subtracting and then adding the same scaled counts restores every level. */
  lemma AddUndoesSub(f: Field, c: real, m: Counts)
    ensures forall p :: Level(AddScaled(SubScaled(f, c, m), c, m), p) == Level(f, p)
  {
  }
}
