/**
  Colour segmentation thresholds: the two inclusive HSV bands applied to the
  8-bit HSV frame before any denoising. Hue is in OpenCV's raw 8-bit units
  (0..179, half a degree each), exactly as the bounds are written.
 */
module ColorBands {

  /** One 8-bit channel value. */
  type Channel = x: int | 0 <= x < 256

  datatype Hsv = Hsv(h: Channel, s: Channel, v: Channel)

  /** Inclusive lower and upper bounds per channel, as given to inRange. */
  datatype Band = Band(lo: Hsv, hi: Hsv)

  const GreenBand: Band := Band(Hsv(80, 120, 120), Hsv(140, 255, 255))
  const RedBand: Band := Band(Hsv(0, 120, 120), Hsv(40, 255, 255))

  /** A pixel lies in a band when every channel lies between its two bounds,
      both bounds included: both corners of a band lie in it, and a band with
      a crossed bound holds no pixel at all. */
  predicate InBand(p: Hsv, b: Band)
    ensures InBand(p, b) ==> Ordered(b)
    ensures Ordered(b) && (p == b.lo || p == b.hi) ==> InBand(p, b)
  {
    && b.lo.h <= p.h <= b.hi.h
    && b.lo.s <= p.s <= b.hi.s
    && b.lo.v <= p.v <= b.hi.v
  }

  /** No lower bound of the band exceeds its upper bound. */
  predicate Ordered(b: Band)
  {
    b.lo.h <= b.hi.h && b.lo.s <= b.hi.s && b.lo.v <= b.hi.v
  }

  /** The mask of a frame for one band: true where the pixel lies in the band. */
  function Threshold(frame: seq<seq<Hsv>>, b: Band): (mask: seq<seq<bool>>)
    ensures |mask| == |frame|
    ensures forall r :: 0 <= r < |frame| ==> |mask[r]| == |frame[r]|
    ensures forall r, c :: 0 <= r < |frame| && 0 <= c < |frame[r]| ==>
              (mask[r][c] <==> InBand(frame[r][c], b))
  {
    seq(|frame|, r requires 0 <= r < |frame| =>
      seq(|frame[r]|, c requires 0 <= c < |frame[r]| => InBand(frame[r][c], b)))
  }

  /** The two bands are disjoint, so no pixel is set in both masks. */
  lemma BandsDisjoint(frame: seq<seq<Hsv>>, r: int, c: int)
    requires 0 <= r < |frame| && 0 <= c < |frame[r]|
    ensures !(Threshold(frame, RedBand)[r][c] && Threshold(frame, GreenBand)[r][c])
  {
  }

  /** Both bands demand the same saturation and value: a dark or washed-out
      pixel is in neither mask whatever its hue. */
  lemma DimPixelInNeitherBand(p: Hsv)
    requires p.s < 120 || p.v < 120
    ensures !InBand(p, RedBand) && !InBand(p, GreenBand)
  {
  }

  /** A frame uniformly inside the red band gives an all-true red mask and an
      all-false green mask. */
  lemma UniformRedFrame(frame: seq<seq<Hsv>>, p: Hsv)
    requires InBand(p, RedBand)
    requires forall r, c :: 0 <= r < |frame| && 0 <= c < |frame[r]| ==> frame[r][c] == p
    ensures forall r, c :: 0 <= r < |frame| && 0 <= c < |frame[r]| ==>
              Threshold(frame, RedBand)[r][c] && !Threshold(frame, GreenBand)[r][c]
  {
  }
}
