/** Per-pixel cloud, snow, shadow and cirrus masking of a Sentinel-2 L2A frame. */
module Masking {
  import opened Common

  /** Upper bound (exclusive) on the MSK_CLDPRB cloud probability band. */
  const CloudProbabilityLimit: int := 5
  /** Upper bound (exclusive) on the MSK_SNWPRB snow probability band. */
  const SnowProbabilityLimit: int := 5
  /** Scene classification (SCL) code of a cloud shadow. */
  const SclCloudShadow: int := 3
  /** Scene classification (SCL) code of thin cirrus. */
  const SclCirrus: int := 10

  /** The auxiliary bands the mask reads at one pixel; the spectral bands are opaque. */
  datatype Pixel = Pixel(cloudProb: int, snowProb: int, scl: int)

  // Earth Engine band algebra: comparisons and `and` yield 0/1 images.
  function Lt(a: int, b: int): int { if a < b then 1 else 0 }
  function Eq(a: int, b: int): int { if a == b then 1 else 0 }
  function Neq(a: int, b: int): int { if a != b then 1 else 0 }
  function And(a: int, b: int): int { if a != 0 && b != 0 then 1 else 0 }

  /** The condition a pixel must meet to be kept, written as one conjunction. */
  predicate IsClear(p: Pixel)
  {
    && p.cloudProb < CloudProbabilityLimit
    && p.snowProb < SnowProbabilityLimit
    && p.scl != SclCloudShadow
    && p.scl != SclCirrus
  }

  /** The mask band built by `maskCloudAndShadows`: 1 keeps the pixel, 0 drops it. */
  function MaskBand(p: Pixel): (m: int)
    ensures m == 0 || m == 1
    ensures m == 1 <==> IsClear(p)
  {
    var cloud := Lt(p.cloudProb, CloudProbabilityLimit);
    var snow := Lt(p.snowProb, SnowProbabilityLimit);
    var shadow := Eq(p.scl, SclCloudShadow);
    var cirrus := Eq(p.scl, SclCirrus);
    And(And(And(cloud, snow), Neq(cirrus, 1)), Neq(shadow, 1))
  }

  /** `image.updateMask(mask)` at one pixel: a zero mask hides the pixel. */
  function UpdateMask(p: Pixel, mask: int): (r: Option<Pixel>)
    ensures r.Some? <==> mask != 0
    ensures r.Some? ==> r.value == p
  {
    if mask != 0 then Some(p) else None
  }

  /** The masked pixel: kept unchanged exactly when it is clear, dropped otherwise. */
  function MaskCloudAndShadows(p: Pixel): (r: Option<Pixel>)
    ensures r.Some? <==> IsClear(p)
    ensures r.Some? ==> r.value == p
  {
    UpdateMask(p, MaskBand(p))
  }

  /** Failing any one condition masks the pixel, whatever the other bands hold. */
  lemma AnyFailingConditionMasks(p: Pixel)
    requires p.cloudProb >= CloudProbabilityLimit || p.snowProb >= SnowProbabilityLimit
          || p.scl == SclCloudShadow || p.scl == SclCirrus
    ensures MaskCloudAndShadows(p) == None
  {
  }

  /** A cloud probability of 10 masks the pixel regardless of snow and SCL. */
  lemma CloudyPixelIsMasked(snowProb: int, scl: int)
    ensures MaskCloudAndShadows(Pixel(10, snowProb, scl)) == None
  {
  }
}
