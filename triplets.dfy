/**
 * Spatial reduction of every frame at every point into (id, imageID, ndvi)
 * observations, with missing readings replaced by the NoData sentinel.
 */
module Triplets {
  import opened Common

  /** Sentinel stored when a frame yields no NDVI value at a point. */
  const NoData: real := -9999.0

  /** A frame of the image collection; its bands and footprint are opaque here. */
  datatype Image = Image(id: string)

  /** A sample point; its geometry is opaque here. */
  datatype Point = Point(id: string)

  /** One observation of the long table. */
  datatype Triplet = Triplet(id: string, imageID: string, ndvi: real)

  /** `ee.Reducer.firstNonNull()` over a list. */
  function FirstNonNull(xs: seq<Option<real>>): (r: Option<real>)
    ensures r.None? <==> forall i :: 0 <= i < |xs| ==> xs[i].None?
    ensures r.Some? ==> exists i :: 0 <= i < |xs| && xs[i] == r && forall j :: 0 <= j < i ==> xs[j].None?
  {
    if xs == [] then None
    else if xs[0].Some? then xs[0]
    else
      var r := FirstNonNull(xs[1..]);
      assert r.Some? ==> exists i :: 1 <= i < |xs| && xs[i] == r && forall j :: 1 <= j < i ==> xs[j].None?;
      r
  }

  /** `firstNonNull([value, -9999])`: the reading itself, or the sentinel when it is missing. */
  function FillNoData(v: Option<real>): (r: real)
    ensures v.Some? ==> r == v.value
    ensures v.None? ==> r == NoData
  {
    var xs := [v, Some(NoData)];
    assert xs[1].Some?;
    FirstNonNull(xs).value
  }

  /**
   * The features `reduceRegions` returns for one image, each tagged by the
   * image's id: one per point, in point order. `reduce` stands for
   * `Reducer.first` at scale 10 over the masked NDVI band.
   */
  function ImageTriplets(image: Image, points: seq<Point>, reduce: (Image, Point) -> Option<real>): (r: seq<Triplet>)
    ensures |r| == |points|
    ensures forall j :: 0 <= j < |points| ==>
      && r[j].id == points[j].id
      && r[j].imageID == image.id
      && (reduce(image, points[j]).Some? ==> r[j].ndvi == reduce(image, points[j]).value)
      && (reduce(image, points[j]).None? ==> r[j].ndvi == NoData)
  {
    seq(|points|, j requires 0 <= j < |points| => Triplet(points[j].id, image.id, FillNoData(reduce(image, points[j]))))
  }

  /** Sum of the lengths of a list of lists. */
  function TotalLength<T>(ss: seq<seq<T>>): nat
  {
    if ss == [] then 0 else |ss[0]| + TotalLength(ss[1..])
  }

  /** `FeatureCollection.flatten()`: the concatenation of the per-image collections. */
  function Flatten<T>(ss: seq<seq<T>>): (r: seq<T>)
    ensures |r| == TotalLength(ss)
  {
    if ss == [] then [] else ss[0] + Flatten(ss[1..])
  }

  /** Nothing is invented or lost by flattening: an element is in the result iff it is in some part. */
  lemma {:induction false} FlattenMembers<T>(ss: seq<seq<T>>, x: T)
    ensures x in Flatten(ss) <==> exists i :: 0 <= i < |ss| && x in ss[i]
  {
    if ss != [] {
      FlattenMembers(ss[1..], x);
      assert x in Flatten(ss) <==> x in ss[0] || x in Flatten(ss[1..]);
      if x in Flatten(ss[1..]) {
        var i :| 0 <= i < |ss[1..]| && x in ss[1..][i];
        assert x in ss[i + 1];
      }
      if exists i :: 0 <= i < |ss| && x in ss[i] {
        var i :| 0 <= i < |ss| && x in ss[i];
        if i > 0 {
          assert x in ss[1..][i - 1];
        }
      }
    }
  }

  /** When every part has length m, element j of part i sits at index i * m + j. */
  lemma {:induction false} FlattenUniform<T>(ss: seq<seq<T>>, m: nat, i: nat, j: nat)
    requires forall k :: 0 <= k < |ss| ==> |ss[k]| == m
    requires i < |ss| && j < m
    ensures TotalLength(ss) == |ss| * m
    ensures i * m + j < |Flatten(ss)| && Flatten(ss)[i * m + j] == ss[i][j]
  {
    UniformLength(ss, m);
    var rest := Flatten(ss[1..]);
    assert Flatten(ss) == ss[0] + rest;
    if i > 0 {
      FlattenUniform(ss[1..], m, i - 1, j);
      var n := (i - 1) * m + j;
      assert i * m + j == m + n by { PeelFactor(i, m); }
      assert (ss[0] + rest)[m + n] == rest[n];
    }
  }

  /** Peeling one factor off a product. */
  lemma PeelFactor(i: nat, m: nat)
    requires i > 0
    ensures i * m == m + (i - 1) * m
  {
  }

  lemma {:induction false} UniformLength<T>(ss: seq<seq<T>>, m: nat)
    requires forall k :: 0 <= k < |ss| ==> |ss[k]| == m
    ensures TotalLength(ss) == |ss| * m
  {
    if ss != [] {
      UniformLength(ss[1..], m);
      assert |ss| * m == m + (|ss| - 1) * m;
    }
  }

  /** A common factor can be cancelled from a strict inequality. */
  lemma CancelFactor(a: nat, b: nat, m: nat)
    requires a * m < b * m
    ensures a < b
  {
  }

  /** The per-image lists of triplets, one list per image. */
  function PerImage(images: seq<Image>, points: seq<Point>, reduce: (Image, Point) -> Option<real>): (r: seq<seq<Triplet>>)
    ensures |r| == |images|
    ensures forall i :: 0 <= i < |images| ==> r[i] == ImageTriplets(images[i], points, reduce)
  {
    seq(|images|, i requires 0 <= i < |images| => ImageTriplets(images[i], points, reduce))
  }

  /** The flattened triplet table: one observation per (image, point) pair. */
  function TripletTable(images: seq<Image>, points: seq<Point>, reduce: (Image, Point) -> Option<real>): (r: seq<Triplet>)
    ensures |r| == |images| * |points|
  {
    var parts := PerImage(images, points, reduce);
    UniformLength(parts, |points|);
    Flatten(parts)
  }

  /** The triplet for image i and point j sits at index i * |points| + j and carries their ids and filled value. */
  lemma TripletAt(images: seq<Image>, points: seq<Point>, reduce: (Image, Point) -> Option<real>, i: nat, j: nat)
    requires i < |images| && j < |points|
    ensures i * |points| + j < |TripletTable(images, points, reduce)|
    ensures TripletTable(images, points, reduce)[i * |points| + j]
         == Triplet(points[j].id, images[i].id, FillNoData(reduce(images[i], points[j])))
  {
    FlattenUniform(PerImage(images, points, reduce), |points|, i, j);
  }

  /** Every triplet comes from one image and one point: no triplet is invented. */
  lemma TripletOrigin(images: seq<Image>, points: seq<Point>, reduce: (Image, Point) -> Option<real>, k: nat)
    requires k < |TripletTable(images, points, reduce)|
    ensures exists i, j ::
      && 0 <= i < |images| && 0 <= j < |points| && k == i * |points| + j
      && TripletTable(images, points, reduce)[k] == Triplet(points[j].id, images[i].id, FillNoData(reduce(images[i], points[j])))
  {
    var m := |points|;
    assert m > 0;
    var i, j := k / m, k % m;
    assert k == i * m + j;
    CancelFactor(i, |images|, m);
    TripletAt(images, points, reduce, i, j);
  }
}
