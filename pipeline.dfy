/**
 * The whole reshaping chain: sampled triplets, pivoted to one row per point,
 * then merged to one column per acquisition date.
 */
module Pipeline {
  import opened Common
  import opened Triplets
  import opened Pivot
  import opened Merge

  /** `merge(format(triplets), 'id')`: the per-point NDVI time series table. */
  function NdviTimeSeries(images: seq<Image>, points: seq<Point>, reduce: (Image, Point) -> Option<real>): (table: seq<Row>)
    ensures |table| <= |points|
    ensures forall r :: 0 <= r < |table| ==> NumericCells(table[r])
  {
    var rows := Format(TripletTable(images, points, reduce));
    RowsAtMostPoints(images, points, reduce);
    MergeTable(rows)
  }

  /** The ids of the points, in point order. */
  function PointIds(points: seq<Point>): (ids: seq<string>)
    ensures |ids| == |points|
    ensures forall j :: 0 <= j < |points| ==> ids[j] == points[j].id
  {
    seq(|points|, j requires 0 <= j < |points| => points[j].id)
  }

  /** A sequence without repeats has as many distinct elements as entries. */
  lemma {:induction false} DistinctCard(xs: seq<string>)
    requires forall i, j :: 0 <= i < j < |xs| ==> xs[i] != xs[j]
    ensures |set x | x in xs| == |xs|
  {
    if xs != [] {
      var init, last := xs[..|xs| - 1], xs[|xs| - 1];
      assert xs == init + [last];
      DistinctCard(init);
      assert last !in init;
      assert (set x | x in xs) == (set x | x in init) + {last};
    }
  }

  /** A sequence has no more distinct elements than entries. */
  lemma {:induction false} SeqSetCard(xs: seq<string>)
    ensures |set x | x in xs| <= |xs|
  {
    if xs != [] {
      var init, last := xs[..|xs| - 1], xs[|xs| - 1];
      assert xs == init + [last];
      SeqSetCard(init);
      assert (set x | x in xs) == (set x | x in init) + {last};
    }
  }

  /** A subset has no more elements than its superset. */
  lemma SubsetCard(a: set<string>, b: set<string>)
    requires a <= b
    ensures |a| <= |b|
  {
    assert b == a + (b - a);
  }

  /** The pivot has at most one row per point: its rows are distinct ids, each a point id. */
  lemma RowsAtMostPoints(images: seq<Image>, points: seq<Point>, reduce: (Image, Point) -> Option<real>)
    ensures |Format(TripletTable(images, points, reduce))| <= |points|
  {
    var ts := TripletTable(images, points, reduce);
    var ids, pids := Distinct(Ids(ts)), PointIds(points);
    DistinctCard(ids);
    SeqSetCard(pids);
    forall x | x in ids ensures x in pids {
      assert x in Ids(ts);
      var k :| 0 <= k < |ts| && Ids(ts)[k] == x;
      TripletOrigin(images, points, reduce, k);
      var i, j :| && 0 <= i < |images| && 0 <= j < |points| && k == i * |points| + j
                  && ts[k] == Triplet(points[j].id, images[i].id, FillNoData(reduce(images[i], points[j])));
      assert pids[j] == x;
    }
    SubsetCard(set x | x in ids, set x | x in pids);
  }

  /** Row r of the output is the merge of row r of the pivoted table. */
  lemma OutputRowIsMerged(images: seq<Image>, points: seq<Point>, reduce: (Image, Point) -> Option<real>, r: nat)
    requires r < |NdviTimeSeries(images, points, reduce)|
    ensures var rows := Format(TripletTable(images, points, reduce));
      r < |rows| && NdviTimeSeries(images, points, reduce)[r] == MergeRow(rows[r])
  {
  }

  /** No triplet carries an image id that is not the id of one of the images. */
  lemma TripletImagesAreImages(images: seq<Image>, points: seq<Point>, reduce: (Image, Point) -> Option<real>)
    requires forall i :: 0 <= i < |images| ==> images[i].id != RowId
    ensures forall t :: t in TripletTable(images, points, reduce) ==> t.imageID != RowId
  {
    var ts := TripletTable(images, points, reduce);
    forall t | t in ts ensures t.imageID != RowId {
      var k :| 0 <= k < |ts| && ts[k] == t;
      TripletOrigin(images, points, reduce, k);
    }
  }

  /** With at least one image, the ids of the triplet table are exactly the point ids. */
  lemma TripletIdsArePoints(images: seq<Image>, points: seq<Point>, reduce: (Image, Point) -> Option<real>, id: string)
    requires |images| > 0
    ensures id in TripletIds(TripletTable(images, points, reduce)) <==> exists j :: 0 <= j < |points| && points[j].id == id
  {
    var ts := TripletTable(images, points, reduce);
    if id in TripletIds(ts) {
      var t :| t in ts && t.id == id;
      var k :| 0 <= k < |ts| && ts[k] == t;
      TripletOrigin(images, points, reduce, k);
    }
    if exists j :: 0 <= j < |points| && points[j].id == id {
      var j :| 0 <= j < |points| && points[j].id == id;
      TripletAt(images, points, reduce, 0, j);
      assert ts[j] in ts;
    }
  }

  /** Row r of the output carries, under "id", the r-th distinct point id of the triplet table. */
  lemma OutputRowId(images: seq<Image>, points: seq<Point>, reduce: (Image, Point) -> Option<real>, r: nat)
    requires forall i :: 0 <= i < |images| ==> images[i].id != RowId
    requires r < |NdviTimeSeries(images, points, reduce)|
    ensures var ts := TripletTable(images, points, reduce);
      && r < |Distinct(Ids(ts))|
      && RowId in NdviTimeSeries(images, points, reduce)[r]
      && NdviTimeSeries(images, points, reduce)[r][RowId] == Text(Distinct(Ids(ts))[r])
  {
    var ts := TripletTable(images, points, reduce);
    var rows := Format(ts);
    OutputRowIsMerged(images, points, reduce, r);
    TripletImagesAreImages(images, points, reduce);
    var id := Distinct(Ids(ts))[r];
    assert rows[r] == PivotRow(ts, id);
    assert RowId !in ImageIdsOf(ts, id);
  }

  /** With at least one image and no image called "id", every point has a row in the output. */
  lemma EveryPointHasRow(images: seq<Image>, points: seq<Point>, reduce: (Image, Point) -> Option<real>, j: nat)
    requires |images| > 0 && j < |points|
    requires forall i :: 0 <= i < |images| ==> images[i].id != RowId
    ensures var table := NdviTimeSeries(images, points, reduce);
      exists r :: 0 <= r < |table| && RowId in table[r] && table[r][RowId] == Text(points[j].id)
  {
    var ts := TripletTable(images, points, reduce);
    var table := NdviTimeSeries(images, points, reduce);
    TripletIdsArePoints(images, points, reduce, points[j].id);
    var t :| t in ts && t.id == points[j].id;
    var k :| 0 <= k < |ts| && ts[k] == t;
    assert Ids(ts)[k] == points[j].id;
    assert points[j].id in Distinct(Ids(ts));
    var r :| 0 <= r < |Distinct(Ids(ts))| && Distinct(Ids(ts))[r] == points[j].id;
    OutputRowId(images, points, reduce, r);
  }

  /** With no image called "id", every row of the output belongs to a point. */
  lemma EveryRowIsPoint(images: seq<Image>, points: seq<Point>, reduce: (Image, Point) -> Option<real>, r: nat)
    requires forall i :: 0 <= i < |images| ==> images[i].id != RowId
    requires r < |NdviTimeSeries(images, points, reduce)|
    ensures var table := NdviTimeSeries(images, points, reduce);
      RowId in table[r] && exists j :: 0 <= j < |points| && table[r][RowId] == Text(points[j].id)
  {
    var ts := TripletTable(images, points, reduce);
    OutputRowId(images, points, reduce, r);
    var id := Distinct(Ids(ts))[r];
    assert id in Ids(ts);
    var k :| 0 <= k < |ts| && Ids(ts)[k] == id;
    TripletOrigin(images, points, reduce, k);
  }

  /** With no image called "id", no two rows of the output share a point id. */
  lemma OutputRowIdsDistinct(images: seq<Image>, points: seq<Point>, reduce: (Image, Point) -> Option<real>, r: nat, s: nat)
    requires forall i :: 0 <= i < |images| ==> images[i].id != RowId
    requires r < s < |NdviTimeSeries(images, points, reduce)|
    ensures var table := NdviTimeSeries(images, points, reduce);
      RowId in table[r] && RowId in table[s] && table[r][RowId] != table[s][RowId]
  {
    OutputRowId(images, points, reduce, r);
    OutputRowId(images, points, reduce, s);
  }

  /**
   * When point ids are distinct, image ids are distinct and no image is called
   * "id", the reading of point j on image i reaches the output: the row of the
   * point has a column for the image's date, holding at least that reading.
   */
  lemma ReadingReachesOutput(images: seq<Image>, points: seq<Point>, reduce: (Image, Point) -> Option<real>, i: nat, j: nat)
    requires i < |images| && j < |points|
    requires forall a, b :: 0 <= a < b < |points| ==> points[a].id != points[b].id
    requires forall a, b :: 0 <= a < b < |images| ==> images[a].id != images[b].id
    requires forall a :: 0 <= a < |images| ==> images[a].id != RowId
    ensures var table := NdviTimeSeries(images, points, reduce);
      exists r ::
        && 0 <= r < |table| && RowId in table[r] && table[r][RowId] == Text(points[j].id)
        && DateKey(images[i].id) in table[r]
        && FillNoData(reduce(images[i], points[j])) <= table[r][DateKey(images[i].id)].x
  {
    var ts := TripletTable(images, points, reduce);
    var m := |points|;
    var k := i * m + j;
    TripletAt(images, points, reduce, i, j);
    var t := ts[k];
    forall q | 0 <= q < |ts| && q != k ensures !(ts[q].id == t.id && ts[q].imageID == t.imageID) {
      TripletOrigin(images, points, reduce, q);
      var i', j' :| && 0 <= i' < |images| && 0 <= j' < |points| && q == i' * m + j'
                    && ts[q] == Triplet(points[j'].id, images[i'].id, FillNoData(reduce(images[i'], points[j'])));
      assert points[j'].id == points[j].id ==> j' == j;
      assert images[i'].id == images[i].id ==> i' == i;
    }
    PivotKeepsUniqueCell(ts, k);
    FormatHasRowOf(ts, k);
    var rows := Format(ts);
    var r :| 0 <= r < |rows| && rows[r] == PivotRow(ts, t.id);
    TripletImagesAreImages(images, points, reduce);
    assert RowId !in ImageIdsOf(ts, t.id);
    var row := rows[r];
    assert row[RowId] == Text(points[j].id);
    assert t.imageID in ColumnKeys(row);
    MergedBoundsSameDate(row, t.imageID);
    OutputRowIsMerged(images, points, reduce, r);
  }

  /** NDVI readings lie in [-1, 1], so no image reading is ever below the sentinel. */
  lemma NdviAboveNoData(images: seq<Image>, points: seq<Point>, reduce: (Image, Point) -> Option<real>)
    requires forall i, j :: 0 <= i < |images| && 0 <= j < |points| && reduce(images[i], points[j]).Some? ==>
      -1.0 <= reduce(images[i], points[j]).value <= 1.0
    ensures forall t :: t in TripletTable(images, points, reduce) ==> t.ndvi >= NoData
  {
    var ts := TripletTable(images, points, reduce);
    forall t | t in ts ensures t.ndvi >= NoData {
      var k :| 0 <= k < |ts| && ts[k] == t;
      TripletOrigin(images, points, reduce, k);
    }
  }

  /** Triplet readings no lower than the sentinel give pivoted cells no lower than it. */
  lemma PivotedCellsAboveNoData(ts: seq<Triplet>, id: string)
    requires forall t :: t in ts ==> t.ndvi >= NoData
    ensures forall k :: k in ColumnKeys(PivotRow(ts, id)) ==> PivotRow(ts, id)[k].x >= NoData
  {
    var row := PivotRow(ts, id);
    forall k | k in ColumnKeys(row) ensures row[k].x >= NoData {
      assert k in ImageIdsOf(ts, id);
      var i :| LastFor(ts, id, k, i) && row[k] == Number(ts[i].ndvi);
      assert ts[i] in ts;
    }
  }

  /**
   * With readings in [-1, 1], a date cell of the output is the sentinel exactly
   * when every pivoted column containing that date is the sentinel.
   */
  lemma OutputNoDataIffAllNoData(images: seq<Image>, points: seq<Point>, reduce: (Image, Point) -> Option<real>, r: nat, d: string)
    requires forall i, j :: 0 <= i < |images| && 0 <= j < |points| && reduce(images[i], points[j]).Some? ==>
      -1.0 <= reduce(images[i], points[j]).value <= 1.0
    requires r < |NdviTimeSeries(images, points, reduce)|
    requires d in DateKeys(Format(TripletTable(images, points, reduce))[r])
    ensures var row := Format(TripletTable(images, points, reduce))[r];
      && d in NdviTimeSeries(images, points, reduce)[r]
      && (NdviTimeSeries(images, points, reduce)[r][d].x == NoData
          <==> forall k :: k in ColumnKeys(row) && Contains(k, d) ==> row[k].x == NoData)
  {
    var ts := TripletTable(images, points, reduce);
    var row := Format(ts)[r];
    OutputRowIsMerged(images, points, reduce, r);
    NdviAboveNoData(images, points, reduce);
    assert row == PivotRow(ts, Distinct(Ids(ts))[r]);
    PivotedCellsAboveNoData(ts, Distinct(Ids(ts))[r]);
    MergedNoDataIffAllNoData(row, d);
  }
}
