/**
 * The long-to-wide pivot `format(table, 'id', 'imageID')`: one row per distinct
 * point id, with one column per image id holding that image's NDVI value.
 */
module Pivot {
  import opened Common
  import opened Triplets

  /** The `id` property of every triplet, in table order. */
  function Ids(ts: seq<Triplet>): (r: seq<string>)
    ensures |r| == |ts|
    ensures forall i :: 0 <= i < |ts| ==> r[i] == ts[i].id
  {
    seq(|ts|, i requires 0 <= i < |ts| => ts[i].id)
  }

  /** `distinct`: each value once, in order of first occurrence. */
  function Distinct(xs: seq<string>): (r: seq<string>)
    ensures forall i, j :: 0 <= i < j < |r| ==> r[i] != r[j]
    ensures forall x :: x in r <==> x in xs
    ensures |r| <= |xs|
  {
    if xs == [] then []
    else
      var init, last := xs[..|xs| - 1], xs[|xs| - 1];
      assert xs == init + [last];
      var d := Distinct(init);
      if last in d then d else d + [last]
  }

  /** The matches `ee.Join.saveAll` collects for one row: the triplets with that id, in table order. */
  function Matches(ts: seq<Triplet>, id: string): (r: seq<Triplet>)
    ensures forall t :: t in r <==> t in ts && t.id == id
    ensures |r| <= |ts|
  {
    if ts == [] then []
    else
      var init, last := ts[..|ts| - 1], ts[|ts| - 1];
      assert ts == init + [last];
      Matches(init, id) + (if last.id == id then [last] else [])
  }

  /** `[feature.get('imageID'), feature.get('ndvi')]` for every match. */
  function CellPairs(ms: seq<Triplet>): (r: seq<(string, Value)>)
    ensures |r| == |ms|
    ensures forall i :: 0 <= i < |ms| ==> r[i] == (ms[i].imageID, Number(ms[i].ndvi))
  {
    seq(|ms|, i requires 0 <= i < |ms| => (ms[i].imageID, Number(ms[i].ndvi)))
  }

  /** Index i holds the last pair in `pairs` whose key is k. */
  ghost predicate LastWithKey<V>(pairs: seq<(string, V)>, k: string, i: int)
  {
    && 0 <= i < |pairs| && pairs[i].0 == k
    && forall j :: i < j < |pairs| ==> pairs[j].0 != k
  }

  /**
   * `ee.Dictionary(list.flatten())` over key/value pairs, inserted in list
   * order, so a repeated key keeps its last value.
   */
  function Dict<V>(pairs: seq<(string, V)>): (d: map<string, V>)
    ensures d == map[] <==> pairs == []
    ensures |d| <= |pairs|
  {
    if pairs == [] then map[]
    else
      var last := pairs[|pairs| - 1];
      Dict(pairs[..|pairs| - 1])[last.0 := last.1]
  }

  /** Appending a pair inserts it over whatever the key held. */
  lemma DictSnoc<V>(pairs: seq<(string, V)>, p: (string, V))
    ensures Dict(pairs + [p]) == Dict(pairs)[p.0 := p.1]
  {
    assert (pairs + [p])[..|pairs|] == pairs;
  }

  /** The keys of a list of pairs. */
  ghost function PairKeys<V>(pairs: seq<(string, V)>): set<string>
  {
    set i | 0 <= i < |pairs| :: pairs[i].0
  }

  /** The dictionary's keys are exactly the keys of the pairs. */
  lemma {:induction false} DictKeys<V>(pairs: seq<(string, V)>)
    ensures Dict(pairs).Keys == PairKeys(pairs)
  {
    if pairs != [] {
      var init, last := pairs[..|pairs| - 1], pairs[|pairs| - 1];
      DictKeys(init);
      assert forall i :: 0 <= i < |init| ==> init[i] == pairs[i];
      assert PairKeys(pairs) == PairKeys(init) + {last.0} by {
        forall x | x in PairKeys(pairs)
          ensures x in PairKeys(init) + {last.0}
        {
          var i :| 0 <= i < |pairs| && pairs[i].0 == x;
          if i < |init| {
            assert init[i].0 == x;
          }
        }
      }
    }
  }

  /** A key of the dictionary holds the value of the last pair with that key. */
  lemma {:induction false} DictLastWins<V>(pairs: seq<(string, V)>, k: string)
    requires k in Dict(pairs)
    ensures exists i :: LastWithKey(pairs, k, i) && pairs[i].1 == Dict(pairs)[k]
  {
    var init, last := pairs[..|pairs| - 1], pairs[|pairs| - 1];
    if k == last.0 {
      assert LastWithKey(pairs, k, |pairs| - 1);
    } else {
      DictLastWins(init, k);
      var i :| LastWithKey(init, k, i) && init[i].1 == Dict(init)[k];
      assert LastWithKey(pairs, k, i);
    }
  }

  /** The image ids of the triplets of one point. */
  ghost function ImageIdsOf(ts: seq<Triplet>, id: string): set<string>
  {
    set t | t in ts && t.id == id :: t.imageID
  }

  /** Index i holds the last triplet of the table for the pair (id, imageID). */
  ghost predicate LastFor(ts: seq<Triplet>, id: string, imageID: string, i: int)
  {
    && 0 <= i < |ts| && ts[i].id == id && ts[i].imageID == imageID
    && forall j :: i < j < |ts| ==> !(ts[j].id == id && ts[j].imageID == imageID)
  }

  /** The dictionary `format` builds from the matches of one point. */
  function MatchDict(ts: seq<Triplet>, id: string): (d: map<string, Value>)
    ensures |d| <= |ts|
  {
    Dict(CellPairs(Matches(ts, id)))
  }

  /** Appending a triplet to the table inserts its cell last, if it belongs to the point. */
  lemma MatchDictSnoc(init: seq<Triplet>, last: Triplet, id: string)
    ensures MatchDict(init + [last], id)
         == if last.id == id then MatchDict(init, id)[last.imageID := Number(last.ndvi)] else MatchDict(init, id)
  {
    var ts := init + [last];
    assert ts[..|ts| - 1] == init;
    var before := CellPairs(Matches(init, id));
    if last.id == id {
      var pair := (last.imageID, Number(last.ndvi));
      assert CellPairs(Matches(ts, id)) == before + [pair];
      DictSnoc(before, pair);
    } else {
      assert Matches(ts, id) == Matches(init, id);
    }
  }

  /** The keys of the dictionary of one point are that point's image ids. */
  lemma {:induction false} MatchDictKeys(ts: seq<Triplet>, id: string)
    ensures MatchDict(ts, id).Keys == ImageIdsOf(ts, id)
  {
    if ts != [] {
      var init, last := ts[..|ts| - 1], ts[|ts| - 1];
      assert ts == init + [last];
      MatchDictKeys(init, id);
      MatchDictSnoc(init, last, id);
      var before := MatchDict(init, id);
      if last.id == id {
        assert MatchDict(ts, id).Keys == before.Keys + {last.imageID};
        assert ImageIdsOf(ts, id) == ImageIdsOf(init, id) + {last.imageID};
      } else {
        assert MatchDict(ts, id).Keys == before.Keys;
        assert ImageIdsOf(ts, id) == ImageIdsOf(init, id);
      }
    }
  }

  /** Each cell of the dictionary of one point holds the NDVI of the last triplet for that pair. */
  lemma {:induction false} MatchDictLastWins(ts: seq<Triplet>, id: string, k: string)
    requires k in MatchDict(ts, id)
    ensures exists i :: LastFor(ts, id, k, i) && MatchDict(ts, id)[k] == Number(ts[i].ndvi)
  {
    var init, last := ts[..|ts| - 1], ts[|ts| - 1];
    assert ts == init + [last];
    MatchDictSnoc(init, last, id);
    if last.id == id && k == last.imageID {
      assert LastFor(ts, id, k, |ts| - 1);
    } else {
      MatchDictLastWins(init, id, k);
      var i :| LastFor(init, id, k, i) && MatchDict(init, id)[k] == Number(init[i].ndvi);
      assert LastFor(ts, id, k, i);
    }
  }

  /**
   * One pivoted row: `row.select(['id']).set(dictionary of matches)`. The
   * dictionary is applied after the id, so it would overwrite an "id" column.
   */
  function PivotRow(ts: seq<Triplet>, id: string): (row: Row)
    ensures row.Keys == {RowId} + ImageIdsOf(ts, id)
    ensures RowId !in ImageIdsOf(ts, id) ==> row[RowId] == Text(id)
    ensures forall k :: k in ImageIdsOf(ts, id) ==> exists i :: LastFor(ts, id, k, i) && row[k] == Number(ts[i].ndvi)
    ensures NumericCells(row)
  {
    MatchDictKeys(ts, id);
    forall k | k in MatchDict(ts, id) ensures exists i :: LastFor(ts, id, k, i) && MatchDict(ts, id)[k] == Number(ts[i].ndvi) {
      MatchDictLastWins(ts, id, k);
    }
    map[RowId := Text(id)] + MatchDict(ts, id)
  }

  /** `format(table, 'id', 'imageID')`: one row per distinct id, in order of first occurrence. */
  function Format(ts: seq<Triplet>): (rows: seq<Row>)
    ensures |rows| == |Distinct(Ids(ts))|
    ensures forall i :: 0 <= i < |rows| ==> NumericCells(rows[i])
  {
    var ids := Distinct(Ids(ts));
    seq(|ids|, i requires 0 <= i < |ids| => PivotRow(ts, ids[i]))
  }

  /** The ids that occur in the triplet table. */
  ghost function TripletIds(ts: seq<Triplet>): set<string>
  {
    set t | t in ts :: t.id
  }

  /**
   * When no image is called "id", `format` emits exactly one row per id of
   * the table: every id has a row, every row belongs to an id of the table,
   * and no two rows share an id.
   */
  lemma FormatOneRowPerId(ts: seq<Triplet>)
    requires forall t :: t in ts ==> t.imageID != RowId
    ensures forall id :: id in TripletIds(ts) <==>
      exists i :: 0 <= i < |Format(ts)| && Format(ts)[i][RowId] == Text(id)
    ensures forall i, j :: 0 <= i < j < |Format(ts)| ==> Format(ts)[i][RowId] != Format(ts)[j][RowId]
  {
    var ids, rows := Distinct(Ids(ts)), Format(ts);
    forall i | 0 <= i < |rows|
      ensures rows[i][RowId] == Text(ids[i]) && ids[i] in TripletIds(ts)
    {
      assert ids[i] in Ids(ts);
      var k :| 0 <= k < |ts| && Ids(ts)[k] == ids[i];
      assert ts[k] in ts;
    }
    forall id | id in TripletIds(ts)
      ensures exists i :: 0 <= i < |rows| && rows[i][RowId] == Text(id)
    {
      var t :| t in ts && t.id == id;
      var k :| 0 <= k < |ts| && ts[k] == t;
      assert Ids(ts)[k] == id;
      assert id in ids;
      var i :| 0 <= i < |ids| && ids[i] == id;
      assert rows[i][RowId] == Text(id);
    }
  }

  /** Each pivoted row has exactly the image ids of its point's triplets as its columns besides the id. */
  lemma FormatColumns(ts: seq<Triplet>, i: nat)
    requires i < |Format(ts)|
    ensures Format(ts)[i].Keys - {RowId} == ImageIdsOf(ts, Distinct(Ids(ts))[i]) - {RowId}
  {
  }

  /**
   * An (id, imageID) pair that occurs once in the table is recovered unchanged
   * from that id's row.
   */
  lemma {:induction false} PivotKeepsUniqueCell(ts: seq<Triplet>, k: nat)
    requires k < |ts|
    requires forall j :: 0 <= j < |ts| && j != k ==> !(ts[j].id == ts[k].id && ts[j].imageID == ts[k].imageID)
    ensures ts[k].imageID in PivotRow(ts, ts[k].id)
    ensures PivotRow(ts, ts[k].id)[ts[k].imageID] == Number(ts[k].ndvi)
  {
    var t := ts[k];
    assert t in ts;
    assert t.imageID in ImageIdsOf(ts, t.id);
    var row := PivotRow(ts, t.id);
    assert t.imageID in row;
    var i :| LastFor(ts, t.id, t.imageID, i) && row[t.imageID] == Number(ts[i].ndvi);
    assert i == k;
  }

  /** The triplet at index k lands in a row of `format`: the row of its id. */
  lemma FormatHasRowOf(ts: seq<Triplet>, k: nat)
    requires k < |ts|
    ensures exists i :: 0 <= i < |Format(ts)| && Format(ts)[i] == PivotRow(ts, ts[k].id)
  {
    var ids := Distinct(Ids(ts));
    assert Ids(ts)[k] == ts[k].id;
    assert ts[k].id in ids;
    var i :| 0 <= i < |ids| && ids[i] == ts[k].id;
    assert Format(ts)[i] == PivotRow(ts, ts[k].id);
  }

  /** An image called "id" overwrites the row id, since the dictionary is set after it. */
  lemma ImageNamedIdOverwritesRowId()
    ensures Format([Triplet("p1", RowId, 0.5)]) == [map[RowId := Number(0.5)]]
  {
    var t := Triplet("p1", RowId, 0.5);
    assert Ids([t]) == ["p1"];
    assert Distinct(["p1"]) == ["p1"] by {
      assert ["p1"][..0] == [];
    }
    MatchDictSnoc([], t, "p1");
    assert [] + [t] == [t];
    assert Dict(CellPairs(Matches([], "p1"))) == map[];
    assert MatchDict([t], "p1") == map[RowId := Number(0.5)];
    assert PivotRow([t], "p1") == map[RowId := Number(0.5)];
  }
}
