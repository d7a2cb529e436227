/**
 * The same-date merge `merge(table, 'id')`: the columns of a pivoted row are
 * grouped under the first eight characters of their key, and each group keeps
 * its largest value.
 */
module Merge {
  import opened Common
  import opened Triplets

  /** Length of the date token `YYYYMMDD` at the head of an image id. */
  const DateLength: nat := 8

  /** `ee.String(key).slice(0, 8)`: the first eight characters, or the whole key when shorter. */
  function DateKey(k: string): (d: string)
    ensures |d| == if |k| < DateLength then |k| else DateLength
    ensures d <= k
  {
    k[..if |k| < DateLength then |k| else DateLength]
  }

  /** `ee.Filter.stringContains`: `sub` occurs somewhere in `s`. */
  predicate Contains(s: string, sub: string)
    ensures Contains(s, sub) ==> |sub| <= |s|
  {
    sub <= s || (|s| > 0 && Contains(s[1..], sub))
  }

  /** `sub` is the slice of `s` that starts at offset i. */
  ghost predicate OccursAt(s: string, sub: string, i: int)
  {
    0 <= i <= |s| - |sub| && s[i..i + |sub|] == sub
  }

  /** `Contains` means: `sub` is the slice of `s` at some offset. */
  lemma {:induction false} ContainsAtOffset(s: string, sub: string)
    ensures Contains(s, sub) <==> exists i :: OccursAt(s, sub, i)
  {
    if sub <= s {
      assert OccursAt(s, sub, 0);
    } else if |s| > 0 {
      ContainsAtOffset(s[1..], sub);
      if Contains(s[1..], sub) {
        var i :| OccursAt(s[1..], sub, i);
        assert s[1..][i..i + |sub|] == s[i + 1..i + 1 + |sub|];
        assert OccursAt(s, sub, i + 1);
      }
      if exists i :: OccursAt(s, sub, i) {
        var i :| OccursAt(s, sub, i);
        if i > 0 {
          assert s[1..][i - 1..i - 1 + |sub|] == s[i..i + |sub|];
          assert OccursAt(s[1..], sub, i - 1);
        }
      }
    }
  }

  /** Between two strings of the same length, containment is equality. */
  lemma SameLengthContains(s: string, sub: string)
    requires |s| == |sub|
    ensures Contains(s, sub) <==> s == sub
  {
    ContainsAtOffset(s, sub);
    if Contains(s, sub) {
      var i :| OccursAt(s, sub, i);
      assert s[0..|s|] == s;
    } else {
      assert !OccursAt(s, sub, 0);
      assert s[0..|s|] == s;
    }
  }

  /** `feature.toDictionary().keys().remove('id')`: the keys of the dated columns. */
  function ColumnKeys(row: Row): (ks: set<string>)
    ensures forall k :: k in ks <==> k in row && k != RowId
  {
    row.Keys - {RowId}
  }

  /** `substrKeys.distinct()`: the distinct date keys of a row. */
  function DateKeys(row: Row): (ds: set<string>)
    ensures RowId !in ds
  {
    var ds := set k | k in ColumnKeys(row) :: DateKey(k);
    assert RowId !in ds by {
      if RowId in ds {
        var k :| k in ColumnKeys(row) && DateKey(k) == RowId;
        DateKeyOfColumnIsNotRowId(k);
      }
    }
    ds
  }

  /** The columns `allKeys.filter(stringContains('item', d))` selects for date key d. */
  function Matching(row: Row, d: string): (ks: set<string>)
    ensures forall k :: k in ks <==> k in ColumnKeys(row) && Contains(k, d)
  {
    set k | k in ColumnKeys(row) && Contains(k, d)
  }

  /** A finite non-empty set of reals has a largest element. */
  lemma {:induction false} MaxExists(s: set<real>)
    requires s != {}
    ensures exists m :: m in s && forall x :: x in s ==> x <= m
  {
    if forall x :: x !in s {
      assert false;
    }
    var y :| y in s;
    if s == {y} {
      assert forall x :: x in s ==> x <= y;
    } else {
      if forall z :: z in s ==> z == y {
        assert false;
      }
      var z :| z in s && z != y;
      var rest := s - {y};
      assert z in rest;
      MaxExists(rest);
      var m :| m in rest && forall x :: x in rest ==> x <= m;
      var top := if m < y then y else m;
      forall x | x in s ensures x <= top {
        if x != y {
          assert x in rest;
        }
      }
      assert top in s;
    }
  }

  /** `reduce(ee.Reducer.max())`: the largest value. */
  function MaxOf(s: set<real>): (m: real)
    requires s != {}
    ensures m in s && forall x :: x in s ==> x <= m
  {
    MaxExists(s);
    var m :| m in s && forall x :: x in s ==> x <= m;
    m
  }

  /** The values of the columns a date key selects. */
  function MatchingValues(row: Row, d: string): (vs: set<real>)
    requires NumericCells(row)
    ensures forall k :: k in Matching(row, d) ==> row[k].x in vs
    ensures forall v :: v in vs ==> exists k :: k in Matching(row, d) && row[k].x == v
  {
    set k | k in Matching(row, d) :: row[k].x
  }

  /** A date key of the row selects at least the column it was cut from. */
  lemma DateKeySelectsItsColumn(row: Row, k: string)
    requires k in ColumnKeys(row)
    ensures k in Matching(row, DateKey(k))
  {
    assert Contains(k, DateKey(k));
  }

  /** `selectName(['id'])`: the row id, when the row has one. */
  function IdOnly(row: Row): (r: Row)
    ensures r.Keys == row.Keys * {RowId}
    ensures forall k :: k in r ==> r[k] == row[k]
  {
    if RowId in row then map[RowId := row[RowId]] else map[]
  }

  /** Only the key "id" itself has "id" as its date key. */
  lemma DateKeyOfColumnIsNotRowId(k: string)
    requires k != RowId
    ensures DateKey(k) != RowId
  {
    if |k| < DateLength {
      assert DateKey(k) == k;
    }
  }

  /** Every date key of a row selects a column, and none of them is "id". */
  lemma DateKeysSelect(row: Row, d: string)
    requires NumericCells(row)
    requires d in DateKeys(row)
    ensures MatchingValues(row, d) != {} && d != RowId
  {
    var k :| k in ColumnKeys(row) && DateKey(k) == d;
    DateKeySelectsItsColumn(row, k);
    DateKeyOfColumnIsNotRowId(k);
    assert row[k].x in MatchingValues(row, d);
  }

  /** The merged value of date key d: the max over the columns whose key contains d. */
  function MergedValue(row: Row, d: string): (v: real)
    requires NumericCells(row)
    requires d in DateKeys(row)
    ensures forall k :: k in Matching(row, d) ==> row[k].x <= v
    ensures exists k :: k in Matching(row, d) && row[k].x == v
  {
    DateKeysSelect(row, d);
    MaxOf(MatchingValues(row, d))
  }

  /** `pairs`: each date key with its merged value. */
  function MergedCells(row: Row): (cells: map<string, Value>)
    requires NumericCells(row)
    ensures cells.Keys == DateKeys(row)
    ensures RowId !in cells
  {
    var cells := map d | d in DateKeys(row) :: Number(MergedValue(row, d));
    assert RowId !in cells by {
      if RowId in DateKeys(row) {
        DateKeysSelect(row, RowId);
      }
    }
    cells
  }

  /** The merged row: `feature.select(['id']).set(dictionary of pairs)`. */
  function MergeRow(row: Row): (r: Row)
    requires NumericCells(row)
    ensures r.Keys == (row.Keys * {RowId}) + DateKeys(row)
    ensures RowId in row ==> r[RowId] == row[RowId]
    ensures r.Keys - {RowId} == DateKeys(row)
    ensures NumericCells(r)
  {
    IdOnly(row) + MergedCells(row)
  }

  /** `merge(table, 'id')`: every row merged on its own. */
  function MergeTable(rows: seq<Row>): (r: seq<Row>)
    requires forall i :: 0 <= i < |rows| ==> NumericCells(rows[i])
    ensures |r| == |rows|
  {
    seq(|rows|, i requires 0 <= i < |rows| => MergeRow(rows[i]))
  }

  /**
   * The merged cell of a date key is the largest value among the columns whose
   * key contains that date key: it is at least each of them and equal to one.
   */
  lemma MergedIsMaxOfContaining(row: Row, d: string)
    requires NumericCells(row)
    requires d in DateKeys(row)
    ensures d in MergeRow(row) && MergeRow(row)[d].Number?
    ensures forall k :: k in ColumnKeys(row) && Contains(k, d) ==> row[k].x <= MergeRow(row)[d].x
    ensures exists k :: k in ColumnKeys(row) && Contains(k, d) && row[k].x == MergeRow(row)[d].x
  {
    DateKeysSelect(row, d);
    var v := MaxOf(MatchingValues(row, d));
    assert MergeRow(row)[d] == Number(v);
    forall k | k in ColumnKeys(row) && Contains(k, d) ensures row[k].x <= v {
      assert k in Matching(row, d);
    }
    var k :| k in Matching(row, d) && row[k].x == v;
  }

  /** In particular the merged cell is at least every column of that date. */
  lemma MergedBoundsSameDate(row: Row, k: string)
    requires NumericCells(row)
    requires k in ColumnKeys(row)
    ensures DateKey(k) in MergeRow(row)
    ensures row[k].x <= MergeRow(row)[DateKey(k)].x
  {
    assert DateKey(k) in DateKeys(row);
    DateKeySelectsItsColumn(row, k);
    MergedIsMaxOfContaining(row, DateKey(k));
  }

  /**
   * When no value lies below the sentinel, a merged cell is the sentinel exactly
   * when every column it draws on is, and then every column of that date is.
   */
  lemma MergedNoDataIffAllNoData(row: Row, d: string)
    requires NumericCells(row)
    requires forall k :: k in ColumnKeys(row) ==> row[k].x >= NoData
    requires d in DateKeys(row)
    ensures MergeRow(row)[d].x == NoData <==> forall k :: k in ColumnKeys(row) && Contains(k, d) ==> row[k].x == NoData
    ensures MergeRow(row)[d].x == NoData ==> forall k :: k in ColumnKeys(row) && DateKey(k) == d ==> row[k].x == NoData
  {
    MergedIsMaxOfContaining(row, d);
    forall k | k in ColumnKeys(row) && DateKey(k) == d ensures Contains(k, d) {
      DateKeySelectsItsColumn(row, k);
    }
  }

  /** The distinct date keys are no more than the keys they are cut from. */
  lemma {:induction false} DateKeyImageBound(keys: set<string>)
    ensures |set k | k in keys :: DateKey(k)| <= |keys|
  {
    if keys != {} {
      if forall k :: k !in keys {
        assert false;
      }
      var k :| k in keys;
      var rest := keys - {k};
      DateKeyImageBound(rest);
      assert (set x | x in keys :: DateKey(x)) == (set x | x in rest :: DateKey(x)) + {DateKey(k)};
    }
  }

  /** Merging never adds columns: the merged row has at most as many dated columns. */
  lemma MergeColumnCount(row: Row)
    requires NumericCells(row)
    ensures |MergeRow(row).Keys - {RowId}| <= |row.Keys - {RowId}|
  {
    DateKeyImageBound(ColumnKeys(row));
  }

  /** When every column key has at least eight characters, the merged keys are all eight long. */
  lemma MergedKeysAreDates(row: Row)
    requires NumericCells(row)
    requires forall k :: k in ColumnKeys(row) ==> |k| >= DateLength
    ensures forall d :: d in ColumnKeys(MergeRow(row)) ==> |d| == DateLength
  {
  }

  /** A row whose column keys are all eight long has its own column keys as date keys. */
  lemma DatedRowDateKeys(m: Row)
    requires forall k :: k in ColumnKeys(m) ==> |k| == DateLength
    ensures DateKeys(m) == ColumnKeys(m)
  {
    forall d | d in ColumnKeys(m) ensures DateKey(d) == d {
      assert d[..DateLength] == d;
    }
  }

  /** In such a row each date key selects only its own column, so its merged cell is unchanged. */
  lemma DatedRowCell(m: Row, d: string)
    requires NumericCells(m)
    requires forall k :: k in ColumnKeys(m) ==> |k| == DateLength
    requires d in ColumnKeys(m)
    ensures d in MergeRow(m) && MergeRow(m)[d] == m[d]
  {
    DatedRowDateKeys(m);
    assert Matching(m, d) == {d} by {
      forall k | k in ColumnKeys(m) ensures Contains(k, d) <==> k == d {
        SameLengthContains(k, d);
      }
    }
    assert MatchingValues(m, d) == {m[d].x};
    assert MergedValue(m, d) == m[d].x;
  }

  /** A set is its part inside {x} together with its part outside it. */
  lemma SplitOff(a: set<string>, x: string)
    ensures (a * {x}) + (a - {x}) == a
  {
  }

  /** A row whose column keys are all eight characters long is left as it is by merging. */
  lemma DatedRowIsFixed(m: Row)
    requires NumericCells(m)
    requires forall k :: k in ColumnKeys(m) ==> |k| == DateLength
    ensures MergeRow(m) == m
  {
    DatedRowCells(m);
    DatedRowKeys(m);
    SameMap(MergeRow(m), m);
  }

  /** Merging a row keyed by eight-character dates keeps every cell. */
  lemma DatedRowCells(m: Row)
    requires NumericCells(m)
    requires forall k :: k in ColumnKeys(m) ==> |k| == DateLength
    ensures forall k :: k in m ==> k in MergeRow(m) && MergeRow(m)[k] == m[k]
  {
    forall k | k in ColumnKeys(m) ensures k in MergeRow(m) && MergeRow(m)[k] == m[k] {
      DatedRowCell(m, k);
    }
  }

  /** Merging a row keyed by eight-character dates keeps its key set. */
  lemma DatedRowKeys(m: Row)
    requires NumericCells(m)
    requires forall k :: k in ColumnKeys(m) ==> |k| == DateLength
    ensures MergeRow(m).Keys == m.Keys
  {
    DatedRowDateKeys(m);
    SplitOff(m.Keys, RowId);
  }

  /** Two rows with the same keys and the same cells are equal. */
  lemma SameMap(a: Row, b: Row)
    requires a.Keys == b.Keys
    requires forall k :: k in b ==> a[k] == b[k]
    ensures a == b
  {
  }

  /**
   * Merging is idempotent when every column key has at least eight characters:
   * the merged keys are then dates, and a row keyed by dates is a fixed point.
   */
  lemma MergeIdempotent(row: Row)
    requires NumericCells(row)
    requires forall k :: k in ColumnKeys(row) ==> |k| >= DateLength
    ensures MergeRow(MergeRow(row)) == MergeRow(row)
  {
    MergedKeysAreDates(row);
    DatedRowIsFixed(MergeRow(row));
  }
}
