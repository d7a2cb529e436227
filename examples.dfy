/** Worked rows for the same-date merge, as the comments of the source describe them. */
module MergeExamples {
  import opened Common
  import opened Triplets
  import opened Merge

  /** A ten-character key that holds an eight-character date at none of its three offsets. */
  lemma NotContained(s: string, sub: string)
    requires |s| == 10 && |sub| == 8
    requires !OccursAt(s, sub, 0) && !OccursAt(s, sub, 1) && !OccursAt(s, sub, 2)
    ensures !Contains(s, sub)
  {
    ContainsAtOffset(s, sub);
  }

  /** A date key whose columns are known, and whose largest value is v, merges to v. */
  lemma MergedCellIs(row: Row, d: string, ks: set<string>, v: real)
    requires NumericCells(row)
    requires d in DateKeys(row)
    requires Matching(row, d) == ks
    requires forall k :: k in ks ==> row[k].x <= v
    requires exists k :: k in ks && row[k].x == v
    ensures d in MergeRow(row) && MergeRow(row)[d] == Number(v)
  {
    MergedIsMaxOfContaining(row, d);
  }

  // Two granules of 1 January, one of them without a reading, and one of 5 January.
  function TwoGranuleRow(): Row
  {
    map[RowId := Text("p1"), "20190101_A" := Number(0.5), "20190101_B" := Number(NoData), "20190105_A" := Number(0.3)]
  }

  lemma TwoGranuleKeys()
    ensures ColumnKeys(TwoGranuleRow()) == {"20190101_A", "20190101_B", "20190105_A"}
    ensures DateKeys(TwoGranuleRow()) == {"20190101", "20190105"}
  {
    assert ColumnKeys(TwoGranuleRow()) == {"20190101_A", "20190101_B", "20190105_A"};
    assert DateKey("20190101_A") == "20190101";
    assert DateKey("20190101_B") == "20190101";
    assert DateKey("20190105_A") == "20190105";
  }

  lemma NotJanuary1(s: string)
    requires s == "20190105_A"
    ensures !Contains(s, "20190101")
  {
    var jan1 := "20190101";
    assert s[0..8][7] != jan1[7] && s[1..9][0] != jan1[0] && s[2..10][0] != jan1[0];
    NotContained(s, jan1);
  }

  lemma NotJanuary5(s: string)
    requires s == "20190101_A" || s == "20190101_B"
    ensures !Contains(s, "20190105")
  {
    var jan5 := "20190105";
    assert s[0..8][7] != jan5[7] && s[1..9][0] != jan5[0] && s[2..10][0] != jan5[0];
    NotContained(s, jan5);
  }

  /** The columns a date key selects, given which columns contain it. */
  lemma MatchingIs(row: Row, d: string, ks: set<string>)
    requires ks <= ColumnKeys(row)
    requires forall k :: k in ColumnKeys(row) && k !in ks ==> !Contains(k, d)
    requires forall k :: k in ks ==> Contains(k, d)
    ensures Matching(row, d) == ks
  {
  }

  lemma TwoGranuleJanuary1()
    ensures Matching(TwoGranuleRow(), "20190101") == {"20190101_A", "20190101_B"}
  {
    var a, b, c := "20190101_A", "20190101_B", "20190105_A";
    TwoGranuleKeys();
    NotJanuary1(c);
    assert Contains(a, "20190101") && Contains(b, "20190101");
    MatchingIs(TwoGranuleRow(), "20190101", {a, b});
  }

  lemma TwoGranuleJanuary5()
    ensures Matching(TwoGranuleRow(), "20190105") == {"20190105_A"}
  {
    var a, b, c := "20190101_A", "20190101_B", "20190105_A";
    TwoGranuleKeys();
    NotJanuary5(a);
    NotJanuary5(b);
    assert Contains(c, "20190105");
    MatchingIs(TwoGranuleRow(), "20190105", {c});
  }

  /** A row is the literal of its three keys once its keys and cells are known. */
  lemma ThreeCells(r: Row, a: string, b: string, c: string, va: Value, vb: Value, vc: Value)
    requires r.Keys == {a, b, c}
    requires r[a] == va && r[b] == vb && r[c] == vc
    ensures r == map[a := va, b := vb, c := vc]
  {
    var m := map[a := va, b := vb, c := vc];
    assert m.Keys == r.Keys;
    SameMap(r, m);
  }

  lemma TwoGranuleMergedKeys()
    ensures MergeRow(TwoGranuleRow()).Keys == {RowId, "20190101", "20190105"}
  {
    TwoGranuleKeys();
    assert RowId in TwoGranuleRow();
  }

  lemma MergeTwoGranules()
    ensures MergeRow(TwoGranuleRow()) == map[RowId := Text("p1"), "20190101" := Number(0.5), "20190105" := Number(0.3)]
  {
    var r := MergeRow(TwoGranuleRow());
    TwoGranuleMergedKeys();
    TwoGranuleJanuary1Cell();
    TwoGranuleJanuary5Cell();
    assert RowId in TwoGranuleRow() && r[RowId] == Text("p1");
    ThreeCells(r, RowId, "20190101", "20190105", Text("p1"), Number(0.5), Number(0.3));
  }

  lemma TwoGranuleValues()
    ensures TwoGranuleRow()["20190101_A"] == Number(0.5)
    ensures TwoGranuleRow()["20190101_B"] == Number(NoData)
    ensures TwoGranuleRow()["20190105_A"] == Number(0.3)
  {
    var a, b, c := "20190101_A", "20190101_B", "20190105_A";
    assert a != b by { assert a[9] != b[9]; }
    assert a != c by { assert a[7] != c[7]; }
    assert b != c by { assert b[7] != c[7]; }
  }

  lemma TwoGranuleJanuary1Cell()
    ensures "20190101" in MergeRow(TwoGranuleRow()) && MergeRow(TwoGranuleRow())["20190101"] == Number(0.5)
  {
    var row := TwoGranuleRow();
    TwoGranuleKeys();
    TwoGranuleJanuary1();
    TwoGranuleValues();
    MergedCellIs(row, "20190101", {"20190101_A", "20190101_B"}, 0.5);
  }

  lemma TwoGranuleJanuary5Cell()
    ensures "20190105" in MergeRow(TwoGranuleRow()) && MergeRow(TwoGranuleRow())["20190105"] == Number(0.3)
  {
    var row := TwoGranuleRow();
    TwoGranuleKeys();
    TwoGranuleJanuary5();
    TwoGranuleValues();
    MergedCellIs(row, "20190105", {"20190105_A"}, 0.3);
  }

  // Two granules of 1 January, both without a reading.
  function AllMissingRow(): Row
  {
    map[RowId := Text("p1"), "20190101_A" := Number(NoData), "20190101_B" := Number(NoData)]
  }

  /** When every granule of the day is missing, the merged cell stays the sentinel. */
  lemma MergeAllMissing()
    ensures MergeRow(AllMissingRow()) == map[RowId := Text("p1"), "20190101" := Number(NoData)]
  {
    var row := AllMissingRow();
    assert ColumnKeys(row) == {"20190101_A", "20190101_B"};
    assert DateKey("20190101_A") == "20190101" && DateKey("20190101_B") == "20190101";
    assert DateKeys(row) == {"20190101"};
    assert Contains("20190101_A", "20190101") && Contains("20190101_B", "20190101");
    assert Matching(row, "20190101") == {"20190101_A", "20190101_B"};
    MergedCellIs(row, "20190101", {"20190101_A", "20190101_B"}, NoData);
    var r := MergeRow(row);
    assert r.Keys == {RowId, "20190101"};
  }

  // A column of 5 January whose key also holds the text 20190101 further on.
  function EmbeddedDateRow(): Row
  {
    map[RowId := Text("p1"), "20190101_A" := Number(0.2), "20190105_20190101" := Number(0.9)]
  }

  lemma EmbeddedDateKeys()
    ensures ColumnKeys(EmbeddedDateRow()) == {"20190101_A", "20190105_20190101"}
    ensures DateKey("20190101_A") == "20190101" && DateKey("20190105_20190101") == "20190105"
    ensures "20190101" in DateKeys(EmbeddedDateRow())
  {
    assert ColumnKeys(EmbeddedDateRow()) == {"20190101_A", "20190105_20190101"};
    assert DateKey("20190101_A") == "20190101";
    assert DateKey("20190105_20190101") == "20190105";
  }

  lemma EmbeddedDateMatching()
    ensures Matching(EmbeddedDateRow(), "20190101") == {"20190101_A", "20190105_20190101"}
  {
    var jan1, late := "20190101", "20190105_20190101";
    EmbeddedDateKeys();
    assert Contains("20190101_A", jan1);
    assert Contains(late, jan1) by {
      assert OccursAt(late, jan1, 9);
      ContainsAtOffset(late, jan1);
    }
  }

  /**
   * The date group is chosen by substring, not by prefix: the 1 January cell
   * takes 0.9 from a column dated 5 January, though the only column dated
   * 1 January holds 0.2.
   */
  lemma SubstringGroupsAcrossDates()
    ensures DateKey("20190101_A") == "20190101" && DateKey("20190105_20190101") == "20190105"
    ensures "20190101" in MergeRow(EmbeddedDateRow()) && MergeRow(EmbeddedDateRow())["20190101"] == Number(0.9)
  {
    var row := EmbeddedDateRow();
    var a, late := "20190101_A", "20190105_20190101";
    assert a != late by { assert |a| != |late|; }
    assert row[a] == Number(0.2) && row[late] == Number(0.9);
    EmbeddedDateKeys();
    EmbeddedDateMatching();
    assert forall k :: k in {a, late} ==> row[k].x <= 0.9;
    MergedCellIs(row, "20190101", {a, late}, 0.9);
  }
}
