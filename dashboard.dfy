/**
 * The two tallies the dashboard charts from the cleaned table: treatment
 * status and sample collection by location.
 */
module Dashboard {
  import opened Cells
  import opened Schema
  import opened Cleaning
  import opened Tallies

  /** `data["Treated"].value_counts()`, charted as "Treatment Status Distribution". */
  function TreatmentCounts(rows: seq<Row>): (vc: seq<ValueCount>)
    ensures SortedByCount(vc) && DistinctValues(vc)
    ensures forall i :: 0 <= i < |vc| ==> vc[i].count == Occurrences(Series(rows, Treated), vc[i].value) > 0
    ensures Total(vc) == PresentCount(Series(rows, Treated))
  {
    ValueCountsTotal(Series(rows, Treated));
    ValueCounts(Series(rows, Treated))
  }

  /** `data["Location"].value_counts()`, charted as "Sample Collection by Location". */
  function LocationCounts(rows: seq<Row>): (vc: seq<ValueCount>)
    ensures SortedByCount(vc) && DistinctValues(vc)
    ensures forall i :: 0 <= i < |vc| ==> vc[i].count == Occurrences(Series(rows, Location), vc[i].value) > 0
    ensures forall k :: 0 <= k < |rows| && rows[k].location.Text? ==>
              exists i :: 0 <= i < |vc| && vc[i].value == rows[k].location.value
  {
    ValueCounts(Series(rows, Location))
  }

  /**
   * On a table whose rows are clean the treatment tally lists each status
   * once, at most the three labels, and accounts for every row.
   */
  lemma TreatmentCountsOfClean(rows: seq<Row>)
    requires forall k :: 0 <= k < |rows| ==> IsClean(rows[k])
    ensures var vc := TreatmentCounts(rows);
      && |vc| <= |TreatedLabels|
      && (forall i :: 0 <= i < |vc| ==> vc[i].value in TreatedLabels)
      && Total(vc) == |rows|
  {
    var col := Series(rows, Treated);
    var vc := ValueCounts(col);
    forall i | 0 <= i < |vc| ensures vc[i].value in TreatedLabels {
      OccurrencesPositive(col, vc[i].value);
      var k :| 0 <= k < |col| && col[k] == Text(vc[i].value);
      assert IsClean(rows[k]);
    }
    DistinctValuesBound(vc, TreatedLabels);
    ValueCountsTotal(col);
    PresentCountBound(col);
  }

  /**
   * Since no Treated cell is missing after cleaning, the treatment tally of
   * the cleaned table accounts for every cleaned row.
   */
  lemma TreatmentCountsOfCleaned(rows: seq<Row>)
    ensures var vc := TreatmentCounts(CleanRows(rows));
      && |vc| <= |TreatedLabels|
      && (forall i :: 0 <= i < |vc| ==> vc[i].value in TreatedLabels)
      && Total(vc) == |CleanRows(rows)|
  {
    TreatmentCountsOfClean(CleanRows(rows));
  }

  /**
   * The location tally skips rows without a Location, so it accounts for at
   * most every row, and exactly the rows whose Location is present.
   */
  lemma LocationCountsTotal(rows: seq<Row>)
    ensures Total(LocationCounts(rows)) == PresentCount(Series(rows, Location))
    ensures Total(LocationCounts(rows)) <= |rows|
  {
    ValueCountsTotal(Series(rows, Location));
  }
}
