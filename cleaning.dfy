/**
 * The cleaning step of the dashboard: drop re-embedded header rows, default
 * a missing Test Result to "Unknown", and relabel the Treated and EPT flags.
 */
module Cleaning {
  import opened Wrappers
  import opened Cells
  import opened Schema

  const HeaderLabel: string := "Timestamp"
  const UnknownLabel: string := "Unknown"

  const TreatedMap: map<string, string> := map["True" := "Treated", "False" := "Not Treated"]
  const EptMap: map<string, string> := map["True" := "EPT Provided", "False" := "No EPT"]

  const TreatedLabels: set<string> := {"Treated", "Not Treated", "Unknown"}
  const EptLabels: set<string> := {"EPT Provided", "No EPT", "Unknown"}

  // ---------------------------------------------------------------------------
  // Header-row filter

  /**
   * A row the filter removes: its Timestamp is a string containing "Timestamp".
   * A missing Timestamp counts as not containing it.
   */
  predicate IsHeaderRow(r: Row)
  {
    r.timestamp.Text? && Contains(r.timestamp.value, HeaderLabel)
  }

  /** `data[~data["Timestamp"].str.contains("Timestamp", na=False)]` */
  function DropHeaderRows(rows: seq<Row>): (kept: seq<Row>)
    ensures |kept| <= |rows|
    ensures forall k :: 0 <= k < |kept| ==> kept[k] in rows && !IsHeaderRow(kept[k])
    ensures forall i :: 0 <= i < |rows| && !IsHeaderRow(rows[i]) ==> rows[i] in kept
  {
    if rows == [] then []
    else (if IsHeaderRow(rows[0]) then [] else [rows[0]]) + DropHeaderRows(rows[1..])
  }

  /** The filter distributes over concatenation, so kept rows keep their relative order. */
  lemma {:induction false} DropHeaderRowsAppend(a: seq<Row>, b: seq<Row>)
    ensures DropHeaderRows(a + b) == DropHeaderRows(a) + DropHeaderRows(b)
  {
    if a == [] {
      assert a + b == b;
    } else {
      assert (a + b)[1..] == a[1..] + b;
      DropHeaderRowsAppend(a[1..], b);
    }
  }

  /**
   * The filter neither duplicates nor invents rows: each non-header row is
   * kept exactly as often as it occurs, each header row not at all.
   */
  lemma {:induction false} DropHeaderRowsMultiplicity(rows: seq<Row>, r: Row)
    ensures multiset(DropHeaderRows(rows))[r] == if IsHeaderRow(r) then 0 else multiset(rows)[r]
  {
    if rows != [] {
      var head := if IsHeaderRow(rows[0]) then [] else [rows[0]];
      var tail := DropHeaderRows(rows[1..]);
      DropHeaderRowsMultiplicity(rows[1..], r);
      assert DropHeaderRows(rows) == head + tail;
      assert multiset(head + tail) == multiset(head) + multiset(tail);
      assert rows == [rows[0]] + rows[1..];
      assert multiset(rows) == multiset{rows[0]} + multiset(rows[1..]);
    }
  }

  /** The positions at or after `from`, in increasing order, of the rows the filter keeps. */
  function KeptFrom(rows: seq<Row>, from: nat): (idx: seq<nat>)
    requires from <= |rows|
    ensures forall k :: 0 <= k < |idx| ==> from <= idx[k] < |rows|
    ensures forall k, l :: 0 <= k < l < |idx| ==> idx[k] < idx[l]
    ensures forall i :: from <= i < |rows| ==> (i in idx <==> !IsHeaderRow(rows[i]))
    decreases |rows| - from
  {
    if from == |rows| then []
    else (if IsHeaderRow(rows[from]) then [] else [from]) + KeptFrom(rows, from + 1)
  }

  /** The positions, in increasing order, of the rows the filter keeps. */
  function KeptIndices(rows: seq<Row>): seq<nat>
  {
    KeptFrom(rows, 0)
  }

  /** Reading `rows` at positions `k` gives `d`, so reading it at `[from] + k` gives `[rows[from]] + d`. */
  lemma PrependAt(rows: seq<Row>, from: nat, d: seq<Row>, k: seq<nat>)
    requires from < |rows| && |d| == |k|
    requires forall j :: 0 <= j < |k| ==> k[j] < |rows| && d[j] == rows[k[j]]
    ensures forall j :: 0 <= j < |k| + 1 ==> ([from] + k)[j] < |rows| && ([rows[from]] + d)[j] == rows[([from] + k)[j]]
  {
    forall j | 0 < j < |k| + 1
      ensures ([from] + k)[j] < |rows| && ([rows[from]] + d)[j] == rows[([from] + k)[j]]
    {
      assert ([rows[from]] + d)[j] == d[j - 1];
      assert ([from] + k)[j] == k[j - 1];
    }
  }

  lemma {:induction false} DropHeaderRowsFrom(rows: seq<Row>, from: nat)
    requires from <= |rows|
    ensures |DropHeaderRows(rows[from..])| == |KeptFrom(rows, from)|
    ensures forall k :: 0 <= k < |KeptFrom(rows, from)| ==>
              DropHeaderRows(rows[from..])[k] == rows[KeptFrom(rows, from)[k]]
    decreases |rows| - from
  {
    if from < |rows| {
      var t := rows[from..];
      assert t[0] == rows[from] && t[1..] == rows[from + 1..];
      DropHeaderRowsFrom(rows, from + 1);
      var d, k := DropHeaderRows(rows[from + 1..]), KeptFrom(rows, from + 1);
      if IsHeaderRow(rows[from]) {
        assert DropHeaderRows(t) == d;
        assert KeptFrom(rows, from) == k;
      } else {
        assert DropHeaderRows(t) == [rows[from]] + d;
        assert KeptFrom(rows, from) == [from] + k;
        PrependAt(rows, from, d, k);
      }
    }
  }

  /**
   * The filter's result is exactly the input read at the kept positions: an
   * order-preserving subsequence holding every row that is not a header row.
   */
  lemma DropHeaderRowsAt(rows: seq<Row>)
    ensures |DropHeaderRows(rows)| == |KeptIndices(rows)|
    ensures forall k :: 0 <= k < |KeptIndices(rows)| ==>
              DropHeaderRows(rows)[k] == rows[KeptIndices(rows)[k]]
  {
    assert rows[0..] == rows;
    DropHeaderRowsFrom(rows, 0);
  }

  lemma {:induction false} KeptFromOnlyTimestamps(rows: seq<Row>, rows': seq<Row>, from: nat)
    requires from <= |rows| == |rows'|
    requires forall i :: 0 <= i < |rows| ==> rows[i].timestamp == rows'[i].timestamp
    ensures KeptFrom(rows, from) == KeptFrom(rows', from)
    decreases |rows| - from
  {
    if from < |rows| {
      KeptFromOnlyTimestamps(rows, rows', from + 1);
      assert rows[from].timestamp == rows'[from].timestamp;
      if IsHeaderRow(rows[from]) {
        assert IsHeaderRow(rows'[from]);
      } else {
        assert !IsHeaderRow(rows'[from]);
      }
    }
  }

  /** Which rows survive depends on the Timestamp column alone. */
  lemma KeptIndicesOnlyTimestamps(rows: seq<Row>, rows': seq<Row>)
    requires |rows| == |rows'|
    requires forall i :: 0 <= i < |rows| ==> rows[i].timestamp == rows'[i].timestamp
    ensures KeptIndices(rows) == KeptIndices(rows')
  {
    KeptFromOnlyTimestamps(rows, rows', 0);
  }

  // ---------------------------------------------------------------------------
  // Column rewrites

  /** `fillna("Unknown")` on one Test Result cell. */
  function TestResultCell(c: Cell): (r: Cell)
    ensures r.Text?
    ensures c.Missing? ==> r == Text(UnknownLabel)
    ensures c.Text? ==> r == c
  {
    FillNa(c, UnknownLabel)
  }

  /** `map({"True": "Treated", "False": "Not Treated"}).fillna("Unknown")` on one cell. */
  function TreatedCell(c: Cell): (r: Cell)
    ensures r.Text? && r.value in TreatedLabels
    ensures r == Text("Treated") <==> c == Text("True")
    ensures r == Text("Not Treated") <==> c == Text("False")
    ensures r == Text(UnknownLabel) <==> c != Text("True") && c != Text("False")
  {
    FillNa(MapLookup(TreatedMap, c), UnknownLabel)
  }

  /** `map({"True": "EPT Provided", "False": "No EPT"}).fillna("Unknown")` on one cell. */
  function EptCell(c: Cell): (r: Cell)
    ensures r.Text? && r.value in EptLabels
    ensures r == Text("EPT Provided") <==> c == Text("True")
    ensures r == Text("No EPT") <==> c == Text("False")
    ensures r == Text(UnknownLabel) <==> c != Text("True") && c != Text("False")
  {
    FillNa(MapLookup(EptMap, c), UnknownLabel)
  }

  /** `data["Test Result"] = data["Test Result"].fillna("Unknown")` */
  function FillTestResult(rows: seq<Row>): (out: seq<Row>)
    ensures |out| == |rows|
    ensures forall i :: 0 <= i < |rows| ==> out[i].testResult.Text?
    ensures forall i :: 0 <= i < |rows| && rows[i].testResult.Text? ==> out[i].testResult == rows[i].testResult
    ensures forall i :: 0 <= i < |rows| ==> out[i].testResult == TestResultCell(rows[i].testResult)
    ensures forall i, c :: 0 <= i < |rows| && c != TestResult ==> Get(out[i], c) == Get(rows[i], c)
  {
    seq(|rows|, i requires 0 <= i < |rows| =>
      rows[i].(testResult := TestResultCell(rows[i].testResult)))
  }

  /** `data["Treated"] = data["Treated"].map(...).fillna("Unknown")` */
  function MapTreated(rows: seq<Row>): (out: seq<Row>)
    ensures |out| == |rows|
    ensures forall i :: 0 <= i < |rows| ==> out[i].treated.Text? && out[i].treated.value in TreatedLabels
    ensures forall i :: 0 <= i < |rows| ==> out[i].treated == TreatedCell(rows[i].treated)
    ensures forall i, c :: 0 <= i < |rows| && c != Treated ==> Get(out[i], c) == Get(rows[i], c)
  {
    seq(|rows|, i requires 0 <= i < |rows| => rows[i].(treated := TreatedCell(rows[i].treated)))
  }

  /** `data["EPT"] = data["EPT"].map(...).fillna("Unknown")` */
  function MapEpt(rows: seq<Row>): (out: seq<Row>)
    ensures |out| == |rows|
    ensures forall i :: 0 <= i < |rows| ==> out[i].ept.Text? && out[i].ept.value in EptLabels
    ensures forall i :: 0 <= i < |rows| ==> out[i].ept == EptCell(rows[i].ept)
    ensures forall i, c :: 0 <= i < |rows| && c != Ept ==> Get(out[i], c) == Get(rows[i], c)
  {
    seq(|rows|, i requires 0 <= i < |rows| => rows[i].(ept := EptCell(rows[i].ept)))
  }

  /** What the three column rewrites do to one row. */
  function CleanRow(r: Row): (out: Row)
    ensures out.testResult.Text? && (r.testResult.Text? ==> out.testResult == r.testResult)
    ensures out.treated.Text? && out.treated.value in TreatedLabels
    ensures out.ept.Text? && out.ept.value in EptLabels
    ensures out.testResult == TestResultCell(r.testResult)
    ensures out.treated == TreatedCell(r.treated) && out.ept == EptCell(r.ept)
    ensures forall c :: c !in {TestResult, Treated, Ept} ==> Get(out, c) == Get(r, c)
  {
    r.(testResult := TestResultCell(r.testResult),
       treated := TreatedCell(r.treated),
       ept := EptCell(r.ept))
  }

  /** A row as it leaves the cleaning step. */
  predicate IsClean(r: Row)
  {
    && !IsHeaderRow(r)
    && r.testResult.Text?
    && r.treated.Text? && r.treated.value in TreatedLabels
    && r.ept.Text? && r.ept.value in EptLabels
  }

  /** Lines 25-28 applied in order to the renamed table. */
  function CleanRows(rows: seq<Row>): (out: seq<Row>)
    ensures |out| == |KeptIndices(rows)|
    ensures forall k :: 0 <= k < |out| ==> out[k] == CleanRow(rows[KeptIndices(rows)[k]])
    ensures forall k :: 0 <= k < |out| ==> IsClean(out[k])
  {
    DropHeaderRowsAt(rows);
    MapEpt(MapTreated(FillTestResult(DropHeaderRows(rows))))
  }

  /** The whole cleaning script: rename, then lines 25-28. */
  function Clean(f: RawFrame): (r: Result<seq<Row>, RenameError>)
    requires Rectangular(f)
    ensures r.Ok? <==> |f.header| == |Columns|
    ensures r.Err? ==> r.error == LengthMismatch(|f.header|, |Columns|)
    ensures r.Ok? ==> r.value == CleanRows(Rename(f).value)
    ensures r.Ok? ==> |r.value| <= |f.rows| && forall k :: 0 <= k < |r.value| ==> IsClean(r.value[k])
  {
    match Rename(f)
    case Err(e) => Err(e)
    case Ok(rows) => Ok(CleanRows(rows))
  }

  // ---------------------------------------------------------------------------
  // Properties

  /**
   * Each cleaned column depends only on the same column of the input row:
   * changing one cell changes at most that column of the output.
   */
  lemma CleanRowColumnwise(r: Row, r': Row, c: Column)
    requires Get(r, c) == Get(r', c)
    ensures Get(CleanRow(r), c) == Get(CleanRow(r'), c)
  {
  }

  /** The five columns the cleaning does not rewrite pass through unchanged. */
  lemma CleanRowKeepsOtherColumns(r: Row, c: Column)
    requires c !in {TestResult, Treated, Ept}
    ensures Get(CleanRow(r), c) == Get(r, c)
  {
  }

  /**
   * Cleaning works row by row: cleaning two tables one after the other gives
   * the cleaned halves in the same order.
   */
  lemma {:induction false} CleanRowsAppend(a: seq<Row>, b: seq<Row>)
    ensures CleanRows(a + b) == CleanRows(a) + CleanRows(b)
  {
    DropHeaderRowsAppend(a, b);
    var ka, kb := DropHeaderRows(a), DropHeaderRows(b);
    FillTestResultAppend(ka, kb);
    MapTreatedAppend(FillTestResult(ka), FillTestResult(kb));
    MapEptAppend(MapTreated(FillTestResult(ka)), MapTreated(FillTestResult(kb)));
  }

  lemma FillTestResultAppend(a: seq<Row>, b: seq<Row>)
    ensures FillTestResult(a + b) == FillTestResult(a) + FillTestResult(b)
  {
    assert forall i :: 0 <= i < |a + b| ==> FillTestResult(a + b)[i] == (FillTestResult(a) + FillTestResult(b))[i];
  }

  lemma MapTreatedAppend(a: seq<Row>, b: seq<Row>)
    ensures MapTreated(a + b) == MapTreated(a) + MapTreated(b)
  {
    assert forall i :: 0 <= i < |a + b| ==> MapTreated(a + b)[i] == (MapTreated(a) + MapTreated(b))[i];
  }

  lemma MapEptAppend(a: seq<Row>, b: seq<Row>)
    ensures MapEpt(a + b) == MapEpt(a) + MapEpt(b)
  {
    assert forall i :: 0 <= i < |a + b| ==> MapEpt(a + b)[i] == (MapEpt(a) + MapEpt(b))[i];
  }

  // ---------------------------------------------------------------------------
  // Scenarios

  /** A header line repeated inside the data is removed entirely. */
  lemma RepeatedHeaderDropped()
    ensures var header := FromCells(seq(|Columns|, i requires 0 <= i < |Columns| => Text(ColumnNames()[i])));
      CleanRows([header]) == []
  {
    var header := FromCells(seq(|Columns|, i requires 0 <= i < |Columns| => Text(ColumnNames()[i])));
    assert header.timestamp == Text(ColumnNames()[0]) == Text(Name(Timestamp));
    assert StartsWith(header.timestamp.value, HeaderLabel);
  }

  /** The test is a substring test, not an equality: a decorated header is dropped too. */
  lemma DecoratedHeaderDropped(r: Row)
    requires r.timestamp == Text("Form Timestamp (GMT)")
    ensures CleanRows([r]) == []
  {
    assert IsHeaderRow(r) by {
      var ts := "Form Timestamp (GMT)";
      assert ts[5..14] == HeaderLabel;
      assert OccursAt(ts, HeaderLabel, 5);
      ContainsIff(ts, HeaderLabel);
    }
    assert [r][1..] == [];
    assert DropHeaderRows([r]) == [];
  }

  /** A single row that is not a header row comes out as its cleaned self. */
  lemma ResponseCleaned(r: Row)
    requires !IsHeaderRow(r)
    ensures CleanRows([r]) == [CleanRow(r)]
  {
    assert !IsHeaderRow([r][0]);
    assert KeptFrom([r], 1) == [];
    assert KeptIndices([r]) == [0] + KeptFrom([r], 1);
  }

  /** A typical response row: a blank Test Result and the two flag strings. */
  lemma TypicalRowCleaned()
    ensures
      var raw := Row(Text("1/5/2024 9:30:00"), Text("ClinicA"), Missing, Text("2024-01-05"),
                     Text("JD"), Missing, Text("True"), Text("False"));
      CleanRows([raw])
        == [raw.(testResult := Text("Unknown"), treated := Text("Treated"), ept := Text("No EPT"))]
  {
    var raw := Row(Text("1/5/2024 9:30:00"), Text("ClinicA"), Missing, Text("2024-01-05"),
                   Text("JD"), Missing, Text("True"), Text("False"));
    NotContainsWithoutFirstChar("1/5/2024 9:30:00", HeaderLabel);
    ResponseCleaned(raw);
    assert CleanRow(raw) == raw.(testResult := Text("Unknown"), treated := Text("Treated"), ept := Text("No EPT"));
  }

  /** A header row followed by a response: only the cleaned response remains. */
  lemma HeaderThenResponseCleaned(h: Row, r: Row)
    requires IsHeaderRow(h) && !IsHeaderRow(r)
    ensures CleanRows([h, r]) == [CleanRow(r)]
  {
    assert [h, r][1..] == [r];
    assert DropHeaderRows([h, r]) == [r];
  }

  /** A missing Treated cell and an EPT cell other than "True"/"False" both become "Unknown". */
  lemma UnmappedFlagsCleaned(r: Row)
    requires r.testResult.Text? && r.treated == Missing && r.ept == Text("yes")
    ensures CleanRow(r) == r.(treated := Text("Unknown"), ept := Text("Unknown"))
  {
  }

  /**
   * The whole script on an export whose header line was pasted into the data
   * once more: the sheet's own labels are replaced, that line is gone and the
   * response is cleaned.
   */
  lemma FrameWithRepeatedHeaderCleaned(f: RawFrame)
    requires |f.header| == |Columns| && |f.rows| == 2
    requires f.rows[0] == [Text("Timestamp"), Text("Location"), Text("Notes"),
                           Text("Date of Sample Collection"), Text("Patient Initials"),
                           Text("Test Result"), Text("Treated"), Text("EPT")]
    requires f.rows[1] == [Text("1/5/2024 9:30:00"), Text("ClinicA"), Missing, Text("2024-01-05"),
                           Text("JD"), Text("Positive"), Missing, Text("yes")]
    ensures Rectangular(f)
    ensures Clean(f) == Ok([Row(Text("1/5/2024 9:30:00"), Text("ClinicA"), Missing, Text("2024-01-05"),
                                Text("JD"), Text("Positive"), Text("Unknown"), Text("Unknown"))])
  {
    var h, r := FromCells(f.rows[0]), FromCells(f.rows[1]);
    var renamed := Rename(f).value;
    assert |renamed| == 2 && renamed[0] == h && renamed[1] == r;
    assert renamed == [h, r];
    assert IsHeaderRow(h) by {
      assert StartsWith(h.timestamp.value, HeaderLabel);
    }
    NotContainsWithoutFirstChar(r.timestamp.value, HeaderLabel);
    HeaderThenResponseCleaned(h, r);
    assert Clean(f) == Ok([CleanRow(r)]);
    UnmappedFlagsCleaned(r);
  }
}
