/**
 * `Series.value_counts()`: one (value, count) pair per distinct non-missing
 * value of a column, highest count first.
 */
module Tallies {
  import opened Cells

  /** One row of the frame `value_counts().reset_index(name="Count")` produces. */
  datatype ValueCount = ValueCount(value: string, count: nat)

  /** How many cells of `col` hold the string `v`. */
  function Occurrences(col: seq<Cell>, v: string): nat
  {
    if col == [] then 0
    else (if col[0] == Text(v) then 1 else 0) + Occurrences(col[1..], v)
  }

  /** How many cells of `col` are not missing. */
  function PresentCount(col: seq<Cell>): nat
  {
    if col == [] then 0
    else (if col[0].Text? then 1 else 0) + PresentCount(col[1..])
  }

  lemma {:induction false} OccurrencesPositive(col: seq<Cell>, v: string)
    ensures Occurrences(col, v) > 0 <==> Text(v) in col
  {
    if col != [] {
      OccurrencesPositive(col[1..], v);
      assert col == [col[0]] + col[1..];
    }
  }

  lemma {:induction false} PresentCountBound(col: seq<Cell>)
    ensures PresentCount(col) <= |col|
    ensures PresentCount(col) == |col| <==> forall i :: 0 <= i < |col| ==> col[i].Text?
  {
    if col != [] {
      PresentCountBound(col[1..]);
      assert forall i :: 1 <= i < |col| ==> col[i] == col[1..][i - 1];
    }
  }

  /** `ds` without any copy of `x`, in the same order. */
  function Remove(ds: seq<string>, x: string): (r: seq<string>)
    ensures forall v :: v in r <==> v in ds && v != x
  {
    if ds == [] then []
    else if ds[0] == x then Remove(ds[1..], x)
    else [ds[0]] + Remove(ds[1..], x)
  }

  predicate NoDuplicates(ds: seq<string>)
  {
    forall i, j :: 0 <= i < j < |ds| ==> ds[i] != ds[j]
  }

  /** Prepending a value that is not yet listed keeps a list duplicate-free. */
  lemma PrependDistinct(x: string, ds: seq<string>)
    requires NoDuplicates(ds)
    requires x !in ds
    ensures NoDuplicates([x] + ds)
  {
    var r := [x] + ds;
    forall i, j | 0 <= i < j < |r| ensures r[i] != r[j] {
      assert r[j] == ds[j - 1];
      if i > 0 {
        assert r[i] == ds[i - 1];
      }
    }
  }

  lemma {:induction false} RemoveDistinct(ds: seq<string>, x: string)
    requires NoDuplicates(ds)
    ensures NoDuplicates(Remove(ds, x))
  {
    if ds != [] {
      RemoveDistinct(ds[1..], x);
      if ds[0] != x {
        forall v | v in ds[1..] ensures v != ds[0] {
          var k :| 0 <= k < |ds[1..]| && ds[1..][k] == v;
          assert ds[k + 1] == v;
        }
        PrependDistinct(ds[0], Remove(ds[1..], x));
      }
    }
  }

  /** The distinct non-missing values of `col`, each once, in the order they first appear. */
  function Distinct(col: seq<Cell>): (ds: seq<string>)
    ensures NoDuplicates(ds)
    ensures forall v :: v in ds <==> Text(v) in col
  {
    if col == [] then []
    else
      var rest := Distinct(col[1..]);
      assert col == [col[0]] + col[1..];
      if col[0].Text? then
        RemoveDistinct(rest, col[0].value);
        PrependDistinct(col[0].value, Remove(rest, col[0].value));
        [col[0].value] + Remove(rest, col[0].value)
      else rest
  }

  /** Pairs each value of `ds` with its number of occurrences in `col`. */
  function TallyOf(ds: seq<string>, col: seq<Cell>): (t: seq<ValueCount>)
    ensures |t| == |ds|
    ensures forall i :: 0 <= i < |ds| ==> t[i] == ValueCount(ds[i], Occurrences(col, ds[i]))
  {
    if ds == [] then [] else [ValueCount(ds[0], Occurrences(col, ds[0]))] + TallyOf(ds[1..], col)
  }

  /** The sum of the counts. */
  function Total(vcs: seq<ValueCount>): nat
  {
    if vcs == [] then 0 else vcs[0].count + Total(vcs[1..])
  }

  predicate SortedByCount(vcs: seq<ValueCount>)
  {
    forall i, j :: 0 <= i < j < |vcs| ==> vcs[i].count >= vcs[j].count
  }

  predicate DistinctValues(vcs: seq<ValueCount>)
  {
    forall i, j :: 0 <= i < j < |vcs| ==> vcs[i].value != vcs[j].value
  }

  /** Inserts `p` before the first entry whose count is not larger. */
  function Insert(p: ValueCount, s: seq<ValueCount>): seq<ValueCount>
  {
    if s == [] || p.count >= s[0].count then [p] + s
    else [s[0]] + Insert(p, s[1..])
  }

  lemma {:induction false} InsertSorted(p: ValueCount, s: seq<ValueCount>)
    requires SortedByCount(s)
    ensures SortedByCount(Insert(p, s))
    ensures Insert(p, s)[0] == p || (s != [] && Insert(p, s)[0] == s[0])
  {
    if s != [] && p.count < s[0].count {
      InsertSorted(p, s[1..]);
    }
  }

  lemma {:induction false} InsertPermutes(p: ValueCount, s: seq<ValueCount>)
    ensures multiset(Insert(p, s)) == multiset(s) + multiset{p}
    ensures Total(Insert(p, s)) == Total(s) + p.count
  {
    if s != [] && p.count < s[0].count {
      InsertPermutes(p, s[1..]);
      assert s == [s[0]] + s[1..];
      assert ([s[0]] + Insert(p, s[1..]))[1..] == Insert(p, s[1..]);
    }
  }

  /** The entries after insertion are `p` and the entries of `s`. */
  lemma {:induction false} InsertMembers(p: ValueCount, s: seq<ValueCount>)
    ensures forall x :: x in Insert(p, s) <==> x == p || x in s
  {
    if s != [] && p.count < s[0].count {
      InsertMembers(p, s[1..]);
      assert s == [s[0]] + s[1..];
    }
  }

  lemma {:induction false} InsertDistinct(p: ValueCount, s: seq<ValueCount>)
    requires DistinctValues(s)
    requires forall x :: x in s ==> x.value != p.value
    ensures DistinctValues(Insert(p, s))
  {
    if s == [] || p.count >= s[0].count {
      var r := [p] + s;
      forall i, j | 0 <= i < j < |r| ensures r[i].value != r[j].value {
        assert r[j] == s[j - 1];
        if i > 0 {
          assert r[i] == s[i - 1];
        }
      }
    } else {
      var tail := s[1..];
      assert DistinctValues(tail);
      assert forall x :: x in tail ==> x in s;
      InsertDistinct(p, tail);
      InsertMembers(p, tail);
      var rest := Insert(p, tail);
      assert forall x :: x in tail ==> x.value != s[0].value;
      var r := [s[0]] + rest;
      forall i, j | 0 <= i < j < |r| ensures r[i].value != r[j].value {
        assert r[j] == rest[j - 1];
        if i > 0 {
          assert r[i] == rest[i - 1];
        } else {
          assert rest[j - 1] in rest;
        }
      }
    }
  }

  /** Sorts by count, highest first; entries with equal counts keep their order. */
  function SortByCount(s: seq<ValueCount>): seq<ValueCount>
  {
    if s == [] then [] else Insert(s[0], SortByCount(s[1..]))
  }

  lemma {:induction false} SortByCountSorted(s: seq<ValueCount>)
    ensures SortedByCount(SortByCount(s))
  {
    if s != [] {
      SortByCountSorted(s[1..]);
      InsertSorted(s[0], SortByCount(s[1..]));
    }
  }

  /** Sorting permutes the entries, so it keeps their total. */
  lemma {:induction false} SortByCountPermutes(s: seq<ValueCount>)
    ensures multiset(SortByCount(s)) == multiset(s)
    ensures Total(SortByCount(s)) == Total(s)
  {
    if s != [] {
      SortByCountPermutes(s[1..]);
      InsertPermutes(s[0], SortByCount(s[1..]));
      assert s == [s[0]] + s[1..];
    }
  }

  lemma {:induction false} SortByCountDistinct(s: seq<ValueCount>)
    requires DistinctValues(s)
    ensures DistinctValues(SortByCount(s))
  {
    if s != [] {
      var rest := SortByCount(s[1..]);
      SortByCountDistinct(s[1..]);
      SortByCountPermutes(s[1..]);
      forall x | x in rest ensures x.value != s[0].value {
        assert x in multiset(s[1..]);
      }
      InsertDistinct(s[0], rest);
    }
  }

  /** The count pairs before sorting: one per distinct value, in the order values first appear. */
  function Tally(col: seq<Cell>): seq<ValueCount>
  {
    TallyOf(Distinct(col), col)
  }

  /** An entry of the tally holds a present value and its number of occurrences. */
  lemma TallyEntries(col: seq<Cell>, x: ValueCount)
    requires x in Tally(col)
    ensures x.count == Occurrences(col, x.value) > 0
  {
    OccurrencesPositive(col, x.value);
  }

  /** `value_counts()` of a column: missing cells are not counted. */
  function ValueCounts(col: seq<Cell>): (vc: seq<ValueCount>)
    ensures SortedByCount(vc)
    ensures DistinctValues(vc)
    ensures forall i :: 0 <= i < |vc| ==> vc[i].count == Occurrences(col, vc[i].value) > 0
    ensures forall v :: Text(v) in col <==> exists i :: 0 <= i < |vc| && vc[i].value == v
  {
    var t := Tally(col);
    SortByCountSorted(t);
    SortByCountPermutes(t);
    SortByCountDistinct(t);
    ValueCountsEntries(col);
    SortByCount(t)
  }

  lemma ValueCountsEntries(col: seq<Cell>)
    ensures forall i :: 0 <= i < |SortByCount(Tally(col))| ==>
      SortByCount(Tally(col))[i].count == Occurrences(col, SortByCount(Tally(col))[i].value) > 0
    ensures forall v :: Text(v) in col <==>
      exists i :: 0 <= i < |SortByCount(Tally(col))| && SortByCount(Tally(col))[i].value == v
  {
    var t := Tally(col);
    var vc := SortByCount(t);
    SortByCountPermutes(t);
    forall i | 0 <= i < |vc| ensures vc[i].count == Occurrences(col, vc[i].value) > 0 {
      assert vc[i] in multiset(t);
      TallyEntries(col, vc[i]);
    }
    forall v | Text(v) in col ensures exists i :: 0 <= i < |vc| && vc[i].value == v {
      var ds := Distinct(col);
      var j :| 0 <= j < |ds| && ds[j] == v;
      assert t[j] in multiset(vc);
      var i :| 0 <= i < |vc| && vc[i] == t[j];
    }
    forall v | exists i :: 0 <= i < |vc| && vc[i].value == v ensures Text(v) in col {
      var i :| 0 <= i < |vc| && vc[i].value == v;
      assert vc[i] in multiset(t);
      TallyEntries(col, vc[i]);
      OccurrencesPositive(col, v);
    }
  }

  /** Prepending a cell adds one to the tally total exactly when its value is tallied. */
  lemma {:induction false} TallyOfPrepend(ds: seq<string>, c: Cell, col: seq<Cell>)
    requires NoDuplicates(ds)
    ensures Total(TallyOf(ds, [c] + col))
         == Total(TallyOf(ds, col)) + (if c.Text? && c.value in ds then 1 else 0)
  {
    assert ([c] + col)[1..] == col;
    if ds != [] {
      TallyOfPrepend(ds[1..], c, col);
      assert TallyOf(ds, [c] + col)[1..] == TallyOf(ds[1..], [c] + col);
      assert TallyOf(ds, col)[1..] == TallyOf(ds[1..], col);
      assert c.Text? && c.value in ds ==> (c.value == ds[0] <==> c.value !in ds[1..]);
    }
  }

  /** Removing `x` from a duplicate-free list of values takes its count out of the total. */
  lemma {:induction false} TallyOfRemove(ds: seq<string>, x: string, col: seq<Cell>)
    requires NoDuplicates(ds)
    ensures Total(TallyOf(ds, col))
         == Total(TallyOf(Remove(ds, x), col)) + (if x in ds then Occurrences(col, x) else 0)
  {
    if ds != [] {
      TallyOfRemove(ds[1..], x, col);
      assert TallyOf(ds, col)[1..] == TallyOf(ds[1..], col);
      if ds[0] != x {
        var r := Remove(ds[1..], x);
        assert TallyOf([ds[0]] + r, col)[1..] == TallyOf(r, col);
      }
    }
  }

  /** Every non-missing cell is counted once: the tally sums to the present cells. */
  lemma {:induction false} TallyTotal(col: seq<Cell>)
    ensures Total(Tally(col)) == PresentCount(col)
  {
    if col != [] {
      var c, rest := col[0], col[1..];
      assert col == [c] + rest;
      var d := Distinct(rest);
      TallyTotal(rest);
      if c.Text? {
        var x := c.value;
        var r := Remove(d, x);
        TallyOfRemove(d, x, rest);
        RemoveDistinct(d, x);
        TallyOfPrepend(r, c, rest);
        OccurrencesPositive(rest, x);
        assert Tally(col) == [ValueCount(x, Occurrences(col, x))] + TallyOf(r, col);
        assert Tally(col)[1..] == TallyOf(r, col);
      } else {
        TallyOfPrepend(d, c, rest);
      }
    }
  }

  /** The counts of `value_counts()` add up to the number of non-missing cells. */
  lemma ValueCountsTotal(col: seq<Cell>)
    ensures Total(ValueCounts(col)) == PresentCount(col)
    ensures Total(ValueCounts(col)) <= |col|
  {
    SortByCountPermutes(Tally(col));
    TallyTotal(col);
    PresentCountBound(col);
  }

  /** A duplicate-free list of values drawn from `labels` has at most `|labels|` entries. */
  lemma {:induction false} DistinctValuesBound(vcs: seq<ValueCount>, labels: set<string>)
    requires DistinctValues(vcs)
    requires forall i :: 0 <= i < |vcs| ==> vcs[i].value in labels
    ensures |vcs| <= |labels|
  {
    if vcs != [] {
      DistinctValuesBound(vcs[1..], labels - {vcs[0].value});
    }
  }

  /** Distinct lists values in the order they first appear. */
  lemma DistinctFirstAppearance()
    ensures Distinct([Text("a"), Text("b"), Text("b"), Text("a")]) == ["a", "b"]
  {
    var col := [Text("a"), Text("b"), Text("b"), Text("a")];
    assert col[1..] == [Text("b"), Text("b"), Text("a")];
    assert col[1..][1..] == [Text("b"), Text("a")];
    assert col[1..][1..][1..] == [Text("a")];
    assert Distinct(col[1..][1..][1..]) == ["a"] by {
      assert col[1..][1..][1..][1..] == [];
    }
    assert Remove(["a"], "b") == ["a"] by {
      assert ["a"][1..] == [];
    }
    assert Distinct(col[1..][1..]) == ["b", "a"];
    assert Remove(["b", "a"], "b") == ["a"] by {
      assert ["b", "a"][1..] == ["a"];
    }
    assert Distinct(col[1..]) == ["b", "a"];
    assert Remove(["b", "a"], "a") == ["b"] by {
      assert ["b", "a"][1..] == ["a"];
      assert ["a"][1..] == [];
    }
  }

  /** Sorting keeps entries with equal counts in their order. */
  lemma SortByCountStableOnTies(p: ValueCount, q: ValueCount)
    requires p.count == q.count
    ensures SortByCount([p, q]) == [p, q]
  {
    assert [p, q][1..] == [q];
    assert SortByCount([q]) == [q];
  }
}
