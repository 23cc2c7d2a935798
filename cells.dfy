/**
 * One cell of the response table and the element-wise pandas operations the
 * cleaning step applies to a column: `fillna`, `map` with a dictionary, and
 * the literal substring test of `str.contains`.
 */
module Cells {

  /** A cell as read from the sheet: a string, or missing (pandas NaN). */
  datatype Cell = Missing | Text(value: string)

  /** `Series.fillna(default)` on one cell: a missing cell becomes `default`. */
  function FillNa(c: Cell, default: string): (r: Cell)
    ensures r.Text?
    ensures c.Text? ==> r == c
    ensures c.Missing? ==> r.value == default
  {
    if c.Missing? then Text(default) else c
  }

  /**
   * `Series.map(m)` with a dictionary on one cell: a string that is a key of
   * `m` becomes its value; every other cell, missing ones included, becomes NaN.
   */
  function MapLookup(m: map<string, string>, c: Cell): (r: Cell)
    ensures r.Text? <==> c.Text? && c.value in m
    ensures r.Text? ==> r.value == m[c.value]
  {
    if c.Text? && c.value in m then Text(m[c.value]) else Missing
  }

  predicate StartsWith(s: string, p: string)
  {
    |p| <= |s| && s[..|p|] == p
  }

  /** `p` occurs in `s` starting at position `i`. */
  ghost predicate OccursAt(s: string, p: string, i: int)
  {
    0 <= i && i + |p| <= |s| && s[i..i + |p|] == p
  }

  /**
   * `str.contains(p)` for a pattern without regular-expression
   * metacharacters: is `p` a substring of `s`?
   */
  function Contains(s: string, p: string): (r: bool)
    ensures StartsWith(s, p) ==> r
    ensures r ==> |p| <= |s|
  {
    StartsWith(s, p) || (|s| > 0 && Contains(s[1..], p))
  }

  /** Contains is exactly "occurs at some position", in both directions. */
  lemma {:induction false} ContainsIff(s: string, p: string)
    ensures Contains(s, p) <==> exists i :: OccursAt(s, p, i)
  {
    if StartsWith(s, p) {
      assert OccursAt(s, p, 0);
    } else if |s| > 0 {
      ContainsIff(s[1..], p);
      if Contains(s[1..], p) {
        var i :| OccursAt(s[1..], p, i);
        assert s[1..][i..i + |p|] == s[i + 1..i + 1 + |p|];
        assert OccursAt(s, p, i + 1);
      } else {
        forall i | 0 < i && i + |p| <= |s| ensures !OccursAt(s, p, i) {
          assert s[1..][i - 1..i - 1 + |p|] == s[i..i + |p|];
          assert !OccursAt(s[1..], p, i - 1);
        }
        assert !OccursAt(s, p, 0);
      }
    }
  }

  /** A string without the first character of a non-empty pattern cannot contain it. */
  lemma {:induction false} NotContainsWithoutFirstChar(s: string, p: string)
    requires |p| > 0 && p[0] !in s
    ensures !Contains(s, p)
  {
    if |p| <= |s| {
      assert s[..|p|][0] == s[0];
    }
    if |s| > 0 {
      assert forall k :: 0 <= k < |s[1..]| ==> s[1..][k] == s[k + 1];
      NotContainsWithoutFirstChar(s[1..], p);
    }
  }
}
