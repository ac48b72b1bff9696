/** The coordinate stream every converter reads: 1-based (row, col, value)
    triples in file order, and the row-change bookkeeping that all five
    converters share.  Every converter starts with "previous row" equal to
    the first row, so a row change at triple i means that row i differs from
    the row of triple i-1 (or from row 1 when i is 0). */
module Triples {

  datatype Triple = Triple(row: int, col: int, value: int)

  /** The row of triple i.  The two predicates below quantify over this
      term rather than over `t[i].row`, so that they are instantiated only
      where a proof names a row through it. */
  ghost function RowOf(t: seq<Triple>, i: int): (row: int)
    requires 0 <= i < |t|
  {
    t[i].row
  }

  /** Rows never decrease along the stream. */
  ghost predicate Sorted(t: seq<Triple>) {
    forall i, j :: 0 <= i < j < |t| ==> RowOf(t, i) <= RowOf(t, j)
  }

  /** Every row lies in [1, rows]. */
  ghost predicate InRange(t: seq<Triple>, rows: int) {
    forall i :: 0 <= i < |t| ==> 1 <= RowOf(t, i) <= rows
  }

  /** What every converter assumes of its input without checking it. */
  ghost predicate WellFormed(t: seq<Triple>, rows: int) {
    Sorted(t) && InRange(t, rows)
  }

  ghost predicate HasRow(t: seq<Triple>, r: int) {
    exists i :: 0 <= i < |t| && t[i].row == r
  }

  /** Every row 1..rows holds at least one triple. */
  ghost predicate NoEmptyRows(t: seq<Triple>, rows: int) {
    forall r :: 1 <= r <= rows ==> HasRow(t, r)
  }

  /** The converters' `previous_row` after n triples (1-based). */
  ghost function PrevRow(t: seq<Triple>, n: nat): (row: int)
    requires n <= |t|
  {
    if n == 0 then 1 else t[n - 1].row
  }

  /** Triple i starts a new row. */
  ghost predicate IsChange(t: seq<Triple>, i: nat)
    requires i < |t|
  {
    t[i].row != PrevRow(t, i)
  }

  /** Number of row changes among the first n triples. */
  ghost function Changes(t: seq<Triple>, n: nat): (c: nat)
    requires n <= |t|
    ensures c <= n
  {
    if n == 0 then 0 else Changes(t, n - 1) + (if IsChange(t, n - 1) then 1 else 0)
  }

  /** The triple indices of the row changes among the first n triples, in
      stream order. */
  ghost function ChangeIndices(t: seq<Triple>, n: nat): (c: seq<nat>)
    requires n <= |t|
    ensures |c| == Changes(t, n)
  {
    if n == 0 then []
    else if IsChange(t, n - 1) then ChangeIndices(t, n - 1) + [n - 1]
    else ChangeIndices(t, n - 1)
  }

  /** The converters' `current_col_len` / `nonzeroes_in_row` after n
      triples: the length of the run of equal rows that ends at triple n-1. */
  ghost function Run(t: seq<Triple>, n: nat): (k: nat)
    requires n <= |t|
    ensures k <= n
    ensures n > 0 ==> k >= 1
  {
    if n == 0 then 0 else if IsChange(t, n - 1) then 1 else Run(t, n - 1) + 1
  }

  /** Number of triples of s in row r. */
  ghost function RowCount(s: seq<Triple>, r: int): (count: nat) {
    if s == [] then 0 else RowCount(s[..|s| - 1], r) + (if s[|s| - 1].row == r then 1 else 0)
  }

  /** Number of triples of s in rows below r. */
  ghost function CountBelow(s: seq<Triple>, r: int): (count: nat) {
    if s == [] then 0 else CountBelow(s[..|s| - 1], r) + (if s[|s| - 1].row < r then 1 else 0)
  }

  lemma {:induction false} ChangesMonotone(t: seq<Triple>, m: nat, n: nat)
    requires m <= n <= |t|
    ensures Changes(t, m) <= Changes(t, n)
    ensures m < n && IsChange(t, m) ==> Changes(t, m) < Changes(t, n)
    decreases n
  {
    if m < n {
      ChangesMonotone(t, m, n - 1);
      if m < n - 1 {
        ChangesMonotone(t, m + 1, n - 1);
      }
    }
  }

  /** Sortedness at two given positions. */
  lemma SortedAt(t: seq<Triple>, i: nat, j: nat)
    requires Sorted(t) && i <= j < |t|
    ensures t[i].row <= t[j].row
  {
    if i < j {
      assert RowOf(t, i) <= RowOf(t, j);
    }
  }

  /** Range of one given row. */
  lemma RowInRange(t: seq<Triple>, rows: int, i: nat)
    requires InRange(t, rows) && i < |t|
    ensures 1 <= t[i].row <= rows
  {
    assert 1 <= RowOf(t, i) <= rows;
  }

  lemma SortedPrefix(t: seq<Triple>, n: nat)
    requires Sorted(t) && n <= |t|
    ensures Sorted(t[..n])
  {
    forall i, j | 0 <= i < j < n
      ensures RowOf(t[..n], i) <= RowOf(t[..n], j)
    {
      SortedAt(t, i, j);
    }
  }

  /** On sorted input a row change always moves to a larger row. */
  lemma ChangeIncreasesRow(t: seq<Triple>, rows: int, i: nat)
    requires WellFormed(t, rows) && i < |t|
    ensures t[i].row >= PrevRow(t, i)
    ensures IsChange(t, i) ==> t[i].row > PrevRow(t, i)
  {
    RowInRange(t, rows, i);
    if i > 0 {
      SortedAt(t, i - 1, i);
    }
  }

  /** Rows only grow, one change at a time, so the number of changes never
      exceeds the current row minus one. */
  lemma {:induction false} ChangesBound(t: seq<Triple>, rows: int, n: nat)
    requires WellFormed(t, rows) && n <= |t|
    ensures Changes(t, n) <= PrevRow(t, n) - 1
    ensures 1 <= PrevRow(t, n) && (|t| > 0 ==> PrevRow(t, n) <= rows)
  {
    if n > 0 {
      ChangesBound(t, rows, n - 1);
      ChangeIncreasesRow(t, rows, n - 1);
      RowInRange(t, rows, n - 1);
    } else if |t| > 0 {
      RowInRange(t, rows, 0);
    }
  }

  /** Some triple holds row r. */
  lemma RowWitness(t: seq<Triple>, r: int) returns (j: nat)
    requires HasRow(t, r)
    ensures j < |t| && t[j].row == r
  {
    j :| 0 <= j < |t| && t[j].row == r;
  }

  /** With no empty row, the first triple is in row 1 and every change moves
      to the very next row. */
  lemma NoGap(t: seq<Triple>, rows: int, i: nat)
    requires WellFormed(t, rows) && NoEmptyRows(t, rows) && i < |t|
    ensures t[i].row <= PrevRow(t, i) + 1
    ensures i == 0 ==> t[0].row == 1
  {
    RowInRange(t, rows, i);
    if i == 0 {
      var j := RowWitness(t, 1);
      SortedAt(t, 0, j);
      RowInRange(t, rows, 0);
    }
    var q := PrevRow(t, i);
    if i > 0 {
      RowInRange(t, rows, i - 1);
    }
    if q + 1 <= rows && q + 1 < t[i].row {
      var j := RowWitness(t, q + 1);
      if j < i {
        SortedAt(t, j, i - 1);
      } else {
        SortedAt(t, i, j);
      }
    }
  }

  /** With no empty row, the change count is exactly the current row minus one. */
  lemma {:induction false} DenseChanges(t: seq<Triple>, rows: int, n: nat)
    requires WellFormed(t, rows) && NoEmptyRows(t, rows) && n <= |t|
    ensures Changes(t, n) == PrevRow(t, n) - 1
  {
    if n > 0 {
      DenseChanges(t, rows, n - 1);
      NoGap(t, rows, n - 1);
      ChangeIncreasesRow(t, rows, n - 1);
    }
  }

  /** With no empty row, the stream ends in the last row. */
  lemma DenseLastRow(t: seq<Triple>, rows: int)
    requires WellFormed(t, rows) && NoEmptyRows(t, rows) && rows >= 1
    ensures |t| > 0 && t[|t| - 1].row == rows
  {
    var j := RowWitness(t, rows);
    SortedAt(t, j, |t| - 1);
    RowInRange(t, rows, |t| - 1);
  }

  lemma {:induction false} RowCountAbsent(s: seq<Triple>, r: int)
    requires forall i :: 0 <= i < |s| ==> s[i].row != r
    ensures RowCount(s, r) == 0
    decreases |s|
  {
    if s != [] {
      RowCountAbsent(s[..|s| - 1], r);
    }
  }

  /** Triples after position n that are not in row r do not change its count. */
  lemma {:induction false} RowCountSplit(t: seq<Triple>, n: nat, r: int)
    requires Sorted(t) && 0 < n < |t| && t[n].row > r
    ensures RowCount(t, r) == RowCount(t[..n], r)
    decreases |t|
  {
    var u := t[..|t| - 1];
    SortedAt(t, n, |t| - 1);
    if n < |u| {
      SortedPrefix(t, |t| - 1);
      assert u[n] == t[n];
      RowCountSplit(u, n, r);
      assert u[..n] == t[..n];
    } else {
      assert u == t[..n];
    }
  }

  /** On sorted input the run ending at triple n-1 is every earlier triple of
      that row: Run(t, i+1) - 1 is the rank of triple i within its row. */
  lemma {:induction false} RunIsRank(t: seq<Triple>, n: nat)
    requires Sorted(t) && n <= |t|
    ensures n > 0 ==> Run(t, n) == RowCount(t[..n], t[n - 1].row)
  {
    if n > 0 {
      assert t[..n][..n - 1] == t[..n - 1];
      if IsChange(t, n - 1) {
        var u := t[..n - 1];
        forall i | 0 <= i < |u|
          ensures u[i].row != t[n - 1].row
        {
          SortedAt(t, i, n - 2);
          SortedAt(t, n - 2, n - 1);
        }
        RowCountAbsent(u, t[n - 1].row);
      } else {
        RunIsRank(t, n - 1);
      }
    }
  }

  /** If position i splits a sorted stream into rows below r and rows at or
      above r, exactly i triples lie below r. */
  lemma {:induction false} CountBelowAt(t: seq<Triple>, i: nat, r: int)
    requires i <= |t|
    requires forall j :: 0 <= j < i ==> t[j].row < r
    requires forall j :: i <= j < |t| ==> t[j].row >= r
    ensures CountBelow(t, r) == i
    decreases |t|
  {
    if t != [] {
      var u := t[..|t| - 1];
      if i == |t| {
        CountBelowAt(u, i - 1, r);
      } else {
        CountBelowAt(u, i, r);
      }
    }
  }

  /** The rows below r+1 are the rows below r plus row r. */
  lemma {:induction false} CountBelowStep(s: seq<Triple>, r: int)
    ensures CountBelow(s, r + 1) == CountBelow(s, r) + RowCount(s, r)
    decreases |s|
  {
    if s != [] {
      CountBelowStep(s[..|s| - 1], r);
    }
  }

  /** Every row that occurs has a first triple, preceded only by lower rows. */
  lemma {:induction false} FirstOfRow(t: seq<Triple>, j: nat) returns (i: nat)
    requires Sorted(t) && j < |t|
    ensures i <= j && t[i].row == t[j].row && (i == 0 || t[i - 1].row < t[j].row)
  {
    if j > 0 && t[j - 1].row == t[j].row {
      i := FirstOfRow(t, j - 1);
    } else {
      i := j;
      if j > 0 {
        SortedAt(t, j - 1, j);
      }
    }
  }

  /** Every row change is listed, at the position given by the number of
      changes before it. */
  lemma {:induction false} ChangeIndicesAt(t: seq<Triple>, n: nat, i: nat)
    requires i < n <= |t| && IsChange(t, i)
    ensures Changes(t, i) < Changes(t, n) && ChangeIndices(t, n)[Changes(t, i)] == i
  {
    if i < n - 1 {
      ChangeIndicesAt(t, n - 1, i);
    } else {
      ChangesMonotone(t, i, n);
    }
  }

  /** The listed indices are row changes, below n, in increasing order. */
  lemma {:induction false} ChangeIndicesIncrease(t: seq<Triple>, n: nat)
    requires n <= |t|
    ensures forall m :: 0 <= m < Changes(t, n) ==> ChangeIndices(t, n)[m] < n && IsChange(t, ChangeIndices(t, n)[m])
    ensures forall a, b :: 0 <= a < b < Changes(t, n) ==> ChangeIndices(t, n)[a] < ChangeIndices(t, n)[b]
  {
    if n > 0 {
      ChangeIndicesIncrease(t, n - 1);
    }
  }

  /** The m-th listed row change has exactly m row changes before it. */
  lemma ChangeIndexRank(t: seq<Triple>, n: nat, m: nat)
    requires n <= |t| && m < Changes(t, n)
    ensures ChangeIndices(t, n)[m] < n && IsChange(t, ChangeIndices(t, n)[m])
    ensures Changes(t, ChangeIndices(t, n)[m]) == m
  {
    var idx := ChangeIndices(t, n)[m];
    ChangeIndicesIncrease(t, n);
    ChangeIndicesAt(t, n, idx);
    assert Changes(t, idx) == m;
  }

  /** The sliced ELL and CMRS converters count row changes in groups of 16:
      one more change either completes a group or not. */
  lemma GroupStep(c: nat)
    ensures (c + 1) % 16 == 0 ==> c + 1 == 16 * (c / 16) + 16 && (c + 1) / 16 == c / 16 + 1
    ensures (c + 1) % 16 != 0 ==> (c + 1) / 16 == c / 16 && (c + 1) % 16 == c % 16 + 1
  {
  }

  /** With no empty row, 0-based row r (0 < r < rowsNr) begins at the r-th
      row change, whose triple index is the number of triples in rows 0..r-1. */
  lemma DenseRowStart(t: seq<Triple>, rowsNr: int, r: int) returns (i: nat)
    requires WellFormed(t, rowsNr) && NoEmptyRows(t, rowsNr) && 0 < r < rowsNr
    ensures i < |t| && IsChange(t, i) && Changes(t, i) + 1 == r && i == CountBelow(t, r + 1)
  {
    assert HasRow(t, r + 1);
    var j :| 0 <= j < |t| && t[j].row == r + 1;
    i := FirstOfRow(t, j);
    NoGap(t, rowsNr, 0);
    NoGap(t, rowsNr, i);
    DenseChanges(t, rowsNr, i);
    forall k | 0 <= k < i
      ensures t[k].row < r + 1
    {
      SortedAt(t, k, i - 1);
    }
    forall k | i <= k < |t|
      ensures t[k].row >= r + 1
    {
      SortedAt(t, i, k);
    }
    CountBelowAt(t, i, r + 1);
  }
}
