/** The sliced ELL (SELL-C-sigma) converter.  Rows are grouped in slices of
    16 (`max_rows_to_check`); pass 1 records one width per slice, a prefix
    sum turns the widths into slice start offsets (`row_indices`), and
    pass 2 lays the rows out one after another, padding each closed row up
    to the width of its slice with column -1 and value 0.  Slice widths
    are counted in rows closed by a row change, so the slices follow the
    row changes of the stream rather than the row numbers themselves. */
module SlicedEll {
  import opened Triples
  import opened Layout

  /** `col_widths_len` (lines 69-80): rows / 16, plus one when 16 does not
      divide rows, that is, the number of slices needed to cover every row. */
  function SliceCount(rows: int): (len: int)
    requires rows >= 0
    ensures len >= 0
    ensures 16 * (len - 1) < rows <= 16 * len || (rows == 0 && len == 0)
    ensures rows >= 1 ==> len - 1 == (rows - 1) / 16
  {
    if rows % 16 == 0 then rows / 16 else rows / 16 + 1
  }

  ghost function Max(a: nat, b: nat): (m: nat) {
    if a < b then b else a
  }

  /** The largest element, 0 for the empty sequence. */
  ghost function SeqMax(s: seq<nat>): (m: nat) {
    if s == [] then 0 else Max(SeqMax(s[..|s| - 1]), s[|s| - 1])
  }

  lemma {:induction false} SeqMaxIsMax(s: seq<nat>)
    ensures forall k :: 0 <= k < |s| ==> s[k] <= SeqMax(s)
    ensures SeqMax(s) == 0 || exists k :: 0 <= k < |s| && s[k] == SeqMax(s)
  {
    if s != [] {
      var u := s[..|s| - 1];
      SeqMaxIsMax(u);
      assert forall k :: 0 <= k < |u| ==> s[k] == u[k];
    }
  }

  /** Appending one element folds it into the maximum. */
  lemma SeqMaxAppend(s: seq<nat>, x: nat)
    ensures SeqMax(s + [x]) == Max(SeqMax(s), x)
  {
    assert (s + [x])[..|s|] == s;
  }

  /** The runs closed by the row changes among the first n triples, in
      order: entry m is the length of the m-th row the stream leaves. */
  ghost function ClosedRuns(t: seq<Triple>, n: nat): (cr: seq<nat>)
    requires n <= |t|
    ensures |cr| == Changes(t, n)
  {
    if n == 0 then []
    else if IsChange(t, n - 1) then ClosedRuns(t, n - 1) + [Run(t, n - 1)]
    else ClosedRuns(t, n - 1)
  }

  /** Pass 1's `longest_col` after n triples: the running maximum of the
      closed runs, reset whenever 16 changes complete a slice. */
  ghost function OpenMax(t: seq<Triple>, n: nat): (m: nat)
    requires n <= |t|
  {
    if n == 0 then 0
    else if IsChange(t, n - 1) then
      (if Changes(t, n) % 16 == 0 then 0 else Max(OpenMax(t, n - 1), Run(t, n - 1)))
    else OpenMax(t, n - 1)
  }

  /** The widths pass 1 has written to `col_widths` after n triples: one per
      completed group of 16 changes. */
  ghost function Closed(t: seq<Triple>, n: nat): (widths: seq<nat>)
    requires n <= |t|
  {
    if n == 0 then []
    else if IsChange(t, n - 1) && Changes(t, n) % 16 == 0 then
      Closed(t, n - 1) + [Max(OpenMax(t, n - 1), Run(t, n - 1))]
    else Closed(t, n - 1)
  }

  /** `cl` holds one maximum per complete group of 16 elements of `cr`. */
  ghost predicate Grouped(cl: seq<nat>, cr: seq<nat>) {
    16 * |cl| <= |cr| &&
    forall j :: 0 <= j < |cl| ==> cl[j] == SeqMax(cr[16 * j .. 16 * j + 16])
  }

  /** A new element leaves the complete groups as they are. */
  lemma GroupedAppend(cl: seq<nat>, cr: seq<nat>, r: nat)
    requires Grouped(cl, cr)
    ensures Grouped(cl, cr + [r])
    ensures (cr + [r])[16 * |cl|..] == cr[16 * |cl|..] + [r]
  {
    forall j | 0 <= j < |cl|
      ensures (cr + [r])[16 * j .. 16 * j + 16] == cr[16 * j .. 16 * j + 16]
    {
    }
  }

  /** Once the open group has 16 elements its maximum closes it. */
  lemma GroupedClose(cl: seq<nat>, cr: seq<nat>, m: nat)
    requires Grouped(cl, cr) && |cr| == 16 * |cl| + 16 && m == SeqMax(cr[16 * |cl|..])
    ensures Grouped(cl + [m], cr)
  {
    forall j | 0 <= j < |cl| + 1
      ensures (cl + [m])[j] == SeqMax(cr[16 * j .. 16 * j + 16])
    {
      if j == |cl| {
        assert cr[16 * j .. 16 * j + 16] == cr[16 * |cl|..];
      }
    }
  }

  /** Pass 1 groups the closed runs by 16: width j is the longest of closed
      runs 16j .. 16j+15, and `longest_col` the longest of the closed runs
      of the group still open. */
  lemma {:induction false} GroupMaxima(t: seq<Triple>, n: nat)
    requires n <= |t|
    ensures Grouped(Closed(t, n), ClosedRuns(t, n))
    ensures |Closed(t, n)| == Changes(t, n) / 16
    ensures OpenMax(t, n) == SeqMax(ClosedRuns(t, n)[16 * |Closed(t, n)|..])
  {
    if n > 0 {
      GroupMaxima(t, n - 1);
      if IsChange(t, n - 1) {
        var cl, cr, r := Closed(t, n - 1), ClosedRuns(t, n - 1), Run(t, n - 1);
        assert Changes(t, n) == |cr| + 1;
        GroupStep(|cr|);
        GroupedAppend(cl, cr, r);
        SeqMaxAppend(cr[16 * |cl|..], r);
        if Changes(t, n) % 16 == 0 {
          GroupedClose(cl, cr + [r], Max(OpenMax(t, n - 1), r));
        }
      }
    }
  }

  /** The widths array after pass 1, where `uninit` is what the allocation
      held: the completed groups' widths, then untouched entries, and last
      the length of the final row (lines 125-129 always run, since
      `rows_checked` is never 16 there). */
  ghost function Widths(t: seq<Triple>, rows: int, uninit: seq<int>): (w: seq<int>)
    requires WellFormed(t, rows) && rows >= 1 && |uninit| == SliceCount(rows)
    ensures |w| == |uninit|
  {
    var cl := Closed(t, |t|);
    GroupMaxima(t, |t|);
    SlicesCoverChanges(t, rows, |t|);
    cl + uninit[|cl| .. |uninit| - 1] + [Run(t, |t|)]
  }

  /** What the widths mean: slice j that 16 row changes completed gets the
      longest of its runs, the last slice gets the final row's length, and
      every other slice keeps what the allocation held. */
  lemma WidthsMeaning(t: seq<Triple>, rows: int, uninit: seq<int>)
    requires WellFormed(t, rows) && rows >= 1 && |uninit| == SliceCount(rows)
    ensures Changes(t, |t|) / 16 < |uninit|
    ensures Widths(t, rows, uninit)[|uninit| - 1] == Run(t, |t|)
    ensures forall j :: 0 <= j < Changes(t, |t|) / 16 ==>
              j < |uninit| - 1 &&
              Widths(t, rows, uninit)[j] == SeqMax(ClosedRuns(t, |t|)[16 * j .. 16 * j + 16])
    ensures forall j :: Changes(t, |t|) / 16 <= j < |uninit| - 1 ==> Widths(t, rows, uninit)[j] == uninit[j]
  {
    GroupMaxima(t, |t|);
    SlicesCoverChanges(t, rows, |t|);
    Spliced(Closed(t, |t|), uninit, Run(t, |t|));
  }

  /** The three parts of the widths array, entry by entry. */
  lemma Spliced(cl: seq<nat>, uninit: seq<int>, r: int)
    requires |cl| <= |uninit| - 1
    ensures var w := cl + uninit[|cl| .. |uninit| - 1] + [r];
            w[|uninit| - 1] == r &&
            (forall j :: 0 <= j < |cl| ==> w[j] == cl[j]) &&
            (forall j :: |cl| <= j < |uninit| - 1 ==> w[j] == uninit[j])
  {
  }

  /** Pass 1 never completes more groups than there are slices before the
      last one: each change moves up at least one row. */
  lemma SlicesCoverChanges(t: seq<Triple>, rows: int, n: nat)
    requires WellFormed(t, rows) && rows >= 1 && n <= |t|
    ensures Changes(t, n) <= rows - 1
    ensures Changes(t, n) / 16 <= SliceCount(rows) - 1
  {
    ChangesBound(t, rows, n);
    if |t| == 0 {
      assert Changes(t, n) == 0;
    }
  }

  /** The last slice's width is the final row's length alone, even when an
      earlier row of that slice is longer: with two rows, row 1 holding
      two triples and row 2 one, the only slice gets width 1. */
  lemma TailWidthIsLastRow(u: int)
    ensures var t := [Triple(1, 1, 5), Triple(1, 2, 6), Triple(2, 1, 7)];
            Widths(t, 2, [u]) == [1] && RowCount(t, 1) == 2
  {
    var t := [Triple(1, 1, 5), Triple(1, 2, 6), Triple(2, 1, 7)];
    assert t[..2][..1] == [t[0]] && t[..1] == [t[0]] && t[..2] == [t[0], t[1]];
    assert Changes(t, 3) == 1 && Run(t, 3) == 1;
    assert Closed(t, 3) == [];
    assert t[..|t| - 1] == [t[0], t[1]] && [t[0], t[1]][..1] == [t[0]] && [t[0]][..0] == [];
    assert RowCount([t[0]], 1) == 1;
    assert RowCount([t[0], t[1]], 1) == 2;
  }

  /** Pass 1's variables after i triples, `w` being the widths array. */
  ghost predicate ScanState(t: seq<Triple>, rows: int, uninit: seq<int>, i: nat, w: seq<int>, longestCol: int,
                            previousRow: int, currentColLen: int, rowsChecked: int, colWidthsIndex: int)
  {
    WellFormed(t, rows) && rows >= 1 && |uninit| == SliceCount(rows) && i <= |t| && |w| == |uninit| &&
    previousRow == PrevRow(t, i) - 1 && currentColLen == Run(t, i) && longestCol == OpenMax(t, i) &&
    rowsChecked == Changes(t, i) % 16 && colWidthsIndex == |Closed(t, i)| == Changes(t, i) / 16 &&
    forall j :: 0 <= j < |w| ==> w[j] == if j < |Closed(t, i)| then Closed(t, i)[j] else uninit[j]
  }

  /** Pass 1 (lines 67-129): the slice widths.  It writes
      `col_widths[col_widths_len - 1]`, so it needs at least one row. */
  method ScanSliceWidths(t: seq<Triple>, rows: int, uninit: seq<int>) returns (colWidths: array<int>, longestCol: int)
    requires WellFormed(t, rows) && rows >= 1 && |uninit| == SliceCount(rows)
    ensures colWidths[..] == Widths(t, rows, uninit)
    ensures longestCol == OpenMax(t, |t|)
  {
    var len := SliceCount(rows);
    colWidths := new int[len](j requires 0 <= j < len => uninit[j]);
    longestCol := 0;
    var previousRow := 0;
    var currentColLen := 0;
    var rowsChecked := 0;
    var colWidthsIndex := 0;
    var i := 0;
    while i < |t|
      invariant ScanState(t, rows, uninit, i, colWidths[..], longestCol, previousRow, currentColLen, rowsChecked, colWidthsIndex)
    {
      var currentRow := t[i].row - 1;
      if currentRow == previousRow {
        currentColLen := currentColLen + 1;
      } else {
        longestCol, rowsChecked, colWidthsIndex :=
          ScanNewRow(t, rows, uninit, i, colWidths, longestCol, previousRow, currentColLen, rowsChecked, colWidthsIndex);
        previousRow := currentRow;
        currentColLen := 1;
      }
      i := i + 1;
    }
    ghost var w := colWidths[..];
    if rowsChecked != 16 {
      colWidths[len - 1] := currentColLen;
    }
    ScanDone(t, rows, uninit, w, longestCol, previousRow, currentColLen, rowsChecked, colWidthsIndex);
  }

  /** After the loop, storing the final run's length in the last entry
      gives the widths array. */
  lemma ScanDone(t: seq<Triple>, rows: int, uninit: seq<int>, w: seq<int>, longestCol: int,
                 previousRow: int, currentColLen: int, rowsChecked: int, colWidthsIndex: int)
    requires ScanState(t, rows, uninit, |t|, w, longestCol, previousRow, currentColLen, rowsChecked, colWidthsIndex)
    ensures rowsChecked != 16 && 0 < |w| && w[|w| - 1 := currentColLen] == Widths(t, rows, uninit)
  {
    WidthsMeaning(t, rows, uninit);
    var v := w[|w| - 1 := currentColLen];
    forall j | 0 <= j < |w|
      ensures v[j] == Widths(t, rows, uninit)[j]
    {
    }
  }

  /** One row change in pass 1 (lines 104-121): the finished run joins the
      group's maximum, and the 16th change of a group stores that maximum. */
  method ScanNewRow(t: seq<Triple>, rows: int, uninit: seq<int>, i: nat, colWidths: array<int>, longestCol: int,
                    previousRow: int, currentColLen: int, rowsChecked: int, colWidthsIndex: int)
    returns (nextLongest: int, nextChecked: int, nextIndex: int)
    requires i < |t| && t[i].row - 1 != previousRow
    requires ScanState(t, rows, uninit, i, colWidths[..], longestCol, previousRow, currentColLen, rowsChecked, colWidthsIndex)
    modifies colWidths
    ensures ScanState(t, rows, uninit, i + 1, colWidths[..], nextLongest, t[i].row - 1, 1, nextChecked, nextIndex)
  {
    SlicesCoverChanges(t, rows, i + 1);
    GroupStep(Changes(t, i));
    nextChecked := rowsChecked + 1;
    nextLongest := longestCol;
    if currentColLen > nextLongest {
      nextLongest := currentColLen;
    }
    nextIndex := colWidthsIndex;
    if nextChecked == 16 {
      colWidths[nextIndex] := nextLongest;
      nextLongest := 0;
      nextIndex := nextIndex + 1;
      nextChecked := 0;
    }
  }

  ghost function Sum(s: seq<int>): (total: int) {
    if s == [] then 0 else Sum(s[..|s| - 1]) + s[|s| - 1]
  }

  /** The slice start offsets (lines 131-138): slice s starts after 16 rows
      of every earlier slice's width, and the total is the buffer length. */
  method SliceStarts(colWidths: array<int>) returns (rowIndices: array<int>, currentLength: int)
    ensures rowIndices.Length == colWidths.Length + 1
    ensures forall s :: 0 <= s <= colWidths.Length ==> rowIndices[s] == 16 * Sum(colWidths[..s])
    ensures forall s :: 0 <= s < colWidths.Length ==> rowIndices[s + 1] - rowIndices[s] == 16 * colWidths[s]
    ensures currentLength == rowIndices[colWidths.Length] == 16 * Sum(colWidths[..])
  {
    rowIndices := new int[colWidths.Length + 1];
    currentLength := 0;
    rowIndices[0] := 0;
    var i := 0;
    while i < colWidths.Length
      invariant 0 <= i <= colWidths.Length
      invariant currentLength == 16 * Sum(colWidths[..i])
      invariant forall s :: 0 <= s <= i ==> rowIndices[s] == 16 * Sum(colWidths[..s])
    {
      assert colWidths[..i + 1][..i] == colWidths[..i];
      currentLength := currentLength + colWidths[i] * 16;
      rowIndices[i + 1] := currentLength;
      i := i + 1;
    }
    forall s | 0 <= s < colWidths.Length
      ensures rowIndices[s + 1] - rowIndices[s] == 16 * colWidths[s]
    {
      assert colWidths[..s + 1][..s] == colWidths[..s];
    }
    assert colWidths[..] == colWidths[..colWidths.Length];
  }

  /** The padding pass 2 writes before triple i when it starts a new row:
      the counter runs from the previous row's length up to the slice width
      times the row distance, where the slice is that of the row being
      closed (`col_widths_index` counts completed groups of 16 changes). */
  ghost function Pad(t: seq<Triple>, w: seq<int>, i: nat): (n: nat)
    requires i < |t| && IsChange(t, i) && Changes(t, i) / 16 < |w|
  {
    var limit := Span(t[i].row - PrevRow(t, i), w[Changes(t, i) / 16]);
    if limit > Run(t, i) then limit - Run(t, i) else 0
  }

  /** Pass 2's `current_index` after n triples. */
  ghost function Pos(t: seq<Triple>, w: seq<int>, n: nat): (index: int)
    requires n <= |t| && Changes(t, |t|) <= 16 * |w|
  {
    if n == 0 then 0
    else Pos(t, w, n - 1) + (if IsChange(t, n - 1) then (ChangesMonotone(t, n - 1, |t|); Pad(t, w, n - 1)) else 0) + 1
  }

  /** The index pass 2 writes triple k at, for every k < n. */
  ghost function SlotTable(t: seq<Triple>, w: seq<int>, n: nat): (sl: seq<int>)
    requires n <= |t| && Changes(t, |t|) <= 16 * |w|
    ensures |sl| == n
  {
    if n == 0 then [] else SlotTable(t, w, n - 1) + [Pos(t, w, n) - 1]
  }

  /** The slot pass 2 gives triple i: the index just before where it
      leaves `current_index`. */
  ghost function Slot(t: seq<Triple>, w: seq<int>, i: nat): (slot: int)
    requires i < |t| && Changes(t, |t|) <= 16 * |w|
  {
    Pos(t, w, i + 1) - 1
  }

  lemma {:induction false} SlotTableAt(t: seq<Triple>, w: seq<int>, n: nat, k: nat)
    requires k < n <= |t| && Changes(t, |t|) <= 16 * |w|
    ensures SlotTable(t, w, n)[k] == Pos(t, w, k + 1) - 1
  {
    if k < n - 1 {
      SlotTableAt(t, w, n - 1, k);
    }
  }

  /** `current_index` after the trailing loop (lines 208-212), which pads up
      to pass 1's leftover `longest_col`. */
  ghost function End(t: seq<Triple>, w: seq<int>): (index: int)
    requires Changes(t, |t|) <= 16 * |w|
  {
    Pos(t, w, |t|) + (if OpenMax(t, |t|) > Run(t, |t|) then OpenMax(t, |t|) - Run(t, |t|) else 0)
  }

  /** Pass 2 moves at least one slot per triple. */
  lemma {:induction false} PosGrows(t: seq<Triple>, w: seq<int>, m: nat, n: nat)
    requires m <= n <= |t| && Changes(t, |t|) <= 16 * |w|
    ensures Pos(t, w, m) + (n - m) <= Pos(t, w, n)
    decreases n - m
  {
    if m < n {
      PosGrows(t, w, m + 1, n);
    }
  }

  /** Triples get increasing slots, so no two share one and every slot lies
      below the index the stream ends at. */
  lemma SlotsIncrease(t: seq<Triple>, w: seq<int>, i: nat, j: nat)
    requires i < j < |t| && Changes(t, |t|) <= 16 * |w|
    ensures 0 <= Slot(t, w, i) < Slot(t, w, j) < Pos(t, w, |t|) <= End(t, w)
  {
    SlotBounds(t, w, i);
    SlotBounds(t, w, j);
    PosGrows(t, w, i + 1, j + 1);
  }

  /** Triple i's slot lies below the index the stream ends at. */
  lemma SlotBounds(t: seq<Triple>, w: seq<int>, i: nat)
    requires i < |t| && Changes(t, |t|) <= 16 * |w|
    ensures 0 <= Slot(t, w, i) < Pos(t, w, |t|) <= End(t, w)
  {
    PosGrows(t, w, 0, i + 1);
    PosGrows(t, w, i + 1, |t|);
  }

  /** Where row r starts when every row of slice j takes w[j] slots, built
      up one row at a time (RowStartClosed gives the closed form). */
  ghost function RowStart(w: seq<int>, r: int): (start: int)
    requires 1 <= r && r - 1 <= 16 * |w|
    decreases r
  {
    if r == 1 then 0 else RowStart(w, r - 1) + w[(r - 2) / 16]
  }

  /** Row r starts after 16 rows of each earlier slice and after the rows
      before it in its own slice, each of that slice's width. */
  lemma {:induction false} RowStartClosed(w: seq<int>, r: int)
    requires 1 <= r && r - 1 < 16 * |w|
    ensures RowStart(w, r) == 16 * Sum(w[..(r - 1) / 16]) + ((r - 1) % 16) * w[(r - 1) / 16]
    decreases r
  {
    if r > 1 {
      var q := r - 2;
      var a, b := q / 16, q % 16;
      var x := w[a];
      RowStartClosed(w, r - 1);
      GroupStep(q);
      assert RowStart(w, r) == 16 * Sum(w[..a]) + b * x + x;
      MulSucc(b, x);
      if (q + 1) % 16 == 0 {
        assert w[..a + 1][..a] == w[..a];
        assert b == 15;
      }
    }
  }

  lemma MulSucc(b: int, x: int)
    ensures (b + 1) * x == b * x + x
  {
  }

  /** Every row below m holds no more triples than its slice's width. */
  ghost predicate RowsFit(t: seq<Triple>, w: seq<int>, m: int) {
    forall r :: 1 <= r < m && (r - 1) / 16 < |w| ==> RowCount(t, r) <= w[(r - 1) / 16]
  }

  /** With no empty row, and every row before the current one within its
      slice's width, pass 2's `current_index` after n triples is where the
      current row starts plus the triples of that row seen so far. */
  lemma {:induction false} PosDense(t: seq<Triple>, rows: int, w: seq<int>, n: nat)
    requires WellFormed(t, rows) && NoEmptyRows(t, rows) && Changes(t, |t|) <= 16 * |w| && n <= |t|
    requires RowsFit(t, w, PrevRow(t, n))
    ensures 1 <= PrevRow(t, n) && PrevRow(t, n) - 1 <= 16 * |w|
    ensures Pos(t, w, n) == RowStart(w, PrevRow(t, n)) + Run(t, n)
  {
    DenseChanges(t, rows, n);
    ChangesMonotone(t, n, |t|);
    if n > 0 {
      var m := n - 1;
      ChangeIncreasesRow(t, rows, m);
      PosDense(t, rows, w, m);
      if IsChange(t, m) {
        var p := PrevRow(t, m);
        NoGap(t, rows, m);
        DenseChanges(t, rows, m);
        ChangeStep(t, w, m);
        RunIsRank(t, m);
        RowCountSplit(t, m, p);
        assert Run(t, m) == RowCount(t, p) <= w[(p - 1) / 16];
        assert Span(1, w[(p - 1) / 16]) == w[(p - 1) / 16];
      }
    }
  }

  /** Read as a layout: with no empty row, when the rows before triple i's
      row fit their slices' widths, triple i of row r with k earlier triples
      in that row goes to 16 * (the widths of the slices before r's) plus
      (r's place in its slice) * (its slice's width) plus k. */
  lemma SlotInSlice(t: seq<Triple>, rows: int, w: seq<int>, i: nat)
    requires WellFormed(t, rows) && NoEmptyRows(t, rows) && Changes(t, |t|) <= 16 * |w|
    requires i < |t| && 1 <= t[i].row <= 16 * |w| && RowsFit(t, w, t[i].row)
    ensures Slot(t, w, i) == 16 * Sum(w[..(t[i].row - 1) / 16]) + ((t[i].row - 1) % 16) * w[(t[i].row - 1) / 16]
                             + RowCount(t[..i], t[i].row)
  {
    var r := t[i].row;
    PosDense(t, rows, w, i + 1);
    assert Slot(t, w, i) == RowStart(w, r) + Run(t, i + 1) - 1;
    RunIsRank(t, i + 1);
    assert t[..i + 1][..i] == t[..i];
    assert Run(t, i + 1) == RowCount(t[..i], r) + 1;
    RowStartClosed(w, r);
  }

  /** The run closed by the change at triple i is entry "changes before i"
      of the closed runs. */
  lemma {:induction false} ClosedRunsAt(t: seq<Triple>, n: nat, i: nat)
    requires i < n <= |t| && IsChange(t, i)
    ensures Changes(t, i) < Changes(t, n) && ClosedRuns(t, n)[Changes(t, i)] == Run(t, i)
  {
    ChangesMonotone(t, i, n);
    if i < n - 1 {
      ClosedRunsAt(t, n - 1, i);
      ChangesMonotone(t, i + 1, n - 1);
    }
  }

  /** With no empty row, the m-th run the stream closes is row m + 1. */
  lemma DenseClosedRun(t: seq<Triple>, rows: int, r: int)
    requires WellFormed(t, rows) && NoEmptyRows(t, rows) && 0 < r < rows
    ensures r - 1 < Changes(t, |t|) && ClosedRuns(t, |t|)[r - 1] == RowCount(t, r)
  {
    var i := DenseRowStart(t, rows, r);
    NoGap(t, rows, i);
    DenseChanges(t, rows, i);
    ChangeIncreasesRow(t, rows, i);
    RunIsRank(t, i);
    RowCountSplit(t, i, r);
    ClosedRunsAt(t, |t|, i);
  }

  /** With no empty row, every row of a slice that 16 row changes completed
      holds at most the width pass 1 gives that slice. */
  lemma SliceRowsWithinWidth(t: seq<Triple>, rows: int, uninit: seq<int>, r: int)
    requires WellFormed(t, rows) && rows >= 1 && |uninit| == SliceCount(rows) && NoEmptyRows(t, rows)
    requires 1 <= r && (r - 1) / 16 < Changes(t, |t|) / 16
    ensures (r - 1) / 16 < |uninit| && RowCount(t, r) <= Widths(t, rows, uninit)[(r - 1) / 16]
  {
    var j := (r - 1) / 16;
    WidthsMeaning(t, rows, uninit);
    DenseLastRow(t, rows);
    DenseChanges(t, rows, |t|);
    assert r < rows;
    DenseClosedRun(t, rows, r);
    var cr := ClosedRuns(t, |t|);
    var g := cr[16 * j .. 16 * j + 16];
    SeqMaxIsMax(g);
    assert g[r - 1 - 16 * j] == cr[r - 1];
  }

  /** With no empty row, every row of the slices before row m's fits the
      width pass 1 gives its slice. */
  lemma DenseRowsFit(t: seq<Triple>, rows: int, uninit: seq<int>, m: int)
    requires WellFormed(t, rows) && rows >= 1 && |uninit| == SliceCount(rows) && NoEmptyRows(t, rows)
    requires 1 <= m <= rows && (m - 1) % 16 == 0
    ensures RowsFit(t, Widths(t, rows, uninit), m)
  {
    var w := Widths(t, rows, uninit);
    DenseLastRow(t, rows);
    DenseChanges(t, rows, |t|);
    forall r | 1 <= r < m && (r - 1) / 16 < |w|
      ensures RowCount(t, r) <= w[(r - 1) / 16]
    {
      SliceRowsWithinWidth(t, rows, uninit, r);
    }
  }

  /** With no empty row, the first triple of each slice lands at that
      slice's start offset, 16 times the widths of the slices before it
      (`row_indices[s]`, SliceStarts). */
  lemma SliceStartAt(t: seq<Triple>, rows: int, uninit: seq<int>, i: nat)
    requires WellFormed(t, rows) && rows >= 1 && |uninit| == SliceCount(rows) && NoEmptyRows(t, rows)
    requires i < |t| && 1 <= t[i].row && (t[i].row - 1) % 16 == 0 && RowCount(t[..i], t[i].row) == 0
    ensures Changes(t, |t|) <= 16 * |uninit| && (t[i].row - 1) / 16 < |uninit|
    ensures Slot(t, Widths(t, rows, uninit), i) == 16 * Sum(Widths(t, rows, uninit)[..(t[i].row - 1) / 16])
  {
    SlicesCoverChanges(t, rows, |t|);
    RowInRange(t, rows, i);
    DenseRowsFit(t, rows, uninit, t[i].row);
    SlotInSlice(t, rows, Widths(t, rows, uninit), i);
  }

  /** The layout pass 2 leaves in `c` and `d` when it ends at index `end`:
      each triple at its slot, every slot before Pos(t, w, |t|) that is no
      triple's holding column -1 and value 0, and column -1 from there up
      to `end`. */
  ghost predicate Packed(t: seq<Triple>, w: seq<int>, c: seq<int>, d: seq<int>, end: int)
    requires Changes(t, |t|) <= 16 * |w|
  {
    0 <= Pos(t, w, |t|) <= end <= |c| == |d| &&
    (forall i :: 0 <= i < |t| ==>
       0 <= Slot(t, w, i) < Pos(t, w, |t|) && c[Slot(t, w, i)] == t[i].col - 1 && d[Slot(t, w, i)] == t[i].value) &&
    (forall p :: 0 <= p < Pos(t, w, |t|) ==>
       (exists i :: 0 <= i < |t| && Slot(t, w, i) == p) || (c[p] == -1 && d[p] == 0)) &&
    (forall p :: Pos(t, w, |t|) <= p < end ==> c[p] == -1)
  }

  /** Every write of pass 2 lands inside the `current_length` buffer.  The
      code does not check this. */
  ghost predicate Fits(t: seq<Triple>, w: seq<int>) {
    Changes(t, |t|) <= 16 * |w| && End(t, w) <= 16 * Sum(w)
  }

  ghost function Zeros(n: nat): (s: seq<int>)
    ensures |s| == n && forall p :: 0 <= p < n ==> s[p] == 0
  {
    seq(n, _ => 0)
  }

  /** The state pass 2 keeps from one triple to the next.  The loop-body
      methods below take it as their parameters, in this order: the input
      (`t`, `rows`, the widths `w`) and the position `i`; the arrays
      `col_widths`, `cols` and `data`; the loop variables `current_index`,
      `previous_row`, `nonzeroes_in_row`, `rows_checked` and
      `col_widths_index`; and the ghost bookkeeping: the slot table `sl`,
      `owner` (which triple fills each slot so far, -1 for padding) and the
      buffers `c0`, `d0` as they were before the pass. */
  ghost predicate PackState(t: seq<Triple>, rows: int, w: seq<int>, i: nat, colWidths: array<int>, cols: array<int>, data: array<int>,
                            currentIndex: int, previousRow: int, nonzeroesInRow: int, rowsChecked: int, colWidthsIndex: int,
                            sl: seq<int>, owner: seq<int>, c0: seq<int>, d0: seq<int>)
    reads colWidths, cols, data
  {
    WellFormed(t, rows) && i <= |t| && Changes(t, |t|) <= 16 * |w| && colWidths[..] == w && sl == SlotTable(t, w, |t|) &&
    cols != data && colWidths != cols && colWidths != data && End(t, w) <= cols.Length &&
    previousRow == PrevRow(t, i) - 1 && nonzeroesInRow == Run(t, i) &&
    rowsChecked == Changes(t, i) % 16 && colWidthsIndex == Changes(t, i) / 16 &&
    currentIndex == Pos(t, w, i) == |owner| &&
    Laid(t, sl, i, owner, cols[..], data[..], c0, d0, Zeros(|c0|))
  }

  /** One iteration of pass 2 (lines 173-179) when triple i stays in the
      previous row: it goes to the current index. */
  method StoreInRow(t: seq<Triple>, rows: int, ghost w: seq<int>, i: nat, colWidths: array<int>, cols: array<int>, data: array<int>,
                    currentIndex: int, previousRow: int, nonzeroesInRow: int, rowsChecked: int, colWidthsIndex: int,
                    ghost sl: seq<int>, ghost owner: seq<int>, ghost c0: seq<int>, ghost d0: seq<int>)
    returns (nextIndex: int, nextCount: int, ghost nextOwner: seq<int>)
    requires PackState(t, rows, w, i, colWidths, cols, data, currentIndex, previousRow, nonzeroesInRow, rowsChecked, colWidthsIndex, sl, owner, c0, d0)
    requires i < |t| && t[i].row - 1 == previousRow
    modifies cols, data
    ensures PackState(t, rows, w, i + 1, colWidths, cols, data, nextIndex, previousRow, nextCount, rowsChecked, colWidthsIndex, sl, nextOwner, c0, d0)
  {
    PosGrows(t, w, i + 1, |t|);
    SlotTableAt(t, w, |t|, i);
    ghost var c, d := cols[..], data[..];
    data[currentIndex] := t[i].value;
    cols[currentIndex] := t[i].col - 1;
    LaidPut(t, sl, i, owner, c, d, c0, d0, Zeros(|c0|), cols[..], data[..]);
    nextOwner := owner + [i];
    nextIndex := currentIndex + 1;
    nextCount := nonzeroesInRow + 1;
  }

  /** The padding loop of a row change (lines 188-193): slots `index`,
      `index + 1`, ... get column -1 and value 0 while the counter runs from
      `from` up to `limit`. */
  method PadSlots(cols: array<int>, data: array<int>, index: int, from: int, limit: int) returns (next: int)
    requires cols != data && cols.Length == data.Length
    requires 0 <= index && index + (if limit > from then limit - from else 0) <= cols.Length
    modifies cols, data
    ensures next == index + (if limit > from then limit - from else 0)
    ensures forall p :: 0 <= p < cols.Length ==> cols[p] == if index <= p < next then -1 else old(cols[p])
    ensures forall p :: 0 <= p < data.Length ==> data[p] == if index <= p < next then 0 else old(data[p])
  {
    next := index;
    var k := from;
    while k < limit
      invariant next == index + (if k > from then k - from else 0)
      invariant k > from ==> k <= limit
      invariant forall p :: 0 <= p < cols.Length ==> cols[p] == if index <= p < next then -1 else old(cols[p])
      invariant forall p :: 0 <= p < data.Length ==> data[p] == if index <= p < next then 0 else old(data[p])
    {
      data[next] := 0;
      cols[next] := -1;
      next := next + 1;
      k := k + 1;
    }
  }

  /** The padding before triple i, in the terms the loop computes it in. */
  lemma PadIs(t: seq<Triple>, w: seq<int>, i: nat, width: int, diff: int)
    requires i < |t| && IsChange(t, i) && Changes(t, i) / 16 < |w|
    requires width == w[Changes(t, i) / 16] && diff == t[i].row - PrevRow(t, i) && diff >= 0
    ensures Pad(t, w, i) == if width * diff > Run(t, i) then width * diff - Run(t, i) else 0
  {
    SpanIsProduct(diff, width);
  }

  /** How a row change moves pass 2 on: past the padding and the triple,
      and one change further in the current group of 16. */
  lemma ChangeStep(t: seq<Triple>, w: seq<int>, i: nat)
    requires i < |t| && IsChange(t, i) && Changes(t, |t|) <= 16 * |w|
    ensures Changes(t, i + 1) == Changes(t, i) + 1 <= Changes(t, |t|) && Changes(t, i) / 16 < |w|
    ensures Pos(t, w, i) + Pad(t, w, i) == Pos(t, w, i + 1) - 1
    ensures Changes(t, i) % 16 + 1 == 16 ==> Changes(t, i + 1) % 16 == 0 && Changes(t, i + 1) / 16 == Changes(t, i) / 16 + 1
    ensures Changes(t, i) % 16 + 1 != 16 ==> Changes(t, i + 1) % 16 == Changes(t, i) % 16 + 1 && Changes(t, i + 1) / 16 == Changes(t, i) / 16
  {
    ChangesMonotone(t, i + 1, |t|);
  }

  /** One iteration of pass 2 (lines 180-205) when triple i starts a new
      row: padding up to its slice's width times the row distance, then the
      triple; after every 16th change the next slice's width is used. */
  method StoreNewRow(t: seq<Triple>, rows: int, ghost w: seq<int>, i: nat, colWidths: array<int>, cols: array<int>, data: array<int>,
                     currentIndex: int, previousRow: int, nonzeroesInRow: int, rowsChecked: int, colWidthsIndex: int,
                     ghost sl: seq<int>, ghost owner: seq<int>, ghost c0: seq<int>, ghost d0: seq<int>)
    returns (nextIndex: int, nextChecked: int, nextWidthsIndex: int, ghost nextOwner: seq<int>)
    requires PackState(t, rows, w, i, colWidths, cols, data, currentIndex, previousRow, nonzeroesInRow, rowsChecked, colWidthsIndex, sl, owner, c0, d0)
    requires i < |t| && t[i].row - 1 != previousRow
    modifies cols, data
    ensures PackState(t, rows, w, i + 1, colWidths, cols, data, nextIndex, t[i].row - 1, 1, nextChecked, nextWidthsIndex, sl, nextOwner, c0, d0)
  {
    PosGrows(t, w, i + 1, |t|);
    ChangeStep(t, w, i);
    SlotTableAt(t, w, |t|, i);
    nextChecked := rowsChecked + 1;
    ghost var padded;
    nextIndex, padded := PadRowGap(t, rows, w, i, colWidths, cols, data, currentIndex, previousRow, nonzeroesInRow, rowsChecked, colWidthsIndex, sl, owner, c0, d0);
    ghost var c1, d1 := cols[..], data[..];
    cols[nextIndex] := t[i].col - 1;
    data[nextIndex] := t[i].value;
    LaidPut(t, sl, i, padded, c1, d1, c0, d0, Zeros(|c0|), cols[..], data[..]);
    nextOwner := padded + [i];
    nextIndex := nextIndex + 1;
    nextWidthsIndex := colWidthsIndex;
    if nextChecked == 16 {
      nextWidthsIndex := nextWidthsIndex + 1;
      nextChecked := 0;
    }
  }

  /** The padding of a row change (lines 182-193): from the current index
      up to triple i's slot, `nonzeroes_in_row` counting up to the slice's
      width times the row distance. */
  method PadRowGap(t: seq<Triple>, rows: int, ghost w: seq<int>, i: nat, colWidths: array<int>, cols: array<int>, data: array<int>,
                   currentIndex: int, previousRow: int, nonzeroesInRow: int, rowsChecked: int, colWidthsIndex: int,
                   ghost sl: seq<int>, ghost owner: seq<int>, ghost c0: seq<int>, ghost d0: seq<int>)
    returns (nextIndex: int, ghost padded: seq<int>)
    requires PackState(t, rows, w, i, colWidths, cols, data, currentIndex, previousRow, nonzeroesInRow, rowsChecked, colWidthsIndex, sl, owner, c0, d0)
    requires i < |t| && t[i].row - 1 != previousRow
    modifies cols, data
    ensures nextIndex == |padded| == Pos(t, w, i + 1) - 1 < cols.Length
    ensures Laid(t, sl, i, padded, cols[..], data[..], c0, d0, Zeros(|c0|))
  {
    PosGrows(t, w, i + 1, |t|);
    ChangeStep(t, w, i);
    ghost var c, d := cols[..], data[..];
    var diff := (t[i].row - 1) - previousRow;
    var width := colWidths[colWidthsIndex];
    ChangeIncreasesRow(t, rows, i);
    PadIs(t, w, i, width, diff);
    nextIndex := PadSlots(cols, data, currentIndex, nonzeroesInRow, width * diff);
    LaidPad(t, sl, i, owner, c, d, c0, d0, Zeros(|c0|), cols[..], data[..], nextIndex - currentIndex);
    padded := owner + Padding(nextIndex - currentIndex);
  }

  /** Pass 2 (lines 157-212) into caller-provided buffers, `longestCol`
      being what pass 1 left in `longest_col`. */
  method Pack(t: seq<Triple>, rows: int, colWidths: array<int>, longestCol: int, cols: array<int>, data: array<int>) returns (currentIndex: int)
    requires WellFormed(t, rows) && Fits(t, colWidths[..]) && longestCol == OpenMax(t, |t|)
    requires cols != data && colWidths != cols && colWidths != data
    requires cols.Length == data.Length == 16 * Sum(colWidths[..])
    modifies cols, data
    ensures currentIndex == End(t, colWidths[..])
    ensures Packed(t, colWidths[..], cols[..], data[..], currentIndex)
    ensures forall p :: Pos(t, colWidths[..], |t|) <= p < currentIndex ==> data[p] == old(data[p])
    ensures forall p :: currentIndex <= p < cols.Length ==> cols[p] == old(cols[p]) && data[p] == old(data[p])
  {
    ghost var w := colWidths[..];
    var previousRow := 0;
    var rowsChecked := 0;
    var colWidthsIndex := 0;
    currentIndex := 0;
    var nonzeroesInRow := 0;
    var i: nat := 0;
    ghost var owner: seq<int> := [];
    ghost var c0, d0 := cols[..], data[..];
    ghost var sl := SlotTable(t, w, |t|);
    while i < |t|
      invariant PackState(t, rows, w, i, colWidths, cols, data, currentIndex, previousRow, nonzeroesInRow, rowsChecked, colWidthsIndex, sl, owner, c0, d0)
    {
      var currentRow := t[i].row - 1;
      if previousRow == currentRow {
        currentIndex, nonzeroesInRow, owner :=
          StoreInRow(t, rows, w, i, colWidths, cols, data, currentIndex, previousRow, nonzeroesInRow, rowsChecked, colWidthsIndex, sl, owner, c0, d0);
      } else {
        currentIndex, rowsChecked, colWidthsIndex, owner :=
          StoreNewRow(t, rows, w, i, colWidths, cols, data, currentIndex, previousRow, nonzeroesInRow, rowsChecked, colWidthsIndex, sl, owner, c0, d0);
        nonzeroesInRow := 1;
        previousRow := currentRow;
      }
      i := i + 1;
    }
    currentIndex := PadLastRow(t, rows, w, colWidths, longestCol, cols, data, currentIndex, previousRow, nonzeroesInRow, rowsChecked, colWidthsIndex, sl, owner, c0, d0);
  }

  /** The trailing loop (lines 208-212): only `cols` is written. */
  method PadLastRow(t: seq<Triple>, rows: int, ghost w: seq<int>, colWidths: array<int>, longestCol: int, cols: array<int>, data: array<int>,
                    currentIndex: int, previousRow: int, nonzeroesInRow: int, rowsChecked: int, colWidthsIndex: int,
                    ghost sl: seq<int>, ghost owner: seq<int>, ghost c0: seq<int>, ghost d0: seq<int>)
    returns (endIndex: int)
    requires PackState(t, rows, w, |t|, colWidths, cols, data, currentIndex, previousRow, nonzeroesInRow, rowsChecked, colWidthsIndex, sl, owner, c0, d0)
    requires longestCol == OpenMax(t, |t|)
    modifies cols
    ensures endIndex == End(t, w)
    ensures Packed(t, w, cols[..], data[..], endIndex)
    ensures forall p :: Pos(t, w, |t|) <= p < endIndex ==> data[p] == d0[p]
    ensures forall p :: endIndex <= p < cols.Length ==> cols[p] == c0[p] && data[p] == d0[p]
  {
    ghost var c := cols[..];
    forall k | 0 <= k < |t|
      ensures sl[k] == Slot(t, w, k)
    {
      SlotTableAt(t, w, |t|, k);
    }
    LaidPacked(t, w, sl, owner, c, data[..], c0, d0);
    endIndex := PadColumns(cols, currentIndex, nonzeroesInRow, longestCol);
    PackedExtend(t, w, c, data[..], currentIndex, cols[..], endIndex);
  }

  /** Once every triple is stored, the buffers are Packed up to the
      current index. */
  lemma LaidPacked(t: seq<Triple>, w: seq<int>, sl: seq<int>, owner: seq<int>, c: seq<int>, d: seq<int>, c0: seq<int>, d0: seq<int>)
    requires Changes(t, |t|) <= 16 * |w| && |sl| == |t| && |owner| == Pos(t, w, |t|)
    requires forall k :: 0 <= k < |t| ==> sl[k] == Slot(t, w, k)
    requires Laid(t, sl, |t|, owner, c, d, c0, d0, Zeros(|c0|))
    ensures Packed(t, w, c, d, |owner|)
  {
    LaidCovered(t, sl, owner, c, d, c0, d0, Zeros(|c0|));
    forall p | 0 <= p < |owner|
      ensures (exists i :: 0 <= i < |t| && Slot(t, w, i) == p) || (c[p] == -1 && d[p] == 0)
    {
      if exists k :: 0 <= k < |t| && sl[k] == p {
        var k :| 0 <= k < |t| && sl[k] == p;
        assert Slot(t, w, k) == p;
      }
    }
  }

  /** Writing column -1 into the slots from `end` to `end1` keeps the
      buffers Packed, now up to `end1`. */
  lemma PackedExtend(t: seq<Triple>, w: seq<int>, c: seq<int>, d: seq<int>, end: int, c1: seq<int>, end1: int)
    requires Changes(t, |t|) <= 16 * |w| && Packed(t, w, c, d, end)
    requires end <= end1 <= |c| == |c1|
    requires forall p :: 0 <= p < |c| ==> c1[p] == if end <= p < end1 then -1 else c[p]
    ensures Packed(t, w, c1, d, end1)
  {
  }

  /** The whole conversion: the widths allocation and pass 1, the slice
      offsets, the buffers, pass 2.  `uninit` stands for what the widths
      allocation holds before pass 1. */
  method Convert(t: seq<Triple>, rows: int, uninit: seq<int>)
    returns (colWidths: array<int>, rowIndices: array<int>, cols: array<int>, data: array<int>, currentIndex: int)
    requires WellFormed(t, rows) && rows >= 1 && |uninit| == SliceCount(rows)
    requires Fits(t, Widths(t, rows, uninit))
    ensures colWidths[..] == Widths(t, rows, uninit)
    ensures rowIndices.Length == colWidths.Length + 1
    ensures forall s :: 0 <= s <= colWidths.Length ==> rowIndices[s] == 16 * Sum(colWidths[..s])
    ensures cols.Length == data.Length == rowIndices[colWidths.Length]
    ensures currentIndex == End(t, Widths(t, rows, uninit))
    ensures Packed(t, Widths(t, rows, uninit), cols[..], data[..], currentIndex)
    // with no empty row, slice s starts at row_indices[s]: the first triple of its first row lands there
    ensures NoEmptyRows(t, rows) ==>
              forall i :: 0 <= i < |t| && 1 <= t[i].row && (t[i].row - 1) % 16 == 0 && RowCount(t[..i], t[i].row) == 0 ==>
                (t[i].row - 1) / 16 < rowIndices.Length && Slot(t, colWidths[..], i) == rowIndices[(t[i].row - 1) / 16]
  {
    var longestCol;
    colWidths, longestCol := ScanSliceWidths(t, rows, uninit);
    var currentLength;
    rowIndices, currentLength := SliceStarts(colWidths);
    PosGrows(t, colWidths[..], 0, |t|);
    cols := new int[currentLength];
    data := new int[currentLength];
    currentIndex := Pack(t, rows, colWidths, longestCol, cols, data);
    if NoEmptyRows(t, rows) {
      forall i | 0 <= i < |t| && 1 <= t[i].row && (t[i].row - 1) % 16 == 0 && RowCount(t[..i], t[i].row) == 0
        ensures (t[i].row - 1) / 16 < rowIndices.Length && Slot(t, colWidths[..], i) == rowIndices[(t[i].row - 1) / 16]
      {
        SliceStartAt(t, rows, uninit, i);
      }
    }
  }
}
