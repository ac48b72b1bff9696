/** The ELL converter: pass 1 finds one row width for the whole matrix,
    pass 2 lays the rows out one after another, each padded to that width
    with column -1.  Slots a row leaves unused and skipped rows are padded;
    only `cols` is written at a padding slot, `data` keeps what it held. */
module Ell {
  import opened Triples
  import opened Layout

  /** `longest_col` after pass 1 has read n triples: at each row change the
      run just completed is folded in.  The run still open at the end of the
      stream is never folded in. */
  ghost function WidthAfter(t: seq<Triple>, n: nat): (width: nat)
    requires n <= |t|
  {
    if n == 0 then 0
    else if IsChange(t, n - 1) && Run(t, n - 1) > WidthAfter(t, n - 1) then Run(t, n - 1)
    else WidthAfter(t, n - 1)
  }

  /** The row width pass 1 settles on. */
  ghost function Width(t: seq<Triple>): (width: nat) {
    WidthAfter(t, |t|)
  }

  /** The width is the longest run that a row change closes, and 0 when no
      row change happens. */
  lemma {:induction false} WidthIsMaxRun(t: seq<Triple>, n: nat)
    requires n <= |t|
    ensures forall i :: 0 <= i < n && IsChange(t, i) ==> Run(t, i) <= WidthAfter(t, n)
    ensures WidthAfter(t, n) == 0 || exists i :: 0 <= i < n && IsChange(t, i) && Run(t, i) == WidthAfter(t, n)
  {
    if n > 0 {
      WidthIsMaxRun(t, n - 1);
    }
  }

  /** Pointwise form of the first half of WidthIsMaxRun. */
  lemma RunWithinWidth(t: seq<Triple>, i: nat)
    requires i < |t| && IsChange(t, i)
    ensures Run(t, i) <= Width(t)
  {
    WidthIsMaxRun(t, |t|);
  }

  /** The final row's run can exceed the width: rows 1 and 2 below hold one
      and two triples, yet the width is 1. */
  lemma FinalRowNotCounted()
    ensures var t := [Triple(1, 1, 5), Triple(2, 1, 6), Triple(2, 2, 7)];
            Width(t) == 1 && Run(t, |t|) == 2 && RowCount(t, 2) == 2
  {
    var t := [Triple(1, 1, 5), Triple(2, 1, 6), Triple(2, 2, 7)];
    assert WidthAfter(t, 1) == 0 && Run(t, 1) == 1;
    assert WidthAfter(t, 2) == 1 && Run(t, 2) == 1;
    assert WidthAfter(t, 3) == 1 && Run(t, 3) == 2;
    assert t[..2][..1] == t[..1] && t[..1][..0] == [];
    assert t[..|t| - 1] == t[..2];
    assert RowCount(t[..1], 2) == 0;
    assert RowCount(t[..2], 2) == 1;
  }

  /** On sorted input every row before the last holds at most Width(t)
      triples: its run is closed by the change into a later row. */
  lemma EarlierRowsWithinWidth(t: seq<Triple>, rows: int, r: int)
    requires WellFormed(t, rows) && |t| > 0 && r < t[|t| - 1].row
    ensures RowCount(t, r) <= Width(t)
  {
    var n := FirstAbove(t, r);
    if n > 0 && t[n - 1].row == r {
      SortedAt(t, n - 1, n);
      RunIsRank(t, n);
      RowCountSplit(t, n, r);
      RunWithinWidth(t, n);
    } else {
      forall j | 0 <= j < |t|
        ensures t[j].row != r
      {
        if j < n {
          SortedAt(t, j, n - 1);
        } else {
          SortedAt(t, n, j);
        }
      }
      RowCountAbsent(t, r);
    }
  }

  /** The first triple whose row lies above r. */
  lemma {:induction false} FirstAbove(t: seq<Triple>, r: int) returns (n: nat)
    requires Sorted(t) && |t| > 0 && r < t[|t| - 1].row
    ensures n < |t| && t[n].row > r && (n == 0 || t[n - 1].row <= r)
    decreases |t|
  {
    var u := t[..|t| - 1];
    if |u| > 0 && r < u[|u| - 1].row {
      SortedPrefix(t, |t| - 1);
      n := FirstAbove(u, r);
    } else {
      n := |t| - 1;
    }
  }

  /** Where row r starts when every row takes w slots: the r - 1 rows
      before it, (r - 1) * w (RowBaseIsProduct). */
  ghost function RowBase(r: int, w: int): (base: int) {
    Span(r - 1, w)
  }

  lemma RowBaseIsProduct(r: int, w: int)
    requires r >= 1
    ensures RowBase(r, w) == (r - 1) * w
  {
    SpanIsProduct(r - 1, w);
  }

  /** A later row starts at least one full row further on. */
  lemma {:induction false} RowBaseGrows(a: int, b: int, w: int)
    requires 1 <= a < b && w >= 0
    ensures RowBase(a, w) + w <= RowBase(b, w)
    decreases b
  {
    if a < b - 1 {
      RowBaseGrows(a, b - 1, w);
    }
  }

  /** `current_index` in pass 2 after n triples, in closed form. */
  ghost function Pos(t: seq<Triple>, w: int, n: nat): (index: int)
    requires n <= |t|
  {
    RowBase(PrevRow(t, n), w) + Run(t, n)
  }

  /** The slot pass 2 gives triple i: its row's base plus its rank in the row. */
  ghost function Slot(t: seq<Triple>, w: int, i: nat): (slot: int)
    requires i < |t|
  {
    RowBase(t[i].row, w) + Run(t, i + 1) - 1
  }

  /** How Pos advances over triple i, whose slot is the index just before. */
  lemma PosNext(t: seq<Triple>, w: int, i: nat)
    requires i < |t|
    ensures Slot(t, w, i) == Pos(t, w, i + 1) - 1
    ensures !IsChange(t, i) ==> Pos(t, w, i + 1) == Pos(t, w, i) + 1
    ensures IsChange(t, i) ==> Pos(t, w, i + 1) == RowBase(t[i].row, w) + 1
  {
  }

  /** `current_index` after the trailing padding. */
  ghost function End(t: seq<Triple>, w: int): (index: int) {
    RowBase(PrevRow(t, |t|), w) + (if Run(t, |t|) > w then Run(t, |t|) else w)
  }

  /** Every write of pass 2 lands inside the `longest_col * number_of_rows`
      buffer.  The code does not check this; it fails exactly when the last
      row is longer than the width and reaches past the buffer's end. */
  ghost predicate Fits(t: seq<Triple>, rows: int) {
    End(t, Width(t)) <= Width(t) * rows
  }

  lemma MulMono(a: int, b: int, w: int)
    requires a <= b && w >= 0
    ensures a * w <= b * w
  {
  }

  /** One triple moves pass 2 at least one slot on: a row change skips
      the padding of the row it leaves and of every skipped row. */
  lemma PosStep(t: seq<Triple>, rows: int, m: nat)
    requires WellFormed(t, rows) && m < |t|
    ensures Pos(t, Width(t), m) + 1 <= Pos(t, Width(t), m + 1)
  {
    if IsChange(t, m) {
      var w, p := Width(t), PrevRow(t, m);
      ChangeIncreasesRow(t, rows, m);
      ChangesBound(t, rows, m);
      RunWithinWidth(t, m);
      RowBaseGrows(p, t[m].row, w);
    }
  }

  /** Pass 2 moves at least one slot per triple. */
  lemma {:induction false} PosGrows(t: seq<Triple>, rows: int, m: nat, n: nat)
    requires WellFormed(t, rows) && m <= n <= |t|
    ensures Pos(t, Width(t), m) + (n - m) <= Pos(t, Width(t), n)
    decreases n - m
  {
    if m < n {
      PosStep(t, rows, m);
      PosGrows(t, rows, m + 1, n);
    }
  }

  /** Triples get increasing slots: each triple has its own. */
  lemma SlotsIncrease(t: seq<Triple>, rows: int, i: nat, j: nat)
    requires WellFormed(t, rows) && i < j < |t|
    ensures Slot(t, Width(t), i) < Slot(t, Width(t), j)
  {
    PosGrows(t, rows, i + 1, j + 1);
  }

  /** Read as a layout: triple i of row r with k earlier triples in that row
      goes to (r - 1) * width + k. */
  lemma SlotIsRowMajor(t: seq<Triple>, rows: int, w: int, i: nat)
    requires WellFormed(t, rows) && i < |t|
    ensures Slot(t, w, i) == (t[i].row - 1) * w + RowCount(t[..i], t[i].row)
  {
    RowInRange(t, rows, i);
    RowBaseIsProduct(t[i].row, w);
    RunIsRank(t, i + 1);
    assert t[..i + 1][..i] == t[..i];
  }

  /** When the last row is no longer than the width everything fits, and the
      index after the trailing padding is last row * width; it equals the
      buffer length exactly when the last row is row `rows`. */
  lemma EndWhenLastRowFits(t: seq<Triple>, rows: int)
    requires WellFormed(t, rows) && Run(t, |t|) <= Width(t)
    ensures End(t, Width(t)) == PrevRow(t, |t|) * Width(t)
    ensures |t| > 0 ==> Fits(t, rows)
  {
    var w, p := Width(t), PrevRow(t, |t|);
    ChangesBound(t, rows, |t|);
    RowBaseIsProduct(p, w);
    if |t| > 0 {
      MulMono(p, rows, w);
    }
  }

  /** In that case the buffer is filled exactly when the stream ends in the
      last row. */
  lemma FullIffLastRow(t: seq<Triple>, rows: int)
    requires WellFormed(t, rows) && Run(t, |t|) <= Width(t) && Width(t) > 0
    ensures End(t, Width(t)) == Width(t) * rows <==> PrevRow(t, |t|) == rows
  {
    var w, p := Width(t), PrevRow(t, |t|);
    EndWhenLastRowFits(t, rows);
    ChangesBound(t, rows, |t|);
    if p < rows {
      MulMono(p + 1, rows, w);
    } else if p > rows {
      MulMono(rows + 1, p, w);
    }
  }

  /** A one-row matrix has no row change, so the width is 0 and the buffer
      is empty, yet pass 2 writes the row's first triple. */
  lemma SingleRowOverflows()
    ensures var t := [Triple(1, 1, 1)]; Width(t) == 0 && !Fits(t, 1)
  {
  }

  /** Ordinary input overruns the buffer too: in a 3-row lower-triangular
      matrix (rows of 1, 2 and 3 triples) the width is 2, so the buffer
      holds 6 entries, but the last row needs slots 4, 5 and 6. */
  lemma LowerTriangularOverflows()
    ensures var t := [Triple(1, 1, 1), Triple(2, 1, 1), Triple(2, 2, 1), Triple(3, 1, 1), Triple(3, 2, 1), Triple(3, 3, 1)];
            Width(t) == 2 && End(t, 2) == 7 && !Fits(t, 3)
  {
    var t := [Triple(1, 1, 1), Triple(2, 1, 1), Triple(2, 2, 1), Triple(3, 1, 1), Triple(3, 2, 1), Triple(3, 3, 1)];
    assert WidthAfter(t, 1) == 0 && Run(t, 1) == 1;
    assert WidthAfter(t, 2) == 1 && Run(t, 2) == 1;
    assert WidthAfter(t, 3) == 1 && Run(t, 3) == 2;
    assert WidthAfter(t, 4) == 2 && Run(t, 4) == 1;
    assert WidthAfter(t, 6) == 2 && Run(t, 6) == 3;
    assert RowBase(3, 2) == 4;
  }

  /** Pass 1 (lines 62-88): the width scan. */
  method ScanWidth(t: seq<Triple>) returns (longestCol: int)
    ensures longestCol == Width(t)
  {
    longestCol := 0;
    var previousRow := 1;
    var currentColLen := 0;
    var i := 0;
    while i < |t|
      invariant 0 <= i <= |t|
      invariant longestCol == WidthAfter(t, i)
      invariant previousRow == PrevRow(t, i)
      invariant currentColLen == Run(t, i)
    {
      var currentRow := t[i].row;
      if currentRow == previousRow {
        currentColLen := currentColLen + 1;
      } else {
        previousRow := currentRow;
        if currentColLen > longestCol {
          longestCol := currentColLen;
        }
        currentColLen := 1;
      }
      i := i + 1;
    }
  }

  /** The slots of the first n triples, as a table. */
  ghost function SlotTable(t: seq<Triple>, w: int, n: nat): (sl: seq<int>)
    requires n <= |t|
    ensures |sl| == n
  {
    if n == 0 then [] else SlotTable(t, w, n - 1) + [Slot(t, w, n - 1)]
  }

  lemma {:induction false} SlotTableAt(t: seq<Triple>, w: int, n: nat, k: nat)
    requires k < n <= |t|
    ensures SlotTable(t, w, n)[k] == Slot(t, w, k)
  {
    if k < n - 1 {
      SlotTableAt(t, w, n - 1, k);
    }
  }

  /** The state pass 2 keeps from one triple to the next.  The loop-body
      methods below take it as their parameters, in this order: the input
      (`t`, `rows`, the width `w`) and the position `i`; the buffers `cols`
      and `data`; the loop variables `current_index`, `previous_row` and
      `nonzeroes_in_row`; and the ghost bookkeeping: the slot table `sl`,
      `owner` (which triple fills each slot so far, -1 for padding) and the
      buffers `c0`, `d0` as they were before the pass. */
  ghost predicate PackState(t: seq<Triple>, rows: int, w: int, i: nat, cols: array<int>, data: array<int>,
                            currentIndex: int, previousRow: int, nonzeroesInRow: int,
                            sl: seq<int>, owner: seq<int>, c0: seq<int>, d0: seq<int>)
    reads cols, data
  {
    WellFormed(t, rows) && w == Width(t) && i <= |t| && sl == SlotTable(t, w, |t|) &&
    cols != data && End(t, w) <= cols.Length &&
    previousRow == PrevRow(t, i) && nonzeroesInRow == Run(t, i) &&
    currentIndex == Pos(t, w, i) == |owner| &&
    Laid(t, sl, i, owner, cols[..], data[..], c0, d0, d0)
  }

  /** One iteration of pass 2 (lines 107-138) when triple i stays in the
      previous row: it goes to the current index. */
  method StoreInRow(t: seq<Triple>, rows: int, w: int, i: nat, cols: array<int>, data: array<int>,
                    currentIndex: int, previousRow: int, nonzeroesInRow: int,
                    ghost sl: seq<int>, ghost owner: seq<int>, ghost c0: seq<int>, ghost d0: seq<int>)
    returns (nextIndex: int, nextCount: int, ghost nextOwner: seq<int>)
    requires PackState(t, rows, w, i, cols, data, currentIndex, previousRow, nonzeroesInRow, sl, owner, c0, d0)
    requires i < |t| && t[i].row == previousRow
    modifies cols, data
    ensures PackState(t, rows, w, i + 1, cols, data, nextIndex, t[i].row, nextCount, sl, nextOwner, c0, d0)
  {
    PosGrows(t, rows, i + 1, |t|);
    EndBound(t, rows);
    PosNext(t, w, i);
    SlotTableAt(t, w, |t|, i);
    ghost var c, d := cols[..], data[..];
    data[currentIndex] := t[i].value;
    cols[currentIndex] := t[i].col - 1;
    LaidPut(t, sl, i, owner, c, d, c0, d0, d0, cols[..], data[..]);
    nextOwner := owner + [i];
    nextIndex := currentIndex + 1;
    nextCount := nonzeroesInRow + 1;
  }

  /** One iteration of pass 2 (lines 107-138) when triple i starts a new
      row: the rest of the previous row and every skipped row is padded,
      then the triple goes to the next index. */
  method StoreNewRow(t: seq<Triple>, rows: int, w: int, i: nat, cols: array<int>, data: array<int>,
                     currentIndex: int, previousRow: int, nonzeroesInRow: int,
                     ghost sl: seq<int>, ghost owner: seq<int>, ghost c0: seq<int>, ghost d0: seq<int>)
    returns (nextIndex: int, ghost nextOwner: seq<int>)
    requires PackState(t, rows, w, i, cols, data, currentIndex, previousRow, nonzeroesInRow, sl, owner, c0, d0)
    requires i < |t| && t[i].row != previousRow
    modifies cols, data
    ensures PackState(t, rows, w, i + 1, cols, data, nextIndex, t[i].row, 1, sl, nextOwner, c0, d0)
  {
    PosGrows(t, rows, i + 1, |t|);
    EndBound(t, rows);
    PosNext(t, w, i);
    SlotTableAt(t, w, |t|, i);
    ghost var c, d := cols[..], data[..];
    var diff := t[i].row - previousRow;
    PadStep(t, rows, i, w, diff);
    nextIndex := PadColumns(cols, currentIndex, nonzeroesInRow, w * diff);
    ghost var c1 := cols[..];
    cols[nextIndex] := t[i].col - 1;
    data[nextIndex] := t[i].value;
    LaidPadColumns(t, sl, i, owner, c, d, c0, d0, c1, nextIndex - currentIndex);
    LaidPut(t, sl, i, owner + Padding(nextIndex - currentIndex), c1, d, c0, d0, d0, cols[..], data[..]);
    nextOwner := owner + Padding(nextIndex - currentIndex) + [i];
    nextIndex := nextIndex + 1;
  }

  /** Pass 2 (lines 105-148) into caller-provided buffers. */
  method Pack(t: seq<Triple>, rows: int, longestCol: int, cols: array<int>, data: array<int>) returns (currentIndex: int)
    requires WellFormed(t, rows) && longestCol == Width(t) && Fits(t, rows)
    requires cols != data && cols.Length == longestCol * rows && data.Length == longestCol * rows
    modifies cols, data
    ensures currentIndex == End(t, longestCol)
    ensures forall i :: 0 <= i < |t| ==> (0 <= Slot(t, longestCol, i) < currentIndex &&
              cols[Slot(t, longestCol, i)] == t[i].col - 1 && data[Slot(t, longestCol, i)] == t[i].value)
    ensures forall p :: 0 <= p < currentIndex && (forall i :: 0 <= i < |t| ==> Slot(t, longestCol, i) != p) ==>
              (cols[p] == -1 && data[p] == old(data[p]))
    ensures forall p :: currentIndex <= p < cols.Length ==> cols[p] == old(cols[p]) && data[p] == old(data[p])
  {
    var w := longestCol;
    var previousRow := 1;
    currentIndex := 0;
    var nonzeroesInRow := 0;
    var i: nat := 0;
    ghost var owner: seq<int> := [];
    ghost var c0, d0 := cols[..], data[..];
    ghost var sl := SlotTable(t, w, |t|);
    EndBound(t, rows);
    while i < |t|
      invariant PackState(t, rows, w, i, cols, data, currentIndex, previousRow, nonzeroesInRow, sl, owner, c0, d0)
    {
      var currentRow := t[i].row;
      if previousRow == currentRow {
        currentIndex, nonzeroesInRow, owner :=
          StoreInRow(t, rows, w, i, cols, data, currentIndex, previousRow, nonzeroesInRow, sl, owner, c0, d0);
      } else {
        currentIndex, owner :=
          StoreNewRow(t, rows, w, i, cols, data, currentIndex, previousRow, nonzeroesInRow, sl, owner, c0, d0);
        nonzeroesInRow := 1;
      }
      previousRow := currentRow;
      i := i + 1;
    }
    currentIndex := PadLastRow(t, rows, w, cols, data, currentIndex, previousRow, nonzeroesInRow, sl, owner, c0, d0);
  }

  /** The padding after the loop (lines 144-148): the last row is padded up
      to the width, and the layout is complete. */
  method PadLastRow(t: seq<Triple>, rows: int, w: int, cols: array<int>, data: array<int>,
                    currentIndex: int, previousRow: int, nonzeroesInRow: int,
                    ghost sl: seq<int>, ghost owner: seq<int>, ghost c0: seq<int>, ghost d0: seq<int>)
    returns (endIndex: int)
    requires PackState(t, rows, w, |t|, cols, data, currentIndex, previousRow, nonzeroesInRow, sl, owner, c0, d0)
    modifies cols
    ensures endIndex == End(t, w)
    ensures forall i :: 0 <= i < |t| ==> (0 <= Slot(t, w, i) < endIndex &&
              cols[Slot(t, w, i)] == t[i].col - 1 && data[Slot(t, w, i)] == t[i].value)
    ensures forall p :: 0 <= p < endIndex && (forall i :: 0 <= i < |t| ==> Slot(t, w, i) != p) ==>
              (cols[p] == -1 && data[p] == d0[p])
    ensures forall p :: endIndex <= p < cols.Length ==> cols[p] == c0[p] && data[p] == d0[p]
  {
    EndBound(t, rows);
    ghost var c := cols[..];
    endIndex := PadColumns(cols, currentIndex, nonzeroesInRow, w);
    LaidPadColumns(t, sl, |t|, owner, c, data[..], c0, d0, cols[..], endIndex - currentIndex);
    PackDone(t, w, sl, owner + Padding(endIndex - currentIndex), cols[..], data[..], c0, d0);
  }

  /** What Laid says once every triple is stored, stated over slots. */
  lemma PackDone(t: seq<Triple>, w: int, sl: seq<int>, owner: seq<int>, c: seq<int>, d: seq<int>, c0: seq<int>, d0: seq<int>)
    requires sl == SlotTable(t, w, |t|) && Laid(t, sl, |t|, owner, c, d, c0, d0, d0)
    ensures forall i :: 0 <= i < |t| ==> 0 <= Slot(t, w, i) < |owner| && c[Slot(t, w, i)] == t[i].col - 1 && d[Slot(t, w, i)] == t[i].value
    ensures forall p :: 0 <= p < |owner| && (forall i :: 0 <= i < |t| ==> Slot(t, w, i) != p) ==> c[p] == -1 && d[p] == d0[p]
    ensures forall p :: |owner| <= p < |c| ==> c[p] == c0[p] && d[p] == d0[p]
  {
    forall k | 0 <= k < |t|
      ensures sl[k] == Slot(t, w, k)
    {
      SlotTableAt(t, w, |t|, k);
    }
    LaidDone(t, sl, owner, c, d, c0, d0, d0);
  }

  /** Padding on a row change brings the index from the end of the previous
      row's triples to the start of the new row. */
  lemma PadStep(t: seq<Triple>, rows: int, i: nat, w: int, diff: int)
    requires WellFormed(t, rows) && i < |t| && IsChange(t, i)
    requires w == Width(t) && diff == t[i].row - PrevRow(t, i)
    ensures w * diff >= Run(t, i)
    ensures Pos(t, w, i) + (w * diff - Run(t, i)) == Pos(t, w, i + 1) - 1
  {
    ChangeIncreasesRow(t, rows, i);
    ChangesBound(t, rows, i);
    RunWithinWidth(t, i);
    MulMono(1, diff, w);
    RowBaseShift(PrevRow(t, i), diff, w);
  }

  /** k rows further on is k * w slots further on. */
  lemma {:induction false} RowBaseShift(a: int, k: nat, w: int)
    requires a >= 1
    ensures RowBase(a + k, w) == RowBase(a, w) + w * k
  {
    if k > 0 {
      RowBaseShift(a, k - 1, w);
      assert w * (k - 1) + w == w * k;
    }
  }


  /** The index before trailing padding never passes the end. */
  lemma EndBound(t: seq<Triple>, rows: int)
    requires WellFormed(t, rows)
    ensures Pos(t, Width(t), |t|) <= End(t, Width(t))
  {
  }

  /** The whole conversion: pass 1, the allocation, pass 2. */
  method Convert(t: seq<Triple>, rows: int) returns (cols: array<int>, data: array<int>, longestCol: int, currentIndex: int)
    requires WellFormed(t, rows) && Fits(t, rows)
    ensures longestCol == Width(t)
    ensures cols.Length == longestCol * rows && data.Length == longestCol * rows
    ensures currentIndex == End(t, longestCol)
    ensures forall i :: 0 <= i < |t| ==> (0 <= Slot(t, longestCol, i) < currentIndex &&
              cols[Slot(t, longestCol, i)] == t[i].col - 1 && data[Slot(t, longestCol, i)] == t[i].value)
    ensures forall p :: 0 <= p < currentIndex && (forall i :: 0 <= i < |t| ==> Slot(t, longestCol, i) != p) ==>
              cols[p] == -1
  {
    longestCol := ScanWidth(t);
    ChangesBound(t, rows, |t|);
    cols := new int[longestCol * rows];
    data := new int[longestCol * rows];
    currentIndex := Pack(t, rows, longestCol, cols, data);
  }
}
