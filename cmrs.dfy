/** The CMRS converter: one pass that copies columns and values in file
    order, gives every triple its row slot within a strip of 16 rows
    (`height`, line 39), and records in `strip_ptr` where each strip
    starts.  Strips, like the sliced ELL slices, are counted in row
    changes: a strip ends at every 16th row change. */
module Cmrs {
  import opened Triples

  /** `current_strip_row` after n triples: it moves on at each row change
      and wraps from 15 back to 0 (lines 85-102). */
  ghost function StripRow(t: seq<Triple>, n: nat): (slot: nat)
    requires n <= |t|
  {
    if n == 0 then 0
    else if IsChange(t, n - 1) then (if StripRow(t, n - 1) == 16 - 1 then 0 else StripRow(t, n - 1) + 1)
    else StripRow(t, n - 1)
  }

  /** The triple indices the loop records in `strip_ptr[1..]` over the first
      n triples: those where the counter wraps. */
  ghost function StripStarts(t: seq<Triple>, n: nat): (starts: seq<nat>)
    requires n <= |t|
  {
    if n == 0 then []
    else if IsChange(t, n - 1) && StripRow(t, n - 1) == 16 - 1 then StripStarts(t, n - 1) + [n - 1]
    else StripStarts(t, n - 1)
  }

  /** The counter is the number of row changes modulo 16, and a strip
      starts at every 16th row change. */
  lemma {:induction false} StripsCountChanges(t: seq<Triple>, n: nat)
    requires n <= |t|
    ensures StripRow(t, n) == Changes(t, n) % 16
    ensures |StripStarts(t, n)| == Changes(t, n) / 16
    ensures forall k :: 0 <= k < |StripStarts(t, n)| ==>
              16 * k + 15 < Changes(t, n) && StripStarts(t, n)[k] == ChangeIndices(t, n)[16 * k + 15]
  {
    if n > 0 {
      StripsCountChanges(t, n - 1);
      GroupStep(Changes(t, n - 1));
    }
  }

  /** On well-formed input no more strips start than `strip_ptr` has room
      for below its last entry. */
  lemma StripsFit(t: seq<Triple>, rows: nat, n: nat)
    requires WellFormed(t, rows) && n <= |t|
    ensures |StripStarts(t, n)| <= rows / 16
  {
    StripsCountChanges(t, n);
    ChangesBound(t, rows, n);
    if |t| == 0 {
      assert Changes(t, n) == 0;
    }
  }

  /** The loop's variables after i triples, the arrays given by their
      contents. */
  ghost predicate StripState(t: seq<Triple>, rows: nat, i: nat, cols: seq<int>, data: seq<int>, stripPtr: seq<int>,
                             rowInStrip: seq<int>, previousRow: int, currentStripRow: int, stripIndex: int)
  {
    WellFormed(t, rows) && i <= |t| &&
    |cols| == |data| == |rowInStrip| == |t| && |stripPtr| == rows / 16 + 1 &&
    previousRow == PrevRow(t, i) && currentStripRow == StripRow(t, i) &&
    stripIndex == 1 + |StripStarts(t, i)| <= rows / 16 + 1 &&
    stripPtr[0] == 0 &&
    (forall k {:trigger stripPtr[k]} :: 1 <= k < stripIndex ==> stripPtr[k] == StripStarts(t, i)[k - 1]) &&
    (forall k {:trigger cols[k]} {:trigger data[k]} {:trigger rowInStrip[k]} :: 0 <= k < i ==>
       cols[k] == t[k].col - 1 && data[k] == t[k].value && rowInStrip[k] == StripRow(t, k + 1))
  }

  /** What the converter leaves, the arrays given by their contents:
      columns and values copied in file order; each triple's row slot
      within its strip, the row changes so far modulo 16; one strip start
      per 16 row changes, all within `strip_ptr` below its last entry,
      strictly increasing; entry 0 is 0 and entry rows / 16 the number of
      triples, that last write winning over entry 0 or over a strip start
      that landed on the same entry. */
  ghost predicate Built(t: seq<Triple>, rows: nat, cols: seq<int>, data: seq<int>, stripPtr: seq<int>,
                        rowInStrip: seq<int>, stripIndex: int)
  {
    |cols| == |data| == |rowInStrip| == |t| && |stripPtr| == rows / 16 + 1 &&
    // columns and values in file order, 0-based columns
    (forall i {:trigger cols[i]} {:trigger data[i]} :: 0 <= i < |t| ==> cols[i] == t[i].col - 1 && data[i] == t[i].value) &&
    // a triple's slot within its strip: the row changes so far, modulo 16
    (forall i {:trigger rowInStrip[i]} :: 0 <= i < |t| ==> rowInStrip[i] == Changes(t, i + 1) % 16) &&
    // one strip start per 16 row changes, all below the last entry, increasing
    stripIndex == 1 + Changes(t, |t|) / 16 <= rows / 16 + 1 &&
    (forall k :: 1 <= k < stripIndex && k != rows / 16 ==> stripPtr[k] == ChangeIndices(t, |t|)[16 * k - 1]) &&
    (forall j, k :: 1 <= j < k < stripIndex && k != rows / 16 ==> stripPtr[j] < stripPtr[k]) &&
    // the first and the last entry
    stripPtr[0] == (if rows / 16 == 0 then |t| else 0) &&
    stripPtr[rows / 16] == |t|
  }

  /** Builds `cols`, `data`, `row_in_strip` and `strip_ptr` (lines 63-110).
      `strip_ptr` has rows / 16 + 1 entries (the `ceil` at line 65 is
      applied to an integer quotient); the loop writes entry k at the
      (16k)-th row change, and entry rows / 16 is then set to the number
      of triples. */
  method Convert(t: seq<Triple>, rows: nat)
    returns (cols: array<int>, data: array<int>, stripPtr: array<int>, rowInStrip: array<int>, stripIndex: int)
    requires WellFormed(t, rows)
    ensures cols.Length == data.Length == rowInStrip.Length == |t| && stripPtr.Length == rows / 16 + 1
    // columns and values copied; row slots are the row changes modulo 16;
    // one strip start per 16 row changes, increasing; entry rows / 16 is nnz
    ensures Built(t, rows, cols[..], data[..], stripPtr[..], rowInStrip[..], stripIndex)
    // with no empty row, entry k is where strip k (rows 16k+1 ..) starts
    ensures NoEmptyRows(t, rows) ==> forall k :: 0 <= k < rows / 16 ==> stripPtr[k] == CountBelow(t, 16 * k + 1)
  {
    cols := new int[|t|];
    data := new int[|t|];
    stripPtr := new int[rows / 16 + 1];
    rowInStrip := new int[|t|];
    stripPtr[0] := 0;
    var previousRow := 1;
    var currentStripRow := 0;
    stripIndex := 1;
    var i := 0;
    while i < |t|
      invariant StripState(t, rows, i, cols[..], data[..], stripPtr[..], rowInStrip[..], previousRow, currentStripRow, stripIndex)
    {
      var currentRow := t[i].row;
      if previousRow == currentRow {
        StoreInRow(t, rows, i, cols, data, stripPtr, rowInStrip, previousRow, currentStripRow, stripIndex);
      } else {
        currentStripRow, stripIndex :=
          StoreNewRow(t, rows, i, cols, data, stripPtr, rowInStrip, previousRow, currentStripRow, stripIndex);
        previousRow := currentRow;
      }
      i := i + 1;
    }
    ghost var sp := stripPtr[..];
    stripPtr[rows / 16] := |t|;
    StripsDone(t, rows, cols[..], data[..], sp, stripPtr[..], rowInStrip[..], previousRow, currentStripRow, stripIndex);
    if NoEmptyRows(t, rows) {
      DenseStripStarts(t, rows, cols[..], data[..], stripPtr[..], rowInStrip[..], stripIndex);
    }
  }

  /** Between two consecutive recorded strip starts the row slots never go
      down: every triple there lies after the (16k)-th row change and before
      the (16k + 16)-th, so its slot is the change count minus 16k. */
  lemma RowInStripOrdered(t: seq<Triple>, rows: nat, cols: seq<int>, data: seq<int>, sp: seq<int>,
                          rowInStrip: seq<int>, stripIndex: int, k: nat, i: nat, j: nat)
    requires Built(t, rows, cols, data, sp, rowInStrip, stripIndex)
    requires k + 1 < stripIndex && k + 1 != rows / 16 && sp[k] <= i <= j < sp[k + 1]
    ensures j < |t| && rowInStrip[i] <= rowInStrip[j]
  {
    var n := |t|;
    ChangeIndexRank(t, n, 16 * k + 15);
    ChangesMonotone(t, j + 1, sp[k + 1]);
    ChangesMonotone(t, i + 1, j + 1);
    if k >= 1 {
      ChangeIndexRank(t, n, 16 * k - 1);
      ChangesMonotone(t, sp[k] + 1, i + 1);
    }
    InBlock(Changes(t, i + 1), Changes(t, j + 1), k);
  }

  /** The same for the final strip, which runs from the last strip start
      the loop recorded to the end of the stream (when the final write at
      line 110 has not replaced that start). */
  lemma LastStripOrdered(t: seq<Triple>, rows: nat, cols: seq<int>, data: seq<int>, sp: seq<int>,
                         rowInStrip: seq<int>, stripIndex: int, i: nat, j: nat)
    requires Built(t, rows, cols, data, sp, rowInStrip, stripIndex)
    requires stripIndex - 1 != rows / 16 && sp[stripIndex - 1] <= i <= j < |t|
    ensures rowInStrip[i] <= rowInStrip[j]
  {
    var k := stripIndex - 1;
    assert Changes(t, |t|) < 16 * k + 16;
    ChangesMonotone(t, j + 1, |t|);
    ChangesMonotone(t, i + 1, j + 1);
    if k >= 1 {
      ChangeIndexRank(t, |t|, 16 * k - 1);
      ChangesMonotone(t, sp[k] + 1, i + 1);
    }
    InBlock(Changes(t, i + 1), Changes(t, j + 1), k);
  }

  /** Read without `strip_ptr`: two triples in the same strip, that is
      after the same number of completed groups of 16 row changes, get
      row slots in stream order. */
  lemma SameStripOrdered(t: seq<Triple>, rows: nat, cols: seq<int>, data: seq<int>, sp: seq<int>,
                         rowInStrip: seq<int>, stripIndex: int, i: nat, j: nat)
    requires Built(t, rows, cols, data, sp, rowInStrip, stripIndex)
    requires i <= j < |t| && Changes(t, i + 1) / 16 == Changes(t, j + 1) / 16
    ensures rowInStrip[i] <= rowInStrip[j]
  {
    ChangesMonotone(t, i + 1, j + 1);
    InBlock(Changes(t, i + 1), Changes(t, j + 1), Changes(t, i + 1) / 16);
  }

  /** Two counts within one block of 16 compare as their remainders do. */
  lemma InBlock(a: int, b: int, k: int)
    requires 16 * k <= a <= b < 16 * k + 16
    ensures a % 16 <= b % 16
  {
    assert a % 16 == a - 16 * k && b % 16 == b - 16 * k;
  }

  /** With no empty row there are exactly rows - 1 row changes, so strip k
      starts at the first triple of row 16k + 1 (1-based). */
  lemma DenseStripStarts(t: seq<Triple>, rows: nat, cols: seq<int>, data: seq<int>, sp: seq<int>,
                          rowInStrip: seq<int>, stripIndex: int)
    requires WellFormed(t, rows) && NoEmptyRows(t, rows)
    requires Built(t, rows, cols, data, sp, rowInStrip, stripIndex)
    ensures forall k :: 0 <= k < rows / 16 ==> sp[k] == CountBelow(t, 16 * k + 1)
  {
    if rows / 16 > 0 {
      DenseLastRow(t, rows);
      DenseChanges(t, rows, |t|);
      forall k | 0 <= k < |t|
        ensures t[k].row >= 1
      {
        RowInRange(t, rows, k);
      }
      CountBelowAt(t, 0, 1);
      forall k | 1 <= k < rows / 16
        ensures sp[k] == CountBelow(t, 16 * k + 1)
      {
        var i := DenseRowStart(t, rows, 16 * k);
        ChangeIndicesAt(t, |t|, i);
      }
    }
  }

  /** With no empty row, the last strip start the loop writes lands on
      entry rows / 16, and is overwritten there by the triple count,
      exactly when 16 does not divide rows. */
  lemma DenseLastStrip(t: seq<Triple>, rows: nat)
    requires WellFormed(t, rows) && NoEmptyRows(t, rows) && rows >= 1
    ensures Changes(t, |t|) / 16 == rows / 16 <==> rows % 16 != 0
  {
    DenseLastRow(t, rows);
    DenseChanges(t, rows, |t|);
  }

  /** After the loop, the final write to `strip_ptr[rows / 16]` leaves the
      arrays Built. */
  lemma StripsDone(t: seq<Triple>, rows: nat, cols: seq<int>, data: seq<int>, sp: seq<int>, sp1: seq<int>,
                   rowInStrip: seq<int>, previousRow: int, currentStripRow: int, stripIndex: int)
    requires StripState(t, rows, |t|, cols, data, sp, rowInStrip, previousRow, currentStripRow, stripIndex)
    requires sp1 == sp[rows / 16 := |t|]
    ensures Built(t, rows, cols, data, sp1, rowInStrip, stripIndex)
  {
    StripsCountChanges(t, |t|);
    ChangeIndicesIncrease(t, |t|);
    forall k | 1 <= k < stripIndex && k != rows / 16
      ensures sp1[k] == ChangeIndices(t, |t|)[16 * k - 1]
    {
      assert 16 * (k - 1) + 15 == 16 * k - 1;
    }
    forall i | 0 <= i < |t|
      ensures rowInStrip[i] == Changes(t, i + 1) % 16
    {
      StripsCountChanges(t, i + 1);
    }
  }

  /** A triple in the same row as the previous one (lines 81-88). */
  method StoreInRow(t: seq<Triple>, rows: nat, i: nat, cols: array<int>, data: array<int>, stripPtr: array<int>,
                    rowInStrip: array<int>, previousRow: int, currentStripRow: int, stripIndex: int)
    requires i < |t| && t[i].row == previousRow
    requires StripState(t, rows, i, cols[..], data[..], stripPtr[..], rowInStrip[..], previousRow, currentStripRow, stripIndex)
    requires cols != data && cols != rowInStrip && data != rowInStrip
    requires stripPtr != cols && stripPtr != data && stripPtr != rowInStrip
    modifies cols, data, rowInStrip
    ensures StripState(t, rows, i + 1, cols[..], data[..], stripPtr[..], rowInStrip[..], previousRow, currentStripRow, stripIndex)
  {
    var currentCol := t[i].col - 1;
    data[i] := t[i].value;
    cols[i] := currentCol;
    rowInStrip[i] := currentStripRow;
  }

  /** A triple that starts a new row (lines 81-83, 89-105): the counter
      moves on, and when it wraps the triple starts a new strip. */
  method StoreNewRow(t: seq<Triple>, rows: nat, i: nat, cols: array<int>, data: array<int>, stripPtr: array<int>,
                     rowInStrip: array<int>, previousRow: int, currentStripRow: int, stripIndex: int)
    returns (nextStripRow: int, nextIndex: int)
    requires i < |t| && t[i].row != previousRow
    requires StripState(t, rows, i, cols[..], data[..], stripPtr[..], rowInStrip[..], previousRow, currentStripRow, stripIndex)
    requires cols != data && cols != rowInStrip && data != rowInStrip
    requires stripPtr != cols && stripPtr != data && stripPtr != rowInStrip
    modifies cols, data, stripPtr, rowInStrip
    ensures StripState(t, rows, i + 1, cols[..], data[..], stripPtr[..], rowInStrip[..], t[i].row, nextStripRow, nextIndex)
  {
    StripsFit(t, rows, i + 1);
    var currentCol := t[i].col - 1;
    data[i] := t[i].value;
    cols[i] := currentCol;
    nextStripRow, nextIndex := currentStripRow, stripIndex;
    if currentStripRow == 16 - 1 {
      stripPtr[stripIndex] := i;
      nextIndex := stripIndex + 1;
      nextStripRow := 0;
    } else {
      nextStripRow := currentStripRow + 1;
    }
    rowInStrip[i] := nextStripRow;
  }
}
