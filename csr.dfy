/** The compressed-sparse-row (CSR) converter: one pass that copies columns
    and values and records in `ptr` the triple index of every row change. */
module Csr {
  import opened Triples

  /** With no empty row, a table that starts at 0, ends at |t| and in
      between lists the row changes is the row-start table, and its
      differences are the row lengths. */
  lemma DensePtr(t: seq<Triple>, rowsNr: nat, ptr: seq<int>)
    requires WellFormed(t, rowsNr) && NoEmptyRows(t, rowsNr)
    requires |ptr| == rowsNr + 1 && ptr[0] == 0 && ptr[rowsNr] == |t|
    requires 1 + Changes(t, |t|) <= |ptr|
    requires forall k :: 1 <= k < 1 + Changes(t, |t|) ==> ptr[k] == ChangeIndices(t, |t|)[k - 1]
    ensures forall r :: 0 <= r <= rowsNr ==> ptr[r] == CountBelow(t, r + 1)
    ensures forall r :: 0 <= r < rowsNr ==> ptr[r + 1] - ptr[r] == RowCount(t, r + 1)
  {
    forall r | 0 <= r <= rowsNr
      ensures ptr[r] == CountBelow(t, r + 1)
    {
      if r == 0 || r == rowsNr {
        forall k | 0 <= k < |t|
          ensures 1 <= t[k].row < rowsNr + 1
        {
          RowInRange(t, rowsNr, k);
        }
        if r == 0 {
          CountBelowAt(t, 0, 1);
        } else {
          CountBelowAt(t, |t|, rowsNr + 1);
        }
      } else {
        var i := DenseRowStart(t, rowsNr, r);
        ChangeIndicesAt(t, |t|, i);
      }
    }
    forall r | 0 <= r < rowsNr
      ensures ptr[r + 1] - ptr[r] == RowCount(t, r + 1)
    {
      CountBelowStep(t, r + 1);
    }
  }

  /** Builds `ptr`, `cols` and `data_int`.  `ptr[0]` and `ptr[rowsNr]` are set
      first; the loop then writes one entry per row change, so an empty row
      gets no entry of its own.  Entries the loop never reaches keep whatever
      the allocation held; nothing is promised about them. */
  method Convert(t: seq<Triple>, rowsNr: nat) returns (ptr: array<int>, cols: array<int>, data: array<int>, ptrIndex: int)
    requires WellFormed(t, rowsNr)
    ensures ptr.Length == rowsNr + 1 && cols.Length == |t| && data.Length == |t|
    ensures ptr[0] == 0 && ptr[rowsNr] == |t|
    // one entry per row change, all below index rowsNr, so ptr[rowsNr] survives
    ensures ptrIndex == 1 + Changes(t, |t|)
    ensures |t| > 0 ==> ptrIndex <= rowsNr
    // entry k is the triple index of the k-th row change, so the entries increase
    ensures forall k {:trigger ptr[k]} :: 1 <= k < ptrIndex ==> ptr[k] == ChangeIndices(t, |t|)[k - 1]
    ensures forall j, k :: 1 <= j < k < ptrIndex ==> ptr[j] < ptr[k]
    ensures forall i {:trigger cols[i]} {:trigger data[i]} :: 0 <= i < |t| ==> cols[i] == t[i].col - 1 && data[i] == t[i].value
    // with no empty row, ptr is the row-start table and its differences the row lengths
    ensures NoEmptyRows(t, rowsNr) ==> forall r {:trigger ptr[r]} :: 0 <= r <= rowsNr ==> ptr[r] == CountBelow(t, r + 1)
    ensures NoEmptyRows(t, rowsNr) ==> forall r :: 0 <= r < rowsNr ==> ptr[r + 1] - ptr[r] == RowCount(t, r + 1)
  {
    ptr := new int[rowsNr + 1];
    cols := new int[|t|];
    data := new int[|t|];
    ptr[0] := 0;
    ptr[rowsNr] := |t|;
    ptrIndex := 1;
    var previousRow := 0;
    var i := 0;
    ChangesBound(t, rowsNr, 0);
    while i < |t|
      invariant 0 <= i <= |t|
      invariant ptrIndex == 1 + Changes(t, i)
      invariant previousRow == PrevRow(t, i) - 1
      invariant ptr[0] == 0 && ptr[rowsNr] == |t|
      invariant |t| > 0 ==> ptrIndex <= rowsNr
      invariant forall k {:trigger ptr[k]} :: 1 <= k < ptrIndex ==> ptr[k] == ChangeIndices(t, i)[k - 1]
      invariant forall k {:trigger cols[k]} {:trigger data[k]} :: 0 <= k < i ==> cols[k] == t[k].col - 1 && data[k] == t[k].value
    {
      var currentRow := t[i].row - 1;
      cols[i] := t[i].col - 1;
      data[i] := t[i].value;
      if currentRow != previousRow {
        ChangesBound(t, rowsNr, i + 1);
        ptr[ptrIndex] := i;
        ptrIndex := ptrIndex + 1;
        previousRow := currentRow;
      }
      i := i + 1;
    }
    ChangeIndicesIncrease(t, |t|);
    if NoEmptyRows(t, rowsNr) {
      DensePtr(t, rowsNr, ptr[..]);
    }
  }
}
