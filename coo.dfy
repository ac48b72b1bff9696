/** The coordinate (COO) converter: the triples are copied in file order,
    rows and columns shifted to 0-based; one work item per nonzero. */
module Coo {
  import opened Triples

  /** Reads the whole stream into three arrays of `number_of_nonzeroes`
      entries.  No ordering is assumed and none is imposed. */
  method Convert(t: seq<Triple>) returns (rows: array<int>, cols: array<int>, data: array<int>, workSize: int)
    ensures workSize == |t|
    ensures rows.Length == |t| && cols.Length == |t| && data.Length == |t|
    ensures forall i :: 0 <= i < |t| ==> rows[i] == t[i].row - 1 && cols[i] == t[i].col - 1
    ensures forall i :: 0 <= i < |t| ==> data[i] == t[i].value
    // decoding entry i (back to 1-based) gives back the i-th triple of the stream
    ensures forall i :: 0 <= i < |t| ==> Triple(rows[i] + 1, cols[i] + 1, data[i]) == t[i]
  {
    workSize := |t|;
    rows := new int[|t|];
    cols := new int[|t|];
    data := new int[|t|];
    var i := 0;
    while i < |t|
      invariant 0 <= i <= |t|
      invariant forall k :: 0 <= k < i ==> rows[k] == t[k].row - 1 && cols[k] == t[k].col - 1
      invariant forall k :: 0 <= k < i ==> data[k] == t[k].value
    {
      rows[i] := t[i].row;
      cols[i] := t[i].col;
      data[i] := t[i].value;
      rows[i] := rows[i] - 1;
      cols[i] := cols[i] - 1;
      i := i + 1;
    }
  }

  /** The input vector every converter's program multiplies by: `n` copies of
      `fill` (2 in coo.c, ell.c, sigma_c.c and cmrs.c, 1 in csr.c). */
  method InitVector(n: nat, fill: int) returns (vect: array<int>)
    ensures vect.Length == n
    ensures forall i :: 0 <= i < n ==> vect[i] == fill
  {
    vect := new int[n];
    var i := 0;
    while i < n
      invariant 0 <= i <= n
      invariant forall k :: 0 <= k < i ==> vect[k] == fill
    {
      vect[i] := fill;
      i := i + 1;
    }
  }
}
