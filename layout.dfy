/** The bookkeeping shared by the two padded converters (ELL and sliced
    ELL).  Both walk the stream once, keep a current index into `cols` and
    `data`, and at each step either store the next triple at the current
    index or pad some slots first.  The state after i triples is described
    by Laid below. */
module Layout {
  import opened Triples

  /** The state of a padded fill after i triples.  `sl` is the slot table
      (sl[k] is where triple k goes), `owner[p]` is the triple stored at slot
      p or -1 for a padding slot, and |owner| is the current index; `c0`,
      `d0` are the buffers before the fill and `dp` the data a padding slot
      is expected to hold.  Every slot so far holds its triple, or column
      -1 with data `dp`, and nothing at or after the current index has
      changed. */
  ghost predicate Laid(t: seq<Triple>, sl: seq<int>, i: nat, owner: seq<int>, c: seq<int>, d: seq<int>,
                       c0: seq<int>, d0: seq<int>, dp: seq<int>)
    requires i <= |t| == |sl|
  {
    |owner| <= |c| && |c| == |d| == |c0| == |d0| == |dp| &&
    (forall p {:trigger owner[p]} :: 0 <= p < |owner| ==>
       (owner[p] == -1 && c[p] == -1 && d[p] == dp[p]) || (0 <= owner[p] < i && sl[owner[p]] == p)) &&
    (forall k {:trigger sl[k]} :: 0 <= k < i ==>
       0 <= sl[k] < |owner| && owner[sl[k]] == k && c[sl[k]] == t[k].col - 1 && d[sl[k]] == t[k].value) &&
    (forall p {:trigger c[p]} {:trigger d[p]} :: |owner| <= p < |c| ==> c[p] == c0[p] && d[p] == d0[p])
  }

  /** n padding markers. */
  ghost function Padding(n: nat): (s: seq<int>)
    ensures |s| == n && forall p :: 0 <= p < n ==> s[p] == -1
  {
    seq(n, _ => -1)
  }

  /** Writing triple i at its slot, the current index. */
  lemma LaidPut(t: seq<Triple>, sl: seq<int>, i: nat, owner: seq<int>, c: seq<int>, d: seq<int>,
                c0: seq<int>, d0: seq<int>, dp: seq<int>, c1: seq<int>, d1: seq<int>)
    requires i < |t| == |sl| && Laid(t, sl, i, owner, c, d, c0, d0, dp)
    requires sl[i] == |owner| < |c|
    requires c1 == c[|owner| := t[i].col - 1] && d1 == d[|owner| := t[i].value]
    ensures Laid(t, sl, i + 1, owner + [i], c1, d1, c0, d0, dp)
  {
    var o := owner + [i];
    forall p | 0 <= p < |o|
      ensures (o[p] == -1 && c1[p] == -1 && d1[p] == dp[p]) || (0 <= o[p] < i + 1 && sl[o[p]] == p)
    {
      if p < |owner| {
        assert o[p] == owner[p];
      }
    }
    forall k | 0 <= k < i + 1
      ensures 0 <= sl[k] < |o| && o[sl[k]] == k && c1[sl[k]] == t[k].col - 1 && d1[sl[k]] == t[k].value
    {
      if k < i {
        assert 0 <= sl[k] < |owner| && owner[sl[k]] == k;
      }
    }
  }

  /** Padding n slots from the current index: their column becomes -1 and
      their data `dp`. */
  lemma LaidPad(t: seq<Triple>, sl: seq<int>, i: nat, owner: seq<int>, c: seq<int>, d: seq<int>,
                c0: seq<int>, d0: seq<int>, dp: seq<int>, c1: seq<int>, d1: seq<int>, n: nat)
    requires i <= |t| == |sl| && Laid(t, sl, i, owner, c, d, c0, d0, dp)
    requires |owner| + n <= |c| == |c1| == |d1|
    requires forall p :: 0 <= p < |c| ==> c1[p] == if |owner| <= p < |owner| + n then -1 else c[p]
    requires forall p :: 0 <= p < |c| ==> d1[p] == if |owner| <= p < |owner| + n then dp[p] else d[p]
    ensures Laid(t, sl, i, owner + Padding(n), c1, d1, c0, d0, dp)
  {
    var o := owner + Padding(n);
    forall p | 0 <= p < |o|
      ensures (o[p] == -1 && c1[p] == -1 && d1[p] == dp[p]) || (0 <= o[p] < i && sl[o[p]] == p)
    {
      if p < |owner| {
        assert o[p] == owner[p];
      }
    }
    forall k | 0 <= k < i
      ensures 0 <= sl[k] < |o| && o[sl[k]] == k && c1[sl[k]] == t[k].col - 1 && d1[sl[k]] == t[k].value
    {
    }
  }

  /** Padding that writes only `cols`: when the expected padding data is
      what the buffer held before the fill, leaving `data` alone pads. */
  lemma LaidPadColumns(t: seq<Triple>, sl: seq<int>, i: nat, owner: seq<int>, c: seq<int>, d: seq<int>,
                       c0: seq<int>, d0: seq<int>, c1: seq<int>, n: nat)
    requires i <= |t| == |sl| && Laid(t, sl, i, owner, c, d, c0, d0, d0)
    requires |owner| + n <= |c| == |c1|
    requires forall p :: 0 <= p < |c| ==> c1[p] == if |owner| <= p < |owner| + n then -1 else c[p]
    ensures Laid(t, sl, i, owner + Padding(n), c1, d, c0, d0, d0)
  {
    forall p | 0 <= p < |c|
      ensures d[p] == if |owner| <= p < |owner| + n then d0[p] else d[p]
    {
      if |owner| <= p {
        assert d[p] == d0[p];
      }
    }
    LaidPad(t, sl, i, owner, c, d, c0, d0, d0, c1, d, n);
  }

  /** What Laid says once every triple is stored: each triple sits at its
      slot, every other slot before the current index is padding, and the
      rest of the buffers is as it was. */
  lemma LaidDone(t: seq<Triple>, sl: seq<int>, owner: seq<int>, c: seq<int>, d: seq<int>,
                 c0: seq<int>, d0: seq<int>, dp: seq<int>)
    requires |t| == |sl| && Laid(t, sl, |t|, owner, c, d, c0, d0, dp)
    ensures forall k :: 0 <= k < |t| ==> 0 <= sl[k] < |owner| && c[sl[k]] == t[k].col - 1 && d[sl[k]] == t[k].value
    ensures forall p :: 0 <= p < |owner| && (forall k :: 0 <= k < |t| ==> sl[k] != p) ==> c[p] == -1 && d[p] == dp[p]
    ensures forall p :: |owner| <= p < |c| ==> c[p] == c0[p] && d[p] == d0[p]
  {
    forall p | 0 <= p < |owner| && (forall k :: 0 <= k < |t| ==> sl[k] != p)
      ensures c[p] == -1 && d[p] == dp[p]
    {
      assert owner[p] == -1;
    }
  }

  /** The same end state read slot by slot: every slot before the current
      index is some triple's, or padding. */
  lemma LaidCovered(t: seq<Triple>, sl: seq<int>, owner: seq<int>, c: seq<int>, d: seq<int>,
                    c0: seq<int>, d0: seq<int>, dp: seq<int>)
    requires |t| == |sl| && Laid(t, sl, |t|, owner, c, d, c0, d0, dp)
    ensures forall p :: 0 <= p < |owner| ==> (exists k :: 0 <= k < |t| && sl[k] == p) || (c[p] == -1 && d[p] == dp[p])
  {
    forall p | 0 <= p < |owner|
      ensures (exists k :: 0 <= k < |t| && sl[k] == p) || (c[p] == -1 && d[p] == dp[p])
    {
      if owner[p] != -1 {
        assert sl[owner[p]] == p;
      }
    }
  }

  /** k rows of `width` slots, built up one row at a time (SpanIsProduct)
      so that the layouts of both padded formats are stated without
      multiplication. */
  ghost function Span(k: int, width: int): (slots: int)
    decreases k
  {
    if k <= 0 then 0 else Span(k - 1, width) + width
  }

  lemma {:induction false} SpanIsProduct(k: int, width: int)
    requires k >= 0
    ensures Span(k, width) == width * k
    decreases k
  {
    if k > 0 {
      SpanIsProduct(k - 1, width);
    }
  }

  /** One padding loop: slots `index`, `index + 1`, ... get column -1 while
      the counter runs from `from` up to `limit`; `data` is not touched. */
  method PadColumns(cols: array<int>, index: int, from: int, limit: int) returns (next: int)
    requires 0 <= index && index + (if limit > from then limit - from else 0) <= cols.Length
    modifies cols
    ensures next == index + (if limit > from then limit - from else 0)
    ensures forall p :: 0 <= p < cols.Length ==> cols[p] == if index <= p < next then -1 else old(cols[p])
  {
    next := index;
    var k := from;
    while k < limit
      invariant next == index + (if k > from then k - from else 0)
      invariant k > from ==> k <= limit
      invariant forall p :: 0 <= p < cols.Length ==> cols[p] == if index <= p < next then -1 else old(cols[p])
    {
      cols[next] := -1;
      next := next + 1;
      k := k + 1;
    }
  }
}
