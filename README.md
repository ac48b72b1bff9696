# Sparse-matrix format converters, modelled in Dafny

The program reads a sparse matrix as a stream of 1-based `(row, col,
value)` triples, sorted by row. It converts the stream into the arrays that
one of five SpMV kernels expects:

- **COO**: the triples copied into `rows`/`cols`/`data`, shifted to 0-based.
- **CSR**: `ptr`/`cols`/`data_int`, built in one pass.
- **ELL**: two passes. The first finds one row width `longest_col`. The
  second lays the rows out one after another, each padded to that width with
  column `-1`.
- **Sliced ELL (SELL-C-sigma)**: two passes with one width per slice of 16
  rows, a prefix sum of slice offsets (`row_indices`), and padding with column
  `-1` and value `0`.
- **CMRS**: one pass that copies `cols`/`data` and records, for every triple,
  its row slot inside a strip of 16 rows (`row_in_strip`). It also records
  each strip's start (`strip_ptr`).

The model replaces the file with a sequence of triples, `seq<Triple>`. It
replaces the rewind between passes with a second loop over that sequence.
Each converter is an imperative method over arrays with loop invariants. The
methods are proved against ghost functions that follow the converter's
counters over a prefix of the stream: the row changes so far (`Changes`),
the current run length (`Run`), `current_index` (`Pos`) and the slot a
triple lands in (`Slot`). Lemmas then state what those functions mean:
- the ELL layout is row-major;
- with no empty row, the sliced ELL layout is row-major inside each slice,
  and slice s starts at `row_indices[s]`;
- slots are distinct and increasing;
- every triple lands at its slot, and every other slot is padding;
- the widths are maxima of closed runs;
- strip starts are every 16th row change;
- the dense-input readings, such as CSR row lengths and CMRS strip starts.

Every converter that tracks rows (CSR, ELL, sliced ELL, CMRS) starts with
"previous row" equal to row 1. A row change at
triple i therefore means that triple i's row differs from triple i-1's row,
or from row 1 when i is 0. Module `Triples` defines these shared notions
once. Module `Layout` holds the state invariant of the two padded packers
(ELL and sliced ELL).

Where the code departs from the usual definitions of these formats, the
model follows the code:
- **CSR:** the code writes one `ptr` entry per row change, so an empty row
  gets no entry of its own. It does not repeat the previous offset.
- **ELL width:** the width is the longest run that a row change closes. The
  last row is never measured, so it can be longer than the width.
- **ELL padding:** a padding slot gets column `-1`, but its `data` is not
  written.
- **Sliced ELL layout:** inside a slice, rows are laid out row-major, one
  after another, each padded to its slice's width times the row distance. The
  layout is not column-major with stride 16.
- **Sliced ELL slices:** slices are groups of 16 row changes, not of 16 row
  numbers.
- **Sliced ELL tail:** the last slice's width is the final row's length
  alone.
- **CMRS strips:** strips are also counted in row changes.
- **CMRS size:** `strip_ptr` has `rows / 16 + 1` entries, and its final write
  can overwrite the last strip start.

## Model

| member | source | states |
|---|---|---|
| Triples.ChangesBound | csr.c:118-135 | on sorted input within `[1, rows]`, the number of row changes after n triples is at most the current row minus one, and the current row lies in `[1, rows]` |
| Triples.DenseChanges | csr.c:118-135 | with no empty row, the number of row changes after n triples is exactly the current row minus one |
| Triples.RunIsRank | ell.c:73-86 | the run counter after triple n-1 equals the number of triples of that row among the first n, i.e. the triple's rank in its row plus one |
| Triples.ChangeIndicesIncrease | csr.c:129-134 | the recorded row-change indices are row changes, below n, strictly increasing |
| Triples.ChangeIndicesAt | csr.c:129-134 | a row change at triple i is listed at position "changes before i" |
| Triples.ChangesMonotone | csr.c:129-134 | the change count never decreases, and a change at m makes it strictly larger after m |
| Triples.ChangeIndexRank | cmrs.c:89-98 | the m-th listed row change is a row change and has exactly m row changes before it |
| Triples.RowCountSplit | ell.c:73-86 | on sorted input, triples past a later row's first triple do not count toward an earlier row |
| Triples.DenseRowStart | csr.c:129-133 | with no empty row, 0-based row r begins at the r-th row change, whose index is the number of triples in earlier rows |
| Coo.Convert | coo.c:65-79 | every array has one entry per triple; entry i holds triple i's row and column minus one and its value, so decoding entry i gives triple i back; the work size is the triple count |
| Coo.InitVector | coo.c:83-87 | every entry of the vector is the fill value |
| Csr.Convert | csr.c:107-135 | `ptr[0] = 0` and `ptr[rows_nr] = nnz` survive; `ptr_index` ends at 1 + row changes, never past `rows_nr`; entry k is the index of the k-th row change, so the entries increase; columns and values copied; with no empty row `ptr[r]` is the number of triples before row r and differences are row lengths |
| Csr.DensePtr | csr.c:116-135 | with no empty row, a table starting at 0, ending at nnz and listing the row changes is the row-start table, and its differences are the row lengths |
| Layout.LaidPut | ell.c:118-124 | storing triple i at its slot, the current index, keeps the padded-fill invariant with i + 1 triples |
| Layout.LaidPad | sigma_c.c:188-193 | padding n slots from the current index with column -1 and the padding data keeps the invariant |
| Layout.LaidPadColumns | ell.c:131-135 | padding that writes only `cols` keeps the invariant when padding slots are to keep their old data |
| Layout.LaidDone | ell.c:144-148 | once every triple is stored, each sits at its slot, every other slot before the index is padding, and the rest is unchanged |
| Layout.LaidCovered | sigma_c.c:162-206 | once every triple is stored, every slot before the index is some triple's or padding |
| Layout.SpanIsProduct | sigma_c.c:186-188 | k rows of a given width, added up row by row, take `width * k` slots |
| Layout.PadColumns | ell.c:144-148 | the index advances by `limit - from` when positive, else 0; exactly those slots get column -1 and every other entry of `cols` is unchanged |
| Ell.ScanWidth | ell.c:62-88 | pass 1 returns Width(t), the longest run closed by a row change |
| Ell.WidthIsMaxRun | ell.c:62-88 | the width bounds every run a row change closes and is 0 or attained by one of them |
| Ell.FinalRowNotCounted | ell.c:73-87 | the final row's run is not folded in: rows of 1 and 2 triples give width 1 |
| Ell.EarlierRowsWithinWidth | ell.c:62-88 | on sorted input every row before the last holds at most `longest_col` triples |
| Ell.RowBaseIsProduct | ell.c:128-131 | row r starts at `(r - 1) * width`: each row change moves `longest_col * diff` slots on |
| Ell.PosNext | ell.c:118-140 | a triple's slot is the index just before where it leaves `current_index`; in-row triples advance by one; a new row starts at `(row - 1) * width` |
| Ell.PosGrows | ell.c:108-142 | `current_index` advances by at least one per triple |
| Ell.SlotsIncrease | ell.c:105-142 | later triples get strictly larger slots, so no slot is shared |
| Ell.SlotIsRowMajor | ell.c:105-142 | triple i goes to `(row - 1) * width + (earlier triples of its row)`: a row-major layout |
| Ell.EndWhenLastRowFits | ell.c:102-148 | when the last row is no longer than the width, everything fits in `longest_col * number_of_rows` and the final index is last row times width |
| Ell.FullIffLastRow | ell.c:102-148 | in that case the final index equals the buffer length iff the stream ends in row `rows` |
| Ell.SingleRowOverflows | ell.c:102-140 | a one-row matrix gets width 0 and an empty buffer, yet pass 2 writes its first triple: the buffer does not fit |
| Ell.LowerTriangularOverflows | ell.c:102-148 | a 3-row lower-triangular matrix gets width 2 and a 6-entry buffer, yet its final index is 7: the buffer does not fit |
| Ell.PadStep | ell.c:127-135 | on a row change the padding count `width * diff - nonzeroes_in_row` is non-negative and brings the index to the new row's start |
| Ell.EndBound | ell.c:144-148 | the trailing padding never moves the index backwards |
| Ell.StoreInRow | ell.c:118-124 | an in-row triple is stored at the current index and the pass-2 state invariant holds for i + 1 |
| Ell.StoreNewRow | ell.c:125-141 | a row change pads the rest of the row and every skipped row with column -1, stores the triple, and keeps the invariant |
| Ell.Pack | ell.c:105-148 | the final index is End; each triple sits at its slot; every other slot before the end has column -1 and its old data; the rest of both buffers is unchanged |
| Ell.PadLastRow | ell.c:144-148 | the trailing loop completes the layout stated by Pack |
| Ell.PackDone | ell.c:105-148 | the fill invariant after the last triple, restated over the slots |
| Ell.Convert | ell.c:62-148 | the width is Width(t), the buffers have `longest_col * rows` entries, and the layout is as in Pack |
| SlicedEll.SliceCount | sigma_c.c:69-80 | `col_widths_len` is the least number of 16-row slices covering `rows` |
| SlicedEll.SeqMaxIsMax | sigma_c.c:107-110 | the running maximum bounds every element and is 0 or one of them |
| SlicedEll.GroupMaxima | sigma_c.c:98-121 | after n triples, completed width j is the longest of closed runs 16j..16j+15; there are changes/16 of them; `longest_col` is the longest closed run of the open group |
| SlicedEll.WidthsMeaning | sigma_c.c:82-129 | the widths array holds each completed group's longest run, then the allocation's untouched entries, and last the final row's length; fewer groups complete than there are slices |
| SlicedEll.TailWidthIsLastRow | sigma_c.c:125-129 | rows of 2 and 1 triples give the only slice width 1: the tail width is the last row's length alone |
| SlicedEll.SlicesCoverChanges | sigma_c.c:114-121 | on well-formed input the completed groups never reach the last slice, so `col_widths_index` stays in bounds |
| SlicedEll.ScanSliceWidths | sigma_c.c:67-129 | pass 1 leaves the widths array Widths(t, rows, uninit) and `longest_col` the open group's maximum |
| SlicedEll.ScanNewRow | sigma_c.c:102-122 | one row change folds the finished run into the group maximum and stores it at the 16th change, keeping the pass-1 invariant |
| SlicedEll.ScanDone | sigma_c.c:125-129 | the final write, always taken, turns the loop's array into the widths array |
| SlicedEll.SliceStarts | sigma_c.c:131-138 | `row_indices[s]` is 16 times the sum of the widths before s; consecutive differences are 16 times the width; `current_length` is the last entry |
| SlicedEll.RowStartClosed | sigma_c.c:182-204 | row r starts after 16 rows of each earlier slice's width and, within its own slice, after `(r - 1) % 16` rows of that slice's width |
| SlicedEll.PosDense | sigma_c.c:162-206 | with no empty row and every earlier row within its slice's width, `current_index` is the current row's start plus the triples of that row seen so far |
| SlicedEll.SlotInSlice | sigma_c.c:157-206 | under those conditions, triple i of row r goes to `16 * (widths of earlier slices) + ((r - 1) % 16) * (its slice's width) + (earlier triples of row r)`: row-major inside each slice |
| SlicedEll.ClosedRunsAt | sigma_c.c:98-110 | the run closed by the change at triple i is the entry of the closed runs numbered by the changes before i |
| SlicedEll.DenseClosedRun | sigma_c.c:98-110 | with no empty row, the m-th closed run is the length of row m + 1 |
| SlicedEll.SliceRowsWithinWidth | sigma_c.c:98-121 | with no empty row, each row of a slice that 16 row changes completed holds at most that slice's width |
| SlicedEll.DenseRowsFit | sigma_c.c:98-121 | with no empty row, every row before the first row of a slice fits its slice's width |
| SlicedEll.SliceStartAt | sigma_c.c:131-206 | with no empty row, the first triple of slice s lands at `16 * (widths of slices before s)`, which is `row_indices[s]` |
| SlicedEll.SlotBounds | sigma_c.c:157-206 | each triple's slot is non-negative and below the index the stream ends at |
| SlicedEll.SlotsIncrease | sigma_c.c:157-206 | later triples get strictly larger slots, so no slot is shared |
| SlicedEll.PosGrows | sigma_c.c:162-206 | `current_index` advances by at least one per triple |
| SlicedEll.PadIs | sigma_c.c:184-193 | the padding before a new row is `width * diff - nonzeroes_in_row` when positive, else none |
| SlicedEll.ChangeStep | sigma_c.c:182-204 | a row change moves the index past padding and triple and advances the group counter, resetting it at 16 |
| SlicedEll.PadSlots | sigma_c.c:188-193 | the padding loop writes column -1 and value 0 to exactly the counted slots and nothing else |
| SlicedEll.StoreInRow | sigma_c.c:173-179 | an in-row triple is stored at the current index, keeping the pass-2 invariant |
| SlicedEll.PadRowGap | sigma_c.c:182-193 | the padding of a row change ends at the new triple's slot and keeps the fill invariant |
| SlicedEll.StoreNewRow | sigma_c.c:180-205 | a row change pads, stores the triple at its slot, moves to the next slice after 16 changes, and keeps the invariant |
| SlicedEll.Pack | sigma_c.c:157-212 | the final index is End; each triple sits at its slot; every other slot before the last triple's index holds column -1 and value 0; trailing slots hold column -1 and their old data; the rest is unchanged |
| SlicedEll.PadLastRow | sigma_c.c:208-212 | the trailing loop pads from `nonzeroes_in_row` to pass 1's leftover `longest_col`, writing only `cols`, and completes the layout |
| SlicedEll.LaidPacked | sigma_c.c:157-206 | the fill invariant after the last triple gives the packed layout up to the current index |
| SlicedEll.PackedExtend | sigma_c.c:208-212 | writing column -1 past the current index keeps the layout packed up to the new index |
| SlicedEll.Convert | sigma_c.c:67-212 | the widths are Widths(t, rows, uninit), `row_indices` their 16-fold prefix sums, the buffers `current_length` long, and the layout as in Pack; with no empty row, the first triple of slice s lands at `row_indices[s]` |
| Cmrs.StripsCountChanges | cmrs.c:70-105 | the wrapping counter `current_strip_row` is the row-change count modulo 16, and the k-th recorded strip start is the (16k+16)-th row change |
| Cmrs.StripsFit | cmrs.c:63-98 | on well-formed input no more strips start than `strip_ptr` has entries below its last |
| Cmrs.Convert | cmrs.c:63-110 | (bundled as `Built`) `cols`/`data` are copied in file order with no padding; `row_in_strip[i]` is the changes through i modulo 16; `strip_index` is 1 + changes/16 and within the array; loop entry k is the (16k)-th row change, increasing; `strip_ptr[0]` is 0 unless rows < 16; `strip_ptr[rows/16]` is nnz; with no empty row entry k is where strip k starts |
| Cmrs.StripsDone | cmrs.c:110 | after the loop, the final write leaves every fact of Convert's contract in place |
| Cmrs.RowInStripOrdered | cmrs.c:81-105 | between two consecutive recorded strip starts, `row_in_strip` never decreases |
| Cmrs.LastStripOrdered | cmrs.c:81-110 | in the final strip, from the last recorded strip start to nnz, `row_in_strip` never decreases (unless the final write replaced that start) |
| Cmrs.SameStripOrdered | cmrs.c:81-105 | any two triples after the same number of completed groups of 16 row changes, i.e. in the same strip, get row slots in stream order |
| Cmrs.DenseStripStarts | cmrs.c:93-98 | with no empty row, entry k below rows/16 is the number of triples in rows before 16k+1 |
| Cmrs.DenseLastStrip | cmrs.c:65-110 | with no empty row, the last loop-written strip start lands on entry rows/16, and is overwritten, exactly when 16 does not divide rows |
| Cmrs.StoreInRow | cmrs.c:81-88 | an in-row triple is copied with the current strip row, keeping the loop invariant |
| Cmrs.StoreNewRow | cmrs.c:81-105 | a row change advances the strip row, wrapping at 16 and recording the strip start, keeping the loop invariant |

## Left out

- File reading and parsing: `fopen`, `fscanf`, `fseek`, the Matrix Market
  header readers and `read_size_of_matrix_from_file`. The input is an
  already-parsed `seq<Triple>`. The file rewind between passes is a second
  loop over the same sequence.
- Values are `double` cast to `int` in the source. The model takes the
  values as integers already, so floating point and the cast are left out.
  CSR's `data_double` array is not modelled.
- OpenCL setup, buffers, kernel launch and read-back, the kernels
  themselves, timing and GFLOP/s reporting, and `check_result`. These are
  foreign calls or device code. The `output` allocation is left out with
  them.
- Fixed-width integers: `int`/`cl_int` arithmetic is modelled unbounded.
  Overflow is not modelled in `longest_col * number_of_rows`,
  `current_length` or the running indices. Neither are the `(long)` casts in
  the padding bounds, which only widen.
- Allocation sizes: `sizeof(cl_int *)` over-allocates `col_widths`,
  `row_indices`, `cols`, `data` and `vect` in some converters. The model
  allocates exactly the needed length.
- Uninitialised memory: entries a converter never writes are left
  unspecified, and no contract speaks of them. Examples are CSR `ptr` entries
  past `ptr_index` and CMRS `strip_ptr` entries between `strip_index` and
  `rows / 16`. Sliced ELL's untouched `col_widths` entries are a parameter,
  `uninit`.
- Sliced ELL's `cols_sum` in pass 1 (lines 87, 117, 127) is dead: it is
  overwritten by `current_length` at line 152. It is not modelled.
- Ell.Convert: requires `Fits`, that every write lands inside the
  `longest_col * number_of_rows` buffer. The code does not check this, and a
  write past the end is undefined behaviour. The condition fails whenever
  the last row is longer than the width and reaches past the buffer's end.
  That is not a corner case: LowerTriangularOverflows shows an ordinary
  3-row matrix that breaks it, and SingleRowOverflows a one-row matrix.
- Ell.Pack: requires `Fits`, for the same reason.
- SlicedEll.Convert: requires `Fits`, that every pass-2 write lands inside
  `current_length`, and `rows >= 1`, because pass 1 writes
  `col_widths[col_widths_len - 1]`.
- SlicedEll.Pack: requires `Fits`, for the same reason.
- SlicedEll.ScanSliceWidths: requires `rows >= 1`, for the same reason.
- Every converter except COO requires the input sorted by row with rows in
  `[1, rows]`, which the code assumes without checking. On other input its
  writes can leave the arrays, which is undefined behaviour.
- Ell.Pack: the data of a padding slot is stated as unchanged, not as 0,
  because the code does not write it.
- SlicedEll.Pack: the data of a trailing padding slot is stated as
  unchanged, not as 0, for the same reason.
- SlicedEll.Pack: the closed form of the layout (SlotInSlice, SliceStartAt)
  is proved only when no row is empty. With empty rows the slices follow
  row changes, not row numbers, and the layout is stated through the
  slot function alone.
- SlicedEll.SlotInSlice: requires every earlier row to fit its slice's
  width. Pass 1 guarantees this only for completed slices
  (SliceRowsWithinWidth). A row of the last slice can be longer than the
  final row, which sets that slice's width, and pushes later rows on.
- Ell.Pack: no decoder from the packed buffers back to the triples is
  stated. The layout is given in closed form (SlotIsRowMajor) instead.
- SlicedEll.Convert: no decoder from the packed buffers back to the triples
  is stated. The layout is given through the slot function and, with no
  empty row, in closed form.
- Cmrs.Convert: no decoder from the strips back to the triples is stated.
  The strips are given through the change counts.
