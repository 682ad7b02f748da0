# Sparse arrays, modelled in Dafny

The repository provides containers that read and write like a dense
one-dimensional list or a two-dimensional grid of numbers. Internally they
keep only the non-zero values, in a dictionary keyed by position. The model
covers the following classes:

- `SparseArray` (sparse_array_1D_slicing.py). It has a logical length and
  an `int -> int` dictionary. It supports bounds-checked reads and writes,
  slicing into a new array, delete with shift, append, containment,
  concatenation and comparison by length.
- Three drafts of `Sparse2DArray`. Their behaviour differs, so each is its
  own class in its own module:
  - the full-featured draft (full_featured_2D_sparse_array.py);
  - the slicing, dynamically growing draft (sparse2Darray_slicing_dyn_growth.py);
  - the first draft (playground.py).

  Each keeps `rows`, `cols` and a dictionary keyed by `(row, col)`.
- Python's `slice.indices(len)` together with the `range` it yields. All
  slicing goes through these.

Modules:

| file | module | contents |
|---|---|---|
| results.dfy | `Results` | `Option`, `Result`, `Outcome` (a method's normal return or raised error) and the errors raised (`IndexError`, `ValueError`) |
| slices.dfy | `Slices` | `slice.indices`, the count and elements of a `range`, and `SliceOf` (Python's `xs[s]` on a sequence) |
| sparse_array_1d.dfy | `SparseArray1D` | store-level functions and lemmas, plus `class SparseArray` |
| grid.dfy | `Grid` | the `(row, col)` store shared by the 2-D drafts: its dense view, writes, appends, concatenation, and the loops that fill and read it |
| full_featured_2d.dfy | `FullFeatured2D` | `class Sparse2DArray` of the full-featured draft, plus `__add__`'s copy loop |
| dyn_growth_2d.dfy | `DynGrowth2D` | `class Sparse2DArray` of the slicing, dynamically growing draft |
| playground_2d.dfy | `Playground2D` | `class Sparse2DArray` of the first draft |

Every class holds the same fields as the source: a `map` field for the
dictionary and `nat` fields for the shape. Each class has:

- an object invariant `Valid()`;
- a dense view `View()`, which is `Dense` applied to the fields.

Methods that change the object say what its new view is, in terms of the
old one. Loops in the source are `while` loops with invariants, for example:

- the constructors' filling loops;
- the shifting loop of `__delitem__`;
- the append loops;
- the block-read and rendering loops;
- `__add__`'s copy loop.

Python's `None` arguments are modelled as follows:

- In the constructors, `values` is a `seq<seq<int>>`, and `[]` stands for
  `None`. The source tests `if values:`, which treats both alike.
- In the dynamic draft, `append_row` and `append_column` take an
  `Option<seq<int>>`.

Some behaviours of the code are easy to misread, and the model keeps them as written:

- The 1-D `__contains__` (sparse_array_1D_slicing.py:46) reports 0 as
  present in every array, even an empty one or one whose every position is
  non-zero.
- In the dynamic draft, `append_row` and `append_column`
  (sparse2Darray_slicing_dyn_growth.py:66, :76) treat an empty list like a
  missing one: either appends a zero row or column.
- In the dynamic draft and the first draft, reads and writes check only the
  upper bounds. Negative indices are therefore accepted.
  - A write stores the entry under the negative key.
  - A read returns what is stored under that key, or 0.

  The model keeps this as written, so these classes carry the weaker
  invariant `Grid.Bounded` instead of `Grid.Canonical`. Under `Bounded`,
  keys lie below the far edges of the shape and may be negative. See
  Findings.

## Model

| member | source | states |
|---|---|---|
| Slices.Adjust | sparse_array_1D_slicing.py:15 | One bound of `slice.indices`. A missing bound takes the default. A non-negative bound inside the clamp interval is kept, and one past its top saturates at the top. A negative bound has `len` added; if that is still below the interval it saturates at the bottom. The result always lies within the interval. |
| Slices.Indices | sparse_array_1D_slicing.py:15 | `slice.indices(len)` for a non-zero step: the step passes through, and a missing step is 1. A missing start is 0 for a positive step and len-1 for a negative one. A missing stop is len for a positive step and -1 for a negative one. Start and stop lie in [0, len] for a positive step and in [-1, len-1] for a negative one. |
| Slices.Count | sparse_array_1D_slicing.py:16 | CPython's closed-form length of `range(start, stop, step)`. It is empty exactly when `stop` is not past `start` in the direction of the step. For step 1 it is `stop - start` when positive. |
| Slices.RangeMembers | sparse_array_1D_slicing.py:16 | CPython's closed-form length of `range(start, stop, step)` agrees with the reference meaning. The j-th element exists exactly when `start + j*step` has not reached `stop` in the direction of the step. |
| Slices.RangeWithin | sparse_array_1D_slicing.py:16 | Every position a normalised range selects is a valid index of the sequence, so slicing never raises. |
| Slices.SliceOf | sparse_array_1D_slicing.py:15-16 | `xs[s]` has as many elements as the normalised range has members. |
| Slices.ContiguousSlice | sparse_array_1D_slicing.py:15-16 | `xs[i:k]` with 0 <= i <= k <= len is the contiguous subsequence from i up to k. |
| Slices.UnitSlice | sparse_array_1D_slicing.py:15-16 | `xs[i:k]` for any bounds, whether negative, missing or past either end, is the contiguous run between the two landing positions. A negative bound counts from the end and is clamped to [0, len]. The result is empty when the positions cross, so `xs[-2:]` is the last two elements and `xs[1:100]` is everything after the first. |
| Slices.WholeSlice | sparse_array_1D_slicing.py:15-16 | `xs[:]` equals `xs`. |
| Slices.ReversedSlice | sparse_array_1D_slicing.py:15-16 | `xs[::-1]` has the same length as `xs`, and its j-th element is `xs[len-1-j]`. |
| Slices.SampleSlice | sparse_array_1D_slicing.py:65-66 | The documented example: slice `[1:5]` of `[0,7,0,5,0,6,0,0,0,4,13,0,0]` reads `[7,0,5,0]`. |
| SparseArray1D.CompressRoundTrip | sparse_array_1D_slicing.py:2-7 | The store built from a list is zero-suppressed, with keys in [0, len), and it reads back as exactly that list. |
| SparseArray1D.CanonicalUnique | sparse_array_1D_slicing.py:2-7 | Two zero-suppressed stores of the same length with the same dense view are equal. |
| SparseArray1D.DenseCompress | sparse_array_1D_slicing.py:2-7 | Rebuilding a store from its own dense view gives the same store, completing the round trip. |
| SparseArray1D.AssignView | sparse_array_1D_slicing.py:22-28 | An in-range write keeps the store canonical. It changes exactly the written position of the dense view. Writing 0 leaves no entry for that key. |
| SparseArray1D.AssignIdempotent | sparse_array_1D_slicing.py:22-28 | Writing the same value twice leaves the same store as writing it once. |
| SparseArray1D.MoveDown | sparse_array_1D_slicing.py:37 | One step of the shifting loop. When `key` is stored, its entry moves to `key - 1`, overwriting whatever is stored there, and `key` is left empty. Every other key is untouched. The store never grows. |
| SparseArray1D.ShiftKeys | sparse_array_1D_slicing.py:35-37 | The shifting loop as written, moving keys in the given (insertion) order. It never adds an entry. A key that is neither moved nor moved onto keeps its value. |
| SparseArray1D.ShiftKeysLosesEntry | sparse_array_1D_slicing.py:35-37 | The shifting loop as written, which processes keys in insertion order, loses an entry. Store 5 at key 2, then 7 at key 1, then delete index 0. The result reads `[5,0]`, but the list minus its first position is `[7,5]`. |
| SparseArray1D.ShiftStep | sparse_array_1D_slicing.py:35-37 | Moving the least remaining key above the last moved one down by one preserves the loop state: positions below the deleted index unchanged, the shifted span holding the old values one above, the rest untouched. It also removes exactly that key from the pending set. |
| SparseArray1D.ShiftDone | sparse_array_1D_slicing.py:30-38 | Once no key is pending, the store is canonical for length-1 and reads as the old list with the deleted position removed. |
| SparseArray1D.StoredValues | sparse_array_1D_slicing.py:45-46 | For a canonical store, a non-zero value is among the stored values exactly when some position of the dense view holds it. |
| SparseArray1D.SparseArray.constructor | sparse_array_1D_slicing.py:2-7 | The enumerate loop stores exactly the non-zero positions. The new array is valid, reads back as `values`, and its store is `Compress(values)`. |
| SparseArray1D.SparseArray.Len | sparse_array_1D_slicing.py:9-10 | `len(a)` is the length of the dense view. |
| SparseArray1D.SparseArray.Get | sparse_array_1D_slicing.py:18-20 | A read succeeds iff 0 <= index < len and then gives the dense value. Otherwise it raises IndexError. |
| SparseArray1D.SparseArray.GetSlice | sparse_array_1D_slicing.py:13-17 | `a[s]` is a fresh, valid array whose view is the slice of the source's view. The source is unchanged, since the method modifies nothing. |
| SparseArray1D.SparseArray.Set | sparse_array_1D_slicing.py:22-28 | Raises IndexError outside [0, len) and leaves the store unchanged. Otherwise the length is kept, the store becomes `Assign` (0 removes, anything else is stored), and the view changes at exactly that position. |
| SparseArray1D.SparseArray.Delete | sparse_array_1D_slicing.py:30-38 | Raises IndexError outside [0, len) with nothing changed. Otherwise the length drops by one and the view is the old view without that position, with keys shifted least first. The array stays valid. |
| SparseArray1D.SparseArray.Append | sparse_array_1D_slicing.py:40-43 | The length grows by one and the view is the old view plus `[value]`. A 0 adds no entry. |
| SparseArray1D.SparseArray.Contains | sparse_array_1D_slicing.py:45-46 | 0 is always reported present. A non-zero value is present iff some position of the view holds it. |
| SparseArray1D.SparseArray.Concat | sparse_array_1D_slicing.py:48-50 | `a + b` is a fresh, valid array whose view is `a`'s view followed by `b`'s. |
| SparseArray1D.SparseArray.Less | sparse_array_1D_slicing.py:52-53 | `a < b` iff `a` is shorter. Contents are ignored. |
| SparseArray1D.SparseArray.Greater | sparse_array_1D_slicing.py:55-56 | `a > b` iff `a` is longer. Contents are ignored. |
| SparseArray1D.SparseArray.Equal | sparse_array_1D_slicing.py:58-59 | `a == b` iff the lengths are equal, whatever the contents. |
| SparseArray1D.SparseArray.ToList | sparse_array_1D_slicing.py:61-62 | The list that `str` renders, built position by position, is the dense view. |
| Grid.CanonicalUnique | full_featured_2D_sparse_array.py:5-10 | Two zero-suppressed, in-shape stores with the same dense grid are equal. |
| Grid.CellsCount | full_featured_2D_sparse_array.py:100-101 | A rows x cols shape has exactly rows*cols cells. |
| Grid.ZeroCellIffGap | full_featured_2D_sparse_array.py:62 | For a canonical store, the entry count differs from rows*cols iff some cell of the dense grid reads 0. |
| Grid.StoredValues | full_featured_2D_sparse_array.py:62 | A canonical store holds no 0. A non-zero value is stored iff some cell of the dense grid holds it. |
| Grid.AssignView | full_featured_2D_sparse_array.py:33-40 | An in-shape write keeps the store canonical (or bounded) and changes exactly the written cell of the dense grid. |
| Grid.StrayAssignView | sparse2Darray_slicing_dyn_growth.py:50-57 | A write at a negative row or column that passes the upper-bound check keeps the store bounded. It leaves every cell of the dense grid unchanged. |
| Grid.StrayWrite | sparse2Darray_slicing_dyn_growth.py:52-55 | The concrete case `a[-1, 0] = 5` on a 3x3 zero grid: the entry is stored under (-1, 0), the grid is unchanged, and its last row still reads 0. |
| Grid.WithRowEntries | full_featured_2D_sparse_array.py:46-48 | After the row loop, row `ri` holds exactly the non-zero values of the new row. Every other key keeps its entry. |
| Grid.WithColumnEntries | full_featured_2D_sparse_array.py:55-57 | After the column loop, column `ci` holds exactly the non-zero values of the new column. Every other key keeps its entry. |
| Grid.AppendRowView | full_featured_2D_sparse_array.py:43-49 | Adding a full-width row below the last keeps the store bounded (and canonical if it was). The dense grid becomes the old grid plus that row, and every prior entry is kept. |
| Grid.AppendColumnView | full_featured_2D_sparse_array.py:52-58 | Adding a full-height column right of the last keeps the store bounded (and canonical if it was). Every dense row is extended by its value of the new column, and every prior entry is kept. |
| Grid.StoreRow | full_featured_2D_sparse_array.py:46-48 | The `enumerate(row)` loop computes the store `WithRow` describes. |
| Grid.StoreColumn | full_featured_2D_sparse_array.py:55-57 | The `enumerate(column)` loop computes the store `WithColumn` describes. |
| Grid.CompressRows | full_featured_2D_sparse_array.py:6-10 | The nested `enumerate` loops store exactly the non-zero cells of `values`, under their own (r, c), and never a 0. |
| Grid.CompressRowsView | full_featured_2D_sparse_array.py:2-10 | When `values` fits the shape, that store is canonical. Each in-shape cell reads the value of `values`, or 0 where `values` has no such cell. |
| Grid.CompressWindow | sparse2Darray_slicing_dyn_growth.py:8-12 | The nested `range(rows)` x `range(cols)` loops give a canonical store. Its dense grid equals the declared window of `values`. |
| Grid.Render | sparse2Darray_slicing_dyn_growth.py:84-91 | The rendering loops build exactly `rows` lists of `cols` values. Each value is the stored one, or 0 when none is stored, so the result is the dense grid. |
| Grid.ReadBlock | full_featured_2D_sparse_array.py:18-23 | The block loops build one list per member of the row range, each with one value per member of the column range. Entry (i, j) reads cell (row range[i], column range[j]). |
| Grid.ShiftedAt | full_featured_2D_sparse_array.py:74-75 | A store moved by (dr, dc) has key j iff `j - (dr, dc)` is a key of the original, with the same value. |
| Grid.PlacedAt | full_featured_2D_sparse_array.py:72-75 | Placing `b` moved by (dr, dc) over `a` gives each cell `b`'s moved value where there is one, else `a`'s. |
| Grid.PlacedNothing | full_featured_2D_sparse_array.py:71 | Placing an empty store changes nothing. |
| Grid.ShiftedInsertAt | full_featured_2D_sparse_array.py:74-75 | For one key: moving a store with one more entry adds that entry at the moved key. |
| Grid.ShiftedInsert | full_featured_2D_sparse_array.py:74-75 | Moving a store with one more entry is the moved store with that entry written at the moved key. |
| Grid.PlacedInsert | full_featured_2D_sparse_array.py:74-75 | Placing one more entry of `b` is one more write, at its moved key. |
| Grid.PlacedIdentity | full_featured_2D_sparse_array.py:71-73 | Copying a store unmoved into an empty one gives the store itself. |
| Grid.ConcatRowsView | full_featured_2D_sparse_array.py:70-76 | Copying `b` below `a` (offset by `a`'s rows) gives a canonical store whose dense grid is `a`'s rows followed by `b`'s. |
| Grid.ConcatColumnsView | full_featured_2D_sparse_array.py:78-84 | Copying `b` to the right of `a` (offset by `a`'s columns) gives a canonical store whose dense rows are `a`'s row followed by `b`'s row. |
| FullFeatured2D.AxisSlice | full_featured_2D_sparse_array.py:15-16 | An integer axis `i` becomes the unit-width slice from `i` to `i + 1` with the default step. A slice axis is passed through unchanged. |
| FullFeatured2D.IndexAxisSelects | full_featured_2D_sparse_array.py:15-16 | An integer axis `i`, read as `slice(i, i+1)`, selects one position iff i is a valid index or a negative index other than -1; -1 selects nothing. The position selected is the normalised index. |
| FullFeatured2D.PlaceStep | full_featured_2D_sparse_array.py:72-75 | One pass of the copy loop: placing one more pending entry is one more write at its moved key. |
| FullFeatured2D.PlaceAll | full_featured_2D_sparse_array.py:72-75 | The copy loop, through `__setitem__`, writes every entry of the source at its moved key into the target. The target stays valid with its shape unchanged. |
| FullFeatured2D.Sparse2DArray.constructor | full_featured_2D_sparse_array.py:2-10 | The new array is valid with the given shape. Each cell reads the value of `values`, or 0 where `values` has none. An empty `values` stores nothing. |
| FullFeatured2D.Sparse2DArray.Get | full_featured_2D_sparse_array.py:27-30 | Succeeds iff 0 <= row < rows and 0 <= col < cols, and then gives the dense value. Otherwise it raises IndexError. |
| FullFeatured2D.Sparse2DArray.GetBlock | full_featured_2D_sparse_array.py:14-25 | With at least one slice axis, the result has one list per selected row. Each list is the column slice of that selected row of the dense grid. |
| FullFeatured2D.Sparse2DArray.Set | full_featured_2D_sparse_array.py:33-40 | Raises IndexError outside the shape and leaves the store unchanged. Otherwise the shape is kept, the store becomes `Assign` (0 removes), and exactly that cell changes. |
| FullFeatured2D.Sparse2DArray.AppendRow | full_featured_2D_sparse_array.py:43-49 | Raises ValueError unless the row has `cols` values, leaving everything unchanged. Otherwise rows grows by one and the grid gains that row. |
| FullFeatured2D.Sparse2DArray.AppendColumn | full_featured_2D_sparse_array.py:52-58 | Raises ValueError unless the column has `rows` values, leaving everything unchanged. Otherwise cols grows by one and each row gains its value. |
| FullFeatured2D.Sparse2DArray.Contains | full_featured_2D_sparse_array.py:61-62 | `value in a` iff some cell of the dense grid holds `value`. This includes 0, which is present exactly when some cell has no entry. |
| FullFeatured2D.Sparse2DArray.Concat | full_featured_2D_sparse_array.py:65-86 | Raises ValueError iff neither the column counts nor the row counts agree. Equal column counts take precedence and give the rows of `a` followed by those of `b`. Otherwise, with equal row counts, each row is `a`'s row followed by `b`'s. The result is fresh and valid. |
| FullFeatured2D.Sparse2DArray.Len | full_featured_2D_sparse_array.py:100-101 | `len(a)` is the number of cells of the shape. |
| FullFeatured2D.Sparse2DArray.Less | full_featured_2D_sparse_array.py:89-92 | `a < b` iff `a` has fewer cells. |
| FullFeatured2D.Sparse2DArray.Greater | full_featured_2D_sparse_array.py:94-97 | `a > b` iff `a` has more cells. |
| DynGrowth2D.Filled | sparse2Darray_slicing_dyn_growth.py:66 | `new_row or [0] * n`: a given non-empty list is used as is. A missing or empty one becomes `n` zeros. |
| DynGrowth2D.Sparse2DArray.constructor | sparse2Darray_slicing_dyn_growth.py:2-12 | An empty `values` stores nothing. Otherwise the grid equals the rows x cols window of `values`. The store is canonical. |
| DynGrowth2D.Sparse2DArray.Len | sparse2Darray_slicing_dyn_growth.py:14-15 | `len(a)` is the number of cells of the shape. |
| DynGrowth2D.Sparse2DArray.Get | sparse2Darray_slicing_dyn_growth.py:17-28 | Raises IndexError iff row >= rows or col >= cols. An in-shape cell reads its dense value. Any stored key, a negative one included, reads its stored value, and an unstored key reads 0. |
| DynGrowth2D.Sparse2DArray.GetBlock | sparse2Darray_slicing_dyn_growth.py:32-48 | Two slices give a fresh array with one row per selected row. It has one column per selected column, or none when no row is selected. Row i is the column slice of the i-th selected row. Because the constructor builds it, its store is canonical, so it holds no negative key. |
| DynGrowth2D.Sparse2DArray.Set | sparse2Darray_slicing_dyn_growth.py:50-57 | Raises IndexError iff row >= rows or col >= cols. Otherwise the store becomes `Assign`. An in-shape write changes exactly that cell. A negative-index write changes no cell. |
| DynGrowth2D.Sparse2DArray.Delete | sparse2Darray_slicing_dyn_growth.py:59-62 | Removes the key if stored, with no bounds check and no shifting. The shape is kept. An in-shape cell then reads 0, and any other key leaves the grid unchanged. |
| DynGrowth2D.Sparse2DArray.AppendRow | sparse2Darray_slicing_dyn_growth.py:64-72 | A missing or empty row appends a zero row. A given row of the wrong length raises ValueError before any change. Otherwise rows grows by one, the grid gains the row, and the store is the row loop's result. Every entry stored before, including one under a negative key, is kept. |
| DynGrowth2D.Sparse2DArray.AppendColumn | sparse2Darray_slicing_dyn_growth.py:74-82 | A missing or empty column appends a zero column. A given column of the wrong length raises ValueError before any change. Otherwise cols grows by one, each row gains its value, and the store is the column loop's result. Every entry stored before, including one under a negative key, is kept. |
| DynGrowth2D.Sparse2DArray.ToLists | sparse2Darray_slicing_dyn_growth.py:84-91 | The list that `str` renders has `rows` lists of `cols` values and is the dense grid. |
| Playground2D.Sparse2DArray.constructor | playground.py:2-12 | An empty `values` stores nothing. Otherwise the grid equals the rows x cols window of `values`. The store is canonical. |
| Playground2D.Sparse2DArray.Len | playground.py:14-15 | `len(a)` is the number of cells of the shape, however many are stored. |
| Playground2D.Sparse2DArray.Get | playground.py:17-22 | Raises IndexError iff row >= rows or col >= cols. An in-shape cell reads its dense value. Any stored key, a negative one included, reads its stored value, and an unstored key reads 0. |
| Playground2D.Sparse2DArray.Set | playground.py:26-33 | Raises IndexError iff row >= rows or col >= cols. Otherwise the store becomes `Assign`. An in-shape write changes exactly that cell, and a negative-index write changes no cell. |
| Playground2D.Sparse2DArray.ToLists | playground.py:35-42 | The list that `str` renders has `rows` lists of `cols` values and is the dense grid. |

## Left out

- Example usage and printing, which are I/O only.
- The text produced by `str(list)`. `__str__` is modelled as the dense list or list of lists it formats.
- The `isinstance` dispatch in `__getitem__`. Scalar and slice reads are separate members.
  - The TypeError of the 2-D drafts for a non-tuple index is not modelled.
  - The `NotImplemented` of the full-featured comparisons and the "Can only concatenate" ValueError are not modelled either, since all are ruled out by the types.
- A slice with step 0, which raises ValueError inside `slice.indices`. Every slicing member requires a non-zero step.
- DynGrowth2D.Sparse2DArray.GetBlock: a mix of an integer and a slice is not modelled. The source passes the integer to `.indices`, which fails, so both axes are slices.
- Values are Python ints, modelled as unbounded `int`. Floats (where `0.0 == 0`) are not modelled.
- Hashing and `!=` side effects of defining `__eq__` on the 1-D class are not modelled.
- Shapes are `nat`. A negative `rows` or `cols` given to a 2-D constructor is not modelled.
- SparseArray1D.SparseArray.Delete: the loop moves keys from the least up rather than in dictionary insertion order (see Findings). The insertion-order loop is modelled only as the function `ShiftKeys`.
- FullFeatured2D.PlaceAll: copies entries in an arbitrary order, not the dictionary's iteration order. The result does not depend on the order, because distinct source keys move to distinct target keys.
- FullFeatured2D.Sparse2DArray.constructor: requires `values` to fit the declared shape. The source would store cells outside the shape, which breaks the object invariant.
- DynGrowth2D.Sparse2DArray.constructor: requires a non-empty `values` to cover the declared shape. With a smaller one, the source raises IndexError part-way through construction.
- Playground2D.Sparse2DArray.constructor: requires a non-empty `values` to cover the declared shape. With a smaller one, the source raises IndexError part-way through construction.
- moving_to_2D_sparse_array.py is not part of this model. It is a draft that fails when its class is defined, and it adds nothing beyond playground.py.

## Findings

| source | as written | input that shows it | evidently intended | confidence | as-written member | corrected member |
|---|---|---|---|---|---|---|
| sparse_array_1D_slicing.py:35-37 | Keys above the deleted index are moved down one at a time, in dictionary insertion order. Moving a key onto a still-occupied key overwrites the entry there. | `a = SparseArray([0, 0, 0]); a[2] = 5; a[1] = 7; del a[0]` leaves `a` reading `[5, 0]` | The remaining positions shift down by one, reading `[7, 5]`. Moving keys in ascending order achieves this. | high; not executed | SparseArray1D.ShiftKeysLosesEntry | SparseArray1D.SparseArray.Delete |
| sparse2Darray_slicing_dyn_growth.py:52 | `__setitem__` rejects only `row >= rows` or `col >= cols`, so a negative index is accepted and stored under a key outside the grid. | `a = Sparse2DArray(3, 3); a[-1, 0] = 5` stores key (-1, 0); the grid is unchanged and its last row still reads 0 | Reject indices outside [0, rows) x [0, cols), as the full-featured draft does. | medium; not executed | Grid.StrayWrite | FullFeatured2D.Sparse2DArray.Set |
| playground.py:28 | The same upper-bound-only check in the first draft's `__setitem__`. | `a = Sparse2DArray(3, 3); a[-1, 0] = 5` stores key (-1, 0); the grid is unchanged | Reject indices outside [0, rows) x [0, cols), as the full-featured draft does. | medium; not executed | Grid.StrayWrite | FullFeatured2D.Sparse2DArray.Set |
