/**
 * The richest draft of `Sparse2DArray` (full_featured_2D_sparse_array.py):
 * full bounds checks, block reads that return a dense list of lists, strict
 * row and column appends, containment, concatenation and size ordering.
 */
module FullFeatured2D {
  import opened Results
  import opened Slices
  import opened Grid

  /** One axis of a block read: a single index or a slice. */
  datatype Axis = Index(i: int) | Span(s: Slice)

  /** A block read turns an integer axis `i` into `slice(i, i + 1)`. */
  function AxisSlice(a: Axis): (s: Slice)
    ensures a.Span? ==> s == a.s
    ensures a.Index? ==> s.step.None? && s.start == Some(a.i) && s.stop == Some(a.i + 1)
  {
    match a
    case Index(i) => Slice(Some(i), Some(i + 1), None)
    case Span(s) => s
  }

  /**
   * An integer axis selects one position when it is a valid index or a
   * negative index other than -1; `slice(-1, 0)` is empty, so -1 selects nothing.
   */
  lemma IndexAxisSelects(i: int, len: nat)
    ensures var r := Indices(AxisSlice(Index(i)), len);
      && Count(r) == (if 0 <= i < len || (i < -1 && 0 <= i + len) then 1 else 0)
      && (Count(r) == 1 ==> Nth(r, 0) == if i < 0 then i + len else i)
  {
    var r := Indices(AxisSlice(Index(i)), len);
    assert r.step == 1;
    if 0 <= i < len {
      assert r.start == i && r.stop == i + 1;
    } else if i < -1 && 0 <= i + len {
      assert r.start == i + len && r.stop == i + 1 + len;
    } else if i == -1 {
      assert r.stop == 0 && (r.start >= 0 || len == 0);
    } else if i >= len {
      assert r.start == len && r.stop == len;
    } else {
      assert r.start == 0 && r.stop == 0;
    }
  }

  /** Taking a key off the pending set brings its entry back. */
  lemma Restore(src: Store, pending: set<(int, int)>, k: (int, int))
    requires k in pending && k in src
    ensures src - (pending - {k}) == (src - pending)[k := src[k]]
  {
  }

  /** One pass of the copy loop: placing `src[k]` as well is one more write. */
  lemma PlaceStep(start: Store, src: Store, pending: set<(int, int)>, dr: int, dc: int, k: (int, int))
    requires k in pending && k in src
    ensures Placed(start, src - (pending - {k}), dr, dc) == Placed(start, src - pending, dr, dc)[Move(k, dr, dc) := src[k]]
  {
    Restore(src, pending, k);
    PlacedInsert(start, src - pending, dr, dc, k, src[k]);
  }

  /** The copy loops of `__add__`: every entry of `src`, moved by (dr, dc), is written into `target` through `__setitem__`. */
  method PlaceAll(target: Sparse2DArray, src: Store, dr: int, dc: int)
    requires target.Valid()
    requires forall k :: k in src ==> 0 <= k.0 + dr < target.rows && 0 <= k.1 + dc < target.cols && src[k] != 0
    modifies target
    ensures target.Valid() && target.rows == old(target.rows) && target.cols == old(target.cols)
    ensures target.data == Placed(old(target.data), src, dr, dc)
  {
    ghost var start := target.data;
    var pending := src.Keys;
    PlacedNothing(start, dr, dc);
    assert src - pending == map[];
    while pending != {}
      invariant pending <= src.Keys
      invariant target.Valid() && target.rows == old(target.rows) && target.cols == old(target.cols)
      invariant target.data == Placed(start, src - pending, dr, dc)
      decreases pending
    {
      if forall y :: y !in pending {
        assert false;
      }
      var k :| k in pending;
      var m := Move(k, dr, dc);
      ghost var before := target.data;
      PlaceStep(start, src, pending, dr, dc, k);
      var _ := target.Set(m.0, m.1, src[k]);
      assert target.data == before[m := src[k]];
      pending := pending - {k};
    }
    assert src - pending == src;
  }

  class Sparse2DArray {
    var rows: nat
    var cols: nat
    var data: Store

    /** The object invariant: the store is zero-suppressed and within the shape. */
    ghost predicate Valid()
      reads this
    {
      Canonical(data, rows, cols)
    }

    /** The dense grid the array reads as. */
    function View(): seq<seq<int>>
      reads this
    {
      Dense(data, rows, cols)
    }

    /**
     * `Sparse2DArray(rows, cols, values)`: stores the non-zero cells of
     * `values`, which must lie within the declared shape; missing cells read 0.
     */
    constructor (rows: nat, cols: nat, values: seq<seq<int>>)
      requires FitsShape(values, rows, cols)
      ensures Valid() && this.rows == rows && this.cols == cols
      ensures forall r, c :: 0 <= r < rows && 0 <= c < cols ==> View()[r][c] == Entry(values, r, c)
      ensures values == [] ==> data == map[]
    {
      this.rows := rows;
      this.cols := cols;
      var d: Store := map[];
      if values != [] {
        d := CompressRows(values);
      }
      CompressRowsView(d, values, rows, cols);
      data := d;
    }

    /** `a[row, col]`: IndexError unless the cell is in the shape, else its value. */
    function Get(row: int, col: int): (r: Result<int>)
      reads this
      ensures r.Ok? <==> 0 <= row < rows && 0 <= col < cols
      ensures r.Ok? ==> r.value == View()[row][col]
      ensures r.Err? ==> r.error == IndexError
    {
      if !(0 <= row < rows && 0 <= col < cols) then Err(IndexError) else Ok(At(data, row, col))
    }

    /**
     * `a[rs, cs]` with at least one slice: a dense list of lists, the column
     * slice of every row of the row slice of the dense grid.
     */
    method GetBlock(rowAxis: Axis, colAxis: Axis) returns (block: seq<seq<int>>)
      requires rowAxis.Span? || colAxis.Span?
      requires NonZeroStep(AxisSlice(rowAxis)) && NonZeroStep(AxisSlice(colAxis))
      ensures |block| == |SliceOf(View(), AxisSlice(rowAxis))|
      ensures forall i :: 0 <= i < |block| ==>
        block[i] == SliceOf(SliceOf(View(), AxisSlice(rowAxis))[i], AxisSlice(colAxis))
    {
      var rr := Indices(AxisSlice(rowAxis), rows);
      var cr := Indices(AxisSlice(colAxis), cols);
      block := ReadBlock(data, rr, cr);
      var picked := SliceOf(View(), AxisSlice(rowAxis));
      forall i | 0 <= i < |block|
        ensures block[i] == SliceOf(picked[i], AxisSlice(colAxis))
      {
        RangeWithin(rr, rows, i);
        assert picked[i] == View()[Nth(rr, i)];
        forall j | 0 <= j < Count(cr)
          ensures block[i][j] == SliceOf(picked[i], AxisSlice(colAxis))[j]
        {
          RangeWithin(cr, cols, j);
        }
      }
    }

    /** `a[row, col] = value`: IndexError outside the shape; 0 removes the entry, anything else is stored. */
    method Set(row: int, col: int, value: int) returns (r: Outcome)
      requires Valid()
      modifies this
      ensures Valid() && rows == old(rows) && cols == old(cols)
      ensures r == (if 0 <= row < rows && 0 <= col < cols then Pass else Fail(IndexError))
      ensures r.Pass? ==> data == Assign(old(data), row, col, value)
      ensures r.Pass? ==> View() == old(View())[row := old(View())[row][col := value]]
      ensures r.Fail? ==> data == old(data)
    {
      if !(0 <= row < rows && 0 <= col < cols) {
        return Fail(IndexError);
      }
      AssignView(data, rows, cols, row, col, value);
      if value == 0 {
        data := data - {(row, col)};
      } else {
        data := data[(row, col) := value];
      }
      r := Pass;
    }

    /** `a.append_row(row)`: ValueError unless `row` has `cols` values; otherwise `row` becomes the new last row. */
    method AppendRow(row: seq<int>) returns (r: Outcome)
      requires Valid()
      modifies this
      ensures Valid() && cols == old(cols)
      ensures r == (if |row| == old(cols) then Pass else Fail(ValueError))
      ensures r.Pass? ==> rows == old(rows) + 1 && View() == old(View()) + [row]
      ensures r.Fail? ==> rows == old(rows) && data == old(data)
    {
      if |row| != cols {
        return Fail(ValueError);
      }
      AppendRowView(data, rows, cols, row);
      data := StoreRow(data, rows, row);
      rows := rows + 1;
      r := Pass;
    }

    /** `a.append_column(column)`: ValueError unless `column` has `rows` values; otherwise it becomes the new last column. */
    method AppendColumn(column: seq<int>) returns (r: Outcome)
      requires Valid()
      modifies this
      ensures Valid() && rows == old(rows)
      ensures r == (if |column| == old(rows) then Pass else Fail(ValueError))
      ensures r.Pass? ==> cols == old(cols) + 1
      ensures r.Pass? ==> View() == AddColumn(old(View()), column)
      ensures r.Fail? ==> cols == old(cols) && data == old(data)
    {
      if |column| != rows {
        return Fail(ValueError);
      }
      AppendColumnView(data, rows, cols, column);
      data := StoreColumn(data, cols, column);
      cols := cols + 1;
      r := Pass;
    }

    /** `value in a`: true exactly when some cell of the dense grid holds `value` (0 included). */
    function Contains(value: int): (b: bool)
      reads this
      requires Valid()
      ensures b <==> exists r, c :: 0 <= r < rows && 0 <= c < cols && View()[r][c] == value
    {
      StoredValues(data, rows, cols, value);
      ZeroCellIffGap(data, rows, cols);
      assert View() == Dense(data, rows, cols);
      value in data.Values || (value == 0 && rows * cols != |data|)
    }

    /**
     * `a + b`: row-wise when the column counts agree (checked first), else
     * column-wise when the row counts agree, else ValueError; neither operand changes.
     */
    method Concat(other: Sparse2DArray) returns (r: Result<Sparse2DArray>)
      requires Valid() && other.Valid()
      ensures r.Err? <==> cols != other.cols && rows != other.rows
      ensures r.Err? ==> r.error == ValueError
      ensures r.Ok? ==> fresh(r.value) && r.value.Valid()
      ensures cols == other.cols ==>
        && r.Ok? && r.value.rows == rows + other.rows && r.value.cols == cols
        && r.value.View() == View() + other.View()
      ensures cols != other.cols && rows == other.rows ==>
        && r.Ok? && r.value.rows == rows && r.value.cols == cols + other.cols
        && r.value.View() == SideBySide(View(), other.View())
    {
      if cols == other.cols {
        var a := new Sparse2DArray(rows + other.rows, cols, []);
        PlaceAll(a, data, 0, 0);
        PlacedIdentity(data);
        PlaceAll(a, other.data, rows, 0);
        ConcatRowsView(data, other.data, rows, other.rows, cols);
        return Ok(a);
      } else if rows == other.rows {
        var a := new Sparse2DArray(rows, cols + other.cols, []);
        PlaceAll(a, data, 0, 0);
        PlacedIdentity(data);
        PlaceAll(a, other.data, 0, cols);
        ConcatColumnsView(data, other.data, rows, cols, other.cols);
        return Ok(a);
      } else {
        return Err(ValueError);
      }
    }

    /** `len(a)`: the number of cells of the shape, however many are stored. */
    function Len(): (n: nat)
      reads this
      ensures n == |Cells(rows, cols)|
    {
      CellsCount(rows, cols);
      rows * cols
    }

    /** `a < b`: compares cell counts only. */
    function Less(other: Sparse2DArray): (b: bool)
      reads this, other
      ensures b <==> |Cells(rows, cols)| < |Cells(other.rows, other.cols)|
    {
      Len() < other.Len()
    }

    /** `a > b`: compares cell counts only. */
    function Greater(other: Sparse2DArray): (b: bool)
      reads this, other
      ensures b <==> |Cells(rows, cols)| > |Cells(other.rows, other.cols)|
    {
      Len() > other.Len()
    }
  }
}
