/**
 * The slicing, dynamically growing draft of `Sparse2DArray`
 * (sparse2Darray_slicing_dyn_growth.py): reads and writes check only the
 * upper bounds, a two-slice read returns a new array, entries can be deleted,
 * and rows and columns can be appended, zero-filled when no values are given.
 */
module DynGrowth2D {
  import opened Results
  import opened Slices
  import opened Grid

  /** `given or [0] * n`: the given values, unless absent or empty, in which case `n` zeros. */
  function Filled(given: Option<seq<int>>, n: nat): (v: seq<int>)
    ensures given.Some? && given.value != [] ==> v == given.value
    ensures given.None? || given.value == [] ==> |v| == n && forall i :: 0 <= i < n ==> v[i] == 0
  {
    if given.Some? && given.value != [] then given.value else seq(n, _ => 0)
  }

  class Sparse2DArray {
    var rows: nat
    var cols: nat
    var data: Store

    /** The object invariant: no stored 0, and every key below the far edges of the shape. */
    ghost predicate Valid()
      reads this
    {
      Bounded(data, rows, cols)
    }

    /** The dense grid the array reads as. */
    function View(): seq<seq<int>>
      reads this
    {
      Dense(data, rows, cols)
    }

    /**
     * `Sparse2DArray(rows, cols, values)`: with `values` empty nothing is
     * stored; otherwise the non-zero cells of its `rows` x `cols` window are.
     */
    constructor (rows: nat, cols: nat, values: seq<seq<int>>)
      requires values == [] || CoversShape(values, rows, cols)
      ensures Valid() && Canonical(data, rows, cols) && this.rows == rows && this.cols == cols
      ensures values == [] ==> data == map[]
      ensures values != [] ==> forall r, c :: 0 <= r < rows && 0 <= c < cols ==> View()[r][c] == values[r][c]
    {
      this.rows := rows;
      this.cols := cols;
      var d: Store := map[];
      if values != [] {
        d := CompressWindow(values, rows, cols);
      }
      data := d;
    }

    /** `len(a)`: the number of cells of the shape. */
    function Len(): (n: nat)
      reads this
      ensures n == |Cells(rows, cols)|
    {
      CellsCount(rows, cols);
      rows * cols
    }

    /**
     * `a[row, col]`: IndexError only past the last row or column; an in-shape
     * cell reads its dense value, a negative index reads whatever is stored under it.
     */
    function Get(row: int, col: int): (r: Result<int>)
      reads this
      requires Valid()
      ensures r.Ok? <==> row < rows && col < cols
      ensures r.Err? ==> r.error == IndexError
      ensures r.Ok? && 0 <= row && 0 <= col ==> r.value == View()[row][col]
      ensures r.Ok? ==> (r.value != 0 <==> (row, col) in data)
      ensures r.Ok? && (row, col) in data ==> r.value == data[(row, col)]
    {
      if row >= rows || col >= cols then Err(IndexError) else Ok(At(data, row, col))
    }

    /**
     * `a[rs, cs]` with two slices: a new array of the selected cells; it has
     * one row per selected row and, when there is at least one, one column
     * per selected column, else no columns.
     */
    method GetBlock(rs: Slice, cs: Slice) returns (a: Sparse2DArray)
      requires Valid() && NonZeroStep(rs) && NonZeroStep(cs)
      ensures fresh(a) && a.Valid() && Canonical(a.data, a.rows, a.cols)
      ensures a.rows == |SliceOf(View(), rs)|
      ensures a.cols == if a.rows == 0 then 0 else Count(Indices(cs, cols))
      ensures forall i :: 0 <= i < a.rows ==> a.View()[i] == SliceOf(SliceOf(View(), rs)[i], cs)
    {
      var rr := Indices(rs, rows);
      var cr := Indices(cs, cols);
      var block := ReadBlock(data, rr, cr);
      var newRows := |block|;
      var newCols := if block != [] then |block[0]| else 0;
      a := new Sparse2DArray(newRows, newCols, block);
      var picked := SliceOf(View(), rs);
      forall i | 0 <= i < a.rows
        ensures a.View()[i] == SliceOf(picked[i], cs)
      {
        RangeWithin(rr, rows, i);
        assert picked[i] == View()[Nth(rr, i)];
        forall j | 0 <= j < Count(cr)
          ensures a.View()[i][j] == SliceOf(picked[i], cs)[j]
        {
          RangeWithin(cr, cols, j);
        }
      }
    }

    /**
     * `a[row, col] = value`: IndexError only past the last row or column;
     * otherwise 0 removes the entry and any other value is stored, so an
     * in-shape write changes that one cell and a negative one no cell at all.
     */
    method Set(row: int, col: int, value: int) returns (r: Outcome)
      requires Valid()
      modifies this
      ensures Valid() && rows == old(rows) && cols == old(cols)
      ensures r == (if row < rows && col < cols then Pass else Fail(IndexError))
      ensures r.Pass? ==> data == Assign(old(data), row, col, value)
      ensures r.Pass? && 0 <= row && 0 <= col ==> View() == old(View())[row := old(View())[row][col := value]]
      ensures r.Pass? && (row < 0 || col < 0) ==> View() == old(View())
      ensures r.Fail? ==> data == old(data)
    {
      if row >= rows || col >= cols {
        return Fail(IndexError);
      }
      if 0 <= row && 0 <= col {
        AssignView(data, rows, cols, row, col, value);
      } else {
        StrayAssignView(data, rows, cols, row, col, value);
      }
      if value != 0 {
        data := data[(row, col) := value];
      } else if (row, col) in data {
        data := data - {(row, col)};
      }
      r := Pass;
    }

    /**
     * `del a[row, col]`: removes the entry if one is stored, with no bounds
     * check; an in-shape cell then reads 0 and any other key leaves the grid as it was.
     */
    method Delete(row: int, col: int)
      requires Valid()
      modifies this
      ensures Valid() && rows == old(rows) && cols == old(cols)
      ensures data == old(data) - {(row, col)}
      ensures 0 <= row < rows && 0 <= col < cols ==> View() == old(View())[row := old(View())[row][col := 0]]
      ensures !(0 <= row < rows && 0 <= col < cols) ==> View() == old(View())
    {
      if 0 <= row < rows && 0 <= col < cols {
        AssignView(data, rows, cols, row, col, 0);
      } else if row < rows && col < cols {
        StrayAssignView(data, rows, cols, row, col, 0);
      } else {
        assert (row, col) !in data;
      }
      if (row, col) in data {
        data := data - {(row, col)};
      }
    }

    /**
     * `a.append_row(new_row)`: an absent or empty `new_row` means a row of
     * zeros; ValueError unless the row has `cols` values, else it becomes the new last row.
     */
    method AppendRow(newRow: Option<seq<int>>) returns (r: Outcome)
      requires Valid()
      modifies this
      ensures Valid() && cols == old(cols)
      ensures r == (if newRow.Some? && newRow.value != [] && |newRow.value| != old(cols) then Fail(ValueError) else Pass)
      ensures newRow.None? || newRow.value == [] ==> View() == old(View()) + [seq(old(cols), _ => 0)]
      ensures newRow.Some? && newRow.value != [] && r.Pass? ==> View() == old(View()) + [newRow.value]
      ensures r.Pass? ==> rows == old(rows) + 1
      ensures r.Pass? ==> data == WithRow(old(data), old(rows), Filled(newRow, old(cols)))
      ensures forall k :: k in old(data) ==> k in data && data[k] == old(data)[k]
      ensures r.Fail? ==> rows == old(rows) && data == old(data)
    {
      var values := Filled(newRow, cols);
      if |values| != cols {
        return Fail(ValueError);
      }
      AppendRowView(data, rows, cols, values);
      data := StoreRow(data, rows, values);
      rows := rows + 1;
      r := Pass;
    }

    /**
     * `a.append_column(new_col)`: an absent or empty `new_col` means a column
     * of zeros; ValueError unless it has `rows` values, else it becomes the new last column.
     */
    method AppendColumn(newColumn: Option<seq<int>>) returns (r: Outcome)
      requires Valid()
      modifies this
      ensures Valid() && rows == old(rows)
      ensures r == (if newColumn.Some? && newColumn.value != [] && |newColumn.value| != old(rows) then Fail(ValueError) else Pass)
      ensures newColumn.None? || newColumn.value == [] ==>
        View() == AddColumn(old(View()), seq(old(rows), _ => 0))
      ensures newColumn.Some? && newColumn.value != [] && r.Pass? ==> View() == AddColumn(old(View()), newColumn.value)
      ensures r.Pass? ==> cols == old(cols) + 1
      ensures r.Pass? ==> data == WithColumn(old(data), old(cols), Filled(newColumn, old(rows)))
      ensures forall k :: k in old(data) ==> k in data && data[k] == old(data)[k]
      ensures r.Fail? ==> cols == old(cols) && data == old(data)
    {
      var values := Filled(newColumn, rows);
      if |values| != rows {
        return Fail(ValueError);
      }
      AppendColumnView(data, rows, cols, values);
      data := StoreColumn(data, cols, values);
      cols := cols + 1;
      r := Pass;
    }

    /** `str(a)`: the dense list of lists, `rows` lists of `cols` values. */
    method ToLists() returns (grid: seq<seq<int>>)
      ensures IsShaped(grid, rows, cols)
      ensures grid == View()
    {
      grid := Render(data, rows, cols);
    }
  }
}
