/**
 * The first draft of `Sparse2DArray` (playground.py): construction from a
 * list of lists, size, scalar reads and writes that check only the upper
 * bounds, and the dense list-of-lists view.
 */
module Playground2D {
  import opened Results
  import opened Grid

  class Sparse2DArray {
    var rows: nat
    var cols: nat
    var data: Store

    /** The object invariant: no stored 0, and every key below the far edges of the shape. */
    ghost predicate Valid()
      reads this
    {
      Bounded(data, rows, cols)
    }

    /** The dense grid the array reads as. */
    function View(): seq<seq<int>>
      reads this
    {
      Dense(data, rows, cols)
    }

    /**
     * `Sparse2DArray(rows, cols, values)`: with `values` empty nothing is
     * stored; otherwise the non-zero cells of its `rows` x `cols` window are.
     */
    constructor (rows: nat, cols: nat, values: seq<seq<int>>)
      requires values == [] || CoversShape(values, rows, cols)
      ensures Valid() && Canonical(data, rows, cols) && this.rows == rows && this.cols == cols
      ensures values == [] ==> data == map[]
      ensures values != [] ==> forall r, c :: 0 <= r < rows && 0 <= c < cols ==> View()[r][c] == values[r][c]
    {
      this.rows := rows;
      this.cols := cols;
      var d: Store := map[];
      if values != [] {
        d := CompressWindow(values, rows, cols);
      }
      data := d;
    }

    /** `len(a)`: the number of cells of the shape. */
    function Len(): (n: nat)
      reads this
      ensures n == |Cells(rows, cols)|
    {
      CellsCount(rows, cols);
      rows * cols
    }

    /**
     * `a[row, col]`: IndexError only past the last row or column; an in-shape
     * cell reads its dense value, a negative index reads whatever is stored under it.
     */
    function Get(row: int, col: int): (r: Result<int>)
      reads this
      requires Valid()
      ensures r.Ok? <==> row < rows && col < cols
      ensures r.Err? ==> r.error == IndexError
      ensures r.Ok? && 0 <= row && 0 <= col ==> r.value == View()[row][col]
      ensures r.Ok? ==> (r.value != 0 <==> (row, col) in data)
      ensures r.Ok? && (row, col) in data ==> r.value == data[(row, col)]
    {
      if row >= rows || col >= cols then Err(IndexError) else Ok(At(data, row, col))
    }

    /**
     * `a[row, col] = value`: IndexError only past the last row or column;
     * otherwise 0 removes the entry and any other value is stored, so an
     * in-shape write changes that one cell and a negative one no cell at all.
     */
    method Set(row: int, col: int, value: int) returns (r: Outcome)
      requires Valid()
      modifies this
      ensures Valid() && rows == old(rows) && cols == old(cols)
      ensures r == (if row < rows && col < cols then Pass else Fail(IndexError))
      ensures r.Pass? ==> data == Assign(old(data), row, col, value)
      ensures r.Pass? && 0 <= row && 0 <= col ==> View() == old(View())[row := old(View())[row][col := value]]
      ensures r.Pass? && (row < 0 || col < 0) ==> View() == old(View())
      ensures r.Fail? ==> data == old(data)
    {
      if row >= rows || col >= cols {
        return Fail(IndexError);
      }
      if 0 <= row && 0 <= col {
        AssignView(data, rows, cols, row, col, value);
      } else {
        StrayAssignView(data, rows, cols, row, col, value);
      }
      if value != 0 {
        data := data[(row, col) := value];
      } else if (row, col) in data {
        data := data - {(row, col)};
      }
      r := Pass;
    }

    /** `str(a)`: the dense list of lists, `rows` lists of `cols` values. */
    method ToLists() returns (grid: seq<seq<int>>)
      ensures IsShaped(grid, rows, cols)
      ensures grid == View()
    {
      grid := Render(data, rows, cols);
    }
  }
}
