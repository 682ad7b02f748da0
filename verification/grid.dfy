/**
 * The store shared by the three drafts of `Sparse2DArray`: a shape
 * (rows, cols) and a dictionary keyed by (row, col) that holds only the
 * non-zero cells, with the loops the drafts use to fill and read it.
 */
module Grid {
  import opened Slices

  type Store = map<(int, int), int>

  /** The logical value of cell (row, col): its entry, or 0 when none is stored. */
  function At(data: Store, row: int, col: int): int {
    if (row, col) in data then data[(row, col)] else 0
  }

  /** The zero-suppression invariant: every key is an in-shape cell and no stored value is 0. */
  ghost predicate Canonical(data: Store, rows: nat, cols: nat) {
    forall k :: k in data ==> 0 <= k.0 < rows && 0 <= k.1 < cols && data[k] != 0
  }

  /**
   * The weaker invariant of the drafts that check only upper bounds: no stored
   * value is 0 and every key lies below and left of the shape's far edges,
   * where a negative row or column may also sit.
   */
  ghost predicate Bounded(data: Store, rows: nat, cols: nat) {
    forall k :: k in data ==> k.0 < rows && k.1 < cols && data[k] != 0
  }

  /** The dense grid (`rows` lists of `cols` values) a store stands for. */
  function Dense(data: Store, rows: nat, cols: nat): seq<seq<int>> {
    seq(rows, r => seq(cols, c => At(data, r, c)))
  }

  /** Every row of `g` extended by the matching value of `column`. */
  function AddColumn(g: seq<seq<int>>, column: seq<int>): seq<seq<int>>
    requires |column| == |g|
  {
    seq(|g|, i requires 0 <= i < |g| => g[i] + [column[i]])
  }

  /** Every row of `g` followed by the matching row of `h`. */
  function SideBySide(g: seq<seq<int>>, h: seq<seq<int>>): seq<seq<int>>
    requires |g| == |h|
  {
    seq(|g|, i requires 0 <= i < |g| => g[i] + h[i])
  }

  /** `values` has exactly the given shape. */
  ghost predicate IsShaped(values: seq<seq<int>>, rows: nat, cols: nat) {
    |values| == rows && forall r :: 0 <= r < rows ==> |values[r]| == cols
  }

  /** Zero suppression makes the store canonical: equal dense grids mean equal stores. */
  lemma {:induction false} CanonicalUnique(d1: Store, d2: Store, rows: nat, cols: nat)
    requires Canonical(d1, rows, cols) && Canonical(d2, rows, cols)
    requires Dense(d1, rows, cols) == Dense(d2, rows, cols)
    ensures d1 == d2
  {
    forall k | k in d1
      ensures k in d2 && d2[k] == d1[k]
    {
      assert Dense(d1, rows, cols)[k.0][k.1] == d1[k];
      assert Dense(d2, rows, cols)[k.0][k.1] == At(d2, k.0, k.1);
    }
    forall k | k in d2
      ensures k in d1
    {
      assert Dense(d2, rows, cols)[k.0][k.1] == d2[k];
      assert Dense(d1, rows, cols)[k.0][k.1] == At(d1, k.0, k.1);
    }
  }

  // ----- Cell counting, for `len` and for containment of 0 -----

  /** The in-shape cells. */
  function Cells(rows: nat, cols: nat): set<(int, int)> {
    set r, c | 0 <= r < rows && 0 <= c < cols :: (r, c)
  }

  function RowCells(r: int, cols: nat): set<(int, int)> {
    set c | 0 <= c < cols :: (r, c)
  }

  lemma {:induction false} RowCellsCount(r: int, cols: nat)
    ensures |RowCells(r, cols)| == cols
  {
    if cols > 0 {
      RowCellsCount(r, cols - 1);
      assert RowCells(r, cols) == RowCells(r, cols - 1) + {(r, cols - 1)};
    } else {
      assert RowCells(r, 0) == {};
    }
  }

  /** The cells of a shape are those of one row fewer plus the last row. */
  lemma CellsSplit(rows: nat, cols: nat)
    requires rows > 0
    ensures Cells(rows, cols) == Cells(rows - 1, cols) + RowCells(rows - 1, cols)
    ensures Cells(rows - 1, cols) !! RowCells(rows - 1, cols)
  {
  }

  /** A rows x cols grid has rows * cols cells. */
  lemma {:induction false} CellsCount(rows: nat, cols: nat)
    ensures |Cells(rows, cols)| == rows * cols
  {
    if rows > 0 {
      CellsCount(rows - 1, cols);
      RowCellsCount(rows - 1, cols);
      CellsSplit(rows, cols);
      var upper, last := Cells(rows - 1, cols), RowCells(rows - 1, cols);
      assert |upper + last| == |upper| + |last|;
      assert (rows - 1) * cols + cols == rows * cols;
    } else {
      assert Cells(0, cols) == {};
    }
  }

  /**
   * For a canonical store, the number of entries differs from rows * cols
   * exactly when some cell of the dense grid reads 0.
   */
  lemma ZeroCellIffGap(data: Store, rows: nat, cols: nat)
    requires Canonical(data, rows, cols)
    ensures |data| != rows * cols <==>
      exists r, c :: 0 <= r < rows && 0 <= c < cols && Dense(data, rows, cols)[r][c] == 0
  {
    CellsCount(rows, cols);
    var all := Cells(rows, cols);
    assert data.Keys <= all by {
      forall k | k in data
        ensures k in all
      {
        assert k == (k.0, k.1);
      }
    }
    assert all == data.Keys + (all - data.Keys);
    if |data| != rows * cols {
      assert |data.Keys| == |data|;
      assert all - data.Keys != {};
      if forall k :: k !in all - data.Keys {
        assert false;
      }
      var k :| k in all - data.Keys;
      assert Dense(data, rows, cols)[k.0][k.1] == 0;
    }
    if exists r, c :: 0 <= r < rows && 0 <= c < cols && Dense(data, rows, cols)[r][c] == 0 {
      var r, c :| 0 <= r < rows && 0 <= c < cols && Dense(data, rows, cols)[r][c] == 0;
      assert (r, c) !in data;
      assert (r, c) in all - data.Keys;
    }
  }

  /** A non-zero value is stored exactly when some cell of the dense grid reads it. */
  lemma StoredValues(data: Store, rows: nat, cols: nat, value: int)
    requires Canonical(data, rows, cols)
    ensures 0 !in data.Values
    ensures value != 0 ==> (value in data.Values <==>
      exists r, c :: 0 <= r < rows && 0 <= c < cols && Dense(data, rows, cols)[r][c] == value)
  {
    if value != 0 {
      if value in data.Values {
        if forall k :: k in data ==> data[k] != value {
          assert false;
        }
        var k :| k in data && data[k] == value;
        assert Dense(data, rows, cols)[k.0][k.1] == value;
      }
      if exists r, c :: 0 <= r < rows && 0 <= c < cols && Dense(data, rows, cols)[r][c] == value {
        var r, c :| 0 <= r < rows && 0 <= c < cols && Dense(data, rows, cols)[r][c] == value;
        assert (r, c) in data && data[(r, c)] == value;
      }
    }
  }

  // ----- Writing one cell -----

  /** `__setitem__` on the store once the bounds check passed: 0 removes the entry, any other value is stored. */
  function Assign(data: Store, row: int, col: int, value: int): Store {
    if value != 0 then data[(row, col) := value] else data - {(row, col)}
  }

  /** A write changes exactly the written cell and keeps the store canonical, or bounded. */
  lemma AssignView(data: Store, rows: nat, cols: nat, row: int, col: int, value: int)
    requires 0 <= row < rows && 0 <= col < cols
    ensures Canonical(data, rows, cols) ==> Canonical(Assign(data, row, col, value), rows, cols)
    ensures Bounded(data, rows, cols) ==> Bounded(Assign(data, row, col, value), rows, cols)
    ensures Dense(Assign(data, row, col, value), rows, cols)
      == Dense(data, rows, cols)[row := Dense(data, rows, cols)[row][col := value]]
  {
    var d := Assign(data, row, col, value);
    var g := Dense(data, rows, cols);
    forall r | 0 <= r < rows
      ensures Dense(d, rows, cols)[r] == g[row := g[row][col := value]][r]
    {
    }
  }

  /**
   * A write to a key with a negative row or column, below the far edges, keeps
   * the store bounded and leaves every cell of the dense grid as it was.
   */
  lemma StrayAssignView(data: Store, rows: nat, cols: nat, row: int, col: int, value: int)
    requires row < rows && col < cols && (row < 0 || col < 0)
    ensures Bounded(data, rows, cols) ==> Bounded(Assign(data, row, col, value), rows, cols)
    ensures Dense(Assign(data, row, col, value), rows, cols) == Dense(data, rows, cols)
  {
    var d := Assign(data, row, col, value);
    forall r | 0 <= r < rows
      ensures Dense(d, rows, cols)[r] == Dense(data, rows, cols)[r]
    {
    }
  }

  /**
   * The upper-bound-only check of the two earlier drafts lets `a[-1, 0] = 5`
   * through: the entry is stored under the key (-1, 0), the dense grid does
   * not change (its last row, which `-1` names in Python, still reads 0), and
   * `a[-1, 0]` reads the 5 back.
   */
  lemma StrayWrite()
    ensures var d := Assign(map[], -1, 0, 5);
      && (-1, 0) in d && d[(-1, 0)] == 5
      && Dense(d, 3, 3) == Dense(map[], 3, 3)
      && Dense(d, 3, 3)[2][0] == 0
  {
    StrayAssignView(map[], 3, 3, -1, 0, 5);
  }

  // ----- Appending a row or a column -----

  /** The store after the entries of `values` were added, in order, as row `ri` (a 0 adds nothing). */
  function WithRow(data: Store, ri: int, values: seq<int>): Store
    decreases |values|
  {
    if values == [] then data
    else
      var c := |values| - 1;
      var d := WithRow(data, ri, values[..c]);
      if values[c] != 0 then d[(ri, c) := values[c]] else d
  }

  /** The store after the entries of `values` were added, in order, as column `ci` (a 0 adds nothing). */
  function WithColumn(data: Store, ci: int, values: seq<int>): Store
    decreases |values|
  {
    if values == [] then data
    else
      var r := |values| - 1;
      var d := WithColumn(data, ci, values[..r]);
      if values[r] != 0 then d[(r, ci) := values[r]] else d
  }

  /** Row `ri` of WithRow holds the non-zero values of `values`; every other key keeps its entry. */
  lemma {:induction false} WithRowEntries(data: Store, ri: int, values: seq<int>, k: (int, int))
    ensures k in WithRow(data, ri, values) <==>
      (k in data || (k.0 == ri && 0 <= k.1 < |values| && values[k.1] != 0))
    ensures k in WithRow(data, ri, values) ==>
      WithRow(data, ri, values)[k] ==
        if k.0 == ri && 0 <= k.1 < |values| && values[k.1] != 0 then values[k.1] else data[k]
    decreases |values|
  {
    if values != [] {
      WithRowEntries(data, ri, values[..|values| - 1], k);
    }
  }

  /** Column `ci` of WithColumn holds the non-zero values of `values`; every other key keeps its entry. */
  lemma {:induction false} WithColumnEntries(data: Store, ci: int, values: seq<int>, k: (int, int))
    ensures k in WithColumn(data, ci, values) <==>
      (k in data || (k.1 == ci && 0 <= k.0 < |values| && values[k.0] != 0))
    ensures k in WithColumn(data, ci, values) ==>
      WithColumn(data, ci, values)[k] ==
        if k.1 == ci && 0 <= k.0 < |values| && values[k.0] != 0 then values[k.0] else data[k]
    decreases |values|
  {
    if values != [] {
      WithColumnEntries(data, ci, values[..|values| - 1], k);
    }
  }

  /** Adding a full-width row below the last one appends it to the dense grid and keeps every prior entry. */
  lemma AppendRowView(data: Store, rows: nat, cols: nat, row: seq<int>)
    requires Bounded(data, rows, cols) && |row| == cols
    ensures Bounded(WithRow(data, rows, row), rows + 1, cols)
    ensures Canonical(data, rows, cols) ==> Canonical(WithRow(data, rows, row), rows + 1, cols)
    ensures Dense(WithRow(data, rows, row), rows + 1, cols) == Dense(data, rows, cols) + [row]
    ensures forall k :: k in data ==> k in WithRow(data, rows, row) && WithRow(data, rows, row)[k] == data[k]
  {
    var d := WithRow(data, rows, row);
    forall k | k in data
      ensures k in d && d[k] == data[k]
    {
      WithRowEntries(data, rows, row, k);
    }
    forall k | k in d
      ensures k.0 < rows + 1 && k.1 < cols && d[k] != 0
      ensures k !in data ==> 0 <= k.0 && 0 <= k.1
    {
      WithRowEntries(data, rows, row, k);
    }
    forall r, c | 0 <= r < rows + 1 && 0 <= c < cols
      ensures At(d, r, c) == if r < rows then At(data, r, c) else row[c]
    {
      WithRowEntries(data, rows, row, (r, c));
    }
    var g := Dense(d, rows + 1, cols);
    forall r | 0 <= r < rows + 1
      ensures g[r] == (Dense(data, rows, cols) + [row])[r]
    {
    }
  }

  /** Adding a full-height column right of the last one extends every dense row by its value and keeps every prior entry. */
  lemma AppendColumnView(data: Store, rows: nat, cols: nat, column: seq<int>)
    requires Bounded(data, rows, cols) && |column| == rows
    ensures Bounded(WithColumn(data, cols, column), rows, cols + 1)
    ensures Canonical(data, rows, cols) ==> Canonical(WithColumn(data, cols, column), rows, cols + 1)
    ensures Dense(WithColumn(data, cols, column), rows, cols + 1) == AddColumn(Dense(data, rows, cols), column)
    ensures forall k :: k in data ==> k in WithColumn(data, cols, column) && WithColumn(data, cols, column)[k] == data[k]
  {
    var d := WithColumn(data, cols, column);
    forall k | k in data
      ensures k in d && d[k] == data[k]
    {
      WithColumnEntries(data, cols, column, k);
    }
    forall k | k in d
      ensures k.0 < rows && k.1 < cols + 1 && d[k] != 0
      ensures k !in data ==> 0 <= k.0 && 0 <= k.1
    {
      WithColumnEntries(data, cols, column, k);
    }
    forall r, c | 0 <= r < rows && 0 <= c < cols + 1
      ensures At(d, r, c) == if c < cols then At(data, r, c) else column[r]
    {
      WithColumnEntries(data, cols, column, (r, c));
    }
    var g := Dense(d, rows, cols + 1);
    forall r | 0 <= r < rows
      ensures g[r] == Dense(data, rows, cols)[r] + [column[r]]
    {
    }
  }

  /** The loop of `append_row`: each non-zero value of `values` is stored in row `ri`. */
  method StoreRow(data: Store, ri: int, values: seq<int>) returns (d: Store)
    ensures d == WithRow(data, ri, values)
  {
    d := data;
    var c := 0;
    while c < |values|
      invariant 0 <= c <= |values|
      invariant d == WithRow(data, ri, values[..c])
    {
      assert values[..c + 1][..c] == values[..c];
      if values[c] != 0 {
        d := d[(ri, c) := values[c]];
      }
      c := c + 1;
    }
    assert values[..c] == values;
  }

  /** The loop of `append_column`: each non-zero value of `values` is stored in column `ci`. */
  method StoreColumn(data: Store, ci: int, values: seq<int>) returns (d: Store)
    ensures d == WithColumn(data, ci, values)
  {
    d := data;
    var r := 0;
    while r < |values|
      invariant 0 <= r <= |values|
      invariant d == WithColumn(data, ci, values[..r])
    {
      assert values[..r + 1][..r] == values[..r];
      if values[r] != 0 {
        d := d[(r, ci) := values[r]];
      }
      r := r + 1;
    }
    assert values[..r] == values;
  }

  // ----- Filling a store from a list of lists -----

  /** Cell (r, c) of a possibly ragged list of lists, 0 where it has no such cell. */
  function Entry(values: seq<seq<int>>, r: int, c: int): int {
    if 0 <= r < |values| && 0 <= c < |values[r]| then values[r][c] else 0
  }

  /** Every cell of `values` lies within the shape (rows, cols). */
  ghost predicate FitsShape(values: seq<seq<int>>, rows: nat, cols: nat) {
    |values| <= rows && forall r :: 0 <= r < |values| ==> |values[r]| <= cols
  }

  /** `values` has at least `rows` rows of at least `cols` values each. */
  ghost predicate CoversShape(values: seq<seq<int>>, rows: nat, cols: nat) {
    rows <= |values| && forall r :: 0 <= r < rows ==> cols <= |values[r]|
  }

  /**
   * The nested `enumerate` loops of the full-featured constructor: the store
   * holds exactly the non-zero cells of `values`, wherever they lie.
   */
  method CompressRows(values: seq<seq<int>>) returns (d: Store)
    ensures forall k :: k in d ==>
      0 <= k.0 < |values| && 0 <= k.1 < |values[k.0]| && d[k] == values[k.0][k.1] != 0
    ensures forall r, c :: 0 <= r < |values| && 0 <= c < |values[r]| && values[r][c] != 0 ==> (r, c) in d
  {
    d := map[];
    var r := 0;
    while r < |values|
      invariant 0 <= r <= |values|
      invariant forall k :: k in d ==>
        0 <= k.0 < r && 0 <= k.1 < |values[k.0]| && d[k] == values[k.0][k.1] != 0
      invariant forall i, j :: 0 <= i < r && 0 <= j < |values[i]| && values[i][j] != 0 ==> (i, j) in d
    {
      var row := values[r];
      var c := 0;
      while c < |row|
        invariant 0 <= c <= |row|
        invariant forall k :: k in d ==>
          (0 <= k.0 < r || (k.0 == r && k.1 < c)) && 0 <= k.1 < |values[k.0]| && d[k] == values[k.0][k.1] != 0
        invariant forall i, j :: 0 <= i < r && 0 <= j < |values[i]| && values[i][j] != 0 ==> (i, j) in d
        invariant forall j :: 0 <= j < c && row[j] != 0 ==> (r, j) in d
      {
        if row[c] != 0 {
          d := d[(r, c) := row[c]];
        }
        c := c + 1;
      }
      r := r + 1;
    }
  }

  /** A store holding exactly the non-zero cells of `values` reads as `values` padded with zeros. */
  lemma CompressRowsView(d: Store, values: seq<seq<int>>, rows: nat, cols: nat)
    requires FitsShape(values, rows, cols)
    requires forall k :: k in d ==>
      0 <= k.0 < |values| && 0 <= k.1 < |values[k.0]| && d[k] == values[k.0][k.1] != 0
    requires forall r, c :: 0 <= r < |values| && 0 <= c < |values[r]| && values[r][c] != 0 ==> (r, c) in d
    ensures Canonical(d, rows, cols)
    ensures forall r, c :: 0 <= r < rows && 0 <= c < cols ==> Dense(d, rows, cols)[r][c] == Entry(values, r, c)
  {
  }

  /**
   * The nested `range` loops of the drafts that read `values[row][col]` for
   * every cell of the declared shape: the store holds the non-zero ones.
   */
  method CompressWindow(values: seq<seq<int>>, rows: nat, cols: nat) returns (d: Store)
    requires CoversShape(values, rows, cols)
    ensures Canonical(d, rows, cols)
    ensures forall r, c :: 0 <= r < rows && 0 <= c < cols ==> Dense(d, rows, cols)[r][c] == values[r][c]
  {
    d := map[];
    var r := 0;
    while r < rows
      invariant 0 <= r <= rows
      invariant forall k :: k in d ==> 0 <= k.0 < r && 0 <= k.1 < cols && d[k] == values[k.0][k.1] != 0
      invariant forall i, j :: 0 <= i < r && 0 <= j < cols && values[i][j] != 0 ==> (i, j) in d
    {
      var c := 0;
      while c < cols
        invariant 0 <= c <= cols
        invariant forall k :: k in d ==>
          (0 <= k.0 < r || (k.0 == r && k.1 < c)) && 0 <= k.1 < cols && d[k] == values[k.0][k.1] != 0
        invariant forall i, j :: 0 <= i < r && 0 <= j < cols && values[i][j] != 0 ==> (i, j) in d
        invariant forall j :: 0 <= j < c && values[r][j] != 0 ==> (r, j) in d
      {
        if values[r][c] != 0 {
          d := d[(r, c) := values[r][c]];
        }
        c := c + 1;
      }
      r := r + 1;
    }
  }

  // ----- Reading the dense form -----

  /**
   * The nested loops of `__str__`: `rows` lists of `cols` values, each the
   * stored value of its cell or 0 when none is stored.
   */
  method Render(data: Store, rows: nat, cols: nat) returns (grid: seq<seq<int>>)
    ensures IsShaped(grid, rows, cols)
    ensures forall r, c :: 0 <= r < rows && 0 <= c < cols ==>
      grid[r][c] == if (r, c) in data then data[(r, c)] else 0
    ensures grid == Dense(data, rows, cols)
  {
    grid := [];
    var r := 0;
    while r < rows
      invariant 0 <= r <= rows
      invariant |grid| == r
      invariant forall i :: 0 <= i < r ==> grid[i] == Dense(data, rows, cols)[i]
    {
      var row := [];
      var c := 0;
      while c < cols
        invariant 0 <= c <= cols
        invariant |row| == c
        invariant forall j :: 0 <= j < c ==> row[j] == At(data, r, j)
      {
        row := row + [At(data, r, c)];
        c := c + 1;
      }
      grid := grid + [row];
      r := r + 1;
    }
  }

  /**
   * The nested loops of a block read: one list per selected row, each holding
   * the value of every selected column of that row.
   */
  method ReadBlock(data: Store, rr: Range, cr: Range) returns (block: seq<seq<int>>)
    requires rr.step != 0 && cr.step != 0
    ensures IsShaped(block, Count(rr), Count(cr))
    ensures forall i, j :: 0 <= i < Count(rr) && 0 <= j < Count(cr) ==>
      block[i][j] == At(data, Nth(rr, i), Nth(cr, j))
  {
    block := [];
    var i := 0;
    while i < Count(rr)
      invariant 0 <= i <= Count(rr)
      invariant |block| == i
      invariant forall i' :: 0 <= i' < i ==> |block[i']| == Count(cr)
      invariant forall i', j :: 0 <= i' < i && 0 <= j < Count(cr) ==> block[i'][j] == At(data, Nth(rr, i'), Nth(cr, j))
    {
      var row := [];
      var j := 0;
      while j < Count(cr)
        invariant 0 <= j <= Count(cr)
        invariant |row| == j
        invariant forall j' :: 0 <= j' < j ==> row[j'] == At(data, Nth(rr, i), Nth(cr, j'))
      {
        row := row + [At(data, Nth(rr, i), Nth(cr, j))];
        j := j + 1;
      }
      block := block + [row];
      i := i + 1;
    }
  }

  // ----- Concatenation -----

  /** A key moved by (dr, dc). */
  function Move(k: (int, int), dr: int, dc: int): (int, int) {
    (k.0 + dr, k.1 + dc)
  }

  /** The keys of `b` moved by (dr, dc). */
  function ShiftedKeys(b: Store, dr: int, dc: int): set<(int, int)> {
    set k | k in b :: Move(k, dr, dc)
  }

  /** `b` moved by (dr, dc). */
  function Shifted(b: Store, dr: int, dc: int): Store {
    map j | j in ShiftedKeys(b, dr, dc) && Move(j, -dr, -dc) in b :: b[Move(j, -dr, -dc)]
  }

  /**
   * The store `__add__` builds: the entries of `a`, then those of `b` moved by
   * (dr, dc), a moved entry of `b` replacing one of `a` at the same key.
   */
  function Placed(a: Store, b: Store, dr: int, dc: int): Store {
    a + Shifted(b, dr, dc)
  }

  lemma ShiftedAt(b: Store, dr: int, dc: int, j: (int, int))
    ensures j in Shifted(b, dr, dc) <==> Move(j, -dr, -dc) in b
    ensures j in Shifted(b, dr, dc) ==> Shifted(b, dr, dc)[j] == b[Move(j, -dr, -dc)]
  {
    if Move(j, -dr, -dc) in b {
      assert j in ShiftedKeys(b, dr, dc);
    }
  }

  lemma PlacedAt(a: Store, b: Store, dr: int, dc: int, r: int, c: int)
    ensures (r, c) in Placed(a, b, dr, dc) <==> (r, c) in a || (r - dr, c - dc) in b
    ensures At(Placed(a, b, dr, dc), r, c) == if (r - dr, c - dc) in b then b[(r - dr, c - dc)] else At(a, r, c)
  {
    ShiftedAt(b, dr, dc, (r, c));
  }

  /** Placing nothing leaves the store as it was. */
  lemma PlacedNothing(a: Store, dr: int, dc: int)
    ensures Placed(a, map[], dr, dc) == a
  {
    assert Shifted(map[], dr, dc) == map[];
  }

  /** One key of `ShiftedInsert`. */
  lemma ShiftedInsertAt(b: Store, dr: int, dc: int, k: (int, int), v: int, j: (int, int))
    ensures j in Shifted(b[k := v], dr, dc) <==> j in Shifted(b, dr, dc) || j == Move(k, dr, dc)
    ensures j in Shifted(b[k := v], dr, dc) ==>
      Shifted(b[k := v], dr, dc)[j] == if j == Move(k, dr, dc) then v else Shifted(b, dr, dc)[j]
  {
    ShiftedAt(b[k := v], dr, dc, j);
    ShiftedAt(b, dr, dc, j);
    assert j == Move(k, dr, dc) <==> Move(j, -dr, -dc) == k;
  }

  /** Moving one more entry of `b` adds it at the moved key. */
  lemma ShiftedInsert(b: Store, dr: int, dc: int, k: (int, int), v: int)
    ensures Shifted(b[k := v], dr, dc) == Shifted(b, dr, dc)[Move(k, dr, dc) := v]
  {
    var lhs := Shifted(b[k := v], dr, dc);
    var rhs := Shifted(b, dr, dc)[Move(k, dr, dc) := v];
    forall j | j in lhs || j in rhs
      ensures j in lhs && j in rhs && lhs[j] == rhs[j]
    {
      ShiftedInsertAt(b, dr, dc, k, v, j);
    }
  }

  /** Placing one more entry of `b` is one more write, at the moved key. */
  lemma PlacedInsert(a: Store, b: Store, dr: int, dc: int, k: (int, int), v: int)
    ensures Placed(a, b[k := v], dr, dc) == Placed(a, b, dr, dc)[Move(k, dr, dc) := v]
  {
    var x := Move(k, dr, dc);
    var m := Shifted(b, dr, dc);
    ShiftedInsert(b, dr, dc, k, v);
    assert a + m[x := v] == (a + m)[x := v];
  }

  /** Placing a store into an empty one unmoved gives the store itself. */
  lemma PlacedIdentity(b: Store)
    ensures Placed(map[], b, 0, 0) == b
  {
    forall k | k in b || k in Placed(map[], b, 0, 0)
      ensures k in b && k in Placed(map[], b, 0, 0) && Placed(map[], b, 0, 0)[k] == b[k]
    {
      PlacedAt(map[], b, 0, 0, k.0, k.1);
    }
  }

  /** Row-wise concatenation stacks the dense grids: the rows of `a`, then the rows of `b`. */
  lemma ConcatRowsView(a: Store, b: Store, rowsA: nat, rowsB: nat, cols: nat)
    requires Canonical(a, rowsA, cols) && Canonical(b, rowsB, cols)
    ensures Canonical(Placed(a, b, rowsA, 0), rowsA + rowsB, cols)
    ensures Dense(Placed(a, b, rowsA, 0), rowsA + rowsB, cols) == Dense(a, rowsA, cols) + Dense(b, rowsB, cols)
  {
    var d := Placed(a, b, rowsA, 0);
    forall k | k in d
      ensures 0 <= k.0 < rowsA + rowsB && 0 <= k.1 < cols && d[k] != 0
    {
      PlacedAt(a, b, rowsA, 0, k.0, k.1);
    }
    var g := Dense(d, rowsA + rowsB, cols);
    var h := Dense(a, rowsA, cols) + Dense(b, rowsB, cols);
    forall r | 0 <= r < rowsA + rowsB
      ensures g[r] == h[r]
    {
      forall c | 0 <= c < cols
        ensures g[r][c] == h[r][c]
      {
        PlacedAt(a, b, rowsA, 0, r, c);
      }
    }
  }

  /** Column-wise concatenation joins the dense grids row by row: each row of `a`, then the same row of `b`. */
  lemma ConcatColumnsView(a: Store, b: Store, rows: nat, colsA: nat, colsB: nat)
    requires Canonical(a, rows, colsA) && Canonical(b, rows, colsB)
    ensures Canonical(Placed(a, b, 0, colsA), rows, colsA + colsB)
    ensures Dense(Placed(a, b, 0, colsA), rows, colsA + colsB) == SideBySide(Dense(a, rows, colsA), Dense(b, rows, colsB))
  {
    var d := Placed(a, b, 0, colsA);
    forall k | k in d
      ensures 0 <= k.0 < rows && 0 <= k.1 < colsA + colsB && d[k] != 0
    {
      PlacedAt(a, b, 0, colsA, k.0, k.1);
    }
    var g := Dense(d, rows, colsA + colsB);
    forall r | 0 <= r < rows
      ensures g[r] == Dense(a, rows, colsA)[r] + Dense(b, rows, colsB)[r]
    {
      forall c | 0 <= c < colsA + colsB
        ensures g[r][c] == (Dense(a, rows, colsA)[r] + Dense(b, rows, colsB)[r])[c]
      {
        PlacedAt(a, b, 0, colsA, r, c);
      }
    }
  }
}
