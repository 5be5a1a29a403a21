/** The maze lattice: a `height` x `width` arrangement of cells with
    structural north/south/east/west adjacency wired at construction, and a
    text rendering whose walls follow the cells' links. */
module Grids {
  import opened Cells
  import opened TextLines

  /** The glyph drawn for a wall; an open passage is a space. */
  const Wall: char := '█'

  /** `reduce((a, b) => a.concat(b))` with no initial value: the rows joined
      left to right. Defined for at least one row only, as `reduce` is. */
  function Concat<T>(rows: seq<seq<T>>): (r: seq<T>)
    requires |rows| > 0
    ensures forall i, j :: 0 <= i < |rows| && 0 <= j < |rows[i]| ==> rows[i][j] in r
  {
    if |rows| == 1 then rows[0]
    else Concat(rows[..|rows| - 1]) + rows[|rows| - 1]
  }

  /** For rows of equal width `w`, element `(r, c)` lands at `r * w + c`. */
  lemma {:induction false} ConcatAt<T>(rows: seq<seq<T>>, w: nat)
    requires |rows| > 0
    requires forall i :: 0 <= i < |rows| ==> |rows[i]| == w
    ensures |Concat(rows)| == |rows| * w
    ensures forall r, c :: 0 <= r < |rows| && 0 <= c < w ==>
      r * w + c < |Concat(rows)| && Concat(rows)[r * w + c] == rows[r][c]
  {
    var n := |rows|;
    if n > 1 {
      var init := rows[..n - 1];
      ConcatAt(init, w);
      forall r, c | 0 <= r < n && 0 <= c < w
        ensures r * w + c < |Concat(rows)| && Concat(rows)[r * w + c] == rows[r][c]
      {
        if r < n - 1 {
          RowOffset(r, n - 1, w, c);
          assert init[r][c] == rows[r][c];
        } else {
          assert r * w == (n - 1) * w;
        }
      }
    }
  }

  /** Row `r` of a table of `n` rows of width `w` ends before `n * w`. */
  lemma {:induction false} RowOffset(r: nat, n: nat, w: nat, c: nat)
    requires r < n && c < w
    ensures r * w + c < n * w
    decreases n - r
  {
    if r + 1 < n {
      RowOffset(r + 1, n, w, c);
    }
  }

  /** When every cell sits at its own position, the flattened cells are
      numbered row-major: cell `k` has `row * w + column == k`. */
  lemma {:induction false} ConcatPositions(rows: seq<seq<Cell>>, w: nat)
    requires |rows| > 0
    requires forall i :: 0 <= i < |rows| ==> |rows[i]| == w
    requires forall r, c :: 0 <= r < |rows| && 0 <= c < w ==> rows[r][c].row == r && rows[r][c].column == c
    ensures forall k :: 0 <= k < |Concat(rows)| ==>
      Concat(rows)[k].row * w + Concat(rows)[k].column == k &&
      0 <= Concat(rows)[k].row < |rows| && 0 <= Concat(rows)[k].column < w &&
      Concat(rows)[k] == rows[Concat(rows)[k].row][Concat(rows)[k].column]
  {
    var n := |rows|;
    ConcatAt(rows, w);
    if n > 1 {
      var init := rows[..n - 1];
      ConcatPositions(init, w);
      ConcatAt(init, w);
      forall k | 0 <= k < |Concat(rows)|
        ensures Concat(rows)[k].row * w + Concat(rows)[k].column == k
        ensures 0 <= Concat(rows)[k].row < n && 0 <= Concat(rows)[k].column < w
        ensures Concat(rows)[k] == rows[Concat(rows)[k].row][Concat(rows)[k].column]
      {
        if k >= |Concat(init)| {
          var c := k - (n - 1) * w;
          assert Concat(rows)[k] == rows[n - 1][c];
        }
      }
    }
  }

  /** Every character is a wall or an open space. */
  predicate Drawn(line: string) {
    forall k :: 0 <= k < |line| ==> line[k] == Wall || line[k] == ' '
  }

  /** The open-or-wall glyph right of a cell on its top line. */
  function EastGlyph(cell: Cell): (g: char)
    reads cell`links, cell`east
    ensures g == ' ' || g == Wall
    ensures g == ' ' <==> cell.IsLinked(cell.east)
  {
    if cell.IsLinked(cell.east) then ' ' else Wall
  }

  /** The glyph repeated three times under a cell on its bottom line. */
  function SouthGlyph(cell: Cell): (g: char)
    reads cell`links, cell`south
    ensures g == ' ' || g == Wall
    ensures g == ' ' <==> cell.IsLinked(cell.south)
  {
    if cell.IsLinked(cell.south) then ' ' else Wall
  }

  /** The border line above the first row: one wall and four per cell. */
  function BorderLine(n: nat): (line: string)
    ensures |line| == 1 + 4 * n && Drawn(line)
    ensures forall k :: 0 <= k < |line| ==> line[k] == Wall
  {
    if n == 0 then [Wall] else BorderLine(n - 1) + [Wall, Wall, Wall, Wall]
  }

  /** A row's top line: a wall, then per cell an open interior and the east glyph. */
  function TopLine(row: seq<Cell>): (line: string)
    reads row
    ensures |line| == 1 + 4 * |row| && line[0] == Wall && Drawn(line)
  {
    if row == [] then [Wall]
    else TopLine(row[..|row| - 1]) + "   " + [EastGlyph(row[|row| - 1])]
  }

  /** A row's bottom line: a wall, then per cell three south glyphs and a wall. */
  function BottomLine(row: seq<Cell>): (line: string)
    reads row
    ensures |line| == 1 + 4 * |row| && line[0] == Wall && Drawn(line)
  {
    if row == [] then [Wall]
    else
      var g := SouthGlyph(row[|row| - 1]);
      BottomLine(row[..|row| - 1]) + [g, g, g, Wall]
  }

  /** In the top line, cell `c` owns positions `4c+1 .. 4c+4`: three open
      interior positions, then its east glyph. */
  lemma {:induction false} TopLineAt(row: seq<Cell>, c: int)
    requires 0 <= c < |row|
    ensures var line := TopLine(row);
      line[4 * c + 1] == ' ' && line[4 * c + 2] == ' ' && line[4 * c + 3] == ' ' &&
      line[4 * c + 4] == EastGlyph(row[c])
  {
    var init := row[..|row| - 1];
    if c < |row| - 1 {
      TopLineAt(init, c);
    }
  }

  /** In the bottom line, cell `c` owns positions `4c+1 .. 4c+4`: three
      south glyphs, then a wall. */
  lemma {:induction false} BottomLineAt(row: seq<Cell>, c: int)
    requires 0 <= c < |row|
    ensures var line := BottomLine(row);
      line[4 * c + 1] == SouthGlyph(row[c]) && line[4 * c + 2] == SouthGlyph(row[c]) &&
      line[4 * c + 3] == SouthGlyph(row[c]) && line[4 * c + 4] == Wall
  {
    var init := row[..|row| - 1];
    if c < |row| - 1 {
      BottomLineAt(init, c);
    }
  }

  /** The text of row `i`, as the callback of `toString` builds it: the
      border line first when `i` is 0, then the row's top and bottom lines. */
  method RenderRow(row: seq<Cell>, i: nat) returns (piece: string)
    ensures piece == JoinLines((if i == 0 then [BorderLine(|row|)] else []) + [TopLine(row), BottomLine(row)])
  {
    piece := "";
    if i == 0 {
      piece := RenderBorder(|row|);
      piece := piece + [Newline];
    }
    var top, bottom := RenderWalls(row);
    assert JoinLines([top, bottom]) == top + [Newline] + bottom by {
      JoinLinesConcat([top], [bottom]);
    }
    if i == 0 {
      assert JoinLines([BorderLine(|row|)] + [top, bottom]) == BorderLine(|row|) + [Newline] + JoinLines([top, bottom]) by {
        JoinLinesConcat([BorderLine(|row|)], [top, bottom]);
      }
    } else {
      assert [] + [top, bottom] == [top, bottom];
    }
    piece := piece + JoinLines([top, bottom]);
  }

  /** The border part of the `toString` callback: a wall, then four per cell. */
  method RenderBorder(n: nat) returns (line: string)
    ensures line == BorderLine(n)
  {
    line := [Wall];
    var j := 0;
    while j < n
      invariant 0 <= j <= n && line == BorderLine(j)
    {
      line := line + [Wall, Wall, Wall, Wall];
      j := j + 1;
    }
  }

  /** The `forEach` over a row's cells in the `toString` callback, building
      its top and bottom lines side by side. */
  method RenderWalls(row: seq<Cell>) returns (top: string, bottom: string)
    ensures top == TopLine(row) && bottom == BottomLine(row)
  {
    top, bottom := [Wall], [Wall];
    var j := 0;
    while j < |row|
      invariant 0 <= j <= |row|
      invariant top == TopLine(row[..j]) && bottom == BottomLine(row[..j])
    {
      var cell := row[j];
      ghost var next := row[..j + 1];
      assert next[..j] == row[..j] && next[j] == cell;
      assert TopLine(next) == top + "   " + [EastGlyph(cell)];
      assert BottomLine(next) == bottom + [SouthGlyph(cell), SouthGlyph(cell), SouthGlyph(cell), Wall];
      top := top + "   ";
      if cell.IsLinked(cell.east) {
        top := top + " ";
      } else {
        top := top + [Wall];
      }
      if cell.IsLinked(cell.south) {
        bottom := bottom + "   ";
      } else {
        bottom := bottom + [Wall, Wall, Wall];
      }
      bottom := bottom + [Wall];
      j := j + 1;
    }
    assert row[..j] == row;
  }

  class Grid {
    const width: nat
    const height: nat
    /** The cells by row, then by column; never replaced after construction. */
    const grid: seq<seq<Cell>>
    /** The cells of `grid`, the objects the grid's frames speak about. */
    ghost const Repr: set<Cell>

    /** The arrangement: sizes, and each cell at its own position and in
        `Repr`. None of it can change. */
    ghost predicate Shaped() {
      width > 0 && height > 0 && |grid| == height &&
      (forall r :: 0 <= r < height ==> |grid[r]| == width) &&
      (forall r, c :: 0 <= r < height && 0 <= c < width ==>
        grid[r][c] in Repr && grid[r][c].row == r && grid[r][c].column == c)
    }

    /** `cell`'s adjacency is the geometric one: `get` of the four positions
        around it. */
    ghost predicate Wired(cell: Cell)
      requires Shaped()
      reads cell`north, cell`south, cell`east, cell`west
    {
      cell.north == Get(cell.row - 1, cell.column) &&
      cell.south == Get(cell.row + 1, cell.column) &&
      cell.west == Get(cell.row, cell.column - 1) &&
      cell.east == Get(cell.row, cell.column + 1)
    }

    /** The grid invariant. Its frame holds adjacency fields only, so `Link`
        and `Unlink`, which modify `links` alone, keep it. */
    ghost predicate Valid()
      reads Repr`north, Repr`south, Repr`east, Repr`west
    {
      Shaped() &&
      forall r, c {:trigger Wired(grid[r][c])} :: 0 <= r < height && 0 <= c < width ==> Wired(grid[r][c])
    }

    /** Link state is symmetric among the grid's cells. */
    ghost predicate Symmetric()
      reads Repr`links
    {
      forall a, b :: a in Repr && b in Repr && a.IsLinked(b) ==> b.IsLinked(a)
    }

    /** No grid cell's links list a cell twice, as a `Set` never does. */
    ghost predicate LinksDistinct()
      reads Repr`links
    {
      forall a :: a in Repr ==> Distinct(a.links)
    }

    constructor (width: nat, height: nat)
      requires width > 0 && height > 0
      ensures this.width == width && this.height == height
      ensures Valid() && fresh(Repr)
      ensures Repr == set r, c | 0 <= r < height && 0 <= c < width :: grid[r][c]
      ensures forall cell :: cell in Repr ==> cell.links == []
      ensures Symmetric() && LinksDistinct()
    {
      this.width := width;
      this.height := height;
      var g := GenerateGrid(width, height);
      grid := g;
      Repr := set r, c | 0 <= r < height && 0 <= c < width :: g[r][c];
      new;
      ConfigureCells();
    }

    /** Fresh, unwired, unlinked cells, one per position, row by row. */
    static method GenerateGrid(width: nat, height: nat) returns (result: seq<seq<Cell>>)
      ensures |result| == height
      ensures forall r :: 0 <= r < height ==> |result[r]| == width
      ensures forall r, c :: 0 <= r < height && 0 <= c < width ==>
        fresh(result[r][c]) && result[r][c].row == r && result[r][c].column == c &&
        result[r][c].links == []
    {
      result := [];
      var row := 0;
      while row < height
        invariant 0 <= row <= height && |result| == row
        invariant forall r :: 0 <= r < row ==> |result[r]| == width
        invariant forall r, c :: 0 <= r < row && 0 <= c < width ==>
          fresh(result[r][c]) && result[r][c].row == r && result[r][c].column == c &&
          result[r][c].links == []
      {
        var cells: seq<Cell> := [];
        var column := 0;
        while column < width
          invariant 0 <= column <= width && |cells| == column
          invariant forall c :: 0 <= c < column ==>
            fresh(cells[c]) && cells[c].row == row && cells[c].column == c && cells[c].links == []
          invariant forall r, c :: 0 <= r < row && 0 <= c < width ==>
            fresh(result[r][c]) && result[r][c].row == r && result[r][c].column == c &&
            result[r][c].links == []
        {
          var cell := new Cell(row, column);
          cells := cells + [cell];
          column := column + 1;
        }
        result := result + [cells];
        row := row + 1;
      }
    }

    /** Wires every cell's four adjacency references from `Get`. */
    method ConfigureCells()
      requires Shaped()
      modifies Repr`north, Repr`south, Repr`east, Repr`west
      ensures Valid()
    {
      var cells := Cells();
      var i := 0;
      while i < |cells|
        invariant 0 <= i <= |cells|
        invariant forall j :: 0 <= j < i ==> Wired(cells[j])
      {
        var cell := cells[i];
        CellsDistinct(cells, i);
        Wire(cell);
        i := i + 1;
      }
      AllWired(cells);
    }

    /** Sets one cell's adjacency references from `Get`. */
    method Wire(cell: Cell)
      requires Shaped()
      modifies cell`north, cell`south, cell`east, cell`west
      ensures Wired(cell)
    {
      cell.north := Get(cell.row - 1, cell.column);
      cell.south := Get(cell.row + 1, cell.column);
      cell.west := Get(cell.row, cell.column - 1);
      cell.east := Get(cell.row, cell.column + 1);
    }

    /** No cell occurs twice among `Cells()`: the one at index `i` differs
        from every earlier one. */
    lemma CellsDistinct(cells: seq<Cell>, i: int)
      requires Shaped() && cells == Cells() && 0 <= i < |cells|
      ensures forall j :: 0 <= j < i ==> cells[j] != cells[i]
    {
      forall j | 0 <= j < i ensures cells[j] != cells[i] {
        assert cells[j].row * width + cells[j].column == j;
      }
    }

    /** Once every flattened cell is wired, the grid is valid. */
    lemma AllWired(cells: seq<Cell>)
      requires Shaped() && cells == Cells()
      requires forall j :: 0 <= j < |cells| ==> Wired(cells[j])
      ensures Valid()
    {
      forall r, c | 0 <= r < height && 0 <= c < width ensures Wired(grid[r][c]) {
        CellsAt(r, c);
        assert Wired(cells[r * width + c]);
      }
    }

    /** The cell at `(row, column)`, or null outside the grid. */
    function Get(row: int, column: int): (cell: Cell?)
      requires Shaped()
      ensures cell == null <==> row < 0 || row >= height || column < 0 || column >= width
      ensures cell != null ==> cell in Repr && cell.row == row && cell.column == column
    {
      if row < 0 || row >= height then null
      else if column < 0 || column >= width then null
      else grid[row][column]
    }

    /** The rows in construction order, agreeing with `Get`. */
    function Rows(): (rows: seq<seq<Cell>>)
      requires Shaped()
      ensures |rows| == height
      ensures forall r :: 0 <= r < height ==> |rows[r]| == width
      ensures forall r, c :: 0 <= r < height && 0 <= c < width ==> rows[r][c] == Get(r, c)
    {
      grid
    }

    /** All cells, row-major: the concatenation of `Rows()`. Each is a grid
        cell, and the cell at `(row, column)` has index `row * width + column`
        (see also `CellsAt`). */
    function Cells(): (cells: seq<Cell>)
      requires Shaped()
      ensures |cells| == height * width
      ensures forall k :: 0 <= k < |cells| ==>
        cells[k] in Repr && cells[k].row * width + cells[k].column == k
    {
      ConcatAt(grid, width);
      CellsNumbered();
      Concat(Rows())
    }

    /** Each flattened cell is a grid cell whose position gives its index. */
    lemma CellsNumbered()
      requires Shaped()
      ensures forall k :: 0 <= k < |Concat(grid)| ==>
        Concat(grid)[k] in Repr && Concat(grid)[k].row * width + Concat(grid)[k].column == k
    {
      ConcatPositions(grid, width);
    }

    /** The cell at `(r, c)` sits at index `r * width + c` of `Cells()`. */
    lemma CellsAt(r: int, c: int)
      requires Shaped() && 0 <= r < height && 0 <= c < width
      ensures r * width + c < |Cells()| && Cells()[r * width + c] == grid[r][c]
    {
      var k := r * width + c;
      assert k < |Concat(grid)| && Concat(grid)[k] == grid[r][c] by {
        ConcatAt(grid, width);
      }
    }

    /** The number of cells. */
    function Length(): (n: nat)
      requires Shaped()
      ensures n == |Cells()|
    {
      width * height
    }

    /** `randomCell` with the drawn index `k` as a parameter: the cell numbered
        `k` in row-major order. */
    function RandomCell(k: nat): (cell: Cell)
      requires Shaped() && k < Length()
      ensures cell in Repr && cell.row * width + cell.column == k
    {
      Cells()[k]
    }

    /** Every cell is drawn by exactly one index. */
    lemma RandomCellCovers(r: int, c: int)
      requires Shaped() && 0 <= r < height && 0 <= c < width
      ensures r * width + c < Length() && RandomCell(r * width + c) == grid[r][c]
      ensures forall k :: 0 <= k < Length() && RandomCell(k) == grid[r][c] ==> k == r * width + c
    {
      CellsAt(r, c);
    }

    /** Geometry of the wiring: boundary cells lack the outward neighbour,
        every present neighbour is the adjacent position, and adjacency is
        mutual. */
    lemma Adjacency(r: int, c: int)
      requires Valid() && 0 <= r < height && 0 <= c < width
      ensures var a := grid[r][c];
        (a.north == null <==> r == 0) && (a.south == null <==> r == height - 1) &&
        (a.west == null <==> c == 0) && (a.east == null <==> c == width - 1)
      ensures var a := grid[r][c];
        (a.north != null ==> a.north == grid[r - 1][c] && a.north.south == a) &&
        (a.south != null ==> a.south == grid[r + 1][c] && a.south.north == a) &&
        (a.west != null ==> a.west == grid[r][c - 1] && a.west.east == a) &&
        (a.east != null ==> a.east == grid[r][c + 1] && a.east.west == a)
    {
      var a := grid[r][c];
      assert Wired(a);
      if r > 0 { assert Wired(grid[r - 1][c]); }
      if r < height - 1 { assert Wired(grid[r + 1][c]); }
      if c > 0 { assert Wired(grid[r][c - 1]); }
      if c < width - 1 { assert Wired(grid[r][c + 1]); }
    }

    /** The neighbours of cell `(r, c)` are the grid cells one step away, and
        their number is the number of in-range positions around it. */
    lemma NeighborsGeometry(r: int, c: int)
      requires Valid() && 0 <= r < height && 0 <= c < width
      ensures var ns := grid[r][c].Neighbors();
        forall i :: 0 <= i < |ns| ==> ns[i] in Repr && Distance(ns[i], r, c) == 1
      ensures forall r', c' :: 0 <= r' < height && 0 <= c' < width && Distance(grid[r'][c'], r, c) == 1 ==>
        grid[r'][c'] in grid[r][c].Neighbors()
      ensures |grid[r][c].Neighbors()| ==
        (if r > 0 then 1 else 0) + (if r < height - 1 then 1 else 0) +
        (if c < width - 1 then 1 else 0) + (if c > 0 then 1 else 0)
    {
      Adjacency(r, c);
      var a := grid[r][c];
      forall r', c' | 0 <= r' < height && 0 <= c' < width && Distance(grid[r'][c'], r, c) == 1
        ensures grid[r'][c'] in a.Neighbors()
      {
        if r' == r - 1 { assert grid[r'][c'] == a.north; }
        else if r' == r + 1 { assert grid[r'][c'] == a.south; }
        else if c' == c - 1 { assert grid[r'][c'] == a.west; }
        else { assert grid[r'][c'] == a.east; }
      }
    }

    /** Manhattan distance from `cell` to position `(r, c)`. */
    ghost function Distance(cell: Cell, r: int, c: int): nat {
      (if cell.row < r then r - cell.row else cell.row - r) +
      (if cell.column < c then c - cell.column else cell.column - c)
    }

    /** A bidirectional `Link` along a passage between two grid cells keeps
        link state symmetric and free of duplicates: the state after it is
        the one `Link`'s contract describes. */
    twostate lemma LinkKeepsSymmetry(passage: (Cell, Cell))
      requires old(Symmetric()) && old(LinksDistinct()) && passage.0 in Repr && passage.1 in Repr
      requires passage.0.links == Added(old(passage.0.links), passage.1)
      requires passage.0 != passage.1 ==> passage.1.links == Added(old(passage.1.links), passage.0)
      requires forall x :: x in Repr && x != passage.0 && x != passage.1 ==> x.links == old(x.links)
      ensures Symmetric() && LinksDistinct()
    {
      var (a, b) := passage;
      forall x, y | x in Repr && y in Repr && x.IsLinked(y) ensures y.IsLinked(x) {
        if x == a && y == b {
        } else if x == b && y == a {
        } else {
          assert y in old(x.links) by {
            var i :| 0 <= i < |x.links| && x.links[i] == y;
            assert x.links == old(x.links) || x.links == old(x.links) + [if x == a then b else a];
          }
          assert old(x.IsLinked(y));
          assert x in old(y.links);
          var j :| 0 <= j < |old(y.links)| && old(y.links)[j] == x;
          assert y.links[..|old(y.links)|] == old(y.links);
          assert y.links[j] == x;
        }
      }
      forall x | x in Repr ensures Distinct(x.links) {
        assert old(Distinct(x.links));
      }
    }

    /** A bidirectional `Unlink` along a passage between two grid cells keeps
        link state symmetric and free of duplicates. */
    twostate lemma UnlinkKeepsSymmetry(passage: (Cell, Cell))
      requires old(Symmetric()) && old(LinksDistinct()) && passage.0 in Repr && passage.1 in Repr
      requires passage.0.links == Deleted(old(passage.0.links), passage.1)
      requires passage.0 != passage.1 ==> passage.1.links == Deleted(old(passage.1.links), passage.0)
      requires forall x :: x in Repr && x != passage.0 && x != passage.1 ==> x.links == old(x.links)
      ensures Symmetric() && LinksDistinct()
    {
      var (a, b) := passage;
      forall x, y | x in Repr && y in Repr && x.IsLinked(y) ensures y.IsLinked(x) {
        assert y in old(x.links);
        assert old(x.IsLinked(y));
        assert x in old(y.links);
        var j :| 0 <= j < |old(y.links)| && old(y.links)[j] == x;
        if y == a || y == b {
          assert !(x == a && y == b) && !(x == b && y == a);
        }
      }
      forall x | x in Repr ensures Distinct(x.links) {
        if x == a {
          DeletedDistinct(old(a.links), b);
        } else if x == b {
          DeletedDistinct(old(b.links), a);
        }
      }
    }

    /** `a.link(b)` on two cells of this grid: the links change as `Link`
        promises, and the grid stays valid, symmetric and free of duplicate
        links. `Valid` is kept by the frames alone. */
    method LinkCells(a: Cell, b: Cell)
      requires Valid() && Symmetric() && LinksDistinct() && a in Repr && b in Repr
      modifies a`links, b`links
      ensures Valid() && Symmetric() && LinksDistinct()
      ensures a.links == Added(old(a.links), b)
      ensures a != b ==> b.links == Added(old(b.links), a)
    {
      a.Link(b);
      LinkKeepsSymmetry((a, b));
    }

    /** `a.unlink(b)` on two cells of this grid: the links change as `Unlink`
        promises, and the grid stays valid, symmetric and free of duplicate
        links. */
    method UnlinkCells(a: Cell, b: Cell)
      requires Valid() && Symmetric() && LinksDistinct() && a in Repr && b in Repr
      modifies a`links, b`links
      ensures Valid() && Symmetric() && LinksDistinct()
      ensures a.links == Deleted(old(a.links), b)
      ensures a != b ==> b.links == Deleted(old(b.links), a)
    {
      a.Unlink(b);
      UnlinkKeepsSymmetry((a, b));
    }

    /** Linking cell `(r, c)` with its east neighbour opens exactly the wall
        between them: no other east or south glyph of any cell changes. */
    twostate lemma LinkEastOpensOneWall(r: int, c: int)
      requires Valid() && 0 <= r < height && 0 <= c < width - 1
      requires forall x :: x in Repr ==>
        x.east == old(x.east) && x.south == old(x.south)
      requires grid[r][c].links == Added(old(grid[r][c].links), grid[r][c + 1])
      requires grid[r][c + 1].links == Added(old(grid[r][c + 1].links), grid[r][c])
      requires forall x :: x in Repr && x != grid[r][c] && x != grid[r][c + 1] ==> x.links == old(x.links)
      ensures EastGlyph(grid[r][c]) == ' '
      ensures forall x :: x in Repr && x != grid[r][c] ==> EastGlyph(x) == old(EastGlyph(x))
      ensures forall x :: x in Repr ==> SouthGlyph(x) == old(SouthGlyph(x))
    {
      var a, b := grid[r][c], grid[r][c + 1];
      assert Wired(a) && Wired(b);
      forall x | x in Repr ensures x.IsLinked(x.south) == old(x.IsLinked(x.south)) {
        if x == a || x == b {
          assert x.south != a && x.south != b;
        }
      }
      forall x | x in Repr && x != a ensures x.IsLinked(x.east) == old(x.IsLinked(x.east)) {
        if x == b {
          assert b.east != a;
        }
      }
    }

    /** The top and bottom lines of the first `n` rows. */
    function RowLines(n: nat): (lines: seq<string>)
      requires Shaped() && n <= height
      reads Repr
      ensures |lines| == 2 * n
    {
      if n == 0 then [] else RowLines(n - 1) + [TopLine(grid[n - 1]), BottomLine(grid[n - 1])]
    }

    /** Row `r` contributes lines `2r` and `2r + 1` of `RowLines(n)`. */
    lemma {:induction false} RowLinesAt(n: nat, r: nat)
      requires Shaped() && r < n <= height
      ensures RowLines(n)[2 * r] == TopLine(grid[r]) && RowLines(n)[2 * r + 1] == BottomLine(grid[r])
    {
      if r < n - 1 {
        RowLinesAt(n - 1, r);
      }
    }

    /** The rendering, line by line: the border, then a top and a bottom line per row. */
    function Lines(): (lines: seq<string>)
      requires Shaped()
      reads Repr
    {
      [BorderLine(width)] + RowLines(height)
    }

    /** The rendering as one text. */
    function Text(): string
      requires Shaped()
      reads Repr
    {
      JoinLines(Lines())
    }

    /** The rendering has one border line and two lines per row, every line
        `1 + 4 * width` characters long, each a wall or a space, each starting
        with a wall; the border line is all wall. */
    lemma RenderShape()
      requires Shaped()
      ensures |Lines()| == 1 + 2 * height
      ensures forall k :: 0 <= k < |Lines()| ==>
        |Lines()[k]| == 1 + 4 * width && Lines()[k][0] == Wall && Drawn(Lines()[k])
      ensures forall k :: 0 <= k < |Lines()[0]| ==> Lines()[0][k] == Wall
    {
      forall k | 1 <= k < |Lines()|
        ensures |Lines()[k]| == 1 + 4 * width && Lines()[k][0] == Wall && Drawn(Lines()[k])
      {
        RowLinesAt(height, (k - 1) / 2);
      }
    }

    /** Around cell `(r, c)` the rendering is open inside the cell, open to
        the east exactly when the cell is linked to its east neighbour, open
        below exactly when it is linked to its south neighbour, and walled at
        the corner below-right. */
    lemma RenderCell(r: int, c: int)
      requires Shaped() && 0 <= r < height && 0 <= c < width
      ensures var top, bottom, cell := Lines()[1 + 2 * r], Lines()[2 + 2 * r], grid[r][c];
        |top| == |bottom| == 1 + 4 * width &&
        top[4 * c + 1] == ' ' && top[4 * c + 2] == ' ' && top[4 * c + 3] == ' ' &&
        top[4 * c + 4] == (if cell.IsLinked(cell.east) then ' ' else Wall) &&
        bottom[4 * c + 1] == bottom[4 * c + 2] == bottom[4 * c + 3] ==
          (if cell.IsLinked(cell.south) then ' ' else Wall) &&
        bottom[4 * c + 4] == Wall
    {
      RowLinesAt(height, r);
      TopLineAt(grid[r], c);
      BottomLineAt(grid[r], c);
    }

    /** The outer boundary is always closed: the first and the last line are
        all wall, and every line starts and ends with a wall. */
    lemma BoundaryWalled()
      requires Valid()
      ensures |Lines()| == 1 + 2 * height
      ensures forall k :: 0 <= k < |Lines()| ==>
        |Lines()[k]| == 1 + 4 * width && Lines()[k][0] == Wall && Lines()[k][4 * width] == Wall
      ensures forall k :: 0 <= k <= 4 * width ==> Lines()[0][k] == Wall && Lines()[2 * height][k] == Wall
    {
      RenderShape();
      forall k | 1 <= k < |Lines()| ensures Lines()[k][4 * width] == Wall {
        var r := (k - 1) / 2;
        assert Wired(grid[r][width - 1]);
        RenderCell(r, width - 1);
      }
      forall k | 0 < k <= 4 * width ensures Lines()[2 * height][k] == Wall {
        var c := (k - 1) / 4;
        var cell := grid[height - 1][c];
        assert Wired(cell);
        RenderCell(height - 1, c);
      }
    }

    /** Splitting the text at its newlines gives back the rendered lines: the
        text has exactly `1 + 2 * height` lines. */
    lemma TextHasLines()
      requires Shaped()
      ensures SplitLines(Text()) == Lines()
      ensures |SplitLines(Text())| == 1 + 2 * height
    {
      RenderShape();
      forall k | 0 <= k < |Lines()| ensures NoNewline(Lines()[k]) {
        assert Drawn(Lines()[k]);
      }
      SplitJoin(Lines());
    }

    /** `toString`: the pieces of the rows, separated by newlines. */
    method ToString() returns (s: string)
      requires Shaped()
      ensures s == Text()
    {
      var pieces: seq<string> := [];
      var i := 0;
      while i < height
        invariant 0 <= i <= height && |pieces| == i
        invariant i > 0 ==> JoinLines(pieces) == JoinLines([BorderLine(width)] + RowLines(i))
      {
        var piece := RenderRow(grid[i], i);
        PiecesStep(pieces, piece, i);
        pieces := pieces + [piece];
        i := i + 1;
      }
      assert Lines() == [BorderLine(width)] + RowLines(height);
      s := JoinLines(pieces);
    }

    /** Appending the piece of row `i` to the pieces of the rows before it
        joins to the border line and the lines of the first `i + 1` rows. */
    lemma PiecesStep(pieces: seq<string>, piece: string, i: nat)
      requires Shaped() && i < height && |pieces| == i
      requires i > 0 ==> JoinLines(pieces) == JoinLines([BorderLine(width)] + RowLines(i))
      requires piece == JoinLines((if i == 0 then [BorderLine(width)] else []) + [TopLine(grid[i]), BottomLine(grid[i])])
      ensures JoinLines(pieces + [piece]) == JoinLines([BorderLine(width)] + RowLines(i + 1))
    {
      var group := [TopLine(grid[i]), BottomLine(grid[i])];
      var done := [BorderLine(width)] + RowLines(i);
      assert [BorderLine(width)] + RowLines(i + 1) == done + group;
      if i == 0 {
        assert pieces + [piece] == [piece] && done == [BorderLine(width)];
      } else {
        assert [] + group == group;
        JoinPiece(pieces, piece, done, group);
      }
    }
  }
}
