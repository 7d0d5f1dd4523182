/**
 * The tile grid of a `Grid` body: either one subgrid or a width x height
 * array of optional subgrids, placed with its lower-left cell at
 * (xDownLeft, yDownLeft) in grid coordinates (src/lib/model/body.ts:
 * `getTile`, `setTile`, `clearTile`, `_setTile`, `_expandGrid`).
 *
 * The subgrid size G appears as the literal 120 in the arithmetic below,
 * so that block indices and offsets are linear arithmetic for the solver.
 */
module Grid {
  import opened Base
  import opened Columns

  /** `_subGrids`: a single `SubGrid`, or an array of arrays of them. */
  datatype Blocks = One(sub: SubGrid) | Many(cells: seq<seq<Option<SubGrid>>>)

  datatype Grid = Grid(xDownLeft: int, yDownLeft: int, width: nat, height: nat, blocks: Blocks)

  /** The shape the constructor and `_expandGrid` keep. */
  predicate Valid(g: Grid) {
    match g.blocks
    case One(s) => g.width == 1 && g.height == 1 && ValidSub(s)
    case Many(cells) =>
      |cells| == g.width
      && (forall i :: 0 <= i < g.width ==> |cells[i]| == g.height)
      && (forall i, j :: 0 <= i < g.width && 0 <= j < g.height && cells[i][j].Some? ==> ValidSub(cells[i][j].value))
  }

  /** Local cell (lx, ly) lies in the area the subgrids cover. */
  predicate InGrid(g: Grid, lx: int, ly: int) {
    0 <= lx < 120 * g.width && 0 <= ly < 120 * g.height
  }

  // ---------------------------------------------------------------------
  // Floor division by the subgrid size
  // ---------------------------------------------------------------------

  /** `Math.floor(a / G)` lies in [0, w) exactly when a lies in [0, G w). */
  lemma BlockRange(a: int, w: nat)
    ensures (0 <= a / 120 < w) <==> (0 <= a < 120 * w)
  {
    var q, m := a / 120, a % 120;
    assert a == 120 * q + m && 0 <= m < 120;
    assert q <= w - 1 ==> 120 * q <= 120 * (w - 1);
    assert q <= -1 ==> 120 * q + 120 <= 0;
    assert q >= w ==> 120 * q >= 120 * w;
  }

  /** Shifting by whole subgrids shifts the block index and keeps the offset. */
  lemma ShiftBlock(a: int, k: int, b: int)
    requires b == a + 120 * k
    ensures b / 120 == a / 120 + k && b % 120 == a % 120
  {
    var q, m := a / 120, a % 120;
    assert b == 120 * (q + k) + m && 0 <= m < 120;
  }

  // ---------------------------------------------------------------------
  // Reading
  // ---------------------------------------------------------------------

  /** The subgrid slot at block (bx, by); the single subgrid is block (0, 0). */
  function Block(g: Grid, bx: nat, bz: nat): Option<SubGrid>
    requires Valid(g) && bx < g.width && bz < g.height
  {
    match g.blocks
    case One(s) => Some(s)
    case Many(cells) => cells[bx][bz]
  }

  lemma BlockValid(g: Grid, bx: nat, bz: nat)
    requires Valid(g) && bx < g.width && bz < g.height
    ensures Block(g, bx, bz).Some? ==> ValidSub(Block(g, bx, bz).value)
  {
  }

  /** The column slot holding local cell (lx, ly); a missing subgrid has no column. */
  function ColumnAt(g: Grid, lx: int, ly: int): (col: Option<Column>)
    requires Valid(g) && InGrid(g, lx, ly)
    ensures SlotOk(col)
  {
    BlockRange(lx, g.width);
    BlockRange(ly, g.height);
    BlockValid(g, lx / 120, ly / 120);
    var b := Block(g, lx / 120, ly / 120);
    if b.None? then None else b.value.info[lx % 120]
  }

  /**
   * The reference meaning of a grid: the tile of local cell (lx, ly),
   * found through its block, column and offset.
   */
  function LocalTile(g: Grid, lx: int, ly: int): Tile
    requires Valid(g) && InGrid(g, lx, ly)
  {
    SlotCells(ColumnAt(g, lx, ly))[ly % 120]
  }

  /** The tile of a column slot at cell y: a never-written column reads empty. */
  function SlotTile(col: Option<Column>, y: int): (t: Tile)
    requires SlotOk(col) && 0 <= y < 120
    ensures t == SlotCells(col)[y]
  {
    if col.None? then Empty else Lookup(col.value, y)
  }

  /**
   * `getTile(x, y)` on grid coordinates: shape 0 and null data outside the
   * covered area, for a missing subgrid and for a never-written column;
   * otherwise the tile the column walk finds.
   */
  function GetTile(g: Grid, x: int, y: int): (t: Tile)
    requires Valid(g)
    ensures !InGrid(g, x - g.xDownLeft, y - g.yDownLeft) ==> t == Empty
    ensures InGrid(g, x - g.xDownLeft, y - g.yDownLeft) ==> t == LocalTile(g, x - g.xDownLeft, y - g.yDownLeft)
    ensures InGrid(g, x - g.xDownLeft, y - g.yDownLeft) && ColumnAt(g, x - g.xDownLeft, y - g.yDownLeft).None? ==> t == Empty
    ensures t == SlotCells(ColumnOf(g, x, y))[(y - g.yDownLeft) % 120]
  {
    var lx, ly := x - g.xDownLeft, y - g.yDownLeft;
    ColumnLocal(g, x, y, lx, ly);
    match g.blocks
    case One(s) => GetFromOne(g, s, lx, ly)
    case Many(_) => GetFromMany(g, lx, ly)
  }

  /** The single-subgrid branch of `getTile`, on local coordinates. */
  function GetFromOne(g: Grid, s: SubGrid, lx: int, ly: int): (t: Tile)
    requires Valid(g) && g.blocks == One(s)
    ensures !InGrid(g, lx, ly) ==> t == Empty
    ensures InGrid(g, lx, ly) ==> t == LocalTile(g, lx, ly)
  {
    if 0 <= lx && 0 <= ly && lx < 120 && ly < 120 then SlotTile(s.info[lx], ly) else Empty
  }

  /** The block-array branch of `getTile`, on local coordinates. */
  function GetFromMany(g: Grid, lx: int, ly: int): (t: Tile)
    requires Valid(g) && g.blocks.Many?
    ensures !InGrid(g, lx, ly) ==> t == Empty
    ensures InGrid(g, lx, ly) ==> t == LocalTile(g, lx, ly)
  {
    BlockRange(lx, g.width);
    BlockRange(ly, g.height);
    Offset(lx);
    Offset(ly);
    var cells := g.blocks.cells;
    var gx, gy := lx / 120, ly / 120;
    if 0 <= gx && 0 <= gy && gx < g.width && gy < g.height then
      if cells[gx][gy].None? then Empty
      else SlotTile(cells[gx][gy].value.info[lx - gx * 120], ly - gy * 120)
    else Empty
  }

  // ---------------------------------------------------------------------
  // Writing one cell
  // ---------------------------------------------------------------------

  /** The column edit of `_setTile` inside one subgrid. */
  function WriteSub(s: SubGrid, cx: nat, cy: nat, shape: int, data: Data): (r: SubGrid)
    requires ValidSub(s) && cx < 120 && cy < 120
    ensures ValidSub(r)
    ensures SlotCells(r.info[cx]) == SlotCells(s.info[cx])[cy := WrittenIn(s.info[cx], cy, shape, data)]
    ensures forall i :: 0 <= i < 120 && i != cx ==> r.info[i] == s.info[i]
  {
    SubGrid(s.info[cx := Some(WriteSlot(s.info[cx], cy, shape, data))])
  }

  /** The subgrid `_setTile` edits at a block: the existing one or a new empty one. */
  function SubAt(g: Grid, bx: nat, bz: nat): (s: SubGrid)
    requires Valid(g) && bx < g.width && bz < g.height
    ensures ValidSub(s)
    ensures Block(g, bx, bz).None? ==> forall i :: 0 <= i < 120 ==> s.info[i].None?
    ensures Block(g, bx, bz).Some? ==> Block(g, bx, bz) == Some(s)
  {
    BlockValid(g, bx, bz);
    var b := Block(g, bx, bz);
    if b.None? then NewSubGrid() else b.value
  }

  /** `this._subGrids[bx][bz] = s` on a grid of many blocks. */
  function PutBlock(g: Grid, bx: nat, bz: nat, s: SubGrid): (r: Grid)
    requires Valid(g) && g.blocks.Many? && bx < g.width && bz < g.height && ValidSub(s)
    ensures Valid(r) && r.blocks.Many?
    ensures r.xDownLeft == g.xDownLeft && r.yDownLeft == g.yDownLeft
    ensures r.width == g.width && r.height == g.height
    ensures Block(r, bx, bz) == Some(s)
    ensures forall i: nat, j: nat :: i < g.width && j < g.height && (i != bx || j != bz)
              ==> Block(r, i, j) == Block(g, i, j)
  {
    var cells := g.blocks.cells;
    var r := g.(blocks := Many(cells[bx := cells[bx][bz := Some(s)]]));
    assert Valid(r) by {
      forall i, j | 0 <= i < r.width && 0 <= j < r.height && r.blocks.cells[i][j].Some?
        ensures ValidSub(r.blocks.cells[i][j].value)
      {
        if i != bx || j != bz {
          assert r.blocks.cells[i][j] == cells[i][j];
        }
      }
    }
    r
  }

  /**
   * `_setTile(x, y, shape, data)` on local coordinates the callers have
   * already brought inside the grid; a missing subgrid is created first.
   */
  function SetTileLocal(g: Grid, lx: int, ly: int, shape: int, data: Data): (r: Grid)
    requires Valid(g) && InGrid(g, lx, ly)
    ensures Valid(r)
    ensures r.xDownLeft == g.xDownLeft && r.yDownLeft == g.yDownLeft
    ensures r.width == g.width && r.height == g.height
    ensures 0 <= lx / 120 < g.width && 0 <= ly / 120 < g.height
    ensures Block(r, lx / 120, ly / 120) == Some(WriteSub(SubAt(g, lx / 120, ly / 120), lx % 120, ly % 120, shape, data))
    ensures forall i: nat, j: nat :: i < g.width && j < g.height && (i != lx / 120 || j != ly / 120)
              ==> Block(r, i, j) == Block(g, i, j)
  {
    BlockRange(lx, g.width);
    BlockRange(ly, g.height);
    Offset(lx);
    Offset(ly);
    match g.blocks
    case One(s) =>
      assert lx / 120 == 0 && ly / 120 == 0 && lx % 120 == lx && ly % 120 == ly;
      assert SubAt(g, 0, 0) == s;
      g.(blocks := One(WriteSub(s, lx, ly, shape, data)))
    case Many(cells) =>
      var gx, gy := lx / 120, ly / 120;
      assert lx - gx * 120 == lx % 120 && ly - gy * 120 == ly % 120;
      PutBlock(g, gx, gy, WriteSub(SubAt(g, gx, gy), lx - gx * 120, ly - gy * 120, shape, data))
  }

  /** The offset of a cell inside its block, as `_setTile` and `getTile` compute it. */
  lemma Offset(a: int)
    ensures a - (a / 120) * 120 == a % 120
  {
  }

  /** The cell `_setTile` writes now holds the written tile. */
  lemma SetTileLocalWrites(g: Grid, lx: int, ly: int, shape: int, data: Data)
    requires Valid(g) && InGrid(g, lx, ly)
    ensures LocalTile(SetTileLocal(g, lx, ly, shape, data), lx, ly)
      == WrittenIn(ColumnAt(g, lx, ly), ly % 120, shape, data)
  {
    var r := SetTileLocal(g, lx, ly, shape, data);
    var s := SubAt(g, lx / 120, ly / 120);
    assert ColumnAt(r, lx, ly) == WriteSub(s, lx % 120, ly % 120, shape, data).info[lx % 120];
    assert ColumnAt(g, lx, ly) == s.info[lx % 120];
  }

  /** Every other cell keeps its tile. */
  lemma SetTileLocalFrame(g: Grid, lx: int, ly: int, shape: int, data: Data, px: int, py: int)
    requires Valid(g) && InGrid(g, lx, ly) && InGrid(g, px, py) && (px != lx || py != ly)
    ensures LocalTile(SetTileLocal(g, lx, ly, shape, data), px, py) == LocalTile(g, px, py)
  {
    if px / 120 != lx / 120 || py / 120 != ly / 120 {
      OtherBlockFrame(g, lx, ly, shape, data, px, py);
    } else {
      SameBlockFrame(g, lx, ly, shape, data, px, py);
    }
  }

  /** A cell in another block: that block is untouched. */
  lemma OtherBlockFrame(g: Grid, lx: int, ly: int, shape: int, data: Data, px: int, py: int)
    requires Valid(g) && InGrid(g, lx, ly) && InGrid(g, px, py)
    requires px / 120 != lx / 120 || py / 120 != ly / 120
    ensures LocalTile(SetTileLocal(g, lx, ly, shape, data), px, py) == LocalTile(g, px, py)
  {
    BlockRange(px, g.width);
    BlockRange(py, g.height);
    var r := SetTileLocal(g, lx, ly, shape, data);
    assert Block(r, px / 120, py / 120) == Block(g, px / 120, py / 120);
  }

  /** A cell in the written block: another column, or another cell of the written column. */
  lemma SameBlockFrame(g: Grid, lx: int, ly: int, shape: int, data: Data, px: int, py: int)
    requires Valid(g) && InGrid(g, lx, ly) && InGrid(g, px, py) && (px != lx || py != ly)
    requires px / 120 == lx / 120 && py / 120 == ly / 120
    ensures LocalTile(SetTileLocal(g, lx, ly, shape, data), px, py) == LocalTile(g, px, py)
  {
    Offset(lx);
    Offset(ly);
    Offset(px);
    Offset(py);
    var r := SetTileLocal(g, lx, ly, shape, data);
    assert px % 120 != lx % 120 || py % 120 != ly % 120;
    var s := SubAt(g, lx / 120, ly / 120);
    var s' := WriteSub(s, lx % 120, ly % 120, shape, data);
    assert ColumnAt(r, px, py) == s'.info[px % 120];
    assert SlotCells(ColumnAt(g, px, py)) == SlotCells(s.info[px % 120]);
    if px % 120 != lx % 120 {
      assert s'.info[px % 120] == s.info[px % 120];
    } else {
      assert SlotCells(s'.info[px % 120])[py % 120] == SlotCells(s.info[px % 120])[py % 120];
    }
  }

  // ---------------------------------------------------------------------
  // Growing the grid
  // ---------------------------------------------------------------------

  function MaxInt(a: int, b: int): int {
    if a < b then b else a
  }

  /**
   * The block array after adding `left` columns of blocks on the left,
   * `right` on the right, `down` rows below and `up` rows above; every old
   * block keeps its place relative to the others and the origin moves down
   * and left by whole blocks.
   */
  function Grow(g: Grid, left: nat, right: nat, up: nat, down: nat): (r: Grid)
    requires Valid(g)
    ensures Valid(r) && r.blocks.Many?
    ensures r.width == left + g.width + right && r.height == down + g.height + up
    ensures r.xDownLeft == g.xDownLeft - 120 * left && r.yDownLeft == g.yDownLeft - 120 * down
    ensures Grown(g, r, left, down)
  {
    var w, h := left + g.width + right, down + g.height + up;
    var cells := seq(w, i requires 0 <= i < w => GrowColumn(g, i, h, left, down));
    Grid(g.xDownLeft - 120 * left, g.yDownLeft - 120 * down, w, h, Many(cells))
  }

  /**
   * r holds g's blocks shifted by (left, down) blocks, with its origin
   * moved down and left to match, and nothing else.
   */
  predicate Grown(g: Grid, r: Grid, left: int, down: int) {
    && Valid(g) && Valid(r) && 0 <= left && 0 <= down
    && r.xDownLeft == g.xDownLeft - 120 * left && r.yDownLeft == g.yDownLeft - 120 * down
    && left + g.width <= r.width && down + g.height <= r.height
    && forall i: nat, j: nat :: i < r.width && j < r.height ==>
         Block(r, i, j) == if left <= i < left + g.width && down <= j < down + g.height
                           then Block(g, i - left, j - down) else None
  }

  /** Column i of the enlarged block array: old blocks shifted by (left, down), None elsewhere. */
  function GrowColumn(g: Grid, i: int, h: nat, left: nat, down: nat): (col: seq<Option<SubGrid>>)
    requires Valid(g) && down + g.height <= h
    ensures |col| == h
    ensures forall j :: 0 <= j < h ==>
      col[j] == if left <= i < left + g.width && down <= j < down + g.height then Block(g, i - left, j - down) else None
    ensures forall j :: 0 <= j < h && col[j].Some? ==> ValidSub(col[j].value)
  {
    var col := seq(h, j requires 0 <= j < h =>
      if left <= i < left + g.width && down <= j < down + g.height then Block(g, i - left, j - down) else None);
    assert forall j :: 0 <= j < h && col[j].Some? ==> ValidSub(col[j].value) by {
      forall j | 0 <= j < h && col[j].Some? ensures ValidSub(col[j].value) {
        BlockValid(g, i - left, j - down);
      }
    }
    col
  }

  /**
   * `_expandGrid(minx, miny, maxx, maxy)` on local coordinates: when the box
   * reaches outside the grid, enough whole blocks are added on each side
   * (`Math.ceil(-minx / G)` on the left, and so on) for it to fit.
   */
  function ExpandGrid(g: Grid, minx: int, miny: int, maxx: int, maxy: int): (r: Grid)
    requires Valid(g)
    ensures Valid(r)
    ensures r.xDownLeft <= g.xDownLeft && (g.xDownLeft - r.xDownLeft) % 120 == 0
    ensures r.yDownLeft <= g.yDownLeft && (g.yDownLeft - r.yDownLeft) % 120 == 0
    ensures 0 <= minx + (g.xDownLeft - r.xDownLeft) && maxx + (g.xDownLeft - r.xDownLeft) < 120 * r.width
    ensures 0 <= miny + (g.yDownLeft - r.yDownLeft) && maxy + (g.yDownLeft - r.yDownLeft) < 120 * r.height
    ensures r == g || Grown(g, r, (g.xDownLeft - r.xDownLeft) / 120, (g.yDownLeft - r.yDownLeft) / 120)
  {
    if minx < 0 || miny < 0 || maxx >= 120 * g.width || maxy >= 120 * g.height then
      var left := MaxInt(-(minx / 120), 0);
      var right := MaxInt(maxx / 120 - g.width + 1, 0);
      var up := MaxInt(maxy / 120 - g.height + 1, 0);
      var down := MaxInt(-(miny / 120), 0);
      FitsAfterGrow(minx, maxx, g.width, left, right);
      FitsAfterGrow(miny, maxy, g.height, down, up);
      if left > 0 || right > 0 || up > 0 || down > 0 then
        var r := Grow(g, left, right, up, down);
        WholeBlocks(g.xDownLeft - r.xDownLeft, left);
        WholeBlocks(g.yDownLeft - r.yDownLeft, down);
        r
      else
        assert false;
        g
    else
      g
  }

  lemma WholeBlocks(d: int, k: int)
    requires d == 120 * k
    ensures d % 120 == 0 && d / 120 == k
  {
  }

  /** The sizes `_expandGrid` picks along one axis make the box fit. */
  lemma FitsAfterGrow(lo: int, hi: int, w: nat, left: int, right: int)
    requires left == MaxInt(-(lo / 120), 0) && right == MaxInt(hi / 120 - w + 1, 0)
    ensures 0 <= lo + 120 * left && hi + 120 * left < 120 * (left + w + right)
    ensures (lo < 0 || hi >= 120 * w) ==> left > 0 || right > 0
  {
    assert lo == 120 * (lo / 120) + lo % 120 && 0 <= lo % 120;
    assert hi == 120 * (hi / 120) + hi % 120 && hi % 120 < 120;
    assert 120 * left >= 120 * -(lo / 120);
    assert 120 * (w + right) >= 120 * (hi / 120 + 1);
  }

  /** `ColumnOf` at a coordinate whose local position is (lx, ly). */
  lemma ColumnLocal(g: Grid, x: int, y: int, lx: int, ly: int)
    requires Valid(g) && lx == x - g.xDownLeft && ly == y - g.yDownLeft
    ensures ColumnOf(g, x, y) == if InGrid(g, lx, ly) then ColumnAt(g, lx, ly) else None
  {
  }

  /** Growing keeps the column behind local cell (lx, ly), now at (rx, ry). */
  lemma GrownColumnAt(g: Grid, r: Grid, left: int, down: int, lx: int, ly: int, rx: int, ry: int)
    requires Grown(g, r, left, down)
    requires rx == lx + 120 * left && ry == ly + 120 * down
    ensures (if InGrid(r, rx, ry) then ColumnAt(r, rx, ry) else None)
         == (if InGrid(g, lx, ly) then ColumnAt(g, lx, ly) else None)
  {
    ShiftBlock(lx, left, rx);
    ShiftBlock(ly, down, ry);
    BlockRange(lx, g.width);
    BlockRange(ly, g.height);
    BlockRange(rx, r.width);
    BlockRange(ry, r.height);
    if InGrid(g, lx, ly) {
      assert InGrid(r, rx, ry);
      var b := Block(g, lx / 120, ly / 120);
      assert Block(r, rx / 120, ry / 120) == b;
      assert ColumnAt(g, lx, ly) == if b.None? then None else b.value.info[lx % 120];
      assert ColumnAt(r, rx, ry) == if b.None? then None else b.value.info[rx % 120];
    } else if InGrid(r, rx, ry) {
      assert Block(r, rx / 120, ry / 120).None?;
    }
  }

  /** Growing keeps the column and the tile behind every grid coordinate. */
  lemma GrownKeepsTiles(g: Grid, r: Grid, left: int, down: int, x: int, y: int)
    requires Grown(g, r, left, down)
    ensures ColumnOf(r, x, y) == ColumnOf(g, x, y)
    ensures GetTile(r, x, y) == GetTile(g, x, y)
  {
    var lx, ly, rx, ry := x - g.xDownLeft, y - g.yDownLeft, x - r.xDownLeft, y - r.yDownLeft;
    assert rx == lx + 120 * left && ry == ly + 120 * down;
    ColumnLocal(g, x, y, lx, ly);
    ColumnLocal(r, x, y, rx, ry);
    GrownColumnAt(g, r, left, down, lx, ly, rx, ry);
    assert ColumnOf(r, x, y) == ColumnOf(g, x, y);
    ShiftBlock(ly, down, ry);
    SameColumnSameTile(g, r, x, y);
  }

  /** Two grids with the same column and offset behind (x, y) read the same tile there. */
  lemma SameColumnSameTile(g: Grid, r: Grid, x: int, y: int)
    requires Valid(g) && Valid(r) && ColumnOf(r, x, y) == ColumnOf(g, x, y)
    requires (y - r.yDownLeft) % 120 == (y - g.yDownLeft) % 120
    ensures GetTile(r, x, y) == GetTile(g, x, y)
  {
  }

  /** `getTile` on a coordinate whose local position is (lx, ly). */
  lemma ReadLocal(g: Grid, x: int, y: int, lx: int, ly: int)
    requires Valid(g) && lx == x - g.xDownLeft && ly == y - g.yDownLeft
    ensures InGrid(g, lx, ly) ==> GetTile(g, x, y) == LocalTile(g, lx, ly)
    ensures !InGrid(g, lx, ly) ==> GetTile(g, x, y) == Empty
  {
  }

  /** `_expandGrid` keeps the column and tile behind every grid coordinate. */
  lemma ExpandGridKeepsTiles(g: Grid, minx: int, miny: int, maxx: int, maxy: int, x: int, y: int)
    requires Valid(g)
    ensures ColumnOf(ExpandGrid(g, minx, miny, maxx, maxy), x, y) == ColumnOf(g, x, y)
    ensures GetTile(ExpandGrid(g, minx, miny, maxx, maxy), x, y) == GetTile(g, x, y)
  {
    var r := ExpandGrid(g, minx, miny, maxx, maxy);
    if r != g {
      GrownKeepsTiles(g, r, (g.xDownLeft - r.xDownLeft) / 120, (g.yDownLeft - r.yDownLeft) / 120, x, y);
    }
  }

  // ---------------------------------------------------------------------
  // The public point operations
  // ---------------------------------------------------------------------

  /** The column slot behind grid coordinate (x, y); none outside the grid. */
  function ColumnOf(g: Grid, x: int, y: int): (col: Option<Column>)
    requires Valid(g)
    ensures SlotOk(col)
  {
    if InGrid(g, x - g.xDownLeft, y - g.yDownLeft) then ColumnAt(g, x - g.xDownLeft, y - g.yDownLeft) else None
  }

  /** The first step of `setTile(x, y, ...)`: `_expandGrid` on the one-cell box at (x, y). */
  function Around(g: Grid, x: int, y: int): (e: Grid)
    requires Valid(g)
    ensures Valid(e) && InGrid(e, x - e.xDownLeft, y - e.yDownLeft)
    ensures e == g || Grown(g, e, (g.xDownLeft - e.xDownLeft) / 120, (g.yDownLeft - e.yDownLeft) / 120)
  {
    ExpandGrid(g, x - g.xDownLeft, y - g.yDownLeft, x - g.xDownLeft, y - g.yDownLeft)
  }

  lemma AroundKeepsTiles(g: Grid, x: int, y: int, px: int, py: int)
    requires Valid(g)
    ensures ColumnOf(Around(g, x, y), px, py) == ColumnOf(g, px, py)
    ensures GetTile(Around(g, x, y), px, py) == GetTile(g, px, py)
  {
    var e := Around(g, x, y);
    if e != g {
      GrownKeepsTiles(g, e, (g.xDownLeft - e.xDownLeft) / 120, (g.yDownLeft - e.yDownLeft) / 120, px, py);
    }
  }

  /**
   * `setTile(x, y, shape, data)`: grow the grid around (x, y), then write
   * there with `_setTile`.
   */
  function SetTile(g: Grid, x: int, y: int, shape: int, data: Data): (r: Grid)
    requires Valid(g)
    ensures Valid(r)
  {
    SetTileLocal(Around(g, x, y), x - Around(g, x, y).xDownLeft, y - Around(g, x, y).yDownLeft, shape, data)
  }

  /**
   * After `setTile(x, y, shape, data)`, `getTile(x, y)` returns the shape and
   * the data; undefined data keeps the data of a cell whose column exists.
   */
  lemma SetTileWrites(g: Grid, x: int, y: int, shape: int, data: Data)
    requires Valid(g)
    ensures GetTile(SetTile(g, x, y, shape, data), x, y)
      == Tile(shape, if data == Undefined && ColumnOf(g, x, y).Some? then GetTile(g, x, y).data else data)
  {
    var e := Around(g, x, y);
    AroundKeepsTiles(g, x, y, x, y);
    WriteAt(e, SetTile(g, x, y, shape, data), x, y, x - e.xDownLeft, y - e.yDownLeft, shape, data);
  }

  /** The written cell of `_setTile`, read back through `getTile`. */
  lemma WriteAt(e: Grid, r: Grid, x: int, y: int, lx: int, ly: int, shape: int, data: Data)
    requires Valid(e) && InGrid(e, lx, ly) && lx == x - e.xDownLeft && ly == y - e.yDownLeft
    requires r == SetTileLocal(e, lx, ly, shape, data)
    ensures GetTile(r, x, y)
      == Tile(shape, if data == Undefined && ColumnOf(e, x, y).Some? then GetTile(e, x, y).data else data)
  {
    SetTileLocalWrites(e, lx, ly, shape, data);
    ReadLocal(r, x, y, lx, ly);
    ReadLocal(e, x, y, lx, ly);
  }

  /** `setTile(x, y, ...)` leaves every other coordinate's tile as it was. */
  lemma SetTileFrame(g: Grid, x: int, y: int, shape: int, data: Data, px: int, py: int)
    requires Valid(g) && (px != x || py != y)
    ensures GetTile(SetTile(g, x, y, shape, data), px, py) == GetTile(g, px, py)
  {
    var e := Around(g, x, y);
    AroundKeepsTiles(g, x, y, px, py);
    KeepAt(e, SetTile(g, x, y, shape, data), x - e.xDownLeft, y - e.yDownLeft, shape, data,
      px, py, px - e.xDownLeft, py - e.yDownLeft);
  }

  /** A cell other than the written one, read back through `getTile`. */
  lemma KeepAt(e: Grid, r: Grid, lx: int, ly: int, shape: int, data: Data, px: int, py: int, qx: int, qy: int)
    requires Valid(e) && InGrid(e, lx, ly) && r == SetTileLocal(e, lx, ly, shape, data)
    requires qx == px - e.xDownLeft && qy == py - e.yDownLeft && (qx != lx || qy != ly)
    ensures GetTile(r, px, py) == GetTile(e, px, py)
  {
    if InGrid(e, qx, qy) {
      SetTileLocalFrame(e, lx, ly, shape, data, qx, qy);
    }
    ReadLocal(r, px, py, qx, qy);
    ReadLocal(e, px, py, qx, qy);
  }

  /** Writing the tile a cell already holds changes no cell of the grid. */
  lemma SetTileSameIsNoOp(g: Grid, x: int, y: int, shape: int, data: Data, px: int, py: int)
    requires Valid(g) && data != Undefined && GetTile(g, x, y) == Tile(shape, data)
    ensures GetTile(SetTile(g, x, y, shape, data), px, py) == GetTile(g, px, py)
  {
    if px == x && py == y {
      SetTileWrites(g, x, y, shape, data);
    } else {
      SetTileFrame(g, x, y, shape, data, px, py);
    }
  }

  /**
   * `clearTile(x, y)`: inside the grid, write shape 0 with null data;
   * outside it, do nothing (the grid does not grow).
   */
  function ClearTile(g: Grid, x: int, y: int): (r: Grid)
    requires Valid(g)
    ensures Valid(r)
    ensures r.xDownLeft == g.xDownLeft && r.yDownLeft == g.yDownLeft
    ensures r.width == g.width && r.height == g.height
  {
    var lx, ly := x - g.xDownLeft, y - g.yDownLeft;
    if 0 <= lx && 0 <= ly && lx < 120 * g.width && ly < 120 * g.height then SetTileLocal(g, lx, ly, 0, Null) else g
  }

  /** After `clearTile(x, y)` the cell reads empty and every other cell is unchanged. */
  lemma ClearTileClears(g: Grid, x: int, y: int, px: int, py: int)
    requires Valid(g)
    ensures GetTile(ClearTile(g, x, y), x, y) == Empty
    ensures (px != x || py != y) ==> GetTile(ClearTile(g, x, y), px, py) == GetTile(g, px, py)
  {
    var lx, ly := x - g.xDownLeft, y - g.yDownLeft;
    if InGrid(g, lx, ly) {
      ClearedAt(g, ClearTile(g, x, y), x, y, lx, ly, px, py);
    } else {
      ReadLocal(g, x, y, lx, ly);
    }
  }

  /** The write `clearTile` makes inside the grid, read back through `getTile`. */
  lemma ClearedAt(g: Grid, r: Grid, x: int, y: int, lx: int, ly: int, px: int, py: int)
    requires Valid(g) && InGrid(g, lx, ly) && lx == x - g.xDownLeft && ly == y - g.yDownLeft
    requires r == SetTileLocal(g, lx, ly, 0, Null)
    ensures GetTile(r, x, y) == Empty
    ensures (px != x || py != y) ==> GetTile(r, px, py) == GetTile(g, px, py)
  {
    WriteAt(g, r, x, y, lx, ly, 0, Null);
    if px != x || py != y {
      KeepAt(g, r, lx, ly, 0, Null, px, py, px - g.xDownLeft, py - g.yDownLeft);
    }
  }
}
