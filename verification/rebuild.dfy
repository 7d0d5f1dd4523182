/**
 * `_setTilesInSubGrid` (src/lib/model/body.ts): every column of a range
 * is rebuilt from scratch, cell by cell, from its old cells and a
 * user-supplied `info` callback, merging equal neighbours into runs.
 */
module Rebuild {
  import opened Base
  import opened Columns

  // ---------------------------------------------------------------------
  // Reading the old column
  // ---------------------------------------------------------------------

  /**
   * The cursor of the rebuild loop, from cell j on: it advances by at most
   * one run per cell (`if (j >= currentHeight)`), so a run of length 0
   * is read as if it covered a cell.
   */
  function CursorFrom(c: Column, j: nat, ind: nat, height: nat): (s: seq<Tile>)
    requires ind < |c| && height == Total(c[..ind + 1]) && j <= G <= Total(c)
    ensures |s| == G - j
    decreases G - j
  {
    if j == G then []
    else if j >= height then
      PrefixBelowTotal(c, ind + 1);
      TotalStep(c, ind + 1);
      [c[ind + 1].tile] + CursorFrom(c, j + 1, ind + 1, height + c[ind + 1].length)
    else [c[ind].tile] + CursorFrom(c, j + 1, ind, height)
  }

  /** The tiles the rebuild loop reads for cells 0..G-1 of an old column. */
  function CursorReads(c: Column): (s: seq<Tile>)
    requires G <= Total(c)
    ensures |s| == G
  {
    PrefixBelowTotal(c, 0);
    EmptyPrefix(c);
    TotalStep(c, 0);
    CursorFrom(c, 0, 0, c[0].length)
  }

  /** On a column without empty runs the cursor reads exactly the column's cells. */
  lemma {:induction false} CursorFromCells(c: Column, j: nat, ind: nat, height: nat)
    requires ind < |c| && height == Total(c[..ind + 1]) && j <= G <= Total(c)
    requires Positive(c) && Total(c[..ind]) <= j <= height
    ensures CursorFrom(c, j, ind, height) == Cells(c)[j..G]
    decreases G - j
  {
    TotalStep(c, ind);
    if j < G {
      var cells := Cells(c);
      assert cells[j..G] == [cells[j]] + cells[j + 1..G];
      if j >= height {
        PrefixBelowTotal(c, ind + 1);
        TotalStep(c, ind + 1);
        CellOfRun(c, ind + 1, j);
        var h' := height + c[ind + 1].length;
        assert CursorFrom(c, j, ind, height) == [c[ind + 1].tile] + CursorFrom(c, j + 1, ind + 1, h');
        CursorFromCells(c, j + 1, ind + 1, h');
      } else {
        CellOfRun(c, ind, j);
        assert CursorFrom(c, j, ind, height) == [c[ind].tile] + CursorFrom(c, j + 1, ind, height);
        CursorFromCells(c, j + 1, ind, height);
      }
    }
  }

  lemma CursorReadsCells(c: Column)
    requires Positive(c) && G <= Total(c)
    ensures CursorReads(c) == Cells(c)[..G]
  {
    PrefixBelowTotal(c, 0);
    EmptyPrefix(c);
    TotalStep(c, 0);
    CursorFromCells(c, 0, 0, c[0].length);
  }

  /**
   * A merge into the run below can leave a run of length 0 ([A:2, Z:0,
   * B:118] from [A:1, Z:1, B:118] by writing A at cell 1); the rebuild
   * cursor then reads Z at cell 2, which holds B.
   */
  lemma EmptyRunMisread()
    ensures var a, z, b := Tile(1, Null), Tile(2, Null), Tile(3, Null);
      var c := [Run(1, a), Run(1, z), Run(118, b)];
      && WellFormed(c)
      && var r := SetInColumnAsWritten(c, 1, 1, Null);
      && r == [Run(2, a), Run(0, z), Run(118, b)]
      && Cells(r)[2] == b && CursorReads(r)[2] == z
      && SetInColumn(c, 1, 1, Null) == [Run(2, a), Run(118, b)]
  {
    MisreadEdit();
    MisreadRead();
  }

  /** The two edits of [A:1, Z:1, B:118] at cell 1 with A's tile. */
  lemma MisreadEdit()
    ensures var a, z, b := Tile(1, Null), Tile(2, Null), Tile(3, Null);
      var c := [Run(1, a), Run(1, z), Run(118, b)];
      && WellFormed(c)
      && SetInColumnAsWritten(c, 1, 1, Null) == [Run(2, a), Run(0, z), Run(118, b)]
      && SetInColumn(c, 1, 1, Null) == [Run(2, a), Run(118, b)]
  {
    var a, z, b := Tile(1, Null), Tile(2, Null), Tile(3, Null);
    var c := [Run(1, a), Run(1, z), Run(118, b)];
    CellsThree(c[0], c[1], c[2]);
    assert c == [c[0], c[1], c[2]];
    EmptyPrefix(c);
    TotalStep(c, 0);
    TotalStep(c, 1);
    assert Locate(c, 1) == 1;
    LocateCell(c, 1);
    assert BranchOf(c, 1, a) == MergePrev;
    assert SetInColumnAsWritten(c, 1, 1, Null) == [Run(2, a), Run(0, z), Run(118, b)];
    assert c[..0] == [] && c[2..] == [c[2]];
    assert SetInColumn(c, 1, 1, Null) == [Run(2, a)] + [] + [Run(118, b)];
  }

  /** On [A:2, Z:0, B:118], cell 2 holds B but the cursor reads Z there. */
  lemma MisreadRead()
    ensures var a, z, b := Tile(1, Null), Tile(2, Null), Tile(3, Null);
      var r := [Run(2, a), Run(0, z), Run(118, b)];
      && Total(r) == G && Cells(r)[2] == b && CursorReads(r)[2] == z
  {
    var a, z, b := Tile(1, Null), Tile(2, Null), Tile(3, Null);
    var r := [Run(2, a), Run(0, z), Run(118, b)];
    CellsThree(r[0], r[1], r[2]);
    assert r == [r[0], r[1], r[2]];
    assert r[..1] == [r[0]] && r[..2] == [r[0], r[1]];
    CellsTwo(r[0], r[1]);
    var s := CursorFrom(r, 2, 0, 2);
    assert s == [z] + CursorFrom(r, 3, 1, 2);
    assert CursorReads(r) == [a, a] + s;
  }

  // ---------------------------------------------------------------------
  // What info asks for
  // ---------------------------------------------------------------------

  /**
   * `info`'s answer: null keeps the cell, a number sets the shape and keeps
   * the data, an object sets both (its data possibly undefined).
   */
  datatype InfoResult = Unchanged | ShapeOnly(shape: int) | Replace(tile: Tile)

  /** `info(x, y, shape, data)`; total, reading nothing else. */
  type Info = (int, int, Tile) -> InfoResult

  /** The tile the rebuild writes for a cell currently holding `cur`. */
  function Target(info: Info, x: int, miny: int, maxy: int, y: int, cur: Tile): Tile {
    if miny <= y < maxy then
      match info(x, y, cur)
      case Unchanged => cur
      case ShapeOnly(shape) => Tile(shape, cur.data)
      case Replace(t) => t
    else cur
  }

  /** The cells a rebuilt column should hold, cell by cell. */
  function Rebuilt(info: Info, x: int, miny: int, maxy: int, cells: seq<Tile>): (s: seq<Tile>)
    ensures |s| == |cells|
  {
    seq(|cells|, k requires 0 <= k < |cells| => Target(info, x, miny, maxy, k, cells[k]))
  }

  lemma PrefixStep<T>(s: seq<T>, j: nat)
    requires j < |s|
    ensures s[..j + 1] == s[..j] + [s[j]]
  {
  }

  /** Neighbouring runs hold different tiles. */
  predicate Merged(c: Column) {
    forall i :: 0 <= i < |c| - 1 ==> c[i].tile != c[i + 1].tile
  }

  lemma ExtendLast(done: Column, n: nat, t: Tile)
    ensures Cells(done + [Run(n + 1, t)]) == Cells(done + [Run(n, t)]) + [t]
  {
    CellsAppend(done, [Run(n + 1, t)]);
    CellsAppend(done, [Run(n, t)]);
    CellsOne(Run(n + 1, t));
    CellsOne(Run(n, t));
    assert Rep(n + 1, t) == Rep(n, t) + [t];
  }

  lemma MergedExtend(done: Column, next: Run)
    requires Merged(done + [next])
    ensures Merged(done + [Run(next.length + 1, next.tile)])
  {
    var a, b := done + [next], done + [Run(next.length + 1, next.tile)];
    assert forall i :: 0 <= i < |b| ==> b[i].tile == a[i].tile;
  }

  lemma MergedPush(rs: Column, t: Tile)
    requires Merged(rs) && |rs| > 0 && rs[|rs| - 1].tile != t
    ensures Merged(rs + [Run(1, t)])
  {
    var b := rs + [Run(1, t)];
    assert forall i :: 0 <= i < |rs| ==> b[i] == rs[i];
  }

  lemma PushRun(rs: Column, t: Tile)
    ensures Cells(rs + [Run(1, t)]) == Cells(rs) + [t]
  {
    CellsAppend(rs, [Run(1, t)]);
    CellsOne(Run(1, t));
  }

  /**
   * The run accumulation of the rebuild loop: a tile equal to the pending
   * run's extends it, any other closes it and opens a new run of length 1.
   */
  function Push(done: Column, next: Run, t: Tile): (r: (Column, Run))
    requires next.length >= 1 && Positive(done) && Merged(done + [next])
    ensures r.1.length >= 1 && Positive(r.0) && Merged(r.0 + [r.1])
    ensures Cells(r.0 + [r.1]) == Cells(done + [next]) + [t]
  {
    if next.tile == t then
      ExtendLast(done, next.length, t);
      MergedExtend(done, next);
      (done, Run(next.length + 1, t))
    else
      PushRun(done + [next], t);
      MergedPush(done + [next], t);
      (done + [next], Run(1, t))
  }

  /** Pushing cell j's tile extends the runs from want[..j] to want[..j + 1]. */
  lemma PushPrefix(done: Column, next: Run, t: Tile, want: seq<Tile>, j: nat)
    requires next.length >= 1 && Positive(done) && Merged(done + [next])
    requires j < |want| && want[j] == t && Cells(done + [next]) == want[..j]
    ensures Cells(Push(done, next, t).0 + [Push(done, next, t).1]) == want[..j + 1]
  {
    PrefixStep(want, j);
  }

  /**
   * One column of `_setTilesInSubGrid`: walks the old cells (a missing
   * column reads as one empty run of length G), asks for the new tile of
   * each cell in [miny, maxy), and accumulates equal neighbours into runs.
   */
  method RebuildColumn(prev: Option<Column>, x: int, miny: int, maxy: int, info: Info) returns (col: Column)
    requires SlotOk(prev)
    ensures WellFormed(col) && Merged(col)
    ensures Cells(col) == Rebuilt(info, x, miny, maxy, SlotCells(prev))
  {
    var src := if prev.Some? then prev.value else [Run(G, Empty)];
    CellsOne(Run(G, Empty));
    assert Cells(src) == SlotCells(prev);
    var want := Rebuilt(info, x, miny, maxy, SlotCells(prev));
    EmptyPrefix(src);
    TotalStep(src, 0);
    var ind := 0;
    var height := src[0].length;
    var done: Column := [];
    var next := Run(0, Empty);
    for j := 0 to G
      invariant ind < |src| && height == Total(src[..ind + 1])
      invariant Total(src[..ind]) <= j <= height
      invariant j == 0 ==> done == []
      invariant j > 0 ==> next.length >= 1 && Positive(done) && Merged(done + [next])
      invariant j > 0 ==> Cells(done + [next]) == want[..j]
    {
      if j >= height {
        PrefixBelowTotal(src, ind + 1);
        TotalStep(src, ind + 1);
        ind := ind + 1;
        height := height + src[ind].length;
      }
      TotalStep(src, ind);
      WantAt(prev, src, ind, j, info, x, miny, maxy);
      var nt := Target(info, x, miny, maxy, j, src[ind].tile);
      PrefixStep(want, j);
      if j == 0 {
        next := Run(1, nt);
        CellsOne(next);
      } else {
        PushPrefix(done, next, nt, want, j);
        done, next := Push(done, next, nt).0, Push(done, next, nt).1;
      }
    }
    col := done + [next];
    assert want[..G] == want;
  }

  /** The cell j of the rebuilt column, from run ind of the old column that covers it. */
  lemma WantAt(prev: Option<Column>, src: Column, ind: nat, j: nat, info: Info, x: int, miny: int, maxy: int)
    requires SlotOk(prev) && Cells(src) == SlotCells(prev)
    requires ind < |src| && Total(src[..ind]) <= j < Total(src[..ind]) + src[ind].length
    ensures j < |SlotCells(prev)|
    ensures Rebuilt(info, x, miny, maxy, SlotCells(prev))[j] == Target(info, x, miny, maxy, j, src[ind].tile)
  {
    CellOfRun(src, ind, j);
  }

  /**
   * `_setTilesInSubGrid` on columns minx..maxx-1 (the callers clamp the
   * range into the subgrid): those columns are rebuilt, the others kept.
   */
  method RebuildSubGrid(sub: SubGrid, minx: int, maxx: int, miny: int, maxy: int, info: Info) returns (r: SubGrid)
    requires ValidSub(sub) && 0 <= minx && maxx <= G
    ensures ValidSub(r)
    ensures forall i :: 0 <= i < G && !(minx <= i < maxx) ==> r.info[i] == sub.info[i]
    ensures forall i :: minx <= i < maxx ==>
      r.info[i].Some? && Merged(r.info[i].value)
      && Cells(r.info[i].value) == Rebuilt(info, i, miny, maxy, SlotCells(sub.info[i]))
  {
    r := sub;
    var i := minx;
    while i < maxx
      invariant ValidSub(r) && minx <= i && (minx <= maxx ==> i <= maxx)
      invariant forall k :: 0 <= k < G && !(minx <= k < i && k < maxx) ==> r.info[k] == sub.info[k]
      invariant forall k :: minx <= k < i && k < maxx ==>
        r.info[k].Some? && Merged(r.info[k].value)
        && Cells(r.info[k].value) == Rebuilt(info, k, miny, maxy, SlotCells(sub.info[k]))
      decreases maxx - i
    {
      var col := RebuildColumn(r.info[i], i, miny, maxy, info);
      r := SubGrid(r.info[i := Some(col)]);
      i := i + 1;
    }
  }
}
