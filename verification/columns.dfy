/**
 * One column of a subgrid: a run-length list of tiles covering G cells,
 * bottom to top (src/lib/model/body.ts: the column walk of `getTile` and
 * the column edit of `_setTile`).
 */
module Columns {
  import opened Base

  /** `subGridSize`: cells per column and columns per subgrid. */
  const G: nat := 120

  /**
   * The user data attached to a tile, compared by deep equality. `Undefined`
   * is JavaScript's `undefined`, which `_setTile` reads as "keep the current
   * data" when it edits an existing column.
   */
  datatype Data = Null | Undefined | Value(v: int)

  datatype Tile = Tile(shape: int, data: Data)

  /** What an unwritten cell reads as: shape 0, data null. */
  const Empty: Tile := Tile(0, Null)

  /** `{ length, shape, data }`: `length` consecutive cells holding the same tile. */
  datatype Run = Run(length: nat, tile: Tile)

  type Column = seq<Run>

  /** n copies of a tile. */
  function Rep(n: nat, t: Tile): (s: seq<Tile>)
    ensures |s| == n && forall k :: 0 <= k < n ==> s[k] == t
  {
    seq(n, _ => t)
  }

  /** The number of cells a column covers. */
  function Total(c: Column): nat
    decreases |c|
  {
    if |c| == 0 then 0 else c[0].length + Total(c[1..])
  }

  /** The cells a column stands for, bottom to top: the reference meaning of a column. */
  function Cells(c: Column): (s: seq<Tile>)
    ensures |s| == Total(c)
    decreases |c|
  {
    if |c| == 0 then [] else Rep(c[0].length, c[0].tile) + Cells(c[1..])
  }

  lemma {:induction false} CellsAppend(a: Column, b: Column)
    ensures Cells(a + b) == Cells(a) + Cells(b)
    decreases |a|
  {
    if |a| == 0 {
      assert a + b == b;
    } else {
      assert (a + b)[1..] == a[1..] + b;
      CellsAppend(a[1..], b);
    }
  }

  lemma CellsOne(r: Run)
    ensures Cells([r]) == Rep(r.length, r.tile)
  {
    assert [r][1..] == [];
  }

  /** Cutting a column at i and k and putting `mid` in place of c[i..k]. */
  lemma Splice(c: Column, i: nat, k: nat, mid: Column)
    requires i <= k <= |c|
    ensures Cells(c) == Cells(c[..i]) + Cells(c[i..k]) + Cells(c[k..])
    ensures Cells(c[..i] + mid + c[k..]) == Cells(c[..i]) + Cells(mid) + Cells(c[k..])
  {
    assert c == c[..i] + c[i..k] + c[k..];
    CellsAppend(c[..i], c[i..k]);
    CellsAppend(c[..i] + c[i..k], c[k..]);
    CellsAppend(c[..i], mid);
    CellsAppend(c[..i] + mid, c[k..]);
  }

  /** Every run covers at least one cell. */
  predicate Positive(c: Column) {
    forall i :: 0 <= i < |c| ==> c[i].length >= 1
  }

  /** A column as `_setTile` and `_setTilesInSubGrid` leave it, when they work as intended. */
  predicate WellFormed(c: Column) {
    Positive(c) && Total(c) == G
  }

  lemma TotalStep(c: Column, i: nat)
    requires i < |c|
    ensures Total(c[..i + 1]) == Total(c[..i]) + c[i].length
  {
    assert c[..i + 1] == c[..i] + [c[i]];
    CellsAppend(c[..i], [c[i]]);
    CellsOne(c[i]);
  }

  lemma PrefixBelowTotal(c: Column, i: nat)
    requires i <= |c| && Total(c[..i]) < Total(c)
    ensures i < |c|
  {
    assert c[..|c|] == c;
  }

  lemma PrefixWithin(c: Column, j: nat)
    requires j < |c|
    ensures Total(c[..j]) + c[j].length <= Total(c)
  {
    TotalStep(c, j);
    assert c == c[..j + 1] + c[j + 1..];
    CellsAppend(c[..j + 1], c[j + 1..]);
  }

  lemma EmptyPrefix(c: Column)
    ensures Total(c[..0]) == 0
  {
    assert c[..0] == [];
  }

  /**
   * The loop `while (y >= topHeight) { topHeight += list[i].length; i++ }`
   * followed by `i--`: the index of the run covering cell y. Runs of length
   * 0 are stepped over.
   */
  function LocateFrom(c: Column, y: nat, i: nat, top: nat): (j: nat)
    requires i <= |c| && top == Total(c[..i]) && y < Total(c)
    requires i == 0 || Total(c[..i - 1]) <= y
    ensures j < |c| && Total(c[..j]) <= y < Total(c[..j]) + c[j].length
    decreases |c| - i
  {
    if y >= top then
      PrefixBelowTotal(c, i);
      TotalStep(c, i);
      LocateFrom(c, y, i + 1, top + c[i].length)
    else
      EmptyPrefix(c);
      TotalStep(c, i - 1);
      i - 1
  }

  function Locate(c: Column, y: nat): (j: nat)
    requires y < Total(c)
    ensures j < |c| && Total(c[..j]) <= y < Total(c[..j]) + c[j].length
  {
    EmptyPrefix(c);
    LocateFrom(c, y, 0, 0)
  }

  /** Every cell a run covers holds the run's tile. */
  lemma CellOfRun(c: Column, j: nat, y: nat)
    requires j < |c| && Total(c[..j]) <= y < Total(c[..j]) + c[j].length
    ensures y < Total(c) && Cells(c)[y] == c[j].tile
  {
    CellsAround(c, j);
    var pre, mid, post := Cells(c[..j]), Rep(c[j].length, c[j].tile), Cells(c[j + 1..]);
    assert Cells(c)[y] == mid[y - |pre|];
  }

  /** The cells of a column: those below run j, the run's own, those above. */
  lemma CellsAround(c: Column, j: nat)
    requires j < |c|
    ensures Cells(c) == Cells(c[..j]) + Rep(c[j].length, c[j].tile) + Cells(c[j + 1..])
  {
    Splice(c, j, j + 1, []);
    assert c[j..j + 1] == [c[j]];
    CellsOne(c[j]);
  }

  /** The run covering cell y holds the tile of that cell. */
  lemma LocateCell(c: Column, y: nat)
    requires y < Total(c)
    ensures Cells(c)[y] == c[Locate(c, y)].tile
  {
    CellOfRun(c, Locate(c, y), y);
  }

  /**
   * The column walk of `getTile`: the tile of the run the walk stops at,
   * which is the tile of cell y for any column covering y.
   */
  function Lookup(c: Column, y: nat): (t: Tile)
    requires y < Total(c)
    ensures t == Cells(c)[y]
  {
    LocateCell(c, y);
    c[Locate(c, y)].tile
  }

  // ---------------------------------------------------------------------
  // Editing one cell
  // ---------------------------------------------------------------------

  /** `data` undefined keeps the current data. */
  function Resolve(data: Data, current: Tile): Data {
    if data == Undefined then current.data else data
  }

  /** The tile `_setTile` writes at cell y of an existing column. */
  function Written(c: Column, y: nat, shape: int, data: Data): Tile
    requires y < Total(c)
  {
    Tile(shape, Resolve(data, Cells(c)[y]))
  }

  /** Which of the branches of `_setTile` an edit takes. */
  datatype Branch = NoChange | MergePrev | InsertBefore | MergeNext | InsertAfter | Split

  /**
   * The branch `_setTile` takes on an existing column: no change if the
   * tile is already there; at the bottom of a run, merge into the run below
   * if it holds the new tile, else insert; at the top, the same with the
   * run above; otherwise split.
   */
  function BranchOf(c: Column, y: nat, t: Tile): (b: Branch)
    requires y < G <= Total(c)
    ensures var j := Locate(c, y);
      && (b == MergePrev ==> 0 < j)
      && (b == MergeNext ==> j + 1 < |c|)
      && (b == NoChange <==> c[j].tile == t)
      && (b == Split ==> Total(c[..j]) < y < Total(c[..j]) + c[j].length - 1)
  {
    var j := Locate(c, y);
    var low := Total(c[..j]);
    if c[j].tile == t then NoChange
    else if y == low then
      EmptyPrefix(c);
      if y > 0 && (assert j > 0; c[j - 1].tile == t) then MergePrev else InsertBefore
    else if y == low + c[j].length - 1 then
      TotalStep(c, j);
      if y < G - 1 && (PrefixBelowTotal(c, j + 1); c[j + 1].tile == t) then MergeNext else InsertAfter
    else Split
  }

  /**
   * The column edit of `_setTile` (body.ts) as written. The two insert
   * branches add a run of length 1 without shortening the current run, and
   * the merge into the run below can leave a run of length 0.
   */
  function SetInColumnAsWritten(c: Column, y: nat, shape: int, data: Data): (r: Column)
    requires y < G <= Total(c)
    ensures var t := Written(c, y, shape, data);
      var b := BranchOf(c, y, t);
      && (b == InsertBefore ==> Cells(r) == Cells(c)[..y] + [t] + Cells(c)[y..])
      && (b == InsertAfter ==> Cells(r) == Cells(c)[..y + 1] + [t] + Cells(c)[y + 1..])
      && (b != InsertBefore && b != InsertAfter ==> Cells(r) == Cells(c)[y := t])
  {
    var j := Locate(c, y);
    var cur := c[j];
    var low := Total(c[..j]);
    LocateCell(c, y);
    PrefixWithin(c, j);
    var t := Written(c, y, shape, data);
    match BranchOf(c, y, t)
    case NoChange =>
      assert Cells(c)[y := t] == Cells(c);
      c
    case MergePrev => MergePrevAsWritten(c, j, t)
    case InsertBefore => InsertAsWritten(c, j, t)
    case MergeNext => MergeNextAsWritten(c, j, t)
    case InsertAfter =>
      TotalStep(c, j);
      InsertAsWritten(c, j + 1, t)
    case Split => SplitRun(c, j, y - low, t)
  }

  /** A run, or nothing if it is empty. */
  function Keep(r: Run): (s: Column)
    ensures Positive(s) && Cells(s) == Rep(r.length, r.tile)
  {
    CellsOne(r);
    if r.length == 0 then [] else [r]
  }

  /**
   * The column edit as evidently intended: the insert branches shorten the
   * current run, and a run shortened to length 0 is removed.
   */
  function SetInColumn(c: Column, y: nat, shape: int, data: Data): (r: Column)
    requires WellFormed(c) && y < G
    ensures WellFormed(r)
    ensures Cells(r) == Cells(c)[y := Written(c, y, shape, data)]
    ensures Cells(c)[y] == Written(c, y, shape, data) ==> r == c
  {
    var j := Locate(c, y);
    var cur := c[j];
    var low := Total(c[..j]);
    LocateCell(c, y);
    PrefixWithin(c, j);
    var t := Written(c, y, shape, data);
    match BranchOf(c, y, t)
    case NoChange =>
      assert Cells(c)[y := t] == Cells(c);
      c
    case MergePrev => MergePrevFixed(c, j, t)
    case InsertBefore => InsertBeforeFixed(c, j, t)
    case MergeNext => MergeNextFixed(c, j, t)
    case InsertAfter => InsertAfterFixed(c, j, t)
    case Split => SplitRun(c, j, y - low, t)
  }

  /** Merge into the run below: it grows by one, the current run shrinks and is dropped when empty. */
  function MergePrevFixed(c: Column, j: nat, t: Tile): (r: Column)
    requires 0 < j < |c| && c[j - 1].tile == t && c[j].length >= 1 && Positive(c)
    ensures Total(c[..j]) < Total(c)
    ensures Positive(r) && Cells(r) == Cells(c)[Total(c[..j]) := t]
  {
    var mid := [Run(c[j - 1].length + 1, t)] + Keep(Run(c[j].length - 1, c[j].tile));
    MergePrevSplice(c, j, t, mid);
    c[..j - 1] + mid + c[j + 1..]
  }

  /** The two runs j-1, j replaced by their merged form, in the whole column. */
  lemma MergePrevSplice(c: Column, j: nat, t: Tile, mid: Column)
    requires 0 < j < |c| && c[j - 1].tile == t && c[j].length >= 1 && Positive(c)
    requires mid == [Run(c[j - 1].length + 1, t)] + Keep(Run(c[j].length - 1, c[j].tile))
    ensures Total(c[..j]) < Total(c)
    ensures Positive(c[..j - 1] + mid + c[j + 1..])
    ensures Cells(c[..j - 1] + mid + c[j + 1..]) == Cells(c)[Total(c[..j]) := t]
  {
    var p, cur := c[j - 1], c[j];
    assert c[j - 1..j + 1] == [p, cur];
    TotalStep(c, j - 1);
    MergePrevRuns(p, cur, t);
    CellsTwo(p, cur);
    Patch(c, j - 1, j + 1, mid, p.length, t);
  }

  /** A new run of length 1 below the current run, which shrinks by one. */
  function InsertBeforeFixed(c: Column, j: nat, t: Tile): (r: Column)
    requires j < |c| && c[j].length >= 1 && Positive(c)
    ensures Total(c[..j]) < Total(c)
    ensures Positive(r) && Cells(r) == Cells(c)[Total(c[..j]) := t]
  {
    var cur := c[j];
    var mid := [Run(1, t)] + Keep(Run(cur.length - 1, cur.tile));
    assert c[j..j + 1] == [cur];
    CellsOne(cur);
    InsertBeforeRuns(cur, t);
    Patch(c, j, j + 1, mid, 0, t);
    c[..j] + mid + c[j + 1..]
  }

  /** Merge into the run above: it grows by one downward, the current run shrinks. */
  function MergeNextFixed(c: Column, j: nat, t: Tile): (r: Column)
    requires j + 1 < |c| && c[j + 1].tile == t && c[j].length >= 2 && Positive(c)
    ensures Total(c[..j]) + c[j].length - 1 < Total(c)
    ensures Positive(r) && Cells(r) == Cells(c)[Total(c[..j]) + c[j].length - 1 := t]
  {
    var cur, n := c[j], c[j + 1];
    var mid := [Run(cur.length - 1, cur.tile), Run(n.length + 1, t)];
    assert c[j..j + 2] == [cur, n];
    CellsTwo(cur, n);
    MergeNextRuns(cur, n, t);
    Patch(c, j, j + 2, mid, cur.length - 1, t);
    c[..j] + mid + c[j + 2..]
  }

  /** A new run of length 1 above the current run, which shrinks by one. */
  function InsertAfterFixed(c: Column, j: nat, t: Tile): (r: Column)
    requires j < |c| && c[j].length >= 2 && Positive(c)
    ensures Total(c[..j]) + c[j].length - 1 < Total(c)
    ensures Positive(r) && Cells(r) == Cells(c)[Total(c[..j]) + c[j].length - 1 := t]
  {
    var cur := c[j];
    var mid := [Run(cur.length - 1, cur.tile), Run(1, t)];
    assert c[j..j + 1] == [cur];
    CellsOne(cur);
    InsertAfterRuns(cur, t);
    Patch(c, j, j + 1, mid, cur.length - 1, t);
    c[..j] + mid + c[j + 1..]
  }

  // ---------------------------------------------------------------------
  // Cells of the corrected branches
  // ---------------------------------------------------------------------

  lemma UpdateMiddle(a: seq<Tile>, m: seq<Tile>, b: seq<Tile>, k: nat, t: Tile)
    requires k < |m|
    ensures (a + m + b)[|a| + k := t] == a + m[k := t] + b
  {
  }

  /**
   * Replacing c[i..k] by runs whose cells are those of c[i..k] with one
   * cell changed changes that one cell of the column.
   */
  lemma ReplaceCells(c: Column, i: nat, k: nat, mid: Column, off: nat, t: Tile)
    requires i <= k <= |c| && off < Total(c[i..k])
    requires Cells(mid) == Cells(c[i..k])[off := t]
    ensures Total(c[..i]) + off < Total(c)
    ensures Cells(c[..i] + mid + c[k..]) == Cells(c)[Total(c[..i]) + off := t]
  {
    Splice(c, i, k, mid);
    UpdateMiddle(Cells(c[..i]), Cells(c[i..k]), Cells(c[k..]), off, t);
  }

  lemma CellsTwo(r1: Run, r2: Run)
    ensures Cells([r1, r2]) == Rep(r1.length, r1.tile) + Rep(r2.length, r2.tile)
  {
    assert [r1, r2] == [r1] + [r2];
    CellsAppend([r1], [r2]);
    CellsOne(r1);
    CellsOne(r2);
  }

  lemma CellsThree(r1: Run, r2: Run, r3: Run)
    ensures Cells([r1, r2, r3]) == Rep(r1.length, r1.tile) + Rep(r2.length, r2.tile) + Rep(r3.length, r3.tile)
  {
    assert [r1, r2, r3] == [r1] + [r2, r3];
    CellsAppend([r1], [r2, r3]);
    CellsOne(r1);
    CellsTwo(r2, r3);
  }

  lemma PositiveSplice(c: Column, i: nat, k: nat, mid: Column)
    requires i <= k <= |c| && Positive(c) && Positive(mid)
    ensures Positive(c[..i] + mid + c[k..])
  {
    var r := c[..i] + mid + c[k..];
    forall n | 0 <= n < |r| ensures r[n].length >= 1 {
      if n < i {
        assert r[n] == c[n];
      } else if n < i + |mid| {
        assert r[n] == mid[n - i];
      } else {
        assert r[n] == c[n - i - |mid| + k];
      }
    }
  }

  /** The one-column splice behind every corrected branch: replace c[i..k] by mid. */
  lemma Patch(c: Column, i: nat, k: nat, mid: Column, off: nat, t: Tile)
    requires i <= k <= |c| && off < Total(c[i..k]) && Positive(mid)
    requires Cells(mid) == Cells(c[i..k])[off := t]
    ensures Total(c[..i]) + off < Total(c)
    ensures Cells(c[..i] + mid + c[k..]) == Cells(c)[Total(c[..i]) + off := t]
    ensures Positive(c) ==> Positive(c[..i] + mid + c[k..])
  {
    ReplaceCells(c, i, k, mid, off, t);
    if Positive(c) {
      PositiveSplice(c, i, k, mid);
    }
  }

  lemma MergePrevRuns(p: Run, cur: Run, t: Tile)
    requires p.tile == t && cur.length >= 1
    ensures var mid := [Run(p.length + 1, t)] + Keep(Run(cur.length - 1, cur.tile));
      Positive(mid) && Cells(mid) == Cells([p, cur])[p.length := t]
  {
    var mid := [Run(p.length + 1, t)] + Keep(Run(cur.length - 1, cur.tile));
    CellsAppend([Run(p.length + 1, t)], Keep(Run(cur.length - 1, cur.tile)));
    CellsOne(Run(p.length + 1, t));
    CellsTwo(p, cur);
    assert Rep(p.length + 1, t) + Rep(cur.length - 1, cur.tile) == (Rep(p.length, t) + Rep(cur.length, cur.tile))[p.length := t];
    assert Positive(mid) by {
      forall n | 0 <= n < |mid| ensures mid[n].length >= 1 {
        if n > 0 { assert mid[n] == Keep(Run(cur.length - 1, cur.tile))[n - 1]; }
      }
    }
  }

  lemma InsertBeforeRuns(cur: Run, t: Tile)
    requires cur.length >= 1
    ensures var mid := [Run(1, t)] + Keep(Run(cur.length - 1, cur.tile));
      Positive(mid) && Cells(mid) == Cells([cur])[0 := t]
  {
    var mid := [Run(1, t)] + Keep(Run(cur.length - 1, cur.tile));
    CellsAppend([Run(1, t)], Keep(Run(cur.length - 1, cur.tile)));
    CellsOne(Run(1, t));
    CellsOne(cur);
    assert Rep(1, t) + Rep(cur.length - 1, cur.tile) == Rep(cur.length, cur.tile)[0 := t];
    assert Positive(mid) by {
      forall n | 0 <= n < |mid| ensures mid[n].length >= 1 {
        if n > 0 { assert mid[n] == Keep(Run(cur.length - 1, cur.tile))[n - 1]; }
      }
    }
  }

  lemma MergeNextRuns(cur: Run, n: Run, t: Tile)
    requires n.tile == t && cur.length >= 2
    ensures var mid := [Run(cur.length - 1, cur.tile), Run(n.length + 1, t)];
      Positive(mid) && Cells(mid) == Cells([cur, n])[cur.length - 1 := t]
  {
    CellsTwo(Run(cur.length - 1, cur.tile), Run(n.length + 1, t));
    CellsTwo(cur, n);
    assert Rep(cur.length - 1, cur.tile) + Rep(n.length + 1, t) == (Rep(cur.length, cur.tile) + Rep(n.length, t))[cur.length - 1 := t];
  }

  lemma InsertAfterRuns(cur: Run, t: Tile)
    requires cur.length >= 2
    ensures var mid := [Run(cur.length - 1, cur.tile), Run(1, t)];
      Positive(mid) && Cells(mid) == Cells([cur])[cur.length - 1 := t]
  {
    CellsTwo(Run(cur.length - 1, cur.tile), Run(1, t));
    CellsOne(cur);
    assert Rep(cur.length - 1, cur.tile) + Rep(1, t) == Rep(cur.length, cur.tile)[cur.length - 1 := t];
  }

  lemma SplitRuns(cur: Run, k: nat, t: Tile)
    requires 0 < k < cur.length - 1
    ensures var mid := [Run(k, cur.tile), Run(1, t), Run(cur.length - 1 - k, cur.tile)];
      Positive(mid) && Cells(mid) == Cells([cur])[k := t]
  {
    CellsThree(Run(k, cur.tile), Run(1, t), Run(cur.length - 1 - k, cur.tile));
    CellsOne(cur);
    assert Rep(k, cur.tile) + Rep(1, t) + Rep(cur.length - 1 - k, cur.tile) == Rep(cur.length, cur.tile)[k := t];
  }

  // ---------------------------------------------------------------------
  // What the as-written edit does to the cells
  // ---------------------------------------------------------------------

  lemma MergePrevRawRuns(p: Run, cur: Run, t: Tile)
    requires p.tile == t && cur.length >= 1
    ensures Cells([Run(p.length + 1, t), Run(cur.length - 1, cur.tile)]) == Cells([p, cur])[p.length := t]
  {
    CellsTwo(Run(p.length + 1, t), Run(cur.length - 1, cur.tile));
    CellsTwo(p, cur);
    assert Rep(p.length + 1, t) + Rep(cur.length - 1, cur.tile) == (Rep(p.length, t) + Rep(cur.length, cur.tile))[p.length := t];
  }

  /** Merge into the run below; the current run may be left with length 0. */
  function MergePrevAsWritten(c: Column, j: nat, t: Tile): (r: Column)
    requires 0 < j < |c| && c[j - 1].tile == t && c[j].length >= 1
    ensures Total(c[..j]) < Total(c)
    ensures Cells(r) == Cells(c)[Total(c[..j]) := t]
  {
    var p, cur := c[j - 1], c[j];
    var mid := [Run(p.length + 1, t), Run(cur.length - 1, cur.tile)];
    assert c[j - 1 := Run(p.length + 1, t)][j := Run(cur.length - 1, cur.tile)] == c[..j - 1] + mid + c[j + 1..];
    assert c[j - 1..j + 1] == [p, cur];
    TotalStep(c, j - 1);
    CellsTwo(p, cur);
    MergePrevRawRuns(p, cur, t);
    ReplaceCells(c, j - 1, j + 1, mid, p.length, t);
    c[j - 1 := Run(p.length + 1, t)][j := Run(cur.length - 1, cur.tile)]
  }

  /** Merge into the run above. */
  function MergeNextAsWritten(c: Column, j: nat, t: Tile): (r: Column)
    requires j + 1 < |c| && c[j + 1].tile == t && c[j].length >= 2
    ensures Total(c[..j]) + c[j].length - 1 < Total(c)
    ensures Cells(r) == Cells(c)[Total(c[..j]) + c[j].length - 1 := t]
  {
    var cur, n := c[j], c[j + 1];
    var mid := [Run(cur.length - 1, cur.tile), Run(n.length + 1, t)];
    assert c[j + 1 := Run(n.length + 1, t)][j := Run(cur.length - 1, cur.tile)] == c[..j] + mid + c[j + 2..];
    assert c[j..j + 2] == [cur, n];
    CellsTwo(cur, n);
    MergeNextRuns(cur, n, t);
    ReplaceCells(c, j, j + 2, mid, cur.length - 1, t);
    c[j + 1 := Run(n.length + 1, t)][j := Run(cur.length - 1, cur.tile)]
  }

  /** `list.splice(i, 0, newInfo)`: a run of length 1 at index i, nothing shortened. */
  function InsertAsWritten(c: Column, i: nat, t: Tile): (r: Column)
    requires i <= |c|
    ensures Total(c[..i]) <= Total(c)
    ensures Cells(r) == Cells(c)[..Total(c[..i])] + [t] + Cells(c)[Total(c[..i])..]
  {
    assert c == c[..i] + c[i..];
    CellsAppend(c[..i], c[i..]);
    CellsAppend(c[..i], [Run(1, t)]);
    CellsAppend(c[..i] + [Run(1, t)], c[i..]);
    CellsOne(Run(1, t));
    c[..i] + [Run(1, t)] + c[i..]
  }

  /** The split branch, shared by both versions: the current run cut in three around the written cell. */
  function SplitRun(c: Column, j: nat, k: nat, t: Tile): (r: Column)
    requires j < |c| && 0 < k < c[j].length - 1
    ensures Total(c[..j]) + k < Total(c)
    ensures Cells(r) == Cells(c)[Total(c[..j]) + k := t]
    ensures Positive(c) ==> Positive(r)
  {
    var cur := c[j];
    var mid := [Run(k, cur.tile), Run(1, t), Run(cur.length - 1 - k, cur.tile)];
    assert c[j..j + 1] == [cur];
    CellsOne(cur);
    SplitRuns(cur, k, t);
    Patch(c, j, j + 1, mid, k, t);
    c[..j] + mid + c[j + 1..]
  }

  /**
   * Starting a run at a cell whose run below holds a different tile grows
   * the column to G+1 cells.
   */
  lemma InsertBeforeGrowsColumn()
    ensures var a, b := Tile(1, Null), Tile(2, Null);
      var c := [Run(1, a), Run(119, b)];
      && WellFormed(c)
      && Total(SetInColumnAsWritten(c, 1, 3, Null)) == G + 1
      && Cells(SetInColumn(c, 1, 3, Null)) == Cells(c)[1 := Tile(3, Null)]
  {
    var a, b := Tile(1, Null), Tile(2, Null);
    var c := [Run(1, a), Run(119, b)];
    CellsTwo(c[0], c[1]);
    assert c == [c[0], c[1]];
    assert Total(c) == G;
    assert c[..1] == [c[0]];
    CellsOne(c[0]);
    assert Locate(c, 1) == 1;
    assert Cells(c)[1] == b;
    assert BranchOf(c, 1, Tile(3, Null)) == InsertBefore;
  }

  /**
   * Writing the top cell of a run whose run above holds a different tile
   * leaves the cell unchanged: getTile still reads the old tile there.
   */
  lemma InsertAfterHidesWrite()
    ensures var a, b := Tile(1, Null), Tile(2, Null);
      var c := [Run(119, a), Run(1, b)];
      && WellFormed(c)
      && Lookup(SetInColumnAsWritten(c, 118, 3, Null), 118) == a
      && Lookup(SetInColumn(c, 118, 3, Null), 118) == Tile(3, Null)
  {
    var a, b := Tile(1, Null), Tile(2, Null);
    var c := [Run(119, a), Run(1, b)];
    CellsTwo(c[0], c[1]);
    assert c == [c[0], c[1]];
    assert Total(c) == G;
    EmptyPrefix(c);
    assert Locate(c, 118) == 0;
    assert Cells(c)[118] == a;
    TotalStep(c, 0);
    assert BranchOf(c, 118, Tile(3, Null)) == InsertAfter;
  }

  // ---------------------------------------------------------------------
  // A column written for the first time
  // ---------------------------------------------------------------------

  /**
   * The `list == null` branch of `_setTile`: empty runs around a run of
   * length 1. `data` is stored as given, `undefined` included.
   */
  function FreshColumn(y: nat, t: Tile): (r: Column)
    requires y < G
    ensures WellFormed(r)
    ensures Cells(r) == Rep(G, Empty)[y := t]
  {
    if y == 0 then
      CellsTwo(Run(1, t), Run(G - 1, Empty));
      [Run(1, t), Run(G - 1, Empty)]
    else if y == G - 1 then
      CellsTwo(Run(G - 1, Empty), Run(1, t));
      [Run(G - 1, Empty), Run(1, t)]
    else
      CellsThree(Run(y, Empty), Run(1, t), Run(G - 1 - y, Empty));
      assert Rep(y, Empty) + Rep(1, t) + Rep(G - 1 - y, Empty) == Rep(G, Empty)[y := t];
      [Run(y, Empty), Run(1, t), Run(G - 1 - y, Empty)]
  }

  /** The cells of a column slot: a missing column reads as G empty cells. */
  function SlotCells(col: Option<Column>): (s: seq<Tile>)
    ensures col.Some? ==> s == Cells(col.value)
    ensures col.None? ==> s == Rep(G, Empty)
  {
    if col.Some? then Cells(col.value) else Rep(G, Empty)
  }

  /** A missing column or a well-formed one. */
  predicate SlotOk(col: Option<Column>) {
    col.Some? ==> WellFormed(col.value)
  }

  /** The tile `_setTile` stores at cell y of a column slot. */
  function WrittenIn(col: Option<Column>, y: nat, shape: int, data: Data): Tile
    requires SlotOk(col) && y < G
  {
    if col.Some? then Written(col.value, y, shape, data) else Tile(shape, data)
  }

  /** `_setTile` on one column slot, with the corrected edit. */
  function WriteSlot(col: Option<Column>, y: nat, shape: int, data: Data): (r: Column)
    requires SlotOk(col) && y < G
    ensures WellFormed(r)
    ensures Cells(r) == SlotCells(col)[y := WrittenIn(col, y, shape, data)]
  {
    if col.Some? then SetInColumn(col.value, y, shape, data) else FreshColumn(y, Tile(shape, data))
  }

  /** A subgrid's `info`: G column slots, each missing or well formed. */
  datatype SubGrid = SubGrid(info: seq<Option<Column>>)

  predicate ValidSub(s: SubGrid) {
    |s.info| == G && forall i :: 0 <= i < G ==> SlotOk(s.info[i])
  }

  /** `new SubGrid(size)`: no column written yet. */
  function NewSubGrid(): (s: SubGrid)
    ensures ValidSub(s) && forall i :: 0 <= i < G ==> SlotCells(s.info[i]) == Rep(G, Empty)
  {
    SubGrid(seq(G, _ => None))
  }
}
