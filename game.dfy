/**
 * The game-state engine of an N-dimensional Connect-Four.
 *
 * A `GameState` owns a board of `Product(shape)` cells in row-major order
 * (see module `Layout`). A move names one index on every axis but the last;
 * the disk drops along the last axis into the lowest empty cell of that
 * column.
 */
module Game {
  import opened Wrappers
  import opened GameErrors
  import opened Layout
  import opened Directions

  datatype Color = Red | Yellow

  /** One entry of an array slice description: a fixed index, or the whole axis. */
  datatype SliceOrIndex = Index(i: nat) | Slice

  type Cells = seq<Option<Color>>

  /**
   * The engine's win test: given the board cells, the color just played and
   * the landing coordinate, whether that disk completes a winning line. The
   * engine leaves it unimplemented, so the model keeps it abstract.
   */
  type WinRule = (Cells, Color, seq<SliceOrIndex>) -> bool

  /** A full coordinate written as a slice description of fixed indices. */
  function Point(c: seq<nat>): seq<SliceOrIndex>
  {
    seq(|c|, i requires 0 <= i < |c| => Index(c[i]))
  }

  /** The fixed indices of a slice description that fixes every axis but the last. */
  function Fixed(sel: seq<SliceOrIndex>): seq<nat>
    requires |sel| > 0 && forall i :: 0 <= i < |sel| - 1 ==> sel[i].Index?
  {
    seq(|sel| - 1, i requires 0 <= i < |sel| - 1 => sel[i].i)
  }

  /** A landing coordinate read back as a selector gives the column it fell in, and its height. */
  lemma FixedPoint(c: seq<nat>, k: nat)
    ensures |Point(c + [k])| == |c| + 1
    ensures Fixed(Point(c + [k])) == c && Point(c + [k])[|c|] == Index(k)
  {
  }

  /**
   * Fixing the drop-axis entry of a column selector to `k` gives the point
   * at height `k` of the column the selector names.
   */
  lemma LandingPoint(sel: seq<SliceOrIndex>, k: nat)
    requires |sel| > 0 && forall i :: 0 <= i < |sel| - 1 ==> sel[i].Index?
    ensures sel[|sel| - 1 := Index(k)] == Point(Fixed(sel) + [k])
  {
  }

  // ----- columns of the flat buffer -----

  /** Column `b` of a buffer made of columns of height `h`. */
  function Block(cells: Cells, b: nat, h: nat): Cells
    requires b * h + h <= |cells|
  {
    cells[b * h .. b * h + h]
  }

  /** The disks of a column fill it from index 0 upward, without gaps. */
  predicate NoGaps(col: Cells)
  {
    forall j, k :: 0 <= j < k < |col| && col[k].Some? ==> col[j].Some?
  }

  /** Each of the first `m` columns of height `h` is filled without gaps. */
  ghost predicate Stacked(cells: Cells, m: nat, h: nat)
  {
    m == 0 || (Stacked(cells, m - 1, h) && ((m - 1) * h + h <= |cells| ==> NoGaps(Block(cells, m - 1, h))))
  }

  /** The lowest index of an empty cell of a column, if there is one. */
  function FirstEmpty(col: Cells): (r: Option<nat>)
    ensures r.Some? ==> r.value < |col| && col[r.value].None?
    ensures r.Some? ==> forall j :: 0 <= j < r.value ==> col[j].Some?
    ensures r.None? ==> forall j :: 0 <= j < |col| ==> col[j].Some?
  {
    EmptyFrom(col, 0)
  }

  /** The lowest index from `i` on of an empty cell of a column, if there is one. */
  function EmptyFrom(col: Cells, i: nat): (r: Option<nat>)
    requires i <= |col|
    ensures r.Some? ==> i <= r.value < |col| && col[r.value].None?
    ensures r.Some? ==> forall j :: i <= j < r.value ==> col[j].Some?
    ensures r.None? ==> forall j :: i <= j < |col| ==> col[j].Some?
    decreases |col| - i
  {
    if i == |col| then None
    else if col[i].None? then Some(i)
    else EmptyFrom(col, i + 1)
  }

  /** The number of occupied cells. */
  function Occupied(cells: Cells): (n: nat)
    ensures n <= |cells|
  {
    OccupiedBelow(cells, |cells|)
  }

  /** The number of occupied cells among the first `n`. */
  function OccupiedBelow(cells: Cells, n: nat): (k: nat)
    requires n <= |cells|
    ensures k <= n
  {
    if n == 0 then 0 else OccupiedBelow(cells, n - 1) + (if cells[n - 1].Some? then 1 else 0)
  }

  /** Placing a disk into an empty cell among the first `n` adds exactly one occupied cell there. */
  lemma {:induction false} OccupiedBelowPlace(cells: Cells, i: nat, c: Color, n: nat)
    requires i < |cells| && cells[i].None? && n <= |cells|
    ensures OccupiedBelow(cells[i := Some(c)], n) == OccupiedBelow(cells, n) + (if i < n then 1 else 0)
  {
    if n > 0 {
      OccupiedBelowPlace(cells, i, c, n - 1);
    }
  }

  /** Placing a disk into an empty cell adds exactly one occupied cell. */
  lemma OccupiedPlace(cells: Cells, i: nat, c: Color)
    requires i < |cells| && cells[i].None?
    ensures Occupied(cells[i := Some(c)]) == Occupied(cells) + 1
  {
    OccupiedBelowPlace(cells, i, c, |cells|);
  }

  /** Among empty cells none is occupied. */
  lemma {:induction false} OccupiedBelowEmpty(cells: Cells, n: nat)
    requires n <= |cells| && forall k :: 0 <= k < n ==> cells[k].None?
    ensures OccupiedBelow(cells, n) == 0
  {
    if n > 0 {
      OccupiedBelowEmpty(cells, n - 1);
    }
  }

  /** An empty board has no occupied cell. */
  lemma OccupiedEmpty(cells: Cells)
    requires forall k :: 0 <= k < |cells| ==> cells[k].None?
    ensures Occupied(cells) == 0
  {
    OccupiedBelowEmpty(cells, |cells|);
  }

  /** Filling the lowest empty cell of a gap-free column keeps it gap-free. */
  lemma FillKeepsNoGaps(col: Cells, c: Color)
    requires NoGaps(col) && FirstEmpty(col).Some?
    ensures NoGaps(col[FirstEmpty(col).value := Some(c)])
  {
    var k := FirstEmpty(col).value;
    var col' := col[k := Some(c)];
    forall j, l | 0 <= j < l < |col'| && col'[l].Some? ensures col'[j].Some? {
      if j != k && l != k {
        assert col[l].Some?;
      }
    }
  }

  /** Writing cell `k` of column `b0` changes that column at `k` and no other column. */
  lemma WriteInColumn(cells: Cells, b0: nat, k: nat, h: nat, x: Option<Color>, b: nat)
    requires b0 * h + h <= |cells| && k < h && b * h + h <= |cells|
    ensures b == b0 ==> Block(cells[b0 * h + k := x], b, h) == Block(cells, b, h)[k := x]
    ensures b != b0 ==> Block(cells[b0 * h + k := x], b, h) == Block(cells, b, h)
  {
    if b != b0 {
      BlocksApart(b, b0, k, h);
    }
  }

  /** Dropping a disk into the lowest empty cell of one column keeps every column gap-free. */
  lemma {:induction false} PlaceKeepsStacked(cells: Cells, m: nat, h: nat, b0: nat, c: Color)
    requires b0 * h + h <= |cells|
    requires Stacked(cells, m, h)
    requires FirstEmpty(Block(cells, b0, h)).Some?
    ensures Stacked(cells[b0 * h + FirstEmpty(Block(cells, b0, h)).value := Some(c)], m, h)
  {
    if m > 0 {
      PlaceKeepsStacked(cells, m - 1, h, b0, c);
      var k := FirstEmpty(Block(cells, b0, h)).value;
      var b := m - 1;
      if b * h + h <= |cells| {
        WriteInColumn(cells, b0, k, h, Some(c), b);
        if b == b0 {
          FillKeepsNoGaps(Block(cells, b, h), c);
        }
      }
    }
  }

  /** An empty board is gap-free. */
  lemma {:induction false} EmptyStacked(cells: Cells, m: nat, h: nat)
    requires forall k :: 0 <= k < |cells| ==> cells[k].None?
    ensures Stacked(cells, m, h)
  {
    if m > 0 {
      EmptyStacked(cells, m - 1, h);
      var b := m - 1;
      if b * h + h <= |cells| {
        assert forall k :: 0 <= k < h ==> Block(cells, b, h)[k] == cells[b * h + k];
      }
    }
  }

  /** Size of the drop axis. */
  function Height(shape: seq<nat>): nat
    requires |shape| > 0
  {
    shape[|shape| - 1]
  }

  /** The axes other than the drop axis. */
  function Fixes(shape: seq<nat>): seq<nat>
    requires |shape| > 0
  {
    shape[..|shape| - 1]
  }

  /** The cells along the drop axis below the fixed indices `pos`. */
  function ColumnOf(cells: Cells, shape: seq<nat>, pos: seq<nat>): (col: Cells)
    requires |shape| > 0 && |cells| == Product(shape) && InBounds(pos, Fixes(shape))
    ensures |col| == Height(shape)
  {
    OffsetBound(pos, Fixes(shape));
    BlockInRange(Offset(pos, Fixes(shape)), Height(shape), Product(Fixes(shape)), Height(shape));
    Block(cells, Offset(pos, Fixes(shape)), Height(shape))
  }

  /** Column `pos` is the `Height(shape)` cells from the offset of `pos + [0]`, which is its block. */
  lemma ColumnStart(cells: Cells, shape: seq<nat>, pos: seq<nat>)
    requires |shape| > 0 && |cells| == Product(shape) && InBounds(pos, Fixes(shape))
    ensures Offset(pos + [0], shape) == Offset(pos, Fixes(shape)) * Height(shape)
    ensures Offset(pos + [0], shape) + Height(shape) <= |cells|
    ensures ColumnOf(cells, shape, pos) == cells[Offset(pos + [0], shape)..Offset(pos + [0], shape) + Height(shape)]
  {
    OffsetAppend(pos, 0, shape);
    assert (pos + [0])[..|pos|] == pos;
    OffsetBound(pos, Fixes(shape));
    BlockInRange(Offset(pos, Fixes(shape)), Height(shape), Product(Fixes(shape)), Height(shape));
  }

  /** Cell `k` of column `pos` is the coordinate `pos + [k]`, `k` cells above the column's start. */
  lemma CellOfColumn(shape: seq<nat>, pos: seq<nat>, k: nat)
    requires |shape| > 0 && InBounds(pos, Fixes(shape)) && k < Height(shape)
    ensures InBounds(pos + [k], shape)
    ensures Offset(pos + [k], shape) == Offset(pos + [0], shape) + k
  {
    OffsetAppend(pos, k, shape);
    OffsetAppend(pos, 0, shape);
    assert (pos + [k])[..|pos|] == pos;
    assert (pos + [0])[..|pos|] == pos;
  }

  /**
   * Column `pos` is the `Height(shape)` cells from the offset of `pos + [0]`.
   * Dropping a disk into it, when it has an empty cell, fills the lowest
   * empty cell, which is the coordinate `pos` extended by that index: one
   * more occupied cell, and every column still gap-free.
   */
  lemma Drop(cells: Cells, shape: seq<nat>, pos: seq<nat>, c: Color)
    requires |shape| > 0 && |cells| == Product(shape) && InBounds(pos, Fixes(shape))
    requires Stacked(cells, Product(Fixes(shape)), Height(shape))
    ensures var base := Offset(pos + [0], shape);
      && base + Height(shape) <= |cells|
      && ColumnOf(cells, shape, pos) == cells[base..base + Height(shape)]
    ensures match FirstEmpty(ColumnOf(cells, shape, pos))
      case None => true
      case Some(k) =>
        && InBounds(pos + [k], shape)
        && Offset(pos + [k], shape) == Offset(pos + [0], shape) + k
        && cells[Offset(pos + [k], shape)] == None
        && Stacked(cells[Offset(pos + [k], shape) := Some(c)], Product(Fixes(shape)), Height(shape))
        && Occupied(cells[Offset(pos + [k], shape) := Some(c)]) == Occupied(cells) + 1
  {
    ColumnStart(cells, shape, pos);
    var col := ColumnOf(cells, shape, pos);
    if FirstEmpty(col).Some? {
      var h, b, k := Height(shape), Offset(pos, Fixes(shape)), FirstEmpty(col).value;
      var base := Offset(pos + [0], shape);
      CellOfColumn(shape, pos, k);
      assert cells[base + k] == col[k];
      assert col == Block(cells, b, h);
      PlaceKeepsStacked(cells, Product(Fixes(shape)), h, b, c);
      OccupiedPlace(cells, base + k, c);
    }
  }

  /** Writing the landing cell leaves the cell at every other coordinate as it was. */
  lemma OnlyLandingChanges(cells: Cells, shape: seq<nat>, landing: seq<nat>, x: Option<Color>, c: seq<nat>)
    requires |cells| == Product(shape) && InBounds(landing, shape) && InBounds(c, shape)
    requires c != landing
    ensures Offset(landing, shape) < |cells| && Offset(c, shape) < |cells|
    ensures cells[Offset(landing, shape) := x][Offset(c, shape)] == cells[Offset(c, shape)]
  {
    OffsetBound(landing, shape);
    OffsetBound(c, shape);
    OffsetInjective(landing, c, shape);
  }

  class GameState {
    /** The cells, in row-major order over `shape`. */
    const board: array<Option<Color>>
    /** The axis sizes; the last axis is the drop axis. */
    const shape: seq<nat>
    /** The direction vectors a win test walks along. */
    const checkVecs: set<seq<int>>
    var round: nat
    const dimensions: nat
    /** The win test the engine consults after every landing. */
    const isWinPosition: WinRule

    ghost predicate Valid()
      reads this, board
    {
      && |shape| >= 2
      && dimensions == |shape|
      && board.Length == Product(shape)
      && Stacked(board[..], Product(Fixes(shape)), Height(shape))
      && 1 <= round <= Occupied(board[..]) + 1
    }

    /** `sel` fixes in-bounds indices on every axis but the last and spans the last axis. */
    predicate IsColumnSelector(sel: seq<SliceOrIndex>)
      reads this
    {
      && |shape| > 0
      && |sel| == |shape|
      && sel[|sel| - 1] == Slice
      && forall i :: 0 <= i < |sel| - 1 ==> sel[i].Index? && sel[i].i < shape[i]
    }

    /**
     * A move must give one index for every axis but the drop axis; such a
     * move with in-range indices, followed by the whole drop axis, selects
     * a single column.
     */
    predicate CheckInput(pos: seq<nat>): (ok: bool)
      reads this
      requires |shape| > 0
      ensures ok ==> |pos| < |shape|
      ensures ok && (forall i :: 0 <= i < |pos| ==> pos[i] < shape[i]) ==> IsColumnSelector(Point(pos) + [Slice])
    {
      |pos| == |shape| - 1
    }

    constructor (dims: seq<nat>, isWin: WinRule)
      requires |dims| >= 2
      ensures Valid() && fresh(board)
      ensures shape == dims && dimensions == |dims| && round == 1 && isWinPosition == isWin
      ensures checkVecs == Canonical(|dims|)
      ensures forall k :: 0 <= k < board.Length ==> board[k] == None
    {
      var vecs := GenerateCheckVecs(|dims|);
      board := new Option<Color>[Product(dims)](_ => None);
      shape := dims;
      checkVecs := vecs;
      round := 1;
      dimensions := |dims|;
      isWinPosition := isWin;
      new;
      OccupiedEmpty(board[..]);
      EmptyStacked(board[..], Product(Fixes(shape)), Height(shape));
    }

    /** Builds a game for the given axis sizes; fewer than two axes are refused. */
    static method New(dims: seq<nat>, isWin: WinRule) returns (r: Result<GameState, GameError>)
      ensures r.Err? <==> |dims| < 2
      ensures r.Err? ==> r.error == TooFewDimensions
      ensures r.Ok? ==> fresh(r.value) && fresh(r.value.board) && r.value.Valid()
      ensures r.Ok? ==> r.value.shape == dims && r.value.round == 1 && r.value.isWinPosition == isWin
      ensures r.Ok? ==> forall k :: 0 <= k < r.value.board.Length ==> r.value.board[k] == None
      ensures r.Ok? ==> r.value.checkVecs == Canonical(|dims|)
    {
      if |dims| < 2 {
        return Err(TooFewDimensions);
      }
      var g := new GameState(dims, isWin);
      r := Ok(g);
    }

    /** Plays `color` at the fixed indices `pos`; the result says whether the move won. */
    method PlayDisk(color: Color, pos: seq<nat>) returns (r: Result<bool, GameError>)
      requires Valid()
      requires CheckInput(pos)
      requires forall i :: 0 <= i < |pos| ==> pos[i] < shape[i]
      modifies this, board
      ensures Valid()
      ensures match FirstEmpty(ColumnOf(old(board[..]), shape, pos))
        case None =>
          r == Err(AxisFull) && round == old(round) && board[..] == old(board[..])
        case Some(k) =>
          && InBounds(pos + [k], shape)
          && Offset(pos + [k], shape) < board.Length
          && board[..] == old(board[..])[Offset(pos + [k], shape) := Some(color)]
          && r == Ok(isWinPosition(board[..], color, Point(pos + [k])))
          && round == (if r.value then old(round) else old(round) + 1)
    {
      var index := IndexFromPos(pos);
      assert Fixed(index) == pos;
      var landed := InsertDisk(color, index);
      if landed.Err? {
        return Err(landed.error);
      }
      var diskPos := landed.value;
      ghost var k := FirstEmpty(ColumnOf(old(board[..]), shape, pos)).value;
      LandingPoint(index, k);
      var win := isWinPosition(board[..], color, diskPos);
      if !win {
        round := round + 1;
      }
      r := Ok(win);
    }

    /**
     * Drops `color` into the column `insertPos` selects: into its lowest
     * empty cell, returning `insertPos` with the drop axis fixed to the
     * landing index; or, when the column is full, reports `AxisFull`.
     */
    method InsertDisk(color: Color, insertPos: seq<SliceOrIndex>) returns (r: Result<seq<SliceOrIndex>, GameError>)
      requires Valid() && IsColumnSelector(insertPos)
      modifies board
      ensures Valid()
      ensures match FirstEmpty(ColumnOf(old(board[..]), shape, Fixed(insertPos)))
        case None =>
          r == Err(AxisFull) && board[..] == old(board[..])
        case Some(k) =>
          && r == Ok(insertPos[|insertPos| - 1 := Index(k)])
          && InBounds(Fixed(insertPos) + [k], shape)
          && Offset(Fixed(insertPos) + [k], shape) < board.Length
          && old(board[..])[Offset(Fixed(insertPos) + [k], shape)] == None
          && board[..] == old(board[..])[Offset(Fixed(insertPos) + [k], shape) := Some(color)]
          && Occupied(board[..]) == old(Occupied(board[..])) + 1
    {
      var pos := Fixed(insertPos);
      var cells := board[..];
      Drop(cells, shape, pos, color);
      var base := Offset(pos + [0], shape);
      var found := FirstEmpty(cells[base..base + shape[|shape| - 1]]);
      if found.None? {
        return Err(AxisFull);
      }
      var i := found.value;
      board[base + i] := Some(color);
      assert board[..] == cells[base + i := Some(color)];
      r := Ok(insertPos[|insertPos| - 1 := Index(i)]);
    }

    /**
     * The index a move selects: one fixed index per given coordinate,
     * extended by whole-axis entries up to the number of axes.
     */
    method IndexFromPos(pos: seq<nat>) returns (index: seq<SliceOrIndex>)
      ensures |index| == (if |pos| < dimensions then dimensions else |pos|)
      ensures forall i :: 0 <= i < |pos| ==> index[i] == Index(pos[i])
      ensures forall i :: |pos| <= i < |index| ==> index[i] == Slice
      ensures |pos| + 1 == dimensions ==> Fixed(index) == pos && index[|pos|] == Slice
    {
      index := seq(|pos|, i requires 0 <= i < |pos| => Index(pos[i]));
      var j := |index|;
      while j < dimensions
        invariant |pos| <= j && |index| == j
        invariant j == |pos| || j <= dimensions
        invariant forall i :: 0 <= i < |pos| ==> index[i] == Index(pos[i])
        invariant forall i :: |pos| <= i < j ==> index[i] == Slice
      {
        index := index + [Slice];
        j := j + 1;
      }
    }

    /**
     * The direction vectors for `nDims` axes: of every non-zero vector over
     * {-1, 0, 1} and its inverse, the one enumerated first.
     */
    static method GenerateCheckVecs(nDims: nat) returns (directions: set<seq<int>>)
      ensures directions == Canonical(nDims)
      ensures |directions| == (Pow3(nDims) - 1) / 2
      ensures Zero(nDims) !in directions
      ensures forall v :: v in directions ==> InCube(v, nDims)
      ensures forall v :: InCube(v, nDims) && v != Zero(nDims) ==> (v in directions <==> Neg(v) !in directions)
    {
      var vecs := Cube(nDims);
      directions := {};
      for i := 0 to |vecs|
        invariant KeptUpTo(directions, vecs, i)
      {
        var vec := vecs[i];
        InverseKept(directions, nDims, i);
        KeepStep(directions, vecs, i);
        if !(Neg(vec) in directions) {
          directions := directions + {vec};
        }
      }
      KeptAll(directions, nDims);
      directions := directions - {Zero(nDims)};
      CanonicalCount(nDims);
      forall v | v in directions ensures InCube(v, nDims) {
        CanonicalMembers(v, nDims);
      }
      forall v | InCube(v, nDims) && v != Zero(nDims)
        ensures v in directions <==> Neg(v) !in directions
      {
        ExactlyOneOfPair(v, nDims);
      }
    }

    /** The round counter never runs more than one past the disks on the board. */
    lemma RoundWithinCapacity()
      requires Valid()
      ensures round - 1 <= Occupied(board[..]) <= board.Length
    {
    }
  }
}
