# N-dimensional Connect Four: game-state engine

This project models the game-state engine of an N-dimensional Connect Four (Rust, `src/main.rs`).

A game has a board with `N >= 2` axes. The last axis is the drop axis. A move names one index on every other axis, and the disk falls along the drop axis into the lowest empty cell of that column. The engine keeps:
- a round counter, which advances after every successful move that does not win;
- the set of direction vectors a win test walks along. This is one vector out of every pair `v`, `-v` of non-zero vectors over {-1, 0, 1}.

Modules:

- `Wrappers`: `Option` and `Result`, as the engine uses them.
- `GameErrors`: the engine's error enum `GameError`.
- `Layout`: the row-major flat layout of the board.
  - `Product(shape)` is the number of cells.
  - `Offset(c, shape)` is the buffer position of coordinate `c`, with the last axis varying fastest.
  - `OffsetBound`: every cell lies inside the buffer.
  - `OffsetInjective`: distinct coordinates have distinct positions.
  - `OffsetAppend`: a drop column is contiguous.
- `Directions`: the direction vectors.
  - `Cube(n)` is the enumeration of {-1, 0, 1}^n in the engine's Cartesian-product order. Each axis runs through `[1, 0, -1]`, and the first axis varies slowest.
  - `Canonical(n)` is the set the engine ends up with: the vectors whose first non-zero component is `+1`.
  - The lemmas prove that the enumeration is complete and has no repetitions.
  - The filter "insert unless the inverse is present" keeps exactly the canonical vectors.
  - The canonical set holds exactly one of every pair `v`, `-v`, and has `(3^n - 1) / 2` elements.
- `Game`: the class `GameState` with the board as an `array` in row-major order, `round`, `dimensions`, and the direction set, plus the column helpers and the lemmas about dropping a disk.
  - The invariant `Valid()` says:
    - the board has `Product(shape)` cells;
    - every column is filled from the bottom without gaps (`Stacked`);
    - `round` is at least 1 and at most one more than the number of disks on the board.

`is_win_position` has no body in the engine: it calls `unimplemented!()`. The model keeps the win test abstract. It is a function value `isWinPosition` of type `WinRule`, given to the constructor. `PlayDisk` states its result in terms of that function.

Where the code and its surroundings disagree:
- `insert_disk` reports a full column as `GameError::ColumnFull`, but `src/err.rs` declares no such variant. The error that is declared for this case is `AxisFull`. Here the model departs from the text of `insert_disk` and returns the declared `AxisFull`.
- `BoardFull` is declared but never returned.
- Axis sizes of 0 are not rejected by `new`, so the model allows them too.

## Model

| member | source | states |
|---|---|---|
| Game.GameState.New | src/main.rs:25-37 | Fails with `TooFewDimensions` exactly when fewer than two axis sizes are given. Otherwise it returns a fresh game satisfying `Valid()`: the given shape, round 1, every cell empty, and the direction set `Canonical(|dims|)`. |
| Game.GameState.constructor | src/main.rs:30-36 | For two or more axes, builds an all-empty board of `Product(dims)` cells, round 1, `dimensions == |dims|` and the canonical direction set, and establishes `Valid()`. |
| Game.GameState.PlayDisk | src/main.rs:39-49 | If the column under `pos` has no empty cell: `Err(AxisFull)`, with board and round unchanged. Otherwise: the lowest empty cell `pos + [k]` gets the disk and nothing else changes; the result is `Ok` of the win test on the new board at that coordinate; and `round` goes up by one exactly when the move does not win. `Valid()` is preserved. |
| Game.GameState.InsertDisk | src/main.rs:51-68 | If the selected column has no empty cell: `Err(AxisFull)` and the board is unchanged. Otherwise the disk lands at the column's lowest empty index `k`, which was empty before. Exactly that cell of the board changes. The returned selector is the input with its last entry replaced by `Index(k)`. One more cell is occupied, and `Valid()` is preserved. |
| Game.GameState.IndexFromPos | src/main.rs:83-94 | The selector has one `Index(pos[i])` per given coordinate, followed by whole-axis entries up to `dimensions`. Its length is the larger of `|pos|` and `dimensions`. For a move with one index fewer than `dimensions`, the selector fixes exactly `pos` and spans the drop axis. |
| Game.GameState.CheckInput | src/main.rs:74-81 | A move is accepted only when it gives fewer indices than there are axes (exactly one per axis other than the drop axis). An accepted move whose indices are in range, followed by the whole drop axis, selects one column of the board. The engine panics otherwise; the model makes it a precondition of `PlayDisk`. |
| Game.GameState.GenerateCheckVecs | src/main.rs:97-122 | The loop over the enumeration, with the inverse check, yields exactly `Canonical(n)`. The result has `(3^n - 1) / 2` vectors, all over {-1, 0, 1}. It does not hold the zero vector, and it holds exactly one of `v` and `-v` for every non-zero `v`. |
| Game.GameState.RoundWithinCapacity | src/main.rs:45-47 | In a valid state, the number of completed non-winning rounds is at most the number of disks on the board, which is at most the number of cells. So the `usize` counter cannot overflow. The lemma itself only reads this off `Valid()`; the proof is that `PlayDisk` and `InsertDisk` preserve `Valid()`, which bounds `round` by the occupied cells. |
| Game.FirstEmpty | src/main.rs:59 | `find_position(is_none)`: if it finds an index, that cell is empty and every cell below it is occupied. If it finds none, every cell of the column is occupied. |
| Game.EmptyFrom | src/main.rs:59 | The scan from index `i` on: the found index is at least `i`, its cell is empty and the cells between are occupied. If nothing is found, every cell from `i` on is occupied. |
| Game.ColumnOf | src/main.rs:56-57 | The slice that fixes every axis but the last is a column of exactly `Height(shape)` cells. |
| Game.ColumnStart | src/main.rs:56-57 | The column under `pos` starts at the offset of `pos + [0]`, which is the offset of `pos` in the other axes times the column height. It is the contiguous run of `Height(shape)` buffer cells from there, and it lies inside the buffer. |
| Game.CellOfColumn | src/main.rs:57-62 | Cell `k` of the column under `pos` is the in-bounds coordinate `pos + [k]`, at `k` cells past the column's start. |
| Game.Drop | src/main.rs:56-60 | When the column under `pos` has an empty cell, the lowest empty cell `pos + [k]` was empty. Writing the disk there keeps every column gap-free and adds exactly one occupied cell. |
| Game.OnlyLandingChanges | src/main.rs:59-60 | Writing the landing cell leaves the cell at every other coordinate as it was. |
| Game.PlaceKeepsStacked | src/main.rs:59-60 | Filling the lowest empty cell of one column keeps every column of the board free of gaps. |
| Game.FillKeepsNoGaps | src/main.rs:59-60 | Filling the lowest empty cell of a gap-free column keeps it gap-free. |
| Game.WriteInColumn | src/main.rs:57-60 | A write into one column changes that column at the written index and no other column. |
| Game.OccupiedPlace | src/main.rs:60 | Putting a disk into an empty cell increases the number of occupied cells by exactly one. |
| Game.OccupiedBelowPlace | src/main.rs:60 | The same for the first `n` cells: one more occupied cell when the written cell is among them, none otherwise. |
| Game.OccupiedEmpty | src/main.rs:31 | A board built with `from_elem(dims, None)` has no occupied cell. |
| Game.EmptyStacked | src/main.rs:31 | An all-empty board is gap-free in every column. |
| Game.FixedPoint | src/main.rs:61-63 | The landing position, returned as a selector of fixed indices, reads back as the column it fell in, with the landing height as its last entry. |
| Game.LandingPoint | src/main.rs:61-63 | Replacing the whole-axis entry of a column selector by `Index(k)` gives the selector of the point at height `k` of that column. |
| Layout.OffsetBound | src/main.rs:17 | Every in-bounds coordinate has a buffer position below `Product(shape)`. |
| Layout.OffsetInjective | src/main.rs:17 | Distinct in-bounds coordinates occupy distinct cells of the buffer. |
| Layout.OffsetAppend | src/main.rs:57 | Fixing every axis but the last, the cells along the last axis are consecutive. |
| Directions.Cube | src/main.rs:100 | The enumeration has `3^n` entries. |
| Directions.CubeAt | src/main.rs:109-112 | Every enumerated vector lies in {-1, 0, 1}^n, and `Rank` gives its position. |
| Directions.CubeHas | src/main.rs:109-112 | Every vector of {-1, 0, 1}^n is enumerated, at the position its rank gives. |
| Directions.CubeMembers | src/main.rs:109-112 | A vector is enumerated exactly when it lies in {-1, 0, 1}^n. |
| Directions.CubeDistinct | src/main.rs:109-112 | No vector is enumerated twice. |
| Directions.CubeSplit | src/main.rs:109-111 | The first axis varies slowest: each third of the enumeration is the smaller enumeration led by one step, in the order `1, 0, -1`. |
| Directions.InverseComesFirst | src/main.rs:113-117 | Of a vector leading with -1 and its inverse, the inverse is enumerated first. |
| Directions.InverseKept | src/main.rs:113-117 | When a vector is offered, it has not been offered before. Its inverse is already kept exactly when the vector leads with -1. |
| Directions.KeepStep | src/main.rs:113-117 | Offering one more vector, and inserting it unless its inverse is present, keeps the set equal to the offered vectors not leading with -1. |
| Directions.KeptAll | src/main.rs:119-120 | After the whole enumeration, removing the zero vector leaves exactly the canonical set. |
| Directions.NonZeroCount | src/main.rs:100-101 | The zero vector is enumerated, and there are `3^n - 1` non-zero vectors. |
| Directions.ExactlyOneOfPair | src/main.rs:102-103 | Of every non-zero vector and its inverse, exactly one is kept. |
| Directions.CanonicalMembers | src/main.rs:113-120 | A vector is kept exactly when it lies in {-1, 0, 1}^n and leads with `+1`. The zero vector is not kept. |
| Directions.CanonicalCount | src/main.rs:98-104 | The kept set has exactly `(3^n - 1) / 2` vectors, the `n_vecs` the engine sizes its set with. |
| Directions.HalfOfPairs | src/main.rs:102-104 | A set that holds exactly one of every pair of a set closed under inversion is half its size. |
| Directions.LeadNeg | src/main.rs:114 | The inverse vector leads with the opposite sign. |
| Directions.LeadZero | src/main.rs:120 | Only the zero vector has no leading sign. |

## Left out

- `main`, the `dbg!` calls, `Player`, `default_players` and the `players` field: not part of the engine's behaviour.
- `is_win_position`: the engine has no implementation (`unimplemented!()`). The model takes the win test as a parameter.
- `check_input` panics when `pos` does not give one index per non-drop axis. The model makes this the precondition `CheckInput(pos)` of `PlayDisk`.
- Out-of-range indices: `SliceOrIndex::from` turns each `usize` index into an `isize`. An index below 2^63 that is at or beyond its axis size makes `ndarray`'s slicing panic. An index `i` of 2^63 or more becomes `i - 2^64`. When `2^64 - i` is at most the axis size, `ndarray` counts it from the end, and the move lands in column `size + i - 2^64`. Otherwise the slice panics.
- Game.GameState.PlayDisk: requires every index to be below its axis size, so it does not model the panic for out-of-range indices, nor the wrap of the largest indices (`i >= 2^64 - size`) to a column counted from the end of the axis.
- Game.GameState.InsertDisk: requires a selector whose fixed indices are below their axis sizes, for the same reason as `PlayDisk`.
- `ndarray` and `itertools` are replaced:
  - the dynamic-rank array becomes a flat `array` in row-major order (module `Layout`);
  - the column slice becomes the contiguous run of cells along the last axis;
  - `multi_cartesian_product` becomes the explicit enumeration `Cube(n)`.
- For zero axes, `Cube(0)` holds only the empty vector. The engine's result is the empty set either way, and `new` never asks for fewer than two axes.
- `HashSet` capacity and hashing: the model uses a mathematical `set`.
- Machine integers: all counts are unbounded.
  - `3usize.pow(n_dims as u32)` overflows for 41 or more axes. This is not modelled.
  - `round` cannot overflow; see `RoundWithinCapacity`.
  - A board too large for `from_elem` (its size overflowing `isize`) is not modelled.
- `BoardFull` is declared in `src/err.rs` but never produced, so no operation returns it.
