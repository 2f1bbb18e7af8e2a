# Sudoku tiles and one round of elimination, in Dafny

This project models the core of a small Rust Sudoku solver: the bit-packed
cell (`Tile`, src/tile.rs) and the board built from text with its single
constraint-propagation pass (`Board::new_from_str` and
`Board::apply_constraints`, src/board.rs).

- **Tile.** A tile is one 16-bit word (`bv16`).
  - Bit 10 marks a constant, whose value sits in the low byte. For example, `0x0404` is the constant 4.
  - Otherwise the tile is a candidate set, and bit v set means v is still possible, for v in 1..9.
  - `Tiles.Abs` gives a tile's meaning, `Constant(v)` or `Candidates(S)`.
  - `Tiles.Valid` is the representation invariant. A constant holds a value 1..9. A set leaves bit 0 and bits 11..15 clear.
  - Every Rust `assert!` and `debug_assert!` of src/tile.rs is a precondition.
- **Bits.** Module `Bits` reads a word through the set of positions of its one bits (`Ones`). On top of that it defines the two bit primitives the tile code uses:
  - `count_ones` is `CountOnes`;
  - `trailing_zeros` is `TrailingZeros`.
- **Board.** A board is the first 81 tiles in the order they were read.
  - nalgebra's `from_vec` fills the 9x9 matrix column by column, so tile k is at row `k % 9` and column `k / 9`.
  - Module `Grid` lists the 27 units (rows, columns, 3x3 boxes) as sequences of storage indices. Each unit is in the order the Rust iterators visit it.
- **Parsing.** `Boards.NewFromStr` returns a `Result`. Each panic of the Rust code is a `Failure` naming the check that stopped the parse:
  - `NotADigit`: `unwrap` on a character that is not a decimal digit;
  - `ZeroClue`: the `debug_assert!` of `new_constant` on `0`;
  - `TooShort`: `from_vec` on fewer than 81 tiles. This check is only reached once every character has been read. Tiles after the 81st are dropped, as nalgebra's static-size `from_vec` fills the 81 cells and ignores the rest.
- **Elimination.** `Boards.ApplyConstraints` is the pass over the rows, then the columns, then the boxes.
  - Its closed form: constants are untouched, and every set tile loses exactly the values of the constants among its peers (same row, column or box).
  - From that follows that the pass is idempotent.
  - The pass never reports a contradiction. `Boards.EmptiedSet` exhibits a parsed board whose top-left set comes out empty.
- **Precondition of the pass.** `Boards.ApplyConstraints` requires `InRange`. In every unit that holds a set tile, every constant must hold 1..9, because those are the values passed to `set_remove`, whose `debug_assert!` demands that range. In a debug build this is exactly the condition under which the Rust pass does not panic. Boards read by `new_from_str` always meet it (`Boards.ParsedBoardPropagates`).

Points where the code and its own comments or a reader's expectations part:
- The comment at src/tile.rs:8 says the constant's value is in the "left byte". The mask at src/tile.rs:47 and the example at src/tile.rs:11 use the low byte, so the model uses the low byte.
- `from_vec` fills the matrix column-major, so the k-th character lands at row `k % 9`, column `k / 9`. The unit structure is symmetric under transposition, so the closed form does not depend on this.
- The code panics on bad input, which is modelled as `Failure` above. `apply_constraints` never reports an empty set.

## Model

| member | source | states |
|---|---|---|
| Bits.CountOnes | src/tile.rs:76 | `count_ones` equals the number of one-bit positions of the word |
| Bits.TrailingZeros | src/tile.rs:54 | `trailing_zeros` is the lowest one-bit position, below every other one bit, and 16 exactly when the word has no one bit |
| Bits.ClearBit | src/tile.rs:70 | `w & !(1 << v)` removes exactly position v from the one bits and keeps all others |
| Bits.SingletonOnes | src/tile.rs:51-54 | for a word with a single one bit, that bit is at the `trailing_zeros` position |
| Bits.OnesInjective | src/tile.rs:20 | a `u16` is determined by the set of positions of its one bits |
| Bits.StrayBitsClear | src/tile.rs:14-19 | bits 0 and 10..15 are clear exactly when every one bit lies in 1..9 |
| Tiles.IsSet | src/tile.rs:36-42 | `is_set` and `is_constant` are exact complements on every tile |
| Tiles.NewConstant | src/tile.rs:24-29 | for v in 1..9 the tile is a constant, not a set, well formed, and `value_of_constant` gives back v; its meaning is `Constant(v)` |
| Tiles.NewFullSet | src/tile.rs:31-34 | the full set is a well-formed set whose candidates are exactly 1..9: `set_contains` holds for every digit and `set_len` is 9 |
| Tiles.ValueOfConstant | src/tile.rs:44-48 | the value is below 256, and a digit 1..9 for a well-formed constant |
| Tiles.ConstantRoundTrip | src/tile.rs:24-48 | `new_constant` of `value_of_constant` rebuilds every well-formed constant |
| Tiles.AbsInjective | src/tile.rs:5-19 | the encoding is faithful: two well-formed tiles with the same meaning are the same word |
| Tiles.ValidSet | src/tile.rs:14-19 | a set tile is well formed exactly when all its candidates are digits 1..9 |
| Tiles.FlagIsBitTen | src/tile.rs:36-42 | a tile is a set exactly when 10 is not among its one-bit positions, so the flag never reads as a candidate |
| Tiles.SetContains | src/tile.rs:59-64 | `set_contains(v)` holds exactly when v is a candidate |
| Tiles.SetRemove | src/tile.rs:66-71 | the result is still a set; v is no longer a candidate and every other candidate is kept; well-formedness is preserved |
| Tiles.SetLen | src/tile.rs:73-77 | `set_len` is the number of candidates, and for a well-formed set the number of candidates among 1..9, at most 9 |
| Tiles.ValidSetSize | src/tile.rs:14-19 | a well-formed set has only digit candidates, at most nine of them |
| Tiles.TransformSetIntoConstant | src/tile.rs:50-57 | a set with one candidate becomes a well-formed constant whose value is that candidate |
| Tiles.TransformSingleton | src/tile.rs:50-57 | a set whose only candidate is the digit v has `set_len` 1 and becomes exactly `new_constant(v)` |
| Tiles.SetRemoveIdempotent | src/tile.rs:66-71 | removing a value twice gives the same tile as removing it once |
| Tiles.SetRemoveLen | src/tile.rs:66-77 | removing a present value lowers `set_len` by one; removing an absent value leaves the tile unchanged |
| Tiles.SetRemoveCommutes | src/tile.rs:66-71 | the order of two removals does not matter, so the order in which a unit's values are removed does not either |
| Grid.Index | src/board.rs:25 | the matrix cell (row, col) is stored at an index below 81 whose row and column are row and col |
| Grid.IndexOfCell | src/board.rs:25 | every storage index is the index of its own row and column, so `Index` and `Row`/`Col` are inverse |
| Grid.RowUnit | src/board.rs:30 | a row's unit holds exactly the cells of that row |
| Grid.ColUnit | src/board.rs:44 | a column's unit holds exactly the cells of that column |
| Grid.BoxUnit | src/board.rs:58-60 | the 3x3 slice at (i, j) holds exactly the cells whose row and column bands start at i and j |
| Grid.Units | src/board.rs:29-75 | the pass visits 27 units, and every cell index in them is a cell of the board |
| Grid.RowsVisitedFirst | src/board.rs:30 | units 0..8 are the rows, top to bottom |
| Grid.ColumnsVisitedNext | src/board.rs:44 | units 9..17 are the columns, left to right |
| Grid.BoxesVisitedLast | src/board.rs:58-60 | unit 18 + 3p + q is the box with top-left cell (3p, 3q): row bands in the outer loop, column bands in the inner one |
| Grid.SharedUnitPeers | src/board.rs:30-74 | two cells that some visited unit holds are in the same row, column or box |
| Grid.PeersShareUnit | src/board.rs:30-74 | two cells share a row, a column or a box exactly when one of the 27 visited units holds both |
| Boards.DigitValue | src/board.rs:19 | `to_digit(10)` of a decimal character is its numeric value `c - '0'`, so a digit 1..9 for every decimal character except `0` |
| Boards.ParseTile | src/board.rs:16-22 | a character yields a tile exactly when it is `.` or 1..9; `.` gives exactly `new_full_set()`, a digit d exactly `new_constant(d)`; `0` fails the `new_constant` check and anything else fails `unwrap` |
| Boards.ParseTiles | src/board.rs:14-23 | reading succeeds exactly when every character is `.` or 1..9, with one tile per character denoting it; otherwise it stops at the first bad character |
| Boards.NewFromStr | src/board.rs:13-27 | a board is built exactly when the text has at least 81 characters, all `.` or 1..9, and each of the 81 cells denotes its character; the first bad character is reported, and a short text only once every character is good |
| Boards.DenotesUnique | src/board.rs:16-22 | each good character stands for exactly one tile |
| Boards.TrailingCluesIgnored | src/board.rs:25 | good characters after the 81st do not change the board |
| Boards.ConstantsOf | src/board.rs:31-35 | the `values` vector holds exactly the values of the unit's constant tiles |
| Boards.RemoveAll | src/board.rs:37-41 | a set tile after removing each of the values keeps exactly its candidates outside them, and stays a well-formed set |
| Boards.ApplyUnit | src/board.rs:30-42 | in one unit, every set tile loses exactly the unit's constant values; constants and cells outside the unit are unchanged |
| Boards.SameUnitValues | src/board.rs:31-35 | a unit's constant values depend only on the constant tiles, which elimination never changes |
| Boards.ApplyUnits | src/board.rs:29-75 | running units in turn keeps every constant, keeps every set a set, only shrinks candidate sets, and keeps tiles well formed |
| Boards.ApplyConstraints | src/board.rs:29-75 | constants are untouched; each set tile keeps exactly its old candidates minus the values of the constants in its row, column and box; tiles stay well formed |
| Boards.ApplyUnitsCover | src/board.rs:29-75 | after a sequence of units, a set tile has lost exactly the constant values of the units that hold it |
| Boards.InCover | src/board.rs:29-75 | a value is removed from a cell exactly when some unit holding the cell has a constant with that value |
| Boards.CoverIsPeers | src/board.rs:29-75 | over the 27 units, the values removed from a cell are exactly the values of its peers' constants |
| Boards.PeerExclusion | src/board.rs:30-74 | after the pass, no set tile keeps the value of a constant in its row, its column or its box |
| Boards.ApplyConstraintsIdempotent | src/board.rs:29-75 | running the pass twice gives the same board as running it once, and its result can be passed through again |
| Boards.ValidInRange | src/board.rs:37-41 | on a board of well-formed tiles, every value passed to `set_remove` is in 1..9 |
| Boards.ParsedBoardPropagates | src/board.rs:13-41 | every board read from text satisfies the pass's range requirement, and its tiles stay well formed through it |
| Boards.EmptiedSet | src/board.rs:29-75 | a parsed board whose top-left cell sees all nine digits comes out with that cell an empty set of length 0, with no error |

## Left out

- src/main.rs: argument parsing and printing are I/O. It also calls `new_from_string`, a fallible `apply_constraints` and `solve`, and reads the fields `tried_values` and `field_attempts` of the result. src/board.rs defines none of these.
- Backtracking search, a fixed-point propagation loop and contradiction reporting: none of them is in src/board.rs or src/tile.rs.
- `Display for Board` (src/board.rs:78-82): formatting is delegated to nalgebra.
- nalgebra's `MatrixMN`, `from_vec`, `row_iter_mut`, `column_iter_mut`, `slice_mut` and `impl Scalar for Tile`: the board is the 81-tile sequence in `from_vec`'s column-major storage order, and each unit is the list of storage indices the corresponding iterator visits. nalgebra's source is not part of this model: `from_vec` is taken to fill the 81 cells from the first 81 tiles, ignore any further ones, and panic on fewer.
- Release builds, where `debug_assert!` is skipped: every assertion is a precondition or, in parsing, a `Failure`. So the model does not describe, for example, `set_remove(0)` clearing bit 0, or `new_constant(0)` in release mode.
- The in-place mutation of `&mut self`: each mutating method is a function returning the new tile or board.
- `derive(Debug, Clone, PartialEq, Eq)`: equality of tiles is datatype equality of the word.
