# Minesweeper board construction, in Dafny

This project models the board-construction engine of the `python-mine`
Minesweeper game (`mine.py`). It has two parts:

- The three grid utilities:
  - `gen_array` builds a grid of zeros.
  - `gen_array_from_list` cuts a flat list into rows.
  - `count_value_surrounding` counts the neighbours of a cell that hold a value.
- The `GameSpace` class:
  - Its constructor places `mine_count` mines on a `line` x `col` board by
    rejection sampling (`gen_mines_position`).
  - It then computes, for every cell, how many of the neighbouring cells hold
    a mine (`gen_tips_array`).
  - `__str__` renders the board as text.

The files:

- `util.dfy` (module `Util`) holds the utilities.
- `core.dfy` (module `Core`) holds `GameSpace` and the functions and lemmas
  that specify it.

A grid in Python is a list of lists. Here it is a `seq<seq<T>>` value, and
`gen_tips_array`'s writes `tips[l][c] = …` become reassignments of that value.
The flat `[False] * size` list that the placement loop changes in place is an
`array<bool>`.

`randrange(size)` is replaced by an injected stream `draws: seq<int>`. Each
value in it lies in `[0, size)`, and each loop iteration consumes one. The
Python loop ends only with probability one. The model therefore requires
that the stream hold at least `mine_count` distinct cells, which is exactly
the condition for the loop to stop within the stream. The method returns how
many draws it used.

Code comments that the code does not carry out are not modelled. At
mine.py:72 a comment says a mine cell holds 9 in the hint grid. The code
instead stores the neighbour count at every cell, mine cells included. The
model follows the code: every hint, including one under a mine, lies in
0..8. The text rendering is unaffected, because it checks for a mine before
it reads the hint.

## Model

| member | source | states |
|---|---|---|
| `Util.GenArray` | mine.py:14-19 | The result has `line` rows of `col` entries (a negative count gives none, as with `range` and list repetition), and every entry is 0. |
| `Util.GenArrayFromList` | mine.py:22-27 | With `col == 0` there is no result (Python's `range` raises ValueError). With `col < 0` there are no rows. With `col > 0` the rows cut the list into consecutive pieces: row `i` starts at element `i * col` and has `min(col, n - i*col)` elements, element `j` of row `i` is element `i*col + j` of the list, there are ceil(n / col) rows, and the rows laid end to end give back the list. |
| `Util.ReshapeIsGrid` | mine.py:22-27 | When the list holds `line * col` elements, the rows form a `line` x `col` grid with `rows[l][c] == lst[l*col + c]`. |
| `Util.NeighboursAreAdjacent` | mine.py:33-36 | The eight positions the count visits are pairwise distinct, and a position is among them exactly when it touches the centre by a side or a corner and is not the centre itself. |
| `Util.SurroundingIsListed` | mine.py:33-38 | The adjacent in-window positions holding `value` are exactly the listed neighbours that pass the bounds-and-value test. |
| `Util.CountValueSurrounding` | mine.py:31-40 | The count equals the number of positions adjacent to `(pos_l, pos_c)` that lie in `[min_l, line) x [min_c, col)` and hold `value`, and it is at most 8. |
| `Core.GameSpace.constructor` | mine.py:48-57 | The new board keeps `line`, `col` and `mine_count`, and `size == line * col`. Both grids are `line` x `col`. Exactly `mine_count` cells hold a mine. The ghost field `used` records how many draws the placement consumed: those draws hold exactly `mine_count` distinct cells, the last of them was a fresh cell, and cell `(l, c)` holds a mine exactly when `l*col + c` is among them. Every hint equals the number of adjacent mines and lies in 0..8. |
| `Core.GameSpace.PlaceMines` | mine.py:62-68 | The flat list has `size` entries, exactly `mine_count` of them set. Entry `p` is set exactly when `p` is among the draws consumed. The consumed draws hold exactly `mine_count` distinct cells, and the last one consumed was a fresh cell, so the loop stops at the `mine_count`-th mine. |
| `Core.PlaceStep` | mine.py:64-68 | One iteration: entry `pos` was already set exactly when `pos` had been drawn before, and then the list is unchanged. Setting it keeps the list in step with the draws, and the number of set entries equal to the number of distinct cells drawn. |
| `Core.GameSpace.GenMinesPosition` | mine.py:61-69 | The result is a `line` x `col` grid with exactly `mine_count` mines. Cell `(l, c)` holds a mine exactly when index `l*col + c` is among the draws consumed. The consumed draws hold exactly `mine_count` distinct cells, and the last one consumed was a fresh cell. |
| `Core.PlacedOnDraws` | mine.py:65-69 | When the mines are exactly the cells of a prefix of the draws, every mine lies on a cell that was drawn. |
| `Core.CountTrueSet` | mine.py:65-68 | Setting an entry to True adds one to the number of True entries if it was False and changes nothing if it was already True. This is the step that keeps `(True cells) + remaining_mines == mine_count`. |
| `Core.DistinctSnoc` | mine.py:65-68 | A draw adds one to the number of distinct cells drawn exactly when that cell was not drawn before. Alongside `CountTrueSet`, this keeps the number of distinct cells drawn, plus `remaining_mines`, equal to `mine_count`. |
| `Core.MinesFromList` | mine.py:69 | Reshaping the flat mine list gives a `line` x `col` grid with as many mines as the list and a mine at `(l, c)` exactly when index `l*col + c` was drawn. |
| `Core.CountGridFlatten` | mine.py:69 | The number of mines in a grid equals the number of True entries in its rows laid end to end. |
| `Core.GameSpace.GenTipsArray` | mine.py:73-78 | The result is a `line` x `col` grid. Every cell, mine cells included, holds the number of mines adjacent to it on the board, which lies in 0..8. |
| `Core.MinesAroundAtMost8` | mine.py:73-78 | No cell has more than eight adjacent mines. |
| `Core.MinesAroundZero` | mine.py:77 | A cell's hint is 0 exactly when none of its on-board neighbours is a mine (both directions). |
| `Core.MinesAroundIgnoresCentre` | mine.py:77 | The centre is not counted: putting a mine on `(l, c)` or removing one leaves the hint at `(l, c)` unchanged. |
| `Core.CellChar` | mine.py:85-88 | A cell shows `*` exactly when it holds a mine. Otherwise it shows the decimal digit of its hint. |
| `Core.GameSpace.ValidIsPrintable` | mine.py:81-91 | Every board the constructor builds can be rendered: both grids have `line` rows of `col` cells, and every hint is a single digit. |
| `Core.GameSpace.Str` | mine.py:81-91 | It needs only grids of matching shape whose shown hints are single digits. The text is the rendering of the board's rows. It holds `line*col + line - 1` characters (none when `line == 0`). Column `c` of row `l` sits at `l*(col+1) + c` and shows `*` or the hint digit. After every row but the last comes a newline. |
| `Core.RenderShape` | mine.py:81-91 | For any printable pair of grids, the rendered text has the length and the per-position contents described for `Str`. |
| `Core.RenderRowsLength` | mine.py:83-90 | Rendering `n > 0` rows of `col` cells gives `n*(col+1) - 1` characters. |
| `Core.RenderRowsAt` | mine.py:83-90 | In the rendering of `n` rows, position `l*(col+1) + c` holds the character of cell `(l, c)`, and position `l*(col+1) + col` holds a newline when `l < n - 1`. |

## Left out

- The module-level demo (mine.py:98-99) builds one board and prints it. That is I/O.
- `freeze.py` packages the game with py2exe. It contains no logic.
- `CellMark` (mine.py:6-9) is declared but used nowhere in the code.
- Flagging, revealing, flood fill, chord reveal and win/lose states do not exist in `mine.py`, so they are not modelled.
- `randrange`: the injected draw stream stands for it. Uniformity of the placement is a probabilistic property and is not stated.
- Core.GameSpace.constructor: requires `0 <= line` and `0 < col`. Python's behaviour outside that range, case by case:
  - `col == 0`: `size` is 0. With mines requested, `randrange(0)` raises ValueError. With none, `gen_array_from_list` raises ValueError (a `range` step of 0).
  - Exactly one of `line` and `col` negative, with mines requested: `size` is at most 0, so `randrange(size)` raises ValueError.
  - `line > 0`, `col < 0`, no mines: `arr_mines` is `[]` while `arr_tips` has `line` empty rows. `__str__` then prints `line - 1` newlines.
  - `line == 0`, `col < 0`, no mines: both grids are empty and `__str__` returns the empty string.
  - `line < 0`, `col > 0`, no mines: both grids are empty.
  - Both negative: `size` is positive and the mines are drawn into the flat list. `gen_array_from_list` then gives no rows (a negative step), so both grids are empty.
- Core.GameSpace.constructor: requires `0 <= mineCount <= line * col`, the hypothesis stated in the comment at mine.py:60. A negative `mine_count` gives a board with no mines that still records the negative count. A `mine_count` above a positive `size` makes the placement loop run forever. A positive `mine_count` with `size == 0` makes `randrange(0)` raise ValueError.
- Core.GameSpace.constructor: the Python loop may never stop. The model requires the draw stream to contain at least `mine_count` distinct cells, so it covers only the runs that terminate.
- Util.CountValueSurrounding: requires `min_l` and `min_c` to be non-negative. Python would let a negative index wrap to the end of a list.
- Util.CountValueSurrounding: requires the grid to cover the whole window `[min_l, line) x [min_c, col)`. Python raises IndexError only when it actually reads a missing cell.
- Python's unbounded integers are modelled as Dafny `int`. No code here depends on a machine width.
