/** The board of the Minesweeper engine (the "Core" section of mine.py): a
    `GameSpace` places its mines by rejection sampling, derives for every
    cell the number of mines around it, and renders itself as text.

    The random number generator is injected: `draws` is the stream of values
    `randrange(size)` would return, consumed one per iteration of the
    placement loop. */
module Core {
  import opened Util

  /** Number of `true` entries in a list. */
  function CountTrue(s: seq<bool>): nat {
    if s == [] then 0 else (if s[0] then 1 else 0) + CountTrue(s[1..])
  }

  /** Number of `true` cells in a grid, row by row. */
  function CountGrid(rows: seq<seq<bool>>): nat {
    if rows == [] then 0 else CountGrid(rows[..|rows| - 1]) + CountTrue(rows[|rows| - 1])
  }

  /** The distinct values among the draws. */
  ghost function Distinct(draws: seq<int>): set<int> {
    set d | d in draws
  }

  /** A draw adds a distinct value exactly when it has not been drawn before. */
  lemma DistinctSnoc(s: seq<int>, x: int)
    ensures |Distinct(s + [x])| == |Distinct(s)| + (if x in s then 0 else 1)
  {
    assert Distinct(s + [x]) == Distinct(s) + {x};
  }

  lemma {:induction false} CountTrueAppend(a: seq<bool>, b: seq<bool>)
    ensures CountTrue(a + b) == CountTrue(a) + CountTrue(b)
  {
    if a == [] {
      assert a + b == b;
    } else {
      assert (a + b)[0] == a[0];
      assert (a + b)[1..] == a[1..] + b;
      CountTrueAppend(a[1..], b);
    }
  }

  lemma {:induction false} CountTrueNone(s: seq<bool>)
    requires forall k :: 0 <= k < |s| ==> !s[k]
    ensures CountTrue(s) == 0
  {
    if s != [] {
      CountTrueNone(s[1..]);
    }
  }

  /** Setting an entry to `true` adds one to the count if it was `false`,
      and changes nothing if it already was `true`. */
  lemma {:induction false} CountTrueSet(s: seq<bool>, p: int)
    requires 0 <= p < |s|
    ensures CountTrue(s[p := true]) == CountTrue(s) + (if s[p] then 0 else 1)
  {
    if p > 0 {
      assert s[p := true][1..] == s[1..][p - 1 := true];
      CountTrueSet(s[1..], p - 1);
    }
  }

  /** Counting a grid is counting its rows laid end to end. */
  lemma {:induction false} CountGridFlatten(rows: seq<seq<bool>>)
    ensures CountGrid(rows) == CountTrue(Flatten(rows))
  {
    if rows != [] {
      CountGridFlatten(rows[..|rows| - 1]);
      CountTrueAppend(Flatten(rows[..|rows| - 1]), rows[|rows| - 1]);
    }
  }

  /** The mines adjacent to (l, c) on a `line` x `col` board. */
  ghost function MinesAround(mines: seq<seq<bool>>, line: int, col: int, l: int, c: int): nat
    requires 0 <= line && IsGrid(mines, line, col)
  {
    |Surrounding(mines, line, col, true, l, c, 0, 0)|
  }

  lemma {:induction false} SetOfSeqSize<T>(s: seq<T>)
    ensures |set x | x in s| <= |s|
  {
    if s != [] {
      SetOfSeqSize(s[1..]);
      assert (set x | x in s) == (set x | x in s[1..]) + {s[0]};
    }
  }

  lemma SubsetSize<T>(a: set<T>, b: set<T>)
    requires a <= b
    ensures |a| <= |b|
  {
    assert b == a + (b - a);
    assert a * (b - a) == {};
  }

  /** A cell has at most eight mines around it. */
  lemma MinesAroundAtMost8(mines: seq<seq<bool>>, line: int, col: int, l: int, c: int)
    requires 0 <= line && IsGrid(mines, line, col)
    ensures MinesAround(mines, line, col, l, c) <= 8
  {
    NeighboursAreAdjacent(l, c);
    SurroundingIsListed(mines, line, col, true, l, c, 0, 0);
    SetOfSeqSize(Neighbours(l, c));
    SubsetSize(Surrounding(mines, line, col, true, l, c, 0, 0), set p | p in Neighbours(l, c));
  }

  /** A cell's count is zero exactly when none of its neighbours on the board is a mine. */
  lemma MinesAroundZero(mines: seq<seq<bool>>, line: int, col: int, l: int, c: int)
    requires 0 <= line && IsGrid(mines, line, col)
    ensures MinesAround(mines, line, col, l, c) == 0 <==>
            forall l', c' :: 0 <= l' < line && 0 <= c' < col && Adjacent((l', c'), (l, c)) ==> !mines[l'][c']
  {
    var s := Surrounding(mines, line, col, true, l, c, 0, 0);
    forall l', c' | 0 <= l' < line && 0 <= c' < col && Adjacent((l', c'), (l, c)) && mines[l'][c']
      ensures (l', c') in s
    {
    }
    if s != {} {
      var p :| p in s;
      assert 0 <= p.0 < line && 0 <= p.1 < col && Adjacent(p, (l, c)) && mines[p.0][p.1];
    }
  }

  /** The cell itself is not counted: whether (l, c) holds a mine does not
      change the count at (l, c). */
  lemma MinesAroundIgnoresCentre(mines: seq<seq<bool>>, line: int, col: int, l: int, c: int, b: bool)
    requires 0 <= line && IsGrid(mines, line, col)
    requires 0 <= l < line && 0 <= c < col
    ensures IsGrid(mines[l := mines[l][c := b]], line, col)
    ensures MinesAround(mines[l := mines[l][c := b]], line, col, l, c) == MinesAround(mines, line, col, l, c)
  {
    var m := mines[l := mines[l][c := b]];
    assert Surrounding(m, line, col, true, l, c, 0, 0) == Surrounding(mines, line, col, true, l, c, 0, 0);
  }

  /** Entry `p` of the flat mine list is set exactly when `p` was drawn. */
  ghost predicate Tracks(flat: seq<bool>, drawn: seq<int>) {
    forall p :: 0 <= p < |flat| ==> (flat[p] <==> p in drawn)
  }

  /** One iteration of the placement loop: drawing `pos` and setting entry
      `pos` keeps the list in step with the draws, and keeps the number of
      mines equal to the number of distinct cells drawn. The entry was
      already set exactly when `pos` had been drawn before, and then the
      list does not change. */
  lemma PlaceStep(flat: seq<bool>, drawn: seq<int>, pos: int)
    requires 0 <= pos < |flat| && Tracks(flat, drawn)
    requires CountTrue(flat) == |Distinct(drawn)|
    ensures flat[pos] <==> pos in drawn
    ensures flat[pos] ==> flat[pos := true] == flat
    ensures Tracks(flat[pos := true], drawn + [pos])
    ensures CountTrue(flat[pos := true]) == |Distinct(drawn + [pos])| == CountTrue(flat) + (if flat[pos] then 0 else 1)
  {
    CountTrueSet(flat, pos);
    DistinctSnoc(drawn, pos);
  }

  /** A `line` x `col` grid with a mine at (l, c) exactly when index
      `l * col + c` is among the cells drawn. */
  ghost predicate PlacedBy(mines: seq<seq<bool>>, line: int, col: int, drawn: seq<int>) {
    && IsGrid(mines, line, col)
    && forall l, c :: 0 <= l < line && 0 <= c < col ==>
         0 <= l * col + c < line * col && (mines[l][c] <==> l * col + c in drawn)
  }

  /** Every mine placed from a prefix of the draws lies on a drawn cell. */
  lemma PlacedOnDraws(mines: seq<seq<bool>>, line: int, col: int, draws: seq<int>, used: nat)
    requires used <= |draws| && PlacedBy(mines, line, col, draws[..used])
    ensures forall l, c :: 0 <= l < line && 0 <= c < col && mines[l][c] ==> l * col + c in draws
  {
  }

  /** The grid that gen_mines_position returns: cell (l, c) is element
      `l * col + c` of the flat list, a mine exactly when that index was drawn,
      and the grid holds as many mines as the list. */
  lemma MinesFromList(flat: seq<bool>, line: int, col: int, rows: seq<seq<bool>>, placed: seq<int>)
    requires Reshapes(flat, col, rows) && 0 <= line && |flat| == line * col
    requires Tracks(flat, placed)
    ensures CountGrid(rows) == CountTrue(flat)
    ensures PlacedBy(rows, line, col, placed)
  {
    ReshapeIsGrid(flat, col, line, rows);
    CountGridFlatten(rows);
  }

  // ----- rendering -----

  /** The decimal digit of a number below ten, as `str` writes it. */
  function Digit(t: int): (ch: char)
    requires 0 <= t <= 9
    ensures '0' <= ch <= '9' && ch as int - '0' as int == t
  {
    ('0' as int + t) as char
  }

  /** How one cell is shown: a star for a mine, otherwise its count. */
  function CellChar(isMine: bool, tip: int): (ch: char)
    requires isMine || 0 <= tip <= 9
    ensures ch == '*' <==> isMine
    ensures !isMine ==> ch as int - '0' as int == tip
  {
    if isMine then '*' else Digit(tip)
  }

  /** Mines and tips have the same `col`-wide rows, and every tip that is
      shown (one not under a mine) is a single digit. */
  predicate Printable(mines: seq<seq<bool>>, tips: seq<seq<int>>, col: nat) {
    |mines| == |tips|
    && (forall l :: 0 <= l < |mines| ==> |mines[l]| == col && |tips[l]| == col)
    && forall l, c :: 0 <= l < |mines| && 0 <= c < col ==> mines[l][c] || 0 <= tips[l][c] <= 9
  }

  function RowText(mines: seq<seq<bool>>, tips: seq<seq<int>>, col: nat, l: int): string
    requires Printable(mines, tips, col) && 0 <= l < |mines|
  {
    seq(col, c requires 0 <= c < col => CellChar(mines[l][c], tips[l][c]))
  }

  /** The text of the first `n` rows, separated by newlines. */
  function RenderRows(mines: seq<seq<bool>>, tips: seq<seq<int>>, col: nat, n: nat): string
    requires Printable(mines, tips, col) && n <= |mines|
  {
    if n == 0 then ""
    else if n == 1 then RowText(mines, tips, col, 0)
    else RenderRows(mines, tips, col, n - 1) + "\n" + RowText(mines, tips, col, n - 1)
  }

  /** Where column `c` of row `l` sits in the text of a board `col` cells
      wide: each row takes `col` characters and a newline. */
  function CellIndex(l: int, c: int, col: int): int {
    l * (col + 1) + c
  }

  lemma MulSucc(a: int, w: int)
    ensures (a + 1) * w == a * w + w
  {
  }

  /** Rendering `n > 0` rows of `col` cells gives one character per cell
      plus `n - 1` newlines. */
  lemma {:induction false} RenderRowsLength(mines: seq<seq<bool>>, tips: seq<seq<int>>, col: nat, n: nat)
    requires Printable(mines, tips, col) && 0 < n <= |mines|
    ensures |RenderRows(mines, tips, col, n)| == n * (col + 1) - 1
  {
    if n > 1 {
      RenderRowsLength(mines, tips, col, n - 1);
      assert n * (col + 1) == (n - 1) * (col + 1) + col + 1;
    }
  }

  /** Row `l` occupies `col` characters starting at `l * (col + 1)`; the
      character after it is a newline unless `l` is the last row. */
  lemma {:induction false} RenderRowsAt(mines: seq<seq<bool>>, tips: seq<seq<int>>, col: nat, n: nat, l: int, c: int)
    requires Printable(mines, tips, col) && 0 < n <= |mines|
    requires 0 <= l < n && 0 <= c <= col && (c == col ==> l < n - 1)
    ensures |RenderRows(mines, tips, col, n)| == n * (col + 1) - 1
    ensures 0 <= CellIndex(l, c, col) < n * (col + 1) - 1
    ensures RenderRows(mines, tips, col, n)[CellIndex(l, c, col)]
            == if c == col then '\n' else CellChar(mines[l][c], tips[l][c])
  {
    var w := col + 1;
    var text, i := RenderRows(mines, tips, col, n), CellIndex(l, c, col);
    RenderRowsLength(mines, tips, col, n);
    if n == 1 {
      assert i == c;
    } else {
      var prev, row := RenderRows(mines, tips, col, n - 1), RowText(mines, tips, col, n - 1);
      assert text == prev + "\n" + row;
      assert |prev| == (n - 1) * w - 1 by {
        RenderRowsLength(mines, tips, col, n - 1);
      }
      if l == n - 1 {
        assert i == |prev| + 1 + c;
        assert text[i] == row[c];
      } else if c < col || l < n - 2 {
        RenderRowsAt(mines, tips, col, n - 1, l, c);
        assert text[i] == prev[i];
      } else {
        assert i == |prev| by {
          MulSucc(n - 2, w);
        }
      }
    }
  }

  /** The whole text: one character per cell at its `CellIndex`, a star
      exactly where there is a mine and the digit of the tip elsewhere, a
      newline after every row but the last, and nothing else. */
  lemma RenderShape(mines: seq<seq<bool>>, tips: seq<seq<int>>, col: nat)
    requires Printable(mines, tips, col)
    ensures |RenderRows(mines, tips, col, |mines|)| == if |mines| == 0 then 0 else |mines| * (col + 1) - 1
    ensures forall l, c :: 0 <= l < |mines| && 0 <= c < col ==>
              0 <= CellIndex(l, c, col) < |RenderRows(mines, tips, col, |mines|)|
              && RenderRows(mines, tips, col, |mines|)[CellIndex(l, c, col)] == CellChar(mines[l][c], tips[l][c])
    ensures forall l :: 0 <= l < |mines| - 1 ==>
              0 <= CellIndex(l, col, col) < |RenderRows(mines, tips, col, |mines|)|
              && RenderRows(mines, tips, col, |mines|)[CellIndex(l, col, col)] == '\n'
  {
    var n := |mines|;
    if n > 0 {
      RenderRowsLength(mines, tips, col, n);
      forall l, c | 0 <= l < n && 0 <= c <= col && (c == col ==> l < n - 1)
        ensures 0 <= CellIndex(l, c, col) < |RenderRows(mines, tips, col, n)|
        ensures RenderRows(mines, tips, col, n)[CellIndex(l, c, col)]
                == if c == col then '\n' else CellChar(mines[l][c], tips[l][c])
      {
        RenderRowsAt(mines, tips, col, n, l, c);
      }
    }
  }

  // ----- GameSpace -----

  /** A board of `line` x `col` cells holding `mineCount` mines. Python keeps
      the grids as lists of lists; here they are values the constructor
      assigns once. */
  class GameSpace {
    var line: int
    var col: int
    var mineCount: int
    var size: int
    var arrMines: seq<seq<bool>>
    var arrTips: seq<seq<int>>
    /** How many draws the placement loop consumed. */
    ghost var used: nat

    /** The board invariant established by the constructor. */
    ghost predicate Valid()
      reads this
    {
      && 0 <= line && 0 < col && size == line * col
      && 0 <= mineCount <= size
      && IsGrid(arrMines, line, col) && IsGrid(arrTips, line, col)
      && CountGrid(arrMines) == mineCount
      && forall l, c :: 0 <= l < line && 0 <= c < col ==>
           arrTips[l][c] == MinesAround(arrMines, line, col, l, c) && 0 <= arrTips[l][c] <= 8
    }

    /** Builds the board from the stream of draws. The stream must hold at
        least `mineCount` distinct cells: that is the point at which the
        rejection loop stops. */
    constructor (line: int, col: int, mineCount: int, draws: seq<int>)
      requires 0 <= line && 0 < col && 0 <= mineCount <= line * col
      requires forall k :: 0 <= k < |draws| ==> 0 <= draws[k] < line * col
      requires mineCount <= |Distinct(draws)|
      ensures Valid()
      ensures this.line == line && this.col == col && this.mineCount == mineCount
      ensures used <= |draws| && |Distinct(draws[..used])| == mineCount
      ensures used > 0 ==> draws[used - 1] !in draws[..used - 1]
      ensures PlacedBy(arrMines, line, col, draws[..used])
      ensures forall l, c :: 0 <= l < line && 0 <= c < col && arrMines[l][c] ==> l * col + c in draws
    {
      this.line := line;
      this.col := col;
      this.mineCount := mineCount;
      size := line * col;
      new;
      var mines, consumed := GenMinesPosition(draws);
      arrMines := mines;
      used := consumed;
      arrTips := GenTipsArray();
      PlacedOnDraws(arrMines, line, col, draws, used);
    }

    /** The placement loop on the flat `[False] * size` list: every draw
        that hits a free entry sets it, a draw that hits a set entry is
        ignored, and the loop stops at the `mineCount`-th mine. `used` is the
        number of draws consumed. */
    method PlaceMines(draws: seq<int>) returns (flat: seq<bool>, used: nat)
      requires 0 <= size && 0 <= mineCount <= size
      requires forall k :: 0 <= k < |draws| ==> 0 <= draws[k] < size
      requires mineCount <= |Distinct(draws)|
      ensures |flat| == size && CountTrue(flat) == mineCount
      ensures used <= |draws| && |Distinct(draws[..used])| == mineCount
      ensures used > 0 ==> draws[used - 1] !in draws[..used - 1]
      ensures Tracks(flat, draws[..used])
    {
      var listMines := new bool[size](_ => false);
      var remaining := mineCount;
      used := 0;
      ghost var drawn: seq<int> := [];
      flat := listMines[..];
      CountTrueNone(flat);
      assert draws[..|draws|] == draws;
      assert Distinct(drawn) == {};
      while remaining > 0
        invariant 0 <= used <= |draws| && 0 <= remaining
        invariant listMines.Length == size && listMines[..] == flat
        invariant drawn == draws[..used]
        invariant Tracks(flat, drawn)
        invariant CountTrue(flat) == |Distinct(drawn)| == mineCount - remaining
        invariant remaining == 0 && used > 0 ==> draws[used - 1] !in draws[..used - 1]
        decreases |draws| - used
      {
        assert used < |draws|;
        var pos := draws[used];
        PlaceStep(flat, drawn, pos);
        assert draws[..used + 1] == drawn + [pos];
        used := used + 1;
        if !listMines[pos] {
          listMines[pos] := true;
          remaining := remaining - 1;
        }
        flat, drawn := flat[pos := true], drawn + [pos];
        assert listMines[..] == flat;
      }
    }

    /** gen_mines_position: places the mines on the flat list, then cuts it
        into rows of `col` cells. */
    method GenMinesPosition(draws: seq<int>) returns (mines: seq<seq<bool>>, used: nat)
      requires 0 <= line && 0 < col && size == line * col && 0 <= mineCount <= size
      requires forall k :: 0 <= k < |draws| ==> 0 <= draws[k] < size
      requires mineCount <= |Distinct(draws)|
      ensures CountGrid(mines) == mineCount
      ensures used <= |draws| && |Distinct(draws[..used])| == mineCount
      ensures used > 0 ==> draws[used - 1] !in draws[..used - 1]
      ensures PlacedBy(mines, line, col, draws[..used])
    {
      var flat;
      flat, used := PlaceMines(draws);
      var r := GenArrayFromList(flat, col);
      mines := r.value;
      MinesFromList(flat, line, col, mines, draws[..used]);
    }

    /** Computes, for every cell (mine cells included), how many of its
        neighbours on the board are mines. */
    method GenTipsArray() returns (tips: seq<seq<int>>)
      requires 0 <= line && 0 <= col && IsGrid(arrMines, line, col)
      ensures IsGrid(tips, line, col)
      ensures forall l, c :: 0 <= l < line && 0 <= c < col ==>
                tips[l][c] == MinesAround(arrMines, line, col, l, c) && 0 <= tips[l][c] <= 8
    {
      tips := GenArray(line, col);
      for l := 0 to line
        invariant IsGrid(tips, line, col)
        invariant forall l', c :: 0 <= l' < l && 0 <= c < col ==>
                    tips[l'][c] == MinesAround(arrMines, line, col, l', c) && 0 <= tips[l'][c] <= 8
      {
        for c := 0 to col
          invariant IsGrid(tips, line, col)
          invariant forall l', c' :: 0 <= l' < l && 0 <= c' < col ==>
                      tips[l'][c'] == MinesAround(arrMines, line, col, l', c') && 0 <= tips[l'][c'] <= 8
          invariant forall c' :: 0 <= c' < c ==>
                      tips[l][c'] == MinesAround(arrMines, line, col, l, c') && 0 <= tips[l][c'] <= 8
        {
          var n := CountValueSurrounding(arrMines, line, col, true, l, c, 0, 0);
          tips := tips[l := tips[l][c := n]];
        }
      }
    }

    /** A valid board can be rendered: the grids have `line` rows of `col`
        cells and every hint is a single digit. */
    lemma ValidIsPrintable()
      requires Valid()
      ensures 0 <= line && 0 <= col && |arrMines| == line && Printable(arrMines, arrTips, col)
    {
    }

    /** The board as text: one character per cell, rows separated by a
        newline and no newline after the last row. It needs only grids of
        matching shape whose shown hints are single digits, which
        `ValidIsPrintable` gives for every valid board. */
    method Str() returns (s: string)
      requires 0 <= line && 0 <= col && |arrMines| == line && Printable(arrMines, arrTips, col)
      ensures Printable(arrMines, arrTips, col)
      ensures s == RenderRows(arrMines, arrTips, col, line)
      ensures |s| == if line == 0 then 0 else line * (col + 1) - 1
      ensures forall l, c :: 0 <= l < line && 0 <= c < col ==>
                0 <= CellIndex(l, c, col) < |s| && s[CellIndex(l, c, col)] == CellChar(arrMines[l][c], arrTips[l][c])
      ensures forall l :: 0 <= l < line - 1 ==>
                0 <= CellIndex(l, col, col) < |s| && s[CellIndex(l, col, col)] == '\n'
    {
      s := "";
      for l := 0 to line
        invariant s == RenderRows(arrMines, arrTips, col, l) + (if 0 < l < line then "\n" else "")
      {
        ghost var start := s;
        ghost var row := RowText(arrMines, arrTips, col, l);
        for c := 0 to col
          invariant s == start + row[..c]
        {
          if arrMines[l][c] {
            s := s + "*";
          } else {
            s := s + [Digit(arrTips[l][c])];
          }
          assert row[..c + 1] == row[..c] + [row[c]];
        }
        assert row[..col] == row;
        if l < line - 1 {
          s := s + "\n";
        }
      }
      RenderShape(arrMines, arrTips, col);
    }
  }
}
