/** The grid utilities of the Minesweeper engine (the "Util" section of mine.py).

    A grid is a list of rows, modelled as `seq<seq<T>>`; a position on it is a
    (line, column) pair. Python's `range` and list repetition treat a negative
    count as zero, and the model does the same. */
module Util {

  datatype Option<T> = None | Some(value: T)

  function Max0(n: int): nat { if n > 0 then n else 0 }

  function Min(a: int, b: int): int { if a < b then a else b }

  /** `a` has exactly `line` rows of exactly `col` entries each. */
  predicate IsGrid<T>(a: seq<seq<T>>, line: int, col: int) {
    |a| == line && forall l :: 0 <= l < |a| ==> |a[l]| == col
  }

  /** The rows of a grid laid end to end, first row first. */
  function Flatten<T>(rows: seq<seq<T>>): seq<T> {
    if rows == [] then [] else Flatten(rows[..|rows| - 1]) + rows[|rows| - 1]
  }

  // ----- multiplication facts for row offsets -----

  lemma {:induction false} MulLe(a: int, b: int, k: nat)
    requires a <= b
    ensures a * k <= b * k
  {
    if k > 0 {
      MulLe(a, b, k - 1);
      assert a * k == a * (k - 1) + a && b * k == b * (k - 1) + b;
    }
  }

  lemma MulLess(a: int, b: int, k: int)
    requires 0 < k
    ensures a < b <==> a * k < b * k
  {
    if a < b {
      MulLe(a + 1, b, k);
      assert (a + 1) * k == a * k + k;
    } else {
      MulLe(b, a, k);
    }
  }

  // ----- gen_array -----

  /** A grid of `line` rows of `col` zeros. */
  method GenArray(line: int, col: int) returns (a: seq<seq<int>>)
    ensures IsGrid(a, Max0(line), Max0(col))
    ensures forall l, c :: 0 <= l < |a| && 0 <= c < |a[l]| ==> a[l][c] == 0
  {
    a := [];
    var x := 0;
    while x < line
      invariant x == |a| <= Max0(line)
      invariant forall l :: 0 <= l < |a| ==> a[l] == seq(Max0(col), _ => 0)
    {
      var row := seq(Max0(col), _ => 0);
      a := a + [row];
      x := x + 1;
    }
  }

  // ----- gen_array_from_list -----

  /** `rows` cuts `lst` into consecutive pieces of `col` elements, the last
      piece holding what is left over: row `i` starts at element `i * col`. */
  ghost predicate Reshapes<T>(lst: seq<T>, col: int, rows: seq<seq<T>>) {
    && 0 < col
    && Flatten(rows) == lst
    && (|rows| - 1) * col < |lst| <= |rows| * col
    && forall i :: 0 <= i < |rows| ==>
         && 0 <= i * col < |lst|
         && |rows[i]| == Min(col, |lst| - i * col)
         && forall j :: 0 <= j < |rows[i]| ==> rows[i][j] == lst[i * col + j]
  }

  /** Cuts `lst` into rows of `col` elements. A zero step makes Python's
      `range` raise ValueError, modelled as `None`; a negative step gives an
      empty range, hence no rows. */
  method GenArrayFromList<T>(lst: seq<T>, col: int) returns (r: Option<seq<seq<T>>>)
    ensures r.None? <==> col == 0
    ensures col < 0 ==> r == Some([])
    ensures col > 0 ==> r.Some? && Reshapes(lst, col, r.value)
  {
    if col == 0 {
      return None;
    }
    var rows: seq<seq<T>> := [];
    if col < 0 {
      return Some(rows);
    }
    var x := 0;
    while x < |lst|
      invariant 0 <= x == |rows| * col
      invariant x - col < |lst|
      invariant Flatten(rows) == lst[..Min(x, |lst|)]
      invariant forall i :: 0 <= i < |rows| ==>
                  && 0 <= i * col < |lst|
                  && |rows[i]| == Min(col, |lst| - i * col)
                  && forall j :: 0 <= j < |rows[i]| ==> rows[i][j] == lst[i * col + j]
      decreases |lst| - x
    {
      var row := lst[x..Min(col + x, |lst|)];
      assert lst[..Min(x + col, |lst|)] == lst[..x] + row;
      ghost var prev := rows;
      assert (|prev| + 1) * col == x + col;
      rows := rows + [row];
      assert rows[..|prev|] == prev;
      x := x + col;
    }
    assert lst[..Min(x, |lst|)] == lst;
    return Some(rows);
  }

  /** When `col` divides the length of the list, the rows form a full grid and
      the cell in row `i`, column `j` is element `i * col + j` of the list. */
  lemma ReshapeIsGrid<T>(lst: seq<T>, col: int, line: int, rows: seq<seq<T>>)
    requires Reshapes(lst, col, rows) && 0 <= line && |lst| == line * col
    ensures IsGrid(rows, line, col)
    ensures forall l, c :: 0 <= l < line && 0 <= c < col ==> 0 <= l * col + c < |lst| && rows[l][c] == lst[l * col + c]
  {
    MulLess(|rows| - 1, line, col);
    MulLess(|rows|, line, col);
    forall i | 0 <= i < |rows| ensures |rows[i]| == col {
      MulLess(line, i + 1, col);
      assert (i + 1) * col == i * col + col;
    }
  }

  // ----- count_value_surrounding -----

  /** The eight positions around (pl, pc), in the order mine.py visits them. */
  function Neighbours(pl: int, pc: int): seq<(int, int)> {
    [(pl - 1, pc - 1), (pl - 1, pc), (pl - 1, pc + 1),
     (pl, pc - 1), (pl, pc + 1),
     (pl + 1, pc - 1), (pl + 1, pc), (pl + 1, pc + 1)]
  }

  /** p touches q by a side or a corner, and is not q itself. */
  predicate Adjacent(p: (int, int), q: (int, int)) {
    p != q && q.0 - 1 <= p.0 <= q.0 + 1 && q.1 - 1 <= p.1 <= q.1 + 1
  }

  lemma NeighboursAreAdjacent(pl: int, pc: int)
    ensures |Neighbours(pl, pc)| == 8
    ensures forall p :: p in Neighbours(pl, pc) <==> Adjacent(p, (pl, pc))
    ensures forall i, j :: 0 <= i < j < 8 ==> Neighbours(pl, pc)[i] != Neighbours(pl, pc)[j]
  {
  }

  /** The window [minL, line) x [minC, col) that count_value_surrounding
      looks into: it needs the rows and columns of that window to exist. */
  predicate Covers<T>(a: seq<seq<T>>, line: int, col: int, minL: int, minC: int) {
    0 <= minL && 0 <= minC && (minL < line ==> line <= |a|)
    && forall l :: minL <= l < line ==> col <= |a[l]|
  }

  /** Position p lies inside the window [minL, line) x [minC, col) and holds `value`. */
  predicate Holds<T(==)>(a: seq<seq<T>>, line: int, col: int, value: T, minL: int, minC: int, p: (int, int))
    requires Covers(a, line, col, minL, minC)
  {
    minL <= p.0 < line && minC <= p.1 < col && a[p.0][p.1] == value
  }

  /** The positions adjacent to (pl, pc) inside the window that hold `value`. */
  ghost function Surrounding<T>(a: seq<seq<T>>, line: int, col: int, value: T,
                                   pl: int, pc: int, minL: int, minC: int): set<(int, int)>
    requires Covers(a, line, col, minL, minC)
  {
    set l: int, c: int | pl - 1 <= l <= pl + 1 && pc - 1 <= c <= pc + 1
                         && Adjacent((l, c), (pl, pc)) && Holds(a, line, col, value, minL, minC, (l, c)) :: (l, c)
  }

  lemma SurroundingIsListed<T>(a: seq<seq<T>>, line: int, col: int, value: T,
                                  pl: int, pc: int, minL: int, minC: int)
    requires Covers(a, line, col, minL, minC)
    ensures Surrounding(a, line, col, value, pl, pc, minL, minC)
            == set p | p in Neighbours(pl, pc) && Holds(a, line, col, value, minL, minC, p)
  {
    NeighboursAreAdjacent(pl, pc);
  }

  /** Looking at one more listed position adds it to the positions found
      exactly when it passes the test. */
  lemma ListedSnoc<T>(a: seq<seq<T>>, line: int, col: int, value: T, minL: int, minC: int,
                      s: seq<(int, int)>, x: (int, int))
    requires Covers(a, line, col, minL, minC)
    ensures (set p | p in s + [x] && Holds(a, line, col, value, minL, minC, p))
            == (set p | p in s && Holds(a, line, col, value, minL, minC, p))
               + (if Holds(a, line, col, value, minL, minC, x) then {x} else {})
  {
  }

  /** Counts the neighbours of (pl, pc) that lie inside the window and hold `value`. */
  method CountValueSurrounding<T(==)>(a: seq<seq<T>>, line: int, col: int, value: T,
                                     pl: int, pc: int, minL: int, minC: int) returns (count: nat)
    requires Covers(a, line, col, minL, minC)
    ensures count == |Surrounding(a, line, col, value, pl, pc, minL, minC)|
    ensures count <= 8
  {
    count := 0;
    var around := Neighbours(pl, pc);
    NeighboursAreAdjacent(pl, pc);
    ghost var seen: set<(int, int)> := {};
    for k := 0 to |around|
      invariant seen == set p | p in around[..k] && Holds(a, line, col, value, minL, minC, p)
      invariant count == |seen| <= k
    {
      var (l, c) := around[k];
      assert around[..k + 1] == around[..k] + [(l, c)];
      assert (l, c) !in around[..k];
      ListedSnoc(a, line, col, value, minL, minC, around[..k], (l, c));
      if l >= minL && l < line && c >= minC && c < col && a[l][c] == value {
        count := count + 1;
        seen := seen + {(l, c)};
      }
    }
    assert around[..|around|] == around;
    SurroundingIsListed(a, line, col, value, pl, pc, minL, minC);
  }
}
