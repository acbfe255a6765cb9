/** The 9 by 9 grid: which cells are neighbours, and the final check of a filled board. */
module SudokuGrid {
  import opened Sequences
  import opened SudokuSpec
  import Sets

  const ROW := 9
  const COL := 9
  const CELLS := 81
  const NUM := 9
  const NEIGHBOR := 20

  /** Two different cells in one row, one column or one box. */
  predicate Near(row: nat, col: nat, y: nat, x: nat) {
    y == row || x == col || (y / 3 == row / 3 && x / 3 == col / 3)
  }

  ghost predicate NearCell(c: nat, d: nat) {
    c != d && Near(c / 9, c % 9, d / 9, d % 9)
  }

  method MarkAdjacent(adjacent: array2<bool>, row: nat, col: nat)
    requires adjacent.Length0 == ROW && adjacent.Length1 == COL && row < ROW && col < COL
    requires forall y, x :: 0 <= y < ROW && 0 <= x < COL ==> !adjacent[y, x]
    modifies adjacent
    ensures forall y, x :: 0 <= y < ROW && 0 <= x < COL ==> (adjacent[y, x] <==> Near(row, col, y, x))
  {
    for i := 0 to NUM
      invariant forall y, x :: 0 <= y < ROW && 0 <= x < COL ==>
                (adjacent[y, x] <==> (y == row && x < i) || (x == col && y < i))
    {
      adjacent[row, i] := true;
      adjacent[i, col] := true;
    }
    var top, left := row / 3 * 3, col / 3 * 3;
    adjacent[top, left] := true;
    adjacent[top, left + 1] := true;
    adjacent[top, left + 2] := true;
    adjacent[top + 1, left] := true;
    adjacent[top + 1, left + 1] := true;
    adjacent[top + 1, left + 2] := true;
    adjacent[top + 2, left] := true;
    adjacent[top + 2, left + 1] := true;
    adjacent[top + 2, left + 2] := true;
  }

  /** How many neighbours of (`row`, `col`) lie in line `y`, left of `x`. */
  function LineCount(row: nat, col: nat, y: nat, x: nat): nat {
    if x == 0 then 0
    else LineCount(row, col, y, x - 1)
         + if Near(row, col, y, x - 1) && !(y == row && x - 1 == col) then 1 else 0
  }

  function LinesCount(row: nat, col: nat, y: nat): nat {
    if y == 0 then 0 else LinesCount(row, col, y - 1) + LineCount(row, col, y - 1, COL)
  }

  /** A whole line holds 8, 3 or 1 neighbours. */
  lemma LineTotal(row: nat, col: nat, y: nat)
    requires row < ROW && col < COL && y < ROW
    ensures LineCount(row, col, y, COL) == if y == row then 8 else if y / 3 == row / 3 then 3 else 1
  {
    LinePart(row, col, y, 3);
    LinePart(row, col, y, 6);
    LinePart(row, col, y, 9);
  }

  lemma {:induction false} LinePart(row: nat, col: nat, y: nat, x: nat)
    requires row < ROW && col < COL && y < ROW && x <= COL
    ensures LineCount(row, col, y, x) ==
              if y == row then x - (if col < x then 1 else 0)
              else if y / 3 == row / 3 then
                (if x <= col / 3 * 3 then 0 else if x <= col / 3 * 3 + 3 then x - col / 3 * 3 else 3)
              else if col < x then 1 else 0
    decreases x
  {
    if x > 0 {
      LinePart(row, col, y, x - 1);
    }
  }

  /** Every cell has exactly 20 neighbours. */
  lemma TwentyNeighbors(row: nat, col: nat)
    requires row < ROW && col < COL
    ensures LinesCount(row, col, ROW) == NEIGHBOR
  {
    for y := 0 to ROW
      invariant LinesCount(row, col, y) ==
                  if y <= row / 3 * 3 then y
                  else if y <= row / 3 * 3 + 3 then row / 3 * 3 + 3 * (y - row / 3 * 3) + (if row < y then 5 else 0)
                  else y + 6 + 5
    {
      LineTotal(row, col, y);
    }
  }

  /** Lists the marked cells other than (`row`, `col`), in order. */
  method CollectNeighbors(adjacent: array2<bool>, row: nat, col: nat) returns (list: seq<nat>)
    requires adjacent.Length0 == ROW && adjacent.Length1 == COL && row < ROW && col < COL
    requires forall y, x :: 0 <= y < ROW && 0 <= x < COL ==> (adjacent[y, x] <==> Near(row, col, y, x))
    ensures |list| == NEIGHBOR
    ensures forall i, j :: 0 <= i < j < |list| ==> list[i] < list[j]
    ensures forall d: nat :: d in list <==> d < CELLS && NearCell(row * 9 + col, d)
  {
    list := [];
    for y := 0 to ROW
      invariant |list| == LinesCount(row, col, y)
      invariant Collected(row, col, list, y * 9)
    {
      for x := 0 to COL
        invariant |list| == LinesCount(row, col, y) + LineCount(row, col, y, x)
        invariant Collected(row, col, list, y * 9 + x)
      {
        CollectNext(row, col, list, y, x);
        if adjacent[y, x] && !(y == row && x == col) {
          list := list + [y * COL + x];
        }
      }
    }
    TwentyNeighbors(row, col);
  }

  ghost predicate Collected(row: nat, col: nat, list: seq<nat>, k: nat) {
    && (forall i, j :: 0 <= i < j < |list| ==> list[i] < list[j])
    && (forall d: nat :: d in list <==> d < k && NearCell(row * 9 + col, d))
  }

  lemma CollectNext(row: nat, col: nat, list: seq<nat>, y: nat, x: nat)
    requires row < ROW && col < COL && y < ROW && x < COL && Collected(row, col, list, y * 9 + x)
    ensures var d, near := y * 9 + x, Near(row, col, y, x) && !(y == row && x == col);
            Collected(row, col, if near then list + [d] else list, d + 1)
  {
    var d := y * 9 + x;
    assert d / 9 == y && d % 9 == x;
    assert (row * 9 + col) / 9 == row && (row * 9 + col) % 9 == col;
    forall i | 0 <= i < |list|
      ensures list[i] < d
    {
      assert list[i] in list;
    }
  }

  /** The grid with its neighbour lists. */
  method InitNeighbors() returns (g: Grid)
    ensures g.n == CELLS && g.num == NUM && GridOk(g)
    ensures forall c :: 0 <= c < CELLS ==> |g.neighbors[c]| == NEIGHBOR
    ensures forall c, d :: 0 <= c < CELLS && 0 <= d < CELLS ==> (Adjacent(g, c, d) <==> NearCell(c, d))
  {
    var neighbors: seq<seq<nat>> := [];
    for row := 0 to ROW
      invariant |neighbors| == row * 9 && forall c :: 0 <= c < row * 9 ==> NeighborsOf(c, neighbors[c])
    {
      for col := 0 to COL
        invariant |neighbors| == row * 9 + col
        invariant forall c :: 0 <= c < row * 9 + col ==> NeighborsOf(c, neighbors[c])
      {
        var adjacent := new bool[ROW, COL]((_, _) => false);
        MarkAdjacent(adjacent, row, col);
        var list := CollectNeighbors(adjacent, row, col);
        neighbors := neighbors + [list];
      }
    }
    g := Grid(CELLS, NUM, neighbors);
    forall c, d | 0 <= c < CELLS && 0 <= d < CELLS
      ensures Adjacent(g, c, d) <==> NearCell(c, d)
    {
      assert NeighborsOf(c, neighbors[c]);
    }
    forall c, i | 0 <= c < CELLS && 0 <= i < |neighbors[c]|
      ensures neighbors[c][i] < CELLS
    {
      assert NeighborsOf(c, neighbors[c]) && neighbors[c][i] in neighbors[c];
    }
  }

  ghost predicate NeighborsOf(c: nat, list: seq<nat>) {
    |list| == NEIGHBOR && forall d: nat :: d in list <==> d < CELLS && NearCell(c, d)
  }

  // ------------------------------------------------------------------ the final check

  /** Cells of row, column or box number `u` of 27. */
  function UnitCell(u: nat, i: nat): (c: nat)
    requires u < 27 && i < 9
    ensures c < CELLS
  {
    if u < 9 then u * 9 + i
    else if u < 18 then i * 9 + (u - 9)
    else ((u - 18) / 3 * 3 + i / 3) * 9 + ((u - 18) % 3 * 3 + i % 3)
  }

  lemma {:induction false} OccursTwice(vals: seq<nat>, i: nat, j: nat)
    requires i < j < |vals| && vals[i] == vals[j]
    ensures Occurrences<nat>(vals, vals[i]) >= 2
    decreases |vals|
  {
    var k := |vals| - 1;
    if j < k {
      OccursTwice(vals[..k], i, j);
    } else {
      OccursOnce(vals[..k], i);
    }
  }

  lemma {:induction false} OccursOnce(vals: seq<nat>, i: nat)
    requires i < |vals|
    ensures Occurrences<nat>(vals, vals[i]) >= 1
    decreases |vals|
  {
    if i < |vals| - 1 {
      OccursOnce(vals[..|vals| - 1], i);
    }
  }

  lemma {:induction false} OccursAtMostOnce(vals: seq<nat>, v: nat)
    requires Sets.Distinct(vals)
    ensures Occurrences<nat>(vals, v) <= 1 && (v !in vals ==> Occurrences<nat>(vals, v) == 0)
    decreases |vals|
  {
    if vals != [] {
      var k := |vals| - 1;
      OccursAtMostOnce(vals[..k], v);
      assert v !in vals ==> v !in vals[..k];
    }
  }

  /** Nine values from 1 to 9 are all different exactly when nine values occur once. */
  lemma OnesMeanDistinct(vals: seq<nat>)
    requires |vals| == 9 && forall i :: 0 <= i < 9 ==> 1 <= vals[i] <= 9
    ensures Ones(vals, 10) == 9 <==> Sets.Distinct(vals)
  {
    OnesBound(vals, 10);
    if Sets.Distinct(vals) {
      forall v | 1 <= v < 10
        ensures Occurrences<nat>(vals, v) == 1
      {
        OccursAtMostOnce(vals, v);
        AllPresent(vals, v);
      }
      OccursAtMostOnce(vals, 0);
      OnesAll(vals, 10);
    } else {
      var i, j :| 0 <= i < j < 9 && vals[i] == vals[j];
      OccursTwice(vals, i, j);
      OnesMissing(vals, 10, vals[i]);
    }
  }

  lemma AllPresent(vals: seq<nat>, v: nat)
    requires |vals| == 9 && (forall i :: 0 <= i < 9 ==> 1 <= vals[i] <= 9) && Sets.Distinct(vals) && 1 <= v <= 9
    ensures Occurrences<nat>(vals, v) >= 1
  {
    var low := seq(9, i requires 0 <= i < 9 => vals[i] - 1);
    Sets.Pigeonhole(low, v - 1);
    var i :| 0 <= i < 9 && low[i] == v - 1;
    OccursOnce(vals, i);
  }

  /** How many of the values below `k` occur exactly once. */
  ghost function Ones(vals: seq<nat>, k: nat): nat {
    if k == 0 then 0 else Ones(vals, k - 1) + if Occurrences<nat>(vals, k - 1) == 1 then 1 else 0
  }

  lemma {:induction false} OnesBound(vals: seq<nat>, k: nat)
    ensures Ones(vals, k) <= k
    decreases k
  {
    if k > 0 {
      OnesBound(vals, k - 1);
    }
  }

  lemma {:induction false} OnesAll(vals: seq<nat>, k: nat)
    requires 0 < k && Occurrences<nat>(vals, 0) != 1 && forall v :: 1 <= v < k ==> Occurrences<nat>(vals, v) == 1
    ensures Ones(vals, k) == k - 1
    decreases k
  {
    if k > 1 {
      OnesAll(vals, k - 1);
    } else {
      assert Ones(vals, 0) == 0;
    }
  }

  /** Value 0 never occurs, so one more value that misses leaves at most eight. */
  lemma {:induction false} OnesMissing(vals: seq<nat>, k: nat, w: nat)
    requires |vals| == 9 && (forall i :: 0 <= i < 9 ==> 1 <= vals[i] <= 9)
    requires 1 <= w < k && Occurrences<nat>(vals, w) != 1
    ensures Ones(vals, k) <= k - 2
    decreases k
  {
    if w == k - 1 {
      OnesZero(vals, k - 1);
    } else {
      OnesMissing(vals, k - 1, w);
    }
  }

  lemma {:induction false} OnesZero(vals: seq<nat>, k: nat)
    requires |vals| == 9 && (forall i :: 0 <= i < 9 ==> 1 <= vals[i] <= 9) && 0 < k
    ensures Ones(vals, k) <= k - 1
    decreases k
  {
    if k == 1 {
      ZeroAbsent(vals);
      assert Ones(vals, 0) == 0;
    } else {
      OnesZero(vals, k - 1);
    }
  }

  lemma {:induction false} ZeroAbsent(vals: seq<nat>)
    requires forall i :: 0 <= i < |vals| ==> 1 <= vals[i]
    ensures Occurrences<nat>(vals, 0) == 0
    decreases |vals|
  {
    if vals != [] {
      ZeroAbsent(vals[..|vals| - 1]);
    }
  }

  ghost function UnitValues(board: seq<nat>, u: nat): (vals: seq<nat>)
    requires |board| == CELLS && u < 27
    ensures |vals| == 9
  {
    seq(9, i requires 0 <= i < 9 => board[UnitCell(u, i)])
  }

  /** Nine cells hold nine different values. */
  method CheckUnit(board: array<nat>, u: nat) returns (ok: bool)
    requires board.Length == CELLS && u < 27 && forall c :: 0 <= c < CELLS ==> 1 <= board[c] <= NUM
    ensures ok <==> Sets.Distinct(UnitValues(board[..], u))
  {
    var occurs := new nat[10](_ => 0);
    ghost var vals := UnitValues(board[..], u);
    for i := 0 to 9
      invariant forall v :: 0 <= v < 10 ==> occurs[v] == Occurrences<nat>(vals[..i], v)
    {
      var val := board[UnitCell(u, i)];
      assert vals[..i + 1][..i] == vals[..i];
      occurs[val] := occurs[val] + 1;
    }
    assert vals[..9] == vals;
    var ones := 0;
    for v := 0 to 10
      invariant ones == Ones(vals, v)
    {
      if occurs[v] == 1 {
        ones := ones + 1;
      }
    }
    OnesMeanDistinct(vals);
    ok := ones == NUM;
  }

  function UnitRow(u: nat, i: nat): nat
    requires u < 27 && i < 9
  {
    if u < 9 then u else if u < 18 then i else (u - 18) / 3 * 3 + i / 3
  }

  function UnitColumn(u: nat, i: nat): nat
    requires u < 27 && i < 9
  {
    if u < 9 then i else if u < 18 then u - 9 else (u - 18) % 3 * 3 + i % 3
  }

  lemma CellParts(u: nat, i: nat)
    requires u < 27 && i < 9
    ensures UnitRow(u, i) < 9 && UnitColumn(u, i) < 9
    ensures UnitCell(u, i) / 9 == UnitRow(u, i) && UnitCell(u, i) % 9 == UnitColumn(u, i)
  {
  }

  lemma BoxOf(r: nat, k: nat)
    requires r < 9 && k < 9
    ensures var u, i := 18 + r / 3 * 3 + k / 3, r % 3 * 3 + k % 3;
            u < 27 && i < 9 && UnitRow(u, i) == r && UnitColumn(u, i) == k
  {
    var u, i := 18 + r / 3 * 3 + k / 3, r % 3 * 3 + k % 3;
    assert (u - 18) / 3 == r / 3 && (u - 18) % 3 == k / 3 && i / 3 == r % 3 && i % 3 == k % 3;
  }

  /** Two neighbours lie in a common unit. */
  lemma UnitsAreNear(c: nat, d: nat) returns (u: nat, i: nat, j: nat)
    requires c < CELLS && d < CELLS && NearCell(c, d)
    ensures u < 27 && i < 9 && j < 9 && i != j && UnitCell(u, i) == c && UnitCell(u, j) == d
  {
    hide UnitCell;
    CellInUnits(c);
    CellInUnits(d);
    if c / 9 == d / 9 {
      u, i, j := c / 9, c % 9, d % 9;
    } else if c % 9 == d % 9 {
      u, i, j := 9 + c % 9, c / 9, d / 9;
    } else {
      u, i, j := 18 + c / 9 / 3 * 3 + c % 9 / 3, c / 9 % 3 * 3 + c % 9 % 3, d / 9 % 3 * 3 + d % 9 % 3;
    }
  }

  /** Where a cell stands in its row, its column and its box. */
  lemma CellInUnits(c: nat)
    requires c < CELLS
    ensures UnitCell(c / 9, c % 9) == c && UnitCell(9 + c % 9, c / 9) == c
    ensures var u, i := 18 + c / 9 / 3 * 3 + c % 9 / 3, c / 9 % 3 * 3 + c % 9 % 3;
            u < 27 && i < 9 && UnitCell(u, i) == c
  {
    BoxOf(c / 9, c % 9);
  }

  /** Two different cells of a unit are neighbours. */
  lemma UnitIsNear(u: nat, i: nat, j: nat)
    requires u < 27 && i < 9 && j < 9 && i != j
    ensures NearCell(UnitCell(u, i), UnitCell(u, j))
  {
    hide UnitCell;
    CellParts(u, i);
    CellParts(u, j);
    BoxParts((u - 18) / 3, i / 3, j / 3);
    BoxParts((u - 18) % 3, i % 3, j % 3);
  }

  lemma BoxParts(a: int, i: nat, j: nat)
    requires i < 3 && j < 3
    ensures (a * 3 + i) / 3 == a && (a * 3 + j) / 3 == a && (a * 3 + i == a * 3 + j <==> i == j)
  {
  }

  lemma DistinctUnits(g: Grid, b: Board)
    requires g.n == CELLS && GridOk(g) && |b| == CELLS
    requires forall c, d :: 0 <= c < CELLS && 0 <= d < CELLS ==> (Adjacent(g, c, d) <==> NearCell(c, d))
    requires forall c :: 0 <= c < CELLS ==> b[c] != 0
    ensures Consistent(g, b) <==> forall u :: 0 <= u < 27 ==> Sets.Distinct(UnitValues(b, u))
  {
    if Consistent(g, b) {
      forall u, i, j | 0 <= u < 27 && 0 <= i < j < 9
        ensures UnitValues(b, u)[i] != UnitValues(b, u)[j]
      {
        UnitIsNear(u, i, j);
        var c, d := UnitCell(u, i), UnitCell(u, j);
        assert !Seen(g, b, c, b[c]) && Adjacent(g, c, d);
      }
      forall u | 0 <= u < 27
        ensures Sets.Distinct(UnitValues(b, u))
      {
      }
    }
    if forall u :: 0 <= u < 27 ==> Sets.Distinct(UnitValues(b, u)) {
      forall c, d | 0 <= c < CELLS && 0 <= d < CELLS && Adjacent(g, c, d)
        ensures b[c] != b[d]
      {
        var u, i, j := UnitsAreNear(c, d);
        assert Sets.Distinct(UnitValues(b, u));
        assert UnitValues(b, u)[i] == b[c] && UnitValues(b, u)[j] == b[d];
      }
    }
  }

  /** A filled board passes the check exactly when no two neighbours are equal. */
  method Solved(g: Grid, board: array<nat>) returns (ok: bool)
    requires g.n == CELLS && GridOk(g) && board.Length == CELLS
    requires forall c, d :: 0 <= c < CELLS && 0 <= d < CELLS ==> (Adjacent(g, c, d) <==> NearCell(c, d))
    requires forall c :: 0 <= c < CELLS ==> 1 <= board[c] <= NUM
    ensures ok <==> Consistent(g, board[..])
  {
    DistinctUnits(g, board[..]);
    for u := 0 to 27
      invariant forall w :: 0 <= w < u ==> Sets.Distinct(UnitValues(board[..], w))
    {
      ok := CheckUnit(board, u);
      if !ok {
        return;
      }
    }
    ok := true;
  }
}
