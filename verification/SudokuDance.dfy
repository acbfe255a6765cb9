/** Sudoku by dancing links: the matrix of a board, and the solution read back from the
    stack of chosen nodes. */
module SudokuDance {
  import opened ExactCover
  import opened LinkPool
  import opened MatrixBuild
  import opened DancingLinks
  import opened SudokuSpec
  import opened SudokuGrid
  import opened SudokuCover
  import opened Sets

  const MAX_NODES := 1 + 81 * 4 + 9 * 9 * 9 * 4

  /** Table `used` marks the values held by the units of a kind: 0 for rows, 1 for columns, 2 for boxes. */
  ghost predicate Marks(used: array2<bool>, b: Board, kind: nat)
    requires |b| == CELLS && kind < 3
    reads used
  {
    && used.Length0 == CELLS && used.Length1 == 10
    && forall i, v :: 0 <= i < 9 && 0 <= v < 10 ==> (used[i, v] <==> Holds(b, 9 * kind + i, v))
  }

  /** Marks for each row, column and box the values its cells hold. */
  method MarkUsed(board: array<nat>) returns (rows: array2<bool>, cols: array2<bool>, boxes: array2<bool>)
    requires board.Length == CELLS && forall c :: 0 <= c < CELLS ==> board[c] <= NUM
    ensures fresh(rows) && fresh(cols) && fresh(boxes)
    ensures Marks(rows, board[..], 0) && Marks(cols, board[..], 1) && Marks(boxes, board[..], 2)
  {
    hide MarksBelow, Marks, UnitOf;
    ghost var b := board[..];
    rows := NoMarks(b, 0);
    cols := NoMarks(b, 1);
    boxes := NoMarks(b, 2);
    for i := 0 to CELLS
      invariant MarksBelow(rows, b, i, 0) && MarksBelow(cols, b, i, 1) && MarksBelow(boxes, b, i, 2)
    {
      var row, col := i / 9, i % 9;
      var box := row / 3 * 3 + col / 3;
      CellUnits(i);
      Mark(rows, row, board[i], b, i, 0);
      Mark(cols, col, board[i], b, i, 1);
      Mark(boxes, box, board[i], b, i, 2);
    }
    MarksAll(rows, b, 0);
    MarksAll(cols, b, 1);
    MarksAll(boxes, b, 2);
  }

  /** Table `used` marks what the first `i` cells put into the units of a kind. */
  ghost predicate MarksBelow(used: array2<bool>, b: Board, i: nat, kind: nat)
    requires |b| == CELLS && i <= CELLS && kind < 3
    reads used
  {
    && used.Length0 == CELLS && used.Length1 == 10
    && forall u, v :: 0 <= u < 9 && 0 <= v < 10 ==> (used[u, v] <==> HeldBelow(b, i, kind, u, v))
  }

  method NoMarks(ghost b: Board, ghost kind: nat) returns (used: array2<bool>)
    requires |b| == CELLS && kind < 3
    ensures fresh(used) && MarksBelow(used, b, 0, kind)
  {
    used := new bool[CELLS, 10]((_, _) => false);
  }

  method Mark(used: array2<bool>, unit: nat, val: nat, ghost b: Board, ghost i: nat, ghost kind: nat)
    requires |b| == CELLS && i < CELLS && kind < 3 && MarksBelow(used, b, i, kind)
    requires unit < 9 && val == b[i] <= NUM && UnitOf(i, kind) == 9 * kind + unit
    modifies used
    ensures MarksBelow(used, b, i + 1, kind)
  {
    hide HeldBelow, UnitOf;
    used[unit, val] := true;
    HeldNext(b, i, kind, unit);
  }

  lemma MarksAll(used: array2<bool>, b: Board, kind: nat)
    requires |b| == CELLS && kind < 3 && MarksBelow(used, b, CELLS, kind)
    ensures Marks(used, b, kind)
  {
    hide HeldBelow, Holds, UnitOf;
    HeldAll(b, kind);
  }

  /** One of the first `i` cells lies in the `u`-th unit of a kind and holds `v`. */
  ghost predicate HeldBelow(b: Board, i: nat, kind: nat, u: nat, v: nat)
    requires |b| == CELLS && i <= CELLS && kind < 3
  {
    exists c :: 0 <= c < i && b[c] == v && UnitOf(c, kind) == 9 * kind + u
  }

  lemma HeldNext(b: Board, i: nat, kind: nat, unit: nat)
    requires |b| == CELLS && i < CELLS && kind < 3 && UnitOf(i, kind) == 9 * kind + unit
    ensures forall u: nat, v: nat :: HeldBelow(b, i + 1, kind, u, v) <==>
            HeldBelow(b, i, kind, u, v) || (v == b[i] && u == unit)
  {
    hide UnitOf;
    forall u: nat, v: nat
      ensures HeldBelow(b, i + 1, kind, u, v) <==> HeldBelow(b, i, kind, u, v) || (v == b[i] && u == unit)
    {
      if c :| 0 <= c < i && b[c] == v && UnitOf(c, kind) == 9 * kind + u {
        assert 0 <= c < i + 1;
      }
      assert v == b[i] && u == unit ==> UnitOf(i, kind) == 9 * kind + u;
    }
  }

  lemma HeldAll(b: Board, kind: nat)
    requires |b| == CELLS && kind < 3
    ensures forall u, v :: 0 <= u < 9 ==> (HeldBelow(b, CELLS, kind, u, v) <==> Holds(b, 9 * kind + u, v))
  {
    hide UnitOf, UnitCell;
    forall u, v | 0 <= u < 9
      ensures HeldBelow(b, CELLS, kind, u, v) <==> Holds(b, 9 * kind + u, v)
    {
      var unit := 9 * kind + u;
      assert unit / 9 == kind;
      if HeldBelow(b, CELLS, kind, u, v) {
        var c :| 0 <= c < CELLS && b[c] == v && UnitOf(c, kind) == unit;
        UnitsOfCell(unit, c);
        var i :| 0 <= i < 9 && UnitCell(unit, i) == c;
      }
      if Holds(b, unit, v) {
        var i :| 0 <= i < 9 && b[UnitCell(unit, i)] == v;
        UnitHolds(unit, i);
      }
    }
  }

  // ------------------------------------------------------------------ the columns

  /** The place of a column in the order of construction. */
  ghost function Stage(k: nat): nat {
    if k < 100 then k else 100 + k % 100 * 3 + k / 100
  }

  lemma StageOnce(k: nat, l: nat)
    requires k < MAX_NAMES && l < MAX_NAMES && Stage(k) == Stage(l)
    ensures k == l
  {
  }

  /** The columns wanted before stage `j` exist, and all are primary. */
  ghost predicate Laid(b: Board, m: Matrix, table: seq<nat>, j: nat)
    requires |b| == CELLS
  {
    && |table| == MAX_NAMES && m.n == MAX_NODES && m.items == {} && m.rowOf == map[]
    && (forall k :: 0 <= k < MAX_NAMES ==> (table[k] != 0 <==> Wanted(b, k) && Stage(k) < j))
    && (forall h :: h in m.primary <==> exists k :: 0 <= k < MAX_NAMES && table[k] == h && h != 0)
  }

  lemma LaidAppend(b: Board, m: Matrix, table: seq<nat>, k: nat, x: nat)
    requires |b| == CELLS && k < MAX_NAMES && Laid(b, m, table, Stage(k)) && Wanted(b, k) && x != 0
    ensures table[k] == 0 && Laid(b, WithHead(m, x, true), table[k := x], Stage(k) + 1)
  {
    hide Wanted, Stage;
    var m', table', j := WithHead(m, x, true), table[k := x], Stage(k);
    forall l | 0 <= l < MAX_NAMES
      ensures table'[l] != 0 <==> Wanted(b, l) && Stage(l) < j + 1
    {
      if l != k && Stage(l) == j {
        StageOnce(k, l);
      }
    }
    forall h
      ensures h in m'.primary <==> exists l :: 0 <= l < MAX_NAMES && table'[l] == h && h != 0
    {
      if h in m.primary {
        var l :| 0 <= l < MAX_NAMES && table[l] == h && h != 0;
        assert table'[l] == h;
      }
      if h == x {
        assert table'[k] == h;
      }
      if l :| 0 <= l < MAX_NAMES && table'[l] == h && h != 0 {
        if l != k {
          assert table[l] == h;
        }
      }
    }
  }

  lemma LaidSkip(b: Board, m: Matrix, table: seq<nat>, j: nat, j': nat)
    requires |b| == CELLS && Laid(b, m, table, j) && j <= j'
    requires forall k :: 0 <= k < MAX_NAMES && Wanted(b, k) ==> Stage(k) < j || j' <= Stage(k)
    ensures Laid(b, m, table, j')
  {
    hide Wanted, Stage;
  }

  /** Appends column `k` if it is wanted. */
  method LayColumn(d: Dance, ghost b: Board, k: nat, wanted: bool)
    requires |b| == CELLS && k < MAX_NAMES && (wanted <==> Wanted(b, k))
    requires d.Building() && d.columns.Length == MAX_NAMES && d.curNode < MAX_NODES
    requires Laid(b, d.m, d.columns[..], Stage(k))
    modifies d`curNode, d`m, d`built, d.left, d.right, d.up, d.down, d.size, d.name, d.columns
    ensures d.Building() && d.curNode <= old(d.curNode) + 1
    ensures Laid(b, d.m, d.columns[..], Stage(k) + 1)
  {
    assert d.curNode > 0 && d.m.n == MAX_NODES;
    hide Laid, Wanted, Stage, Dance.Building;
    if wanted {
      LaidAppend(b, d.m, d.columns[..], k, d.curNode);
      d.AppendColumn(k);
    } else {
      LaidUnwanted(b, d.m, d.columns[..], k);
    }
  }

  lemma LaidUnwanted(b: Board, m: Matrix, table: seq<nat>, k: nat)
    requires |b| == CELLS && k < MAX_NAMES && Laid(b, m, table, Stage(k)) && !Wanted(b, k)
    ensures Laid(b, m, table, Stage(k) + 1)
  {
    hide Wanted, Stage;
    forall l | 0 <= l < MAX_NAMES && Wanted(b, l)
      ensures Stage(l) < Stage(k) || Stage(k) + 1 <= Stage(l)
    {
      if Stage(l) == Stage(k) {
        StageOnce(k, l);
      }
    }
    LaidSkip(b, m, table, Stage(k), Stage(k) + 1);
  }

  lemma CellStage(b: Board, k: nat)
    requires |b| == CELLS && k < CELLS
    ensures Stage(k) == k && (Wanted(b, k) <==> b[k] == 0)
  {
  }

  lemma UnitStage(b: Board, j: nat, i: nat, v: nat)
    requires |b| == CELLS && j < 3 && i < 9 && 0 < v < 10
    ensures UnitName(j * 9 + i, v) < MAX_NAMES
    ensures Stage(UnitName(j * 9 + i, v)) == 100 + (i * 10 + v) * 3 + j + 1
    ensures Wanted(b, UnitName(j * 9 + i, v)) <==> !Holds(b, j * 9 + i, v)
  {
    hide UnitName, Wanted;
    var u := j * 9 + i;
    assert u / 9 == j && u % 9 == i;
    NameParts(u, v);
    WantedUnit(b, u, v);
  }

  /** Between the last value of one line and the first of the next nothing is wanted. */
  lemma NoStage(b: Board, i: nat)
    requires |b| == CELLS && i <= 9
    ensures forall k :: 0 <= k < MAX_NAMES && Wanted(b, k) && i < 9 ==>
              Stage(k) < 100 + (i * 10) * 3 + 1 || 100 + (i * 10 + 1) * 3 + 1 <= Stage(k)
    ensures forall k :: 0 <= k < MAX_NAMES && Wanted(b, k) ==> Stage(k) < CELLS || 104 <= Stage(k)
    ensures forall k :: 0 <= k < MAX_NAMES && Wanted(b, k) ==> Stage(k) < 100 + 90 * 3 + 1
  {
    forall k | 0 <= k < MAX_NAMES && Wanted(b, k)
      ensures Stage(k) < CELLS || 104 <= Stage(k)
      ensures Stage(k) < 100 + 90 * 3 + 1
      ensures i < 9 ==> Stage(k) < 100 + (i * 10) * 3 + 1 || 100 + (i * 10 + 1) * 3 + 1 <= Stage(k)
    {
    }
  }

  method LayColumns(d: Dance, board: array<nat>, rows: array2<bool>, cols: array2<bool>, boxes: array2<bool>)
    requires board.Length == CELLS
    requires Marks(rows, board[..], 0) && Marks(cols, board[..], 1) && Marks(boxes, board[..], 2)
    requires d.Building() && d.columns.Length == MAX_NAMES && d.curNode == 1
    requires Laid(board[..], d.m, d.columns[..], 0)
    requires board != d.left && board != d.right && board != d.up && board != d.down
             && board != d.name && board != d.columns
    modifies d`curNode, d`m, d`built, d.left, d.right, d.up, d.down, d.size, d.name, d.columns
    ensures d.Building() && d.curNode <= 1 + 81 * 4
    ensures Laid(board[..], d.m, d.columns[..], 371)
    ensures board[..] == old(board[..])
  {
    hide Laid, Wanted, Stage, Holds, UnitName, Dance.Building;
    ghost var b := board[..];
    for i := 0 to CELLS
      invariant d.Building() && d.curNode <= 1 + i && board[..] == b
      invariant Laid(b, d.m, d.columns[..], i)
    {
      CellStage(b, i);
      LayColumn(d, b, i, board[i] == 0);
    }
    NoStage(b, 0);
    LaidSkip(b, d.m, d.columns[..], CELLS, 101);
    for i := 0 to 9
      invariant d.Building() && d.curNode <= 82 + 27 * i && board[..] == b
      invariant Laid(b, d.m, d.columns[..], 100 + (i * 10) * 3 + 1)
    {
      NoStage(b, i);
      LaidSkip(b, d.m, d.columns[..], 100 + (i * 10) * 3 + 1, 100 + (i * 10 + 1) * 3 + 1);
      for v := 1 to 10
        invariant d.Building() && d.curNode <= 82 + 27 * i + 3 * (v - 1) && board[..] == b
        invariant Laid(b, d.m, d.columns[..], 100 + (i * 10 + v) * 3 + 1)
      {
        UnitStage(b, 0, i, v);
        UnitStage(b, 1, i, v);
        UnitStage(b, 2, i, v);
        LayColumn(d, b, UnitName(i, v), !rows[i, v]);
        LayColumn(d, b, UnitName(9 + i, v), !cols[i, v]);
        LayColumn(d, b, UnitName(18 + i, v), !boxes[i, v]);
      }
    }
  }

  // ------------------------------------------------------------------ the rows

  ghost predicate Before(q: Choice, c: nat, v: nat) {
    q.place < c || (q.place == c && q.mark < v)
  }

  /** The rows so far are the moves before value `v` of cell `c`. */
  ghost predicate MoveRows(b: Board, m: Matrix, head: seq<nat>, c: nat, v: nat)
    requires |b| == CELLS
  {
    && NodesOk(m) && m.n == MAX_NODES && |head| == MAX_NAMES
    && (forall q :: q in m.rowOf.Values <==> Move(b, q) && Before(q, c, v))
    && (forall q :: q in m.rowOf.Values ==> RowIsMove(m, head, q))
  }

  ghost predicate RowIsMove(m: Matrix, head: seq<nat>, q: Choice)
    requires NodesOk(m) && |head| == MAX_NAMES
  {
    q.place < CELLS && q.mark <= NUM && forall h :: h in RowColumns(m, q) <==> OnName(head, q, h)
  }

  ghost predicate SamePrimary(m: Matrix, table: seq<nat>) {
    forall h :: h in m.primary <==> exists k :: 0 <= k < |table| && table[k] == h && h != 0
  }

  function Labels(c: nat, v: nat): seq<Choice> {
    [Choice(c, v), Choice(CELLS, 0), Choice(CELLS, 1), Choice(CELLS, 2)]
  }

  lemma LabelsFree(b: Board, m: Matrix, head: seq<nat>, c: nat, v: nat)
    requires |b| == CELLS && MoveRows(b, m, head, c, v) && c < CELLS
    ensures Free(m, Labels(c, v)) && m.n == MAX_NODES
  {
    forall i, y | 0 <= i < 4 && y in m.items
      ensures m.rowOf[y] != Labels(c, v)[i]
    {
      assert m.rowOf[y] in m.rowOf.Values;
    }
    forall i | 0 <= i < 4
      ensures Unnamed(m, Labels(c, v)[i])
    {
    }
  }

  lemma MoveColumns(head: seq<nat>, q: Choice, h: nat)
    requires |head| == MAX_NAMES && q.place < CELLS && q.mark <= NUM
    ensures forall i :: 0 <= i < 4 ==> NamesOf(q)[i] < MAX_NAMES
    ensures OnName(head, q, h) <==>
              h in [head[NamesOf(q)[0]], head[NamesOf(q)[1]], head[NamesOf(q)[2]], head[NamesOf(q)[3]]]
  {
    hide UnitName, UnitOf;
    NamesInRange(q);
    var ns := NamesOf(q);
    if h in [head[ns[0]], head[ns[1]], head[ns[2]], head[ns[3]]] {
      var i :| 0 <= i < 4 && [head[ns[0]], head[ns[1]], head[ns[2]], head[ns[3]]][i] == h;
      assert head[NamesOf(q)[i]] == h;
    }
  }

  lemma MoveAdded(b: Board, was: Matrix, m: Matrix, head: seq<nat>, q: Choice, hs: seq<nat>)
    requires |b| == CELLS && MoveRows(b, was, head, q.place, q.mark) && Move(b, q)
    requires |hs| == 4 && NamesOf(q)[0] < MAX_NAMES && NamesOf(q)[1] < MAX_NAMES
    requires NamesOf(q)[2] < MAX_NAMES && NamesOf(q)[3] < MAX_NAMES
    requires hs == [head[NamesOf(q)[0]], head[NamesOf(q)[1]], head[NamesOf(q)[2]], head[NamesOf(q)[3]]]
    requires RowAdded(was, m, q, hs)
    ensures MoveRows(b, m, head, q.place, q.mark + 1) && m.primary == was.primary
  {
    hide RowColumns, NamesOf, OnName, Move;
    assert q.place < CELLS && q.mark <= NUM by { MoveBounds(b, q); }
    forall t | t in m.rowOf.Values
      ensures RowIsMove(m, head, t)
    {
      if t == q {
        forall h
          ensures h in hs <==> OnName(head, q, h)
        {
          MoveColumns(head, q, h);
        }
      } else {
        assert RowIsMove(was, head, t);
      }
    }
  }

  lemma MoveBounds(b: Board, q: Choice)
    requires |b| == CELLS && Move(b, q)
    ensures q.place < CELLS && q.mark <= NUM
  {
  }

  lemma MoveSkipped(b: Board, m: Matrix, head: seq<nat>, c: nat, v: nat)
    requires |b| == CELLS && MoveRows(b, m, head, c, v) && !Move(b, Choice(c, v))
    ensures MoveRows(b, m, head, c, v + 1)
  {
    forall q | Move(b, q)
      ensures Before(q, c, v) <==> Before(q, c, v + 1)
    {
      assert q != Choice(c, v);
    }
  }

  /** The next cell: a filled one has no moves, and no move puts a value above 9 or 0. */
  lemma MoveCell(b: Board, m: Matrix, head: seq<nat>, c: nat)
    requires |b| == CELLS
    ensures MoveRows(b, m, head, c, 0) ==> MoveRows(b, m, head, c, 1)
    ensures MoveRows(b, m, head, c, 10) ==> MoveRows(b, m, head, c + 1, 0)
    ensures c < CELLS && b[c] != 0 && MoveRows(b, m, head, c, 0) ==> MoveRows(b, m, head, c + 1, 0)
  {
    assert forall q :: Move(b, q) ==> (Before(q, c, 0) <==> Before(q, c, 1));
    assert forall q :: Move(b, q) ==> (Before(q, c, 10) <==> Before(q, c + 1, 0));
    assert c < CELLS && b[c] != 0 ==> forall q :: Move(b, q) ==> (Before(q, c, 0) <==> Before(q, c + 1, 0));
  }

  ghost predicate Tabled(b: Board, table: seq<nat>)
    requires |b| == CELLS
  {
    |table| == MAX_NAMES && forall k :: 0 <= k < MAX_NAMES ==> (table[k] != 0 <==> Wanted(b, k))
  }

  lemma MoveReady(b: Board, table: seq<nat>, q: Choice, n1: nat, n2: nat, n3: nat)
    requires |b| == CELLS && Move(b, q) && Tabled(b, table)
    requires NamesOf(q) == [q.place, n1, n2, n3]
    ensures n1 < MAX_NAMES && n2 < MAX_NAMES && n3 < MAX_NAMES
    ensures table[q.place] != 0 && table[n1] != 0 && table[n2] != 0 && table[n3] != 0
    ensures Distinct<nat>([q.place, n1, n2, n3])
  {
    hide UnitName, UnitOf, Wanted;
    var ns := NamesOf(q);
    NamesInRange(q);
    CellStage(b, q.place);
    WantedUnit(b, UnitOf(q.place, 0), q.mark);
    WantedUnit(b, UnitOf(q.place, 1), q.mark);
    WantedUnit(b, UnitOf(q.place, 2), q.mark);
    assert ns[0] == q.place && ns[1] == n1 && ns[2] == n2 && ns[3] == n3;
    forall i, j | 0 <= i < j < 4
      ensures ns[i] != ns[j]
    {
      NamesMeet(q, q, i, j);
    }
  }

  lemma MoveLaid(b: Board, was: Matrix, m: Matrix, table: seq<nat>, q: Choice, n1: nat, n2: nat, n3: nat)
    requires |b| == CELLS && MoveRows(b, was, table, q.place, q.mark) && Move(b, q)
    requires NamesOf(q) == [q.place, n1, n2, n3] && n1 < MAX_NAMES && n2 < MAX_NAMES && n3 < MAX_NAMES
    requires RowAdded(was, m, q, [table[q.place], table[n1], table[n2], table[n3]])
    ensures MoveRows(b, m, table, q.place, q.mark + 1) && m.primary == was.primary
  {
    hide RowAdded, Move;
    MoveBounds(b, q);
    var ns := NamesOf(q);
    assert ns[0] == q.place && ns[1] == n1 && ns[2] == n2 && ns[3] == n3;
    MoveAdded(b, was, m, table, q, [table[q.place], table[n1], table[n2], table[n3]]);
  }

  method LayMove(d: Dance, ghost b: Board, ghost table: seq<nat>, q: Choice)
    requires |b| == CELLS && Move(b, q)
    requires d.Building() && d.columns.Length == MAX_NAMES && d.curNode + 4 <= MAX_NODES
    requires d.columns[..] == table && Tabled(b, table) && MoveRows(b, d.m, table, q.place, q.mark)
    modifies d`curNode, d`m, d`built, d.left, d.right, d.up, d.down, d.size, d.name, d.col
    ensures d.Building() && d.curNode == old(d.curNode) + 4 && d.m.primary == old(d.m.primary)
    ensures MoveRows(b, d.m, table, q.place, q.mark + 1) && d.columns[..] == table
  {
    assert d.Separate();
    MoveBounds(b, q);
    hide MoveRows, Free, RowAdded, Distinct, UnitName, UnitOf, Move, Tabled, Labels, NamesOf, Dance.Building;
    ghost var was := d.m;
    LabelsFree(b, d.m, table, q.place, q.mark);
    var n1 := UnitName(UnitOf(q.place, 0), q.mark);
    var n2 := UnitName(UnitOf(q.place, 1), q.mark);
    var n3 := UnitName(UnitOf(q.place, 2), q.mark);
    NamesList(q);
    MoveReady(b, table, q, n1, n2, n3);
    LabelsHead(q);
    d.AddChoice(Labels(q.place, q.mark), q.place, n1, n2, n3);
    MoveLaid(b, was, d.m, table, q, n1, n2, n3);
  }

  lemma NamesList(q: Choice)
    requires q.place < CELLS
    ensures NamesOf(q) ==
            [q.place, UnitName(UnitOf(q.place, 0), q.mark), UnitName(UnitOf(q.place, 1), q.mark),
             UnitName(UnitOf(q.place, 2), q.mark)]
  {
  }

  lemma LabelsHead(q: Choice)
    ensures |Labels(q.place, q.mark)| == 4 && Labels(q.place, q.mark)[0] == q
  {
  }

  lemma CellUnits(i: nat)
    requires i < CELLS
    ensures UnitOf(i, 0) == i / 9 < 9 && UnitOf(i, 1) == 9 + i % 9
    ensures UnitOf(i, 2) == 18 + (i / 9 / 3 * 3 + i % 9 / 3) < 27
  {
  }

  method LayRows(d: Dance, board: array<nat>, rows: array2<bool>, cols: array2<bool>, boxes: array2<bool>,
                 ghost table: seq<nat>)
    requires board.Length == CELLS
    requires Marks(rows, board[..], 0) && Marks(cols, board[..], 1) && Marks(boxes, board[..], 2)
    requires d.Building() && d.columns.Length == MAX_NAMES && d.curNode <= 1 + 81 * 4
    requires d.columns[..] == table && Tabled(board[..], table) && MoveRows(board[..], d.m, table, 0, 0)
    requires board != d.left && board != d.right && board != d.up && board != d.down
             && board != d.name && board != d.col
    modifies d`curNode, d`m, d`built, d.left, d.right, d.up, d.down, d.size, d.name, d.col
    ensures d.Building() && d.m.primary == old(d.m.primary) && d.columns[..] == table
    ensures MoveRows(board[..], d.m, table, CELLS, 0) && board[..] == old(board[..])
  {
    hide MoveRows, Holds, UnitOf, Tabled, Dance.Building;
    ghost var b := board[..];
    for i := 0 to CELLS
      invariant d.Building() && d.m.primary == old(d.m.primary) && d.columns[..] == table && board[..] == b
      invariant d.curNode <= 325 + 36 * i && MoveRows(b, d.m, table, i, 0)
    {
      MoveCell(b, d.m, table, i);
      if board[i] == 0 {
        var row, col := i / 9, i % 9;
        var box := row / 3 * 3 + col / 3;
        CellUnits(i);
        for v := 1 to 10
          invariant d.Building() && d.m.primary == old(d.m.primary) && d.columns[..] == table && board[..] == b
          invariant d.curNode <= 325 + 36 * i + 4 * (v - 1) && MoveRows(b, d.m, table, i, v)
        {
          if !(rows[row, v] || cols[col, v] || boxes[box, v]) {
            LayMove(d, b, table, Choice(i, v));
          } else {
            MoveSkipped(b, d.m, table, i, v);
          }
        }
        MoveCell(b, d.m, table, i);
      }
    }
  }

  /** The finished matrix is the exact cover problem of the board. */
  lemma MatrixEncodes(b: Board, m: Matrix, table: seq<nat>, names: seq<nat>)
    requires |b| == CELLS && NodesOk(m) && NamesAgree(m, names, table) && Tabled(b, table)
    requires MoveRows(b, m, table, CELLS, 0) && SamePrimary(m, table)
    ensures Encodes(b, table, ProblemOf(m))
  {
    hide RowColumns, Wanted, OnName, Move;
    var p := ProblemOf(m);
    forall i, j | 0 <= i < j < MAX_NAMES && table[i] != 0
      ensures table[i] != table[j]
    {
      assert names[table[i]] == i;
      assert table[j] != 0 ==> names[table[j]] == j;
    }
    forall q
      ensures q in p.rows <==> Move(b, q)
    {
      if Move(b, q) {
        MoveBounds(b, q);
      }
    }
    forall q | q in p.rows
      ensures forall h :: h in p.rows[q] <==> OnName(table, q, h)
    {
      assert RowIsMove(m, table, q);
    }
  }

  lemma LaidDone(b: Board, m: Matrix, table: seq<nat>)
    requires |b| == CELLS && NodesOk(m) && Laid(b, m, table, 371)
    ensures Tabled(b, table) && SamePrimary(m, table) && MoveRows(b, m, table, 0, 0)
  {
    hide Wanted;
    NoStage(b, 0);
    assert forall q :: !Before(q, 0, 0);
  }

  lemma LaidStart(b: Board)
    requires |b| == CELLS
    ensures Laid(b, RootOnly(MAX_NODES), seq(MAX_NAMES, _ => 0), 0)
  {
    hide Wanted;
  }

  // ------------------------------------------------------------------ reading the solution

  /** A node is named after one of the columns of its row. */
  lemma NodeName(b: Board, m: Matrix, table: seq<nat>, names: seq<nat>, x: nat) returns (i: nat)
    requires |b| == CELLS && NodesOk(m) && NamesAgree(m, names, table) && Encodes(b, table, ProblemOf(m))
    requires x in m.items
    ensures Move(b, m.rowOf[x]) && i < 4 && names[x] == NamesOf(m.rowOf[x])[i]
  {
    hide UnitName, UnitOf, Wanted, Move;
    var q := m.rowOf[x];
    assert q in ProblemOf(m).rows;
    assert m.col[x] in RowColumns(m, q);
    MoveBounds(b, q);
    NamesInRange(q);
    assert OnName(table, q, m.col[x]);
    i :| 0 <= i < 4 && table[NamesOf(q)[i]] == m.col[x];
  }

  /** Every column of a row has its node in the ring of the row. */
  lemma NodeFor(b: Board, m: Matrix, table: seq<nat>, names: seq<nat>, x: nat, i: nat) returns (t: nat)
    requires |b| == CELLS && WellFormed(m) && NamesAgree(m, names, table) && Encodes(b, table, ProblemOf(m))
    requires x in m.items && i < 4
    ensures Move(b, m.rowOf[x]) && t <= |m.mates[x]|
    ensures Stop(x, m.mates[x], t) in m.items && names[Stop(x, m.mates[x], t)] == NamesOf(m.rowOf[x])[i]
  {
    hide UnitName, UnitOf, Wanted, Move;
    var q := m.rowOf[x];
    assert q in ProblemOf(m).rows;
    MoveRow(b, table, ProblemOf(m), q, i);
    var k := NamesOf(q)[i];
    assert table[k] in RowColumns(m, q);
    var y :| y in m.items && m.rowOf[y] == q && m.col[y] == table[k];
    assert names[table[k]] == k && table[names[y]] == table[k];
    if y == x {
      t := 0;
    } else {
      assert MatesListed(m, x) && Mates(m, x, y);
      var j :| 0 <= j < |m.mates[x]| && m.mates[x][j] == y;
      t := j + 1;
    }
  }

  /** What a name says: below 100 it is the cell, otherwise its last digit is the value. */
  lemma NameSays(q: Choice, i: nat)
    requires q.place < CELLS && q.mark <= NUM && i < 4
    ensures NamesOf(q)[i] < 100 <==> i == 0
    ensures i == 0 ==> NamesOf(q)[i] == q.place
    ensures i > 0 ==> NamesOf(q)[i] % 10 == q.mark
  {
    hide UnitName, UnitOf;
    if i > 0 {
      NameParts(UnitOf(q.place, i - 1), q.mark);
    }
  }

  /** The ring position `t` in the row of `x` names the cell or the value of the row. */
  lemma RingName(b: Board, m: Matrix, table: seq<nat>, names: seq<nat>, x: nat, t: nat)
    requires |b| == CELLS && WellFormed(m) && NamesAgree(m, names, table) && Encodes(b, table, ProblemOf(m))
    requires x in m.items && t <= |m.mates[x]|
    ensures Stop(x, m.mates[x], t) in m.items && Stop(x, m.mates[x], t) < |names|
    ensures var q, name := m.rowOf[x], names[Stop(x, m.mates[x], t)];
            && (name < 100 ==> name == q.place) && (name >= 100 ==> name % 10 == q.mark)
  {
    hide UnitName, UnitOf, Wanted, Encodes, NamesAgree, NamesOf;
    var y := Stop(x, m.mates[x], t);
    if t > 0 {
      assert MatesListed(m, x) && y in m.mates[x];
      assert Mates(m, x, y);
    }
    var i := NodeName(b, m, table, names, y);
    NameSays(m.rowOf[x], i);
    NamesLength(m, names, table);
  }

  lemma NamesLength(m: Matrix, names: seq<nat>, table: seq<nat>)
    requires NodesOk(m) && NamesAgree(m, names, table)
    ensures |names| == m.n
  {
  }

  /** The first `t` places of the ring miss the cell, or miss the value. */
  ghost predicate Unread(m: Matrix, names: seq<nat>, x: nat, t: nat, cells: bool)
    requires x in m.mates && t <= |m.mates[x]| + 1
  {
    forall j :: 0 <= j < t ==>
      Stop(x, m.mates[x], j) < |names| && (cells ==> names[Stop(x, m.mates[x], j)] >= 100)
        && (!cells ==> names[Stop(x, m.mates[x], j)] < 100)
  }

  /** A whole turn around the ring meets both the cell and a value. */
  lemma FullTurn(b: Board, m: Matrix, table: seq<nat>, names: seq<nat>, x: nat)
    requires |b| == CELLS && WellFormed(m) && NamesAgree(m, names, table) && Encodes(b, table, ProblemOf(m))
    requires x in m.items
    ensures !Unread(m, names, x, |m.mates[x]| + 1, true) && !Unread(m, names, x, |m.mates[x]| + 1, false)
  {
    hide UnitName, UnitOf, Wanted, Encodes, NamesAgree, NamesOf;
    var t0 := NodeFor(b, m, table, names, x, 0);
    var t1 := NodeFor(b, m, table, names, x, 1);
    NameSays(m.rowOf[x], 0);
    NameSays(m.rowOf[x], 1);
  }

  /** Walks right from a chosen node until it has met both the cell and the value. */
  method ReadChoice(d: Dance, x: nat, ghost b: Board) returns (cell: int, val: int)
    requires d.Built() && |b| == CELLS && x in d.m.items
    requires NamesAgree(d.m, d.name[..], d.columns[..]) && Encodes(b, d.columns[..], ProblemOf(d.m))
    requires Fits(d.m.n, d.Pool()) && RowRings(d.m, d.Pool())
    ensures cell == d.m.rowOf[x].place && val == d.m.rowOf[x].mark
  {
    hide NamesAgree, Encodes, Ring, RowsOk;
    ghost var m, names, table := d.m, d.name[..], d.columns[..];
    ghost var mates, t := m.mates[x], 0;
    FullTurn(b, m, table, names, x);
    cell, val := -1, -1;
    var n := x;
    while cell == -1 || val == -1
      invariant t <= |mates| + 1 && n == Stop(x, mates, t)
      invariant cell == -1 || cell == m.rowOf[x].place
      invariant val == -1 || val == m.rowOf[x].mark
      invariant cell == -1 ==> Unread(m, names, x, t, true)
      invariant val == -1 ==> Unread(m, names, x, t, false)
      decreases |mates| + 1 - t
    {
      assert t <= |mates|;
      RingName(b, m, table, names, x, t);
      if d.name[n] < 100 {
        cell := d.name[n];
      } else {
        val := d.name[n] % 10;
      }
      RingStep(d.Pool().right, d.Pool().left, x, mates, t);
      n := d.right[n];
      t := t + 1;
    }
  }

  /** Two choices of a cover for one cell are the same. */
  lemma OneChoice(b: Board, table: seq<nat>, p: Problem, s: set<Choice>, q: Choice, t: Choice)
    requires |b| == CELLS && Encodes(b, table, p) && s in Covers(p, {}) && q in s && t in s && q.place == t.place
    ensures q == t
  {
    hide UnitName, UnitOf, Wanted;
    MoveRow(b, table, p, q, 0);
    MoveRow(b, table, p, t, 0);
    assert NamesOf(q)[0] == NamesOf(t)[0];
  }

  /** Writes the chosen values into the board. */
  method WriteChoices(d: Dance, board: array<nat>)
    requires d.Built() && board.Length == CELLS && AllItems(d.m, d.stack)
    requires NamesAgree(d.m, d.name[..], d.columns[..]) && Encodes(board[..], d.columns[..], ProblemOf(d.m))
    requires Fits(d.m.n, d.Pool()) && RowRings(d.m, d.Pool())
    requires Chosen(d.m, d.stack) in Covers(ProblemOf(d.m), {})
    requires board != d.left && board != d.right && board != d.up && board != d.down
             && board != d.name && board != d.columns && board != d.col
    modifies board
    ensures FillsIn(old(board[..]), Chosen(d.m, d.stack), board[..])
  {
    hide NamesAgree, Encodes, RowRings, RowsOk, Covers, Fits;
    ghost var b, m, table := board[..], d.m, d.columns[..];
    for i := 0 to |d.stack|
      invariant Fits(m.n, d.Pool()) && RowRings(m, d.Pool())
      invariant FillsIn(b, Chosen(m, d.stack[..i]), board[..])
    {
      var x := d.stack[i];
      assert x in d.stack;
      var cell, val := ReadChoice(d, x, b);
      ChosenMove(b, table, m, d.stack, i);
      FillNext(b, m, table, d.stack, i, board[..]);
      board[cell] := val;
    }
    assert d.stack[..|d.stack|] == d.stack;
  }

  lemma ChosenMove(b: Board, table: seq<nat>, m: Matrix, stack: seq<nat>, i: nat)
    requires |b| == CELLS && NodesOk(m) && Encodes(b, table, ProblemOf(m)) && AllItems(m, stack) && i < |stack|
    ensures stack[i] in m.items && m.rowOf[stack[i]].place < CELLS
  {
    hide UnitName, UnitOf, Wanted;
    assert stack[i] in stack;
    assert m.rowOf[stack[i]] in ProblemOf(m).rows;
    MoveBounds(b, m.rowOf[stack[i]]);
  }

  lemma FillNext(b: Board, m: Matrix, table: seq<nat>, stack: seq<nat>, i: nat, now: Board)
    requires |b| == CELLS && NodesOk(m) && Encodes(b, table, ProblemOf(m)) && AllItems(m, stack) && i < |stack|
    requires Chosen(m, stack) in Covers(ProblemOf(m), {}) && FillsIn(b, Chosen(m, stack[..i]), now)
    ensures stack[i] in m.items && m.rowOf[stack[i]].place < CELLS
    ensures FillsIn(b, Chosen(m, stack[..i + 1]), now[m.rowOf[stack[i]].place := m.rowOf[stack[i]].mark])
  {
    hide Encodes, Covers;
    ChosenMove(b, table, m, stack, i);
    var q := m.rowOf[stack[i]];
    var now' := now[q.place := q.mark];
    var s, s' := Chosen(m, stack[..i]), Chosen(m, stack[..i + 1]);
    assert stack[..i + 1] == stack[..i] + [stack[i]];
    assert s' == s + {q};
    forall t | t in s'
      ensures t.place < CELLS && now'[t.place] == t.mark
    {
      if t.place == q.place {
        assert t in Chosen(m, stack) && q in Chosen(m, stack);
        OneChoice(b, table, ProblemOf(m), Chosen(m, stack), q, t);
      }
    }
  }

  /** Each row of the problem takes a cell, so its covers are exact covers in the usual sense. */
  lemma MovesAnchored(b: Board, table: seq<nat>, p: Problem)
    requires |b| == CELLS && Encodes(b, table, p)
    ensures Anchored(p)
  {
    hide UnitName, UnitOf;
    forall q | q in p.rows
      ensures p.rows[q] * p.primary != {}
    {
      MoveRow(b, table, p, q, 0);
      assert table[NamesOf(q)[0]] in p.rows[q] * p.primary;
    }
  }

  lemma AnswerIffCover(g: Grid, b: Board, table: seq<nat>, p: Problem)
    requires NineByNine(g) && |b| == CELLS && BoardOk(g, b) && Encodes(b, table, p)
    ensures Covers(p, {}) != {} <==> exists full :: Answer(g, b, full)
  {
    hide Covers, Encodes, Answer, Consistent;
    if full :| Answer(g, b, full) {
      AnswerCovers(g, b, table, p, full);
    }
    if s :| s in Covers(p, {}) {
      var full := FilledIn(b, table, p, s);
      CoverAnswers(g, b, table, p, s, full);
    }
  }

  /** The value of cell `c` with the choices `s` filled in. */
  ghost function MarkFor(b: Board, s: set<Choice>, c: nat): nat
    requires |b| == CELLS && c < CELLS
  {
    if exists q :: q in s && q.place == c then (var q :| q in s && q.place == c; q.mark) else b[c]
  }

  lemma MarkForIs(b: Board, table: seq<nat>, p: Problem, s: set<Choice>, q: Choice)
    requires |b| == CELLS && Encodes(b, table, p) && s in Covers(p, {}) && q in s
    ensures q.place < CELLS && MarkFor(b, s, q.place) == q.mark
  {
    hide Wanted, OnName, Covers;
    assert s in Covers(p, {});
    ChoiceInRange(b, table, p, s, q);
    var t :| t in s && t.place == q.place && MarkFor(b, s, q.place) == t.mark;
    OneChoice(b, table, p, s, q, t);
  }

  lemma ChoiceInRange(b: Board, table: seq<nat>, p: Problem, s: set<Choice>, q: Choice)
    requires |b| == CELLS && Encodes(b, table, p) && s in Covers(p, {}) && q in s
    ensures q.place < CELLS
  {
    hide Wanted, OnName, UnitOf;
    MoveBounds(b, q);
  }

  /** The board with a cover filled in. */
  lemma FilledIn(b: Board, table: seq<nat>, p: Problem, s: set<Choice>) returns (full: Board)
    requires |b| == CELLS && Encodes(b, table, p) && s in Covers(p, {})
    ensures FillsIn(b, s, full)
  {
    hide Encodes, Covers;
    full := seq(CELLS, c requires 0 <= c < CELLS => MarkFor(b, s, c));
    forall q | q in s
      ensures q.place < CELLS && full[q.place] == q.mark
    {
      MarkForIs(b, table, p, s, q);
    }
  }

  /** Builds the matrix of a board. */
  method BuildSudoku(board: array<nat>) returns (d: Dance, ghost table: seq<nat>)
    requires board.Length == CELLS && forall c :: 0 <= c < CELLS ==> board[c] <= NUM
    ensures fresh(d) && fresh(d.left) && fresh(d.right) && fresh(d.up) && fresh(d.down) && fresh(d.col)
    ensures fresh(d.size) && fresh(d.name) && fresh(d.columns)
    ensures d.Building() && d.stack == [] && d.columns[..] == table && Encodes(board[..], table, ProblemOf(d.m))
  {
    hide Laid, Encodes, Holds, Dance.Building, RootOnly;
    ghost var b := board[..];
    var rows, cols, boxes := MarkUsed(board);
    d := new Dance(MAX_NODES, MAX_NAMES);
    LaidStart(b);
    assert d.columns[..] == seq(MAX_NAMES, _ => 0);
    LayBoard(d, board, rows, cols, boxes);
    table := d.columns[..];
  }

  /** Lays all columns, and then the rows of all moves. */
  method LayBoard(d: Dance, board: array<nat>, rows: array2<bool>, cols: array2<bool>, boxes: array2<bool>)
    requires board.Length == CELLS
    requires Marks(rows, board[..], 0) && Marks(cols, board[..], 1) && Marks(boxes, board[..], 2)
    requires d.Building() && d.columns.Length == MAX_NAMES && d.curNode == 1
    requires Laid(board[..], d.m, d.columns[..], 0)
    requires board != d.left && board != d.right && board != d.up && board != d.down
             && board != d.name && board != d.columns && board != d.col
    modifies d`curNode, d`m, d`built, d.left, d.right, d.up, d.down, d.size, d.name, d.columns, d.col
    ensures d.Building() && Encodes(board[..], d.columns[..], ProblemOf(d.m)) && board[..] == old(board[..])
  {
    hide Laid, Tabled, MoveRows, SamePrimary, Encodes, Holds, NamesAgree;
    ghost var b := board[..];
    LayColumns(d, board, rows, cols, boxes);
    ghost var table := d.columns[..];
    LaidDone(b, d.m, table);
    ghost var heads := d.m.primary;
    PrimaryAre(d.m, table);
    LayRows(d, board, rows, cols, boxes, table);
    SamePrimaryKept(heads, d.m, table);
    MatrixEncodes(b, d.m, table, d.name[..]);
  }

  lemma PrimaryAre(m: Matrix, table: seq<nat>)
    requires SamePrimary(m, table)
    ensures forall h :: h in m.primary <==> exists k :: 0 <= k < |table| && table[k] == h && h != 0
  {
  }

  /** Solves a board by dancing links: finds a full board that extends the givens without a
      clash, or there is none and the board is as it was. */
  method SolveDancingLinks(ghost g: Grid, board: array<nat>) returns (ok: bool)
    requires NineByNine(g) && BoardOk(g, board[..])
    modifies board
    ensures ok == exists full :: Answer(g, old(board[..]), full)
    ensures ok ==> Answer(g, old(board[..]), board[..])
    ensures !ok ==> board[..] == old(board[..])
  {
    hide Encodes, Answer, Covers, NineByNine, NamesAgree;
    ghost var b := board[..];
    BoardShape(g, b);
    assert forall c :: 0 <= c < CELLS ==> board[c] == b[c];
    ghost var table, added;
    var d;
    d, table := BuildSudoku(board);
    MovesAnchored(b, table, ProblemOf(d.m));
    AnswerIffCover(g, b, table, ProblemOf(d.m));
    GrowingFits(d.m, d.built);
    ok, added := d.SolveFirst(d.built);
    if ok {
      assert d.stack == added;
      WriteChoices(d, board);
      CoverAnswers(g, b, table, ProblemOf(d.m), Chosen(d.m, d.stack), board[..]);
    }
  }

  lemma SamePrimaryKept(heads: set<nat>, m: Matrix, table: seq<nat>)
    requires m.primary == heads
    requires forall h :: h in heads <==> exists k :: 0 <= k < |table| && table[k] == h && h != 0
    ensures SamePrimary(m, table)
  {
  }

  lemma BoardShape(g: Grid, b: Board)
    requires NineByNine(g) && BoardOk(g, b)
    ensures |b| == CELLS && forall c :: 0 <= c < CELLS ==> b[c] <= NUM
  {
  }
}
