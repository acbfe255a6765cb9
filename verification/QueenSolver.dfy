/** The N-queens matrix, built node by node, and its exact covers counted. */
module QueenSolver {
  import opened ExactCover
  import opened LinkPool
  import opened MatrixBuild
  import opened DancingLinks
  import opened Queens
  import opened QueensCover
  import opened Sets

  const MAX_QUEENS := 20
  const MAX_COLUMNS := MAX_QUEENS * 6
  const MAX_NODES := 1 + MAX_COLUMNS + MAX_QUEENS * MAX_QUEENS * 4

  /** The header node of each column number, as the construction lays them out. */
  ghost function HeadOf(n: nat, k: nat): nat {
    if k < n then 1 + 2 * k
    else if k < 2 * n then 2 + 2 * (k - n)
    else if k < 4 * n then 1 + 2 * n + 2 * (k - 2 * n)
    else 2 + 2 * n + 2 * (k - 4 * n)
  }

  /** The columns up to step `i` of the primary and step `j` of the secondary loop exist. */
  ghost predicate Columns(n: nat, i: nat, j: nat, table: seq<nat>)
    requires 6 * n <= |table|
  {
    forall k :: 0 <= k < |table| ==>
      table[k] ==
        if k < i || n <= k < n + i || 2 * n <= k < 2 * n + j || 4 * n <= k < 4 * n + j then HeadOf(n, k) else 0
  }

  ghost predicate HeadsOnly(m: Matrix, primaries: nat) {
    && m.items == {} && m.rowOf == map[] && m.n == MAX_NODES
    && forall h :: h in m.primary <==> 1 <= h < 1 + primaries
  }

  lemma PrimaryNext(n: nat, m: Matrix, i: nat, table: seq<nat>)
    requires |table| == MAX_COLUMNS && n <= MAX_QUEENS && i < n
    requires HeadsOnly(m, 2 * i) && Columns(n, i, 0, table)
    ensures table[i] == 0 && table[i := 1 + 2 * i][n + i] == 0
    ensures HeadsOnly(WithHead(WithHead(m, 1 + 2 * i, true), 2 + 2 * i, true), 2 * (i + 1))
    ensures Columns(n, i + 1, 0, table[i := 1 + 2 * i][n + i := 2 + 2 * i])
  {
  }

  lemma SecondaryNext(n: nat, m: Matrix, j: nat, table: seq<nat>)
    requires |table| == MAX_COLUMNS && n <= MAX_QUEENS && j < 2 * n
    requires HeadsOnly(m, 2 * n) && Columns(n, n, j, table)
    ensures var x := 1 + 2 * n + 2 * j;
            && table[2 * n + j] == 0 && table[2 * n + j := x][4 * n + j] == 0 && WithHead(m, x, false).n == m.n
            && HeadsOnly(WithHead(WithHead(m, x, false), x + 1, false), 2 * n)
            && Columns(n, n, j + 1, table[2 * n + j := x][4 * n + j := x + 1])
  {
  }

  method AppendPair(n: nat, d: Dance, i: nat)
    requires n <= MAX_QUEENS && i < n && d.Building() && d.curNode == 1 + 2 * i
    requires d.columns.Length == MAX_COLUMNS && HeadsOnly(d.m, 2 * i) && Columns(n, i, 0, d.columns[..])
    modifies d`curNode, d`m, d`built, d.left, d.right, d.up, d.down, d.size, d.name, d.columns
    ensures d.Building() && d.curNode == 1 + 2 * (i + 1)
    ensures HeadsOnly(d.m, 2 * (i + 1)) && Columns(n, i + 1, 0, d.columns[..])
  {
    assert d.m.n == MAX_NODES;
    hide Columns, HeadsOnly, Dance.Building;
    PrimaryNext(n, d.m, i, d.columns[..]);
    d.AppendColumn(i);
    d.AppendColumn(n + i);
  }

  method OptionalPair(n: nat, d: Dance, j: nat)
    requires n <= MAX_QUEENS && j < 2 * n && d.Building() && d.curNode == 1 + 2 * n + 2 * j
    requires d.columns.Length == MAX_COLUMNS && HeadsOnly(d.m, 2 * n) && Columns(n, n, j, d.columns[..])
    modifies d`curNode, d`m, d`built, d.left, d.right, d.up, d.down, d.size, d.name, d.columns
    ensures d.Building() && d.curNode == 1 + 2 * n + 2 * (j + 1)
    ensures HeadsOnly(d.m, 2 * n) && Columns(n, n, j + 1, d.columns[..])
  {
    assert d.m.n == MAX_NODES;
    hide Columns, HeadsOnly, Dance.Building, WithHead;
    SecondaryNext(n, d.m, j, d.columns[..]);
    d.OptionalColumn(2 * n + j);
    d.OptionalColumn(4 * n + j);
  }

  method BuildColumns(n: nat, d: Dance)
    requires n <= MAX_QUEENS && d.Building() && d.curNode == 1 && d.m == RootOnly(MAX_NODES)
    requires d.columns.Length == MAX_COLUMNS && forall k :: 0 <= k < MAX_COLUMNS ==> d.columns[k] == 0
    modifies d`curNode, d`m, d`built, d.left, d.right, d.up, d.down, d.size, d.name, d.columns
    ensures d.Building() && d.curNode == 1 + 6 * n
    ensures HeadsOnly(d.m, 2 * n) && Columns(n, n, 2 * n, d.columns[..])
  {
    assert HeadsOnly(d.m, 0) && Columns(n, 0, 0, d.columns[..]);
    hide Columns, HeadsOnly, Dance.Building;
    for i := 0 to n
      invariant d.Building() && d.curNode == 1 + 2 * i
      invariant HeadsOnly(d.m, 2 * i) && Columns(n, i, 0, d.columns[..])
    {
      AppendPair(n, d, i);
    }
    for j := 0 to 2 * n
      invariant d.Building() && d.curNode == 1 + 2 * n + 2 * j
      invariant HeadsOnly(d.m, 2 * n) && Columns(n, n, j, d.columns[..])
    {
      OptionalPair(n, d, j);
    }
  }

  /** The squares whose rows come before square (`c`, `r`). */
  ghost function SquaresBefore(n: nat, c: nat, r: nat): set<Choice> {
    set p, q | 0 <= p < n && 0 <= q < n && (p < c || (p == c && q < r)) :: Choice(p, q)
  }

  ghost predicate RowIsSquare(n: nat, m: Matrix, head: seq<nat>, q: Choice)
    requires NodesOk(m) && |head| == 6 * n && q.place < n && q.mark < n
  {
    forall h :: h in RowColumns(m, q) <==> OnLine(n, head, q, h)
  }

  /** The rows built so far are those of the squares before (`c`, `r`). */
  ghost predicate SquareRows(n: nat, m: Matrix, head: seq<nat>, c: nat, r: nat) {
    && NodesOk(m) && m.n == MAX_NODES && |head| == 6 * n
    && (forall h :: h in m.primary <==> 1 <= h < 1 + 2 * n)
    && m.rowOf.Values == SquaresBefore(n, c, r)
    && (forall q :: q in SquaresBefore(n, c, r) ==> RowIsSquare(n, m, head, q))
  }

  /** The name of a square, followed by three names that are never used. */
  ghost function Names(n: nat, c: nat, r: nat): seq<Choice> {
    [Choice(c, r), Choice(n, 0), Choice(n, 1), Choice(n, 2)]
  }

  lemma NamesFree(n: nat, m: Matrix, head: seq<nat>, c: nat, r: nat)
    requires SquareRows(n, m, head, c, r) && c < n && r < n
    ensures Free(m, Names(n, c, r))
  {
    forall i, y | 0 <= i < 4 && y in m.items
      ensures m.rowOf[y] != Names(n, c, r)[i]
    {
      assert m.rowOf[y] in m.rowOf.Values;
    }
    forall i | 0 <= i < 4
      ensures Unnamed(m, Names(n, c, r)[i])
    {
    }
  }

  lemma SquareNext(n: nat, was: Matrix, m: Matrix, table: seq<nat>, c: nat, r: nat, n1: nat, n2: nat, n3: nat)
    requires 6 * n <= |table| && SquareRows(n, was, table[..6 * n], c, r) && c < n && r < n
    requires n1 == n + r && n2 == 2 * n + r + c && n3 == 5 * n + r - c
    requires RowAdded(was, m, Choice(c, r), [table[c], table[n1], table[n2], table[n3]])
    ensures SquareRows(n, m, table[..6 * n], c, r + 1)
  {
    hide RowColumns;
    var head, s, hs := table[..6 * n], Choice(c, r), [table[c], table[n1], table[n2], table[n3]];
    assert SquaresBefore(n, c, r + 1) == SquaresBefore(n, c, r) + {s};
    forall q | q in SquaresBefore(n, c, r + 1)
      ensures RowIsSquare(n, m, head, q)
    {
      if q == s {
        forall h
          ensures h in hs <==> OnLine(n, head, q, h)
        {
          SquareColumns(n, head, q, h);
          assert hs == [head[c], head[n1], head[n2], head[n3]];
        }
      } else {
        assert RowIsSquare(n, was, head, q);
      }
    }
  }

  lemma SquareColumns(n: nat, head: seq<nat>, q: Choice, h: nat)
    requires |head| == 6 * n && q.place < n && q.mark < n
    ensures OnLine(n, head, q, h) <==>
              h in [head[q.place], head[n + q.mark], head[2 * n + q.mark + q.place], head[5 * n + q.mark - q.place]]
  {
    var ls := LinesOf(n, q);
    assert ls[0] == q.place && ls[1] == n + q.mark && ls[2] == 2 * n + q.mark + q.place
           && ls[3] == 5 * n + q.mark - q.place;
    if h in [head[ls[0]], head[ls[1]], head[ls[2]], head[ls[3]]] {
      var i :| 0 <= i < 4 && [head[ls[0]], head[ls[1]], head[ls[2]], head[ls[3]]][i] == h;
      assert head[ls[i]] == h;
    }
  }

  lemma LineWraps(n: nat, m: Matrix, head: seq<nat>, c: nat)
    requires c < n
    ensures SquareRows(n, m, head, c, n) ==> SquareRows(n, m, head, c + 1, 0)
  {
    assert SquaresBefore(n, c, n) == SquaresBefore(n, c + 1, 0);
  }

  /** The finished matrix is the exact cover problem of the queens. */
  lemma RowsEncode(n: nat, m: Matrix, table: seq<nat>)
    requires |table| == MAX_COLUMNS && n <= MAX_QUEENS && Columns(n, n, 2 * n, table)
    requires SquareRows(n, m, table[..6 * n], n, 0)
    ensures Encodes(n, table[..6 * n], ProblemOf(m))
  {
    hide RowColumns;
    var head, p := table[..6 * n], ProblemOf(m);
    assert SquaresBefore(n, n, 0) == Squares(n);
    forall k | 0 <= k < 6 * n
      ensures head[k] == HeadOf(n, k)
    {
      assert table[k] == HeadOf(n, k);
    }
    forall h | h in p.primary
      ensures exists k :: 0 <= k < 2 * n && head[k] == h
    {
      var k := if h % 2 == 1 then h / 2 else n + h / 2 - 1;
      assert head[k] == h;
    }
    forall q | q in Squares(n)
      ensures forall h :: h in p.rows[q] <==> OnLine(n, head, q, h)
    {
      assert RowIsSquare(n, m, head, q);
    }
  }

  /** The number of nodes in use before square (`c`, `r`) leaves room for its row. */
  lemma PoolSuffices(n: nat, c: nat, r: nat)
    requires n <= MAX_QUEENS && c < n && r < n
    ensures 1 + 6 * n + 4 * (c * n + r) + 4 <= MAX_NODES
    ensures c * n + n == (c + 1) * n
  {
    assert c * n <= (n - 1) * n;
    assert n * n <= MAX_QUEENS * MAX_QUEENS;
  }

  method BuildSquare(n: nat, d: Dance, c: nat, r: nat)
    requires n <= MAX_QUEENS && c < n && r < n && d.Building() && d.curNode + 4 <= MAX_NODES
    requires d.columns.Length == MAX_COLUMNS && Columns(n, n, 2 * n, d.columns[..])
    requires SquareRows(n, d.m, d.columns[..6 * n], c, r)
    modifies d`curNode, d`m, d`built, d.left, d.right, d.up, d.down, d.size, d.name, d.col
    ensures d.Building() && d.curNode == old(d.curNode) + 4
    ensures SquareRows(n, d.m, d.columns[..6 * n], c, r + 1)
  {
    assert d.Separate();
    hide SquareRows, Free, RowAdded, Distinct, Columns, HeadOf, Dance.Building;
    ghost var was, table := d.m, d.columns[..];
    var n1, n2, n3 := n + r, 2 * n + r + c, 5 * n + r - c;
    SquareReady(n, d.m, table, c, r, n1, n2, n3);
    d.AddChoice(Names(n, c, r), c, n1, n2, n3);
    SquareNext(n, was, d.m, table, c, r, n1, n2, n3);
    assert d.columns[..] == table;
  }

  lemma SquareReady(n: nat, m: Matrix, table: seq<nat>, c: nat, r: nat, n1: nat, n2: nat, n3: nat)
    requires n <= MAX_QUEENS && c < n && r < n && |table| == MAX_COLUMNS
    requires Columns(n, n, 2 * n, table) && SquareRows(n, m, table[..6 * n], c, r)
    requires n1 == n + r && n2 == 2 * n + r + c && n3 == 5 * n + r - c
    ensures m.n == MAX_NODES && Free(m, Names(n, c, r)) && Distinct<nat>([c, n1, n2, n3])
    ensures n1 < |table| && n2 < |table| && n3 < |table|
    ensures table[c] != 0 && table[n1] != 0 && table[n2] != 0 && table[n3] != 0
  {
    NamesFree(n, m, table[..6 * n], c, r);
  }

  lemma SquareShape(n: nat, m: Matrix, head: seq<nat>, c: nat, r: nat)
    requires SquareRows(n, m, head, c, r)
    ensures m.n == MAX_NODES
  {
  }

  method BuildRows(n: nat, d: Dance)
    requires n <= MAX_QUEENS && d.Building() && d.curNode == 1 + 6 * n && d.columns.Length == MAX_COLUMNS
    requires HeadsOnly(d.m, 2 * n) && Columns(n, n, 2 * n, d.columns[..])
    modifies d`curNode, d`m, d`built, d.left, d.right, d.up, d.down, d.size, d.name, d.col
    ensures d.Building() && Encodes(n, d.columns[..6 * n], ProblemOf(d.m))
  {
    NoSquares(n, d.m, d.columns[..6 * n]);
    hide SquareRows, HeadsOnly, Columns, Encodes, Dance.Building;
    for c := 0 to n
      invariant d.Building() && d.curNode == 1 + 6 * n + 4 * (c * n)
      invariant SquareRows(n, d.m, d.columns[..6 * n], c, 0)
    {
      for r := 0 to n
        invariant d.Building() && d.curNode == 1 + 6 * n + 4 * (c * n + r)
        invariant SquareRows(n, d.m, d.columns[..6 * n], c, r)
      {
        PoolSuffices(n, c, r);
        BuildSquare(n, d, c, r);
      }
      PoolSuffices(n, c, 0);
      LineWraps(n, d.m, d.columns[..6 * n], c);
    }
    SquareShape(n, d.m, d.columns[..6 * n], n, 0);
    RowsEncode(n, d.m, d.columns[..]);
  }

  lemma NoSquares(n: nat, m: Matrix, head: seq<nat>)
    requires HeadsOnly(m, 2 * n) && NodesOk(m) && |head| == 6 * n
    ensures SquareRows(n, m, head, 0, 0)
  {
    assert SquaresBefore(n, 0, 0) == {};
  }

  /** Dancing links counts exactly the ways to place `n` peaceful queens, and its pool ends
      with every link and every size as they were after construction. */
  method CountQueens(n: nat) returns (count: int)
    requires n <= MAX_QUEENS
    ensures count == |Placements(n)|
  {
    var d := new Dance(MAX_NODES, MAX_COLUMNS);
    BuildColumns(n, d);
    BuildRows(n, d);
    SquaresAnchored(n, d.columns[..6 * n], ProblemOf(d.m));
    CoversArePlacements(n, d.columns[..6 * n], ProblemOf(d.m));
    d.Solve(d.built);
    count := d.count;
  }
}
