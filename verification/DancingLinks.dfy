/** Knuth's dancing links over a fixed pool of nodes: covering and uncovering columns in
    place, and the search that counts exact covers. */
module DancingLinks {
  import opened ExactCover
  import opened LinkPool
  import opened MatrixBuild
  import opened Sets

  class Dance {
    const left: array<nat>
    const right: array<nat>
    const up: array<nat>
    const down: array<nat>
    const col: array<nat>
    const size: array<int>
    const name: array<nat>
    const columns: array<nat>
    var curNode: nat
    var count: int
    var stack: seq<nat>
    ghost var m: Matrix
    ghost var built: Conf

    ghost function Pool(): Links
      reads left, right, up, down, size
    {
      Links(left[..], right[..], up[..], down[..], size[..])
    }

    ghost predicate Separate() {
      && left != right && left != up && left != down && left != col && left != name && left != columns
      && right != up && right != down && right != col && right != name && right != columns
      && up != down && up != col && up != name && up != columns
      && down != col && down != name && down != columns
      && col != name && col != columns && name != columns
    }

    /** The matrix has been built and sits in the pool. */
    ghost predicate Built()
      reads `m, col
    {
      && Separate()
      && left.Length == right.Length == up.Length == down.Length == col.Length == size.Length == name.Length == m.n
      && WellFormed(m)
      && (forall x :: x in m.items ==> col[x] == m.col[x])
    }

    /** The pool holds the matrix built so far, in its first `curNode` nodes. */
    ghost predicate Building()
      reads this, left, right, up, down, col, size, name, columns
    {
      && Built() && Growing(m, built) && Pool() == built.links
      && UpTo(m, curNode) && NamesAgree(m, name[..], columns[..])
    }

    constructor (maxNodes: nat, maxColumns: nat)
      requires 0 < maxNodes
      ensures Building() && curNode == 1 && count == 0 && stack == []
      ensures m == RootOnly(maxNodes) && columns.Length == maxColumns
      ensures forall k :: 0 <= k < maxColumns ==> columns[k] == 0
      ensures fresh(left) && fresh(right) && fresh(up) && fresh(down) && fresh(col) && fresh(size)
      ensures fresh(name) && fresh(columns)
    {
      left := new nat[maxNodes](_ => 0);
      right := new nat[maxNodes](_ => 0);
      up := new nat[maxNodes](_ => 0);
      down := new nat[maxNodes](_ => 0);
      col := new nat[maxNodes](_ => 0);
      size := new int[maxNodes](_ => 0);
      name := new nat[maxNodes](_ => 0);
      columns := new nat[maxColumns](_ => 0);
      curNode := 1;
      count := 0;
      stack := [];
      m := RootOnly(maxNodes);
      new;
      built := Conf(Pool(), {}, [], map[]);
      RootGrowing(maxNodes, Pool());
    }

    /** Takes the next node of the pool and makes it point at itself. */
    method NextNode(n: nat) returns (x: nat)
      requires Built() && Fits(m.n, Pool()) && curNode < m.n && curNode !in m.items
      modifies `curNode, left, right, up, down, size, name
      ensures x == old(curNode) && curNode == x + 1 && Pool() == SelfLoop(old(Pool()), x)
      ensures name[..] == old(name[..])[x := n]
    {
      x := curNode;
      curNode := curNode + 1;
      left[x], right[x], up[x], down[x], size[x], name[x] := x, x, x, x, 0, n;
    }

    method InsertLeft(at: nat, x: nat)
      requires Built() && Fits(m.n, Pool()) && at < m.n && x < m.n && at != x
      modifies left, right
      ensures Pool() == PutLeft(old(Pool()), at, x)
    {
      left[x] := left[at];
      right[x] := at;
      right[left[at]] := x;
      left[at] := x;
    }

    method InsertUp(h: nat, x: nat)
      requires Built() && Fits(m.n, Pool()) && h < m.n && x < m.n && h != x && x !in m.items
      modifies up, down, size, col
      ensures Pool() == PutUp(old(Pool()), h, x)
      ensures col[..] == old(col[..])[x := h]
    {
      up[x] := up[h];
      down[x] := h;
      down[up[h]] := x;
      up[h] := x;
      size[h] := size[h] + 1;
      col[x] := h;
    }

    /** A column that must be covered: its header joins the header list. */
    method AppendColumn(n: nat)
      requires Building() && n < columns.Length && columns[n] == 0 && curNode < m.n
      modifies `curNode, `m, `built, left, right, up, down, size, name, columns
      ensures Building() && curNode == old(curNode) + 1
      ensures m == WithHead(old(m), old(curNode), true)
      ensures columns[..] == old(columns[..])[n := old(curNode)]
    {
      hide Growing, RowsOk, SelfLoop, PutLeft, PutUp, NamesAgree, UpTo;
      GrowingFits(m, built);
      UpToUnused(m, curNode);
      SelfLoopFits(m.n, built.links, curNode);
      var c := NextNode(n);
      InsertLeft(0, c);
      columns[n] := c;
      NamesHead(m, old(name[..]), old(columns[..]), c, n, true);
      HeadAdded(m, built, c, true);
      GrowingFits(WithHead(m, c, true), HeadConf(built, c, true));
      built := HeadConf(built, c, true);
      m := WithHead(m, c, true);
    }

    /** A column that may be covered: its header stays out of the header list. */
    method OptionalColumn(n: nat)
      requires Building() && n < columns.Length && columns[n] == 0 && curNode < m.n
      modifies `curNode, `m, `built, left, right, up, down, size, name, columns
      ensures Building() && curNode == old(curNode) + 1
      ensures m == WithHead(old(m), old(curNode), false)
      ensures columns[..] == old(columns[..])[n := old(curNode)]
    {
      hide Growing, RowsOk, SelfLoop, PutLeft, PutUp, NamesAgree, UpTo;
      GrowingFits(m, built);
      UpToUnused(m, curNode);
      SelfLoopFits(m.n, built.links, curNode);
      var c := NextNode(n);
      columns[n] := c;
      NamesHead(m, old(name[..]), old(columns[..]), c, n, false);
      HeadAdded(m, built, c, false);
      GrowingFits(WithHead(m, c, false), HeadConf(built, c, false));
      built := HeadConf(built, c, false);
      m := WithHead(m, c, false);
    }

    /** A node of column `n`, alone in its row. */
    method NewRow(n: nat, ghost r: Choice) returns (x: nat)
      requires Building() && n < columns.Length && columns[n] != 0 && columns[n] in m.heads && curNode < m.n
      requires NodesOk(m) && Unnamed(m, r)
      modifies `curNode, `m, `built, left, right, up, down, size, name, col
      ensures Building() && x == old(curNode) && curNode == x + 1
      ensures m == WithItem(old(m), columns[n], x, r)
      ensures name[..] == old(name[..])[x := n]
    {
      hide NodesOk, WellFormed, Growing, NamesAgree, UpTo, SelfLoop, PutUp, WithItem, ItemConf, Unnamed;
      ghost var h := columns[n];
      ItemStep(m, built, name[..], columns[..], curNode, n, r);
      x := NextNode(n);
      InsertUp(columns[n], x);
      built := ItemConf(built, h, x);
      m := WithItem(m, h, x, r);
      forall y | y in m.items
        ensures col[y] == m.col[y]
      {
        assert col[..][y] == old(col[..])[x := h][y];
      }
    }

    /** The lone node `y` becomes the last of the row of `x`. */
    method JoinRow(x: nat, y: nat)
      requires Building() && NodesOk(m) && CanJoin(m, x, y)
      modifies `m, `built, left, right
      ensures Building() && m == Joined(old(m), x, y)
    {
      hide NodesOk, WellFormed, Growing, NamesAgree, UpTo, PutLeft, Joined, JoinConf, CanJoin;
      JoinStep(m, built, name[..], columns[..], x, y, curNode);
      InsertLeft(x, y);
      built := JoinConf(built, x, y);
      m := Joined(m, x, y);
    }

    /** A row of four nodes, called `ids[0]`, in the columns of the given names. While it is
        being put together its later nodes go by the other names of `ids`. */
    method AddChoice(ghost ids: seq<Choice>, n0: nat, n1: nat, n2: nat, n3: nat)
      requires Building() && curNode + 4 <= m.n && |ids| == 4 && Free(m, ids)
      requires n0 < columns.Length && n1 < columns.Length && n2 < columns.Length && n3 < columns.Length
      requires columns[n0] != 0 && columns[n1] != 0 && columns[n2] != 0 && columns[n3] != 0
      requires Distinct<nat>([n0, n1, n2, n3])
      modifies `curNode, `m, `built, left, right, up, down, size, name, col
      ensures Building() && curNode == old(curNode) + 4
      ensures RowAdded(old(m), m, ids[0], [columns[n0], columns[n1], columns[n2], columns[n3]])
    {
      hide Growing, RowsOk, NamesAgree, UpTo, RowSoFar, Distinct, Joined, WithItem, CanJoin, Placed, Free, RowAdded;
      ghost var was, x := m, curNode;
      ghost var hs := [columns[n0], columns[n1], columns[n2], columns[n3]];
      ChoiceReady(m, name[..], columns[..], x, [n0, n1, n2, n3], hs, ids);
      PlaceNext(was, m, x, hs, ids, 0);
      var x0 := NewRow(n0, ids[0]);
      PlaceNext(was, m, x, hs, ids, 1);
      var x1 := NewRow(n1, ids[1]);
      PlaceNext(was, m, x, hs, ids, 2);
      var x2 := NewRow(n2, ids[2]);
      PlaceNext(was, m, x, hs, ids, 3);
      var x3 := NewRow(n3, ids[3]);
      AllPlaced(was, m, x, hs, ids);
      JoinChoice(was, hs, ids[0], x0, x1, x2, x3);
    }

    /** Four nodes just placed become one row. */
    method JoinChoice(ghost was: Matrix, ghost hs: seq<nat>, ghost r: Choice, x0: nat, x1: nat, x2: nat, x3: nat)
      requires Building() && |hs| == 4 && Distinct(hs) && RowSoFar(was, m, x0, hs, r, 1)
      requires x1 == x0 + 1 && x2 == x0 + 2 && x3 == x0 + 3
      modifies `m, `built, left, right
      ensures Building() && RowAdded(was, m, r, hs)
    {
      hide RowsOk, NamesAgree, UpTo, RowSoFar, Distinct, Joined, CanJoin, RowAdded;
      RowJoin(was, m, x0, hs, r, 1);
      JoinRow(x0, x1);
      RowJoin(was, m, x0, hs, r, 2);
      JoinRow(x0, x2);
      RowJoin(was, m, x0, hs, r, 3);
      JoinRow(x0, x3);
      RowFinished(was, m, x0, hs, r);
    }

    method UnlinkNode(j: nat)
      requires Built() && j in m.items && Fits(m.n, Pool())
      modifies up, down, size
      ensures Pool() == UnlinkRow(old(Pool()), m.col[j], j)
    {
      up[down[j]] := up[j];
      down[up[j]] := down[j];
      size[col[j]] := size[col[j]] - 1;
    }

    method RelinkNode(j: nat)
      requires Built() && j in m.items && Fits(m.n, Pool())
      modifies up, down, size
      ensures Pool() == RelinkRow(old(Pool()), m.col[j], j)
    {
      size[col[j]] := size[col[j]] + 1;
      up[down[j]] := j;
      down[up[j]] := j;
    }

    method UnlinkHeader(c: nat)
      requires Built() && c in m.heads && Fits(m.n, Pool())
      modifies left, right
      ensures Pool() == UnlinkHead(old(Pool()), c)
    {
      left[right[c]] := left[c];
      right[left[c]] := right[c];
    }

    method RelinkHeader(c: nat)
      requires Built() && c in m.heads && Fits(m.n, Pool())
      modifies left, right
      ensures Pool() == RelinkHead(old(Pool()), c)
    {
      left[right[c]] := c;
      right[left[c]] := c;
    }

    /** Unlinks the nodes to the right of `row`, up to `row` again. */
    method UnlinkMates(row: nat, ghost cf: Conf, ghost c: nat, ghost k: nat)
      requires Built() && Spot(m, cf, c, k, 0) && Pool() == LinksAt(m, cf, c, k, 0)
      requires k < |cf.stacked[c]| && row == cf.stacked[c][k]
      modifies up, down, size
      ensures Spot(m, cf, c, k + 1, 0) && Pool() == LinksAt(m, cf, c, k + 1, 0)
    {
      hide Ring, Distinct, Invariant, LinksAt, RowsOk, UnlinkRow, AllItems;
      WalkRings(m, cf, c, k, 0);
      ghost var mates, t := m.mates[row], 0;
      RingStep(Pool().right, Pool().left, row, mates, 0);
      var j := right[row];
      while j != row
        invariant Built() && t <= |mates| && j == Stop(row, mates, t + 1) && (j == row <==> t == |mates|)
        invariant Spot(m, cf, c, k, t) && Pool() == LinksAt(m, cf, c, k, t)
        decreases |mates| - t
      {
        WalkMate(m, cf, c, k, t);
        UnlinkNode(j);
        t := t + 1;
        WalkRings(m, cf, c, k, t);
        RingStep(Pool().right, Pool().left, row, mates, t);
        j := right[j];
      }
      WalkRow(m, cf, c, k);
    }

    /** Relinks the nodes to the left of `row`, up to `row` again. */
    method RelinkMates(row: nat, ghost cf: Conf, ghost c: nat, ghost k: nat)
      requires Built() && Spot(m, cf, c, k + 1, 0) && Pool() == LinksAt(m, cf, c, k + 1, 0)
      requires row == cf.stacked[c][k]
      modifies up, down, size
      ensures Spot(m, cf, c, k, 0) && Pool() == LinksAt(m, cf, c, k, 0)
    {
      hide Ring, Distinct, Invariant, LinksAt, RowsOk, RelinkRow, AllItems;
      WalkRow(m, cf, c, k);
      ghost var mates := m.mates[row];
      ghost var t: nat := |mates|;
      WalkRings(m, cf, c, k, t);
      RingStep(Pool().right, Pool().left, row, mates, t);
      var j := left[row];
      while j != row
        invariant Built() && t <= |mates| && j == Stop(row, mates, t) && (j == row <==> t == 0)
        invariant Spot(m, cf, c, k, t) && Pool() == LinksAt(m, cf, c, k, t)
        decreases t
      {
        WalkMate(m, cf, c, k, t - 1);
        RelinkNode(j);
        t := t - 1;
        WalkRings(m, cf, c, k, t);
        RingStep(Pool().right, Pool().left, row, mates, t);
        j := left[j];
      }
    }

    /** Takes column `c` out: header first, then the mates of each of its nodes. */
    method Cover(c: nat, ghost cf: Conf)
      requires Built() && Invariant(m, cf) && Pool() == cf.links
      requires c in m.heads && c !in cf.gone
      modifies left, right, up, down, size
      ensures Pool() == CoverConf(m, cf, c).links
    {
      hide Ring, Distinct, Invariant, LinksAt, RowsOk, UnlinkHead, CoverConf, AllItems;
      WalkStart(m, cf, c);
      UnlinkHeader(c);
      ghost var list, k := cf.stacked[c], 0;
      WalkRings(m, cf, c, 0, 0);
      RingStep(Pool().down, Pool().up, c, list, 0);
      var row := down[c];
      while row != c
        invariant Built() && k <= |list| && row == Stop(c, list, k + 1) && (row == c <==> k == |list|)
        invariant Spot(m, cf, c, k, 0) && Pool() == LinksAt(m, cf, c, k, 0)
        decreases |list| - k
      {
        UnlinkMates(row, cf, c, k);
        k := k + 1;
        WalkRings(m, cf, c, k, 0);
        RingStep(Pool().down, Pool().up, c, list, k);
        row := down[row];
      }
      WalkEnd(m, cf, c);
    }

    /** Puts column `c` back, in the reverse of the order of `Cover`: every link and every
        size is again what it was before. */
    method Uncover(c: nat, ghost cf: Conf)
      requires Built() && Invariant(m, cf) && c in m.heads && c !in cf.gone
      requires Pool() == CoverConf(m, cf, c).links
      modifies left, right, up, down, size
      ensures Pool() == cf.links
    {
      hide Ring, Distinct, Invariant, LinksAt, RowsOk, UnlinkHead, CoverConf, AllItems, RelinkHead;
      WalkStart(m, cf, c);
      WalkEnd(m, cf, c);
      ghost var list := cf.stacked[c];
      ghost var k: nat := |list|;
      WalkRings(m, cf, c, k, 0);
      RingStep(Pool().down, Pool().up, c, list, k);
      var row := up[c];
      while row != c
        invariant Built() && k <= |list| && row == Stop(c, list, k) && (row == c <==> k == 0)
        invariant Spot(m, cf, c, k, 0) && Pool() == LinksAt(m, cf, c, k, 0)
        decreases k
      {
        RelinkMates(row, cf, c, k - 1);
        k := k - 1;
        WalkRings(m, cf, c, k, 0);
        RingStep(Pool().down, Pool().up, c, list, k);
        row := up[row];
      }
      RelinkHeader(c);
    }

    /** The first listed column of least size; a size of at most 1 ends the scan early. */
    method GetMinColumn(ghost cf: Conf) returns (c: nat)
      requires Built() && Invariant(m, cf) && Pool() == cf.links && cf.listed != []
      ensures exists i :: 0 <= i < |cf.listed| && cf.listed[i] == c && IsMinColumn(cf, i)
      ensures c in m.primary && c !in cf.gone
    {
      hide Ring, Distinct, RowsOk, Stacked, RowRings, OpenOnly, SecondaryLoops;
      ghost var list := cf.listed;
      RingStep(cf.links.right, cf.links.left, 0, list, 0);
      c := right[0];
      assert list[0] in list;
      var minSize := size[c];
      ghost var best := 0;
      assert c == list[0];
      if minSize > 1 {
        ghost var k := 1;
        RingStep(cf.links.right, cf.links.left, 0, list, 1);
        var cc := right[c];
        while cc != 0
          invariant 1 <= k <= |list| && cc == Stop(0, list, k + 1) && (cc == 0 <==> k == |list|)
          invariant best < k && c == list[best] && c < m.n && cc < m.n && minSize == size[c] && minSize > 1
          invariant forall i :: 0 <= i < k ==> list[i] < m.n && minSize <= size[list[i]]
          invariant forall i :: 0 <= i < best ==> minSize < size[list[i]]
          decreases |list| - k
        {
          assert cc == list[k] && list[k] in list;
          if minSize > size[cc] {
            c := cc;
            minSize := size[cc];
            best := k;
            if minSize <= 1 {
              break;
            }
          }
          k := k + 1;
          RingStep(cf.links.right, cf.links.left, 0, list, k);
          cc := right[cc];
        }
      }
      forall j | 0 <= j < |list|
        ensures list[j] < m.n
      {
        assert list[j] in list;
      }
      assert IsMinColumn(cf, best);
    }

    /** Listed column number `i` is smaller than all before it, and no larger than any
        after it unless its own size is at most 1. */
    ghost predicate IsMinColumn(cf: Conf, i: nat)
      requires i < |cf.listed| && forall j :: 0 <= j < |cf.listed| ==> cf.listed[j] < |cf.links.size|
    {
      var s, list := cf.links.size, cf.listed;
      && (forall j :: 0 <= j < i ==> s[list[i]] < s[list[j]])
      && (s[list[i]] <= 1 || forall j :: 0 <= j < |list| ==> s[list[i]] <= s[list[j]])
    }

    /** Covers the columns of the other nodes of a row, going right from `row`. */
    method CoverRow(row: nat, ghost cf: Conf)
      requires Built() && row in m.items && Pending(m, cf, m.mates[row]) && Pool() == cf.links
      modifies left, right, up, down, size
      ensures Pool() == CoverMany(m, cf, m.mates[row]).links
    {
      hide Ring, Distinct, Invariant, RowsOk, CoverConf, CoverMany, Pending, Stop;
      ghost var mates, t := m.mates[row], 0;
      ManyStart(m, cf, mates);
      ManyRings(m, cf, row, 0);
      var j := right[row];
      while j != row
        invariant t <= |mates| && j == Stop(row, mates, t + 1) && (j == row <==> t == |mates|)
        invariant Pending(m, cf, mates[..t]) && Pool() == CoverMany(m, cf, mates[..t]).links
        decreases |mates| - t
      {
        ManyNext(m, cf, row, t);
        Cover(col[j], CoverMany(m, cf, mates[..t]));
        t := t + 1;
        ManyRings(m, cf, row, t);
        j := right[j];
      }
      assert mates[..t] == mates;
    }

    /** Uncovers the columns of the other nodes of a row, going left from `row`. */
    method UncoverRow(row: nat, ghost cf: Conf)
      requires Built() && row in m.items && Pending(m, cf, m.mates[row])
      requires Pool() == CoverMany(m, cf, m.mates[row]).links
      modifies left, right, up, down, size
      ensures Pool() == cf.links
    {
      hide Ring, Distinct, Invariant, RowsOk, CoverConf, CoverMany, Pending, Stop;
      ghost var mates := m.mates[row];
      ghost var t: nat := |mates|;
      assert mates[..t] == mates;
      ManyRings(m, cf, row, t);
      var j := left[row];
      while j != row
        invariant t <= |mates| && j == Stop(row, mates, t) && (j == row <==> t == 0)
        invariant Pending(m, cf, mates[..t]) && Pool() == CoverMany(m, cf, mates[..t]).links
        decreases t
      {
        t := t - 1;
        ManyNext(m, cf, row, t);
        Uncover(col[j], CoverMany(m, cf, mates[..t]));
        ManyRings(m, cf, row, t);
        j := left[j];
      }
      ManyStart(m, cf, mates);
    }

    /** Counts the exact covers of what is left, and leaves every link and every column size
        exactly as it found them. */
    method Solve(ghost cf: Conf)
      requires Built() && Invariant(m, cf) && Pool() == cf.links && Anchored(ProblemOf(m))
      modifies left, right, up, down, size, `count
      ensures Pool() == cf.links
      ensures count == old(count) + |Covers(ProblemOf(m), cf.gone)|
      decreases m.primary - cf.gone
    {
      hide Invariant, RowsOk, Covers, CoversWithAny, CoverConf, CoverMany, Pending, RowColumns, RowIds, AllItems;
      hide Anchored;
      ghost var p := ProblemOf(m);
      RootAlone(m, cf);
      if left[0] == 0 {
        CoversDone(p, cf.gone);
        count := count + 1;
        return;
      }
      var c := GetMinColumn(cf);
      Cover(c, cf);
      CoverKeeps(m, cf, c);
      ghost var list, cf1 := cf.stacked[c], CoverConf(m, cf, c);
      ColumnRowsDiffer(m, cf, c);
      ghost var ids := RowIds(m, list);
      ghost var k := 0;
      ColumnStep(m, cf1, c, 0);
      assert CoversWithAny(p, cf.gone, ids[..0]) == {} by { NoRowsNoCovers(p, cf.gone, ids[..0]); }
      var row := down[c];
      while row != c
        invariant k <= |list| && row == Stop(c, list, k + 1) && (row == c <==> k == |list|)
        invariant Pool() == cf1.links
        invariant count == old(count) + |CoversWithAny(p, cf.gone, ids[..k])|
        decreases |list| - k
      {
        assert row == list[k];
        RowPending(m, cf, c, k);
        CoverRow(row, cf1);
        Solve(CoverMany(m, cf1, m.mates[row]));
        UncoverRow(row, cf1);
        BranchAdds(m, cf, c, k);
        k := k + 1;
        ColumnStep(m, cf1, c, k);
        row := down[row];
      }
      assert ids[..k] == ids;
      BranchesDone(m, cf, c);
      Uncover(c, cf);
    }

    /** Takes the row of node number `k` of column `c`, and goes on from there. */
    method TryRow(row: nat, ghost cf: Conf, ghost c: nat, ghost k: nat) returns (ok: bool, ghost added: seq<nat>)
      requires Built() && Invariant(m, cf) && Anchored(ProblemOf(m))
      requires c in m.primary && c in m.heads && c !in cf.gone && Pool() == CoverConf(m, cf, c).links
      requires c in cf.stacked && k < |cf.stacked[c]| && row == cf.stacked[c][k] && AllItems(m, cf.stacked[c])
      modifies left, right, up, down, size, `stack
      ensures stack == old(stack) + added && AllItems(m, added)
      ensures ok ==> Chosen(m, added) in Covers(ProblemOf(m), cf.gone)
      ensures !ok ==> Pool() == old(Pool()) && added == []
      ensures !ok ==> Covers(ProblemOf(m), cf.gone + RowColumns(m, RowIds(m, cf.stacked[c])[k])) == {}
      ensures ok ==> Fits(m.n, Pool()) && RowRings(m, Pool())
      decreases m.primary - cf.gone, 0
    {
      hide Invariant, RowsOk, Covers, CoverConf, CoverMany, Pending, RowColumns, RowIds, AllItems, Anchored, Chosen;
      hide RowRings;
      CoverKeeps(m, cf, c);
      RowPending(m, cf, c, k);
      ghost var cf1 := CoverConf(m, cf, c);
      stack := stack + [row];
      CoverRow(row, cf1);
      ok, added := SolveFirst(CoverMany(m, cf1, m.mates[row]));
      if ok {
        ChoiceCovers(m, cf, c, k, added);
        added := [row] + added;
      } else {
        NothingChosen(m);
        stack := stack[..|stack| - 1];
        UncoverRow(row, cf1);
      }
    }

    /** Looks for one exact cover of what is left. When there is one, the stack gains a node
        of each row of it; when there is none, links, sizes and stack are as they were. */
    method SolveFirst(ghost cf: Conf) returns (ok: bool, ghost added: seq<nat>)
      requires Built() && Invariant(m, cf) && Pool() == cf.links && Anchored(ProblemOf(m))
      modifies left, right, up, down, size, `stack
      ensures ok == (Covers(ProblemOf(m), cf.gone) != {})
      ensures stack == old(stack) + added && AllItems(m, added)
      ensures !ok ==> Pool() == cf.links && added == []
      ensures ok ==> Chosen(m, added) in Covers(ProblemOf(m), cf.gone)
      ensures Fits(m.n, Pool()) && RowRings(m, Pool())
      decreases m.primary - cf.gone, 1
    {
      hide Invariant, RowsOk, Covers, CoversWithAny, CoverConf, CoverMany, Pending, RowColumns, RowIds, AllItems;
      hide Anchored;
      hide Chosen, RowRings, IsMinColumn;
      ghost var p := ProblemOf(m);
      added := [];
      RootAlone(m, cf);
      InvariantRows(m, cf);
      NothingChosen(m);
      if left[0] == 0 {
        CoversDone(p, cf.gone);
        return true, [];
      }
      var c := GetMinColumn(cf);
      Cover(c, cf);
      CoverKeeps(m, cf, c);
      ghost var list, cf1 := cf.stacked[c], CoverConf(m, cf, c);
      ColumnRowsDiffer(m, cf, c);
      ghost var ids := RowIds(m, list);
      ghost var k := 0;
      ColumnStep(m, cf1, c, 0);
      NoRowsNoCovers(p, cf.gone, ids[..0]);
      var row := down[c];
      while row != c
        invariant k <= |list| && row == Stop(c, list, k + 1) && (row == c <==> k == |list|)
        invariant Pool() == cf1.links && stack == old(stack)
        invariant CoversWithAny(p, cf.gone, ids[..k]) == {}
        decreases |list| - k
      {
        ok, added := TryRow(row, cf, c, k);
        if ok {
          return;
        }
        BranchFails(m, cf, c, k);
        k := k + 1;
        ColumnStep(m, cf1, c, k);
        row := down[row];
      }
      assert ids[..k] == ids;
      BranchesDone(m, cf, c);
      Uncover(c, cf);
      return false, [];
    }
  }
}
