/** How the pool of nodes grows into a matrix: each step of the construction keeps the
    search invariant, for the matrix built so far. */
module MatrixBuild {
  import opened ExactCover
  import opened LinkPool
  import opened Sets

  /** A node that points only at itself. */
  function SelfLoop(s: Links, x: nat): Links
    requires Fits(|s.left|, s) && x < |s.left|
  {
    Links(s.left[x := x], s.right[x := x], s.up[x := x], s.down[x := x], s.size[x := 0])
  }

  lemma SelfLoopFits(n: nat, s: Links, x: nat)
    requires Fits(n, s) && x < n
    ensures |s.left| == n && Fits(n, SelfLoop(s, x))
  {
  }

  /** Puts `x` on the left of `at`. */
  function PutLeft(s: Links, at: nat, x: nat): Links
    requires Fits(|s.left|, s) && x < |s.left| && at < |s.left|
  {
    var l := s.left[at];
    s.(left := s.left[x := l][at := x], right := s.right[x := at][l := x])
  }

  /** Puts `x` at the bottom of the column of header `h`. */
  function PutUp(s: Links, h: nat, x: nat): Links
    requires Fits(|s.left|, s) && x < |s.left| && h < |s.left|
  {
    var u := s.up[h];
    s.(up := s.up[x := u][h := x], down := s.down[x := h][u := x], size := s.size[h := s.size[h] + 1])
  }

  /** Inserting `x` just before the start of a ring appends it to the list. */
  lemma RingAppend(next: seq<nat>, prev: seq<nat>, h: nat, list: seq<nat>, x: nat)
    requires Ring(next, prev, h, list) && x < |next| && x != h && x !in list
    ensures prev[h] < |next|
    ensures Ring(next[x := h][prev[h] := x], prev[x := prev[h]][h := x], h, list + [x])
  {
    var u, n := prev[h], |list|;
    RingStep(next, prev, h, list, n);
    assert u == Stop(h, list, n);
    var next', prev', list' := next[x := h][u := x], prev[x := u][h := x], list + [x];
    forall i, j | 0 <= i <= |list'| && j == i + 1
      ensures next'[Stop(h, list', i)] == Stop(h, list', j)
      ensures prev'[Stop(h, list', j)] == Stop(h, list', i)
    {
      if i < n {
        assert Stop(h, list', i) == Stop(h, list, i) && Stop(h, list', j) == Stop(h, list, j);
        DistinctStops(h, list, i, n);
        if 0 < j {
          assert Stop(h, list, j) != h;
        }
      } else if i == n {
        assert Stop(h, list', i) == u && Stop(h, list', j) == x;
      }
    }
  }

  /** A ring may be read from any of its nodes. */
  lemma RingRotate(next: seq<nat>, prev: seq<nat>, h: nat, list: seq<nat>, k: nat)
    requires Ring(next, prev, h, list) && k < |list|
    ensures Ring(next, prev, list[k], list[k + 1..] + [h] + list[..k])
  {
    var h', list' := list[k], list[k + 1..] + [h] + list[..k];
    var n := |list|;
    forall i, j | 0 <= i <= n && j == i + 1
      ensures next[Stop(h', list', i)] == Stop(h', list', j)
      ensures prev[Stop(h', list', j)] == Stop(h', list', i)
    {
      if i < n - k {
        assert Stop(h', list', i) == Stop(h, list, i + k + 1);
        assert Stop(h', list', j) == Stop(h, list, i + k + 2);
        RingStep(next, prev, h, list, i + k + 1);
      } else {
        assert Stop(h', list', i) == Stop(h, list, i + k - n);
        assert Stop(h', list', j) == Stop(h, list, i + k - n + 1);
        RingStep(next, prev, h, list, i + k - n);
      }
    }
  }

  ghost predicate Unused(m: Matrix, x: nat) {
    0 < x < m.n && x !in m.heads && x !in m.items
  }

  /** No row is called `r` yet. */
  ghost predicate Unnamed(m: Matrix, r: Choice)
    requires NodesOk(m)
  {
    forall y :: y in m.items ==> m.rowOf[y] != r
  }

  /** A matrix under construction: nothing is covered yet. */
  ghost predicate Growing(m: Matrix, cf: Conf) {
    Invariant(m, cf) && cf.gone == {}
  }

  lemma GrowingFits(m: Matrix, cf: Conf)
    requires Growing(m, cf)
    ensures WellFormed(m) && NodesOk(m) && Fits(m.n, cf.links) && cf.stacked.Keys == m.heads
  {
  }

  /** While nothing is covered, a column holds exactly its nodes. */
  lemma OpenOnlyGrowing(m: Matrix, cf: Conf, h: nat)
    requires NodesOk(m) && cf.gone == {} && h in cf.stacked
    ensures OpenOnly(m, cf, h) <==> forall x :: x in m.items ==> (x in cf.stacked[h] <==> m.col[x] == h)
  {
  }

  lemma SelfLoopRows(m: Matrix, cf: Conf, x: nat)
    requires Growing(m, cf) && Unused(m, x)
    ensures var s := SelfLoop(cf.links, x);
            && Fits(m.n, s) && Ring(s.right, s.left, 0, cf.listed) && SecondaryLoops(m, s) && RowRings(m, s)
  {
    hide Ring, Distinct, RowsOk, OpenOnly, MatesListed, Stacked;
    var s, t := cf.links, SelfLoop(cf.links, x);
    RingFrame(s.right, s.left, t.right, t.left, 0, cf.listed);
    HeadFrame(m, s, t);
  }

  lemma SelfLoopColumns(m: Matrix, cf: Conf, x: nat)
    requires Growing(m, cf) && Unused(m, x)
    ensures Fits(m.n, SelfLoop(cf.links, x)) && Stacked(m, SelfLoop(cf.links, x), cf.stacked)
  {
    hide Ring, Distinct, RowsOk, OpenOnly, MatesListed, ListedOk, RowRings, SecondaryLoops;
    var s, t := cf.links, SelfLoop(cf.links, x);
    forall h | h in m.heads
      ensures ColumnRing(m, t, h, cf.stacked[h])
    {
      assert ColumnRing(m, s, h, cf.stacked[h]);
      RingFrame(s.down, s.up, t.down, t.up, h, cf.stacked[h]);
    }
  }

  // ------------------------------------------------------------------ a new column

  ghost function WithHead(m: Matrix, x: nat, primary: bool): Matrix {
    m.(heads := m.heads + {x}, primary := if primary then m.primary + {x} else m.primary)
  }

  ghost function HeadConf(cf: Conf, x: nat, primary: bool): Conf
    requires Fits(|cf.links.left|, cf.links) && 0 < x < |cf.links.left|
  {
    var s := SelfLoop(cf.links, x);
    if primary then Conf(PutLeft(s, 0, x), {}, cf.listed + [x], cf.stacked[x := []])
    else Conf(s, {}, cf.listed, cf.stacked[x := []])
  }

  lemma WithHeadWellFormed(m: Matrix, x: nat, primary: bool)
    requires WellFormed(m) && Unused(m, x)
    ensures WellFormed(WithHead(m, x, primary))
  {
    hide Distinct;
    var m' := WithHead(m, x, primary);
    forall y, z
      ensures Mates(m', y, z) <==> Mates(m, y, z)
    {
    }
    forall y | y in m'.items
      ensures MatesListed(m', y)
    {
      assert MatesListed(m, y);
    }
  }

  lemma ColumnsTransfer(m: Matrix, m': Matrix, s: Links, s': Links, stacked: map<nat, seq<nat>>)
    requires NodesOk(m) && NodesOk(m') && Fits(m.n, s) && Fits(m'.n, s') && m'.n == m.n && Stacked(m, s, stacked)
    requires m.heads <= m'.heads && m.items <= m'.items && forall x :: x in m.items ==> m'.col[x] == m.col[x]
    requires s'.up == s.up && s'.down == s.down && s'.size == s.size
    ensures forall h :: h in m.heads ==> ColumnRing(m', s', h, stacked[h])
  {
    hide Ring;
    forall h | h in m.heads
      ensures ColumnRing(m', s', h, stacked[h])
    {
      assert ColumnRing(m, s, h, stacked[h]);
    }
  }

  lemma HeadListed(m: Matrix, cf: Conf, x: nat, primary: bool)
    requires Growing(m, cf) && Unused(m, x)
    ensures WellFormed(WithHead(m, x, primary))
    ensures var m', cf' := WithHead(m, x, primary), HeadConf(cf, x, primary);
            Fits(m.n, cf'.links) && ListedOk(m', cf') && SecondaryLoops(m', cf'.links) && RowRings(m', cf'.links)
  {
    hide Ring, Distinct, RowsOk, MatesListed, Stacked, OpenOnly;
    WithHeadWellFormed(m, x, primary);
    SelfLoopRows(m, cf, x);
    if primary {
      var s := SelfLoop(cf.links, x);
      RingDropLast(s.right, s.left, 0, cf.listed);
      RingAppend(s.right, s.left, 0, cf.listed, x);
      HeadFrame(m, s, PutLeft(s, 0, x));
    }
  }

  lemma HeadStacked(m: Matrix, cf: Conf, x: nat, primary: bool)
    requires Growing(m, cf) && Unused(m, x) && WellFormed(WithHead(m, x, primary))
    requires Fits(m.n, HeadConf(cf, x, primary).links)
    ensures Stacked(WithHead(m, x, primary), HeadConf(cf, x, primary).links, HeadConf(cf, x, primary).stacked)
  {
    hide Ring, Distinct, RowsOk, MatesListed, OpenOnly, ListedOk, SecondaryLoops, RowRings;
    var m', cf' := WithHead(m, x, primary), HeadConf(cf, x, primary);
    SelfLoopColumns(m, cf, x);
    ColumnsTransfer(m, m', SelfLoop(cf.links, x), cf'.links, cf.stacked);
    EmptyRing(cf'.links.down, cf'.links.up, x);
  }

  /** A new column header, listed when it is primary, keeps the invariant. */
  lemma HeadAdded(m: Matrix, cf: Conf, x: nat, primary: bool)
    requires Growing(m, cf) && Unused(m, x)
    ensures Growing(WithHead(m, x, primary), HeadConf(cf, x, primary))
  {
    HeadListed(m, cf, x, primary);
    hide RowsOk, ListedOk, SecondaryLoops, RowRings, ColumnRing, SelfLoop, PutLeft, OpenOnly;
    HeadStacked(m, cf, x, primary);
    var m', cf' := WithHead(m, x, primary), HeadConf(cf, x, primary);
    forall h | h in m'.heads
      ensures OpenOnly(m', cf', h)
    {
      OpenOnlyGrowing(m', cf', h);
      if h != x {
        assert OpenOnly(m, cf, h);
        OpenOnlyGrowing(m, cf, h);
      }
    }
  }

  lemma EmptyRing(next: seq<nat>, prev: seq<nat>, h: nat)
    requires |next| == |prev| && h < |next| && next[h] == h && prev[h] == h
    ensures Ring(next, prev, h, [])
  {
  }

  /** The node before the start of a ring is its last. */
  lemma RingDropLast(next: seq<nat>, prev: seq<nat>, h: nat, list: seq<nat>)
    requires Ring(next, prev, h, list)
    ensures h < |prev| && (prev[h] == h || prev[h] in list)
  {
    RingStep(next, prev, h, list, |list|);
  }

  // ------------------------------------------------------------------ a new node

  ghost function WithItem(m: Matrix, h: nat, x: nat, r: Choice): Matrix {
    m.(items := m.items + {x}, col := m.col[x := h], rowOf := m.rowOf[x := r], mates := m.mates[x := []])
  }

  ghost function ItemConf(cf: Conf, h: nat, x: nat): Conf
    requires Fits(|cf.links.left|, cf.links) && x < |cf.links.left| && h < |cf.links.left| && h in cf.stacked
  {
    Conf(PutUp(SelfLoop(cf.links, x), h, x), {}, cf.listed, cf.stacked[h := cf.stacked[h] + [x]])
  }

  lemma WithItemWellFormed(m: Matrix, h: nat, x: nat, r: Choice)
    requires WellFormed(m) && Unused(m, x) && h in m.heads && Unnamed(m, r)
    ensures WellFormed(WithItem(m, h, x, r))
  {
    hide Distinct;
    var m' := WithItem(m, h, x, r);
    forall y, z
      ensures Mates(m', y, z) <==> Mates(m, y, z)
    {
    }
    DistinctEmpty<nat>();
    forall y | y in m'.items
      ensures MatesListed(m', y)
    {
      if y != x {
        assert MatesListed(m, y);
      }
    }
  }

  lemma DistinctEmpty<T>()
    ensures Distinct<T>([])
  {
  }

  lemma ItemListed(m: Matrix, cf: Conf, h: nat, x: nat, r: Choice)
    requires Growing(m, cf) && Unused(m, x) && h in m.heads && Unnamed(m, r)
    ensures h in cf.stacked && WellFormed(WithItem(m, h, x, r))
    ensures var m', cf' := WithItem(m, h, x, r), ItemConf(cf, h, x);
            Fits(m.n, cf'.links) && ListedOk(m', cf') && SecondaryLoops(m', cf'.links) && RowRings(m', cf'.links)
  {
    hide Ring, Distinct, RowsOk, MatesListed, OpenOnly, ColumnRing;
    WithItemWellFormed(m, h, x, r);
    SelfLoopRows(m, cf, x);
    var s' := ItemConf(cf, h, x).links;
    EmptyRing(s'.right, s'.left, x);
  }

  lemma OwnColumnGrows(m: Matrix, s: Links, h: nat, x: nat, list: seq<nat>)
    requires NodesOk(m) && Fits(m.n, s) && Unused(m, x) && h in m.heads && ColumnRing(m, s, h, list)
    ensures Fits(m.n, PutUp(s, h, x)) && Ring(PutUp(s, h, x).down, PutUp(s, h, x).up, h, list + [x])
    ensures PutUp(s, h, x).size[h] == |list + [x]|
  {
    hide Ring;
    RingDropLast(s.down, s.up, h, list);
    RingAppend(s.down, s.up, h, list, x);
  }

  lemma OtherColumnKept(m: Matrix, s: Links, h: nat, x: nat, list: seq<nat>, k: nat, other: seq<nat>)
    requires NodesOk(m) && Fits(m.n, s) && Unused(m, x) && h in m.heads && k in m.heads && k != h
    requires ColumnRing(m, s, h, list) && ColumnRing(m, s, k, other)
    ensures Fits(m.n, PutUp(s, h, x)) && ColumnRing(m, PutUp(s, h, x), k, other)
  {
    hide Ring;
    var s' := PutUp(s, h, x);
    RingDropLast(s.down, s.up, h, list);
    forall y | y == k || y in other
      ensures y < m.n && s'.down[y] == s.down[y] && s'.up[y] == s.up[y]
    {
      assert y != h && y !in list && y != x;
    }
    RingFrame(s.down, s.up, s'.down, s'.up, k, other);
  }

  lemma ColumnWidens(m: Matrix, s: Links, h: nat, x: nat, r: Choice, k: nat, list: seq<nat>)
    requires NodesOk(m) && NodesOk(WithItem(m, h, x, r)) && Unused(m, x) && Fits(m.n, s)
    requires k in m.heads && ColumnRing(m, s, k, list)
    ensures ColumnRing(WithItem(m, h, x, r), s, k, list)
  {
    hide Ring;
  }

  lemma OwnColumnWidens(m: Matrix, s: Links, h: nat, x: nat, r: Choice, list: seq<nat>)
    requires NodesOk(m) && NodesOk(WithItem(m, h, x, r)) && Unused(m, x) && Fits(m.n, s)
    requires h in m.heads && ColumnRing(m, s, h, list)
    ensures Fits(m.n, PutUp(s, h, x)) && ColumnRing(WithItem(m, h, x, r), PutUp(s, h, x), h, list + [x])
  {
    hide Ring;
    OwnColumnGrows(m, s, h, x, list);
  }

  lemma ItemStacked(m: Matrix, cf: Conf, h: nat, x: nat, r: Choice)
    requires Growing(m, cf) && Unused(m, x) && h in m.heads && h in cf.stacked
    requires NodesOk(WithItem(m, h, x, r)) && Fits(m.n, ItemConf(cf, h, x).links)
    ensures Stacked(WithItem(m, h, x, r), ItemConf(cf, h, x).links, ItemConf(cf, h, x).stacked)
  {
    hide Ring, RowsOk, OpenOnly, ListedOk, SecondaryLoops, RowRings, PutUp, SelfLoop, ColumnRing;
    var m', cf' := WithItem(m, h, x, r), ItemConf(cf, h, x);
    SelfLoopColumns(m, cf, x);
    var s := SelfLoop(cf.links, x);
    OwnColumnWidens(m, s, h, x, r, cf.stacked[h]);
    forall k | k in m.heads && k != h
      ensures ColumnRing(m', cf'.links, k, cf'.stacked[k])
    {
      OtherColumnKept(m, s, h, x, cf.stacked[h], k, cf.stacked[k]);
      ColumnWidens(m, cf'.links, h, x, r, k, cf.stacked[k]);
    }
  }

  lemma ItemOpen(m: Matrix, cf: Conf, h: nat, x: nat, r: Choice, k: nat)
    requires Growing(m, cf) && Unused(m, x) && h in m.heads && h in cf.stacked && k in m.heads
    requires NodesOk(WithItem(m, h, x, r))
    ensures k in ItemConf(cf, h, x).stacked && OpenOnly(WithItem(m, h, x, r), ItemConf(cf, h, x), k)
  {
    hide Ring, RowsOk, OpenOnly, ListedOk, SecondaryLoops, RowRings, PutUp, SelfLoop;
    assert OpenOnly(m, cf, k);
    assert ColumnRing(m, cf.links, k, cf.stacked[k]);
    OpenOnlyGrowing(m, cf, k);
    OpenOnlyGrowing(WithItem(m, h, x, r), ItemConf(cf, h, x), k);
  }

  /** A new node, alone in its row at the bottom of its column, keeps the invariant. */
  lemma ItemAdded(m: Matrix, cf: Conf, h: nat, x: nat, r: Choice)
    requires Growing(m, cf) && Unused(m, x) && h in m.heads && Unnamed(m, r)
    ensures h in cf.stacked && Growing(WithItem(m, h, x, r), ItemConf(cf, h, x))
  {
    ItemListed(m, cf, h, x, r);
    hide RowsOk, ListedOk, SecondaryLoops, RowRings, SelfLoop, PutUp, OpenOnly, ColumnRing;
    ItemStacked(m, cf, h, x, r);
    var m', cf' := WithItem(m, h, x, r), ItemConf(cf, h, x);
    forall k | k in m'.heads
      ensures OpenOnly(m', cf', k)
    {
      ItemOpen(m, cf, h, x, r, k);
    }
  }

  // ------------------------------------------------------------------ joining a row

  /** The nodes after `list[i]` in the ring of `x` and `list`. */
  function Onwards(x: nat, list: seq<nat>, i: nat): seq<nat>
    requires i < |list|
  {
    list[i + 1..] + [x] + list[..i]
  }

  ghost function JoinedMates(m: Matrix, x: nat, y: nat, z: nat): seq<nat>
    requires z in m.mates && x in m.mates
  {
    var list := m.mates[x] + [y];
    if z == x then list
    else if z in list then Onwards(x, list, IndexOf(list, z))
    else m.mates[z]
  }

  /** Node `y` joins the row of `x`, as the last going right from `x`. */
  ghost function Joined(m: Matrix, x: nat, y: nat): Matrix
    requires NodesOk(m) && x in m.items && y in m.items
  {
    m.(rowOf := m.rowOf[y := m.rowOf[x]], mates := map z | z in m.items :: JoinedMates(m, x, y, z))
  }

  ghost function JoinConf(cf: Conf, x: nat, y: nat): Conf
    requires Fits(|cf.links.left|, cf.links) && x < |cf.links.left| && y < |cf.links.left|
  {
    cf.(links := PutLeft(cf.links, x, y))
  }

  ghost predicate CanJoin(m: Matrix, x: nat, y: nat)
    requires NodesOk(m)
  {
    && x in m.items && y in m.items && x != y && m.mates[y] == []
    && m.col[x] != m.col[y] && (forall z :: Mates(m, x, z) ==> m.col[z] != m.col[y])
  }

  lemma OnwardsFacts(x: nat, list: seq<nat>, i: nat)
    requires i < |list| && Distinct(list) && x !in list
    ensures Distinct(Onwards(x, list, i))
    ensures forall z :: z in Onwards(x, list, i) <==> z == x || (z in list && z != list[i])
  {
    assert list == list[..i] + [list[i]] + list[i + 1..];
    DistinctParts(list, i);
    DistinctConcat(list[i + 1..], [x]);
    DistinctConcat(list[i + 1..] + [x], list[..i]);
  }

  lemma DistinctParts(list: seq<nat>, i: nat)
    requires i < |list| && Distinct(list)
    ensures Distinct(list[..i]) && Distinct(list[i + 1..])
    ensures forall z :: z in list[..i] ==> z !in list[i + 1..] && z != list[i]
    ensures list[i] !in list[i + 1..]
  {
  }

  lemma DistinctSnoc(list: seq<nat>, y: nat)
    requires Distinct(list) && y !in list
    ensures Distinct(list + [y])
  {
    DistinctConcat(list, [y]);
  }

  lemma JoinedMatesOf(m: Matrix, x: nat, y: nat, a: nat, b: nat)
    requires WellFormed(m) && CanJoin(m, x, y) && NodesOk(Joined(m, x, y)) && a in m.items && b in m.items
    ensures Mates(Joined(m, x, y), a, b) <==>
              Mates(m, a, b) || (a == y && (b == x || Mates(m, x, b))) || (b == y && (a == x || Mates(m, x, a)))
  {
    hide Distinct;
    assert MatesListed(m, y);
    assert !Mates(m, y, a) && !Mates(m, y, b) && !Mates(m, a, y) && !Mates(m, b, y) by {
      assert a !in m.mates[y] && b !in m.mates[y];
      assert Mates(m, a, y) == Mates(m, y, a) && Mates(m, b, y) == Mates(m, y, b);
    }
  }

  lemma JoinedWellFormed(m: Matrix, x: nat, y: nat)
    requires WellFormed(m) && CanJoin(m, x, y)
    ensures WellFormed(Joined(m, x, y))
  {
    hide Distinct;
    var m' := Joined(m, x, y);
    var list := m.mates[x] + [y];
    assert MatesListed(m, x) && MatesListed(m, y);
    assert !Mates(m, x, y);
    DistinctSnoc(m.mates[x], y);
    assert x !in list;
    forall a, b | a in m.items && b in m.items
      ensures Mates(m', a, b) <==>
                Mates(m, a, b) || (a == y && (b == x || Mates(m, x, b))) || (b == y && (a == x || Mates(m, x, a)))
    {
      JoinedMatesOf(m, x, y, a, b);
    }
    forall z | z in m'.items
      ensures MatesListed(m', z)
    {
      assert MatesListed(m, z);
      if z in list && z != x {
        OnwardsFacts(x, list, IndexOf(list, z));
      }
    }
  }

  lemma RowTransfer(m: Matrix, s: Links, s': Links, x: nat, y: nat)
    requires WellFormed(m) && Fits(m.n, s) && RowRings(m, s) && CanJoin(m, x, y) && s' == PutLeft(s, x, y)
    ensures Fits(m.n, s') && RowRings(Joined(m, x, y), s')
    ensures forall z :: z in m.heads || z == 0 ==> s'.left[z] == s.left[z] && s'.right[z] == s.right[z]
  {
    hide Ring, Distinct;
    var m', list := Joined(m, x, y), m.mates[x] + [y];
    assert MatesListed(m, x) && MatesListed(m, y);
    assert !Mates(m, x, y);
    RingDropLast(s.right, s.left, x, m.mates[x]);
    RingAppend(s.right, s.left, x, m.mates[x], y);
    forall z | z in m.items
      ensures Ring(s'.right, s'.left, z, m'.mates[z])
    {
      if z == x {
      } else if z in list {
        RingRotate(s'.right, s'.left, x, list, IndexOf(list, z));
      } else {
        RingElsewhere(m, s, x, y, z);
      }
    }
  }

  /** The ring of a row that is not joined stays. */
  lemma RingElsewhere(m: Matrix, s: Links, x: nat, y: nat, z: nat)
    requires WellFormed(m) && Fits(m.n, s) && RowRings(m, s) && CanJoin(m, x, y)
    requires z in m.items && z != x && z !in m.mates[x] + [y]
    ensures var s' := PutLeft(s, x, y); Ring(s'.right, s'.left, z, m.mates[z])
  {
    hide Ring, Distinct;
    var s' := PutLeft(s, x, y);
    assert MatesListed(m, x) && MatesListed(m, y) && MatesListed(m, z);
    RingDropLast(s.right, s.left, x, m.mates[x]);
    forall w | w == z || w in m.mates[z]
      ensures w != x && w != y && w !in m.mates[x]
    {
      assert w in m.items && !Mates(m, x, z) && !Mates(m, y, w);
    }
    RingFrame(s.right, s.left, s'.right, s'.left, z, m.mates[z]);
  }

  lemma JoinedStacked(m: Matrix, cf: Conf, x: nat, y: nat)
    requires Growing(m, cf) && CanJoin(m, x, y) && WellFormed(Joined(m, x, y)) && Fits(m.n, PutLeft(cf.links, x, y))
    ensures Stacked(Joined(m, x, y), PutLeft(cf.links, x, y), cf.stacked)
  {
    hide Ring, Distinct, RowsOk, MatesListed, PutLeft, Mates, OpenOnly, ListedOk, SecondaryLoops, RowRings, ColumnRing;
    PutLeftKeepsColumns(cf.links, x, y);
    ColumnsTransfer(m, Joined(m, x, y), cf.links, PutLeft(cf.links, x, y), cf.stacked);
  }

  /** Joining a lone node to a row that misses its column keeps the invariant. */
  lemma RowJoined(m: Matrix, cf: Conf, x: nat, y: nat)
    requires Growing(m, cf) && CanJoin(m, x, y)
    ensures Growing(Joined(m, x, y), JoinConf(cf, x, y))
  {
    hide RowsOk, PutLeft, ColumnRing, JoinedMates, OpenOnly, Ring;
    var m', cf' := Joined(m, x, y), JoinConf(cf, x, y);
    JoinedWellFormed(m, x, y);
    RowTransfer(m, cf.links, cf'.links, x, y);
    hide RowRings;
    JoinedStacked(m, cf, x, y);
    ListedFrame(m, cf, cf'.links);
    forall h | h in m'.heads
      ensures h in cf'.stacked && OpenOnly(m', cf', h)
    {
      assert OpenOnly(m, cf, h);
      OpenOnlyGrowing(m, cf, h);
      OpenOnlyGrowing(m', cf', h);
    }
  }

  lemma PutLeftKeepsColumns(s: Links, x: nat, y: nat)
    requires Fits(|s.left|, s) && x < |s.left| && y < |s.left|
    ensures var t := PutLeft(s, x, y); t.up == s.up && t.down == s.down && t.size == s.size
  {
  }

  lemma ListedFrame(m: Matrix, cf: Conf, s': Links)
    requires Invariant(m, cf) && Fits(m.n, s')
    requires forall z :: z in m.heads || z == 0 ==> s'.left[z] == cf.links.left[z] && s'.right[z] == cf.links.right[z]
    ensures Ring(s'.right, s'.left, 0, cf.listed) && SecondaryLoops(m, s')
  {
    hide Ring, Distinct, RowsOk, Stacked, OpenOnly, RowRings;
    RingFrame(cf.links.right, cf.links.left, s'.right, s'.left, 0, cf.listed);
  }

  // ------------------------------------------------------------------ a row of four

  /** Node `y` is as it was before the row from `x` on. */
  ghost predicate OldNode(was: Matrix, m: Matrix, x: nat, y: nat)
    requires NodesOk(was) && NodesOk(m) && y in was.items
  {
    y < x && y in m.items && m.col[y] == was.col[y] && m.rowOf[y] == was.rowOf[y]
  }

  /** Node `y` is in its column of `hs`: in row `r` once joined, alone before. */
  ghost predicate NewNode(was: Matrix, m: Matrix, x: nat, hs: seq<nat>, r: Choice, k: nat, y: nat)
    requires NodesOk(was) && NodesOk(m) && x <= y < x + |hs|
  {
    && y in m.items && m.col[y] == hs[y - x] && Unnamed(was, m.rowOf[y])
    && (m.rowOf[y] == r <==> y < x + k) && (x + k <= y ==> m.mates[y] == [])
  }

  /** `m` is `was` with the nodes from `x` on in the columns `hs`; the first `k` of them form
      the row `r`, the others are still alone. */
  ghost predicate RowSoFar(was: Matrix, m: Matrix, x: nat, hs: seq<nat>, r: Choice, k: nat) {
    && NodesOk(was) && NodesOk(m)
    && m.n == was.n && m.heads == was.heads && m.primary == was.primary && Unnamed(was, r)
    && (forall y :: y in m.items ==> y in was.items || x <= y < x + |hs|)
    && (forall y :: y in was.items ==> OldNode(was, m, x, y))
    && (forall y :: x <= y < x + |hs| ==> NewNode(was, m, x, hs, r, k, y))
  }

  lemma RowFirst(m: Matrix, x: nat, r: Choice, h: nat)
    requires NodesOk(m) && Unused(m, x) && h in m.heads && Unnamed(m, r) && forall y :: y in m.items ==> y < x
    ensures RowSoFar(m, WithItem(m, h, x, r), x, [h], r, 1)
  {
  }

  lemma RowItem(was: Matrix, m: Matrix, x: nat, hs: seq<nat>, r: Choice, h: nat, id: Choice)
    requires RowSoFar(was, m, x, hs, r, 1) && hs != [] && Unused(m, x + |hs|) && h in m.heads
    requires Unnamed(m, id)
    ensures RowSoFar(was, WithItem(m, h, x + |hs|, id), x, hs + [h], r, 1)
  {
    hide OldNode, NewNode;
    var m', hs' := WithItem(m, h, x + |hs|, id), hs + [h];
    forall y | y in was.items
      ensures OldNode(was, m', x, y)
    {
      assert OldNode(was, m, x, y);
      OldIsNotNew(was, m, x, y, x + |hs|);
      OldNodeStays(was, m, m', x, y);
    }
    forall y | x <= y < x + |hs'|
      ensures NewNode(was, m', x, hs', r, 1, y)
    {
      if y < x + |hs| {
        NewNodeStays(was, m, m', x, hs, hs', r, 1, y);
      } else {
        LastNode(was, m, x, hs, r, h, id);
      }
    }
  }

  lemma OldNodeStays(was: Matrix, m: Matrix, m': Matrix, x: nat, y: nat)
    requires NodesOk(was) && NodesOk(m) && NodesOk(m') && y in was.items && OldNode(was, m, x, y)
    requires y in m'.items && m'.col[y] == m.col[y] && m'.rowOf[y] == m.rowOf[y]
    ensures OldNode(was, m', x, y)
  {
  }

  lemma NewNodeStays(was: Matrix, m: Matrix, m': Matrix, x: nat, hs: seq<nat>, hs': seq<nat>, r: Choice, k: nat, y: nat)
    requires NodesOk(was) && NodesOk(m) && NodesOk(m') && x <= y < x + |hs| && NewNode(was, m, x, hs, r, k, y)
    requires y in m'.items ==> m'.col[y] == m.col[y] && m'.rowOf[y] == m.rowOf[y] && m'.mates[y] == m.mates[y]
    requires y in m.items ==> y in m'.items
    requires hs <= hs'
    ensures NewNode(was, m', x, hs', r, k, y)
  {
  }

  lemma LastNode(was: Matrix, m: Matrix, x: nat, hs: seq<nat>, r: Choice, h: nat, id: Choice)
    requires RowSoFar(was, m, x, hs, r, 1) && hs != [] && Unused(m, x + |hs|) && h in m.heads
    requires Unnamed(m, id)
    ensures NewNode(was, WithItem(m, h, x + |hs|, id), x, hs + [h], r, 1, x + |hs|)
  {
    assert NewNode(was, m, x, hs, r, 1, x);
    forall y | y in was.items
      ensures was.rowOf[y] != id
    {
      assert OldNode(was, m, x, y);
    }
  }

  lemma OldRows(was: Matrix, m: Matrix, x: nat, hs: seq<nat>, r: Choice, k: nat, z: nat)
    requires RowSoFar(was, m, x, hs, r, k) && z in m.items && m.rowOf[z] == r
    ensures z !in was.items && x <= z < x + |hs|
  {
    forall y | y in was.items
      ensures y in m.items && m.rowOf[y] != r
    {
      assert OldNode(was, m, x, y);
    }
  }

  lemma RowCanJoin(was: Matrix, m: Matrix, x: nat, hs: seq<nat>, r: Choice, k: nat)
    requires RowSoFar(was, m, x, hs, r, k) && 0 < k < |hs| && Distinct(hs)
    ensures CanJoin(m, x, x + k)
  {
    assert NewNode(was, m, x, hs, r, k, x) && NewNode(was, m, x, hs, r, k, x + k);
    forall z: nat | Mates(m, x, z)
      ensures m.col[z] != m.col[x + k]
    {
      OldRows(was, m, x, hs, r, k, z);
      assert NewNode(was, m, x, hs, r, k, z);
    }
  }

  lemma JoinedShape(m: Matrix, x: nat, y: nat)
    requires NodesOk(m) && x in m.items && y in m.items
    ensures var m' := Joined(m, x, y);
            && NodesOk(m') && m'.n == m.n && m'.heads == m.heads && m'.primary == m.primary
            && m'.items == m.items && m'.col == m.col
            && (forall z :: z in m.items ==> m'.rowOf[z] == if z == y then m.rowOf[x] else m.rowOf[z])
            && (forall z :: z in m.items ==> m'.mates[z] == JoinedMates(m, x, y, z))
  {
  }

  lemma RowJoin(was: Matrix, m: Matrix, x: nat, hs: seq<nat>, r: Choice, k: nat)
    requires RowSoFar(was, m, x, hs, r, k) && WellFormed(m) && 0 < k < |hs| && Distinct(hs)
    ensures CanJoin(m, x, x + k) && RowSoFar(was, Joined(m, x, x + k), x, hs, r, k + 1)
  {
    hide OldNode, NewNode, RowsOk, Distinct, Joined, JoinedMates, CanJoin;
    RowCanJoin(was, m, x, hs, r, k);
    JoinedShape(m, x, x + k);
    var m' := Joined(m, x, x + k);
    assert NewNode(was, m, x, hs, r, k, x) && NewNode(was, m, x, hs, r, k, x + k);
    forall y | y in was.items
      ensures OldNode(was, m', x, y)
    {
      assert OldNode(was, m, x, y);
      OldIsNotNew(was, m, x, y, x + k);
      OldNodeStays(was, m, m', x, y);
    }
    var k' := k + 1;
    forall y: nat | x <= y < x + |hs|
      ensures NewNode(was, m', x, hs, r, k', y)
    {
      JoinedNode(was, m, x, hs, r, k, y);
    }
  }

  lemma OldIsNotNew(was: Matrix, m: Matrix, x: nat, y: nat, z: nat)
    requires NodesOk(was) && NodesOk(m) && y in was.items && OldNode(was, m, x, y) && x <= z
    ensures y < z && y in m.items
  {
  }

  lemma JoinedNode(was: Matrix, m: Matrix, x: nat, hs: seq<nat>, r: Choice, k: nat, y: nat)
    requires RowSoFar(was, m, x, hs, r, k) && WellFormed(m) && 0 < k < |hs| && CanJoin(m, x, x + k)
    requires x <= y < x + |hs|
    ensures NewNode(was, Joined(m, x, x + k), x, hs, r, k + 1, y)
  {
    hide RowsOk, Joined, JoinedMates, OldNode;
    JoinedShape(m, x, x + k);
    assert NewNode(was, m, x, hs, r, k, x) && NewNode(was, m, x, hs, r, k, x + k) && NewNode(was, m, x, hs, r, k, y);
    if x + k < y {
      LoneStays(m, x, x + k, y);
    }
  }

  lemma LoneStays(m: Matrix, x: nat, y: nat, z: nat)
    requires WellFormed(m) && CanJoin(m, x, y) && z in m.items && z != x && z != y
    requires m.mates[z] == [] && m.rowOf[z] != m.rowOf[x]
    ensures JoinedMates(m, x, y, z) == []
  {
    assert MatesListed(m, x);
    assert !Mates(m, x, z);
  }

  /** The names `ids` are distinct and not yet in use. */
  ghost predicate Free(m: Matrix, ids: seq<Choice>) {
    NodesOk(m) && Distinct(ids) && forall i :: 0 <= i < |ids| ==> Unnamed(m, ids[i])
  }

  /** `m` is `was` with one more row, named `r`, in the columns `hs`. */
  ghost predicate RowAdded(was: Matrix, m: Matrix, r: Choice, hs: seq<nat>) {
    && NodesOk(was) && NodesOk(m) && m.n == was.n && m.heads == was.heads && m.primary == was.primary
    && m.rowOf.Values == was.rowOf.Values + {r}
    && (forall h :: h in RowColumns(m, r) <==> h in hs)
    && (forall q :: q in was.rowOf.Values ==> RowColumns(m, q) == RowColumns(was, q))
  }

  /** A finished row adds exactly its columns under its name, and no other row changes. */
  lemma RowFinished(was: Matrix, m: Matrix, x: nat, hs: seq<nat>, r: Choice)
    requires RowSoFar(was, m, x, hs, r, |hs|) && hs != []
    ensures RowAdded(was, m, r, hs)
  {
    hide RowColumns;
    assert NewNode(was, m, x, hs, r, |hs|, x);
    forall q | q in was.rowOf.Values
      ensures q in m.rowOf.Values && RowColumns(m, q) == RowColumns(was, q)
    {
      var y :| y in was.items && was.rowOf[y] == q;
      assert OldNode(was, m, x, y);
      SameRowColumns(was, m, x, hs, r, q);
    }
    forall q | q in m.rowOf.Values
      ensures q == r || q in was.rowOf.Values
    {
      var y :| y in m.items && m.rowOf[y] == q;
      if y in was.items {
        assert OldNode(was, m, x, y);
      } else {
        assert NewNode(was, m, x, hs, r, |hs|, y);
      }
    }
    NewRowColumns(was, m, x, hs, r);
  }

  lemma NewRowColumns(was: Matrix, m: Matrix, x: nat, hs: seq<nat>, r: Choice)
    requires RowSoFar(was, m, x, hs, r, |hs|)
    ensures forall h :: h in RowColumns(m, r) <==> h in hs
  {
    forall h | h in hs
      ensures h in RowColumns(m, r)
    {
      var i :| 0 <= i < |hs| && hs[i] == h;
      assert NewNode(was, m, x, hs, r, |hs|, x + i);
    }
    forall h | h in RowColumns(m, r)
      ensures h in hs
    {
      var y :| y in m.items && m.rowOf[y] == r && m.col[y] == h;
      OldRows(was, m, x, hs, r, |hs|, y);
      assert NewNode(was, m, x, hs, r, |hs|, y);
    }
  }

  lemma SameRowColumns(was: Matrix, m: Matrix, x: nat, hs: seq<nat>, r: Choice, q: Choice)
    requires RowSoFar(was, m, x, hs, r, |hs|) && q in was.rowOf.Values
    ensures RowColumns(m, q) == RowColumns(was, q)
  {
    forall h | h in RowColumns(m, q)
      ensures h in RowColumns(was, q)
    {
      var y :| y in m.items && m.rowOf[y] == q && m.col[y] == h;
      assert y !in was.items ==> NewNode(was, m, x, hs, r, |hs|, y);
      assert OldNode(was, m, x, y);
    }
    forall h | h in RowColumns(was, q)
      ensures h in RowColumns(m, q)
    {
      var y :| y in was.items && was.rowOf[y] == q && was.col[y] == h;
      assert OldNode(was, m, x, y);
    }
  }

  /** The matrix of a pool that holds only the root. */
  ghost function RootOnly(n: nat): Matrix {
    Matrix(n, {}, {}, {}, map[], map[], map[])
  }

  lemma RootGrowing(n: nat, s: Links)
    requires 0 < n && Fits(n, s) && s.left[0] == 0 && s.right[0] == 0
    ensures Growing(RootOnly(n), Conf(s, {}, [], map[]))
  {
  }

  // ------------------------------------------------------------------ names

  /** The name table and the names agree: 0 stands for a column that does not exist. */
  ghost predicate NamesAgree(m: Matrix, names: seq<nat>, table: seq<nat>)
    requires NodesOk(m)
  {
    && |names| == m.n
    && (forall k :: 0 <= k < |table| && table[k] != 0 ==> table[k] in m.heads && names[table[k]] == k)
    && (forall x :: x in m.items ==> names[x] < |table| && table[names[x]] == m.col[x])
  }

  /** All nodes in use are among the first `k`. */
  ghost predicate UpTo(m: Matrix, k: nat) {
    0 < k <= m.n && (forall h :: h in m.heads ==> h < k) && (forall x :: x in m.items ==> x < k)
  }

  lemma UpToUnused(m: Matrix, k: nat)
    requires UpTo(m, k) && k < m.n
    ensures Unused(m, k)
  {
  }

  lemma NamesHead(m: Matrix, names: seq<nat>, table: seq<nat>, x: nat, n: nat, primary: bool)
    requires NodesOk(m) && NamesAgree(m, names, table) && UpTo(m, x) && x < m.n && n < |table| && table[n] == 0
    ensures NodesOk(WithHead(m, x, primary)) && UpTo(WithHead(m, x, primary), x + 1)
    ensures NamesAgree(WithHead(m, x, primary), names[x := n], table[n := x])
  {
    forall y | y in m.items
      ensures names[y] != n
    {
      assert table[names[y]] == m.col[y];
    }
  }

  lemma WithItemShape(m: Matrix, h: nat, x: nat, r: Choice)
    requires NodesOk(m) && Unused(m, x) && h in m.heads
    ensures var m' := WithItem(m, h, x, r);
            && NodesOk(m') && m'.n == m.n && m'.heads == m.heads && m'.items == m.items + {x}
            && m'.col[x] == h && (forall y :: y in m.items ==> m'.col[y] == m.col[y])
  {
  }

  lemma NamesItem(m: Matrix, names: seq<nat>, table: seq<nat>, x: nat, n: nat, r: Choice)
    requires NodesOk(m) && NamesAgree(m, names, table) && UpTo(m, x) && x < m.n && n < |table| && table[n] != 0
    ensures NodesOk(WithItem(m, table[n], x, r)) && UpTo(WithItem(m, table[n], x, r), x + 1)
    ensures NamesAgree(WithItem(m, table[n], x, r), names[x := n], table)
  {
    WithItemShape(m, table[n], x, r);
    var m', names' := WithItem(m, table[n], x, r), names[x := n];
    hide WithItem;
    forall k | 0 <= k < |table| && table[k] != 0
      ensures table[k] in m'.heads && names'[table[k]] == k
    {
      assert table[k] != x;
    }
    forall y | y in m'.items
      ensures names'[y] < |table| && table[names'[y]] == m'.col[y]
    {
      if y != x {
        assert y in m.items && m'.col[y] == m.col[y];
      }
    }
  }

  lemma NamesJoin(m: Matrix, names: seq<nat>, table: seq<nat>, x: nat, y: nat, k: nat)
    requires NodesOk(m) && NamesAgree(m, names, table) && UpTo(m, k) && x in m.items && y in m.items
    ensures NodesOk(Joined(m, x, y)) && UpTo(Joined(m, x, y), k)
    ensures NamesAgree(Joined(m, x, y), names, table)
  {
    JoinedShape(m, x, y);
  }

  /** All that one new node keeps. */
  lemma ItemStep(m: Matrix, cf: Conf, names: seq<nat>, table: seq<nat>, x: nat, n: nat, r: Choice)
    requires Growing(m, cf) && NodesOk(m) && NamesAgree(m, names, table) && UpTo(m, x) && x < m.n
    requires n < |table| && table[n] != 0 && table[n] in m.heads && Unnamed(m, r)
    ensures var h, m' := table[n], WithItem(m, table[n], x, r);
            && h < m.n && h != x && x !in m.items && Fits(m.n, cf.links) && h in cf.stacked
            && |cf.links.left| == m.n && Fits(m.n, SelfLoop(cf.links, x))
            && ItemConf(cf, h, x).links == PutUp(SelfLoop(cf.links, x), h, x)
            && Growing(m', ItemConf(cf, h, x)) && WellFormed(m') && NodesOk(m') && m'.n == m.n
            && m'.items == m.items + {x} && m'.col.Keys == m'.items && m'.col[x] == h
            && (forall y :: y in m.items ==> y < m.n && m'.col[y] == m.col[y])
            && UpTo(m', x + 1) && NamesAgree(m', names[x := n], table)
  {
    hide SelfLoop, PutUp, RowsOk, Ring, ListedOk, SecondaryLoops, RowRings, Stacked, OpenOnly;
    UpToUnused(m, x);
    SelfLoopFits(m.n, cf.links, x);
    NamesItem(m, names, table, x, n, r);
    ItemAdded(m, cf, table[n], x, r);
    WithItemShape(m, table[n], x, r);
  }

  /** All that joining a row keeps. */
  lemma JoinStep(m: Matrix, cf: Conf, names: seq<nat>, table: seq<nat>, x: nat, y: nat, k: nat)
    requires Growing(m, cf) && NodesOk(m) && NamesAgree(m, names, table) && UpTo(m, k) && CanJoin(m, x, y)
    ensures var m' := Joined(m, x, y);
            && x in m.items && y in m.items && x < m.n && y < m.n && x != y
            && Fits(m.n, cf.links) && |cf.links.left| == m.n
            && JoinConf(cf, x, y).links == PutLeft(cf.links, x, y)
            && Growing(m', JoinConf(cf, x, y)) && WellFormed(m') && NodesOk(m')
            && m'.n == m.n && m'.items == m.items && m'.col == m.col
            && UpTo(m', k) && NamesAgree(m', names, table)
  {
    hide PutLeft, RowsOk, Ring, ListedOk, SecondaryLoops, RowRings, Stacked, OpenOnly, JoinedMates;
    NamesJoin(m, names, table, x, y, k);
    RowJoined(m, cf, x, y);
    JoinedShape(m, x, y);
  }

  lemma TableDistinct(m: Matrix, names: seq<nat>, table: seq<nat>, ns: seq<nat>)
    requires NodesOk(m) && NamesAgree(m, names, table) && Distinct(ns)
    requires forall i :: 0 <= i < |ns| ==> ns[i] < |table| && table[ns[i]] != 0
    ensures Distinct(seq(|ns|, i requires 0 <= i < |ns| => table[ns[i]]))
    ensures forall i :: 0 <= i < |ns| ==> table[ns[i]] in m.heads
  {
    var hs := seq(|ns|, i requires 0 <= i < |ns| => table[ns[i]]);
    forall i, j | 0 <= i < j < |hs|
      ensures hs[i] != hs[j]
    {
      assert ns[i] != ns[j];
      assert names[table[ns[i]]] == ns[i];
    }
  }

  lemma SpareStays(m: Matrix, h: nat, x: nat, r: Choice, spare: Choice)
    requires NodesOk(m) && Unused(m, x) && h in m.heads && Unnamed(m, spare) && spare != r
    ensures NodesOk(WithItem(m, h, x, r)) && Unnamed(WithItem(m, h, x, r), spare)
  {
  }

  /** The first `k` nodes of a row are in their columns under the names `ids`, the first of
      which is the name of the row; the other names are still free. */
  ghost predicate Placed(was: Matrix, m: Matrix, x: nat, hs: seq<nat>, ids: seq<Choice>, k: nat) {
    && NodesOk(m) && |hs| == |ids| && k <= |hs| && Distinct(ids) && ids != []
    && (forall h :: h in hs ==> h in m.heads)
    && UpTo(m, x + k) && x + |hs| <= m.n
    && (forall i :: k <= i < |ids| ==> Unnamed(m, ids[i]))
    && if k == 0 then m == was else RowSoFar(was, m, x, hs[..k], ids[0], 1)
  }

  lemma PlaceNext(was: Matrix, m: Matrix, x: nat, hs: seq<nat>, ids: seq<Choice>, k: nat)
    requires Placed(was, m, x, hs, ids, k) && k < |hs|
    ensures hs[k] in m.heads && Unnamed(m, ids[k])
    ensures Placed(was, WithItem(m, hs[k], x + k, ids[k]), x, hs, ids, k + 1)
  {
    hide RowSoFar, WithItem;
    var m' := WithItem(m, hs[k], x + k, ids[k]);
    assert hs[k] in hs;
    UpToUnused(m, x + k);
    PlacedShape(m, hs[k], x + k, ids[k]);
    assert hs[..k + 1] == hs[..k] + [hs[k]];
    if k == 0 {
      RowFirst(m, x, ids[0], hs[0]);
      assert hs[..1] == [hs[0]];
    } else {
      RowItem(was, m, x, hs[..k], ids[0], hs[k], ids[k]);
    }
    forall i | k + 1 <= i < |ids|
      ensures Unnamed(m', ids[i])
    {
      SpareStays(m, hs[k], x + k, ids[k], ids[i]);
    }
  }

  lemma PlacedShape(m: Matrix, h: nat, x: nat, r: Choice)
    requires NodesOk(m) && h in m.heads && UpTo(m, x) && x < m.n
    ensures var m' := WithItem(m, h, x, r); NodesOk(m') && m'.n == m.n && m'.heads == m.heads && UpTo(m', x + 1)
    ensures Unused(m, x) && forall y :: y in m.items ==> y < x
  {
  }

  lemma AllPlaced(was: Matrix, m: Matrix, x: nat, hs: seq<nat>, ids: seq<Choice>)
    requires Placed(was, m, x, hs, ids, |hs|)
    ensures RowSoFar(was, m, x, hs, ids[0], 1)
  {
    assert hs[..|hs|] == hs;
  }

  lemma ChoiceReady(m: Matrix, names: seq<nat>, table: seq<nat>, x: nat, ns: seq<nat>, hs: seq<nat>, ids: seq<Choice>)
    requires NodesOk(m) && NamesAgree(m, names, table) && UpTo(m, x) && x + |ns| <= m.n && Distinct(ns)
    requires |hs| == |ns| == |ids| && ids != [] && Free(m, ids)
    requires forall i :: 0 <= i < |ns| ==> ns[i] < |table| && table[ns[i]] == hs[i] != 0
    ensures Placed(m, m, x, hs, ids, 0) && Distinct(hs)
  {
    TableDistinct(m, names, table, ns);
    assert hs == seq(|ns|, i requires 0 <= i < |ns| => table[ns[i]]);
  }
}
