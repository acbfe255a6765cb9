/** The pool of doubly linked nodes that dancing links cuts apart and re-stitches, on values.
    A node is its index in the pool; index 0 is the root of the header list. */
module LinkPool {
  import opened ExactCover
  import opened Sets

  /** The link fields of every node, as sequences indexed by node. */
  datatype Links = Links(left: seq<nat>, right: seq<nat>, up: seq<nat>, down: seq<nat>, size: seq<int>)

  /** What never changes: `heads` are the column headers, `items` the row nodes; `mates[x]`
      lists the other nodes of the row of `x`, going right from `x`. */
  datatype Matrix = Matrix(n: nat, primary: set<nat>, heads: set<nat>, items: set<nat>,
                           col: map<nat, nat>, rowOf: map<nat, Choice>, mates: map<nat, seq<nat>>)

  /** A moment of the search: the links, the columns covered so far, the headers still
      listed, and the nodes still linked in each column, top to bottom. */
  datatype Conf = Conf(links: Links, gone: set<nat>, listed: seq<nat>, stacked: map<nat, seq<nat>>)

  ghost predicate NodesOk(m: Matrix) {
    && 0 < m.n && 0 !in m.heads && 0 !in m.items && m.heads !! m.items && m.primary <= m.heads
    && (forall h :: h in m.heads ==> h < m.n)
    && (forall x :: x in m.items ==> x < m.n)
    && m.items == m.col.Keys == m.rowOf.Keys == m.mates.Keys
    && (forall x :: x in m.items ==> m.col[x] in m.heads)
  }

  /** Two different nodes of one row. */
  ghost predicate Mates(m: Matrix, x: nat, y: nat)
    requires NodesOk(m)
  {
    x in m.items && y in m.items && x != y && m.rowOf[x] == m.rowOf[y]
  }

  ghost predicate MatesListed(m: Matrix, x: nat)
    requires NodesOk(m) && x in m.items
  {
    Distinct(m.mates[x]) && forall y :: y in m.mates[x] <==> Mates(m, x, y)
  }

  /** Each node lists its mates once each, and a row meets a column at most once. */
  ghost predicate RowsOk(m: Matrix)
    requires NodesOk(m)
  {
    && (forall x :: x in m.items ==> MatesListed(m, x))
    && (forall x, y :: Mates(m, x, y) ==> m.col[x] != m.col[y])
  }

  ghost predicate WellFormed(m: Matrix) {
    NodesOk(m) && RowsOk(m)
  }

  ghost predicate AllItems(m: Matrix, js: seq<nat>) {
    forall j :: j in js ==> j in m.items
  }

  ghost function RowColumns(m: Matrix, r: Choice): set<nat>
    requires NodesOk(m)
  {
    set x | x in m.items && m.rowOf[x] == r :: m.col[x]
  }

  /** The exact cover problem a matrix of nodes stands for. */
  ghost function ProblemOf(m: Matrix): Problem
    requires NodesOk(m)
  {
    Problem(map r | r in m.rowOf.Values :: RowColumns(m, r), m.primary)
  }

  ghost predicate Fits(n: nat, s: Links) {
    && |s.left| == |s.right| == |s.up| == |s.down| == |s.size| == n
    && (forall x :: 0 <= x < n ==> s.left[x] < n && s.right[x] < n && s.up[x] < n && s.down[x] < n)
  }

  // ------------------------------------------------------------------ rings

  /** The ring that starts at `h`, goes through `list` and comes back to `h`. */
  function Stop(h: nat, list: seq<nat>, i: nat): nat
    requires i <= |list| + 1
  {
    if i == 0 || i == |list| + 1 then h else list[i - 1]
  }

  /** `next` and `prev` run through `h` and then `list`, in a circle, both ways. */
  ghost predicate Ring(next: seq<nat>, prev: seq<nat>, h: nat, list: seq<nat>) {
    && |next| == |prev| && h < |next| && h !in list && Distinct(list)
    && (forall i :: 0 <= i < |list| ==> list[i] < |next|)
    && (forall i, j :: 0 <= i <= |list| && j == i + 1 ==>
          && next[Stop(h, list, i)] == Stop(h, list, j)
          && prev[Stop(h, list, j)] == Stop(h, list, i))
  }

  ghost function IndexOf(list: seq<nat>, x: nat): (k: nat)
    requires x in list
    ensures k < |list| && list[k] == x
  {
    var k :| 0 <= k < |list| && list[k] == x;
    k
  }

  ghost function Drop(list: seq<nat>, x: nat): (r: seq<nat>)
  {
    if x in list then list[..IndexOf(list, x)] + list[IndexOf(list, x) + 1..] else list
  }

  lemma DropFacts(list: seq<nat>, x: nat)
    requires Distinct(list)
    ensures Distinct(Drop(list, x))
    ensures forall y :: y in Drop(list, x) <==> y in list && y != x
    ensures |Drop(list, x)| == if x in list then |list| - 1 else |list|
  {
    if x in list {
      var k := IndexOf(list, x);
      assert list == list[..k] + [x] + list[k + 1..];
    }
  }

  lemma DistinctStops(h: nat, list: seq<nat>, i: nat, j: nat)
    requires h !in list && Distinct(list) && i < j <= |list| + 1
    ensures Stop(h, list, i) == Stop(h, list, j) <==> i == 0 && j == |list| + 1
  {
  }

  /** The neighbours of the node at position `k` point back at it. */
  lemma RingAt(next: seq<nat>, prev: seq<nat>, h: nat, list: seq<nat>, k: nat)
    requires Ring(next, prev, h, list) && k < |list|
    ensures var x := list[k];
            && next[x] == Stop(h, list, k + 2) && prev[x] == Stop(h, list, k)
            && next[x] < |next| && prev[x] < |next| && prev[next[x]] == x && next[prev[x]] == x
  {
    assert Stop(h, list, k + 1) == list[k];
    var a, b := Stop(h, list, k), Stop(h, list, k + 2);
  }

  /** Taking a node out of a ring leaves the ring of the others. */
  lemma RingSkip(next: seq<nat>, prev: seq<nat>, h: nat, list: seq<nat>, k: nat, rest: seq<nat>)
    requires Ring(next, prev, h, list) && k < |list| && rest == list[..k] + list[k + 1..]
    ensures var x := list[k];
            && next[x] < |next| && prev[x] < |next|
            && Ring(next[prev[x] := next[x]], prev[next[x] := prev[x]], h, rest)
  {
    RingAt(next, prev, h, list, k);
    var a, b := Stop(h, list, k), Stop(h, list, k + 2);
    var next', prev' := next[a := b], prev[b := a];
    forall i, j | 0 <= i <= |rest| && j == i + 1
      ensures next'[Stop(h, rest, i)] == Stop(h, rest, j)
      ensures prev'[Stop(h, rest, j)] == Stop(h, rest, i)
    {
      if i < k {
        assert Stop(h, rest, i) == Stop(h, list, i) && Stop(h, rest, j) == Stop(h, list, j);
        DistinctStops(h, list, i, k);
        DistinctStops(h, list, j, k + 2);
      } else if i == k {
        assert Stop(h, rest, i) == a && Stop(h, rest, j) == b;
      } else {
        assert Stop(h, rest, i) == Stop(h, list, i + 1) && Stop(h, rest, j) == Stop(h, list, j + 1);
        DistinctStops(h, list, k, i + 1);
        DistinctStops(h, list, k + 2, j + 1);
      }
    }
  }

  /** The same for a node given by name. */
  lemma RingDrop(next: seq<nat>, prev: seq<nat>, h: nat, list: seq<nat>, x: nat)
    requires Ring(next, prev, h, list) && x in list
    ensures x < |next| && next[x] < |next| && prev[x] < |next| && prev[next[x]] == x && next[prev[x]] == x
    ensures next[x] == h || next[x] in list
    ensures prev[x] == h || prev[x] in list
    ensures next[x] != x
    ensures Ring(next[prev[x] := next[x]], prev[next[x] := prev[x]], h, Drop(list, x))
  {
    RingAt(next, prev, h, list, IndexOf(list, x));
    DistinctStops(h, list, IndexOf(list, x) + 1, IndexOf(list, x) + 2);
    RingSkip(next, prev, h, list, IndexOf(list, x), Drop(list, x));
  }

  lemma RingFrame(next: seq<nat>, prev: seq<nat>, next': seq<nat>, prev': seq<nat>, h: nat, list: seq<nat>)
    requires Ring(next, prev, h, list)
    requires |next'| == |prev'| == |next|
    requires forall x :: x == h || x in list ==> next'[x] == next[x] && prev'[x] == prev[x]
    ensures Ring(next', prev', h, list)
  {
    forall i, j | 0 <= i <= |list| && j == i + 1
      ensures next'[Stop(h, list, i)] == Stop(h, list, j)
      ensures prev'[Stop(h, list, j)] == Stop(h, list, i)
    {
    }
  }

  // ------------------------------------------------------------------ one node

  function UnlinkRow(s: Links, c: nat, j: nat): Links
    requires Fits(|s.left|, s) && c < |s.left| && j < |s.left|
  {
    s.(up := s.up[s.down[j] := s.up[j]], down := s.down[s.up[j] := s.down[j]],
       size := s.size[c := s.size[c] - 1])
  }

  function RelinkRow(s: Links, c: nat, j: nat): Links
    requires Fits(|s.left|, s) && c < |s.left| && j < |s.left|
  {
    var up := s.up[s.down[j] := j];
    s.(size := s.size[c := s.size[c] + 1], up := up, down := s.down[up[j] := j])
  }

  function UnlinkHead(s: Links, c: nat): Links
    requires Fits(|s.left|, s) && c < |s.left|
  {
    s.(left := s.left[s.right[c] := s.left[c]], right := s.right[s.left[c] := s.right[c]])
  }

  function RelinkHead(s: Links, c: nat): Links
    requires Fits(|s.left|, s) && c < |s.left|
  {
    var left := s.left[s.right[c] := c];
    s.(left := left, right := s.right[left[c] := c])
  }

  /** Column `h` runs through `list`, and its size is the length of the list. */
  ghost predicate ColumnRing(m: Matrix, s: Links, h: nat, list: seq<nat>)
    requires NodesOk(m) && Fits(m.n, s) && h in m.heads
  {
    && Ring(s.down, s.up, h, list) && s.size[h] == |list|
    && forall x :: x in list ==> x in m.items && m.col[x] == h
  }

  /** The vertical rings and the sizes agree with the nodes still linked. */
  ghost predicate Stacked(m: Matrix, s: Links, stacked: map<nat, seq<nat>>)
    requires NodesOk(m) && Fits(m.n, s)
  {
    stacked.Keys == m.heads && forall h :: h in m.heads ==> ColumnRing(m, s, h, stacked[h])
  }

  ghost function DropNode(m: Matrix, stacked: map<nat, seq<nat>>, j: nat): map<nat, seq<nat>>
    requires NodesOk(m) && j in m.items && stacked.Keys == m.heads
  {
    stacked[m.col[j] := Drop(stacked[m.col[j]], j)]
  }

  /** Unlinking a node of another column leaves a column alone. */
  lemma OtherColumn(m: Matrix, s: Links, j: nat, list: seq<nat>, h: nat, other: seq<nat>)
    requires NodesOk(m) && Fits(m.n, s) && j in m.items && j in list && h in m.heads && h != m.col[j]
    requires ColumnRing(m, s, m.col[j], list) && ColumnRing(m, s, h, other)
    ensures Fits(m.n, UnlinkRow(s, m.col[j], j)) && ColumnRing(m, UnlinkRow(s, m.col[j], j), h, other)
  {
    hide Distinct;
    var s' := UnlinkRow(s, m.col[j], j);
    RingDrop(s.down, s.up, m.col[j], list, j);
    forall x | x == h || x in other
      ensures x < m.n && s'.down[x] == s.down[x] && s'.up[x] == s.up[x]
    {
      assert x != m.col[j] && x !in list;
    }
    RingFrame(s.down, s.up, s'.down, s'.up, h, other);
  }

  lemma OwnColumn(m: Matrix, s: Links, j: nat, list: seq<nat>)
    requires NodesOk(m) && Fits(m.n, s) && j in m.items && j in list
    requires ColumnRing(m, s, m.col[j], list)
    ensures Fits(m.n, UnlinkRow(s, m.col[j], j))
    ensures ColumnRing(m, UnlinkRow(s, m.col[j], j), m.col[j], Drop(list, j))
    ensures RelinkRow(UnlinkRow(s, m.col[j], j), m.col[j], j) == s
  {
    hide Ring, Distinct, Drop;
    var c := m.col[j];
    var s' := UnlinkRow(s, c, j);
    RingDistinct(s.down, s.up, c, list);
    RingDrop(s.down, s.up, c, list, j);
    DropFacts(list, j);
    assert s.down == s'.down[s.up[j] := j];
    assert s.up == s'.up[s.down[j] := j];
  }

  /** A linked node can be taken out, and putting it back restores every link. */
  lemma UnlinkOne(m: Matrix, s: Links, stacked: map<nat, seq<nat>>, j: nat)
    requires NodesOk(m) && Fits(m.n, s) && Stacked(m, s, stacked)
    requires j in m.items && j in stacked[m.col[j]]
    ensures Fits(m.n, UnlinkRow(s, m.col[j], j))
    ensures Stacked(m, UnlinkRow(s, m.col[j], j), DropNode(m, stacked, j))
    ensures RelinkRow(UnlinkRow(s, m.col[j], j), m.col[j], j) == s
  {
    hide ColumnRing, UnlinkRow, RelinkRow, Drop;
    OwnColumn(m, s, j, stacked[m.col[j]]);
    forall h | h in m.heads && h != m.col[j]
      ensures ColumnRing(m, UnlinkRow(s, m.col[j], j), h, stacked[h])
    {
      OtherColumn(m, s, j, stacked[m.col[j]], h, stacked[h]);
    }
  }

  // ------------------------------------------------------------------ many nodes

  function UnlinkAll(m: Matrix, s: Links, js: seq<nat>): (r: Links)
    requires NodesOk(m) && Fits(m.n, s) && AllItems(m, js)
    ensures Fits(m.n, r) && r.left == s.left && r.right == s.right
  {
    if js == [] then s
    else
      var k := |js| - 1;
      UnlinkRow(UnlinkAll(m, s, js[..k]), m.col[js[k]], js[k])
  }

  ghost function DropAll(m: Matrix, stacked: map<nat, seq<nat>>, js: seq<nat>): (r: map<nat, seq<nat>>)
    requires NodesOk(m) && AllItems(m, js) && stacked.Keys == m.heads
    ensures r.Keys == m.heads
  {
    if js == [] then stacked
    else
      var k := |js| - 1;
      DropNode(m, DropAll(m, stacked, js[..k]), js[k])
  }

  /** All of `js` are linked nodes, each once. */
  ghost predicate Targets(m: Matrix, stacked: map<nat, seq<nat>>, js: seq<nat>)
    requires NodesOk(m) && stacked.Keys == m.heads
  {
    Distinct(js) && AllItems(m, js) && forall j :: j in js ==> j in stacked[m.col[j]]
  }

  lemma TargetsPrefix(m: Matrix, stacked: map<nat, seq<nat>>, js: seq<nat>, j: nat)
    requires NodesOk(m) && stacked.Keys == m.heads && Targets(m, stacked, js + [j])
    ensures Targets(m, stacked, js) && j !in js && j in m.items && j in stacked[m.col[j]]
  {
    var all := js + [j];
    assert all[|js|] == j;
    assert forall i :: 0 <= i < |js| ==> all[i] == js[i];
  }

  /** What stays in a column after dropping `js`. */
  ghost predicate Dropped(was: seq<nat>, now: seq<nat>, js: seq<nat>) {
    forall x :: x in now <==> x in was && x !in js
  }

  lemma DropNext(was: seq<nat>, now: seq<nat>, js: seq<nat>, j: nat)
    requires Distinct(now) && Dropped(was, now, js)
    ensures Dropped(was, Drop(now, j), js + [j])
  {
    DropFacts(now, j);
  }

  /** Taking out distinct linked nodes, one after the other, leaves the rings of the rest. */
  lemma {:induction false} UnlinkMany(m: Matrix, s: Links, stacked: map<nat, seq<nat>>, js: seq<nat>)
    requires NodesOk(m) && Fits(m.n, s) && Stacked(m, s, stacked) && Targets(m, stacked, js)
    ensures Stacked(m, UnlinkAll(m, s, js), DropAll(m, stacked, js))
    ensures forall h :: h in m.heads ==> Dropped(stacked[h], DropAll(m, stacked, js)[h], js)
    decreases |js|
  {
    hide UnlinkRow, Drop, Ring, Distinct, Fits;
    if js == [] {
    } else {
      var k := |js| - 1;
      var front, j := js[..k], js[k];
      assert js == front + [j];
      TargetsPrefix(m, stacked, front, j);
      UnlinkMany(m, s, stacked, front);
      var t, mid := UnlinkAll(m, s, front), DropAll(m, stacked, front);
      assert Dropped(stacked[m.col[j]], mid[m.col[j]], front);
      UnlinkOne(m, t, mid, j);
      var done := DropAll(m, stacked, js);
      forall h | h in m.heads
        ensures Dropped(stacked[h], done[h], js)
      {
        DropInColumn(m, t, stacked, mid, front, j, h);
      }
    }
  }

  lemma {:induction false} DropElsewhere(m: Matrix, stacked: map<nat, seq<nat>>, js: seq<nat>, h: nat)
    requires NodesOk(m) && AllItems(m, js) && stacked.Keys == m.heads && h in m.heads
    requires forall j :: j in js ==> m.col[j] != h
    ensures DropAll(m, stacked, js)[h] == stacked[h]
    decreases |js|
  {
    if js != [] {
      DropElsewhere(m, stacked, js[..|js| - 1], h);
    }
  }

  lemma DropInColumn(m: Matrix, t: Links, stacked: map<nat, seq<nat>>, mid: map<nat, seq<nat>>,
                     front: seq<nat>, j: nat, h: nat)
    requires NodesOk(m) && Fits(m.n, t) && stacked.Keys == m.heads && Stacked(m, t, mid)
    requires j in m.items && h in m.heads
    requires Dropped(stacked[h], mid[h], front) && j !in front
    ensures Dropped(stacked[h], DropNode(m, mid, j)[h], front + [j])
  {
    assert ColumnRing(m, t, h, mid[h]);
    if h == m.col[j] {
      DropNext(stacked[h], mid[h], front, j);
    } else {
      assert j !in mid[h];
      assert j !in stacked[h];
    }
  }

  /** The last unlinked node can be put back. */
  lemma UndoLast(m: Matrix, s: Links, stacked: map<nat, seq<nat>>, js: seq<nat>, j: nat)
    requires NodesOk(m) && Fits(m.n, s) && Stacked(m, s, stacked) && Targets(m, stacked, js + [j])
    ensures AllItems(m, js) && j in m.items
    ensures UnlinkAll(m, s, js + [j]) == UnlinkRow(UnlinkAll(m, s, js), m.col[j], j)
    ensures RelinkRow(UnlinkAll(m, s, js + [j]), m.col[j], j) == UnlinkAll(m, s, js)
  {
    hide UnlinkRow, RelinkRow, Drop, Ring, Distinct, Fits;
    assert (js + [j])[..|js|] == js;
    TargetsPrefix(m, stacked, js, j);
    UnlinkMany(m, s, stacked, js);
    assert Dropped(stacked[m.col[j]], DropAll(m, stacked, js)[m.col[j]], js);
    UnlinkOne(m, UnlinkAll(m, s, js), DropAll(m, stacked, js), j);
  }

  // ------------------------------------------------------------------ covering a column

  /** The nodes that covering a column unlinks, in order: for each node of the column, top
      to bottom, its row mates, left to right. */
  function MatesOf(m: Matrix, list: seq<nat>): (r: seq<nat>)
    requires NodesOk(m) && AllItems(m, list)
  {
    if list == [] then []
    else MatesOf(m, list[..|list| - 1]) + m.mates[list[|list| - 1]]
  }

  ghost predicate HasMateIn(m: Matrix, list: seq<nat>, x: nat)
    requires NodesOk(m)
  {
    exists y :: y in list && Mates(m, y, x)
  }

  lemma {:induction false} MatesFacts(m: Matrix, list: seq<nat>, c: nat)
    requires WellFormed(m) && Distinct(list)
    requires forall x :: x in list ==> x in m.items && m.col[x] == c
    ensures AllItems(m, list) && Distinct(MatesOf(m, list))
    ensures forall x :: x in MatesOf(m, list) <==> HasMateIn(m, list, x)
    decreases |list|
  {
    if list == [] {
    } else {
      var k := |list| - 1;
      var front, y := list[..k], list[k];
      MatesFacts(m, front, c);
      var a, b := MatesOf(m, front), m.mates[y];
      assert MatesListed(m, y);
      forall x | x in a
        ensures !Mates(m, y, x)
      {
        var z :| z in front && Mates(m, z, x);
        assert z != y;
        assert !Mates(m, y, z);
      }
      DistinctConcat(a, b);
      forall x
        ensures HasMateIn(m, list, x) <==> HasMateIn(m, front, x) || Mates(m, y, x)
      {
        assert forall z :: z in list <==> z in front || z == y;
      }
    }
  }

  lemma DistinctConcat<T>(a: seq<T>, b: seq<T>)
    requires Distinct(a) && Distinct(b) && forall x :: x in a ==> x !in b
    ensures Distinct(a + b)
  {
    forall i, j | 0 <= i < j < |a + b|
      ensures (a + b)[i] != (a + b)[j]
    {
      if i < |a| && |a| <= j {
        assert (a + b)[i] in a && (a + b)[j] in b;
      }
    }
  }

  /** The row of `x` keeps clear of the columns that are gone. */
  ghost predicate Open(m: Matrix, gone: set<nat>, x: nat)
    requires NodesOk(m) && x in m.items
  {
    RowColumns(m, m.rowOf[x]) !! gone
  }

  ghost predicate ListedOk(m: Matrix, cf: Conf)
    requires NodesOk(m)
  {
    && Ring(cf.links.right, cf.links.left, 0, cf.listed)
    && forall h :: h in cf.listed <==> h in m.primary && h !in cf.gone
  }

  /** A secondary header is never in the header list: it is a ring of its own. */
  ghost predicate SecondaryLoops(m: Matrix, s: Links)
    requires NodesOk(m) && Fits(m.n, s)
  {
    forall h :: h in m.heads && h !in m.primary ==> s.left[h] == h && s.right[h] == h
  }

  ghost predicate RowRings(m: Matrix, s: Links)
    requires NodesOk(m)
  {
    forall x :: x in m.items ==> Ring(s.right, s.left, x, m.mates[x])
  }

  ghost predicate OpenOnly(m: Matrix, cf: Conf, h: nat)
    requires NodesOk(m) && h in cf.stacked
  {
    forall x :: x in m.items ==> (x in cf.stacked[h] <==> m.col[x] == h && Open(m, cf.gone, x))
  }

  /** What holds at every search node: the listed headers are the primary columns not yet
      covered, and a column not yet covered holds exactly the nodes of the open rows. */
  ghost predicate Invariant(m: Matrix, cf: Conf) {
    && WellFormed(m) && Fits(m.n, cf.links)
    && ListedOk(m, cf) && SecondaryLoops(m, cf.links) && RowRings(m, cf.links)
    && Stacked(m, cf.links, cf.stacked)
    && forall h :: h in m.heads && h !in cf.gone ==> OpenOnly(m, cf, h)
  }

  /** The header leaves the header list; a header outside it changes nothing. */
  lemma HeadLeaves(m: Matrix, cf: Conf, c: nat)
    requires Invariant(m, cf) && c in m.heads && c !in cf.gone
    ensures Fits(m.n, UnlinkHead(cf.links, c))
    ensures RelinkHead(UnlinkHead(cf.links, c), c) == cf.links
    ensures var s := UnlinkHead(cf.links, c);
            && Ring(s.right, s.left, 0, Drop(cf.listed, c))
            && SecondaryLoops(m, s) && RowRings(m, s)
  {
    hide Stacked, RowsOk, OpenOnly, Distinct;
    var s, s' := cf.links, UnlinkHead(cf.links, c);
    if c in m.primary {
      hide Ring;
      RingDrop(s.right, s.left, 0, cf.listed, c);
      assert s.left == s'.left[s.right[c] := c];
      assert s.right == s'.right[s.left[c] := c];
      HeadFrame(m, s, s');
    } else {
      assert s'.left == s.left && s'.right == s.right;
    }
  }

  lemma HeadFrame(m: Matrix, s: Links, s': Links)
    requires WellFormed(m) && RowRings(m, s) && Fits(m.n, s) && Fits(m.n, s')
    requires forall x :: x in m.items ==> s'.left[x] == s.left[x] && s'.right[x] == s.right[x]
    ensures RowRings(m, s')
  {
    hide Distinct;
    forall x | x in m.items
      ensures Ring(s'.right, s'.left, x, m.mates[x])
    {
      assert MatesListed(m, x);
      RingFrame(s.right, s.left, s'.right, s'.left, x, m.mates[x]);
    }
  }

  /** The nodes a cover unlinks are all linked, and none sits in the covered column. */
  lemma CoverTargets(m: Matrix, cf: Conf, c: nat)
    requires Invariant(m, cf) && c in m.heads && c !in cf.gone
    ensures AllItems(m, cf.stacked[c]) && Targets(m, cf.stacked, MatesOf(m, cf.stacked[c]))
    ensures forall x :: x in MatesOf(m, cf.stacked[c]) <==>
              x in m.items && Open(m, cf.gone, x) && m.col[x] != c && c in RowColumns(m, m.rowOf[x])
  {
    hide ListedOk, SecondaryLoops, RowRings, Distinct, Fits;
    assert ColumnRing(m, cf.links, c, cf.stacked[c]);
    MatesFacts(m, cf.stacked[c], c);
    var js := MatesOf(m, cf.stacked[c]);
    forall x | x in js
      ensures x in m.items && m.col[x] != c && Open(m, cf.gone, x) && x in cf.stacked[m.col[x]]
      ensures c in RowColumns(m, m.rowOf[x])
    {
      assert HasMateIn(m, cf.stacked[c], x);
      var y :| y in cf.stacked[c] && Mates(m, y, x);
      assert Open(m, cf.gone, y) && OpenOnly(m, cf, m.col[x]);
    }
    forall x | x in m.items && Open(m, cf.gone, x) && m.col[x] != c && c in RowColumns(m, m.rowOf[x])
      ensures x in js
    {
      var y :| y in m.items && m.rowOf[y] == m.rowOf[x] && m.col[y] == c;
      assert Open(m, cf.gone, y);
      assert y in cf.stacked[c] && Mates(m, y, x);
    }
  }

  /** What one cover leaves: header and row mates unlinked, the column counted as gone. */
  ghost function CoverConf(m: Matrix, cf: Conf, c: nat): Conf
    requires Invariant(m, cf) && c in m.heads && c !in cf.gone
  {
    HeadLeaves(m, cf, c);
    CoverTargets(m, cf, c);
    var js := MatesOf(m, cf.stacked[c]);
    Conf(UnlinkAll(m, UnlinkHead(cf.links, c), js), cf.gone + {c}, Drop(cf.listed, c), DropAll(m, cf.stacked, js))
  }

  lemma OpenAfter(m: Matrix, gone: set<nat>, c: nat, x: nat)
    requires NodesOk(m) && x in m.items
    ensures Open(m, gone + {c}, x) <==> Open(m, gone, x) && c !in RowColumns(m, m.rowOf[x])
  {
  }

  lemma StackedFrame(m: Matrix, s: Links, s': Links, stacked: map<nat, seq<nat>>)
    requires NodesOk(m) && Fits(m.n, s) && Fits(m.n, s') && Stacked(m, s, stacked)
    requires s.up == s'.up && s.down == s'.down && s.size == s'.size
    ensures Stacked(m, s', stacked)
  {
    hide Ring;
    forall h | h in m.heads
      ensures ColumnRing(m, s', h, stacked[h])
    {
      assert ColumnRing(m, s, h, stacked[h]);
    }
  }

  /** Covering a column keeps the invariant. */
  lemma CoverKeeps(m: Matrix, cf: Conf, c: nat)
    requires Invariant(m, cf) && c in m.heads && c !in cf.gone
    ensures Invariant(m, CoverConf(m, cf, c))
    ensures c in cf.stacked && c in CoverConf(m, cf, c).stacked
    ensures CoverConf(m, cf, c).stacked[c] == cf.stacked[c]
  {
    hide Ring, Distinct, Drop, ColumnRing, RowsOk, Open, RowColumns, UnlinkAll, DropAll, MatesOf;
    CoverTargets(m, cf, c);
    var js := MatesOf(m, cf.stacked[c]);
    var s1 := UnlinkHead(cf.links, c);
    var cf' := CoverConf(m, cf, c);
    HeadLeaves(m, cf, c);
    StackedFrame(m, cf.links, s1, cf.stacked);
    UnlinkMany(m, s1, cf.stacked, js);
    DropElsewhere(m, cf.stacked, js, c);
    RingDistinct(cf.links.right, cf.links.left, 0, cf.listed);
    DropFacts(cf.listed, c);
    forall h | h in m.heads && h !in cf'.gone
      ensures OpenOnly(m, cf', h)
    {
      assert OpenOnly(m, cf, h) && Dropped(cf.stacked[h], cf'.stacked[h], js);
      forall x | x in m.items
        ensures x in cf'.stacked[h] <==> m.col[x] == h && Open(m, cf'.gone, x)
      {
        OpenAfter(m, cf.gone, c, x);
      }
    }
  }

  lemma RingDistinct(next: seq<nat>, prev: seq<nat>, h: nat, list: seq<nat>)
    requires Ring(next, prev, h, list)
    ensures Distinct(list)
  {
  }

  // ------------------------------------------------------------------ halfway through a cover

  lemma {:induction false} MatesConcat(m: Matrix, a: seq<nat>, b: seq<nat>)
    requires NodesOk(m) && AllItems(m, a + b)
    ensures AllItems(m, a) && AllItems(m, b) && MatesOf(m, a + b) == MatesOf(m, a) + MatesOf(m, b)
    decreases |b|
  {
    assert forall x :: x in a ==> x in a + b;
    assert forall x :: x in b ==> x in a + b;
    if b == [] {
      assert a + b == a;
    } else {
      var k := |b| - 1;
      assert (a + b)[..|a + b| - 1] == a + b[..k];
      MatesConcat(m, a, b[..k]);
    }
  }

  /** The nodes unlinked after `k` rows and `t` mates of the next row come first in order. */
  lemma MatesPrefix(m: Matrix, list: seq<nat>, k: nat, t: nat)
    requires NodesOk(m) && AllItems(m, list) && k < |list| && t <= |m.mates[list[k]]|
    ensures AllItems(m, list[..k]) && AllItems(m, list[..k + 1])
    ensures MatesOf(m, list[..k + 1]) == MatesOf(m, list[..k]) + m.mates[list[k]]
    ensures MatesOf(m, list[..k]) + m.mates[list[k]][..t] <= MatesOf(m, list)
  {
    assert list == list[..k + 1] + list[k + 1..];
    MatesConcat(m, list[..k + 1], list[k + 1..]);
    assert list[..k + 1][..k] == list[..k];
  }

  lemma TargetsTake(m: Matrix, stacked: map<nat, seq<nat>>, all: seq<nat>, js: seq<nat>)
    requires NodesOk(m) && stacked.Keys == m.heads && Targets(m, stacked, all) && js <= all
    ensures Targets(m, stacked, js)
  {
    assert js == all[..|js|];
  }

  /** The links once the header of `c` and the nodes `js` have been unlinked. */
  ghost function Midway(m: Matrix, cf: Conf, c: nat, js: seq<nat>): (s: Links)
    requires Invariant(m, cf) && c in m.heads && c !in cf.gone && AllItems(m, js)
    ensures Fits(m.n, s)
  {
    HeadLeaves(m, cf, c);
    UnlinkAll(m, UnlinkHead(cf.links, c), js)
  }

  /** Halfway through a cover the column itself and all rows can still be walked. */
  lemma MidwayWalkable(m: Matrix, cf: Conf, c: nat, js: seq<nat>)
    requires Invariant(m, cf) && c in m.heads && c !in cf.gone
    requires AllItems(m, cf.stacked[c]) && js <= MatesOf(m, cf.stacked[c])
    ensures AllItems(m, js) && Targets(m, cf.stacked, js)
    ensures ColumnRing(m, Midway(m, cf, c, js), c, cf.stacked[c]) && RowRings(m, Midway(m, cf, c, js))
  {
    hide Ring, Distinct, ColumnRing, RowsOk, UnlinkAll, DropAll, MatesOf, UnlinkHead;
    HeadLeaves(m, cf, c);
    CoverTargets(m, cf, c);
    TargetsTake(m, cf.stacked, MatesOf(m, cf.stacked[c]), js);
    var s1 := UnlinkHead(cf.links, c);
    HeadKeepsColumns(cf.links, c);
    StackedFrame(m, cf.links, s1, cf.stacked);
    UnlinkMany(m, s1, cf.stacked, js);
    assert js == MatesOf(m, cf.stacked[c])[..|js|];
    DropElsewhere(m, cf.stacked, js, c);
  }

  lemma HeadKeepsColumns(s: Links, c: nat)
    requires Fits(|s.left|, s) && c < |s.left|
    ensures var t := UnlinkHead(s, c); t.up == s.up && t.down == s.down && t.size == s.size
  {
  }

  /** The step of a cover, and the step of an uncover that takes it back. */
  lemma MidwayStep(m: Matrix, cf: Conf, c: nat, js: seq<nat>, j: nat)
    requires Invariant(m, cf) && c in m.heads && c !in cf.gone
    requires AllItems(m, cf.stacked[c]) && js + [j] <= MatesOf(m, cf.stacked[c])
    ensures AllItems(m, js) && AllItems(m, js + [j]) && j in m.items
    ensures Midway(m, cf, c, js + [j]) == UnlinkRow(Midway(m, cf, c, js), m.col[j], j)
    ensures RelinkRow(Midway(m, cf, c, js + [j]), m.col[j], j) == Midway(m, cf, c, js)
  {
    hide Ring, Distinct, ColumnRing, RowsOk, UnlinkAll, DropAll, MatesOf, UnlinkHead, UnlinkRow, RelinkRow;
    HeadLeaves(m, cf, c);
    MidwayWalkable(m, cf, c, js + [j]);
    var s1 := UnlinkHead(cf.links, c);
    HeadKeepsColumns(cf.links, c);
    StackedFrame(m, cf.links, s1, cf.stacked);
    UndoLast(m, s1, cf.stacked, js, j);
  }

  // ------------------------------------------------------------------ the walk of a cover

  ghost predicate CanCover(m: Matrix, cf: Conf, c: nat) {
    Invariant(m, cf) && c in m.heads && c !in cf.gone && AllItems(m, cf.stacked[c])
  }

  /** A place in the walk: `k` rows of the column done, and `t` mates of the next row. */
  ghost predicate Spot(m: Matrix, cf: Conf, c: nat, k: nat, t: nat) {
    && CanCover(m, cf, c) && k <= |cf.stacked[c]|
    && t <= if k < |cf.stacked[c]| then |m.mates[cf.stacked[c][k]]| else 0
  }

  ghost function Done(m: Matrix, cf: Conf, c: nat, k: nat, t: nat): (js: seq<nat>)
    requires Spot(m, cf, c, k, t)
    ensures AllItems(m, js) && js <= MatesOf(m, cf.stacked[c])
  {
    var list := cf.stacked[c];
    if k == |list| then
      assert list[..k] == list;
      assert AllItems(m, MatesOf(m, list)) by { CoverTargets(m, cf, c); }
      MatesOf(m, list)
    else
      MatesPrefix(m, list, k, t);
      assert AllItems(m, MatesOf(m, list[..k]) + m.mates[list[k]][..t]) by {
        MidwayWalkable(m, cf, c, MatesOf(m, list[..k]) + m.mates[list[k]][..t]);
      }
      MatesOf(m, list[..k]) + m.mates[list[k]][..t]
  }

  /** The links at a place in the walk. */
  ghost function LinksAt(m: Matrix, cf: Conf, c: nat, k: nat, t: nat): (s: Links)
    requires Spot(m, cf, c, k, t)
    ensures Fits(m.n, s)
  {
    Midway(m, cf, c, Done(m, cf, c, k, t))
  }

  lemma WalkStart(m: Matrix, cf: Conf, c: nat)
    requires Invariant(m, cf) && c in m.heads && c !in cf.gone
    ensures Fits(m.n, cf.links) && c in cf.stacked && CanCover(m, cf, c) && Spot(m, cf, c, 0, 0)
    ensures LinksAt(m, cf, c, 0, 0) == UnlinkHead(cf.links, c)
    ensures RelinkHead(UnlinkHead(cf.links, c), c) == cf.links
  {
    hide Ring, Distinct, ColumnRing, RowsOk, UnlinkHead, RelinkHead, ListedOk, SecondaryLoops, RowRings, OpenOnly;
    CoverTargets(m, cf, c);
    HeadLeaves(m, cf, c);
    if cf.stacked[c] != [] {
      assert cf.stacked[c][..0] == [];
    }
  }

  /** Along the walk the column and the row in hand can be followed both ways. */
  lemma WalkRings(m: Matrix, cf: Conf, c: nat, k: nat, t: nat)
    requires Spot(m, cf, c, k, t)
    ensures var s := LinksAt(m, cf, c, k, t);
            && Ring(s.down, s.up, c, cf.stacked[c])
            && (k < |cf.stacked[c]| ==>
                cf.stacked[c][k] in m.items && Ring(s.right, s.left, cf.stacked[c][k], m.mates[cf.stacked[c][k]]))
  {
    hide Ring, Distinct, RowsOk, Midway, ListedOk, SecondaryLoops, OpenOnly, MatesOf;
    MidwayWalkable(m, cf, c, Done(m, cf, c, k, t));
    if k < |cf.stacked[c]| {
      assert cf.stacked[c][k] in cf.stacked[c];
    }
  }

  lemma WalkMate(m: Matrix, cf: Conf, c: nat, k: nat, t: nat)
    requires Spot(m, cf, c, k, t) && k < |cf.stacked[c]| && t < |m.mates[cf.stacked[c][k]]|
    ensures var j := m.mates[cf.stacked[c][k]][t];
            && Spot(m, cf, c, k, t + 1) && j in m.items && j in m.col
            && LinksAt(m, cf, c, k, t + 1) == UnlinkRow(LinksAt(m, cf, c, k, t), m.col[j], j)
            && RelinkRow(LinksAt(m, cf, c, k, t + 1), m.col[j], j) == LinksAt(m, cf, c, k, t)
  {
    hide Ring, Distinct, RowsOk, Midway, ListedOk, SecondaryLoops, OpenOnly, MatesOf, RowRings, UnlinkRow, RelinkRow;
    var mates := m.mates[cf.stacked[c][k]];
    assert mates[..t + 1] == mates[..t] + [mates[t]];
    assert Done(m, cf, c, k, t + 1) == Done(m, cf, c, k, t) + [mates[t]];
    MidwayStep(m, cf, c, Done(m, cf, c, k, t), mates[t]);
  }

  lemma WalkRow(m: Matrix, cf: Conf, c: nat, k: nat)
    requires CanCover(m, cf, c) && k < |cf.stacked[c]|
    ensures cf.stacked[c][k] in m.items
    ensures var mates := m.mates[cf.stacked[c][k]];
            && Spot(m, cf, c, k, |mates|) && Spot(m, cf, c, k + 1, 0)
            && LinksAt(m, cf, c, k, |mates|) == LinksAt(m, cf, c, k + 1, 0)
  {
    hide Ring, Distinct, RowsOk, Midway, ListedOk, SecondaryLoops, OpenOnly, RowRings;
    var list := cf.stacked[c];
    var mates := m.mates[list[k]];
    assert mates[..|mates|] == mates;
    MatesPrefix(m, list, k, |mates|);
    if k + 1 == |list| {
      assert list[..k + 1] == list;
    } else {
      assert m.mates[list[k + 1]][..0] == [];
    }
    assert Done(m, cf, c, k, |mates|) == Done(m, cf, c, k + 1, 0);
  }

  lemma WalkEnd(m: Matrix, cf: Conf, c: nat)
    requires CanCover(m, cf, c)
    ensures LinksAt(m, cf, c, |cf.stacked[c]|, 0) == CoverConf(m, cf, c).links
  {
  }

  /** One step along a ring, both ways. */
  lemma RingStep(next: seq<nat>, prev: seq<nat>, h: nat, list: seq<nat>, i: nat)
    requires Ring(next, prev, h, list) && i <= |list|
    ensures Stop(h, list, i) < |next| && Stop(h, list, i + 1) < |next|
    ensures next[Stop(h, list, i)] == Stop(h, list, i + 1)
    ensures prev[Stop(h, list, i + 1)] == Stop(h, list, i)
    ensures Stop(h, list, i + 1) == h <==> i == |list|
    ensures Stop(h, list, i) == h <==> i == 0
  {
  }

  // ------------------------------------------------------------------ covering a whole row

  /** The columns of `xs` are distinct headers not yet covered. */
  ghost predicate Coverable(m: Matrix, gone: set<nat>, xs: seq<nat>)
    requires NodesOk(m)
  {
    && AllItems(m, xs)
    && (forall x :: x in xs ==> m.col[x] !in gone)
    && (forall i, j :: 0 <= i < j < |xs| ==> m.col[xs[i]] != m.col[xs[j]])
  }

  ghost function Columns(m: Matrix, xs: seq<nat>): set<nat> {
    set x | x in xs && x in m.col :: m.col[x]
  }

  /** A search node with the columns of `xs` still to cover. */
  ghost predicate Pending(m: Matrix, cf: Conf, xs: seq<nat>) {
    Invariant(m, cf) && Coverable(m, cf.gone, xs)
  }

  ghost function CoverMany(m: Matrix, cf: Conf, xs: seq<nat>): (r: Conf)
    requires Pending(m, cf, xs)
    ensures Invariant(m, r)
    ensures r.gone == cf.gone + Columns(m, xs)
    decreases |xs|
  {
    hide *;
    if xs == [] then
      PendingNone(m, cf, xs);
      cf
    else
      PendingLast(m, cf, xs);
      var mid := CoverMany(m, cf, xs[..|xs| - 1]);
      CoverNext(m, mid, m.col[xs[|xs| - 1]])
  }

  lemma PendingNone(m: Matrix, cf: Conf, xs: seq<nat>)
    requires Pending(m, cf, xs) && xs == []
    ensures Invariant(m, cf) && Columns(m, xs) == {}
  {
  }

  lemma PendingLast(m: Matrix, cf: Conf, xs: seq<nat>)
    requires Pending(m, cf, xs) && xs != []
    ensures Pending(m, cf, xs[..|xs| - 1])
    ensures var c := xs[|xs| - 1];
            && c in m.col && m.col[c] in m.heads
            && m.col[c] !in cf.gone + Columns(m, xs[..|xs| - 1])
            && cf.gone + Columns(m, xs) == cf.gone + Columns(m, xs[..|xs| - 1]) + {m.col[c]}
  {
    hide Ring, Stacked, RowRings, ListedOk, SecondaryLoops, OpenOnly, RowsOk;
    var k := |xs| - 1;
    assert xs == xs[..k] + [xs[k]];
  }

  ghost function CoverNext(m: Matrix, cf: Conf, c: nat): (r: Conf)
    requires Invariant(m, cf) && c in m.heads && c !in cf.gone
    ensures Invariant(m, r) && r.gone == cf.gone + {c} && r == CoverConf(m, cf, c)
  {
    CoverKeeps(m, cf, c);
    CoverConf(m, cf, c)
  }

  lemma MatesApart(m: Matrix, x: nat)
    requires WellFormed(m) && x in m.items
    ensures forall y :: y in m.mates[x] ==> y in m.items
    ensures forall i, j :: 0 <= i < j < |m.mates[x]| ==> m.col[m.mates[x][i]] != m.col[m.mates[x][j]]
  {
    var xs := m.mates[x];
    assert MatesListed(m, x);
    assert forall y :: y in xs ==> Mates(m, x, y);
    forall i, j | 0 <= i < j < |xs|
      ensures xs[i] in m.col && xs[j] in m.col && m.col[xs[i]] != m.col[xs[j]]
    {
      assert xs[i] in xs && xs[j] in xs;
      assert Mates(m, x, xs[i]) && Mates(m, x, xs[j]);
      assert Mates(m, xs[i], xs[j]);
    }
  }

  /** Once `c` is covered, the mates of one of its nodes are coverable, and covering them
      all makes exactly the columns of the row go. */
  lemma RowCoverable(m: Matrix, cf: Conf, c: nat, x: nat)
    requires Invariant(m, cf) && c in m.heads && c !in cf.gone && x in cf.stacked[c]
    ensures x in m.items && Coverable(m, cf.gone + {c}, m.mates[x]) && Open(m, cf.gone, x)
    ensures cf.gone + {c} + Columns(m, m.mates[x]) == cf.gone + RowColumns(m, m.rowOf[x])
    ensures c in RowColumns(m, m.rowOf[x])
  {
    hide Ring, ListedOk, SecondaryLoops, RowRings, Distinct, RowsOk, RowColumns, Columns;
    assert ColumnRing(m, cf.links, c, cf.stacked[c]);
    assert OpenOnly(m, cf, c);
    MatesApart(m, x);
    MatesColumns(m, x);
    var xs := m.mates[x];
    forall y | y in xs
      ensures m.col[y] !in cf.gone + {c}
    {
      assert m.col[y] in RowColumns(m, m.rowOf[x]);
    }
  }

  /** A row meets the column of one of its nodes and, elsewhere, those of the node's mates. */
  lemma MatesColumns(m: Matrix, x: nat)
    requires WellFormed(m) && x in m.items
    ensures RowColumns(m, m.rowOf[x]) == {m.col[x]} + Columns(m, m.mates[x])
    ensures forall y :: y in m.mates[x] ==>
            y in m.items && m.col[y] in RowColumns(m, m.rowOf[x]) && m.col[y] != m.col[x]
  {
    hide Distinct;
    assert MatesListed(m, x);
    var xs, r := m.mates[x], m.rowOf[x];
    forall y | y in xs
      ensures y in m.items && m.col[y] in RowColumns(m, r) && m.col[y] != m.col[x]
    {
      assert Mates(m, x, y);
    }
    forall h | h in RowColumns(m, r)
      ensures h == m.col[x] || h in Columns(m, xs)
    {
      var y :| y in m.items && m.rowOf[y] == r && m.col[y] == h;
      if y != x {
        assert Mates(m, x, y);
      }
    }
  }

  lemma ManyStart(m: Matrix, cf: Conf, xs: seq<nat>)
    requires Pending(m, cf, xs)
    ensures xs[..0] == [] && Pending(m, cf, []) && CoverMany(m, cf, []) == cf
  {
  }

  /** After any number of covers the row in hand can still be walked both ways. */
  lemma ManyRings(m: Matrix, cf: Conf, row: nat, t: nat)
    requires NodesOk(m) && row in m.items && t <= |m.mates[row]| && Pending(m, cf, m.mates[row][..t])
    ensures var s, mates := CoverMany(m, cf, m.mates[row][..t]).links, m.mates[row];
            && Fits(m.n, s) && row < m.n && Stop(row, mates, t) < m.n && Stop(row, mates, t + 1) < m.n
            && s.right[Stop(row, mates, t)] == Stop(row, mates, t + 1)
            && s.left[Stop(row, mates, t + 1)] == Stop(row, mates, t)
            && (Stop(row, mates, t + 1) == row <==> t == |mates|)
            && (Stop(row, mates, t) == row <==> t == 0)
  {
    hide Ring, Distinct, RowsOk, CoverMany, Pending, ListedOk, SecondaryLoops, OpenOnly, Stacked;
    var s := CoverMany(m, cf, m.mates[row][..t]).links;
    assert Ring(s.right, s.left, row, m.mates[row]);
    RingStep(s.right, s.left, row, m.mates[row], t);
  }

  lemma ManyNext(m: Matrix, cf: Conf, row: nat, t: nat)
    requires NodesOk(m) && row in m.items && t < |m.mates[row]| && Pending(m, cf, m.mates[row])
    ensures var mates := m.mates[row];
            && Stop(row, mates, t + 1) == mates[t] && mates[t] in m.items
            && Pending(m, cf, mates[..t]) && Pending(m, cf, mates[..t + 1])
            && m.col[mates[t]] !in CoverMany(m, cf, mates[..t]).gone
            && CoverConf(m, CoverMany(m, cf, mates[..t]), m.col[mates[t]]) == CoverMany(m, cf, mates[..t + 1])
  {
    hide Invariant, RowsOk, CoverConf;
    var mates := m.mates[row];
    PendingTake(m, cf, mates, t);
    PendingTake(m, cf, mates, t + 1);
    assert mates[..t + 1][..t] == mates[..t];
    assert mates[t] in mates;
    PendingLast(m, cf, mates[..t + 1]);
  }

  lemma PendingTake(m: Matrix, cf: Conf, xs: seq<nat>, t: nat)
    requires NodesOk(m) && Pending(m, cf, xs) && t <= |xs|
    ensures Pending(m, cf, xs[..t])
  {
    hide Invariant;
  }

  /** With column `c` covered, the row of its node number `k` can be covered, and then
      exactly the columns of that row are gone. */
  lemma RowPending(m: Matrix, cf: Conf, c: nat, k: nat)
    requires Invariant(m, cf) && c in m.heads && c !in cf.gone && k < |cf.stacked[c]|
    ensures AllItems(m, cf.stacked[c]) && cf.stacked[c][k] in m.items
    ensures var x, cf1 := cf.stacked[c][k], CoverConf(m, cf, c);
            && Pending(m, cf1, m.mates[x]) && Invariant(m, CoverMany(m, cf1, m.mates[x]))
            && RowIds(m, cf.stacked[c])[k] == m.rowOf[x]
            && CoverMany(m, cf1, m.mates[x]).gone == cf.gone + RowColumns(m, m.rowOf[x])
            && c in RowColumns(m, m.rowOf[x])
  {
    hide RowsOk, CoverMany, Ring, ListedOk, RowRings, SecondaryLoops, OpenOnly, Stacked, RowColumns, Columns;
    hide Coverable, Open;
    ColumnRowsDiffer(m, cf, c);
    var x := cf.stacked[c][k];
    assert x in cf.stacked[c];
    CoverKeeps(m, cf, c);
    RowCoverable(m, cf, c, x);
  }

  /** The column of a covered header can be walked down while its rows are tried. */
  lemma ColumnStep(m: Matrix, cf: Conf, c: nat, k: nat)
    requires Invariant(m, cf) && c in m.heads && c in cf.stacked && k <= |cf.stacked[c]|
    ensures var s, list := cf.links, cf.stacked[c];
            && Fits(m.n, s) && c < m.n && Stop(c, list, k) < m.n
            && s.down[Stop(c, list, k)] == Stop(c, list, k + 1)
            && (Stop(c, list, k + 1) == c <==> k == |list|)
  {
    hide Ring, Distinct, RowsOk, ListedOk, SecondaryLoops, OpenOnly, RowRings;
    assert ColumnRing(m, cf.links, c, cf.stacked[c]);
    RingStep(cf.links.down, cf.links.up, c, cf.stacked[c], k);
  }

  /** The root points left at itself exactly when every primary column is covered. */
  lemma RootAlone(m: Matrix, cf: Conf)
    requires Invariant(m, cf)
    ensures Fits(m.n, cf.links) && 0 < m.n
    ensures cf.links.left[0] == 0 <==> cf.listed == []
    ensures cf.listed == [] <==> m.primary <= cf.gone
  {
    hide Distinct, RowsOk, SecondaryLoops, OpenOnly, RowRings, Stacked, Ring;
    RingStep(cf.links.right, cf.links.left, 0, cf.listed, |cf.listed|);
    if cf.listed != [] {
      assert cf.listed[0] in cf.listed;
    }
  }

  // ------------------------------------------------------------------ counting the branches

  ghost function RowIds(m: Matrix, list: seq<nat>): (ids: seq<Choice>)
    requires NodesOk(m) && AllItems(m, list)
    ensures |ids| == |list|
  {
    seq(|list|, i requires 0 <= i < |list| => assert list[i] in list; m.rowOf[list[i]])
  }

  /** A node still linked in column `c` stands for a row that offers `c`. */
  lemma NodeOffers(m: Matrix, cf: Conf, c: nat, x: nat)
    requires Invariant(m, cf) && c in m.heads && c !in cf.gone && x in cf.stacked[c]
    ensures x in m.items && Offers(ProblemOf(m), cf.gone, c, m.rowOf[x])
  {
    hide Ring, ListedOk, SecondaryLoops, RowRings, RowsOk;
    assert ColumnRing(m, cf.links, c, cf.stacked[c]);
    assert OpenOnly(m, cf, c) && Open(m, cf.gone, x);
  }

  /** Every row that offers `c` has a node linked there. */
  lemma OfferedByNode(m: Matrix, cf: Conf, c: nat, r: Choice) returns (i: nat)
    requires Invariant(m, cf) && c in m.heads && c !in cf.gone && Offers(ProblemOf(m), cf.gone, c, r)
    ensures i < |cf.stacked[c]| && cf.stacked[c][i] in m.items && m.rowOf[cf.stacked[c][i]] == r
  {
    hide Ring, ListedOk, SecondaryLoops, RowRings, RowsOk;
    var x :| x in m.items && m.rowOf[x] == r && m.col[x] == c;
    assert OpenOnly(m, cf, c) && Open(m, cf.gone, x);
    i :| 0 <= i < |cf.stacked[c]| && cf.stacked[c][i] == x;
  }

  /** Two nodes of one column are in different rows. */
  lemma ColumnRowsDiffer(m: Matrix, cf: Conf, c: nat)
    requires Invariant(m, cf) && c in m.heads
    ensures c in cf.stacked && AllItems(m, cf.stacked[c])
    ensures Distinct(RowIds(m, cf.stacked[c]))
  {
    hide Ring, ListedOk, SecondaryLoops, RowRings, MatesListed, OpenOnly;
    assert ColumnRing(m, cf.links, c, cf.stacked[c]);
    RingDistinct(cf.links.down, cf.links.up, c, cf.stacked[c]);
    var list := cf.stacked[c];
    forall i, j | 0 <= i < j < |list|
      ensures RowIds(m, list)[i] != RowIds(m, list)[j]
    {
      assert list[i] in list && list[j] in list;
      assert !Mates(m, list[i], list[j]);
    }
  }

  /** Trying the next row of the column adds the covers that go on from it. */
  lemma BranchAdds(m: Matrix, cf: Conf, c: nat, k: nat)
    requires Invariant(m, cf) && c in m.heads && c !in cf.gone && k < |cf.stacked[c]|
    ensures AllItems(m, cf.stacked[c]) && cf.stacked[c][k] in m.items
    ensures var p, ids := ProblemOf(m), RowIds(m, cf.stacked[c]);
            && |CoversWithAny(p, cf.gone, ids[..k + 1])|
               == |CoversWithAny(p, cf.gone, ids[..k])| + |Covers(p, cf.gone + RowColumns(m, ids[k]))|
  {
    hide ListedOk, RowRings, SecondaryLoops, OpenOnly, RowsOk, Ring, Stacked, CoversWithAny, Covers, Offers, Distinct;
    ColumnRowsDiffer(m, cf, c);
    var p, list := ProblemOf(m), cf.stacked[c];
    var ids := RowIds(m, list);
    assert list[k] in list;
    NodeOffers(m, cf, c, list[k]);
    forall i | 0 <= i < k
      ensures Offers(p, cf.gone, c, ids[i])
    {
      assert list[i] in list;
      NodeOffers(m, cf, c, list[i]);
    }
    assert ids[..k + 1] == ids[..k] + [ids[k]];
    DistinctFresh(ids, k);
    OffersColumns(m, cf.gone, c, ids[k]);
    AddBranch(p, cf.gone, c, ids[..k], ids[k]);
  }

  lemma DistinctFresh<T>(s: seq<T>, k: nat)
    requires Distinct(s) && k < |s|
    ensures s[k] !in s[..k]
  {
  }

  lemma OffersColumns(m: Matrix, gone: set<nat>, c: nat, r: Choice)
    requires NodesOk(m) && Offers(ProblemOf(m), gone, c, r)
    ensures ProblemOf(m).rows[r] == RowColumns(m, r)
  {
  }

  lemma BranchesDone(m: Matrix, cf: Conf, c: nat)
    requires Invariant(m, cf) && c in m.primary && c !in cf.gone
    ensures c in m.heads && AllItems(m, cf.stacked[c])
    ensures CoversWithAny(ProblemOf(m), cf.gone, RowIds(m, cf.stacked[c])) == Covers(ProblemOf(m), cf.gone)
  {
    hide ListedOk, RowRings, SecondaryLoops, OpenOnly, RowsOk, Ring, Stacked, CoversWithAny, Covers, Offers, Distinct;
    ColumnRowsDiffer(m, cf, c);
    var p, ids := ProblemOf(m), RowIds(m, cf.stacked[c]);
    forall r | Offers(p, cf.gone, c, r)
      ensures r in ids
    {
      var i := OfferedByNode(m, cf, c, r);
      assert ids[i] == r;
    }
    BranchesExhaust(p, cf.gone, c, ids);
  }

  // ------------------------------------------------------------------ the rows chosen

  /** The rows of some nodes. */
  ghost function Chosen(m: Matrix, xs: seq<nat>): set<Choice> {
    set x | x in xs && x in m.rowOf :: m.rowOf[x]
  }

  lemma NothingChosen(m: Matrix)
    ensures Chosen(m, []) == {} && AllItems(m, [])
  {
  }

  lemma InvariantRows(m: Matrix, cf: Conf)
    requires Invariant(m, cf)
    ensures Fits(m.n, cf.links) && RowRings(m, cf.links)
  {
  }

  /** A cover of what a row leaves, together with the row, covers what was left before. */
  lemma ChoiceCovers(m: Matrix, cf: Conf, c: nat, k: nat, added: seq<nat>)
    requires Invariant(m, cf) && c in m.heads && c !in cf.gone && k < |cf.stacked[c]|
    requires cf.stacked[c][k] in m.items && AllItems(m, added)
    requires Chosen(m, added) in Covers(ProblemOf(m), cf.gone + RowColumns(m, m.rowOf[cf.stacked[c][k]]))
    ensures Chosen(m, [cf.stacked[c][k]] + added) in Covers(ProblemOf(m), cf.gone)
    ensures AllItems(m, [cf.stacked[c][k]] + added)
  {
    hide ListedOk, RowRings, SecondaryLoops, OpenOnly, RowsOk, Ring, Covers, Distinct;
    var x := cf.stacked[c][k];
    var r := m.rowOf[x];
    NodeOffers(m, cf, c, x);
    OffersColumns(m, cf.gone, c, r);
    AddRow(ProblemOf(m), cf.gone, r, Chosen(m, added));
    assert Chosen(m, [x] + added) == Chosen(m, added) + {r};
    CoverWithIsCover(ProblemOf(m), cf.gone, r);
  }

  lemma CoverWithIsCover(p: Problem, gone: set<nat>, r: Choice)
    ensures CoversWith(p, gone, r) <= Covers(p, gone)
  {
  }

  /** A row that leads to no cover adds none. */
  lemma BranchFails(m: Matrix, cf: Conf, c: nat, k: nat)
    requires Invariant(m, cf) && c in m.heads && c !in cf.gone && k < |cf.stacked[c]|
    requires AllItems(m, cf.stacked[c])
    requires CoversWithAny(ProblemOf(m), cf.gone, RowIds(m, cf.stacked[c])[..k]) == {}
    requires Covers(ProblemOf(m), cf.gone + RowColumns(m, RowIds(m, cf.stacked[c])[k])) == {}
    ensures CoversWithAny(ProblemOf(m), cf.gone, RowIds(m, cf.stacked[c])[..k + 1]) == {}
  {
    hide Invariant, RowsOk, CoversWithAny, Covers;
    BranchAdds(m, cf, c, k);
  }
}
