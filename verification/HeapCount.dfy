/** What the numbers of heaps count: the heap-ordered complete binary trees over a set of keys. */
module HeapCount {
  import opened Powers
  import opened Sets
  import opened NumHeaps

  // ----- the shape -----

  /** The number of places at or below place `i` of `n` places, where `i` has children `2i + 1` and `2i + 2`. */
  ghost function Slots(i: nat, n: nat): nat
    decreases if i < n then n - i else 0
  {
    if i >= n then 0 else 1 + Slots(2 * i + 1, n) + Slots(2 * i + 2, n)
  }

  function Clamp(x: int, d: nat): nat {
    if x < 0 then 0 else if x > d then d else x
  }

  /** When the levels before the e-th below `i` are full and the next is empty. */
  lemma {:induction false} SlotsLevel(i: nat, e: nat, n: nat)
    requires e > 0 ==> (i + 2) * Pow(2, e - 1) - 1 <= n
    requires n <= (i + 1) * Pow(2, e + 1) - 1
    ensures Slots(i, n) == Pow(2, e) - 1 + Clamp(n - (i + 1) * Pow(2, e) + 1, Pow(2, e))
    decreases e
  {
    hide Pow;
    PowSmall(2);
    PowNext(2, e);
    if e > 0 {
      var p := Pow(2, e - 1);
      PowNext(2, e - 1);
      PowPositive(2, e - 1);
      LevelBounds(i, p, n);
      if e > 1 {
        PowNext(2, e - 2);
        HalfLevel(i, Pow(2, e - 2));
      }
      SlotsLevel(2 * i + 1, e - 1, n);
      SlotsLevel(2 * i + 2, e - 1, n);
    }
  }

  lemma LevelBounds(i: nat, p: nat, n: nat)
    requires p > 0
    ensures (2 * i + 2) * p == (i + 1) * (2 * p) && (2 * i + 3) * p == (i + 1) * (2 * p) + p
    ensures (2 * i + 2) * (2 * p) == (i + 1) * (2 * (2 * p))
    ensures (2 * i + 3) * (2 * p) >= (i + 1) * (2 * (2 * p))
    ensures (i + 2) * p >= i + 2
  {
  }

  lemma HalfLevel(i: nat, h: nat)
    ensures (2 * i + 3) * h <= (i + 2) * (2 * h) && (2 * i + 4) * h == (i + 2) * (2 * h)
  {
  }

  /** The formula for the left subtree counts the places below place 1. */
  lemma LeftSizeSlots(n: nat)
    requires n >= 2
    ensures LeftSize(n) == Slots(1, n) && n - 1 - LeftSize(n) == Slots(2, n)
    ensures Slots(0, n) == n
  {
    hide Pow;
    var h := FloorLog(n);
    PowSmall(2);
    PowPositive(2, h);
    PowNext(2, h - 1);
    PowNext(2, h);
    if h > 1 {
      PowNext(2, h - 2);
    }
    SlotsLevel(1, h - 1, n);
    SlotsLevel(2, h - 1, n);
  }

  // ----- subsets of a given size -----

  ghost function Subsets(s: set<int>, k: nat): set<set<int>> {
    set t | t <= s && |t| == k
  }

  /** The sets of `ss` with `x` put in. */
  ghost function With(ss: set<set<int>>, x: int): set<set<int>> {
    set t | t in ss :: t + {x}
  }

  lemma AddRemove(t: set<int>, x: int)
    ensures x !in t ==> t + {x} - {x} == t && |t + {x}| == |t| + 1
    ensures x in t ==> t - {x} + {x} == t && |t - {x}| == |t| - 1
  {
  }

  /** The subsets with `x` are the smaller subsets without it, with `x` put in. */
  lemma WithElement(s: set<int>, x: int, k: nat, t: set<int>)
    requires x !in s && k > 0
    ensures t in Subsets(s + {x}, k) <==> t in Subsets(s, k) || t in With(Subsets(s, k - 1), x)
    ensures !(t in Subsets(s, k) && t in With(Subsets(s, k - 1), x))
  {
    AddRemove(t, x);
    if t in Subsets(s + {x}, k) && x in t {
      assert t - {x} in Subsets(s, k - 1);
      assert t == (t - {x}) + {x};
    }
    if u :| u in Subsets(s, k - 1) && t == u + {x} {
      AddRemove(u, x);
    }
  }

  lemma WithCount(s: set<int>, x: int, k: nat)
    requires x !in s
    ensures |With(Subsets(s, k), x)| == |Subsets(s, k)|
  {
    forall t | t in Subsets(s, k)
      ensures t + {x} - {x} == t
    {
      AddRemove(t, x);
    }
    BijectionSize(Subsets(s, k), With(Subsets(s, k), x), (t: set<int>) => t + {x});
  }

  lemma SubsetsEdges(s: set<int>, k: nat)
    ensures k == 0 ==> |Subsets(s, k)| == 1 == Choose(|s|, k)
    ensures k > 0 && s == {} ==> |Subsets(s, k)| == 0 == Choose(|s|, k)
  {
    if k == 0 {
      assert Subsets(s, 0) == {{}};
    } else if s == {} {
      assert Subsets(s, k) == {};
    }
  }

  lemma {:induction false} SubsetsCount(s: set<int>, k: nat)
    ensures |Subsets(s, k)| == Choose(|s|, k)
    decreases |s|
  {
    SubsetsEdges(s, k);
    if k > 0 && s != {} {
      hide Subsets, With, Choose;
      var x := SomeMember(s);
      var s' := s - {x};
      AddRemove(s, x);
      SubsetsCount(s', k);
      SubsetsCount(s', k - 1);
      WithCount(s', x, k - 1);
      Pascal(|s'|, k - 1);
      assert |Subsets(s, k)| == |Subsets(s', k)| + |With(Subsets(s', k - 1), x)| by {
        forall t
          ensures t in Subsets(s, k) <==> t in Subsets(s', k) || t in With(Subsets(s', k - 1), x)
          ensures !(t in Subsets(s', k) && t in With(Subsets(s', k - 1), x))
        {
          WithElement(s', x, k, t);
        }
        DisjointUnion(Subsets(s', k), With(Subsets(s', k - 1), x), Subsets(s, k));
      }
    }
  }

  lemma DisjointUnion<T>(a: set<T>, b: set<T>, c: set<T>)
    requires forall x :: x in c <==> x in a || x in b
    requires forall x :: !(x in a && x in b)
    ensures |c| == |a| + |b|
  {
    assert c == a + b && a !! b;
  }

  // ----- heaps as trees -----

  datatype HeapTree = Empty | Node(key: int, left: HeapTree, right: HeapTree)

  ghost function Keys(t: HeapTree): set<int> {
    if t.Empty? then {} else {t.key} + Keys(t.left) + Keys(t.right)
  }

  function LeftKeys(n: nat): (l: nat)
    ensures n > 0 ==> l < n
  {
    if n < 2 then 0 else LeftSize(n)
  }

  ghost predicate Beneath(m: int, s: set<int>) {
    forall x :: x in s ==> m < x
  }

  /** A complete binary tree of different keys, each less than those below it. */
  ghost predicate IsHeap(t: HeapTree) {
    t.Empty? ||
    (&& IsHeap(t.left) && IsHeap(t.right)
     && Keys(t.left) !! Keys(t.right)
     && Beneath(t.key, Keys(t.left) + Keys(t.right))
     && |Keys(t.left)| == LeftKeys(|Keys(t)|))
  }

  ghost predicate Least(s: set<int>, m: int) {
    m in s && forall x :: x in s ==> m <= x
  }

  lemma {:induction false} LeastExists(s: set<int>) returns (m: int)
    requires s != {}
    ensures Least(s, m)
    decreases |s|
  {
    var x := SomeMember(s);
    m := x;
    if s - {x} != {} {
      var n := LeastExists(s - {x});
      m := if n < x then n else x;
    }
    assert forall y :: y in s ==> y == x || y in s - {x};
  }

  ghost function Minimum(s: set<int>): (m: int)
    requires s != {}
    ensures Least(s, m)
  {
    LeastHere(s);
    var m :| Least(s, m);
    m
  }

  lemma LeastHere(s: set<int>)
    requires s != {}
    ensures exists m :: Least(s, m)
  {
    var m := LeastExists(s);
  }

  /** The heaps over a set of keys: the least key on top of a heap over some of the others and one over the rest. */
  ghost function HeapsOn(s: set<int>): set<HeapTree>
    decreases |s|
  {
    if s == {} then {Empty}
    else
      var m := Minimum(s);
      var r := s - {m};
      hide LeftKeys;
      set l, a, b | l in Subsets(r, LeftKeys(|s|)) && a in Smaller(l, s) && b in Smaller(r - l, s) :: Node(m, a, b)
  }

  ghost function Smaller(l: set<int>, s: set<int>): set<HeapTree>
    decreases |s|, 0
  {
    if |l| < |s| then HeapsOn(l) else {}
  }

  lemma LeastUnique(s: set<int>, m: int)
    requires Least(s, m)
    ensures m == Minimum(s)
  {
    var n := Minimum(s);
    assert m in s && n in s;
  }

  lemma KeysParts(k: int, l: set<int>, r: set<int>)
    requires k !in l && k !in r && l !! r
    ensures {k} + l + r - {k} == l + r && {k} + l + r - {k} - l == r
    ensures |l| < |{k} + l + r| && |r| < |{k} + l + r|
  {
    assert {k} + l + r == {k} + (l + r);
    assert |{k} + (l + r)| == 1 + |l + r|;
    assert |l + r| == |l| + |r|;
  }

  /** A heap's key at the top is its least key. */
  lemma TopLeast(t: HeapTree)
    requires IsHeap(t) && t.Node?
    ensures Keys(t) != {} && t.key == Minimum(Keys(t))
    ensures var r := Keys(t) - {t.key};
            Keys(t.left) <= r && Keys(t.right) == r - Keys(t.left)
    ensures |Keys(t.left)| < |Keys(t)| && |Keys(t.right)| < |Keys(t)| && |Keys(t.left)| == LeftKeys(|Keys(t)|)
  {
    hide LeftKeys, Minimum, Beneath, Least, IsHeap, Keys;
    HeapParts(t);
    var l, r := Keys(t.left), Keys(t.right);
    BeneathLeast(t.key, l + r);
    assert {t.key} + l + r == {t.key} + (l + r);
    KeysParts(t.key, l, r);
    LeastUnique(Keys(t), t.key);
  }

  lemma BeneathLeast(m: int, u: set<int>)
    requires Beneath(m, u)
    ensures m !in u && Least({m} + u, m)
  {
  }

  lemma LeastBeneath(s: set<int>, m: int)
    requires Least(s, m)
    ensures Beneath(m, s - {m}) && m in s
  {
    forall x | x in s - {m}
      ensures m < x
    {
      assert x in s;
    }
  }

  lemma HeapsOnNode(s: set<int>, t: HeapTree, l: set<int>)
    requires s != {} && t.Node? && t.key == Minimum(s)
    requires l in Subsets(s - {t.key}, LeftKeys(|s|))
    requires t.left in Smaller(l, s) && t.right in Smaller(s - {t.key} - l, s)
    ensures t in HeapsOn(s)
  {
    hide LeftKeys, Minimum, Subsets, Smaller;
    assert t == Node(t.key, t.left, t.right);
  }

  lemma HeapsOnSplit(s: set<int>, t: HeapTree) returns (l: set<int>)
    requires s != {} && t in HeapsOn(s)
    ensures t.Node? && t.key == Minimum(s)
    ensures l in Subsets(s - {t.key}, LeftKeys(|s|))
    ensures t.left in Smaller(l, s) && t.right in Smaller(s - {t.key} - l, s)
  {
    hide LeftKeys, Minimum, Subsets, Smaller;
    var m := Minimum(s);
    var r := s - {m};
    var l', a, b :| l' in Subsets(r, LeftKeys(|s|)) && a in Smaller(l', s) && b in Smaller(r - l', s)
        && t == Node(m, a, b);
    l := l';
  }

  lemma HeapBuilt(s: set<int>, t: HeapTree, l: set<int>, r: set<int>)
    requires t.Node? && Least(s, t.key) && IsHeap(t.left) && IsHeap(t.right)
    requires Keys(t.left) == l && Keys(t.right) == r && l <= s - {t.key} && r == s - {t.key} - l
    requires |l| == LeftKeys(|s|)
    ensures IsHeap(t) && Keys(t) == s
  {
    hide LeftKeys, Beneath, Least, IsHeap, Keys;
    LeastBeneath(s, t.key);
    SetParts(s, t.key, l, r);
    HeapParts(t);
  }

  lemma SetParts(s: set<int>, k: int, l: set<int>, r: set<int>)
    requires k in s && l <= s - {k} && r == s - {k} - l
    ensures {k} + l + r == s && s - {k} == l + r && l !! r
  {
  }

  lemma HeapParts(t: HeapTree)
    requires t.Node?
    ensures Keys(t) == {t.key} + Keys(t.left) + Keys(t.right)
    ensures IsHeap(t) <==> IsHeap(t.left) && IsHeap(t.right) && Keys(t.left) !! Keys(t.right)
                           && Beneath(t.key, Keys(t.left) + Keys(t.right))
                           && |Keys(t.left)| == LeftKeys(|Keys(t)|)
  {
    hide LeftKeys, Beneath;
  }

  lemma {:induction false} SmallerSound(s: set<int>, l: set<int>, t: HeapTree)
    requires t in Smaller(l, s)
    ensures IsHeap(t) && Keys(t) == l
    decreases |s|, 0
  {
    HeapsSound(l, t);
  }

  /** The trees are heaps over the keys. */
  lemma {:induction false} HeapsSound(s: set<int>, t: HeapTree)
    requires t in HeapsOn(s)
    ensures IsHeap(t) && Keys(t) == s
    decreases |s|, 1
  {
    if s == {} {
      assert t == Empty;
    } else {
      hide LeftKeys, HeapsOn, Minimum, IsHeap, Keys, Smaller;
      var l := HeapsOnSplit(s, t);
      var r := s - {t.key} - l;
      assert Least(s, t.key);
      SmallerSound(s, l, t.left);
      SmallerSound(s, r, t.right);
      HeapBuilt(s, t, l, r);
    }
  }

  /** Every heap over the keys is there. */
  lemma {:induction false} HeapsComplete(t: HeapTree)
    requires IsHeap(t)
    ensures t in HeapsOn(Keys(t))
  {
    if t.Node? {
      hide LeftKeys, HeapsOn, Minimum;
      TopLeast(t);
      HeapsComplete(t.left);
      HeapsComplete(t.right);
      HeapsOnNode(Keys(t), t, Keys(t.left));
    }
  }

  // ----- their number -----

  ghost function Pairs(m: int, xs: set<HeapTree>, ys: set<HeapTree>): set<HeapTree> {
    set x, y | x in xs && y in ys :: Node(m, x, y)
  }

  lemma {:induction false} PairsCount(m: int, xs: set<HeapTree>, ys: set<HeapTree>)
    ensures |Pairs(m, xs, ys)| == |xs| * |ys|
    decreases |xs|
  {
    if xs == {} {
      assert Pairs(m, xs, ys) == {};
    } else {
      var x := SomeMember(xs);
      var xs' := xs - {x};
      PairsCount(m, xs', ys);
      RowCount(m, x, ys);
      DisjointUnion(Pairs(m, xs', ys), Row(m, x, ys), Pairs(m, xs, ys));
      assert |xs| == |xs'| + 1;
      Distribute(|ys|, |xs'|, 1);
    }
  }

  ghost function Row(m: int, x: HeapTree, ys: set<HeapTree>): set<HeapTree> {
    set y | y in ys :: Node(m, x, y)
  }

  lemma RowCount(m: int, x: HeapTree, ys: set<HeapTree>)
    ensures |Row(m, x, ys)| == |ys|
  {
    BijectionSize(ys, Row(m, x, ys), (y: HeapTree) => Node(m, x, y));
  }

  /** The heaps over `s` whose left keys are one of `ls`. */
  ghost function Grouped(m: int, r: set<int>, ls: set<set<int>>, s: set<int>): set<HeapTree> {
    set l, a, b | l in ls && a in Smaller(l, s) && b in Smaller(r - l, s) :: Node(m, a, b)
  }

  lemma {:induction false} GroupedCount(m: int, r: set<int>, ls: set<set<int>>, s: set<int>, x: nat, y: nat)
    requires forall l :: l in ls ==> |Smaller(l, s)| == x && |Smaller(r - l, s)| == y
    ensures |Grouped(m, r, ls, s)| == |ls| * (x * y)
    decreases |ls|
  {
    hide Smaller, Grouped, Pairs;
    if ls == {} {
      NoGroups(m, r, s);
    } else {
      var l := SomeMember(ls);
      var ls' := ls - {l};
      GroupedCount(m, r, ls', s, x, y);
      PairsCount(m, Smaller(l, s), Smaller(r - l, s));
      assert ls == ls' + {l};
      GroupedStep(m, r, ls', s, l);
      Distribute(x * y, |ls'|, 1);
    }
  }

  lemma NoGroups(m: int, r: set<int>, s: set<int>)
    ensures Grouped(m, r, {}, s) == {}
  {
  }

  /** A tree tells its left keys, so the groups do not overlap. */
  lemma GroupedStep(m: int, r: set<int>, ls: set<set<int>>, s: set<int>, l: set<int>)
    requires l !in ls
    ensures |Grouped(m, r, ls + {l}, s)| == |Grouped(m, r, ls, s)| + |Pairs(m, Smaller(l, s), Smaller(r - l, s))|
  {
    hide Smaller, HeapsOn;
    var pairs := Pairs(m, Smaller(l, s), Smaller(r - l, s));
    forall t | t in pairs
      ensures t !in Grouped(m, r, ls, s)
    {
      SmallerSound(s, l, t.left);
      if l', a, b :| l' in ls && a in Smaller(l', s) && b in Smaller(r - l', s) && t == Node(m, a, b) {
        SmallerSound(s, l', t.left);
      }
    }
    DisjointUnion(Grouped(m, r, ls, s), pairs, Grouped(m, r, ls + {l}, s));
  }

  /** The number of heaps over any `n` keys is `Heaps(n)`. */
  lemma {:induction false} HeapsCount(s: set<int>)
    ensures |HeapsOn(s)| == Heaps(|s|)
    decreases |s|, 1
  {
    hide Heaps, LeftKeys;
    if s == {} {
      HeapsStep(0);
      assert HeapsOn(s) == {Empty};
    } else {
      hide Choose, Subsets, Smaller, HeapsOn, Minimum, Grouped;
      var m := Minimum(s);
      var r := s - {m};
      var n, k := |s|, LeftKeys(|s|);
      HeapsGrouped(s, m, r);
      forall l | l in Subsets(r, k)
        ensures |Smaller(l, s)| == Heaps(k) && |Smaller(r - l, s)| == Heaps(n - 1 - k)
      {
        PartCounts(s, r, l, k);
      }
      GroupedCount(m, r, Subsets(r, k), s, Heaps(k), Heaps(n - 1 - k));
      SubsetsCount(r, k);
      HeapsByLeft(n);
    }
  }

  lemma {:induction false} PartCounts(s: set<int>, r: set<int>, l: set<int>, k: nat)
    requires l in Subsets(r, k) && r <= s && |r| == |s| - 1
    ensures k <= |s| - 1 && |Smaller(l, s)| == Heaps(k) && |Smaller(r - l, s)| == Heaps(|s| - 1 - k)
    decreases |s|, 0
  {
    hide Heaps, Subsets, Smaller, HeapsOn;
    SmallerCounts(s, r, l, k);
    HeapsCount(l);
    HeapsCount(r - l);
  }

  lemma HeapsGrouped(s: set<int>, m: int, r: set<int>)
    requires s != {} && m == Minimum(s) && r == s - {m}
    ensures HeapsOn(s) == Grouped(m, r, Subsets(r, LeftKeys(|s|)), s)
    ensures |r| == |s| - 1
  {
    hide LeftKeys, Subsets, Smaller;
  }

  lemma SmallerCounts(s: set<int>, r: set<int>, l: set<int>, k: nat)
    requires l in Subsets(r, k) && r <= s && |r| < |s|
    ensures |l| == k && |r - l| == |r| - k && |l| < |s| && |r - l| < |s|
    ensures Smaller(l, s) == HeapsOn(l) && Smaller(r - l, s) == HeapsOn(r - l)
  {
    assert r == l + (r - l);
    assert |r| == |l| + |r - l|;
  }

  lemma HeapsByLeft(n: nat)
    requires n > 0
    ensures Heaps(n) == Choose(n - 1, LeftKeys(n)) * (Heaps(LeftKeys(n)) * Heaps(n - 1 - LeftKeys(n)))
  {
    HeapsStep(n);
    HeapsStep(0);
    ChooseEdges(0);
    hide Heaps, Choose;
    if n >= 2 {
      MulAssoc(Choose(n - 1, LeftKeys(n)), Heaps(LeftKeys(n)), Heaps(n - 1 - LeftKeys(n)));
    }
  }
}
