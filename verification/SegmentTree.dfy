/** A segment tree in an array: sums over ranges that follow single updates. */
module SegmentTree {
  import opened Powers

  /** The sum of the numbers at the places from `l` to `r` that exist. */
  ghost function RangeSum(nums: seq<int>, l: int, r: int): int {
    if nums == [] then 0
    else RangeSum(nums[..|nums| - 1], l, r) + if l <= |nums| - 1 <= r then nums[|nums| - 1] else 0
  }

  lemma {:induction false} SumSplit(nums: seq<int>, l: int, m: int, r: int)
    requires l <= m + 1 && m <= r
    ensures RangeSum(nums, l, r) == RangeSum(nums, l, m) + RangeSum(nums, m + 1, r)
  {
    if nums != [] {
      SumSplit(nums[..|nums| - 1], l, m, r);
    }
  }

  lemma {:induction false} SumNone(nums: seq<int>, l: int, r: int)
    requires r < l || r < 0 || |nums| <= l
    ensures RangeSum(nums, l, r) == 0
  {
    if nums != [] {
      SumNone(nums[..|nums| - 1], l, r);
    }
  }

  lemma {:induction false} SumOne(nums: seq<int>, i: nat)
    requires i < |nums|
    ensures RangeSum(nums, i, i) == nums[i]
  {
    if i < |nums| - 1 {
      SumOne(nums[..|nums| - 1], i);
    } else {
      SumNone(nums[..i], i, i);
    }
  }

  lemma {:induction false} SumClip(nums: seq<int>, l: int, r: int)
    ensures RangeSum(nums, l, r) == RangeSum(nums, if l < 0 then 0 else l, if r >= |nums| then |nums| - 1 else r)
  {
    if nums != [] {
      SumBeyond(nums[..|nums| - 1], l, r, if r >= |nums| then |nums| - 1 else r);
      SumClip(nums[..|nums| - 1], l, r);
      SumBeyond(nums[..|nums| - 1], if l < 0 then 0 else l,
                if r >= |nums| - 1 then |nums| - 2 else r, if r >= |nums| then |nums| - 1 else r);
    }
  }

  lemma {:induction false} SumBeyond(nums: seq<int>, l: int, r: int, r': int)
    requires r == r' || (|nums| - 1 <= r && |nums| - 1 <= r')
    ensures RangeSum(nums, l, r) == RangeSum(nums, l, r')
  {
    if nums != [] {
      SumBeyond(nums[..|nums| - 1], l, r, r');
    }
  }

  lemma {:induction false} SumChange(nums: seq<int>, i: nat, x: int, l: int, r: int)
    requires i < |nums|
    ensures RangeSum(nums[i := x], l, r) == RangeSum(nums, l, r) + if l <= i <= r then x - nums[i] else 0
  {
    var n := |nums| - 1;
    if i < n {
      assert nums[i := x][..n] == nums[..n][i := x];
      SumChange(nums[..n], i, x, l, r);
    } else {
      assert nums[i := x][..n] == nums[..n];
    }
  }

  /** The places of a node's subtree: at most `2^e` numbers lie below it, and it leaves room for `e` more levels. */
  ghost predicate Fits(size: nat, node: nat, start: nat, end: nat, e: nat) {
    start <= end && end - start + 1 <= Pow(2, e) && (node + 2) * Pow(2, e) <= size
  }

  lemma FitsChildren(size: nat, node: nat, start: nat, end: nat, e: nat)
    requires Fits(size, node, start, end, e) && start < end
    ensures e > 0
    ensures Fits(size, 2 * node + 1, start, (start + end) / 2, e - 1)
    ensures Fits(size, 2 * node + 2, (start + end) / 2 + 1, end, e - 1)
  {
    PowSmall(2);
    hide Pow;
    if e > 0 {
      PowNext(2, e - 1);
      PowPositive(2, e - 1);
      var p := Pow(2, e - 1);
      MulAssoc(node + 2, 2, p);
      MulLe(p, 2 * node + 3, 2 * node + 4);
    }
  }

  /** Every place of the tree is within the array. */
  lemma FitsNode(size: nat, node: nat, start: nat, end: nat, e: nat)
    requires Fits(size, node, start, end, e)
    ensures node + 2 <= size
  {
    PowPositive(2, e);
    MulLe(node + 2, 1, Pow(2, e));
  }

  /** The least power of two that is not below `n`. */
  lemma {:induction false} Levels(n: nat) returns (e: nat)
    requires n > 0
    ensures n <= Pow(2, e) < 2 * n
  {
    hide Pow;
    PowSmall(2);
    if n == 1 {
      e := 0;
    } else {
      e := Levels(n - 1);
      if Pow(2, e) < n {
        PowNext(2, e);
        PowPositive(2, e);
        e := e + 1;
      }
    }
  }

  /** Each node below holds the sum of its stretch of the numbers. */
  ghost predicate Holds(tree: seq<int>, nums: seq<int>, node: nat, start: nat, end: nat)
    decreases end - start
  {
    && start <= end < |nums| && node < |tree|
    && tree[node] == RangeSum(nums, start, end)
    && (start < end ==>
          Holds(tree, nums, 2 * node + 1, start, (start + end) / 2)
            && Holds(tree, nums, 2 * node + 2, (start + end) / 2 + 1, end))
  }

  /** `a` is `node` or below it. */
  ghost predicate Under(a: nat, node: nat)
    decreases a
  {
    a == node || (a > node && Under((a - 1) / 2, node))
  }

  lemma {:induction false} UnderAbove(a: nat, node: nat)
    requires Under(a, 2 * node + 1) || Under(a, 2 * node + 2)
    ensures Under(a, node)
    decreases a
  {
    if a != 2 * node + 1 && a != 2 * node + 2 {
      UnderAbove((a - 1) / 2, node);
    }
  }

  lemma {:induction false} UnderApart(a: nat, node: nat)
    ensures !(Under(a, 2 * node + 1) && Under(a, 2 * node + 2))
    ensures !Under(node, 2 * node + 1) && !Under(node, 2 * node + 2)
    decreases a
  {
    if a > 2 * node + 2 {
      UnderApart((a - 1) / 2, node);
    }
  }

  /** Two trees that agree below a node. */
  ghost predicate Agree(t: seq<int>, u: seq<int>, node: nat) {
    |t| == |u| && forall a: nat :: a < |t| && Under(a, node) ==> t[a] == u[a]
  }

  /** Two trees that agree everywhere else. */
  ghost predicate AgreeElse(t: seq<int>, u: seq<int>, node: nat) {
    |t| == |u| && forall a: nat :: a < |t| && !Under(a, node) ==> t[a] == u[a]
  }

  lemma AgreeChild(t: seq<int>, u: seq<int>, node: nat, x: nat, y: nat)
    requires Siblings(x, y, node) && Agree(t, u, node)
    ensures Agree(t, u, x)
  {
    hide Under;
    forall a: nat | Under(a, x)
      ensures Under(a, node)
    {
      UnderAbove(a, node);
    }
  }

  lemma {:induction false} HoldsSame(t: seq<int>, u: seq<int>, nums: seq<int>, node: nat, start: nat, end: nat)
    requires Holds(t, nums, node, start, end) && Agree(t, u, node)
    ensures Holds(u, nums, node, start, end)
    decreases end - start
  {
    if start < end {
      AgreeChild(t, u, node, 2 * node + 1, 2 * node + 2);
      AgreeChild(t, u, node, 2 * node + 2, 2 * node + 1);
      HoldsSame(t, u, nums, 2 * node + 1, start, (start + end) / 2);
      HoldsSame(t, u, nums, 2 * node + 2, (start + end) / 2 + 1, end);
    }
  }

  ghost predicate Siblings(x: nat, y: nat, node: nat) {
    (x == 2 * node + 1 && y == 2 * node + 2) || (x == 2 * node + 2 && y == 2 * node + 1)
  }

  /** Changes below one child leave the other child alone, and the node itself. */
  lemma ElseChild(t: seq<int>, u: seq<int>, node: nat, x: nat, y: nat)
    requires Siblings(x, y, node) && AgreeElse(t, u, x)
    ensures Agree(t, u, y) && AgreeElse(t, u, node)
  {
    hide Under;
    forall a: nat
      ensures !(Under(a, x) && Under(a, y))
      ensures Under(a, x) ==> Under(a, node)
    {
      UnderApart(a, node);
      if Under(a, x) {
        UnderAbove(a, node);
      }
    }
  }

  lemma NodeChanged(t: seq<int>, u: seq<int>, node: nat, x: nat, y: nat, v: int)
    requires Siblings(x, y, node) && node < |t| && u == t[node := v]
    ensures Agree(t, u, x)
  {
    hide Under;
    UnderApart(node, node);
  }

  lemma ElseNext(t: seq<int>, u: seq<int>, v: seq<int>, node: nat)
    requires AgreeElse(t, u, node) && AgreeElse(u, v, node)
    ensures AgreeElse(t, v, node)
  {
  }

  /** The sum of the children is put into the node. */
  lemma Combine(t: seq<int>, nums: seq<int>, node: nat, start: nat, end: nat)
    requires start < end < |nums| && node < |t|
    requires Holds(t, nums, 2 * node + 1, start, (start + end) / 2)
             && Holds(t, nums, 2 * node + 2, (start + end) / 2 + 1, end)
    ensures 2 * node + 2 < |t|
    ensures var u := t[node := t[2 * node + 1] + t[2 * node + 2]];
            Holds(u, nums, node, start, end) && AgreeElse(t, u, node)
  {
    var m := (start + end) / 2;
    var u := t[node := t[2 * node + 1] + t[2 * node + 2]];
    SumSplit(nums, start, m, end);
    NodeChanged(t, u, node, 2 * node + 1, 2 * node + 2, u[node]);
    NodeChanged(t, u, node, 2 * node + 2, 2 * node + 1, u[node]);
    HoldsSame(t, u, nums, 2 * node + 1, start, m);
    HoldsSame(t, u, nums, 2 * node + 2, m + 1, end);
  }

  /** After one number changed, the nodes above it are out of date and the others not. */
  lemma {:induction false} HoldsElsewhere(t: seq<int>, nums: seq<int>, node: nat, start: nat, end: nat, i: nat, x: int)
    requires Holds(t, nums, node, start, end) && i < |nums| && !(start <= i <= end)
    ensures Holds(t, nums[i := x], node, start, end)
    decreases end - start
  {
    SumChange(nums, i, x, start, end);
    if start < end {
      HoldsElsewhere(t, nums, 2 * node + 1, start, (start + end) / 2, i, x);
      HoldsElsewhere(t, nums, 2 * node + 2, (start + end) / 2 + 1, end, i, x);
    }
  }

  function Query(tree: seq<int>, node: nat, start: nat, end: nat, l: int, r: int, ghost e: nat): int
    requires Fits(|tree|, node, start, end, e)
    decreases end - start
  {
    FitsNode(|tree|, node, start, end, e);
    if r < start || end < l then 0
    else if l <= start && end <= r then tree[node]
    else
      var mid := (start + end) / 2;
      FitsChildren(|tree|, node, start, end, e);
      Query(tree, 2 * node + 1, start, mid, l, r, e - 1) + Query(tree, 2 * node + 2, mid + 1, end, l, r, e - 1)
  }

  /** A query gives the sum of the numbers that are both in the range asked for and below the node. */
  lemma {:induction false} QuerySum(tree: seq<int>, nums: seq<int>, node: nat, start: nat, end: nat, l: int, r: int,
                                    e: nat)
    requires Fits(|tree|, node, start, end, e) && Holds(tree, nums, node, start, end)
    ensures Query(tree, node, start, end, l, r, e) ==
            RangeSum(nums, if l < start then start else l, if r > end then end else r)
    decreases end - start
  {
    hide RangeSum, Fits;
    FitsOrder(|tree|, node, start, end, e);
    var a, b := if l < start then start else l, if r > end then end else r;
    if r < start || end < l {
      SumNone(nums, a, b);
    } else if !(l <= start && end <= r) {
      var mid := (start + end) / 2;
      FitsChildren(|tree|, node, start, end, e);
      QuerySum(tree, nums, 2 * node + 1, start, mid, l, r, e - 1);
      QuerySum(tree, nums, 2 * node + 2, mid + 1, end, l, r, e - 1);
      ClippedSplit(nums, start, mid, end, l, r);
    }
  }

  /** The part of a range below a node is made up of the parts below its children. */
  lemma ClippedSplit(nums: seq<int>, start: int, mid: int, end: int, l: int, r: int)
    requires start <= mid < end
    ensures var a, b := if l < start then start else l, if r > end then end else r;
            RangeSum(nums, a, b) ==
              RangeSum(nums, a, if r > mid then mid else r) + RangeSum(nums, if l < mid + 1 then mid + 1 else l, b)
  {
    hide RangeSum;
    var a, b := if l < start then start else l, if r > end then end else r;
    if a > b {
      SumNone(nums, a, b);
      SumNone(nums, a, if r > mid then mid else r);
      SumNone(nums, if l < mid + 1 then mid + 1 else l, b);
    } else if b <= mid {
      SumNone(nums, mid + 1, b);
    } else if a > mid {
      SumNone(nums, a, mid);
    } else {
      SumSplit(nums, a, mid, b);
    }
  }

  class SegmentTree {
    var tree: array<int>
    var n: nat

    /** The tree holds the sums of these numbers. */
    ghost predicate Represents(nums: seq<int>)
      reads this, tree
    {
      |nums| == n && (n > 0 ==> tree.Length == 4 * n && Holds(tree[..], nums, 0, 0, n - 1))
    }

    constructor (nums: seq<int>)
      ensures Represents(nums) && fresh(tree)
    {
      n := |nums|;
      tree := new int[4 * |nums|];
      new;
      if n > 0 {
        ghost var e := Room(n);
        Build(nums, 0, 0, n - 1, e);
      }
    }

    method Build(nums: seq<int>, node: nat, start: nat, end: nat, ghost e: nat)
      requires end < |nums| && Fits(tree.Length, node, start, end, e)
      modifies tree
      ensures Holds(tree[..], nums, node, start, end) && AgreeElse(old(tree[..]), tree[..], node)
      decreases end - start
    {
      hide Under, Fits, Holds;
      FitsNode(tree.Length, node, start, end, e);
      FitsOrder(tree.Length, node, start, end, e);
      ghost var t := tree[..];
      if start == end {
        tree[node] := nums[start];
        LeafHolds(t, tree[..], nums, node, start);
      } else {
        var mid := (start + end) / 2;
        FitsChildren(tree.Length, node, start, end, e);
        Build(nums, 2 * node + 1, start, mid, e - 1);
        ghost var u := tree[..];
        Build(nums, 2 * node + 2, mid + 1, end, e - 1);
        ghost var v := tree[..];
        ElseChild(t, u, node, 2 * node + 1, 2 * node + 2);
        ElseChild(u, v, node, 2 * node + 2, 2 * node + 1);
        HoldsSame(u, v, nums, 2 * node + 1, start, mid);
        Combine(v, nums, node, start, end);
        tree[node] := tree[2 * node + 1] + tree[2 * node + 2];
        assert tree[..] == v[node := v[2 * node + 1] + v[2 * node + 2]];
        ElseNext(t, u, v, node);
        ElseNext(t, v, tree[..], node);
      }
    }

    method Update(index: nat, val: int, ghost nums: seq<int>)
      requires Represents(nums) && index < n
      modifies tree
      ensures Represents(nums[index := val])
    {
      ghost var e := Room(n);
      UpdateNode(0, 0, n - 1, index, val, nums, e);
    }

    method UpdateNode(node: nat, start: nat, end: nat, idx: nat, val: int, ghost nums: seq<int>, ghost e: nat)
      requires Fits(tree.Length, node, start, end, e) && Holds(tree[..], nums, node, start, end) && start <= idx <= end
      modifies tree
      ensures Holds(tree[..], nums[idx := val], node, start, end) && AgreeElse(old(tree[..]), tree[..], node)
      decreases end - start
    {
      hide Under, Fits;
      FitsNode(tree.Length, node, start, end, e);
      ghost var t := tree[..];
      ghost var nums' := nums[idx := val];
      if start == end {
        tree[node] := val;
        LeafHolds(t, tree[..], nums', node, start);
      } else {
        var mid := (start + end) / 2;
        FitsChildren(tree.Length, node, start, end, e);
        if idx <= mid {
          UpdateNode(2 * node + 1, start, mid, idx, val, nums, e - 1);
          ElseChild(t, tree[..], node, 2 * node + 1, 2 * node + 2);
          HoldsSame(t, tree[..], nums, 2 * node + 2, mid + 1, end);
          HoldsElsewhere(tree[..], nums, 2 * node + 2, mid + 1, end, idx, val);
        } else {
          UpdateNode(2 * node + 2, mid + 1, end, idx, val, nums, e - 1);
          ElseChild(t, tree[..], node, 2 * node + 2, 2 * node + 1);
          HoldsSame(t, tree[..], nums, 2 * node + 1, start, mid);
          HoldsElsewhere(tree[..], nums, 2 * node + 1, start, mid, idx, val);
        }
        ghost var v := tree[..];
        Combine(v, nums', node, start, end);
        tree[node] := tree[2 * node + 1] + tree[2 * node + 2];
        assert tree[..] == v[node := v[2 * node + 1] + v[2 * node + 2]];
        ElseNext(t, v, tree[..], node);
      }
    }

    /** Places outside the numbers count as 0. In an empty tree a range from below 0 up to 0 or more would be looked
        up. */
    method Sum(l: int, r: int, ghost nums: seq<int>) returns (sum: int)
      requires Represents(nums) && (n > 0 || r < 0 || 0 <= l)
      ensures sum == RangeSum(nums, l, r)
    {
      if n == 0 {
        SumNone(nums, l, r);
        return 0;
      }
      ghost var e := Room(n);
      sum := Query(tree[..], 0, 0, n - 1, l, r, e);
      QuerySum(tree[..], nums, 0, 0, n - 1, l, r, e);
      SumClip(nums, l, r);
    }
  }

  /** An array of `4 n` places has room for the tree. */
  lemma Room(n: nat) returns (e: nat)
    requires n > 0
    ensures Fits(4 * n, 0, 0, n - 1, e)
  {
    e := Levels(n);
  }

  lemma FitsOrder(size: nat, node: nat, start: nat, end: nat, e: nat)
    requires Fits(size, node, start, end, e)
    ensures start <= end
  {
  }

  lemma LeafHolds(t: seq<int>, u: seq<int>, nums: seq<int>, node: nat, i: nat)
    requires i < |nums| && node < |t| && u == t[node := nums[i]]
    ensures Holds(u, nums, node, i, i) && AgreeElse(t, u, node)
  {
    SumOne(nums, i);
  }
}
