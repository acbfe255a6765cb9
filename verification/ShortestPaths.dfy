/** Weighted graphs as matrices, their walks, and what one round of Floyd's algorithm does to the distances. */
module ShortestPaths {
  import opened Sets

  /** The greatest value of an `int` stands for no edge, or no path. */
  const INF: int := 0x7FFF_FFFF

  type Matrix = seq<seq<int>>

  ghost predicate Square(m: Matrix) {
    forall i :: 0 <= i < |m| ==> |m[i]| == |m|
  }

  /** The entry, and no edge outside the matrix. */
  ghost function At(m: Matrix, i: int, j: int): int {
    if 0 <= i < |m| && 0 <= j < |m[i]| then m[i][j] else INF
  }

  // ----- walks -----

  ghost predicate IsWalk(w: Matrix, p: seq<nat>) {
    && p != []
    && (forall i :: 0 <= i < |p| ==> p[i] < |w|)
    && (forall i, j :: 0 <= i && j == i + 1 && j < |p| ==> At(w, p[i], p[j]) != INF)
  }

  ghost function Length(w: Matrix, p: seq<nat>): int {
    if |p| <= 1 then 0
    else
      var n := |p| - 1;
      Length(w, p[..n]) + At(w, p[n - 1], p[n])
  }

  /** A walk from `i` to `j` that passes only vertices below `k` on its way. */
  ghost predicate Via(w: Matrix, p: seq<nat>, i: nat, j: nat, k: nat) {
    IsWalk(w, p) && p[0] == i && p[|p| - 1] == j && forall t :: 0 < t < |p| - 1 ==> p[t] < k
  }

  ghost predicate NoNegativeCycle(w: Matrix) {
    forall p :: IsWalk(w, p) && p[0] == p[|p| - 1] ==> Length(w, p) >= 0
  }

  /** No sum along a walk of at most `2 n` steps reaches the value that stands for infinity, or overflows below. */
  ghost predicate SumsFit(w: Matrix) {
    forall p :: IsWalk(w, p) && |p| <= 2 * |w| ==> -0x8000_0000 <= Length(w, p) < INF
  }

  lemma WalkPush(w: Matrix, p: seq<nat>, v: nat)
    requires IsWalk(w, p) && v < |w| && At(w, p[|p| - 1], v) != INF
    ensures IsWalk(w, p + [v]) && Length(w, p + [v]) == Length(w, p) + At(w, p[|p| - 1], v)
  {
    hide At;
    assert (p + [v])[..|p|] == p;
  }

  lemma WalkPart(w: Matrix, p: seq<nat>, a: nat, b: nat)
    requires IsWalk(w, p) && a < b <= |p|
    ensures IsWalk(w, p[a..b])
  {
    hide At;
  }

  /** The second walk is joined to the first at its start. */
  lemma {:induction false} WalkJoin(w: Matrix, p: seq<nat>, q: seq<nat>)
    requires IsWalk(w, p) && IsWalk(w, q) && p[|p| - 1] == q[0]
    ensures IsWalk(w, p + q[1..]) && Length(w, p + q[1..]) == Length(w, p) + Length(w, q)
    decreases |q|
  {
    hide At;
    var n := |q| - 1;
    if n == 0 {
      assert p + q[1..] == p;
    } else {
      var r := q[..n];
      assert IsWalk(w, r) && Length(w, q) == Length(w, r) + At(w, q[n - 1], q[n]);
      WalkJoin(w, p, r);
      var pr := p + r[1..];
      assert p + q[1..] == pr + [q[n]];
      assert pr[|pr| - 1] == q[n - 1];
      WalkPush(w, pr, q[n]);
    }
  }

  // ----- the distances after some rounds -----

  /** The distances are no greater than the weights. */
  ghost predicate Within(w: Matrix, d: Matrix) {
    forall i, j :: 0 <= i < |w| && 0 <= j < |w| ==> At(d, i, j) <= At(w, i, j)
  }

  ghost predicate Triangle(d: Matrix, i: int, j: int, m: int) {
    At(d, i, m) != INF && At(d, m, j) != INF ==> At(d, i, j) != INF && At(d, i, j) <= At(d, i, m) + At(d, m, j)
  }

  /** They satisfy the triangle inequality at the vertices below `k`. */
  ghost predicate Triangles(w: Matrix, d: Matrix, k: nat) {
    forall i, j, m :: 0 <= i < |w| && 0 <= j < |w| && 0 <= m < k && m < |w| ==> Triangle(d, i, j, m)
  }

  ghost predicate Walked(w: Matrix, i: nat, j: nat, k: nat, length: int) {
    exists p :: Via(w, p, i, j, k) && Length(w, p) == length
  }

  /** Every distance that is not infinite is the length of a walk through vertices below `k`. */
  ghost predicate Real(w: Matrix, d: Matrix, k: nat) {
    forall i: nat, j: nat :: i < |w| && j < |w| && At(d, i, j) != INF ==> Walked(w, i, j, k, At(d, i, j))
  }

  ghost predicate Capped(w: Matrix, d: Matrix) {
    forall i, j :: 0 <= i < |w| && 0 <= j < |w| ==> At(d, i, j) <= INF
  }

  ghost predicate ZeroDiagonal(w: Matrix, d: Matrix) {
    forall i :: 0 <= i < |w| ==> At(d, i, i) == 0
  }

  /** What the rounds for the vertices below `k` have done. */
  ghost predicate Rounds(w: Matrix, d: Matrix, k: nat) {
    Within(w, d) && Triangles(w, d, k) && Real(w, d, k) && ZeroDiagonal(w, d) && Capped(w, w)
  }

  /** No walk through vertices below `k` is shorter than the distance. */
  lemma {:induction false} Lower(w: Matrix, d: Matrix, k: nat, p: seq<nat>, i: nat, j: nat)
    requires Within(w, d) && Triangles(w, d, k) && ZeroDiagonal(w, d) && Capped(w, w)
    requires Via(w, p, i, j, k)
    ensures At(d, i, j) != INF && At(d, i, j) <= Length(w, p)
    decreases |p|
  {
    hide At;
    var n := |p| - 1;
    if n > 0 {
      var q := p[..n];
      var m := p[n - 1];
      assert At(w, m, j) != INF && At(d, m, j) <= At(w, m, j) <= INF;
      assert Length(w, p) == Length(w, q) + At(w, m, j);
      if n == 1 {
        assert Length(w, q) == 0;
      } else {
        assert m < k;
        WalkPart(w, p, 0, n);
        assert p[0..n] == q;
        Lower(w, d, k, q, i, m);
        assert Triangle(d, i, j, m);
      }
    }
  }

  lemma TooLong(p: seq<nat>, n: nat) returns (a: nat, b: nat)
    requires |p| > n && forall i :: 0 <= i < |p| ==> p[i] < n
    ensures a < b < |p| && p[a] == p[b]
  {
    if Distinct(p) {
      DistinctSize(p);
      SubsetSize(Elements(p), Below(n));
      assert false;
    }
    a, b :| 0 <= a < b < |p| && p[a] == p[b];
  }

  ghost function Cut(p: seq<nat>, a: nat, b: nat): seq<nat>
    requires a < b < |p|
  {
    p[..a + 1] + p[b + 1..]
  }

  lemma CutParts(p: seq<nat>, a: nat, b: nat)
    requires a < b < |p| && p[a] == p[b]
    ensures var x, c, y := p[0..a + 1], p[a..b + 1], p[b..|p|];
            && p == (x + c[1..]) + y[1..] && Cut(p, a, b) == x + y[1..]
            && x[|x| - 1] == c[0] == y[0] == c[|c| - 1] == (x + c[1..])[|x + c[1..]| - 1]
  {
  }

  lemma CutShape(p: seq<nat>, a: nat, b: nat)
    requires a < b < |p| && p[a] == p[b]
    ensures var q := Cut(p, a, b);
            && 0 < |q| < |p| && q[0] == p[0] && q[|q| - 1] == p[|p| - 1]
            && forall t :: 0 < t < |q| - 1 ==> exists u :: 0 < u < |p| - 1 && q[t] == p[u]
  {
    var q := Cut(p, a, b);
    forall t | 0 < t < |q| - 1
      ensures exists u :: 0 < u < |p| - 1 && q[t] == p[u]
    {
      var u := if t <= a then t else t - a + b;
      assert q[t] == p[u];
    }
  }

  /** Leaving out a cycle makes a walk no longer. */
  lemma CutLength(w: Matrix, p: seq<nat>, a: nat, b: nat)
    requires NoNegativeCycle(w) && IsWalk(w, p) && a < b < |p| && p[a] == p[b]
    ensures IsWalk(w, Cut(p, a, b)) && Length(w, Cut(p, a, b)) <= Length(w, p)
  {
    hide Length, At, Cut, IsWalk;
    var x, c, y := p[0..a + 1], p[a..b + 1], p[b..|p|];
    WalkPart(w, p, 0, a + 1);
    WalkPart(w, p, a, b + 1);
    WalkPart(w, p, b, |p|);
    CutParts(p, a, b);
    WalkJoin(w, x, c);
    WalkJoin(w, x + c[1..], y);
    WalkJoin(w, x, y);
  }

  lemma CutCycle(w: Matrix, p: seq<nat>, i: nat, j: nat, k: nat, a: nat, b: nat) returns (q: seq<nat>)
    requires NoNegativeCycle(w) && Via(w, p, i, j, k) && a < b < |p| && p[a] == p[b]
    ensures Via(w, q, i, j, k) && |q| < |p| && Length(w, q) <= Length(w, p)
  {
    hide Length, At, Cut, IsWalk, NoNegativeCycle;
    CutLength(w, p, a, b);
    CutShape(p, a, b);
    q := Cut(p, a, b);
  }

  lemma {:induction false} Shorten(w: Matrix, p: seq<nat>, i: nat, j: nat, k: nat) returns (r: seq<nat>)
    requires NoNegativeCycle(w) && Via(w, p, i, j, k)
    ensures Via(w, r, i, j, k) && |r| <= |w| && Length(w, r) <= Length(w, p)
    decreases |p|
  {
    hide Length, At, NoNegativeCycle;
    if |p| <= |w| {
      r := p;
    } else {
      var a, b := TooLong(p, |w|);
      var q := CutCycle(w, p, i, j, k, a, b);
      r := Shorten(w, q, i, j, k);
    }
  }

  /** So every distance is the length of a walk that passes no more than `n` vertices. */
  lemma Tight(w: Matrix, d: Matrix, k: nat, i: nat, j: nat) returns (r: seq<nat>)
    requires NoNegativeCycle(w) && Rounds(w, d, k)
    requires i < |w| && j < |w| && At(d, i, j) != INF
    ensures Via(w, r, i, j, k) && |r| <= |w| && Length(w, r) == At(d, i, j)
  {
    hide Length, At, NoNegativeCycle, Via, Within, Triangles, ZeroDiagonal;
    assert Walked(w, i, j, k, At(d, i, j));
    var p :| Via(w, p, i, j, k) && Length(w, p) == At(d, i, j);
    r := Shorten(w, p, i, j, k);
    Lower(w, d, k, r, i, j);
  }

  // ----- one round -----

  /** Going through `k` when that is possible and shorter. */
  function Through(d: int, x: int, y: int): int {
    if x != INF && y != INF && x + y < d then x + y else d
  }

  ghost predicate IsRound(w: Matrix, d: Matrix, e: Matrix, k: nat) {
    forall i, j :: 0 <= i < |w| && 0 <= j < |w| ==> At(e, i, j) == Through(At(d, i, j), At(d, i, k), At(d, k, j))
  }

  lemma WalkSum(w: Matrix, d: Matrix, k: nat, i: nat, j: nat) returns (p: seq<nat>)
    requires NoNegativeCycle(w) && Rounds(w, d, k) && k < |w|
    requires i < |w| && j < |w| && At(d, i, k) != INF && At(d, k, j) != INF
    ensures Via(w, p, i, j, k + 1) && |p| <= 2 * |w| && Length(w, p) == At(d, i, k) + At(d, k, j)
  {
    hide Length, At, NoNegativeCycle, Rounds;
    var x := Tight(w, d, k, i, k);
    var y := Tight(w, d, k, k, j);
    WalkJoin(w, x, y);
    p := x + y[1..];
    hide IsWalk;
    assert p[|p| - 1] == j;
    forall t | 0 < t < |p| - 1
      ensures p[t] < k + 1
    {
      if t >= |x| {
        assert p[t] == y[t - |x| + 1];
      } else {
        assert p[t] == x[t];
      }
    }
  }

  /** The sums of the round are in range. */
  lemma RoundFits(w: Matrix, d: Matrix, k: nat, i: nat, j: nat)
    requires NoNegativeCycle(w) && SumsFit(w) && Rounds(w, d, k) && k < |w|
    requires i < |w| && j < |w| && At(d, i, k) != INF && At(d, k, j) != INF
    ensures -0x8000_0000 <= At(d, i, k) + At(d, k, j) < INF
  {
    hide Length, At, NoNegativeCycle, Rounds;
    var p := WalkSum(w, d, k, i, j);
  }

  lemma CycleSum(w: Matrix, d: Matrix, k: nat, m: nat)
    requires NoNegativeCycle(w) && Rounds(w, d, k) && k < |w|
    requires m < |w| && At(d, m, k) != INF && At(d, k, m) != INF
    ensures At(d, m, k) + At(d, k, m) >= 0
  {
    hide Length, At, Rounds;
    var p := WalkSum(w, d, k, m, m);
  }

  /** The distances from and to `k` itself do not change in its round, so the order of the updates does not matter. */
  lemma RoundFixed(w: Matrix, d: Matrix, e: Matrix, k: nat)
    requires k < |w| && ZeroDiagonal(w, d) && IsRound(w, d, e, k)
    ensures forall i :: 0 <= i < |w| ==> At(e, i, k) == At(d, i, k) && At(e, k, i) == At(d, k, i)
  {
    hide At;
    assert At(d, k, k) == 0;
  }

  lemma RoundReal(w: Matrix, d: Matrix, e: Matrix, k: nat)
    requires NoNegativeCycle(w) && Rounds(w, d, k) && k < |w| && IsRound(w, d, e, k)
    ensures Real(w, e, k + 1)
  {
    hide Length, At, NoNegativeCycle, Within, Triangles, ZeroDiagonal;
    forall i: nat, j: nat | i < |w| && j < |w| && At(e, i, j) != INF
      ensures Walked(w, i, j, k + 1, At(e, i, j))
    {
      if At(e, i, j) == At(d, i, j) {
        assert Walked(w, i, j, k, At(d, i, j));
        var p :| Via(w, p, i, j, k) && Length(w, p) == At(d, i, j);
        assert Via(w, p, i, j, k + 1);
      } else {
        var p := WalkSum(w, d, k, i, j);
      }
    }
  }

  lemma RoundZero(w: Matrix, d: Matrix, e: Matrix, k: nat)
    requires NoNegativeCycle(w) && Rounds(w, d, k) && k < |w| && IsRound(w, d, e, k)
    ensures ZeroDiagonal(w, e)
  {
    hide At, NoNegativeCycle, Within, Triangles, Real;
    forall i | 0 <= i < |w|
      ensures At(e, i, i) == 0
    {
      if At(d, i, k) != INF && At(d, k, i) != INF {
        CycleSum(w, d, k, i);
      }
    }
  }

  /** The triangle inequality at one more vertex. */
  lemma TriangleStep(w: Matrix, d: Matrix, e: Matrix, k: nat, i: nat, j: nat, m: nat)
    requires NoNegativeCycle(w) && SumsFit(w) && Rounds(w, d, k) && k < |w| && IsRound(w, d, e, k)
    requires i < |w| && j < |w| && m <= k
    ensures Triangle(e, i, j, m)
  {
    hide At, NoNegativeCycle, SumsFit, Real, Within, Capped;
    RoundFixed(w, d, e, k);
    if At(d, i, k) != INF && At(d, k, j) != INF {
      RoundFits(w, d, k, i, j);
    }
    if m < k {
      assert Triangle(d, i, j, m) && Triangle(d, k, j, m) && Triangle(d, i, k, m);
      if At(d, m, k) != INF && At(d, k, m) != INF {
        CycleSum(w, d, k, m);
      }
    }
  }

  lemma RoundNext(w: Matrix, d: Matrix, e: Matrix, k: nat)
    requires NoNegativeCycle(w) && SumsFit(w) && Rounds(w, d, k) && k < |w| && IsRound(w, d, e, k)
    ensures Rounds(w, e, k + 1)
  {
    hide At, NoNegativeCycle, SumsFit, Real, Triangle, ZeroDiagonal;
    RoundReal(w, d, e, k);
    RoundZero(w, d, e, k);
    forall i, j, m | 0 <= i < |w| && 0 <= j < |w| && 0 <= m < k + 1 && m < |w|
      ensures Triangle(e, i, j, m)
    {
      TriangleStep(w, d, e, k, i, j, m);
    }
  }

  lemma RoundsStart(w: Matrix)
    requires ZeroDiagonal(w, w) && Capped(w, w)
    ensures Rounds(w, w, 0)
  {
    hide At;
    forall i: nat, j: nat | i < |w| && j < |w| && At(w, i, j) != INF
      ensures Walked(w, i, j, 0, At(w, i, j))
    {
      assert Via(w, [i, j], i, j, 0);
      assert [i, j][..1] == [i];
      assert Length(w, [i, j]) == At(w, i, j);
    }
  }

  /** The least length of all walks from `i` to `j`, or infinity when there is none. */
  ghost predicate Least(w: Matrix, i: nat, j: nat, length: int) {
    if length == INF then forall p :: IsWalk(w, p) ==> !(p[0] == i && p[|p| - 1] == j)
    else
      && (exists p :: IsWalk(w, p) && p[0] == i && p[|p| - 1] == j && Length(w, p) == length)
      && (forall p :: IsWalk(w, p) && p[0] == i && p[|p| - 1] == j ==> length <= Length(w, p))
  }

  /** After all rounds the distances are the lengths of the shortest walks. */
  lemma RoundsEnd(w: Matrix, d: Matrix, i: nat, j: nat)
    requires Rounds(w, d, |w|) && i < |w| && j < |w|
    ensures Least(w, i, j, At(d, i, j))
  {
    hide At, Length, Within, Triangles, ZeroDiagonal;
    forall p | IsWalk(w, p) && p[0] == i && p[|p| - 1] == j
      ensures At(d, i, j) != INF && At(d, i, j) <= Length(w, p)
    {
      assert Via(w, p, i, j, |w|);
      Lower(w, d, |w|, p, i, j);
    }
    if At(d, i, j) != INF {
      assert Walked(w, i, j, |w|, At(d, i, j));
      var p :| Via(w, p, i, j, |w|) && Length(w, p) == At(d, i, j);
    }
  }
}
