/** Backtracking with boolean arrays for the lines and diagonals already taken. */
module QueensSearch {
  import opened Queens

  /** Queen `q` takes the diagonal of square (`row`, `i`). */
  ghost predicate TakesColumn(b: seq<nat>, i: nat) {
    exists q :: 0 <= q < |b| && b[q] == i
  }

  ghost predicate TakesAnti(b: seq<nat>, d: nat) {
    exists q :: 0 <= q < |b| && q + b[q] == d
  }

  ghost predicate TakesDiagonal(n: nat, b: seq<nat>, d: nat) {
    exists q :: 0 <= q < |b| && n + q - b[q] == d
  }

  /** A peaceful start goes on with `i` exactly when its column and diagonals are free. */
  lemma NextPeaceful(n: nat, b: seq<nat>, i: nat)
    requires Peaceful(b) && Inside(n, b) && |b| < n && i < n
    ensures Peaceful(b + [i]) <==>
              !TakesColumn(b, i) && !TakesAnti(b, |b| + i) && !TakesDiagonal(n, b, n + |b| - i)
  {
    var c := b + [i];
    if TakesColumn(b, i) {
      var q :| 0 <= q < |b| && b[q] == i;
      assert Attack(c, q, |b|);
    } else if TakesAnti(b, |b| + i) {
      var q :| 0 <= q < |b| && q + b[q] == |b| + i;
      assert Attack(c, q, |b|);
    } else if TakesDiagonal(n, b, n + |b| - i) {
      var q :| 0 <= q < |b| && n + q - b[q] == n + |b| - i;
      assert Attack(c, q, |b|);
    } else {
      forall q, t | 0 <= q < t < |c|
        ensures !Attack(c, q, t)
      {
        if t < |b| {
          assert !Attack(b, q, t);
        }
      }
    }
  }

  /** The placements that start with `prefix` and go on with a value below `k`. */
  ghost function ExtendingBelow(n: nat, prefix: seq<nat>, k: nat): set<seq<nat>> {
    set b | b in Extending(n, prefix) && |prefix| < |b| && b[|prefix|] < k
  }

  lemma BranchNone(n: nat, prefix: seq<nat>)
    ensures ExtendingBelow(n, prefix, 0) == {}
  {
  }

  /** Trying `k` next adds the placements that start with `prefix` and `k`. */
  lemma BranchOne(n: nat, prefix: seq<nat>, k: nat)
    requires |prefix| < n
    ensures |ExtendingBelow(n, prefix, k + 1)| == |ExtendingBelow(n, prefix, k)| + |Extending(n, prefix + [k])|
  {
    var a, b, w := ExtendingBelow(n, prefix, k), Extending(n, prefix + [k]), ExtendingBelow(n, prefix, k + 1);
    forall x
      ensures x in w <==> x in a || x in b
      ensures !(x in a && x in b)
    {
      PlacementsAre(n, x);
      assert prefix + [k] <= x <==> prefix <= x && |prefix| < |x| && x[|prefix|] == k;
    }
    assert w == a + b && a !! b;
  }

  lemma BranchAll(n: nat, prefix: seq<nat>)
    requires |prefix| < n
    ensures ExtendingBelow(n, prefix, n) == Extending(n, prefix)
  {
    forall b | b in Extending(n, prefix)
      ensures b in ExtendingBelow(n, prefix, n)
    {
      PlacementsAre(n, b);
    }
  }

  /** A start with an attack leads to no placement. */
  lemma DeadEnd(n: nat, prefix: seq<nat>)
    requires !Peaceful(prefix)
    ensures Extending(n, prefix) == {}
  {
    forall b | b in Extending(n, prefix)
      ensures false
    {
      PlacementsAre(n, b);
      var i, j :| 0 <= i < j < |prefix| && Attack(prefix, i, j);
      assert Attack(b, i, j);
    }
  }

  /** A full peaceful board is the one placement that extends it. */
  lemma FullBoard(n: nat, b: seq<nat>)
    requires |b| == n && Inside(n, b) && Peaceful(b)
    ensures Extending(n, b) == {b}
  {
    PlacementsAre(n, b);
    forall c | c in Extending(n, b)
      ensures c == b
    {
      PlacementsAre(n, c);
    }
  }

  const MAX_QUEENS := 16

  class BackTracking {
    const n: nat
    var count: int
    const columns: array<bool>
    const diagonal: array<bool>
    const antidiagonal: array<bool>

    ghost predicate Shape() {
      && 0 < n <= MAX_QUEENS && columns.Length == MAX_QUEENS
      && diagonal.Length == antidiagonal.Length == 2 * MAX_QUEENS
      && columns != diagonal && columns != antidiagonal && diagonal != antidiagonal
    }

    /** The marks are those of the queens placed so far. */
    ghost predicate Marks(b: seq<nat>)
      requires Shape()
      reads columns, diagonal, antidiagonal
    {
      && (forall i :: 0 <= i < n ==> (columns[i] <==> TakesColumn(b, i)))
      && (forall d :: 0 <= d < 2 * n ==> (antidiagonal[d] <==> TakesAnti(b, d)))
      && (forall d :: 0 <= d < 2 * n ==> (diagonal[d] <==> TakesDiagonal(n, b, d)))
    }

    constructor (nqueens: nat)
      requires 0 < nqueens <= MAX_QUEENS
      ensures n == nqueens && Shape() && Marks([]) && count == 0
      ensures fresh(columns) && fresh(diagonal) && fresh(antidiagonal)
    {
      n, count := nqueens, 0;
      columns := new bool[MAX_QUEENS](_ => false);
      diagonal := new bool[2 * MAX_QUEENS](_ => false);
      antidiagonal := new bool[2 * MAX_QUEENS](_ => false);
    }

    lemma MarkNext(b: seq<nat>, i: nat)
      requires Shape() && Inside(n, b) && |b| < n && i < n
      ensures forall k :: TakesColumn(b + [i], k) <==> TakesColumn(b, k) || k == i
      ensures forall k :: TakesAnti(b + [i], k) <==> TakesAnti(b, k) || k == |b| + i
      ensures forall k :: TakesDiagonal(n, b + [i], k) <==> TakesDiagonal(n, b, k) || k == n + |b| - i
    {
      var c := b + [i];
      assert c[|b|] == i;
      assert forall q :: 0 <= q < |b| ==> c[q] == b[q];
    }

    /** Adds to `count` the placements that go on from the queens of `b`, and leaves every
        mark as it was. */
    method Search(row: nat, ghost b: seq<nat>)
      requires Shape() && row == |b| < n && Inside(n, b) && Peaceful(b) && Marks(b)
      modifies `count, columns, diagonal, antidiagonal
      ensures count == old(count) + |Extending(n, b)|
      ensures columns[..] == old(columns[..])
      ensures diagonal[..] == old(diagonal[..]) && antidiagonal[..] == old(antidiagonal[..])
      decreases n - row
    {
      hide Extending, ExtendingBelow, TakesColumn, TakesAnti, TakesDiagonal, Peaceful;
      BranchNone(n, b);
      for i := 0 to n
        invariant count == old(count) + |ExtendingBelow(n, b, i)|
        invariant columns[..] == old(columns[..])
        invariant diagonal[..] == old(diagonal[..]) && antidiagonal[..] == old(antidiagonal[..])
        invariant Marks(b)
      {
        var d := n + row - i;
        NextPeaceful(n, b, i);
        BranchOne(n, b, i);
        if !(columns[i] || antidiagonal[row + i] || diagonal[d]) {
          if row == n - 1 {
            FullBoard(n, b + [i]);
            count := count + 1;
          } else {
            MarkNext(b, i);
            columns[i] := true;
            antidiagonal[row + i] := true;
            diagonal[d] := true;
            Search(row + 1, b + [i]);
            columns[i] := false;
            antidiagonal[row + i] := false;
            diagonal[d] := false;
          }
        } else {
          DeadEnd(n, b + [i]);
        }
      }
      BranchAll(n, b);
    }
  }

  /** The boolean-array search counts exactly the ways to place `n` peaceful queens. */
  method Backtracking(n: nat) returns (count: int)
    requires 0 < n <= MAX_QUEENS
    ensures count == |Placements(n)|
  {
    var bt := new BackTracking(n);
    bt.Search(0, []);
    assert Extending(n, []) == Placements(n);
    count := bt.count;
  }
}
