/** N-queens with bit masks for the attacked columns of the next row, and the first row
    halved by symmetry. */
module QueensMask {
  import opened Queens
  import opened QueensSearch
  import opened WordBits
  import Sets

  const MAX_MASK_QUEENS := 20

  /** The masks show which columns the queens of `b` attack in the next row. */
  ghost predicate Attacked(n: nat, b: seq<nat>, columns: bv32, diagonal: bv32, antidiagonal: bv32) {
    && (forall i :: 0 <= i < n ==> (Bit(columns, i) <==> TakesColumn(b, i)))
    && (forall i :: 0 <= i < 32 ==> (Bit(diagonal, i) <==> TakesAnti(b, |b| + i)))
    && (forall i :: 0 <= i < n ==> (Bit(antidiagonal, i) <==> TakesDiagonal(n, b, n + |b| - i)))
  }

  lemma AttackedNone(n: nat)
    ensures Attacked(n, [], 0, 0, 0)
  {
    hide Bit;
    forall i: nat
      ensures !Bit(0, i)
    {
      BitZero(i);
    }
  }

  /** Shifting the masks carries the attacks on to the next row. */
  lemma AttackedNext(n: nat, b: seq<nat>, columns: bv32, diagonal: bv32, antidiagonal: bv32, k: nat)
    requires n <= MAX_MASK_QUEENS && Inside(n, b) && |b| < n && k < n
    requires Attacked(n, b, columns, diagonal, antidiagonal)
    ensures var m := OneBit(k);
            Attacked(n, b + [k], Or(columns, m), Right(Or(diagonal, m)), Left(Or(antidiagonal, m)))
  {
    hide Bit, Or, Left, Right, OneBit, TakesColumn, TakesAnti, TakesDiagonal;
    var m, c := OneBit(k), b + [k];
    forall i | 0 <= i < n
      ensures Bit(Or(columns, m), i) <==> TakesColumn(c, i)
    {
      BitOr(columns, m, i);
      BitOfOneBit(k, i);
      TakesNext(n, b, k, i, 0);
    }
    forall i | 0 <= i < 32
      ensures Bit(Right(Or(diagonal, m)), i) <==> TakesAnti(c, |c| + i)
    {
      BitRight(Or(diagonal, m), i);
      BitOr(diagonal, m, i + 1);
      BitOfOneBit(k, i + 1);
      TakesNext(n, b, k, 0, |c| + i);
      if i == 31 {
        if Bit(diagonal, 32) {
          BitBounded(diagonal, 32);
        }
      }
    }
    forall i | 0 <= i < n
      ensures Bit(Left(Or(antidiagonal, m)), i) <==> TakesDiagonal(n, c, n + |c| - i)
    {
      BitLeft(Or(antidiagonal, m), i);
      TakesNext(n, b, k, 0, n + |c| - i);
      if i > 0 {
        BitOr(antidiagonal, m, i - 1);
        BitOfOneBit(k, i - 1);
      }
    }
  }

  lemma TakesNext(n: nat, b: seq<nat>, k: nat, i: nat, d: nat)
    requires Inside(n, b) && |b| < n && k < n
    ensures TakesColumn(b + [k], i) <==> TakesColumn(b, i) || i == k
    ensures TakesAnti(b + [k], d) <==> TakesAnti(b, d) || d == |b| + k
    ensures TakesDiagonal(n, b + [k], d) <==> TakesDiagonal(n, b, d) || d == n + |b| - k
    ensures d >= |b| + n ==> !TakesAnti(b, d)
    ensures d >= n + |b| ==> !TakesDiagonal(n, b, d)
  {
    var c := b + [k];
    assert c[|b|] == k;
    assert forall q :: 0 <= q < |b| ==> c[q] == b[q];
  }

  /** A column is free when no queen of `b` attacks it in the next row. */
  ghost predicate Free(n: nat, b: seq<nat>, i: nat) {
    i < n && Peaceful(b + [i])
  }

  lemma AvailableIsFree(n: nat, b: seq<nat>, columns: bv32, diagonal: bv32, antidiagonal: bv32, i: nat)
    requires n <= MAX_MASK_QUEENS && Inside(n, b) && Peaceful(b) && |b| <= n && i < 32
    requires Attacked(n, b, columns, diagonal, antidiagonal)
    ensures var mask := Not(Pred(OneBit(n)));
            Bit(Not(Or(Or(Or(columns, diagonal), antidiagonal), mask)), i) <==> |b| < n && Free(n, b, i)
  {
    hide Bit, Or, Not, Pred, OneBit, Peaceful;
    var mask := Not(Pred(OneBit(n)));
    BitNot(Or(Or(Or(columns, diagonal), antidiagonal), mask), i);
    BitOr(Or(Or(columns, diagonal), antidiagonal), mask, i);
    BitOr(Or(columns, diagonal), antidiagonal, i);
    BitOr(columns, diagonal, i);
    BitNot(Pred(OneBit(n)), i);
    BitLow(n, i);
    if i < n {
      if |b| < n {
        NextPeaceful(n, b, i);
      } else {
        FullTakesColumn(n, b, i);
      }
    }
  }

  lemma FullTakesColumn(n: nat, b: seq<nat>, i: nat)
    requires |b| == n && Inside(n, b) && Peaceful(b) && i < n
    ensures TakesColumn(b, i)
  {
    EveryLineHit(n, b, i);
  }

  /** Columns that are not free add no placement. */
  lemma {:induction false} SkipTaken(n: nat, b: seq<nat>, k: nat, i: nat)
    requires |b| < n && k <= i <= n
    requires forall j :: k <= j < i ==> !Free(n, b, j)
    ensures |ExtendingBelow(n, b, k)| == |ExtendingBelow(n, b, i)|
    decreases i
  {
    hide Extending, ExtendingBelow, Peaceful;
    if k < i {
      SkipTaken(n, b, k, i - 1);
      assert !Free(n, b, i - 1);
      DeadEnd(n, b + [i - 1]);
      BranchOne(n, b, i - 1);
    }
  }

  /** `avail` holds the free columns from `k` on. */
  ghost predicate Remaining(n: nat, b: seq<nat>, k: nat, avail: bv32) {
    forall i :: 0 <= i < 32 ==> (Bit(avail, i) <==> |b| < n && k <= i && Free(n, b, i))
  }

  lemma RemainingStart(n: nat, b: seq<nat>, columns: bv32, diagonal: bv32, antidiagonal: bv32)
    requires n <= MAX_MASK_QUEENS && Inside(n, b) && Peaceful(b) && |b| <= n
    requires Attacked(n, b, columns, diagonal, antidiagonal)
    ensures Remaining(n, b, 0, Not(Or(Or(Or(columns, diagonal), antidiagonal), Not(Pred(OneBit(n))))))
  {
    hide Bit, Or, Not, Pred, OneBit, Peaceful, Attacked;
    forall i | 0 <= i < 32
      ensures Bit(Not(Or(Or(Or(columns, diagonal), antidiagonal), Not(Pred(OneBit(n))))), i) <==>
              |b| < n && Free(n, b, i)
    {
      AvailableIsFree(n, b, columns, diagonal, antidiagonal, i);
    }
  }

  /** The lowest set bit is the next free column; the columns skipped add nothing. */
  lemma RemainingNext(n: nat, b: seq<nat>, k: nat, avail: bv32)
    requires avail != 0 && |b| <= n && Remaining(n, b, k, avail)
    ensures var i := TrailingZeros(avail);
            && |b| < n && k <= i < n && Free(n, b, i)
            && |ExtendingBelow(n, b, k)| == |ExtendingBelow(n, b, i)|
            && Remaining(n, b, i + 1, And(avail, Pred(avail)))
  {
    hide Bit, Pred, And, OneBit, TrailingZeros, Extending, ExtendingBelow, Peaceful;
    TrailingZerosAt(avail);
    var i := TrailingZeros(avail);
    forall j | 0 <= j < i
      ensures !Bit(avail, j)
    {
      TrailingZerosBelow(avail, j);
    }
    SkipTaken(n, b, k, i);
    forall j | 0 <= j < 32
      ensures Bit(And(avail, Pred(avail)), j) <==> Bit(avail, j) && j != i
    {
      BitClearLow(avail, j);
    }
  }

  lemma RemainingNone(n: nat, b: seq<nat>, k: nat)
    requires n <= MAX_MASK_QUEENS && |b| < n && k <= n && Remaining(n, b, k, 0)
    ensures |ExtendingBelow(n, b, k)| == |Extending(n, b)|
  {
    hide Bit, Extending, ExtendingBelow, Free;
    forall j: nat | k <= j < n
      ensures !Free(n, b, j)
    {
      BitZero(j);
    }
    SkipTaken(n, b, k, n);
    BranchAll(n, b);
  }

  class BackTracking {
    const n: nat
    const mask: bv32
    var count: int

    ghost predicate Shape() {
      0 < n <= MAX_MASK_QUEENS && mask == Not(Pred(OneBit(n)))
    }

    constructor (nqueens: nat)
      requires 0 < nqueens <= MAX_MASK_QUEENS
      ensures n == nqueens && Shape() && count == 0
    {
      n, mask, count := nqueens, Not(Pred(OneBit(nqueens))), 0;
    }

    /** Adds to `count` the placements that go on from the queens of `b`; a call past the
        last row adds nothing. */
    method Search(row: nat, columns: bv32, diagonal: bv32, antidiagonal: bv32, ghost b: seq<nat>)
      requires Shape() && row == |b| <= n && Inside(n, b) && Peaceful(b)
      requires Attacked(n, b, columns, diagonal, antidiagonal)
      modifies `count
      ensures count == old(count) + if row < n then |Extending(n, b)| else 0
      decreases n - row
    {
      hide Bit, Or, Not, Pred, And, Left, Right, OneBit, TrailingZeros, Extending, ExtendingBelow, Attacked, Remaining;
      var avail := Not(Or(Or(Or(columns, diagonal), antidiagonal), mask));
      RemainingStart(n, b, columns, diagonal, antidiagonal);
      ghost var k: nat := 0;
      BranchNone(n, b);
      while avail != 0
        invariant k <= n && Remaining(n, b, k, avail)
        invariant count == old(count) + if row < n then |ExtendingBelow(n, b, k)| else 0
        decreases avail
      {
        RemainingNext(n, b, k, avail);
        ClearLowest(avail);
        var i := TrailingZeros(avail);
        avail := And(avail, Pred(avail));
        BranchOne(n, b, i);
        if row == n - 1 {
          FullBoard(n, b + [i]);
          count := count + 1;
        } else {
          var m := OneBit(i);
          AttackedNext(n, b, columns, diagonal, antidiagonal, i);
          Search(row + 1, Or(columns, m), Right(Or(diagonal, m)), Left(Or(antidiagonal, m)), b + [i]);
        }
        k := i + 1;
      }
      if row < n {
        RemainingNone(n, b, k);
      }
    }
  }

  /** The placements whose first queen stands at `i`; for a board of width 1 the search
      starts past the last row and finds nothing. */
  method BacktrackingSub(n: nat, i: nat) returns (count: int)
    requires 0 < n <= MAX_MASK_QUEENS && i < n
    ensures count == if n == 1 then 0 else |Extending(n, [i])|
  {
    hide Bit, Or, Left, Right, OneBit, Extending, Attacked;
    var m := OneBit(i);
    var bt := new BackTracking(n);
    AttackedNone(n);
    AttackedNext(n, [], 0, 0, 0, i);
    OrNone(m);
    assert [] + [i] == [i];
    bt.Search(1, m, Right(m), Left(m), [i]);
    count := bt.count;
  }

  lemma OrNone(m: bv32)
    ensures Or(0, m) == m
  {
  }

  // ------------------------------------------------------------------ the mirror

  function Mirror(n: nat, b: seq<nat>): seq<nat> {
    seq(|b|, i requires 0 <= i < |b| => if b[i] < n then n - 1 - b[i] else 0)
  }

  lemma MirrorPlaces(n: nat, b: seq<nat>)
    requires b in Placements(n)
    ensures Mirror(n, b) in Placements(n) && Mirror(n, Mirror(n, b)) == b
  {
    PlacementsAre(n, b);
    var c := Mirror(n, b);
    forall i, j | 0 <= i < j < n
      ensures !Attack(c, i, j)
    {
      assert !Attack(b, i, j);
    }
    PlacementsAre(n, c);
  }

  /** The placements whose first queen is among the last `k` columns. */
  ghost function FromTop(n: nat, k: nat): set<seq<nat>> {
    set b | b in Placements(n) && |b| > 0 && b[0] + k >= n
  }

  lemma MirrorHalf(n: nat, k: nat)
    requires 0 < n
    ensures |FromTop(n, k)| == |ExtendingBelow(n, [], k)|
  {
    var xs, ys := ExtendingBelow(n, [], k), FromTop(n, k);
    var f := (b: seq<nat>) => Mirror(n, b);
    forall b | b in xs
      ensures f(b) in ys
    {
      MirrorPlaces(n, b);
      PlacementsAre(n, b);
    }
    forall b, c | b in xs && c in xs && f(b) == f(c)
      ensures b == c
    {
      MirrorPlaces(n, b);
      MirrorPlaces(n, c);
    }
    forall b | b in ys
      ensures exists c :: c in xs && f(c) == b
    {
      MirrorPlaces(n, b);
      PlacementsAre(n, b);
      assert Mirror(n, b) in Extending(n, []);
      assert f(Mirror(n, b)) == b;
    }
    Sets.BijectionSize(xs, ys, f);
  }

  /** Doubling the lower half, and adding the middle column once, counts every placement. */
  lemma MirrorDoubles(n: nat)
    requires 0 < n
    ensures |Placements(n)| == 2 * |ExtendingBelow(n, [], n / 2)| + if n % 2 == 1 then |Extending(n, [n / 2])| else 0
  {
    var h := n / 2;
    MirrorHalf(n, h);
    var low, high := ExtendingBelow(n, [], h), FromTop(n, h);
    var middle := if n % 2 == 1 then Extending(n, [h]) else {};
    forall b
      ensures b in Placements(n) <==> b in low || b in middle || b in high
      ensures !(b in low && b in middle) && !(b in low && b in high) && !(b in middle && b in high)
    {
      PlacementsAre(n, b);
    }
    assert Placements(n) == low + middle + high;
    assert low !! middle && (low + middle) !! high;
  }

  /** The mirror-doubled count is right exactly for boards wider than 1. */
  method BacktrackingMirrored(n: nat) returns (total: int)
    requires 0 < n <= MAX_MASK_QUEENS
    ensures total == |Placements(n)| <==> n != 1
    ensures n == 1 ==> total == 0
  {
    hide Extending, ExtendingBelow;
    total := 0;
    BranchNone(n, []);
    for i := 0 to n / 2
      invariant total == |ExtendingBelow(n, [], i)|
    {
      BranchOne(n, [], i);
      assert [] + [i] == [i];
      var count := BacktrackingSub(n, i);
      total := total + count;
    }
    total := total * 2;
    if n % 2 == 1 {
      var count := BacktrackingSub(n, n / 2);
      total := total + count;
    }
    MirrorDoubles(n);
    if n == 1 {
      OneQueen();
    }
  }

  lemma OneQueen()
    ensures ExtendingBelow(1, [], 0) == {} && Extending(1, [0]) == {[0]} && Placements(1) == {[0]}
  {
    FullBoard(1, [0]);
    forall b
      ensures b in Placements(1) <==> b == [0]
    {
      PlacementsAre(1, b);
    }
  }
}
