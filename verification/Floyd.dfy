/** Floyd's algorithm on a matrix of distances, in place. */
module Floyd {
  import opened Ints
  import opened ShortestPaths

  ghost function Row(dist: array2<Int32>, i: nat, n: nat): (r: seq<int>)
    requires i < dist.Length0 && n <= dist.Length1
    reads dist
    ensures |r| == n && forall j :: 0 <= j < n ==> r[j] == dist[i, j]
  {
    if n == 0 then [] else Row(dist, i, n - 1) + [dist[i, n - 1]]
  }

  ghost function Rows(dist: array2<Int32>, n: nat): (m: Matrix)
    requires n <= dist.Length0
    reads dist
    ensures |m| == n && forall i :: 0 <= i < n ==> m[i] == Row(dist, i, dist.Length1)
  {
    if n == 0 then [] else Rows(dist, n - 1) + [Row(dist, n - 1, dist.Length1)]
  }

  /** The contents of the array. */
  ghost function Entries(dist: array2<Int32>): (m: Matrix)
    reads dist
    ensures |m| == dist.Length0
    ensures forall i, j :: 0 <= i < dist.Length0 && 0 <= j < dist.Length1 ==> At(m, i, j) == dist[i, j]
  {
    Rows(dist, dist.Length0)
  }

  /** The part of round `k` that is done: the rows before `i`, and in row `i` the columns before `j`. */
  ghost predicate Partly(w: Matrix, d: Matrix, e: Matrix, k: nat, i: nat, j: nat) {
    forall a, b :: 0 <= a < |w| && 0 <= b < |w| ==>
      At(e, a, b) == if a < i || (a == i && b < j) then Through(At(d, a, b), At(d, a, k), At(d, k, b)) else At(d, a, b)
  }

  /** Whether they are updated already or not, the entries that an update reads have not changed. */
  lemma PartlyFixed(w: Matrix, d: Matrix, e: Matrix, k: nat, i: nat, j: nat)
    requires k < |w| && i < |w| && j < |w| && ZeroDiagonal(w, d) && Partly(w, d, e, k, i, j)
    ensures At(e, i, j) == At(d, i, j) && At(e, i, k) == At(d, i, k) && At(e, k, j) == At(d, k, j)
  {
    hide At;
    assert At(d, k, k) == 0;
  }

  method Relax(dist: array2<Int32>, k: nat, ghost w: Matrix)
    requires dist.Length0 == dist.Length1 == |w| && k < |w|
    requires NoNegativeCycle(w) && SumsFit(w) && Rounds(w, Entries(dist), k)
    modifies dist
    ensures Rounds(w, Entries(dist), k + 1)
  {
    hide At, Rounds, Entries, NoNegativeCycle, SumsFit, Partly;
    ghost var d := Entries(dist);
    var n := dist.Length0;
    PartlyNone(w, d, k);
    for i := 0 to n
      invariant Partly(w, d, Entries(dist), k, i, 0)
    {
      for j := 0 to n
        invariant Partly(w, d, Entries(dist), k, i, j)
      {
        RoundsZero(w, d, k);
        PartlyFixed(w, d, Entries(dist), k, i, j);
        ghost var e := Entries(dist);
        if dist[i, k] != INF && dist[k, j] != INF {
          RoundFits(w, d, k, i, j);
          var sum: Int32 := dist[i, k] + dist[k, j];
          dist[i, j] := if sum < dist[i, j] then sum else dist[i, j];
        }
        PartlyNext(w, d, e, Entries(dist), k, i, j);
      }
      PartlyRow(w, d, Entries(dist), k, i);
    }
    PartlyAll(w, d, Entries(dist), k);
    RoundNext(w, d, Entries(dist), k);
  }

  lemma RoundsZero(w: Matrix, d: Matrix, k: nat)
    requires Rounds(w, d, k)
    ensures ZeroDiagonal(w, d)
  {
  }

  lemma PartlyNone(w: Matrix, d: Matrix, k: nat)
    ensures Partly(w, d, d, k, 0, 0)
  {
    hide At;
  }

  lemma PartlyNext(w: Matrix, d: Matrix, e: Matrix, e': Matrix, k: nat, i: nat, j: nat)
    requires i < |w| && j < |w| && Partly(w, d, e, k, i, j)
    requires At(e', i, j) == Through(At(d, i, j), At(d, i, k), At(d, k, j))
    requires forall a, b :: 0 <= a < |w| && 0 <= b < |w| && !(a == i && b == j) ==> At(e', a, b) == At(e, a, b)
    ensures Partly(w, d, e', k, i, j + 1)
  {
    hide At, Through;
  }

  lemma PartlyRow(w: Matrix, d: Matrix, e: Matrix, k: nat, i: nat)
    requires Partly(w, d, e, k, i, |w|)
    ensures Partly(w, d, e, k, i + 1, 0)
  {
    hide At, Through;
  }

  lemma PartlyAll(w: Matrix, d: Matrix, e: Matrix, k: nat)
    requires Partly(w, d, e, k, |w|, 0)
    ensures IsRound(w, d, e, k)
  {
    hide At, Through;
  }

  /** Each distance becomes the length of a shortest walk; infinity means there is none. */
  method Floyd(dist: array2<Int32>)
    requires dist.Length0 == dist.Length1
    requires ZeroDiagonal(Entries(dist), Entries(dist)) && NoNegativeCycle(Entries(dist)) && SumsFit(Entries(dist))
    modifies dist
    ensures forall i: nat, j: nat :: i < dist.Length0 && j < dist.Length0 ==>
            Least(old(Entries(dist)), i, j, dist[i, j])
  {
    hide At, Rounds, Entries, NoNegativeCycle, SumsFit, Least;
    ghost var w := Entries(dist);
    CappedEntries(dist);
    RoundsStart(w);
    for k := 0 to dist.Length0
      invariant Rounds(w, Entries(dist), k)
    {
      Relax(dist, k, w);
    }
    forall i: nat, j: nat | i < dist.Length0 && j < dist.Length0
      ensures Least(w, i, j, dist[i, j])
    {
      RoundsEnd(w, Entries(dist), i, j);
    }
  }

  lemma CappedEntries(dist: array2<Int32>)
    requires dist.Length0 == dist.Length1
    ensures Capped(Entries(dist), Entries(dist))
  {
    hide At, Entries;
  }
}
