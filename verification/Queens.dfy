/** The N-queens problem: one queen in each line, no two attacking each other. */
module Queens {
  import Sets

  /** Queen `i` stands at `b[i]`. */
  predicate Attack(b: seq<nat>, i: nat, j: nat)
    requires i < |b| && j < |b|
  {
    b[i] == b[j] || b[i] + i == b[j] + j || b[i] + j == b[j] + i
  }

  predicate Peaceful(b: seq<nat>) {
    forall i, j :: 0 <= i < j < |b| ==> !Attack(b, i, j)
  }

  predicate Inside(n: nat, b: seq<nat>) {
    forall i :: 0 <= i < |b| ==> b[i] < n
  }

  /** All ways to give each of the first `k` queens a square of an `n` wide board. */
  ghost function Boards(n: nat, k: nat): set<seq<nat>> {
    if k == 0 then {[]}
    else set b, v | b in Boards(n, k - 1) && 0 <= v < n :: b + [v]
  }

  lemma {:induction false} BoardsAll(n: nat, k: nat, b: seq<nat>)
    ensures b in Boards(n, k) <==> |b| == k && Inside(n, b)
    decreases k
  {
    if k == 0 {
    } else if |b| == k {
      var front, v := b[..k - 1], b[k - 1];
      assert b == front + [v];
      BoardsAll(n, k - 1, front);
      if Inside(n, b) {
        assert front in Boards(n, k - 1) && 0 <= v < n;
      }
      forall f, w | f in Boards(n, k - 1) && 0 <= w < n && f + [w] == b
        ensures Inside(n, b)
      {
        BoardsAll(n, k - 1, f);
        assert forall i :: 0 <= i < k - 1 ==> b[i] == f[i];
      }
    } else {
      forall f, w | f in Boards(n, k - 1) && 0 <= w < n
        ensures f + [w] != b
      {
        BoardsAll(n, k - 1, f);
      }
    }
  }

  /** The full boards without an attack. */
  ghost function Placements(n: nat): set<seq<nat>> {
    set b | b in Boards(n, n) && Peaceful(b)
  }

  lemma PlacementsAre(n: nat, b: seq<nat>)
    ensures b in Placements(n) <==> |b| == n && Inside(n, b) && Peaceful(b)
  {
    BoardsAll(n, n, b);
  }

  /** The placements that start with the queens of `prefix`. */
  ghost function Extending(n: nat, prefix: seq<nat>): set<seq<nat>> {
    set b | b in Placements(n) && prefix <= b
  }

  /** Every line of a full peaceful board is hit: it is a permutation. */
  lemma EveryLineHit(n: nat, b: seq<nat>, v: nat)
    requires |b| == n && Inside(n, b) && Peaceful(b) && v < n
    ensures v in b
  {
    assert forall i, j :: 0 <= i < j < n && !Attack(b, i, j) ==> b[i] != b[j];
    Sets.Pigeonhole(b, v);
  }
}
