/** N-queens as an exact cover: rows of the cover are squares, columns are lines and
    diagonals; lines must be covered, diagonals may be. */
module QueensCover {
  import opened ExactCover
  import opened Queens
  import Sets

  /** The lines and diagonals through a square, by number. */
  function LinesOf(n: nat, q: Choice): seq<nat>
    requires q.place < n && q.mark < n
  {
    [q.place, n + q.mark, 2 * n + q.mark + q.place, 5 * n + q.mark - q.place]
  }

  ghost function Squares(n: nat): set<Choice> {
    set c, r | 0 <= c < n && 0 <= r < n :: Choice(c, r)
  }

  ghost predicate OnLine(n: nat, head: seq<nat>, q: Choice, h: nat)
    requires |head| == 6 * n && q.place < n && q.mark < n
  {
    exists i :: 0 <= i < 4 && head[LinesOf(n, q)[i]] == h
  }

  /** Column number `k` is the column `head[k]` of `p`. */
  ghost predicate Encodes(n: nat, head: seq<nat>, p: Problem) {
    && |head| == 6 * n
    && (forall i, j :: 0 <= i < j < 6 * n ==> head[i] != head[j])
    && (forall h :: h in p.primary <==> exists k :: 0 <= k < 2 * n && head[k] == h)
    && p.rows.Keys == Squares(n)
    && (forall q :: q in Squares(n) ==> forall h :: h in p.rows[q] <==> OnLine(n, head, q, h))
  }

  lemma SquaresAre(n: nat, q: Choice)
    ensures q in Squares(n) <==> q.place < n && q.mark < n
  {
    if q.place < n && q.mark < n {
      assert Choice(q.place, q.mark) in Squares(n);
    }
  }

  ghost predicate SameLine(q: Choice, t: Choice, i: nat) {
    if i == 0 then q.place == t.place
    else if i == 1 then q.mark == t.mark
    else if i == 2 then q.mark + q.place == t.mark + t.place
    else q.mark + t.place == t.mark + q.place
  }

  /** Line numbers of different kinds never meet. */
  lemma LineNumbers(n: nat, q: Choice, t: Choice, i: nat, j: nat)
    requires q.place < n && q.mark < n && t.place < n && t.mark < n && i < 4 && j < 4
    ensures LinesOf(n, q)[i] < 6 * n
    ensures LinesOf(n, q)[i] == LinesOf(n, t)[j] <==> (i == j && SameLine(q, t, i))
  {
  }

  ghost predicate Clash(q: Choice, t: Choice) {
    q.place == t.place || q.mark == t.mark || q.mark + q.place == t.mark + t.place
    || q.mark + t.place == t.mark + q.place
  }

  /** Two squares share a column exactly when queens there attack each other. */
  lemma SquaresClash(n: nat, head: seq<nat>, p: Problem, q: Choice, t: Choice)
    requires Encodes(n, head, p) && q in Squares(n) && t in Squares(n)
    ensures p.rows[q] !! p.rows[t] <==> !Clash(q, t)
  {
    SquaresAre(n, q);
    SquaresAre(n, t);
    var a, b := LinesOf(n, q), LinesOf(n, t);
    forall i, j | 0 <= i < 4 && 0 <= j < 4
      ensures a[i] < 6 * n && b[j] < 6 * n && (head[a[i]] == head[b[j]] <==> a[i] == b[j])
    {
      LineNumbers(n, q, t, i, j);
      LineNumbers(n, t, q, j, i);
    }
    if Clash(q, t) {
      var i := if q.place == t.place then 0 else if q.mark == t.mark then 1
               else if q.mark + q.place == t.mark + t.place then 2 else 3;
      LineNumbers(n, q, t, i, i);
      assert OnLine(n, head, q, head[a[i]]) && OnLine(n, head, t, head[b[i]]);
      assert head[a[i]] in p.rows[q] && head[b[i]] in p.rows[t];
    } else {
      forall h | h in p.rows[q]
        ensures h !in p.rows[t]
      {
        assert OnLine(n, head, q, h);
        var i :| 0 <= i < 4 && head[a[i]] == h;
        forall j | 0 <= j < 4
          ensures head[b[j]] != h
        {
          LineNumbers(n, q, t, i, j);
        }
        assert !OnLine(n, head, t, h);
      }
    }
  }

  /** The squares a board occupies. */
  ghost function Occupied(b: seq<nat>): set<Choice> {
    set i | 0 <= i < |b| :: Choice(i, b[i])
  }

  lemma PlacementCovers(n: nat, head: seq<nat>, p: Problem, b: seq<nat>)
    requires Encodes(n, head, p) && b in Placements(n)
    ensures Occupied(b) in Covers(p, {})
  {
    PlacementsAre(n, b);
    var s := Occupied(b);
    forall q | q in s
      ensures q in Squares(n)
    {
      SquaresAre(n, q);
    }
    forall q, t | q in s && t in s && q != t
      ensures p.rows[q] !! p.rows[t]
    {
      assert q.place < t.place ==> !Attack(b, q.place, t.place);
      assert t.place < q.place ==> !Attack(b, t.place, q.place);
      SquaresClash(n, head, p, q, t);
    }
    forall h | h in p.primary
      ensures Reaches(p, s, h)
    {
      var k :| 0 <= k < 2 * n && head[k] == h;
      var i := if k < n then k else LineHitBy(n, b, k - n);
      var q := Choice(i, b[i]);
      assert q in s;
      SquaresAre(n, q);
      assert LinesOf(n, q)[if k < n then 0 else 1] == k;
      assert OnLine(n, head, q, h);
    }
    assert IsCover(p, {}, s);
  }

  ghost function LineHitBy(n: nat, b: seq<nat>, v: nat): (i: nat)
    requires |b| == n && Inside(n, b) && Peaceful(b) && v < n
    ensures i < n && b[i] == v
  {
    EveryLineHit(n, b, v);
    var i :| 0 <= i < n && b[i] == v;
    i
  }

  /** The mark a cover puts at place `i`. */
  ghost function MarkAt(n: nat, head: seq<nat>, p: Problem, s: set<Choice>, i: nat): (v: nat)
    requires Encodes(n, head, p) && s in Covers(p, {}) && i < n
    ensures v < n && Choice(i, v) in s
  {
    assert head[i] in p.primary;
    assert Reaches(p, s, head[i]);
    var q :| q in s && head[i] in p.rows[q];
    SquaresAre(n, q);
    assert OnLine(n, head, q, head[i]);
    var j :| 0 <= j < 4 && head[LinesOf(n, q)[j]] == head[i];
    LineNumbers(n, q, q, j, j);
    assert LinesOf(n, q)[j] == i;
    q.mark
  }

  lemma CoverPlaces(n: nat, head: seq<nat>, p: Problem, s: set<Choice>) returns (b: seq<nat>)
    requires Encodes(n, head, p) && s in Covers(p, {})
    ensures b in Placements(n) && Occupied(b) == s
  {
    b := seq(n, i requires 0 <= i < n => MarkAt(n, head, p, s, i));
    forall i, j | 0 <= i < j < n
      ensures !Attack(b, i, j)
    {
      var q, t := Choice(i, b[i]), Choice(j, b[j]);
      assert q in s && t in s && q != t;
      SquaresClash(n, head, p, q, t);
    }
    PlacementsAre(n, b);
    forall q | q in s
      ensures q in Occupied(b)
    {
      SquaresAre(n, q);
      var t := Choice(q.place, b[q.place]);
      assert t in s;
      SquaresClash(n, head, p, q, t);
    }
  }

  /** The exact covers of the queens problem are as many as the placements. */
  lemma CoversArePlacements(n: nat, head: seq<nat>, p: Problem)
    requires Encodes(n, head, p)
    ensures |Covers(p, {})| == |Placements(n)|
  {
    var f := (b: seq<nat>) => Occupied(b);
    forall b | b in Placements(n)
      ensures f(b) in Covers(p, {})
    {
      PlacementCovers(n, head, p, b);
    }
    forall b, c | b in Placements(n) && c in Placements(n) && f(b) == f(c)
      ensures b == c
    {
      PlacementsAre(n, b);
      PlacementsAre(n, c);
      forall i | 0 <= i < n
        ensures b[i] == c[i]
      {
        assert Choice(i, b[i]) in Occupied(c);
      }
    }
    forall s | s in Covers(p, {})
      ensures exists b :: b in Placements(n) && f(b) == s
    {
      var b := CoverPlaces(n, head, p, s);
      assert f(b) == s;
    }
    Sets.BijectionSize(Placements(n), Covers(p, {}), f);
  }

  /** Each square covers a line, so the count is of exact covers in the usual sense. */
  lemma SquaresAnchored(n: nat, head: seq<nat>, p: Problem)
    requires Encodes(n, head, p)
    ensures Anchored(p)
  {
    forall q | q in p.rows
      ensures p.rows[q] * p.primary != {}
    {
      SquaresAre(n, q);
      assert LinesOf(n, q)[0] == q.place;
      assert OnLine(n, head, q, head[q.place]);
      assert head[q.place] in p.rows[q] * p.primary;
    }
  }
}
