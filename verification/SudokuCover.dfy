/** Sudoku as an exact cover: every empty cell takes one value, and every unit takes each of
    the values its givens do not hold. */
module SudokuCover {
  import opened ExactCover
  import opened SudokuSpec
  import opened SudokuGrid
  import Sets

  const MAX_NAMES := 400

  /** The units of a cell: its row, its column and its box. */
  function UnitOf(c: nat, j: nat): (u: nat)
    requires c < CELLS && j < 3
    ensures u < 27
  {
    if j == 0 then c / 9 else if j == 1 then 9 + c % 9 else 18 + (c / 9 / 3 * 3 + c % 9 / 3)
  }

  /** The column number of value `v` in unit `u`. */
  function UnitName(u: nat, v: nat): nat
    requires u < 27
  {
    100 + u / 9 * 100 + u % 9 * 10 + v
  }

  ghost predicate InUnit(u: nat, c: nat)
    requires u < 27
  {
    exists i :: 0 <= i < 9 && UnitCell(u, i) == c
  }

  lemma UnitsOfCell(u: nat, c: nat)
    requires u < 27 && c < CELLS
    ensures InUnit(u, c) <==> u == UnitOf(c, u / 9)
  {
    hide UnitCell;
    if u == UnitOf(c, u / 9) {
      CellInUnits(c);
    }
    if InUnit(u, c) {
      var i :| 0 <= i < 9 && UnitCell(u, i) == c;
      UnitHolds(u, i);
    }
  }

  lemma UnitHolds(u: nat, i: nat)
    requires u < 27 && i < 9
    ensures u == UnitOf(UnitCell(u, i), u / 9)
  {
    hide UnitCell;
    CellParts(u, i);
    BoxParts((u - 18) / 3, i / 3, i / 3);
    BoxParts((u - 18) % 3, i % 3, i % 3);
  }

  /** The givens of unit `u` hold `v`. */
  ghost predicate Holds(b: Board, u: nat, v: nat)
    requires |b| == CELLS && u < 27
  {
    exists i :: 0 <= i < 9 && b[UnitCell(u, i)] == v
  }

  /** Column number `k` must be covered: an empty cell, or a value a unit still lacks. */
  ghost predicate Wanted(b: Board, k: nat)
    requires |b| == CELLS
  {
    if k < 100 then k < CELLS && b[k] == 0
    else k < MAX_NAMES && k % 100 / 10 < 9 && 0 < k % 10 && !Holds(b, (k / 100 - 1) * 9 + k % 100 / 10, k % 10)
  }

  lemma NameParts(u: nat, v: nat)
    requires u < 27 && v < 10
    ensures var k := UnitName(u, v);
            100 <= k < MAX_NAMES && k % 10 == v && k % 100 == u % 9 * 10 + v && k % 100 / 10 == u % 9
              && k / 100 == 1 + u / 9
            && (k / 100 - 1) * 9 + k % 100 / 10 == u
  {
  }

  lemma WantedUnit(b: Board, u: nat, v: nat)
    requires |b| == CELLS && u < 27 && 0 < v < 10
    ensures Wanted(b, UnitName(u, v)) <==> !Holds(b, u, v)
  {
    NameParts(u, v);
  }

  /** The columns of putting a value in a cell. */
  function NamesOf(q: Choice): seq<nat>
    requires q.place < CELLS
  {
    [q.place, UnitName(UnitOf(q.place, 0), q.mark), UnitName(UnitOf(q.place, 1), q.mark),
     UnitName(UnitOf(q.place, 2), q.mark)]
  }

  /** A value that an empty cell may still take. */
  ghost predicate Move(b: Board, q: Choice)
    requires |b| == CELLS
  {
    && q.place < CELLS && b[q.place] == 0 && 0 < q.mark <= NUM
    && forall j :: 0 <= j < 3 ==> !Holds(b, UnitOf(q.place, j), q.mark)
  }

  ghost predicate OnName(head: seq<nat>, q: Choice, h: nat)
    requires |head| == MAX_NAMES && q.place < CELLS && q.mark <= NUM
  {
    NamesInRange(q);
    exists i :: 0 <= i < 4 && head[NamesOf(q)[i]] == h
  }

  lemma NamesInRange(q: Choice)
    requires q.place < CELLS && q.mark <= NUM
    ensures forall i :: 0 <= i < 4 ==> NamesOf(q)[i] < MAX_NAMES
  {
    forall j | 0 <= j < 3
      ensures UnitName(UnitOf(q.place, j), q.mark) < MAX_NAMES
    {
      NameParts(UnitOf(q.place, j), q.mark);
    }
  }

  /** Column number `k` is column `head[k]` of `p`; 0 stands for a column left out. */
  ghost predicate Encodes(b: Board, head: seq<nat>, p: Problem)
    requires |b| == CELLS
  {
    && |head| == MAX_NAMES
    && (forall k :: 0 <= k < MAX_NAMES ==> (head[k] != 0 <==> Wanted(b, k)))
    && (forall i, j :: 0 <= i < j < MAX_NAMES && head[i] != 0 ==> head[i] != head[j])
    && (forall h :: h in p.primary <==> exists k :: 0 <= k < MAX_NAMES && head[k] == h && h != 0)
    && (forall q :: q in p.rows <==> Move(b, q))
    && (forall q :: q in p.rows ==> forall h :: h in p.rows[q] <==> OnName(head, q, h))
  }

  /** What dancing links looks for: a full board that extends the givens and in which no two
      neighbours are equal. */
  ghost predicate Answer(g: Grid, b: Board, full: Board)
    requires GridOk(g) && g.n == CELLS && |b| == CELLS
  {
    && BoardOk(g, full) && Consistent(g, full)
    && forall c :: 0 <= c < CELLS ==> full[c] != 0 && (b[c] != 0 ==> full[c] == b[c])
  }

  ghost predicate NineByNine(g: Grid) {
    && GridOk(g) && g.n == CELLS && g.num == NUM
    && forall c, d :: 0 <= c < CELLS && 0 <= d < CELLS ==> (Adjacent(g, c, d) <==> NearCell(c, d))
  }

  /** Two choices share a column exactly when they are for one cell, or put one value twice
      in a unit. */
  lemma NamesMeet(q: Choice, t: Choice, i: nat, j: nat)
    requires q.place < CELLS && q.mark <= NUM && t.place < CELLS && t.mark <= NUM && i < 4 && j < 4
    ensures NamesOf(q)[i] == NamesOf(t)[j] <==>
              (i == j && if i == 0 then q.place == t.place
                         else q.mark == t.mark && UnitOf(q.place, i - 1) == UnitOf(t.place, i - 1))
  {
    hide UnitOf, UnitName;
    if i > 0 {
      NameParts(UnitOf(q.place, i - 1), q.mark);
      UnitKind(q.place, i - 1);
    }
    if j > 0 {
      NameParts(UnitOf(t.place, j - 1), t.mark);
      UnitKind(t.place, j - 1);
    }
  }

  lemma UnitKind(c: nat, j: nat)
    requires c < CELLS && j < 3
    ensures UnitOf(c, j) / 9 == j
  {
  }

  lemma MoveRow(b: Board, head: seq<nat>, p: Problem, q: Choice, i: nat)
    requires |b| == CELLS && Encodes(b, head, p) && q in p.rows && i < 4
    ensures Move(b, q) && NamesOf(q)[i] < MAX_NAMES && head[NamesOf(q)[i]] in p.rows[q]
    ensures Wanted(b, NamesOf(q)[i]) && head[NamesOf(q)[i]] != 0
  {
    NamesInRange(q);
    if i == 0 {
      assert NamesOf(q)[0] == q.place;
    } else {
      WantedUnit(b, UnitOf(q.place, i - 1), q.mark);
    }
    assert OnName(head, q, head[NamesOf(q)[i]]);
  }

  /** Rows that share a column share a name. */
  lemma SharedName(b: Board, head: seq<nat>, p: Problem, q: Choice, t: Choice, h: nat) returns (i: nat)
    requires |b| == CELLS && Encodes(b, head, p) && q in p.rows && t in p.rows
    requires h in p.rows[q] && h in p.rows[t]
    ensures i < 4 && NamesOf(q)[i] == NamesOf(t)[i]
  {
    MoveRow(b, head, p, q, 0);
    MoveRow(b, head, p, t, 0);
    assert OnName(head, q, h) && OnName(head, t, h);
    NamesInRange(q);
    NamesInRange(t);
    i :| 0 <= i < 4 && head[NamesOf(q)[i]] == h;
    var j :| 0 <= j < 4 && head[NamesOf(t)[j]] == h;
    MoveRow(b, head, p, q, i);
    MoveRow(b, head, p, t, j);
    NamesMeet(q, t, i, j);
  }

  // ------------------------------------------------------------------ from answers to covers

  /** The choices a full board makes for the empty cells. */
  ghost function ChoicesOf(b: Board, full: Board): set<Choice>
    requires |b| == CELLS && |full| == CELLS
  {
    set c | 0 <= c < CELLS && b[c] == 0 :: Choice(c, full[c])
  }

  /** A value placed in a unit is not among its givens. */
  lemma AnswerMoves(g: Grid, b: Board, full: Board, c: nat)
    requires NineByNine(g) && |b| == CELLS && Answer(g, b, full) && c < CELLS && b[c] == 0
    ensures Move(b, Choice(c, full[c]))
  {
    forall j | 0 <= j < 3
      ensures !Holds(b, UnitOf(c, j), full[c])
    {
      var u := UnitOf(c, j);
      UnitKind(c, j);
      UnitsOfCell(u, c);
      var k :| 0 <= k < 9 && UnitCell(u, k) == c;
      forall i | 0 <= i < 9
        ensures b[UnitCell(u, i)] != full[c]
      {
        if i != k {
          UnitIsNear(u, k, i);
          var d := UnitCell(u, i);
          assert !Seen(g, full, c, full[c]) && Adjacent(g, c, d);
        }
      }
    }
  }

  /** Two choices of an answer never share a column. */
  lemma AnswerDisjoint(g: Grid, b: Board, head: seq<nat>, p: Problem, full: Board, c: nat, d: nat)
    requires NineByNine(g) && |b| == CELLS && Answer(g, b, full) && Encodes(b, head, p)
    requires c < CELLS && d < CELLS && c != d && b[c] == 0 && b[d] == 0
    ensures Choice(c, full[c]) in p.rows && Choice(d, full[d]) in p.rows
    ensures p.rows[Choice(c, full[c])] !! p.rows[Choice(d, full[d])]
  {
    var q, t := Choice(c, full[c]), Choice(d, full[d]);
    AnswerMoves(g, b, full, c);
    AnswerMoves(g, b, full, d);
    if h :| h in p.rows[q] && h in p.rows[t] {
      var i := SharedName(b, head, p, q, t, h);
      AnswerApart(g, b, full, c, d, i);
    }
  }

  lemma AnswerApart(g: Grid, b: Board, full: Board, c: nat, d: nat, i: nat)
    requires NineByNine(g) && |b| == CELLS && Answer(g, b, full)
    requires c < CELLS && d < CELLS && c != d && i < 4
    ensures NamesOf(Choice(c, full[c]))[i] != NamesOf(Choice(d, full[d]))[i]
  {
    var q, t := Choice(c, full[c]), Choice(d, full[d]);
    NamesMeet(q, t, i, i);
    if i > 0 && UnitOf(c, i - 1) == UnitOf(d, i - 1) {
      var u := UnitOf(c, i - 1);
      UnitKind(c, i - 1);
      UnitsOfCell(u, c);
      UnitsOfCell(u, d);
      var k :| 0 <= k < 9 && UnitCell(u, k) == c;
      var l :| 0 <= l < 9 && UnitCell(u, l) == d;
      UnitIsNear(u, k, l);
      assert !Seen(g, full, c, full[c]) && Adjacent(g, c, d);
    }
  }

  lemma AnswerReaches(g: Grid, b: Board, head: seq<nat>, p: Problem, full: Board, k: nat)
    requires NineByNine(g) && |b| == CELLS && Answer(g, b, full) && Encodes(b, head, p)
    requires k < MAX_NAMES && Wanted(b, k) && ChoicesOf(b, full) <= p.rows.Keys
    ensures Reaches(p, ChoicesOf(b, full), head[k])
  {
    hide UnitName, UnitOf, Consistent, Encodes, GridOk;
    var c, i := k, 0;
    if k >= 100 {
      c, i := UnitReached(g, b, full, k);
    }
    var q := Choice(c, full[c]);
    assert q in ChoicesOf(b, full);
    MoveRow(b, head, p, q, i);
  }

  lemma UnitReached(g: Grid, b: Board, full: Board, k: nat) returns (c: nat, i: nat)
    requires NineByNine(g) && |b| == CELLS && Answer(g, b, full) && 100 <= k < MAX_NAMES && Wanted(b, k)
    ensures c < CELLS && b[c] == 0 && i < 4 && NamesOf(Choice(c, full[c]))[i] == k
  {
    hide UnitCell, UnitOf, UnitName, Consistent;
    var u, v := (k / 100 - 1) * 9 + k % 100 / 10, k % 10;
    NameUnit(k);
    UnitDistinct(g, b, full, u);
    assert u < 27 && 1 <= v <= 9;
    var n := ValuePresent(full, u, v);
    c, i := UnitCell(u, n), 1 + u / 9;
    UnitHolds(u, n);
  }

  lemma NameUnit(k: nat)
    requires 100 <= k < MAX_NAMES && k % 100 / 10 < 9
    ensures var u := (k / 100 - 1) * 9 + k % 100 / 10; u < 27 && UnitName(u, k % 10) == k
  {
  }

  lemma UnitDistinct(g: Grid, b: Board, full: Board, u: nat)
    requires NineByNine(g) && |b| == CELLS && Answer(g, b, full) && u < 27
    ensures Sets.Distinct(UnitValues(full, u)) && forall c :: 0 <= c < CELLS ==> 1 <= full[c] <= 9
  {
    DistinctUnits(g, full);
  }

  /** Nine different values in a unit are all nine. */
  lemma ValuePresent(full: Board, u: nat, v: nat) returns (i: nat)
    requires |full| == CELLS && u < 27 && 1 <= v <= 9
    requires forall c :: 0 <= c < CELLS ==> 1 <= full[c] <= 9
    requires Sets.Distinct(UnitValues(full, u))
    ensures i < 9 && full[UnitCell(u, i)] == v
  {
    var vals := UnitValues(full, u);
    var low := seq(9, i requires 0 <= i < 9 => vals[i] - 1);
    Sets.Pigeonhole(low, v - 1);
    i :| 0 <= i < 9 && low[i] == v - 1;
  }

  /** The choices of an answer are an exact cover. */
  lemma AnswerCovers(g: Grid, b: Board, head: seq<nat>, p: Problem, full: Board)
    requires NineByNine(g) && |b| == CELLS && Answer(g, b, full) && Encodes(b, head, p)
    ensures ChoicesOf(b, full) in Covers(p, {})
  {
    var s := ChoicesOf(b, full);
    forall q | q in s
      ensures q in p.rows
    {
      AnswerMoves(g, b, full, q.place);
    }
    forall q, t | q in s && t in s && q != t
      ensures p.rows[q] !! p.rows[t]
    {
      AnswerDisjoint(g, b, head, p, full, q.place, t.place);
    }
    forall h | h in p.primary
      ensures Reaches(p, s, h)
    {
      var k :| 0 <= k < MAX_NAMES && head[k] == h && h != 0;
      AnswerReaches(g, b, head, p, full, k);
    }
    assert IsCover(p, {}, s);
  }

  // ------------------------------------------------------------------ from covers to answers

  /** `full` is `b` with the choices of `s` filled in. */
  ghost predicate FillsIn(b: Board, s: set<Choice>, full: Board)
    requires |b| == CELLS
  {
    && |full| == CELLS
    && (forall q :: q in s ==> q.place < CELLS && full[q.place] == q.mark)
    && (forall c :: 0 <= c < CELLS && (forall q :: q in s ==> q.place != c) ==> full[c] == b[c])
  }

  /** A cover meets every column that is wanted. */
  lemma NameChosen(b: Board, head: seq<nat>, p: Problem, s: set<Choice>, k: nat) returns (q: Choice, i: nat)
    requires |b| == CELLS && Encodes(b, head, p) && s in Covers(p, {}) && k < MAX_NAMES && Wanted(b, k)
    ensures q in s && q in p.rows && Move(b, q) && i < 4 && NamesOf(q)[i] == k
  {
    hide Wanted, UnitName, UnitOf;
    assert head[k] in p.primary;
    assert Reaches(p, s, head[k]);
    q :| q in s && head[k] in p.rows[q];
    NamesInRange(q);
    assert OnName(head, q, head[k]);
    i :| 0 <= i < 4 && head[NamesOf(q)[i]] == head[k];
  }

  /** A cover places each value that a unit lacks somewhere in the unit. */
  lemma ValueChosen(b: Board, head: seq<nat>, p: Problem, s: set<Choice>, u: nat, v: nat) returns (q: Choice)
    requires |b| == CELLS && Encodes(b, head, p) && s in Covers(p, {}) && u < 27 && 0 < v < 10 && !Holds(b, u, v)
    ensures q in s && q in p.rows && Move(b, q) && q.mark == v && u == UnitOf(q.place, u / 9)
  {
    hide Encodes, Covers, UnitName, UnitOf, Wanted;
    NameParts(u, v);
    WantedUnit(b, u, v);
    var i;
    q, i := NameChosen(b, head, p, s, UnitName(u, v));
    if i > 0 {
      NameParts(UnitOf(q.place, i - 1), q.mark);
      UnitKind(q.place, i - 1);
    }
  }

  /** With a cover filled in, every unit holds every value. */
  lemma UnitComplete(b: Board, head: seq<nat>, p: Problem, s: set<Choice>, full: Board, u: nat, v: nat)
    requires |b| == CELLS && Encodes(b, head, p) && s in Covers(p, {}) && FillsIn(b, s, full)
    requires u < 27 && 0 < v < 10
    ensures v in UnitValues(full, u)
  {
    if Holds(b, u, v) {
      var i :| 0 <= i < 9 && b[UnitCell(u, i)] == v;
      assert forall q :: q in s ==> Move(b, q);
      assert full[UnitCell(u, i)] == v;
      assert UnitValues(full, u)[i] == v;
    } else {
      var q := ValueChosen(b, head, p, s, u, v);
      UnitsOfCell(u, q.place);
      var i :| 0 <= i < 9 && UnitCell(u, i) == q.place;
      assert UnitValues(full, u)[i] == v;
    }
  }

  lemma AllMeansDistinct(vals: seq<nat>)
    requires |vals| == 9 && forall v :: 0 < v < 10 ==> v in vals
    ensures Sets.Distinct(vals) && forall i :: 0 <= i < 9 ==> 0 < vals[i] < 10
  {
    var want := Sets.Below(10) - {0};
    assert 0 in Sets.Below(10) && |want| == 9;
    assert want <= Sets.Elements(vals);
    Sets.FullElements(vals, want);
  }

  /** A cover filled in is an answer. */
  lemma CoverAnswers(g: Grid, b: Board, head: seq<nat>, p: Problem, s: set<Choice>, full: Board)
    requires NineByNine(g) && |b| == CELLS && BoardOk(g, b) && Encodes(b, head, p)
    requires s in Covers(p, {}) && FillsIn(b, s, full)
    ensures Answer(g, b, full)
  {
    forall u | 0 <= u < 27
      ensures Sets.Distinct(UnitValues(full, u)) && forall i :: 0 <= i < 9 ==> 0 < UnitValues(full, u)[i] < 10
    {
      forall v | 0 < v < 10
        ensures v in UnitValues(full, u)
      {
        UnitComplete(b, head, p, s, full, u, v);
      }
      AllMeansDistinct(UnitValues(full, u));
    }
    forall c | 0 <= c < CELLS
      ensures 0 < full[c] < 10 && (b[c] != 0 ==> full[c] == b[c])
    {
      assert UnitCell(c / 9, c % 9) == c;
      assert UnitValues(full, c / 9)[c % 9] == full[c];
      assert forall q :: q in s ==> Move(b, q);
    }
    DistinctUnits(g, full);
  }
}
