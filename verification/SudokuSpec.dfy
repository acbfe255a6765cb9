/** Number placement over any neighbour relation, the completions it asks for, and the
    minimum-arity search as a function from boards to outcomes. */
module SudokuSpec {

  /** Cells 0 to `n` - 1, values 1 to `num`, and the neighbours of each cell. */
  datatype Grid = Grid(n: nat, num: nat, neighbors: seq<seq<nat>>)

  /** A value per cell; 0 stands for a cell still empty. */
  type Board = seq<nat>

  ghost predicate Adjacent(g: Grid, c: nat, d: nat)
    requires |g.neighbors| == g.n && c < g.n
  {
    d in g.neighbors[c]
  }

  ghost predicate GridOk(g: Grid) {
    && |g.neighbors| == g.n
    && (forall c, i :: 0 <= c < g.n && 0 <= i < |g.neighbors[c]| ==> g.neighbors[c][i] < g.n)
    && (forall c :: 0 <= c < g.n ==> !Adjacent(g, c, c))
    && (forall c, d :: 0 <= c < g.n && 0 <= d < g.n ==> (Adjacent(g, c, d) <==> Adjacent(g, d, c)))
  }

  ghost predicate BoardOk(g: Grid, b: Board) {
    |b| == g.n && forall c :: 0 <= c < g.n ==> b[c] <= g.num
  }

  /** Some neighbour of `c` holds `v`. */
  ghost predicate Seen(g: Grid, b: Board, c: nat, v: nat)
    requires GridOk(g) && |b| == g.n && c < g.n
  {
    exists d :: 0 <= d < g.n && Adjacent(g, c, d) && b[d] == v
  }

  /** `full` fills every empty cell of `b`, keeps the rest, and no cell it filled equals a
      neighbour. */
  ghost predicate Completion(g: Grid, b: Board, full: Board)
    requires GridOk(g) && |b| == g.n
  {
    && BoardOk(g, full)
    && (forall c :: 0 <= c < g.n ==> full[c] != 0 && (b[c] != 0 ==> full[c] == b[c]))
    && (forall c :: 0 <= c < g.n && b[c] == 0 ==> !Seen(g, full, c, full[c]))
  }

  ghost predicate Completable(g: Grid, b: Board)
    requires GridOk(g) && |b| == g.n
  {
    exists full :: Completion(g, b, full)
  }

  /** No two neighbours hold the same value. */
  ghost predicate Consistent(g: Grid, b: Board)
    requires GridOk(g) && |b| == g.n
  {
    forall c :: 0 <= c < g.n && b[c] != 0 ==> !Seen(g, b, c, b[c])
  }

  /** From consistent givens the completions are the full boards that extend them and in
      which no two neighbours are equal. */
  lemma CompletionProper(g: Grid, b: Board, full: Board)
    requires GridOk(g) && BoardOk(g, b) && Consistent(g, b)
    ensures Completion(g, b, full) <==>
              && BoardOk(g, full)
              && (forall c :: 0 <= c < g.n ==> full[c] != 0 && (b[c] != 0 ==> full[c] == b[c]))
              && Consistent(g, full)
  {
    if Completion(g, b, full) {
      forall c | 0 <= c < g.n
        ensures !Seen(g, full, c, full[c])
      {
        forall d | 0 <= d < g.n && Adjacent(g, c, d)
          ensures full[d] != full[c]
        {
          if b[c] != 0 {
            if b[d] == 0 {
              assert !Seen(g, full, d, full[d]) && Adjacent(g, d, c);
            } else {
              assert !Seen(g, b, c, b[c]);
            }
          }
        }
      }
    }
  }

  /** From givens that clash no board is right, whatever a search returns. */
  lemma ClashStays(g: Grid, b: Board, full: Board)
    requires GridOk(g) && BoardOk(g, b) && !Consistent(g, b) && Completion(g, b, full)
    ensures !Consistent(g, full)
  {
    var c :| 0 <= c < g.n && b[c] != 0 && Seen(g, b, c, b[c]);
    var d :| 0 <= d < g.n && Adjacent(g, c, d) && b[d] == b[c];
    assert full[d] == full[c];
    assert Seen(g, full, c, full[c]);
  }

  // ------------------------------------------------------------------ one guess

  /** Filling `c` with `v` leaves the completions that put `v` there. */
  lemma GuessCompletions(g: Grid, b: Board, c: nat, v: nat, full: Board)
    requires GridOk(g) && BoardOk(g, b) && c < g.n && b[c] == 0 && 0 < v <= g.num && !Seen(g, b, c, v)
    ensures Completion(g, b[c := v], full) <==> Completion(g, b, full) && full[c] == v
  {
    var b' := b[c := v];
    if Completion(g, b', full) {
      forall d | 0 <= d < g.n && Adjacent(g, c, d)
        ensures full[d] != v
      {
        assert d != c;
        if b[d] == 0 {
          assert !Seen(g, full, d, full[d]) && Adjacent(g, d, c);
        }
      }
    }
  }

  /** A value seen next door is in no completion. */
  lemma SeenExcluded(g: Grid, b: Board, c: nat, v: nat, full: Board)
    requires GridOk(g) && BoardOk(g, b) && c < g.n && b[c] == 0 && v != 0 && Seen(g, b, c, v)
    requires Completion(g, b, full)
    ensures full[c] != v
  {
    var d :| 0 <= d < g.n && Adjacent(g, c, d) && b[d] == v;
    assert full[d] == v;
    assert full[c] == v ==> Seen(g, full, c, full[c]);
  }

  // ------------------------------------------------------------------ arity

  /** How many of the values 1 to `k` no neighbour of `c` holds. */
  ghost function FreeUpTo(g: Grid, b: Board, c: nat, k: nat): nat
    requires GridOk(g) && |b| == g.n && c < g.n
  {
    if k == 0 then 0 else FreeUpTo(g, b, c, k - 1) + if Seen(g, b, c, k) then 0 else 1
  }

  ghost function Arity(g: Grid, b: Board, c: nat): nat
    requires GridOk(g) && |b| == g.n && c < g.n
  {
    FreeUpTo(g, b, c, g.num)
  }

  /** Filling an empty cell takes its value from the neighbours that still had it. */
  lemma SeenAfter(g: Grid, b: Board, x: nat, v: nat, c: nat, w: nat)
    requires GridOk(g) && |b| == g.n && x < g.n && c < g.n && b[x] == 0 && v != 0 && w != 0
    ensures Seen(g, b[x := v], c, w) <==> Seen(g, b, c, w) || (w == v && Adjacent(g, c, x))
  {
    var b' := b[x := v];
    if Seen(g, b, c, w) {
      var d :| 0 <= d < g.n && Adjacent(g, c, d) && b[d] == w;
      assert b'[d] == w;
    }
    if w == v && Adjacent(g, c, x) {
      assert b'[x] == w;
    }
  }

  lemma {:induction false} ArityAfter(g: Grid, b: Board, x: nat, v: nat, c: nat, k: nat)
    requires GridOk(g) && |b| == g.n && x < g.n && c < g.n && b[x] == 0 && 0 < v
    ensures FreeUpTo(g, b[x := v], c, k)
         == FreeUpTo(g, b, c, k) - if v <= k && Adjacent(g, c, x) && !Seen(g, b, c, v) then 1 else 0
    decreases k
  {
    hide Seen, GridOk, Adjacent;
    if k > 0 {
      ArityAfter(g, b, x, v, c, k - 1);
      SeenAfter(g, b, x, v, c, k);
    }
  }

  // ------------------------------------------------------------------ the search

  /** `spaces` from `k` on lists the empty cells, each once. */
  ghost predicate SpacesOk(g: Grid, b: Board, spaces: seq<nat>, k: nat)
    requires |b| == g.n
  {
    && k <= |spaces|
    && (forall i :: 0 <= i < |spaces| ==> spaces[i] < g.n)
    && (forall i, j :: k <= i < j < |spaces| ==> spaces[i] != spaces[j])
    && (forall c :: 0 <= c < g.n ==> (b[c] == 0 <==> Listed(spaces, k, c)))
  }

  ghost predicate Listed(spaces: seq<nat>, k: nat, c: nat) {
    exists i :: k <= i < |spaces| && spaces[i] == c
  }

  /** Scans on from index `i` with `best` the choice so far; an arity of 1 or 0 ends it. */
  ghost function Scan(g: Grid, b: Board, spaces: seq<nat>, i: nat, best: nat): (r: nat)
    requires GridOk(g) && |b| == g.n && forall j :: 0 <= j < |spaces| ==> spaces[j] < g.n
    requires best < |spaces|
    ensures r < |spaces| && (r == best || i <= r)
    decreases |spaces| - i
  {
    if i >= |spaces| || Arity(g, b, spaces[best]) <= 1 then best
    else Scan(g, b, spaces, i + 1, if Arity(g, b, spaces[i]) < Arity(g, b, spaces[best]) then i else best)
  }

  ghost function MinSpace(g: Grid, b: Board, spaces: seq<nat>, k: nat): (r: nat)
    requires GridOk(g) && |b| == g.n && (forall j :: 0 <= j < |spaces| ==> spaces[j] < g.n) && k < |spaces|
    ensures k <= r < |spaces|
  {
    Scan(g, b, spaces, k + 1, k)
  }

  /** The chosen space comes first among those of least arity, unless an earlier arity of at
      most 1 already settled the choice. */
  lemma {:induction false} ScanLeast(g: Grid, b: Board, spaces: seq<nat>, k: nat, i: nat, best: nat)
    requires GridOk(g) && |b| == g.n && forall j :: 0 <= j < |spaces| ==> spaces[j] < g.n
    requires k <= best < i <= |spaces|
    requires forall j :: k <= j < best ==> Arity(g, b, spaces[j]) > Arity(g, b, spaces[best])
    requires forall j :: best <= j < i ==> Arity(g, b, spaces[j]) >= Arity(g, b, spaces[best])
    ensures var r := Scan(g, b, spaces, i, best);
            && k <= r < |spaces|
            && (forall j :: k <= j < r ==> Arity(g, b, spaces[j]) > Arity(g, b, spaces[r]))
            && (Arity(g, b, spaces[r]) <= 1
                || forall j :: k <= j < |spaces| ==> Arity(g, b, spaces[j]) >= Arity(g, b, spaces[r]))
    decreases |spaces| - i
  {
    hide Arity, GridOk;
    if i < |spaces| && Arity(g, b, spaces[best]) > 1 {
      ScanLeast(g, b, spaces, k, i + 1, if Arity(g, b, spaces[i]) < Arity(g, b, spaces[best]) then i else best);
    }
  }

  function Swapped(spaces: seq<nat>, i: nat, j: nat): seq<nat>
    requires i < |spaces| && j < |spaces|
  {
    spaces[i := spaces[j]][j := spaces[i]]
  }

  datatype Outcome = Outcome(ok: bool, board: Board, spaces: seq<nat>)

  ghost predicate Searchable(g: Grid, b: Board, spaces: seq<nat>) {
    GridOk(g) && BoardOk(g, b) && forall j :: 0 <= j < |spaces| ==> spaces[j] < g.n
  }

  /** What the minimum-arity search does from space `k` on: the answer, the board and the
      order it leaves the spaces in. */
  ghost function Search(g: Grid, b: Board, spaces: seq<nat>, k: nat): (r: Outcome)
    requires Searchable(g, b, spaces) && k <= |spaces|
    ensures Searchable(g, r.board, r.spaces) && |r.spaces| == |spaces|
    decreases |spaces| - k, g.num + 2
  {
    if k == |spaces| then Outcome(true, b, spaces)
    else
      var s := Swapped(spaces, k, MinSpace(g, b, spaces, k));
      Guess(g, b, s, k, s[k], 1)
  }

  /** Tries the values from `v` on in `cell`. */
  ghost function Guess(g: Grid, b: Board, spaces: seq<nat>, k: nat, cell: nat, v: nat): (r: Outcome)
    requires Searchable(g, b, spaces) && k < |spaces| && cell < g.n && 0 < v <= g.num + 1
    ensures Searchable(g, r.board, r.spaces) && |r.spaces| == |spaces|
    decreases |spaces| - k, g.num + 1 - v
  {
    if v > g.num then Outcome(false, b, spaces)
    else if Seen(g, b, cell, v) then Guess(g, b, spaces, k, cell, v + 1)
    else
      var r := Search(g, b[cell := v], spaces, k + 1);
      if r.ok then r else Guess(g, r.board[cell := 0], r.spaces, k, cell, v + 1)
  }

  // ------------------------------------------------------------------ the search is right

  /** Swapping two spaces not yet used keeps the list of empty cells. */
  lemma SwapKeeps(g: Grid, b: Board, spaces: seq<nat>, k: nat, r: nat)
    requires |b| == g.n && SpacesOk(g, b, spaces, k) && k <= r < |spaces|
    ensures SpacesOk(g, b, Swapped(spaces, k, r), k) && b[Swapped(spaces, k, r)[k]] == 0
    ensures Swapped(spaces, k, r)[..k] == spaces[..k]
  {
    var s := Swapped(spaces, k, r);
    forall c | 0 <= c < g.n
      ensures Listed(s, k, c) <==> Listed(spaces, k, c)
    {
      if Listed(spaces, k, c) {
        var i :| k <= i < |spaces| && spaces[i] == c;
        assert s[if i == k then r else if i == r then k else i] == c;
      }
      if Listed(s, k, c) {
        var i :| k <= i < |s| && s[i] == c;
        assert spaces[if i == k then r else if i == r then k else i] == c;
      }
    }
    assert Listed(s, k, s[k]);
  }

  /** Filling the cell at the head of the list leaves the rest of the list. */
  lemma FillKeeps(g: Grid, b: Board, spaces: seq<nat>, k: nat, v: nat)
    requires |b| == g.n && SpacesOk(g, b, spaces, k) && k < |spaces| && v != 0
    ensures SpacesOk(g, b[spaces[k] := v], spaces, k + 1)
  {
    var b' := b[spaces[k] := v];
    forall c | 0 <= c < g.n
      ensures b'[c] == 0 <==> Listed(spaces, k + 1, c)
    {
      assert b[c] == 0 <==> Listed(spaces, k, c);
      if Listed(spaces, k, c) && c != spaces[k] {
        var i :| k <= i < |spaces| && spaces[i] == c;
        assert k + 1 <= i;
      }
    }
  }

  lemma UnfillKeeps(g: Grid, b: Board, before: seq<nat>, spaces: seq<nat>, k: nat, v: nat)
    requires |b| == g.n && SpacesOk(g, b, before, k) && k < |before| && v != 0
    requires SpacesOk(g, b[before[k] := v], spaces, k + 1) && |spaces| == |before|
    requires spaces[..k + 1] == before[..k + 1]
    ensures SpacesOk(g, b, spaces, k) && spaces[k] == before[k] && spaces[..k] == before[..k]
  {
    var x, b' := before[k], b[before[k] := v];
    assert spaces[k] == spaces[..k + 1][k] == x;
    assert spaces[..k] == spaces[..k + 1][..k];
    forall c | 0 <= c < g.n
      ensures b[c] == 0 <==> Listed(spaces, k, c)
    {
      assert b'[c] == 0 <==> Listed(spaces, k + 1, c);
      if c == x {
        assert spaces[k] == x;
        assert Listed(before, k, x);
      } else if Listed(spaces, k, c) {
        var i :| k <= i < |spaces| && spaces[i] == c;
        assert k + 1 <= i;
      }
    }
    forall i, j | k <= i < j < |spaces|
      ensures spaces[i] != spaces[j]
    {
      if i == k {
        assert b'[x] != 0;
        assert Listed(spaces, k + 1, spaces[j]);
      }
    }
  }

  /** What a failed search leaves: the board as it was, and the spaces from `k` on still a
      list of the empty cells. */
  ghost predicate Unchanged(g: Grid, b: Board, spaces: seq<nat>, k: nat, r: Outcome)
    requires |b| == g.n && k <= |spaces|
  {
    && r.board == b && |r.spaces| == |spaces| && SpacesOk(g, b, r.spaces, k)
    && r.spaces[..k] == spaces[..k]
  }

  /** No completion puts `v` or more at `c`. */
  ghost predicate NoneFrom(g: Grid, b: Board, c: nat, v: nat)
    requires GridOk(g) && |b| == g.n && c < g.n
  {
    forall full :: Completion(g, b, full) ==> c < |full| && full[c] < v
  }

  /** The minimum-arity search is sound and complete: it finds a completion, or there is
      none and the board is as it was. */
  lemma {:induction false} SearchCorrect(g: Grid, b: Board, spaces: seq<nat>, k: nat)
    requires Searchable(g, b, spaces) && SpacesOk(g, b, spaces, k)
    ensures var r := Search(g, b, spaces, k);
            && (r.ok <==> Completable(g, b))
            && (r.ok ==> Completion(g, b, r.board))
            && (!r.ok ==> Unchanged(g, b, spaces, k, r))
    decreases |spaces| - k, g.num + 2
  {
    if k == |spaces| {
      NothingLeft(g, b, spaces, k);
    } else {
      var i := MinSpace(g, b, spaces, k);
      var s := Swapped(spaces, k, i);
      SwapKeeps(g, b, spaces, k, i);
      GuessCorrect(g, b, s, k, 1);
    }
  }

  lemma NothingLeft(g: Grid, b: Board, spaces: seq<nat>, k: nat)
    requires GridOk(g) && BoardOk(g, b) && SpacesOk(g, b, spaces, k) && k >= |spaces|
    ensures Completion(g, b, b)
  {
    forall c | 0 <= c < g.n
      ensures b[c] != 0
    {
      assert !Listed(spaces, k, c);
    }
  }

  lemma {:induction false} GuessCorrect(g: Grid, b: Board, spaces: seq<nat>, k: nat, v: nat)
    requires Searchable(g, b, spaces) && SpacesOk(g, b, spaces, k) && k < |spaces| && 0 < v <= g.num + 1
    requires b[spaces[k]] == 0
    ensures var r := Guess(g, b, spaces, k, spaces[k], v);
            && (r.ok ==> Completion(g, b, r.board))
            && (!r.ok ==> Unchanged(g, b, spaces, k, r) && NoneFrom(g, b, spaces[k], v))
    decreases |spaces| - k, g.num + 1 - v
  {
    hide Completion, Seen, SpacesOk, GridOk;
    var cell := spaces[k];
    CompletionInRange(g, b, cell);
    if v > g.num {
    } else if Seen(g, b, cell, v) {
      GuessCorrect(g, b, spaces, k, v + 1);
      forall full | Completion(g, b, full)
        ensures full[cell] != v
      {
        SeenExcluded(g, b, cell, v, full);
      }
    } else {
      var b' := b[cell := v];
      FillKeeps(g, b, spaces, k, v);
      SearchCorrect(g, b', spaces, k + 1);
      var r := Search(g, b', spaces, k + 1);
      if r.ok {
        GuessCompletions(g, b, cell, v, r.board);
      } else {
        UnfillKeeps(g, b, spaces, r.spaces, k, v);
        assert r.board[cell := 0] == b;
        forall full | Completion(g, b, full)
          ensures full[cell] != v
        {
          GuessCompletions(g, b, cell, v, full);
        }
        GuessCorrect(g, b, r.spaces, k, v + 1);
      }
    }
  }

  lemma CompletionInRange(g: Grid, b: Board, c: nat)
    requires GridOk(g) && BoardOk(g, b) && c < g.n
    ensures forall full :: Completion(g, b, full) ==> c < |full| && 0 < full[c] <= g.num
  {
  }

  // ------------------------------------------------------------------ which completion is found

  /** In the order of the cells listed from `k` on, `a` does not come after `full`. */
  ghost predicate NotAfter(a: Board, full: Board, cells: seq<nat>, k: nat)
    decreases |cells| - k
  {
    k < |cells| ==>
      && cells[k] < |a| && cells[k] < |full|
      && (a[cells[k]] < full[cells[k]] || (a[cells[k]] == full[cells[k]] && NotAfter(a, full, cells, k + 1)))
  }

  /** No completion of `b` comes before `a`. */
  ghost predicate FirstFound(g: Grid, b: Board, cells: seq<nat>, k: nat, a: Board)
    requires GridOk(g) && |b| == g.n
  {
    forall full :: Completion(g, b, full) ==> NotAfter(a, full, cells, k)
  }

  /** A completion found with `v` in the cell at `k`, when none has less there. */
  lemma FirstGuess(g: Grid, b: Board, cells: seq<nat>, k: nat, v: nat, a: Board, full: Board)
    requires GridOk(g) && BoardOk(g, b) && k < |cells| && cells[k] < g.n && b[cells[k]] == 0 && 0 < v <= g.num
    requires !Seen(g, b, cells[k], v) && Completion(g, b[cells[k] := v], a)
    requires FirstFound(g, b[cells[k] := v], cells, k + 1, a)
    requires Completion(g, b, full) && full[cells[k]] >= v
    ensures NotAfter(a, full, cells, k)
  {
    hide Completion, Seen, GridOk;
    GuessCompletions(g, b, cells[k], v, a);
    GuessCompletions(g, b, cells[k], v, full);
    CompletionInRange(g, b, cells[k]);
  }

  /** The completion found is the first one in the order in which the search filled the cells. */
  lemma {:induction false} SearchFirst(g: Grid, b: Board, spaces: seq<nat>, k: nat)
    requires Searchable(g, b, spaces) && SpacesOk(g, b, spaces, k)
    ensures var r := Search(g, b, spaces, k);
            r.ok ==> SpacesOk(g, b, r.spaces, k) && FirstFound(g, b, r.spaces, k, r.board)
    ensures Search(g, b, spaces, k).ok ==> Search(g, b, spaces, k).spaces[..k] == spaces[..k]
    decreases |spaces| - k, g.num + 2
  {
    hide Completion, Seen, GridOk;
    SearchStep(g, b, spaces, k);
    if k < |spaces| {
      var s := Swapped(spaces, k, MinSpace(g, b, spaces, k));
      SwapKeeps(g, b, spaces, k, MinSpace(g, b, spaces, k));
      GuessFirst(g, b, s, k, 1);
      CompletionInRange(g, b, s[k]);
      var r := Search(g, b, spaces, k);
      if r.ok {
        assert r.spaces[..k] == r.spaces[..k + 1][..k] && s[..k] == s[..k + 1][..k];
        assert r.spaces[k] == r.spaces[..k + 1][k];
      }
    }
  }

  lemma {:induction false} GuessFirst(g: Grid, b: Board, spaces: seq<nat>, k: nat, v: nat)
    requires Searchable(g, b, spaces) && SpacesOk(g, b, spaces, k) && k < |spaces| && 0 < v <= g.num + 1
    requires b[spaces[k]] == 0
    ensures var r := Guess(g, b, spaces, k, spaces[k], v);
            r.ok ==>
              && SpacesOk(g, b, r.spaces, k) && r.spaces[..k + 1] == spaces[..k + 1]
              && forall full :: Completion(g, b, full) && full[spaces[k]] >= v ==> NotAfter(r.board, full, r.spaces, k)
    decreases |spaces| - k, g.num + 1 - v
  {
    hide Completion, Seen, SpacesOk, GridOk, NotAfter;
    var cell := spaces[k];
    CompletionInRange(g, b, cell);
    if v <= g.num {
      GuessStep(g, b, spaces, k, v);
      if Seen(g, b, cell, v) {
        GuessFirst(g, b, spaces, k, v + 1);
        forall full | Completion(g, b, full)
          ensures full[cell] != v
        {
          SeenExcluded(g, b, cell, v, full);
        }
      } else {
        var b' := b[cell := v];
        var r := Search(g, b', spaces, k + 1);
        SearchCorrect(g, b', spaces, k + 1);
        if r.ok {
          SearchFirst(g, b', spaces, k + 1);
          UnfillKeeps(g, b, spaces, r.spaces, k, v);
          forall full | Completion(g, b, full) && full[cell] >= v
            ensures NotAfter(r.board, full, r.spaces, k)
          {
            FirstGuess(g, b, r.spaces, k, v, r.board, full);
          }
        } else {
          GuessFirst(g, b, r.spaces, k, v + 1);
          forall full | Completion(g, b, full)
            ensures full[cell] != v
          {
            GuessCompletions(g, b, cell, v, full);
          }
        }
      }
    }
  }

  // ------------------------------------------------------------------ the search, step by step

  lemma SearchStep(g: Grid, b: Board, spaces: seq<nat>, k: nat)
    requires GridOk(g) && BoardOk(g, b) && SpacesOk(g, b, spaces, k)
    ensures Searchable(g, b, spaces) && k <= |spaces|
    ensures k == |spaces| ==> Search(g, b, spaces, k) == Outcome(true, b, spaces)
    ensures k < |spaces| ==>
              var s := Swapped(spaces, k, MinSpace(g, b, spaces, k));
              && SpacesOk(g, b, s, k) && b[s[k]] == 0 && Searchable(g, b, s)
              && Search(g, b, spaces, k) == Guess(g, b, s, k, s[k], 1)
  {
    if k < |spaces| {
      SwapKeeps(g, b, spaces, k, MinSpace(g, b, spaces, k));
    }
  }

  lemma GuessStep(g: Grid, b: Board, spaces: seq<nat>, k: nat, v: nat)
    requires Searchable(g, b, spaces) && SpacesOk(g, b, spaces, k) && k < |spaces| && 0 < v <= g.num
    ensures var cell := spaces[k];
            && cell < g.n && b[cell] == 0
            && (Seen(g, b, cell, v) ==> Guess(g, b, spaces, k, cell, v) == Guess(g, b, spaces, k, cell, v + 1))
            && (!Seen(g, b, cell, v) ==>
                  var b' := b[cell := v];
                  && Searchable(g, b', spaces) && SpacesOk(g, b', spaces, k + 1)
                  && var r := Search(g, b', spaces, k + 1);
                  && (r.ok ==> Guess(g, b, spaces, k, cell, v) == r)
                  && (!r.ok ==>
                        && r.board == b' && |r.spaces| == |spaces| && r.spaces[k] == cell
                        && SpacesOk(g, b, r.spaces, k) && Searchable(g, b, r.spaces)
                        && Guess(g, b, spaces, k, cell, v) == Guess(g, b, r.spaces, k, cell, v + 1)))
  {
    hide Seen, GridOk, Completion, Completable;
    var cell := spaces[k];
    assert Listed(spaces, k, cell);
    if !Seen(g, b, cell, v) {
      var b' := b[cell := v];
      FillKeeps(g, b, spaces, k, v);
      SearchCorrect(g, b', spaces, k + 1);
      var r := Search(g, b', spaces, k + 1);
      if !r.ok {
        UnfillKeeps(g, b, spaces, r.spaces, k, v);
        assert b'[cell := 0] == b;
      }
    }
  }
}
