/** The backtracking solvers over the shared board: first cell first, least arity first, and
    least arity first with the arities cached. */
module SudokuSolver {
  import opened SudokuSpec

  class Solver {
    const g: Grid
    const board: array<nat>
    const spaces: array<nat>
    var nspaces: nat
    const occupied: array2<bool>
    const arity: array<int>

    ghost predicate Ready()
      reads `nspaces, board, spaces
    {
      && GridOk(g) && board.Length == g.n && BoardOk(g, board[..])
      && board != spaces && spaces.Length == g.n && nspaces <= g.n
      && occupied.Length0 == g.n && occupied.Length1 == g.num + 1 && arity.Length == g.n
    }

    /** The listed spaces from `k` on are the empty cells. */
    ghost predicate From(k: nat)
      reads `nspaces, board, spaces
    {
      Ready() && SpacesOk(g, board[..], spaces[..nspaces], k)
    }

    constructor (grid: Grid, givens: seq<nat>)
      requires GridOk(grid) && BoardOk(grid, givens)
      ensures g == grid && Ready() && board[..] == givens && nspaces == 0
      ensures fresh(board) && fresh(spaces) && fresh(occupied) && fresh(arity)
    {
      g := grid;
      board := new nat[grid.n](i requires 0 <= i < |givens| => givens[i]);
      spaces := new nat[grid.n](_ => 0);
      occupied := new bool[grid.n, grid.num + 1]((_, _) => false);
      arity := new int[grid.n](_ => 0);
      nspaces := 0;
    }

    /** Lists the empty cells in order. */
    method FindSpaces()
      requires Ready()
      modifies `nspaces, spaces
      ensures From(0) && board[..] == old(board[..])
      ensures forall i, j :: 0 <= i < j < nspaces ==> spaces[i] < spaces[j]
    {
      nspaces := 0;
      for cell := 0 to g.n
        invariant Ready() && nspaces <= cell && board[..] == old(board[..])
        invariant forall i :: 0 <= i < nspaces ==> spaces[i] < cell && board[spaces[i]] == 0
        invariant forall i, j :: 0 <= i < j < nspaces ==> spaces[i] < spaces[j]
        invariant forall c :: 0 <= c < cell && board[c] == 0 ==> Listed(spaces[..nspaces], 0, c)
      {
        ghost var was := spaces[..nspaces];
        if board[cell] == 0 {
          hide Listed, GridOk, BoardOk;
          spaces[nspaces] := cell;
          nspaces := nspaces + 1;
          assert spaces[..nspaces] == was + [cell];
          forall c | 0 <= c < cell + 1 && board[c] == 0
            ensures Listed(spaces[..nspaces], 0, c)
          {
            ListedMore(was, cell, c);
          }
        }
      }
    }

    static lemma ListedMore(s: seq<nat>, x: nat, c: nat)
      ensures Listed(s + [x], 0, c) <==> Listed(s, 0, c) || c == x
    {
      if Listed(s, 0, c) {
        var i :| 0 <= i < |s| && s[i] == c;
        assert (s + [x])[i] == c;
      }
      assert (s + [x])[|s|] == x;
    }

    /** A guess is available when no neighbour holds it. */
    method Available(guess: nat, cell: nat) returns (ok: bool)
      requires Ready() && cell < g.n
      ensures ok <==> !Seen(g, board[..], cell, guess)
    {
      var near := g.neighbors[cell];
      for i := 0 to |near|
        invariant forall j :: 0 <= j < i ==> board[near[j]] != guess
      {
        if board[near[i]] == guess {
          assert Adjacent(g, cell, near[i]);
          return false;
        }
      }
      ok := true;
      forall d | 0 <= d < g.n && Adjacent(g, cell, d)
        ensures board[d] != guess
      {
        var j :| 0 <= j < |near| && near[j] == d;
      }
    }

    /** Fills the spaces from `k` on in the order listed: finds the first completion in that order, or there is
        none and the board is as it was. */
    method SolveBasic(k: nat) returns (ok: bool)
      requires From(k)
      modifies board
      ensures Ready() && ok == Completable(g, old(board[..]))
      ensures ok ==> Completion(g, old(board[..]), board[..])
      ensures ok ==> FirstFound(g, old(board[..]), spaces[..nspaces], k, board[..])
      ensures !ok ==> board[..] == old(board[..])
      decreases nspaces - k
    {
      hide Completion, Seen, GridOk, SpacesOk, FirstFound;
      ghost var b := board[..];
      ghost var list := spaces[..nspaces];
      if k >= nspaces {
        NothingLeft(g, b, list, k);
        FirstTrivially(g, b, list, k);
        return true;
      }
      SpaceFacts(g, b, list, k);
      var cell := spaces[k];
      CompletionInRange(g, b, cell);
      for guess := 1 to g.num + 1
        invariant board[..] == b && NoneBelow(g, b, cell, guess)
      {
        var free := Available(guess, cell);
        if free {
          FillKeeps(g, b, list, k, guess);
          assert board[cell] == 0;
          board[cell] := guess;
          assert board[..] == b[cell := guess];
          GuessOnly(g, b, cell, guess);
          ok := SolveBasic(k + 1);
          if ok {
            FirstBelow(g, b, list, k, guess, board[..]);
            return true;
          }
          assert board[cell] == guess;
          board[cell] := 0;
          assert board[..] == b;
        } else {
          SeenOut(g, b, cell, guess);
        }
      }
      return false;
    }

    // ---------------------------------------------------------------- least arity first

    /** Marks the values next door in a table of its own and counts the others. */
    method ArityOf(cell: nat) returns (r: nat)
      requires Ready() && cell < g.n
      ensures r == Arity(g, board[..], cell)
    {
      var seen := new bool[g.num + 1](_ => false);
      var near := g.neighbors[cell];
      ghost var b := board[..];
      for i := 0 to |near|
        invariant forall v :: 0 <= v <= g.num ==> (seen[v] <==> exists j :: 0 <= j < i && b[near[j]] == v)
      {
        seen[board[near[i]]] := true;
      }
      forall v | 0 <= v <= g.num
        ensures seen[v] <==> Seen(g, b, cell, v)
      {
        SeenByIndex(g, b, cell, v);
      }
      r := 0;
      for v := 1 to g.num + 1
        invariant r == FreeUpTo(g, b, cell, v - 1)
      {
        if !seen[v] {
          r := r + 1;
        }
      }
    }

    /** Brings the space of least arity to the front of those not yet filled. */
    method FindMinArity(space: nat)
      requires Ready() && space < nspaces && Searchable(g, board[..], spaces[..nspaces])
      modifies spaces
      ensures Ready()
      ensures var was := old(spaces[..nspaces]);
              spaces[..nspaces] == Swapped(was, space, MinSpace(g, board[..], was, space))
    {
      hide Arity, GridOk;
      ghost var b, list := board[..], spaces[..nspaces];
      var minSpace := space;
      var minArity := ArityOf(spaces[space]);
      var sp := space + 1;
      while sp < nspaces && minArity > 1
        invariant Ready() && spaces[..nspaces] == list
        invariant space < sp <= nspaces && space <= minSpace < nspaces
        invariant minArity == Arity(g, b, list[minSpace])
        invariant MinSpace(g, b, list, space) == Scan(g, b, list, sp, minSpace)
        decreases nspaces - sp
      {
        assert spaces[sp] == list[sp];
        var curArity := ArityOf(spaces[sp]);
        if curArity < minArity {
          minArity := curArity;
          minSpace := sp;
        }
        sp := sp + 1;
      }
      if space != minSpace {
        spaces[minSpace], spaces[space] := spaces[space], spaces[minSpace];
      }
    }

    /** Fills the spaces from `k` on, always one of least arity next: exactly what the
        search function says, board, order of spaces and answer. */
    method SolveMinArity(k: nat) returns (ok: bool)
      requires From(k)
      modifies board, spaces
      ensures Ready() && Searchable(g, old(board[..]), old(spaces[..nspaces]))
      ensures Search(g, old(board[..]), old(spaces[..nspaces]), k) == Outcome(ok, board[..], spaces[..nspaces])
      decreases nspaces - k, 0
    {
      hide Seen, GridOk, SpacesOk, MinSpace, Search, Guess;
      ghost var b, list := board[..], spaces[..nspaces];
      SearchStep(g, b, list, k);
      if k >= nspaces {
        return true;
      }
      FindMinArity(k);
      var cell := spaces[k];
      for guess := 1 to g.num + 1
        invariant Ready() && board[..] == b && SpacesOk(g, b, spaces[..nspaces], k) && spaces[k] == cell
        invariant Searchable(g, b, spaces[..nspaces])
        invariant Search(g, b, list, k) == Guess(g, b, spaces[..nspaces], k, cell, guess)
      {
        GuessStep(g, b, spaces[..nspaces], k, guess);
        var free := Available(guess, cell);
        if free {
          board[cell] := guess;
          assert board[..] == b[cell := guess];
          ok := SolveMinArity(k + 1);
          if ok {
            return true;
          }
          board[cell] := 0;
          assert board[..] == b;
        }
      }
      GuessOver(g, b, spaces[..nspaces], k, cell);
      return false;
    }

    // ---------------------------------------------------------------- with the cache

    /** `occupied` shows the values seen next door or held by the cell itself. */
    ghost predicate OccupiedFor(b: Board)
      requires Ready() && |b| == g.n
      reads `nspaces, board, spaces, occupied
    {
      forall c, v :: 0 <= c < g.n && 0 < v <= g.num ==> (occupied[c, v] <==> Seen(g, b, c, v) || b[c] == v)
    }

    /** `arity` is the number of free values of each empty cell. */
    ghost predicate ArityFor(b: Board)
      requires Ready() && |b| == g.n
      reads `nspaces, board, spaces, arity
    {
      forall c :: 0 <= c < g.n && b[c] == 0 ==> arity[c] == Arity(g, b, c)
    }

    /** Takes the value of a filled cell from its neighbours, and tells which lost it. */
    method Spread(cell: nat, v: nat, ghost b: Board) returns (modified: seq<nat>)
      requires Ready() && |b| == g.n && cell < g.n && b[cell] == 0 && 0 < v <= g.num
      requires OccupiedFor(b)
      modifies occupied, arity
      ensures Lost(g, b, cell, v, modified) && OccupiedFor(b[cell := v])
      ensures forall c :: 0 <= c < g.n ==> arity[c] == old(arity[c]) - if c in modified then 1 else 0
    {
      assert |g.neighbors| == g.n;
      hide Seen, GridOk, BoardOk;
      occupied[cell, v] := true;
      modified := [];
      var near := g.neighbors[cell];
      for i := 0 to |near|
        invariant forall j, k :: 0 <= j < k < |modified| ==> modified[j] != modified[k]
        invariant forall c :: c in modified <==> c in near[..i] && c < g.n && !Seen(g, b, c, v) && b[c] != v
        invariant forall c, w :: 0 <= c < g.n && 0 < w <= g.num ==>
                    (occupied[c, w] <==> Seen(g, b, c, w) || b[c] == w || (w == v && (c == cell || c in near[..i])))
        invariant forall c :: 0 <= c < g.n ==> arity[c] == old(arity[c]) - if c in modified then 1 else 0
      {
        var neighbor := near[i];
        NeighborInRange(g, cell, i);
        assert near[..i + 1] == near[..i] + [neighbor];
        if !occupied[neighbor, v] {
          occupied[neighbor, v] := true;
          arity[neighbor] := arity[neighbor] - 1;
          modified := modified + [neighbor];
        }
      }
      assert near[..|near|] == near;
      forall c, w | 0 <= c < g.n && 0 < w <= g.num
        ensures occupied[c, w] <==> Seen(g, b[cell := v], c, w) || b[cell := v][c] == w
      {
        SeenAfter(g, b, cell, v, c, w);
        Mutual(g, cell, c);
      }
    }

    /** Gives the value back to the neighbours that had lost it. */
    method Unspread(cell: nat, v: nat, modified: seq<nat>, ghost b: Board)
      requires Ready() && |b| == g.n && cell < g.n && b[cell] == 0 && 0 < v <= g.num
      requires Lost(g, b, cell, v, modified) && OccupiedFor(b[cell := v]) && !Seen(g, b, cell, v)
      modifies occupied, arity
      ensures OccupiedFor(b)
      ensures forall c :: 0 <= c < g.n ==> arity[c] == old(arity[c]) + if c in modified then 1 else 0
    {
      ghost var b' := b[cell := v];
      hide Seen, GridOk, BoardOk, Lost;
      LostInRange(g, b, cell, v, modified);
      forall c, w | 0 <= c < g.n && 0 < w <= g.num
        ensures occupied[c, w] <==> Seen(g, b, c, w) || b[c] == w || (w == v && (c == cell || c in modified))
      {
        SeenAfter(g, b, cell, v, c, w);
        Mutual(g, cell, c);
        LostAre(g, b, cell, v, modified, c);
      }
      occupied[cell, v] := false;
      for i := 0 to |modified|
        invariant forall c, w :: 0 <= c < g.n && 0 < w <= g.num ==>
                    (occupied[c, w] <==> Seen(g, b, c, w) || b[c] == w || (w == v && c in modified[i..]))
        invariant forall c :: 0 <= c < g.n ==> arity[c] == old(arity[c]) + if c in modified[..i] then 1 else 0
      {
        var neighbor := modified[i];
        LostAre(g, b, cell, v, modified, neighbor);
        LostOnce(g, b, cell, v, modified, i);
        assert modified[i..] == [neighbor] + modified[i + 1..];
        assert modified[..i + 1] == modified[..i] + [neighbor];
        occupied[neighbor, v] := false;
        arity[neighbor] := arity[neighbor] + 1;
      }
      assert modified[..|modified|] == modified;
    }

    /** Fills the cache from the board, one given at a time. */
    method InitCache()
      requires Ready()
      modifies occupied, arity
      ensures OccupiedFor(board[..]) && ArityFor(board[..])
    {
      forall c, v | 0 <= c < g.n && 0 <= v <= g.num {
        occupied[c, v] := false;
      }
      forall c | 0 <= c < g.n {
        arity[c] := g.num;
      }
      ghost var b := seq(g.n, _ => 0);
      EmptyBoard(g, b);
      for cell := 0 to g.n
        invariant |b| == g.n && forall c :: 0 <= c < g.n ==> b[c] == if c < cell then board[c] else 0
        invariant OccupiedFor(b) && ArityFor(b)
      {
        occupied[cell, 0] := true;
        var val := board[cell];
        if val > 0 {
          var modified := Spread(cell, val, b);
          forall c | 0 <= c < g.n && b[cell := val][c] == 0
            ensures arity[c] == Arity(g, b[cell := val], c)
          {
            ArityFollows(g, b, cell, val, modified, c);
          }
          b := b[cell := val];
        }
      }
      assert b == board[..];
    }

    /** The same choice of space, read off the cache. */
    method FindMinArityCached(space: nat)
      requires From(space) && space < nspaces && ArityFor(board[..])
      modifies spaces
      ensures Ready() && Searchable(g, board[..], old(spaces[..nspaces]))
      ensures var was := old(spaces[..nspaces]);
              spaces[..nspaces] == Swapped(was, space, MinSpace(g, board[..], was, space))
    {
      hide Arity, GridOk, SpacesOk;
      ghost var b, list := board[..], spaces[..nspaces];
      SpacesInRange(g, b, list, space);
      CachedArity(b, list, space, space);
      var cell := spaces[space];
      var minSpace := space;
      var minArity := arity[cell];
      var sp := space + 1;
      while sp < nspaces && minArity > 1
        invariant Ready() && spaces[..nspaces] == list
        invariant space < sp <= nspaces && space <= minSpace < nspaces
        invariant minArity == Arity(g, b, list[minSpace])
        invariant MinSpace(g, b, list, space) == Scan(g, b, list, sp, minSpace)
        decreases nspaces - sp
      {
        CachedArity(b, list, space, sp);
        assert spaces[sp] == list[sp];
        var curArity := arity[spaces[sp]];
        if curArity < minArity {
          minArity := curArity;
          minSpace := sp;
        }
        sp := sp + 1;
      }
      if space != minSpace {
        spaces[minSpace], spaces[space] := spaces[space], spaces[minSpace];
      }
    }

    lemma CachedArity(b: Board, list: seq<nat>, k: nat, i: nat)
      requires Ready() && |b| == g.n && SpacesOk(g, b, list, k) && k <= i < |list| && ArityFor(b)
      ensures list[i] < g.n && arity[list[i]] == Arity(g, b, list[i])
    {
      assert Listed(list, k, list[i]);
    }

    /** The cached search makes the very choices of the uncached one: same answer, same
        board, same order of spaces. When it fails, cache and board are as they were. */
    method SolveMinArityCache(k: nat) returns (ok: bool)
      requires From(k) && OccupiedFor(board[..]) && ArityFor(board[..])
      modifies board, spaces, occupied, arity
      ensures Ready() && Searchable(g, old(board[..]), old(spaces[..nspaces]))
      ensures Search(g, old(board[..]), old(spaces[..nspaces]), k) == Outcome(ok, board[..], spaces[..nspaces])
      ensures !ok ==> OccupiedFor(board[..]) && arity[..] == old(arity[..])
      decreases nspaces - k, 0
    {
      hide Seen, GridOk, SpacesOk, MinSpace, Search, Guess, Lost, Arity;
      ghost var b, list := board[..], spaces[..nspaces];
      SearchStep(g, b, list, k);
      if k >= nspaces {
        return true;
      }
      FindMinArityCached(k);
      var cell := spaces[k];
      ghost var cached := arity[..];
      for guess := 1 to g.num + 1
        invariant Ready() && board[..] == b && SpacesOk(g, b, spaces[..nspaces], k) && spaces[k] == cell
        invariant Searchable(g, b, spaces[..nspaces])
        invariant Search(g, b, list, k) == Guess(g, b, spaces[..nspaces], k, cell, guess)
        invariant OccupiedFor(b) && ArityFor(b) && arity[..] == cached
      {
        GuessStep(g, b, spaces[..nspaces], k, guess);
        if !occupied[cell, guess] {
          board[cell] := guess;
          assert board[..] == b[cell := guess];
          var modified := Spread(cell, guess, b);
          ArityLowered(cell, guess, b, cached, modified);
          ghost var lowered := arity[..];
          ok := SolveMinArityCache(k + 1);
          if ok {
            return true;
          }
          board[cell] := 0;
          assert board[..] == b;
          Unspread(cell, guess, modified, b);
          Restored(cached, lowered, arity[..], modified);
        }
      }
      GuessOver(g, b, spaces[..nspaces], k, cell);
      return false;
    }

    lemma ArityLowered(cell: nat, v: nat, b: Board, cached: seq<int>, modified: seq<nat>)
      requires Ready() && |b| == g.n && cell < g.n && b[cell] == 0 && 0 < v <= g.num && Lost(g, b, cell, v, modified)
      requires |cached| == g.n
      requires forall c :: 0 <= c < g.n && b[c] == 0 ==> cached[c] == Arity(g, b, c)
      requires forall c :: 0 <= c < g.n ==> arity[c] == cached[c] - if c in modified then 1 else 0
      ensures ArityFor(b[cell := v])
    {
      hide Lost, GridOk, Arity;
      forall c | 0 <= c < g.n && b[cell := v][c] == 0
        ensures arity[c] == Arity(g, b[cell := v], c)
      {
        ArityFollows(g, b, cell, v, modified, c);
      }
    }
  }

  lemma GuessOver(g: Grid, b: Board, spaces: seq<nat>, k: nat, cell: nat)
    requires Searchable(g, b, spaces) && k < |spaces| && cell < g.n
    ensures Guess(g, b, spaces, k, cell, g.num + 1) == Outcome(false, b, spaces)
  {
  }

  lemma Restored(before: seq<int>, lowered: seq<int>, after: seq<int>, modified: seq<nat>)
    requires |before| == |lowered| == |after|
    requires forall c :: 0 <= c < |before| ==> lowered[c] == before[c] - if c in modified then 1 else 0
    requires forall c :: 0 <= c < |before| ==> after[c] == lowered[c] + if c in modified then 1 else 0
    ensures after == before
  {
  }

  lemma EmptyBoard(g: Grid, b: Board)
    requires GridOk(g) && |b| == g.n && forall c :: 0 <= c < g.n ==> b[c] == 0
    ensures forall c, v :: 0 <= c < g.n && 0 < v ==> !Seen(g, b, c, v)
    ensures forall c :: 0 <= c < g.n ==> Arity(g, b, c) == g.num
  {
    forall c | 0 <= c < g.n
      ensures Arity(g, b, c) == g.num
    {
      AllFree(g, b, c, g.num);
    }
  }

  lemma {:induction false} AllFree(g: Grid, b: Board, c: nat, k: nat)
    requires GridOk(g) && |b| == g.n && c < g.n && forall v :: 0 < v ==> !Seen(g, b, c, v)
    ensures FreeUpTo(g, b, c, k) == k
    decreases k
  {
    if k > 0 {
      AllFree(g, b, c, k - 1);
    }
  }

  lemma ArityFollows(g: Grid, b: Board, cell: nat, v: nat, modified: seq<nat>, c: nat)
    requires GridOk(g) && |b| == g.n && cell < g.n && b[cell] == 0 && 0 < v <= g.num
    requires Lost(g, b, cell, v, modified) && c < g.n && b[c] == 0
    ensures Arity(g, b[cell := v], c) == Arity(g, b, c) - if c in modified then 1 else 0
  {
    LostAre(g, b, cell, v, modified, c);
    ArityAfter(g, b, cell, v, c, g.num);
  }

  /** Cell `c` is next to `cell` and could still take `v`. */
  ghost predicate LosesValue(g: Grid, b: Board, cell: nat, v: nat, c: nat)
    requires GridOk(g) && |b| == g.n && cell < g.n
  {
    c < g.n && Adjacent(g, cell, c) && !Seen(g, b, c, v) && b[c] != v
  }

  /** `modified` are the cells that lose `v` when `cell` takes it, each once. */
  ghost predicate Lost(g: Grid, b: Board, cell: nat, v: nat, modified: seq<nat>)
    requires GridOk(g) && |b| == g.n && cell < g.n
  {
    && (forall i, j :: 0 <= i < j < |modified| ==> modified[i] != modified[j])
    && (forall c :: c in modified <==> LosesValue(g, b, cell, v, c))
  }

  lemma LostInRange(g: Grid, b: Board, cell: nat, v: nat, modified: seq<nat>)
    requires GridOk(g) && |b| == g.n && cell < g.n && Lost(g, b, cell, v, modified)
    ensures forall c :: c in modified ==> c < g.n && c != cell
  {
    assert !Adjacent(g, cell, cell);
  }

  lemma LostAre(g: Grid, b: Board, cell: nat, v: nat, modified: seq<nat>, c: nat)
    requires GridOk(g) && |b| == g.n && cell < g.n && Lost(g, b, cell, v, modified)
    ensures c in modified <==> LosesValue(g, b, cell, v, c)
  {
  }

  lemma LostOnce(g: Grid, b: Board, cell: nat, v: nat, modified: seq<nat>, i: nat)
    requires GridOk(g) && |b| == g.n && cell < g.n && Lost(g, b, cell, v, modified) && i < |modified|
    ensures modified[i] !in modified[..i] && modified[i] !in modified[i + 1..]
  {
  }

  lemma NeighborInRange(g: Grid, c: nat, i: nat)
    requires GridOk(g) && c < g.n && i < |g.neighbors[c]|
    ensures g.neighbors[c][i] < g.n && g.neighbors[c][i] != c
  {
    assert !Adjacent(g, c, c);
  }

  lemma Mutual(g: Grid, c: nat, d: nat)
    requires GridOk(g) && c < g.n && d < g.n
    ensures Adjacent(g, c, d) <==> d in g.neighbors[c]
    ensures Adjacent(g, c, d) <==> Adjacent(g, d, c)
  {
  }

  lemma SpacesInRange(g: Grid, b: Board, spaces: seq<nat>, k: nat)
    requires GridOk(g) && BoardOk(g, b) && SpacesOk(g, b, spaces, k)
    ensures Searchable(g, b, spaces) && k <= |spaces|
  {
  }

  lemma SeenByIndex(g: Grid, b: Board, c: nat, v: nat)
    requires GridOk(g) && |b| == g.n && c < g.n
    ensures Seen(g, b, c, v) <==> exists j :: 0 <= j < |g.neighbors[c]| && b[g.neighbors[c][j]] == v
  {
    var near := g.neighbors[c];
    if Seen(g, b, c, v) {
      var d :| 0 <= d < g.n && Adjacent(g, c, d) && b[d] == v;
      var j :| 0 <= j < |near| && near[j] == d;
      assert b[near[j]] == v;
    }
    if j :| 0 <= j < |near| && b[near[j]] == v {
      assert Adjacent(g, c, near[j]);
    }
  }

  /** No completion puts a value below `v` at `c`. */
  ghost predicate NoneBelow(g: Grid, b: Board, c: nat, v: nat)
    requires GridOk(g) && |b| == g.n && c < g.n
  {
    forall full :: Completion(g, b, full) ==> c < |full| && v <= full[c] <= g.num
  }

  lemma SpaceFacts(g: Grid, b: Board, spaces: seq<nat>, k: nat)
    requires |b| == g.n && SpacesOk(g, b, spaces, k) && k < |spaces|
    ensures spaces[k] < g.n && b[spaces[k]] == 0
  {
    assert Listed(spaces, k, spaces[k]);
  }

  lemma GuessOnly(g: Grid, b: Board, c: nat, v: nat)
    requires GridOk(g) && BoardOk(g, b) && c < g.n && b[c] == 0 && 0 < v <= g.num && !Seen(g, b, c, v)
    ensures forall full :: Completion(g, b[c := v], full) <==> Completion(g, b, full) && c < |full| && full[c] == v
  {
    forall full
      ensures Completion(g, b[c := v], full) <==> Completion(g, b, full) && c < |full| && full[c] == v
    {
      if Completion(g, b, full) || Completion(g, b[c := v], full) {
        GuessCompletions(g, b, c, v, full);
      }
    }
  }

  lemma FirstTrivially(g: Grid, b: Board, cells: seq<nat>, k: nat)
    requires GridOk(g) && |b| == g.n && k >= |cells|
    ensures FirstFound(g, b, cells, k, b)
  {
  }

  lemma FirstBelow(g: Grid, b: Board, cells: seq<nat>, k: nat, v: nat, a: Board)
    requires GridOk(g) && BoardOk(g, b) && k < |cells| && cells[k] < g.n && b[cells[k]] == 0 && 0 < v <= g.num
    requires !Seen(g, b, cells[k], v) && Completion(g, b[cells[k] := v], a)
    requires FirstFound(g, b[cells[k] := v], cells, k + 1, a) && NoneBelow(g, b, cells[k], v)
    ensures FirstFound(g, b, cells, k, a)
  {
    hide Completion, Seen, GridOk;
    CompletionInRange(g, b, cells[k]);
    forall full | Completion(g, b, full)
      ensures NotAfter(a, full, cells, k)
    {
      FirstGuess(g, b, cells, k, v, a, full);
    }
  }

  lemma SeenOut(g: Grid, b: Board, c: nat, v: nat)
    requires GridOk(g) && BoardOk(g, b) && c < g.n && b[c] == 0 && v != 0 && Seen(g, b, c, v)
    ensures forall full :: Completion(g, b, full) ==> c < |full| && full[c] != v
  {
    forall full | Completion(g, b, full)
      ensures c < |full| && full[c] != v
    {
      SeenExcluded(g, b, c, v, full);
    }
  }
}
