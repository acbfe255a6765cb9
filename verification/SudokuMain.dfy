/** One puzzle from input to final check, by any of the four solvers. */
module SudokuMain {
  import opened SudokuSpec
  import opened SudokuGrid
  import opened SudokuSolver
  import opened SudokuCover
  import opened SudokuDance

  datatype Which = Basic | MinArity | MinArityCache | DancingLinks

  /** From consistent givens all solvers look for the same boards. */
  lemma SameQuestion(g: Grid, b: Board, full: Board)
    requires NineByNine(g) && BoardOk(g, b) && Consistent(g, b)
    ensures Completion(g, b, full) <==> Answer(g, b, full)
  {
    CompletionProper(g, b, full);
  }

  /** From givens that clash dancing links finds nothing. */
  lemma ClashNoAnswer(g: Grid, b: Board, full: Board)
    requires NineByNine(g) && BoardOk(g, b) && !Consistent(g, b)
    ensures !Answer(g, b, full)
  {
    if Answer(g, b, full) {
      forall c | 0 <= c < CELLS && b[c] == 0
        ensures !Seen(g, full, c, full[c])
      {
      }
      ClashStays(g, b, full);
    }
  }

  /** Reads a puzzle, solves it and checks the board. From consistent givens every solver
      gives the same answer, which is right, and a board it accepts passes the check. From
      givens that clash the backtracking solvers still say whether the empty cells can be
      filled, and their boards fail the check. */
  method SolvePuzzle(givens: seq<nat>, which: Which) returns (ok: bool, passed: bool, ghost g: Grid, board: seq<nat>)
    requires |givens| == CELLS && forall c :: 0 <= c < CELLS ==> givens[c] <= NUM
    ensures NineByNine(g) && BoardOk(g, givens) && |board| == CELLS
    ensures which != DancingLinks ==> ok == Completable(g, givens)
    ensures which == DancingLinks ==> ok == (Consistent(g, givens) && Completable(g, givens))
    ensures ok ==> Completion(g, givens, board)
    ensures !ok ==> board == givens
    ensures passed <==> ok && Consistent(g, givens)
  {
    hide Completion, Consistent, Answer, SpacesOk, Search;
    var grid := InitNeighbors();
    g := grid;
    var s := new Solver(grid, givens);
    s.FindSpaces();
    ghost var list := s.spaces[..s.nspaces];
    SpacesInRange(g, givens, list, 0);
    s.InitCache();
    SearchCorrect(g, givens, list, 0);
    match which {
      case Basic => ok := s.SolveBasic(0);
      case MinArity => ok := s.SolveMinArity(0);
      case MinArityCache => ok := s.SolveMinArityCache(0);
      case DancingLinks => ok := SolveDancingLinks(g, s.board);
    }
    board := s.board[..];
    Judge(g, givens, board, which == DancingLinks, ok);
    passed := false;
    if ok {
      passed := Solved(grid, s.board);
    }
  }

  /** What a solver's result means for the final check. */
  lemma Judge(g: Grid, b: Board, board: Board, dancing: bool, ok: bool)
    requires NineByNine(g) && BoardOk(g, b) && |board| == CELLS
    requires !dancing ==> ok == Completable(g, b)
    requires !dancing && ok ==> Completion(g, b, board)
    requires dancing ==> ok == exists full :: Answer(g, b, full)
    requires dancing && ok ==> Answer(g, b, board)
    ensures Consistent(g, b) ==> ok == Completable(g, b)
    ensures ok ==> Completion(g, b, board) && (Consistent(g, b) <==> Consistent(g, board))
    ensures !Consistent(g, b) && ok ==> !dancing && !Consistent(g, board)
    ensures ok ==> forall c :: 0 <= c < CELLS ==> 1 <= board[c] <= NUM
  {
    forall full
      ensures Consistent(g, b) ==> (Completion(g, b, full) <==> Answer(g, b, full))
      ensures !Consistent(g, b) ==> !Answer(g, b, full)
    {
      if Consistent(g, b) {
        SameQuestion(g, b, full);
      } else {
        ClashNoAnswer(g, b, full);
      }
    }
    if ok && !Consistent(g, b) {
      ClashStays(g, b, board);
    }
  }

  /** 81 ones clash, and yet nothing is left to fill: the backtracking solvers say true and the check fails. */
  lemma ClashAccepted(g: Grid)
    requires NineByNine(g)
    ensures var ones := seq(CELLS, _ => 1);
            BoardOk(g, ones) && Completion(g, ones, ones) && Completable(g, ones) && !Consistent(g, ones)
  {
    var ones: Board := seq(CELLS, _ => 1);
    assert Completion(g, ones, ones);
    assert NearCell(0, 1);
    assert Adjacent(g, 0, 1) && ones[0] == ones[1] == 1;
    assert Seen(g, ones, 0, 1);
  }
}
