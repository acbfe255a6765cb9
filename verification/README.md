# Verified models of the recipes

The repository is a collection of small programs around data structures, puzzles, numbers, dates, text pipelines and
threads. This project models its hardest ones and proves what they are for. Loops, arrays, node pools, linked nodes and
objects stay what they are in the sources; each is tied to a specification on values, and the lemmas beside it say what
that specification means.

* **Exact cover.** `LinkPool`, `MatrixBuild` and `DancingLinks` hold the pool of doubly linked nodes as arrays that
  `Cover` and `Uncover` rewrite in place. `ExactCover` says what a cover is. `QueensCover` and `QueenSolver` read
  n-queens as a cover problem; `QueensSearch` and `QueensMask` are the boolean-array and the bit-mask search, and all
  three count the same set, `Queens.Placements`. `WordBits` has the facts about words the masks need.
* **Sudoku.** `SudokuSpec` is the search over any symmetric and irreflexive neighbour relation and any number of values;
  `SudokuSolver` has the basic, the least-arity and the cached solver; `SudokuGrid` is the 9x9 grid with its final
  check; `SudokuCover` and `SudokuDance` are the puzzle as exact cover; `SudokuMain` puts the four side by side.
* **Huffman coding.** `CodeLengths` and `PrefixCodes` have the theory of code lengths, `HuffmanTree` and `HuffmanForest`
  the trees and the merging, `HuffmanCoding` the class.
* **Euler trails.** `EulerTrails` says what a trail and a cover of a multigraph are; `Hierholzer` is the undirected class.
* **Big numbers.** `Limbs`, `Numerals` and `UnsignedIntegers` are the class of 32-bit limbs and its numerals;
  `ExactDecimal`, `Fibonacci`, `NumHeaps` and `HeapCount` are what is computed with it.
* **Word counting.** `WordCounts` says what a frequency list is; `WordFreqSort` and `WordFreqShards` are the two
  pipelines on files larger than memory, and the in-memory version.
* **Threads.** `LogProtocol` and `QueueProtocol` are machines of atomic steps with theorems over every run;
  `AsyncLogging` and `BoundedQueue` are the classes, each critical section proved to be a step of the machine. The test
  before the wait of the logging thread is as in the source: it waits when buffers are queued.
* **Others.** `ShortestPaths` and `Floyd`, `Calendar` and `UtcTime`, `SearchTrees` and `BinarySearchTree`, `RadixSort`,
  `SegmentTree`, `InternetChecksum`, and the service registry in `RegistryKeys`, `Registry` and `RegistryRuns`.

`Powers`, `Ints`, `Sequences`, `Sets` and `Options` hold what several modules share.

## Where the code does not keep its promise

Each of these is stated for all inputs by the member named, as an exact condition wherever the input decides it.

* The mirrored bit-mask count of n-queens is 0 for a board of width 1 (`QueensMask.BacktrackingMirrored`).
* From givens that clash, the backtracking solvers say true whenever the empty cells can be filled, with a board that
  fails the final check, 81 ones for one; dancing links says false (`SudokuMain.SolvePuzzle`, `SudokuMain.ClashAccepted`).
* Decoding gives a text back only if it had two different characters and no null character, which marks inner nodes
  (`HuffmanCoding.RoundTrip`). Without these, some string of bits follows a null pointer (`HuffmanCoding.DecodeAny`);
  the model returns `None` there.
* Adding 0 to the empty number, and parsing zeros, leaves one zero limb (`UnsignedInt.AddWord`, `DecPrintParse`), which
  subtracted from the empty number aborts, since the sizes are compared first (`UnsignedInt.Sub`).
* A double is read as the number it stands for exactly if it is positive and normal (`ExactDecimal.DoubleExact`): the
  sign is dropped, infinities and NaN are read as numbers (`ExactDecimal.SomeDoubles`), and a subnormal or zero gets a
  leading bit it does not have, as a comment in the source admits for subnormals.
* A log message as long as a buffer is dropped without notice (`LogProtocol.AppendAccepted`, `LogProtocol.RunDelivers`),
  and what is pending when the log is stopped is written only by a thread that was past its loop test and still to take
  over (`LogProtocol.StopComplete`, `LogProtocol.StopLoses`, `LogProtocol.StopKeeps`).
* The least `int` in an array breaks the radix sort (`RadixSort.StepsFitSortable`, `RadixSort.LeastElement`), and the
  least exponent with an odd mantissa breaks the exact decimal (`ExactDecimal.PlacesFit`).
* With edges, no vertex of odd degree and some vertex without edges, as `FindEulerCircuit` leaves behind on an unknown
  start, `FindEulerPath` may start at that vertex and say false (`Hierholzer.StartsAlways`, `Hierholzer.LoneVertex`).
* A queue of capacity 0 deadlocks (`QueueProtocol.DeadlockOnlyEmpty`).
* The calendar formulas fail before 1 March -4800 (`Calendar.DateRoundTrip`), the week day before day number -1
  (`UtcTime.WeekDayRight`).
* A service name with a bar or an address with a colon keeps the clean-up of the registry from removing the server
  (`RegistryRuns.SilentServerGoes`). With a colon it forgets the heartbeat only, or ends with an exception, depending on
  what follows (`RegistryRuns.ColonAddress`, `RegistryKeys.SixthVersion`).

## What callers must see to

An empty segment tree must not be asked for a range from below 0 up to 0 or more. The Euler searches start with all
flags unvisited, and `FindEulerPath` with at least one vertex. `FasterFibonacci` needs N below 2^30, where its scan bit
would overflow (`Fibonacci.ScanFits`). `Floyd` needs a zero diagonal, no negative cycle and, for walks of at most 2n
vertices, sums within `int` and below the infinity value. `RadixSort` needs elements above the least `int` and values
and differences below 10^9, where the next power of ten still fits. `Float` needs an exponent above the least `int` or
an even mantissa. The checksum holds up to 32768 words, where its sum still fits (`InternetChecksum.WordsFit`). The
queen counters take at most as many queens as their constants say: 16 for the boolean arrays, 20 for the masks and for
dancing links. Words and numbers in files are those the file formats allow: no empty words and positive counts.

## Model

| member | source | states |
|---|---|---|
| ExactCover.CoversDone | puzzle/nqueens_dl.cc:71-74 | when every primary column is gone the empty set of rows is the only cover left: the base case of the search counts exactly one |
| ExactCover.ChooseRow | puzzle/nqueens_dl.cc:77-81 | choosing a row leaves exactly as many covers as there are for the columns the row does not touch (a bijection) |
| ExactCover.AddBranch | puzzle/nqueens_dl.cc:77-85 | the covers through the rows of one column are disjoint, so the counts of the branches add up |
| ExactCover.BranchesExhaust | puzzle/nqueens_dl.cc:75-86 | every cover uses one of the rows that still offer the chosen column: no cover is missed |
| LinkPool.UnlinkOne | puzzle/nqueens_dl.cc:162-164 | one node taken out of its vertical ring leaves rings and sizes of the rest right, and relinking it restores every link |
| LinkPool.UnlinkMany | puzzle/nqueens_dl.cc:160-166 | unlinking any number of linked nodes leaves exactly the rings of the others |
| LinkPool.UndoLast | puzzle/nqueens_dl.cc:171-177 | in reverse order each relinking restores the links before the unlinking, however many came before |
| LinkPool.CoverKeeps | puzzle/nqueens_dl.cc:156-167 | covering a column keeps the invariant of the search: headers listed are the uncovered primary columns, vertical rings hold exactly the open rows, sizes are their lengths |
| LinkPool.RowCoverable | puzzle/nqueens_dl.cc:78-80 | once a column is covered the other columns of any of its rows can be covered one after the other, and then exactly the columns of that row are gone |
| LinkPool.RootAlone | puzzle/nqueens_dl.cc:71 | the root is alone in its ring exactly when every primary column is covered; secondary columns never hold up the search |
| LinkPool.BranchAdds | puzzle/nqueens_dl.cc:77-85 | trying the next row of the column adds the covers that go on from it, no cover twice |
| LinkPool.BranchesDone | puzzle/nqueens_dl.cc:77-86 | after the last row of the column all covers of the node are counted |
| DancingLinks.Dance.constructor | puzzle/nqueens_dl.cc:29-34 | the pool starts with the root alone, no columns and count 0 |
| DancingLinks.Dance.AppendColumn | puzzle/nqueens_dl.cc:112-119 | a primary column joins the header ring at its end; the pool then holds the matrix with one more primary column |
| DancingLinks.Dance.OptionalColumn | puzzle/nqueens_dl.cc:46-51 | a secondary column gets a header outside the header ring |
| DancingLinks.Dance.NewRow | puzzle/nqueens_dl.cc:121-137 | a node joins the bottom of its column as a row of its own |
| DancingLinks.Dance.JoinRow | puzzle/nqueens_dl.cc:182-188 | a lone node becomes the last of the ring of another row |
| DancingLinks.Dance.AddChoice | puzzle/nqueens_dl.cc:58-64 | four nodes become one row of the cover problem with exactly the four named columns; older rows keep theirs |
| MatrixBuild.RowJoined | puzzle/nqueens_dl.cc:62-64 | joining a lone node to a row that misses its column keeps the links and the matrix in agreement |
| MatrixBuild.JoinedWellFormed | puzzle/nqueens_dl.cc:62-64 | after the join every node lists its row mates once each, and a row meets a column at most once |
| MatrixBuild.RowFinished | puzzle/nqueens_dl.cc:58-64 | the finished nodes are one more row of the problem, with the given columns, and no other row changed |
| DancingLinks.Dance.GetMinColumn | puzzle/nqueens_dl.cc:139-154 | the column found is an uncovered primary one: the first of least size, or the first met with at most one row left |
| DancingLinks.Dance.Cover | puzzle/nqueens_dl.cc:156-167 | the in-place cover leaves the pool of the covered column |
| DancingLinks.Dance.Uncover | puzzle/nqueens_dl.cc:169-180 | uncover restores every link and every size that the matching cover changed |
| DancingLinks.Dance.CoverRow | puzzle/nqueens_dl.cc:78-80 | walking right through a row covers all its other columns |
| DancingLinks.Dance.UncoverRow | puzzle/nqueens_dl.cc:82-84 | walking left through the row uncovers them in reverse and restores the pool |
| DancingLinks.Dance.Solve | puzzle/nqueens_dl.cc:69-87 | the search ends with every link and size as it found them and adds exactly the number of exact covers (primary columns once, secondary at most once) |
| DancingLinks.Dance.SolveFirst | sudoku/sudoku_dancing_links.cc:196-234 | returns true exactly if a cover exists, with the rows of one cover on the stack; on false the pool and the stack are as before |
| QueensCover.SquaresClash | puzzle/nqueens_dl.cc:54-66 | two squares share a column of the cover exactly when queens there attack each other |
| QueensCover.PlacementCovers | puzzle/nqueens_dl.cc:37-66 | every placement of n peaceful queens is an exact cover |
| QueensCover.CoverPlaces | puzzle/nqueens_dl.cc:37-66 | every exact cover is such a placement |
| QueensCover.CoversArePlacements | puzzle/nqueens_dl.cc:37-66 | the covers are as many as the placements |
| QueenSolver.BuildColumns | puzzle/nqueens_dl.cc:37-52 | the 6n columns are laid out, the first 2n of them primary |
| QueenSolver.BuildRows | puzzle/nqueens_dl.cc:54-66 | the matrix built encodes the n-queens problem |
| QueenSolver.PoolSuffices | puzzle/nqueens_dl.cc:22-24 | the fixed pool of nodes is never exhausted for at most 20 queens |
| QueenSolver.CountQueens | puzzle/nqueens_dl.cc:29-89 | for every n up to 20 the count is the number of n-queens placements |
| Queens.EveryLineHit | puzzle/nqueens.cc:53-98 | a full peaceful board is a permutation: every line holds a queen |
| QueensSearch.NextPeaceful | puzzle/nqueens.cc:70-89 | the three flags of a square decide whether one more queen keeps the peace |
| QueensSearch.BackTracking.Search | puzzle/nqueens.cc:70-89 | the search restores all flags and adds the number of placements that extend the queens set so far |
| QueensSearch.Backtracking | puzzle/nqueens.cc:92-97 | the boolean-array count is the number of placements |
| WordBits.BitClearLow | puzzle/nqueens_opt_mt.cc:38-46 | clearing the lowest set bit of a word leaves exactly the other bits |
| QueensMask.AttackedNext | puzzle/nqueens_opt_mt.cc:41-46 | the masks shifted by one row are again exactly the attacked columns of the next row |
| QueensMask.AvailableIsFree | puzzle/nqueens_opt_mt.cc:33-37 | a bit is available exactly when the column is on the board and not attacked |
| QueensMask.RemainingNext | puzzle/nqueens_opt_mt.cc:38-48 | the lowest available bit is the next free column; the columns skipped lead nowhere |
| QueensMask.BackTracking.Search | puzzle/nqueens_opt_mt.cc:33-49 | the bit-mask search adds the number of placements that extend the queens set, and nothing past the last row |
| QueensMask.BacktrackingSub | puzzle/nqueens_opt_mt.cc:55-63 | the search below a first queen counts the placements that begin with it; on a board of width 1 it counts none |
| QueensMask.MirrorDoubles | puzzle/nqueens_opt_mt.cc:65-76 | twice the placements with the first queen in the left half, and once those in the middle, are all placements |
| QueensMask.BacktrackingMirrored | puzzle/nqueens_opt_mt.cc:65-76 | the mirrored count is the number of placements exactly when n is not 1, where it is 0 |
| QueensMask.OneQueen | puzzle/nqueens_opt_mt.cc:65-76 | on the board of width 1 there is one placement |
| SudokuSpec.SearchCorrect | sudoku/sudoku_min_arity.cc:36-62 | the least-arity search is sound and complete: true with a completion, or false with board and listed cells restored and no completion |
| SudokuSpec.SearchFirst | sudoku/sudoku_min_arity.cc:36-62 | the completion found is the first one in the order in which the search filled the cells |
| SudokuSpec.ScanLeast | sudoku/sudoku_min_arity.cc:17-34 | the scan finds the first cell of least arity, or stops early at one of arity at most 1 |
| SudokuSpec.ArityAfter | sudoku/sudoku_min_arity_cache.cc:70-80 | putting a value in a cell lowers the arity of exactly those neighbours that could still take it |
| SudokuSpec.CompletionProper | sudoku/neighbor.cc:78-123 | from consistent givens a completion is a full board that extends them and holds no two equal neighbours |
| SudokuSpec.ClashStays | sudoku/neighbor.cc:78-123 | from inconsistent givens no completion passes the final check |
| SudokuSolver.Solver.FindSpaces | sudoku/sudoku_basic.cc:13-20 | lists the empty cells, each once, in order |
| SudokuSolver.Solver.Available | sudoku/sudoku_basic.cc:31-40 | a guess is available exactly when no neighbour holds it |
| SudokuSolver.Solver.SolveBasic | sudoku/sudoku_basic.cc:42-68 | true exactly if the board can be completed, and then by the first completion in the order of the cells listed; on false the board is restored |
| SudokuSolver.Solver.ArityOf | sudoku/sudoku_min_arity.cc:7-15 | counts the values no neighbour holds |
| SudokuSolver.Solver.FindMinArity | sudoku/sudoku_min_arity.cc:17-34 | swaps the cell of least arity to the front of the listed cells |
| SudokuSolver.Solver.SolveMinArity | sudoku/sudoku_min_arity.cc:36-62 | answer, board and order of the listed cells are those of the search function |
| SudokuSolver.Solver.InitCache | sudoku/sudoku_min_arity_cache.cc:30-48 | the cache agrees with recomputing from the neighbours |
| SudokuSolver.Solver.Spread | sudoku/sudoku_min_arity_cache.cc:64-80 | the cache agrees with the board after the guess, and the list holds exactly the neighbours whose arity fell |
| SudokuSolver.Solver.Unspread | sudoku/sudoku_min_arity_cache.cc:84-93 | undoing a guess restores the cache of the board before it |
| SudokuSolver.Solver.FindMinArityCached | sudoku/sudoku_min_arity_cache.cc:11-28 | the cached arities lead to the same cell and the same swap as the computed ones |
| SudokuSolver.Solver.SolveMinArityCache | sudoku/sudoku_min_arity_cache.cc:50-98 | the cached solver gives the same answer, board and order of cells as the uncached one, step for step, and leaves the cache as it was on failure |
| SudokuSolver.ArityFollows | sudoku/sudoku_min_arity_cache.cc:70-80 | the arity of an empty cell after a guess is the cached one, less one if it is on the list |
| SudokuGrid.MarkAdjacent | sudoku/neighbor.cc:11-28 | marks exactly the row, the column and the box of a cell |
| SudokuGrid.TwentyNeighbors | sudoku/neighbor.cc:30-42 | every cell has exactly 20 neighbours |
| SudokuGrid.CollectNeighbors | sudoku/neighbor.cc:30-42 | lists those 20 cells, without the cell itself, in increasing order |
| SudokuGrid.InitNeighbors | sudoku/neighbor.cc:61-76 | the neighbour relation is symmetric and irreflexive and is that of the 9x9 grid |
| SudokuGrid.UnitsAreNear | sudoku/neighbor.cc:11-28 | two neighbours lie in a common row, column or box |
| SudokuGrid.UnitIsNear | sudoku/neighbor.cc:11-28 | two different cells of a unit are neighbours |
| SudokuGrid.OnesMeanDistinct | sudoku/neighbor.cc:78-123 | nine values that each occur once are nine different values |
| SudokuGrid.CheckUnit | sudoku/neighbor.cc:83-121 | counting a unit finds out whether its nine values differ |
| SudokuGrid.Solved | sudoku/neighbor.cc:78-123 | a full board passes the final check exactly when no two neighbours are equal |
| SudokuCover.AnswerCovers | sudoku/sudoku_dancing_links.cc:93-151 | a full board that answers the givens is an exact cover of the wanted cells and values |
| SudokuCover.CoverAnswers | sudoku/sudoku_dancing_links.cc:196-234 | a cover written into the givens is an answer |
| SudokuCover.NamesMeet | sudoku/sudoku_dancing_links.cc:78-91 | two choices share a column exactly when they are for one cell or put one value twice in a unit |
| SudokuDance.MarkUsed | sudoku/sudoku_dancing_links.cc:93-116 | the three tables say exactly which values the givens of each row, column and box hold |
| SudokuDance.BuildSudoku | sudoku/sudoku_dancing_links.cc:93-151 | the matrix built encodes the puzzle |
| SudokuDance.ReadChoice | sudoku/sudoku_dancing_links.cc:198-219 | the nodes of a row give back the cell and the value of the choice, whichever node comes first |
| SudokuDance.SolveDancingLinks | sudoku/sudoku_dancing_links.cc:255-259 | true exactly if an answer to the givens exists, with the board an answer; on false the board is unchanged |
| SudokuMain.SolvePuzzle | sudoku/main.cc:16-57 | the backtracking solvers say true exactly if the empty cells can be filled, dancing links exactly if the givens are consistent as well; the board extends the givens, and passes the final check exactly if the givens are consistent |
| SudokuMain.ClashAccepted | sudoku/main.cc:41-45 | 81 ones clash and are completable, so the backtracking solvers accept them and the check fails |
| CodeLengths.TwoDeepest | datastruct/huffman_coding.cpp:52-61 | lengths that satisfy the Kraft inequality can be shortened unless two are greatest |
| CodeLengths.Exchange | datastruct/huffman_coding.cpp:52-61 | giving the longer code to the lighter weight costs no more |
| CodeLengths.MergeLightest | datastruct/huffman_coding.cpp:52-61 | any affordable lengths cost at least as much as lengths for the list with its two lightest weights merged, plus their sum: the greedy step |
| PrefixCodes.KraftInequality | datastruct/huffman_coding.cpp:67-78 | the lengths of any prefix-free set of codes satisfy the Kraft inequality |
| HuffmanTree.TreeRoom | datastruct/huffman_coding.cpp:67-78 | the leaf depths of every tree satisfy it as well |
| HuffmanTree.TablePrefixFree | datastruct/huffman_coding.cpp:67-78 | no code of the table is a prefix of another |
| HuffmanTree.DecodeEncoded | datastruct/huffman_coding.cpp:106-136 | decoding the codes of a text from the root gives back its characters that have codes |
| HuffmanTree.DecodeAsBits | datastruct/huffman_coding.cpp:121-125 | every character but 0 is decoded as 1 |
| HuffmanForest.ReduceStep | datastruct/huffman_coding.cpp:52-61 | each round of the loop is one greedy merge of the weights at the roots |
| HuffmanForest.LastTree | datastruct/huffman_coding.cpp:52-63 | the last tree has the least weighted path length that any affordable lengths reach |
| HuffmanCoding.HuffmanCoding.BuildFrequencyMap | datastruct/huffman_coding.cpp:29-34 | the map counts every character of the text |
| HuffmanCoding.HuffmanCoding.Pop | datastruct/huffman_coding.cpp:53-54 | some tree of least frequency leaves the queue and the others stay |
| HuffmanCoding.HuffmanCoding.BuildHuffmanTree | datastruct/huffman_coding.cpp:37-64 | the tree has a leaf for each entry of the map and is optimal, and no left subtree is heavier than the right one beside it; an empty map gives the null tree |
| HuffmanCoding.HuffmanCoding.GenerateCodes | datastruct/huffman_coding.cpp:67-78 | the codes stored are the paths to the marked leaves |
| HuffmanCoding.HuffmanCoding.Build | datastruct/huffman_coding.cpp:96-103 | an empty text changes nothing; any other leaves an optimal tree of its frequencies with its table of codes |
| HuffmanCoding.HuffmanCoding.Encode | datastruct/huffman_coding.cpp:106-112 | the codes in order; looking up an unknown character stores the empty code for it |
| HuffmanCoding.HuffmanCoding.Decode | datastruct/huffman_coding.cpp:115-136 | the walk through the tree; a step below a leaf is a null pointer and gives None |
| HuffmanCoding.DecodeAfterEncode | datastruct/huffman_coding.cpp:106-136 | what decoding an encoded string gives, for every string and every tree built |
| HuffmanCoding.RoundTrip | datastruct/huffman_coding.cpp:106-136 | it is the string itself exactly if the string is empty, or the text had two different characters and the string uses only its characters other than the null character |
| HuffmanCoding.DecodeAny | datastruct/huffman_coding.cpp:115-136 | every string of bits can be decoded exactly if the text has two different characters and none is the null character |
| HuffmanCoding.StuckAtMark | datastruct/huffman_coding.cpp:121-132 | a null character in the text gives a string of bits that leads to a null pointer |
| HuffmanCoding.ZeroLighter | datastruct/huffman_coding.cpp:52-78 | of two characters whose codes differ in the last bit only, the one with 0 is not the more frequent one |
| HuffmanCoding.EncodedText | datastruct/huffman_coding.cpp:106-112 | the encoded text is as long as the inner frequencies add up to |
| HuffmanCoding.OptimalCode | datastruct/huffman_coding.cpp:37-78 | no prefix-free code whatsoever encodes the text in fewer bits |
| HuffmanCoding.OptimalTree | datastruct/huffman_coding.cpp:37-64 | no tree with the same leaf frequencies has a smaller weighted path length |
| HuffmanCoding.FrequencyBound | datastruct/huffman_coding.cpp:52-61 | the frequency at the root is the length of the text |
| EulerTrails.TrailParity | datastruct/hierholzer.cpp:34-65 | a trail meets every vertex an even number of times, but for its two different ends |
| EulerTrails.TrailNecessary | datastruct/hierholzer.cpp:74-127 | a trail that covers all edges fixes the parities of all degrees and makes every edge reachable from its start |
| Hierholzer.UndirectedEulerian.AddEdge | datastruct/hierholzer.cpp:68-71 | adds one edge, in both lists, loops included, and keeps the graph undirected |
| Hierholzer.UndirectedEulerian.TakeEdge | datastruct/hierholzer.cpp:43-55 | takes one unvisited edge and its entry on the other side, or finds none left at the vertex |
| Hierholzer.SearchPush | datastruct/hierholzer.cpp:43-56 | pushing the vertex across an unvisited edge keeps the search invariant |
| Hierholzer.SearchPop | datastruct/hierholzer.cpp:57-64 | a vertex without unvisited edges is where the walk must be stuck, so popping it lengthens the trail at its front |
| Hierholzer.UndirectedEulerian.Hierholzer | datastruct/hierholzer.cpp:34-65 | the loop ends, having walked exactly the edges it marked, as one trail from the start when read backwards |
| Hierholzer.UndirectedEulerian.CountEdges | datastruct/hierholzer.cpp:87-92 | half the entries of all lists |
| Hierholzer.UndirectedEulerian.FindEulerCircuit | datastruct/hierholzer.cpp:74-95 | true exactly if a circuit through every edge once exists, exactly if all degrees are even and all edges reachable; the reversed path is then such a circuit; an unknown start with all degrees even leaves an empty list behind |
| Hierholzer.UndirectedEulerian.OddVertices | datastruct/hierholzer.cpp:101-107 | the vertices of odd degree |
| Hierholzer.StartNeeds | datastruct/hierholzer.cpp:114 | all edges can be reached only from a vertex with an edge, and given a covering trail from every such vertex |
| Hierholzer.UndirectedEulerian.FindEulerPath | datastruct/hierholzer.cpp:98-127 | true exactly if a trail through every edge once exists between any vertices and the search starts at a vertex with an edge, as it does if some degree is odd or no list is empty; exactly if at most two vertices are odd and all edges reachable from the start; the reversed path is then such a trail |
| Hierholzer.StartsAlways | datastruct/hierholzer.cpp:109-114 | every vertex the search may start at has an edge, unless there are none, exactly if some degree is odd, or no vertex has an empty list, or there are no edges |
| Hierholzer.LoneVertex | datastruct/hierholzer.cpp:109-114 | a loop at one vertex beside a vertex without edges: there is a covering trail, but the search may start at the empty vertex |
| Hierholzer.CoversUses | datastruct/hierholzer.cpp:34-65 | covering the graph means going between any two vertices as often as edges were added between them |
| Limbs.NormalUnique | basic/uint.h:30 | a number has one normal form |
| Limbs.LessThanValue | basic/uint.h:31-40 | on normal numbers the comparison is that of the values |
| UnsignedIntegers.UnsignedInt.constructor | basic/uint.h:17-23 | a word as a normal number |
| UnsignedIntegers.UnsignedInt.Assign | basic/uint.h:44-55 | the number becomes the word, in normal form |
| UnsignedIntegers.UnsignedInt.AddWord | basic/uint.h:57-80 | adds the word; normal form is kept exactly unless 0 is added to the empty number |
| UnsignedIntegers.UnsignedInt.Add | basic/uint.h:82-110 | adds the value, also of the object itself, and keeps normal form |
| UnsignedIntegers.UnsignedInt.Sub | basic/uint.cc:10-44 | goes through exactly if the number is at least the other one and has no fewer limbs, for normal numbers exactly if it is at least the other one, also the object itself; the difference is normal |
| UnsignedIntegers.UnsignedInt.MultiplyWord | basic/uint.h:114-133 | multiplies by the word and keeps normal form |
| UnsignedIntegers.UnsignedInt.Multiply | basic/uint.h:135-162 | multiplies by the value, also of the object itself, and keeps normal form |
| UnsignedIntegers.UnsignedInt.AddRow | basic/uint.h:146-157 | one row of the product, with the carry put above it |
| UnsignedIntegers.ProductTop | basic/uint.h:158-161 | one pop of the top limb is enough after a multiplication |
| UnsignedIntegers.ProductFits | basic/uint.h:120-128 | products with both carries never exceed 64 bits, and two shifts by 16 bits are the division by the base |
| UnsignedIntegers.UnsignedInt.Devide | basic/uint.h:165-181 | quotient and remainder of a normal number or a single zero limb, the quotient normal |
| UnsignedIntegers.QuotientTop | basic/uint.h:176-180 | one pop is enough after a division |
| UnsignedIntegers.UnsignedInt.Power | basic/uint.h:184-205 | the power of any number, by repeated squaring, 0 to the 0 being 1, normal if the number was |
| Numerals.CanonicalNumeral | basic/uint.cc:82-117 | a digit string without needless zeros is the numeral of its value |
| Numerals.NumeralValue | basic/uint.cc:82-117 | the numeral of a number is such a string and stands for the number |
| Numerals.DigitValues | basic/uint.cc:136-145 | the values 0 to 15 are those of the digits in order, letters in either case; any other character has the largest word |
| Numerals.LowerValue | basic/uint.cc:136-145 | the case of letters does not change the value of a string |
| Numerals.DecimalSpace | basic/uint.cc:92-93 | 9n + 7n/11 + 1 digits are enough for n limbs |
| Numerals.LimbSpace | basic/uint.cc:185-188 | 1 + 8d/77 limbs are enough for d digits |
| UnsignedIntegers.UnsignedInt.ToDec | basic/uint.cc:82-117 | prints the decimal numeral within the space reserved |
| UnsignedIntegers.UnsignedInt.ToHex | basic/uint.cc:46-80 | prints digits of the value, without leading zeros for normal numbers |
| UnsignedIntegers.UnsignedInt.ParseSegment | basic/uint.cc:171-180 | reads up to nine digits without overflow |
| UnsignedIntegers.UnsignedInt.ParseDec | basic/uint.cc:182-203 | digits are read as the number they stand for, within the space reserved; the result is normal, or a single zero limb |
| UnsignedIntegers.UnsignedInt.ParseHex | basic/uint.cc:147-162 | hexadecimal digits are read as the number they stand for |
| UnsignedIntegers.ShiftLeftValue | basic/uint.cc:155-160 | shifting a word left by k bits multiplies it by 2 to the k |
| UnsignedIntegers.OrDisjoint | basic/uint.cc:155-160 | or-ing in bits above those of a word adds them |
| UnsignedIntegers.DecPrintParse | basic/uint.cc:82-117 | parsing a printed normal number gives the same limbs exactly if it is not zero |
| UnsignedIntegers.DecParsePrint | basic/uint.cc:182-203 | printing a parsed string of digits gives the string back exactly if it is not empty and has no needless leading zero |
| UnsignedIntegers.HexPrintParse | basic/uint.cc:46-80 | parsing a printed normal number in hexadecimal gives the same limbs for every number, zero included |
| UnsignedIntegers.HexParsePrint | basic/uint.cc:147-162 | exactly the canonical lower-case strings are printed back |
| UnsignedIntegers.HexParseLower | basic/uint.cc:147-162 | a parsed string is printed back in lower case exactly if it is not empty and has no needless leading zero |
| ExactDecimal.StrippedParts | basic/exact.cc:93-97 | dropping trailing zero bits keeps the number and leaves an odd mantissa or no places |
| ExactDecimal.Float.Integer | basic/exact.cc:47-73 | the numeral of the whole part |
| ExactDecimal.Float.Fraction | basic/exact.cc:87-113 | the digits behind the point and the number of zeros in front of them |
| ExactDecimal.ExactValue | basic/exact.cc:17-113 | whole part and fraction together are exactly the mantissa times its power of two |
| ExactDecimal.LastDigit | basic/exact.cc:87-113 | the fraction is the digit 0 or does not end in 0 |
| ExactDecimal.PlacesFit | basic/exact.cc:93-98 | the number of binary places fits in an int exactly unless the mantissa is odd and the exponent the least int |
| ExactDecimal.Float.Decimal | basic/exact.cc:17-25 | with that one exception the decimal stands for exactly the mantissa times its power of two, zero included, without a needless 0 at the end |
| ExactDecimal.FromFields | basic/exact.cc:39-43 | the leading bit is put in for every exponent field |
| ExactDecimal.FromDouble | basic/exact.cc:27-37 | the fields of a 64-bit double are taken without its sign; the result is the number the double stands for exactly if it is positive and normal |
| ExactDecimal.DoubleExact | basic/exact.cc:27-43 | leading bit and fields stand for the number of the double exactly if its sign is 0 and its exponent field neither 0 nor 2047 |
| ExactDecimal.SomeDoubles | basic/exact.cc:27-43 | -1.5 is read as 1.5, and infinity as a power of two |
| Fibonacci.FibAdd | basic/fibonacci.cc:26-85 | the addition formula of Fibonacci numbers |
| Fibonacci.DoubleFib | basic/fibonacci.cc:26-85 | the doubling formulas |
| Fibonacci.Square | basic/fibonacci.cc:47-58 | squaring the matrix doubles the index |
| Fibonacci.Advance | basic/fibonacci.cc:60-80 | multiplying two matrix powers adds their indices |
| Fibonacci.FastFibonacci | basic/fibonacci.cc:26-85 | matrix power prints the N-th Fibonacci number, for every N |
| Fibonacci.FasterFibonacci | basic/fibonacci.cc:87-133 | the scan of the bits from the top prints it, for N below 2^30 |
| Fibonacci.ScanFits | basic/fibonacci.cc:100-103 | the bits the scan shifts through fit in an int exactly for N below 2^30 |
| Fibonacci.FibTable.Calc | basic/fibonacci.cc:164-190 | every entry of the memo, old and new, is the Fibonacci number of its key |
| Fibonacci.FastestFibonacci | basic/fibonacci.cc:196-200 | the memoised doubling prints the same number |
| Fibonacci.FibonacciIterator.Next | basic/fibonacci.cc:205-219 | the iterator stands at the next number |
| Fibonacci.LinearFibonacci | basic/fibonacci.cc:221-232 | the linear iterator prints the same number |
| NumHeaps.ChooseStep | basic/numheaps.cc:18-30 | every division of the loop is exact |
| NumHeaps.ChooseFactorials | basic/numheaps.cc:12-33 | binomial coefficients in terms of factorials |
| NumHeaps.Combination | basic/numheaps.cc:12-33 | the loop computes the binomial coefficient, mirrored or not |
| NumHeaps.HookFormula | basic/numheaps.cc:35-52 | the number of heaps times the product of all subtree sizes is the factorial |
| NumHeaps.HeapTable.NumHeaps | basic/numheaps.cc:35-52 | the memo holds right entries only, keeps them, and the result is the number of heaps |
| HeapCount.LeftSizeSlots | basic/numheaps.cc:43-46 | the size of the left subtree computed from the logarithm is the number of array slots below slot 1 |
| HeapCount.SubsetsCount | basic/numheaps.cc:47-50 | the subsets of a size are as many as the binomial coefficient says |
| HeapCount.HeapsSound | basic/numheaps.cc:35-52 | every tree enumerated is a heap of that shape on the given keys |
| HeapCount.HeapsComplete | basic/numheaps.cc:35-52 | every heap is enumerated |
| HeapCount.HeapsCount | basic/numheaps.cc:35-52 | so the computed number is the number of heaps on any n different keys |
| WordCounts.SameUpToTies | topk/word_freq.cc:9-34 | two frequency lists of one text hold the same records, with equal counts at equal places: they differ in the order of ties only |
| WordFreqSort.ReadChunk | topk/word_freq_sort.cc:43-70 | a chunk of the input is counted exactly; it ends at the first word that makes the different words more than the limit, or with the file |
| WordFreqSort.WriteSegment | topk/word_freq_sort.cc:60-70 | a segment lists the words of the chunk once each in increasing order |
| WordFreqSort.Input | topk/word_freq_sort.cc:38-76 | the segments together hold every occurrence of every word; each is sorted and, but for one a file, holds one word more than the limit |
| WordFreqSort.Output | topk/word_freq_sort.cc:116-136 | a file lists its words once each, by falling count |
| WordFreqSort.Combine | topk/word_freq_sort.cc:138-200 | merging the segments word by word leaves every word in one place of one file, with its total; every file but the last holds one word more than the limit |
| WordFreqSort.Merge | topk/word_freq_sort.cc:247-283 | the heap merge keeps all records and puts them in non-increasing order |
| WordFreqSort.SortWords | topk/word_freq_sort.cc:285-290 | for every input and both size limits the result lists every word exactly once with its true count, in non-increasing order |
| WordFreqShards.Sharder.Output | topk/word_freq_shards.cc:44-48 | a record goes to the bucket of its hash; no other weight changes |
| WordFreqShards.Shard | topk/word_freq_shards.cc:54-85 | the buckets hold every occurrence of every word, whatever the limit |
| WordFreqShards.ReadShard | topk/word_freq_shards.cc:87-114 | the map of a bucket holds its words with their totals |
| WordFreqShards.SortShards | topk/word_freq_shards.cc:116-141 | each bucket becomes a file of its totals by falling count and word |
| WordFreqShards.ShardsFlat | topk/word_freq_shards.cc:188-223 | no word is in two files, and no weight is lost |
| WordFreqShards.ShardWords | topk/word_freq_shards.cc:225-231 | for every input, limit, number of buckets and hash function the result is a frequency list of the text |
| WordFreqShards.CountInMemory | topk/word_freq.cc:9-34 | so is the list of the in-memory version |
| LogProtocol.NextInv | logging/AsyncLoggingDoubleBuffering.h:55-165 | every step of a writer, of stop or of the logging thread, whose loop test and lock are steps of their own, keeps: accepted text is dealt with, in hand, queued or current, in order; a missing spare buffer means a queued one |
| LogProtocol.RunInv | logging/AsyncLoggingDoubleBuffering.h:55-165 | so it holds at every moment of every interleaving |
| LogProtocol.RunSafe | logging/AsyncLoggingDoubleBuffering.h:95-165 | no assertion of the thread ever fails, and as long as no batch exceeds 25 buffers the file followed by what is pending is all accepted text in order |
| LogProtocol.RoundWrites | logging/AsyncLoggingDoubleBuffering.h:128-165 | what a round adds to the file, whatever writers do meanwhile: of more than 25 buffers the text "Dropped log messages" and the last two, otherwise all of them in order |
| LogProtocol.StopComplete | logging/AsyncLoggingDoubleBuffering.h:86-167 | a stopped log, with no append after the stop and no batch too big, is complete exactly if at the stop the thread was waiting, or past the test of its loop and not yet holding the lock, or nothing was queued or current |
| LogProtocol.StopLoses | logging/AsyncLoggingDoubleBuffering.h:86-106 | a run in which a message appended just before the stop is lost |
| LogProtocol.StopKeeps | logging/AsyncLoggingDoubleBuffering.h:86-126 | a run in which a message appended after the loop test and before the stop is written |
| LogProtocol.AppendAccepted | logging/AsyncLoggingDoubleBuffering.h:55-77 | a message is accepted exactly if it is shorter than a buffer, or empty |
| LogProtocol.RunDelivers | logging/AsyncLoggingDoubleBuffering.h:55-167 | while no batch is too big, the file and what is pending are all messages appended, in order, exactly if each of them was shorter than a buffer, or empty |
| AsyncLogging.FixedBuffer.Append | logging/LogStream.h:35-43 | text that fits with a byte to spare is appended, other text is left out |
| AsyncLogging.FixedBuffer.Reset | logging/LogStream.h:52 | the buffer is empty again |
| AsyncLogging.AsyncLogging.Append | logging/AsyncLoggingDoubleBuffering.h:55-77 | is the writer step of the protocol; a buffer too full is queued and the spare one takes its place, or a new one if there is none |
| AsyncLogging.AsyncLogging.Stop | logging/AsyncLoggingDoubleBuffering.h:86-91 | is the stop step |
| AsyncLogging.AsyncLogging.LoopTop | logging/AsyncLoggingDoubleBuffering.h:106-110 | is the step at the top of the loop, made without the lock: its test and its assertions |
| AsyncLogging.AsyncLogging.Lock | logging/AsyncLoggingDoubleBuffering.h:112-126 | is the step under the lock: the wait exactly if buffers are queued, otherwise the take-over |
| AsyncLogging.AsyncLogging.TakeOver | logging/AsyncLoggingDoubleBuffering.h:118-126 | queued and current buffers move to the batch and spare ones take their places |
| AsyncLogging.AsyncLogging.Drop | logging/AsyncLoggingDoubleBuffering.h:130-141 | is the step that drops all but two buffers of a batch of more than 25 |
| AsyncLogging.AsyncLogging.WriteOne | logging/AsyncLoggingDoubleBuffering.h:143-147 | is the step that writes one buffer |
| AsyncLogging.AsyncLogging.Recycle | logging/AsyncLoggingDoubleBuffering.h:149-165 | is the step that takes two buffers of the batch back as spare ones; its assertions hold whenever the protocol step does not fail |
| QueueProtocol.RunSafe | thread/BoundedBlockingQueue.h:33-57 | at every moment of every run, spurious wakeups included: items put are items taken followed by the queue, capacity is respected, and no wakeup is lost |
| QueueProtocol.OffersKept | thread/BoundedBlockingQueue.h:33-57 | in every run the items offered by calls of put are those taken, those queued and those held by waiting putters: none is lost, doubled or exchanged |
| QueueProtocol.AtRest | thread/BoundedBlockingQueue.h:33-57 | when no thread can go on, waiting takers mean an empty queue and waiting putters a full one |
| QueueProtocol.ResumeLess | thread/BoundedBlockingQueue.h:36-56 | every resumed thread brings the queue nearer to rest |
| QueueProtocol.ComesToRest | thread/BoundedBlockingQueue.h:36-56 | without new arrivals only boundedly many threads resume |
| QueueProtocol.DeadlockOnlyEmpty | thread/BoundedBlockingQueue.h:33-57 | takers and putters can wait for each other exactly if the capacity is 0 |
| BoundedQueue.BoundedBlockingQueue.Put | thread/BoundedBlockingQueue.h:33-43 | is the put step; it waits with its item exactly if the queue is full, and otherwise the item joins the end of the queue |
| BoundedQueue.BoundedBlockingQueue.Take | thread/BoundedBlockingQueue.h:45-57 | is the take step; it waits exactly if there is no item, and otherwise hands out the oldest one, which leaves the queue |
| BoundedQueue.BoundedBlockingQueue.PutAgain | thread/BoundedBlockingQueue.h:36-43 | a putter that wakes up waits again exactly if the queue is full, and otherwise puts the item it held |
| BoundedQueue.BoundedBlockingQueue.TakeAgain | thread/BoundedBlockingQueue.h:48-56 | a taker that wakes up waits again exactly if there is no item, and otherwise hands out the oldest one, which leaves the queue |
| ShortestPaths.Shorten | datastruct/floyd.cpp:8-23 | without negative cycles every walk can be cut to at most n vertices without growing |
| ShortestPaths.TriangleStep | datastruct/floyd.cpp:11-19 | one round of the outer loop keeps the triangle inequalities of earlier rounds and adds its own |
| ShortestPaths.RoundNext | datastruct/floyd.cpp:11-19 | after round k every finite entry is the length of a walk through the first vertices only, and no such walk is shorter |
| ShortestPaths.RoundsEnd | datastruct/floyd.cpp:8-23 | after the last round the entries are least over all walks |
| Floyd.Relax | datastruct/floyd.cpp:12-18 | the two inner loops in place do what a round on a copy would do |
| Floyd.Floyd | datastruct/floyd.cpp:8-23 | every entry ends as the least weight of a walk, and as the infinity value exactly if there is none |
| Calendar.DateOfNumber | datetime/Date.cc:22-44 | the date formula inverts the number formula on every valid date from 1 March -4800 on |
| Calendar.NumberOfDate | datetime/Date.cc:31-44 | every day number from -32044 on gives a valid date with that number |
| Calendar.NextNumber | datetime/Date.cc:22-29 | the next calendar day, by the Gregorian leap rule, has the next number |
| Calendar.DateRoundTrip | datetime/Date.cc:22-44 | a valid date comes back exactly if it is not before 1 March -4800 |
| Calendar.NegativeDate | datetime/Date.cc:31-44 | below that the formula gives no valid day |
| UtcTime.ToUtcTime | datetime/TimeZone.cc:307-338 | the fields are those of the day number and the second of the day, also before 1970 |
| UtcTime.UtcRoundTrip | datetime/TimeZone.cc:307-347 | seconds to fields and back is the identity, and the fields are in range |
| UtcTime.FieldsRoundTrip | datetime/TimeZone.cc:307-347 | fields to seconds and back is the identity on valid dates and times |
| UtcTime.NextSecond | datetime/TimeZone.cc:70-78 | the next second carries into minutes and hours |
| UtcTime.Midnight | datetime/TimeZone.cc:307-338 | and at midnight into the next calendar day |
| UtcTime.WeekDayRight | datetime/Date.h:98-102 | the field is the day of the week, counted from Thursday, 1 January 1970, exactly from day number -1 on and on the Sundays before |
| UtcTime.NextWeekDay | datetime/Date.h:98-102 | from there on it is between 0 and 6, and a day later the next one |
| UtcTime.EpochFields | datetime/TimeZone.cc:307-338 | second 0 is Thursday, 1 January 1970, 00:00:00 |
| UtcTime.YearDayAsked | datetime/TimeZone.cc:328-334 | the day of the year is 0 when not asked for, and no other field depends on that |
| UtcTime.YearDay | datetime/TimeZone.cc:328-334 | the day of the year is 0 on 1 January only and grows by one a day |
| SearchTrees.PutContent | datastruct/bst.cpp:38-54 | put keeps order and sizes and sets the one key of the map |
| SearchTrees.RemoveMinContent | datastruct/bst.cpp:80-89 | removeMin removes exactly the least key |
| SearchTrees.RemoveContent | datastruct/bst.cpp:92-126 | remove removes exactly the key and keeps order and sizes |
| SearchTrees.SuccessorRises | datastruct/bst.cpp:115-122 | a removed node with two subtrees gives way to the least key of the right one, and the left one stays |
| SearchTrees.InorderKeys | datastruct/bst.cpp:129-136 | the keys are listed in strictly increasing order, as many as the cached size |
| SearchTrees.SelectPlace | datastruct/bst.cpp:139-153 | select finds the k-th key, and nothing outside the range |
| SearchTrees.RankPlace | datastruct/bst.cpp:156-169 | rank counts the smaller keys, of absent keys too |
| SearchTrees.RankSelect | datastruct/bst.cpp:139-169 | selecting the rank of a key gives the key exactly if it is there |
| SearchTrees.SelectRank | datastruct/bst.cpp:139-169 | the rank of the k-th key is k |
| BinarySearchTree.BST.UpdateSize | datastruct/bst.cpp:31-35 | the cached size becomes that of the subtrees plus one |
| BinarySearchTree.BST.PutNode | datastruct/bst.cpp:38-54 | the nodes on the heap then form the tree of the put function |
| BinarySearchTree.BST.RemoveNode | datastruct/bst.cpp:92-126 | the nodes then form the tree of the remove function |
| BinarySearchTree.BST.RemoveMin | datastruct/bst.cpp:80-89 | the nodes then form the tree without its least key |
| BinarySearchTree.BST.Put | datastruct/bst.cpp:191-193 | the tree refines a map: the key is set |
| BinarySearchTree.BST.Remove | datastruct/bst.cpp:205-207 | the tree refines a map: the key is gone |
| BinarySearchTree.BST.Get | datastruct/bst.cpp:196-202 | finds the value of the map or that there is none |
| BinarySearchTree.BST.Keys | datastruct/bst.cpp:236-240 | the keys of the map in increasing order |
| BinarySearchTree.BST.SelectKey | datastruct/bst.cpp:243-249 | the k-th key, or an error outside the range |
| BinarySearchTree.BST.RankOf | datastruct/bst.cpp:252-254 | the number of smaller keys |
| BinarySearchTree.BST.FirstKey | datastruct/bst.cpp:215-220 | the least key of the map, or an error for the empty tree |
| SegmentTree.Room | datastruct/segment_tree.cpp:64-72 | the 4n nodes allotted are enough: every index stays below them |
| SegmentTree.FitsChildren | datastruct/segment_tree.cpp:12-25 | both children of a node with more than one element stay in the array |
| SegmentTree.SegmentTree.Build | datastruct/segment_tree.cpp:12-25 | every node of the subtree holds the sum of its range; other nodes are untouched |
| SegmentTree.SegmentTree.Update | datastruct/segment_tree.cpp:74-77 | the tree represents the array with one element changed |
| SegmentTree.QuerySum | datastruct/segment_tree.cpp:46-61 | the query of a node is the sum of the array over the clipped range |
| SegmentTree.SegmentTree.Sum | datastruct/segment_tree.cpp:79-82 | the query is the sum of the array over any range, empty and overlapping ones included |
| RadixSort.BucketsSorted | datastruct/radix_sort.h:6-33 | a stable pass over one digit puts in order by that digit and all lower ones |
| RadixSort.BucketsPermutation | datastruct/radix_sort.h:6-33 | a pass loses and adds nothing |
| RadixSort.CountDigits | datastruct/radix_sort.h:10-20 | the prefix sums are the ends of the buckets |
| RadixSort.CountingSortForRadix | datastruct/radix_sort.h:6-33 | the pass in place puts the elements in their buckets, stably |
| RadixSort.StepsFitSortable | datastruct/radix_sort.h:36-57 | offset, shifted elements and powers of ten all fit in an int exactly if no element is the least int, all are below 10^9, and so are all differences |
| RadixSort.LeastElement | datastruct/radix_sort.h:40-52 | an array with the least int for which the offset wraps around, no pass is made and the order stays wrong |
| RadixSort.RadixSort | datastruct/radix_sort.h:36-57 | on every array for which that holds, negative numbers included, the array ends sorted and a permutation of what it was |
| InternetChecksum.InChecksum | faketcp/faketcp.cc:100-113 | the folding loop ends with the one's complement of the end-around sum (section 1 of RFC 1071), without overflow for up to 32768 words |
| InternetChecksum.WordsFit | faketcp/faketcp.cc:104-108 | sums of that many words fit in an int exactly up to 32768 words |
| InternetChecksum.CheckGivesZero | faketcp/faketcp.cc:100-113 | storing the checksum in a word that was zero makes the check give 0, and no other word does, up to the two forms of zero |
| InternetChecksum.SwapSum | faketcp/faketcp.cc:104-108 | the sum does not depend on the order of the words |
| RegistryKeys.StoiBack | cpp/brpc_register/registry_server.cpp:237 | a printed port is read back, negative ones too |
| RegistryKeys.StoiReads | cpp/brpc_register/registry_server.cpp:237 | spaces, a sign or none, and digits are read as their number if it fits; without digits nothing is read |
| RegistryKeys.ParseBack | cpp/brpc_register/registry_server.cpp:224-237 | a key is read back as its entry exactly if the service name holds no bar and the address no colon |
| RegistryKeys.KeysApart | cpp/brpc_register/registry_server.cpp:184-186 | different such entries have different keys |
| RegistryKeys.ColonParse | cpp/brpc_register/registry_server.cpp:224-237 | what is read from a key whose address holds a colon |
| RegistryKeys.SixthVersion | cpp/brpc_register/registry_server.cpp:224-237 | the address ::1 ends in an exception and 2001:12::1 is read as another server |
| Registry.RegistryService.Register | cpp/brpc_register/registry_server.cpp:45-86 | new map contents and status of a registration |
| Registry.RegistryService.EraseServer | cpp/brpc_register/registry_server.cpp:107-113 | exactly the first server at the address is erased |
| Registry.RegistryService.Unregister | cpp/brpc_register/registry_server.cpp:89-135 | new map contents and status of an unregistration; an empty service is forgotten |
| Registry.RegistryService.Discover | cpp/brpc_register/registry_server.cpp:138-157 | the servers listed, in order |
| Registry.RegistryService.Heartbeat | cpp/brpc_register/registry_server.cpp:160-180 | new heartbeat and status |
| Registry.RegistryService.HealthCheck | cpp/brpc_register/registry_server.cpp:204-259 | one round drops the silent keys in some order of its own, and breaks off exactly if one cannot be read |
| RegistryRuns.RegisterAgrees | cpp/brpc_register/registry_server.cpp:45-86 | registering keeps the two maps in agreement and starts the lease of that server only |
| RegistryRuns.UnregisterAgrees | cpp/brpc_register/registry_server.cpp:89-135 | unregistering keeps agreement and ends that lease only |
| RegistryRuns.HeartbeatAgrees | cpp/brpc_register/registry_server.cpp:160-180 | a heartbeat keeps agreement and renews that lease only |
| RegistryRuns.CleanUpAgrees | cpp/brpc_register/registry_server.cpp:220-253 | in whatever order silent keys are dropped, none fails and exactly their servers go |
| RegistryRuns.RunLeases | cpp/brpc_register/registry_server.cpp:45-259 | after any run of requests and clean-ups the maps agree and every server is listed exactly as its own lease says |
| RegistryRuns.DiscoverLeases | cpp/brpc_register/registry_server.cpp:138-157 | discovery lists exactly the servers of the service whose lease holds, each once |
| RegistryRuns.DiscoverOrder | cpp/brpc_register/registry_server.cpp:138-157 | after any run a service lists its servers with the address and weight they registered with, in the order in which their leases began |
| RegistryRuns.RegisterAnswer | cpp/brpc_register/registry_server.cpp:45-86 | after any run the answer is INVALID_PARAM exactly if name or address is empty or the port not positive, otherwise SUCCESS exactly if the server holds no lease, and ALREADY_EXISTS if it does |
| RegistryRuns.UnregisterAnswer | cpp/brpc_register/registry_server.cpp:89-135 | after any run the answer is success exactly if the server holds a lease |
| RegistryRuns.HeartbeatAnswer | cpp/brpc_register/registry_server.cpp:160-180 | after any run the answer is success exactly if a lease is held under the key, for an entry without separators its own |
| RegistryRuns.CleanUpSucceeds | cpp/brpc_register/registry_server.cpp:204-253 | no clean-up ever breaks off |
| RegistryRuns.SilentServerGoes | cpp/brpc_register/registry_server.cpp:204-253 | a lone silent server vanishes from both maps exactly if its name holds no bar and its address no colon |
| RegistryRuns.ColonAddress | cpp/brpc_register/registry_server.cpp:224-253 | with a colon in the address the clean-up breaks off exactly if no number is read behind the first one; otherwise the heartbeat is forgotten and the server stays |

## Left out

- Input and output: files are sequences of words or records, the clock is a parameter, printing and timing are absent.
- Threads of backtracking_mt and mutexes as such: critical sections are atomic steps, and a wait ends one.
- Release of memory, destructors, copying and moving.
- The internals of hash maps, heaps, priority queues and sorting from the standard library: a loop over a hash map takes
  its entries in any order, a heap or priority queue gives up any extreme element. The hash function is any function.
- 32-bit and 64-bit limits of counts, frequencies, day numbers and sums of a segment tree: they are unbounded here. Limbs,
  carries, shifts, exponents, masks, Floyd's sums, radix powers and checksums have their width.
- DirectedEulerian, whose degree test looks only at vertices with outgoing edges, and the recursive dfs of the undirected class.
- The zone-file reader, findLocaltime and fromLocalTime of TimeZone.
- setValue, getValue and highest of UnsignedInt, lastKey, containsKey and size of BST, printCompressionInfo of Huffman coding.
- bruteforce of nqueens.cc, the plain input routine of sudoku_basic.cc, and partitions.cc.
- AsyncLogging.FixedBuffer.Append: the bytes of a buffer are a sequence in a field and not an array, so writing past a
  buffer is not expressible.
- UnsignedIntegers.UnsignedInt.ParseHex: nothing is said of strings with other characters, for which the source takes the
  largest word.
- UnsignedIntegers.UnsignedInt.ParseDec: nothing is said of such strings either.
- BinarySearchTree.BST.Put: keys are integers and not any ordered type.
- Registry.RegistryService.HealthCheck: when a key cannot be read the state left behind is not described, since the
  exception ends the process.
- TLS, brpc and protobuf plumbing, tun devices, benchmarks, thread pools, and the remaining containers and simple sorts
  of the repository, which would add easy members only.
