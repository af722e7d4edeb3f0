# Sudoku solver model

A Dafny model of a constraint-propagation Sudoku solver in the style of Norvig
(`src/SudokuSolver.java`). The model covers four parts of the solver:

- **Board topology.** There are 81 squares, `A1`..`I9`, numbered 0..80 in row-major
  order. There are 27 units: the 9 columns, then the 9 rows, then the 9 boxes, in
  the solver's list order. For every square the model gives its three units and
  its 20 peers.
- **Parsing and propagation.** `gridValues` and `parseGrid` read a puzzle string.
  The mutually recursive `assign` and `eliminate` narrow the board in place. The
  board is an `array<seq<Digit>>`: for each square, its candidate digits in
  increasing order, as the solver's strings built from `"123456789"` keep them.
  A `false` result, or a `null` array, stands for the solver's `null`
  contradiction sentinel.
- **Search.** `search` picks the first square with the fewest candidates (more
  than one). It tries each candidate of that square on a fresh copy of the board.
  `solve` is `search(parseGrid(grid))`.
- **Completion check.** `solved` and `unitSolved` test that every unit is a
  permutation of 1..9. The model gives the check both as written, which always
  rejects (see Findings), and as intended.

What the model proves about these parts:

- Candidate sets never grow.
- Every successful run of `assign` or `eliminate` leaves every square it changed
  nonempty. If such a square has a single candidate, no peer still holds that
  digit.
- Every unit that had a place for a digit keeps one.
- Hidden singles get placed. Suppose a unit lost a place for a digit during a
  successful run, and one square of the unit can still hold that digit. Then
  that square holds that digit alone.
- A failure leaves either an empty square or a unit with no place for some digit.
- The board that `parseGrid` returns, and every board derived from it, is
  *consistent*. That means the property above holds for every square, and every
  unit still has a place for every digit.
- A consistent board with one candidate per square is solved.
- Therefore every board `solve` returns is a solved grid that keeps the puzzle's
  givens.
- `Search` has no `modifies` clause, so the verifier also checks that search
  never writes its input board. Every branch assigns into a fresh copy.

Termination of the mutual recursion rests on the total number of candidates on
the board. Every nested `eliminate`, `assign` and `search` call either removes a
candidate first or runs at a lower rank.

## Model

| member | source | states |
|---|---|---|
| Topology.Cross | src/SudokuSolver.java:29-39 | the cross product has one name per pair of characters: its length is the product of the two lengths |
| Topology.CrossAt | src/SudokuSolver.java:29-39 | the pair (i, j) sits at position i*\|b\|+j and is the i-th letter of a followed by the j-th character of b (a outer, b inner) |
| Topology.SquaresRowMajor | src/SudokuSolver.java:90-93 | `squares` has 81 names; square c is the letter of row c/9 followed by the digit of column c%9; all 81 names differ |
| Topology.UnitList | src/SudokuSolver.java:41-55 | the unit list has 27 units of 9 distinct squares each; unit u < 9 is column u, unit 9..17 is a row, unit 18..26 a box with the column band outer |
| Topology.UnitMembership | src/SudokuSolver.java:41-55 | a square is in unit u exactly when it lies in the column, row or box that u stands for |
| Topology.UnitDistinct | src/SudokuSolver.java:41-55 | no unit lists a square twice |
| Topology.UnitsOf | src/SudokuSolver.java:57-70 | each square lies in exactly three units, listed in unit-list order: a column, then a row, then a box; a unit is among them exactly when it contains the square |
| Topology.SharesUnitIff | src/SudokuSolver.java:41-70 | two squares share a unit exactly when they share a row, a column or a box |
| Topology.AddNew | src/SudokuSolver.java:78-84 | the peer builder appends each square not equal to s and not yet listed: its result has no repeats, never holds s, and holds exactly the squares already listed plus those met other than s |
| Topology.Peers | src/SudokuSolver.java:72-88 | the peer list of s has no repeats, never holds s, and holds exactly the other squares that share a unit with s |
| Topology.PeersSymmetric | src/SudokuSolver.java:72-88 | b is a peer of a exactly when a is a peer of b |
| Topology.PeerCount | src/SudokuSolver.java:72-88 | every square has exactly 20 peers, all different, none of them itself |
| Board.AllDigitsAscending | src/SudokuSolver.java:90 | the digit string "123456789" lists 1..9 in increasing order |
| Board.Remove | src/SudokuSolver.java:151 | `replace(d, "")` on a square's candidates keeps exactly the candidates other than d, keeps increasing order, and changes nothing when d is absent |
| Board.ConsistentNotContradicted | src/SudokuSolver.java:175-196 | a consistent board has neither of the two contradictions eliminate detects |
| Board.HiddenStays | src/SudokuSolver.java:197-201 | a hidden single placed before a successful step stays placed after it, whether or not the step took a place of that digit from the unit |
| Board.ProgressTrans | src/SudokuSolver.java:179-183 | two successful propagation steps in sequence make one successful step: shrinking, changed squares good, unit places kept, hidden singles placed |
| Board.ProgressKeepsConsistent | src/SudokuSolver.java:168-206 | a successful step from a consistent board leads to a consistent board |
| Board.MeasureMono | src/SudokuSolver.java:172 | the number of candidates left never grows as the board shrinks, and drops when a candidate is removed |
| Propagation.Places | src/SudokuSolver.java:189-194 | `dplaces` holds, without repeats, exactly the squares of the unit that can still hold d; it is empty exactly when the unit has no place for d |
| Propagation.RemovalStep | src/SudokuSolver.java:172 | removing d from s keeps the board well formed, removes d and nothing else gains, and lowers the candidate count |
| Propagation.RuleOneSettles | src/SudokuSolver.java:173-184 | after rule 1, every changed square is good: the narrowed square is nonempty and, if single, its digit is gone from every peer |
| Propagation.RuleTwoSettles | src/SudokuSolver.java:186-204 | after rule 2 checked the units of s for d, every unit that had a place for a digit before the removal still has one |
| Propagation.TwoPlaces | src/SudokuSolver.java:195-197 | a unit with two squares that can hold d has no only place for d, so rule 2 leaves it as it is |
| Propagation.RemovalPlaced | src/SudokuSolver.java:186-204 | the removal itself takes places only from the units of s and only for d; since rule 2 placed d in each such unit left with one place, every hidden single of the whole call is placed |
| Propagation.RemovalSettles | src/SudokuSolver.java:168-206 | the removal, rule 1 and rule 2 together make one successful propagation step |
| Propagation.PeerStep | src/SudokuSolver.java:179-183 | after each peer of rule 1, the steps so far make one step and every peer handled so far is clear of d2 |
| Propagation.UnitStep | src/SudokuSolver.java:188-203 | after each unit of rule 2, the steps so far make one step; every unit checked so far has a place for d, and holds d alone at its only place |
| Propagation.Eliminate | src/SudokuSolver.java:168-206 | afterwards d is not a candidate of s and no square gained a candidate; when d was absent it succeeds and changes nothing; success is a propagation step, so every unit left with one place for a digit it lost holds that digit there alone; failure leaves an empty square or a unit with no place for some digit |
| Propagation.EliminateFromPeers | src/SudokuSolver.java:177-184 | on success the single value is gone from every peer of s and the board made a propagation step; a failure in any peer is passed on as a contradiction |
| Propagation.PlaceInUnits | src/SudokuSolver.java:186-204 | on success every unit of s still has a place for d; a square that is the only place for d in a unit of s holds exactly d; the board made a propagation step; a unit without a place, or a failed assign, is a contradiction |
| Propagation.OtherStep | src/SudokuSolver.java:152-156 | after each other value of s, the steps so far make one step and every value eliminated so far is gone from s |
| Propagation.AssignSettles | src/SudokuSolver.java:150-158 | once every other value is gone from a square that had candidates, the square holds d alone |
| Propagation.Assign | src/SudokuSolver.java:150-158 | on success s holds exactly d and the board made a propagation step; if d was not a candidate of a nonempty s the call fails; assigning d to a square that holds exactly d succeeds and changes nothing; failure is a contradiction; the board never gains a candidate |
| Parsing.DigitOf | src/SudokuSolver.java:130 | a digit character names the digit at its position in "123456789" |
| Parsing.GridValues | src/SudokuSolver.java:104-114 | rejected exactly when one of the first 82 characters is outside 1-9, '0' and '.'; overflows exactly when the string is longer than 81 and those 82 characters are valid; otherwise maps square i to character i |
| Parsing.InitialConsistent | src/SudokuSolver.java:126-128 | the board with all nine digits in every square is consistent |
| Parsing.SingleStays | src/SudokuSolver.java:129-133 | a square already narrowed to one digit keeps it through a successful assign |
| Parsing.GivenStep | src/SudokuSolver.java:129-133 | assigning a given keeps the board consistent and keeps every earlier given in its square |
| Parsing.PlacedGivensDistinct | src/SudokuSolver.java:129-133 | when every given is placed on a consistent board, no two peers were given the same digit |
| Parsing.ParseGrid | src/SudokuSolver.java:123-139 | an invalid character or a string longer than 81 characters gives null; a result is a consistent board that holds every given in its square, so givens that clash among peers give null; a blank string of at most 81 characters gives the board with all nine digits everywhere |
| Completion.PermutationOfDigits | src/SudokuSolver.java:334-335 | nine different digits covering 1..9 are a permutation of 1..9 |
| Completion.ConsistentUnitComplete | src/SudokuSolver.java:334-335 | on a consistent board of single candidates, every unit holds each digit 1..9 once |
| Completion.ConsistentSingletonsSolved | src/SudokuSolver.java:334-335 | a consistent board of single candidates is solved |
| Completion.Contains | src/SudokuSolver.java:354 | `contains` of a one-digit string holds exactly when that digit is among the remaining ones |
| Completion.ReplaceAll | src/SudokuSolver.java:355 | `replace` of a one-digit string removes exactly that digit |
| Completion.UnitSolvedAsWritten | src/SudokuSolver.java:351-364 | the check as written returns false on every board, because the result of `replace` is dropped |
| Completion.SolvedAsWritten | src/SudokuSolver.java:339-349 | `solved` as written returns null for every board, solved or not |
| Completion.Step | src/SudokuSolver.java:353-359 | each square of the intended check removes one remaining digit, or proves the unit is no permutation of 1..9 |
| Completion.StepDone | src/SudokuSolver.java:360-363 | after all nine squares, nothing remains exactly when the unit is a permutation of 1..9 |
| Completion.RemoveCount | src/SudokuSolver.java:355 | removing a digit removes all of its occurrences and nothing else |
| Completion.UnitSolved | src/SudokuSolver.java:351-364 | with the replaced string kept, a unit of single candidates passes exactly when it holds each digit 1..9 once |
| Completion.Solved | src/SudokuSolver.java:339-349 | with the check kept, null fails; a board of single candidates passes exactly when it is solved |
| Completion.DistinctDigitsCover | src/SudokuSolver.java:334-335 | nine different digits include every digit 1..9 |
| Completion.ExampleDigitsDiffer | src/SudokuSolver.java:334-335 | on the example grid, peers hold different digits |
| Completion.ExampleSolved | src/SudokuSolver.java:334-335 | the example grid is solved: every unit holds each digit 1..9 once |
| Completion.SolvedGridRejected | src/SudokuSolver.java:339-364 | on the example grid, the check with the replaced string kept accepts and the check as written rejects |
| Search.FewestCandidates | src/SudokuSolver.java:254-265 | the branch square has more than one candidate, no square with more than one has fewer, and every earlier such square has strictly more |
| Search.ProgressNonempty | src/SudokuSolver.java:266-269 | a successful assign on the copy leaves no square empty |
| Search.Search | src/SudokuSolver.java:241-275 | null gives null; a board of single candidates is returned as it is; any result has one candidate per square, nothing outside the input's candidates, and is solved when the input was consistent |
| Search.Solve | src/SudokuSolver.java:231-233 | a result is a solved grid for a string of at most 81 valid characters and keeps every given in its square |

## Left out

- `print`, `solveAll`, `sum`, `max`, `fromFile`, `main` and `concat` are not modelled. They are console output, wall-clock timing with `double` arithmetic, file input, the entry point and an unused helper.
- The message `parseGrid` prints in its `catch` block is not modelled. Only the null result is kept.
- Java `HashMap` iteration order is not modelled. `parseGrid` applies the givens in square order. Every ensures of `ParseGrid` holds for any order.
- The string keys and the `HashMap` of the solver are not modelled. The model uses square numbers and an array indexed by square. `Topology.SquaresRowMajor` ties each number to its name.
- Search.Search: requires that no square of a non-null input is empty. The source reaches `values.get("")` and throws when no square has more than one candidate and some square has none. Boards from `parseGrid` and successful `assign` calls never have an empty square.
- Search.Search: does not state that the result is the first successful branch, or that null means every branch failed.
- Search.Search: completeness is not stated. The model does not prove that a solution is found whenever one exists.
- Search.Search: does not state that the result is a fresh array, distinct from the input. That the input is never written *is* checked through the missing `modifies` clause.
- Search.Solve: does not state success for solvable puzzles, for the same reason.
- Completion.UnitSolved: its if-and-only-if is stated only for units whose squares each hold one candidate. On other boards the check reads multi-digit strings as substrings. The model computes that, but no contract describes it.
- The solver accepts strings shorter than 81 characters. Its unfilled squares keep all nine digits, and `Parsing.ParseGrid` states this for blank strings. The puzzle strings of Norvig's essay are 81 characters long, but the solver does not check the length, and the model follows the code.

## Findings

| source | as written | input that shows it | evidently intended | confidence | as-written member | corrected member |
|---|---|---|---|---|---|---|
| src/SudokuSolver.java:355 | `removingDigits.replace(values.get(s), "")` drops its result, so `removingDigits` stays `"123456789"`; the test at 360 always fails and `unitSolved` returns false, so `solved` returns null for every board | any board, for example the solved grid `Completion.ExampleBoard`, which `Completion.SolvedGridRejected` shows the check as written rejecting | `removingDigits = removingDigits.replace(...)`, so that a unit passes exactly when it is a permutation of 1..9 | high; not executed | Completion.UnitSolvedAsWritten | Completion.UnitSolved |
| src/SudokuSolver.java:339-349 | `solved` relies on the check above, so it never returns its board | any board, for example a fully solved grid | `solved` returns the board exactly when every unit is a permutation of 1..9 | high; not executed | Completion.SolvedAsWritten | Completion.Solved |
