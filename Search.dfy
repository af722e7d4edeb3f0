/** Depth-first search over assignments, with propagation after every choice, and
    the solver's entry point solve = search(parseGrid(grid)). */
module Search {
  import opened Topology
  import opened Board
  import opened Propagation
  import opened Completion
  import opened Parsing

  /** Java's Integer.MAX_VALUE, the starting minimum of the branch choice. */
  const IntMax: int := 0x7fff_ffff

  lemma {:induction false} AscendingBounded(x: seq<Digit>, k: int)
    requires Ascending(x) && 0 <= k < |x|
    ensures x[k] >= k + 1
  {
    if k > 0 {
      AscendingBounded(x, k - 1);
    }
  }

  /** A square never holds more than the nine digits. */
  lemma AscendingShort(x: seq<Digit>)
    requires Ascending(x)
    ensures |x| <= 9
  {
    if |x| > 0 {
      AscendingBounded(x, |x| - 1);
    }
  }

  /** The branch square: the first square, in square order, whose number of
      candidates is the smallest among the squares with more than one. */
  method FewestCandidates(values: array<seq<Digit>>) returns (minS: Cell)
    requires values.Length == 81 && WellFormed(values[..])
    requires exists c: Cell :: |values[c]| > 1
    ensures |values[minS]| > 1
    ensures forall c: Cell :: |values[c]| > 1 ==> |values[minS]| <= |values[c]|
    ensures forall c: Cell :: c < minS && |values[c]| > 1 ==> |values[minS]| < |values[c]|
  {
    minS := 0;
    var minN := IntMax;
    for s := 0 to 81
      invariant minN == IntMax ==> forall c: Cell :: c < s ==> |values[c]| <= 1
      invariant minN != IntMax ==> minS < s && minN == |values[minS]| > 1
      invariant forall c: Cell :: c < s && |values[c]| > 1 ==> minN <= |values[c]|
      invariant forall c: Cell :: c < minS && |values[c]| > 1 ==> minN < |values[c]|
    {
      var n := |values[s]|;
      assert Ascending(values[..][s]);
      AscendingShort(values[s]);
      if n > 1 {
        if n < minN {
          minN := n;
          minS := s;
        }
      }
    }
  }

  /** Squares that had candidates keep some through a successful step. */
  lemma ProgressNonempty(b0: seq<seq<Digit>>, b: seq<seq<Digit>>)
    requires Progress(b0, b) && forall c: Cell :: b0[c] != []
    ensures forall c: Cell :: b[c] != []
  {
    forall c: Cell ensures b[c] != [] {
      assert b[c] == b0[c] || Good(b, c);
    }
  }

  lemma ShrunkTrans(b0: seq<seq<Digit>>, b1: seq<seq<Digit>>, b2: seq<seq<Digit>>)
    requires Shrunk(b0, b1) && Shrunk(b1, b2)
    ensures Shrunk(b0, b2)
  {
  }

  /** search: null stays null; a board with one candidate everywhere is the answer;
      otherwise try each candidate of the branch square, in order, on a copy of the
      board, and return the first branch that succeeds. The input is never written. */
  method Search(values: array?<seq<Digit>>) returns (r: array?<seq<Digit>>)
    requires values != null ==> values.Length == 81 && WellFormed(values[..])
    requires values != null ==> forall c: Cell :: values[c] != []
    decreases if values == null then 0 else Measure(values[..]) + 1
    ensures values == null ==> r == null
    ensures values != null && AllSingle(values[..]) ==> r == values
    ensures r != null ==> values != null && r.Length == 81 && WellFormed(r[..])
    ensures r != null ==> AllSingle(r[..]) && Shrunk(values[..], r[..])
    ensures r != null && Consistent(values[..]) ==> Consistent(r[..]) && IsSolved(r[..])
  {
    if values == null {
      return null;
    }
    var isSolved := true;
    for s := 0 to 81
      invariant isSolved <==> forall c: Cell :: c < s ==> |values[c]| == 1
    {
      if |values[s]| != 1 {
        isSolved := false;
      }
    }
    if isSolved {
      if Consistent(values[..]) {
        ConsistentSingletonsSolved(values[..]);
      }
      return values;
    }
    var minS := FewestCandidates(values);
    var i := 0;
    while i < |values[minS]|
    {
      var copy := new seq<Digit>[81](j requires 0 <= j < 81 reads values => values[j]);
      assert copy[..] == values[..];
      var d := values[minS][i];
      var ok := Assign(copy, minS, d);
      if ok {
        ProgressNonempty(values[..], copy[..]);
        assert Ascending(values[..][minS]);
        ghost var other := if values[minS][0] != d then values[minS][0] else values[minS][1];
        MeasureMono(values[..], copy[..], minS, other);
      }
      var result := Search(if ok then copy else null);
      if result != null {
        ShrunkTrans(values[..], copy[..], result[..]);
        if Consistent(values[..]) {
          ProgressKeepsConsistent(values[..], copy[..]);
        }
        return result;
      }
      i := i + 1;
    }
    return null;
  }

  /** solve: parse the grid and search from the propagated board. A result is a
      solved board that keeps every given of the grid. */
  method Solve(grid: string) returns (r: array?<seq<Digit>>)
    ensures r != null ==> r.Length == 81 && IsSolved(r[..])
    ensures r != null ==> |grid| <= 81 && forall i :: 0 <= i < |grid| ==> ValidChar(grid[i])
    ensures r != null ==> GivensPlaced(grid, r[..])
  {
    var values := ParseGrid(grid);
    if values != null {
      ConsistentNotContradicted(values[..]);
    }
    r := Search(values);
    if r != null {
      forall c: Cell | c < |grid| && IsDigitChar(grid[c]) ensures r[c] == [DigitOf(grid[c])] {
        assert r[..][c] == [r[c][0]];
        assert r[c][0] in values[..][c];
      }
    }
  }
}
