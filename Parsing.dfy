/** Reading a puzzle: a string of up to 81 characters, one per square in square
    order, where a digit 1-9 is a given and '0' or '.' is an empty square. */
module Parsing {
  import opened Topology
  import opened Board
  import opened Propagation

  /** A character the grid format accepts. */
  predicate ValidChar(ch: char)
  {
    ch in Cols || ch == '0' || ch == '.'
  }

  /** A character that gives a square's digit. */
  predicate IsDigitChar(ch: char)
  {
    ch in Cols
  }

  function DigitOf(ch: char): (d: Digit)
    requires IsDigitChar(ch)
    ensures Cols[d - 1] == ch
  {
    assert forall k :: 0 <= k < 9 ==> Cols[k] as int == '1' as int + k;
    ch as int - '0' as int
  }

  /** What gridValues produces: the map of squares to characters, a rejection
      (the solver's null) for an invalid character, or the index overflow of a
      string longer than 81 characters. */
  datatype GridMap = Values(given: map<Cell, char>) | Rejected | Overflow

  /** gridValues: reads the string character by character, checking each one
      before it is stored under the next square. */
  method GridValues(grid: string) returns (r: GridMap)
    ensures r.Rejected? <==> exists i :: 0 <= i < |grid| && i <= 81 && !ValidChar(grid[i])
    ensures r.Overflow? <==> 81 < |grid| && forall i :: 0 <= i <= 81 ==> ValidChar(grid[i])
    ensures r.Values? ==> r.given == map c: Cell | c < |grid| :: grid[c]
  {
    var gridMap: map<Cell, char> := map[];
    var i := 0;
    while i < |grid|
      invariant 0 <= i <= |grid| && i <= 81
      invariant forall j :: 0 <= j < i ==> ValidChar(grid[j])
      invariant gridMap == map c: Cell | c < i :: grid[c]
    {
      if !ValidChar(grid[i]) {
        return Rejected;
      }
      if i == 81 {
        return Overflow;
      }
      gridMap := gridMap[i := grid[i]];
      i := i + 1;
    }
    return Values(gridMap);
  }

  /** Every digit given in the grid differs from the digits given in its peers. */
  predicate GivensDistinct(grid: string)
  {
    forall i: Cell, j: Cell ::
      (i < |grid| && j < |grid| && i != j && IsDigitChar(grid[i]) && IsDigitChar(grid[j]) &&
       SharesUnit(i, j)) ==> grid[i] != grid[j]
  }

  /** Every square whose character is a digit holds exactly that digit. */
  predicate GivensPlaced(grid: string, b: seq<seq<Digit>>)
    requires |grid| <= 81 && |b| == 81
  {
    forall i: Cell :: i < |grid| && IsDigitChar(grid[i]) ==> b[i] == [DigitOf(grid[i])]
  }

  lemma InitialConsistent(b: seq<seq<Digit>>)
    requires |b| == 81 && forall c: Cell :: b[c] == AllDigits
    ensures Consistent(b)
  {
    AllDigitsAscending();
    forall u: UnitIndex, x: Digit ensures HasPlace(b, u, x) {
      var c := Unit(u)[0];
      assert c in Unit(u);
      assert AllDigits[x - 1] == x;
    }
  }

  /** A square that already holds one candidate keeps it through a successful step. */
  lemma SingleStays(b0: seq<seq<Digit>>, b: seq<seq<Digit>>, c: Cell)
    requires Progress(b0, b) && WellFormed(b) && |b0[c]| == 1
    ensures b[c] == b0[c]
  {
    forall v | v in b[c] ensures v == b0[c][0] {
      assert v in b0[c];
    }
    assert b[c] != [] by {
      assert b[c] == b0[c] || Good(b, c);
    }
    OnlyDigit(b[c], b0[c][0]);
  }

  /** The givens among the first n characters are in place. */
  predicate PlacedUpTo(grid: string, b: seq<seq<Digit>>, n: int)
    requires n <= |grid| <= 81 && |b| == 81
  {
    forall j: Cell :: j < n && IsDigitChar(grid[j]) ==> b[j] == [DigitOf(grid[j])]
  }

  /** Assigning the given of square c keeps the board consistent and every
      earlier given in place. */
  lemma GivenStep(grid: string, before: seq<seq<Digit>>, after: seq<seq<Digit>>, c: Cell)
    requires c < |grid| <= 81 && IsDigitChar(grid[c])
    requires Consistent(before) && PlacedUpTo(grid, before, c)
    requires WellFormed(after) && Progress(before, after)
    requires before[c] != [] ==> after[c] == [DigitOf(grid[c])]
    ensures Consistent(after) && PlacedUpTo(grid, after, c + 1)
  {
    ProgressKeepsConsistent(before, after);
    forall j: Cell | j < c && IsDigitChar(grid[j]) ensures after[j] == [DigitOf(grid[j])] {
      SingleStays(before, after, j);
    }
    assert Good(before, c);
  }

  /** On a consistent board, givens placed in peer squares are different digits. */
  lemma PlacedGivensDistinct(grid: string, b: seq<seq<Digit>>)
    requires |grid| <= 81 && Consistent(b) && GivensPlaced(grid, b)
    ensures GivensDistinct(grid)
  {
    forall i: Cell, j: Cell | i < |grid| && j < |grid| && i != j && IsDigitChar(grid[i]) &&
        IsDigitChar(grid[j]) && SharesUnit(i, j)
      ensures grid[i] != grid[j]
    {
      assert j in Peers(i);
      assert Good(b, i);
      assert b[j] == [DigitOf(grid[j])];
    }
  }

  /** parseGrid: every square starts with all nine digits, then every given of the
      grid is assigned in square order. An invalid character, a string longer than
      81 characters and a contradiction while assigning all give null. */
  method ParseGrid(grid: string) returns (values: array?<seq<Digit>>)
    ensures values != null ==> values.Length == 81 && Consistent(values[..])
    ensures values != null ==> |grid| <= 81 && forall i :: 0 <= i < |grid| ==> ValidChar(grid[i])
    ensures values != null ==> GivensPlaced(grid, values[..]) && GivensDistinct(grid)
    ensures (|grid| <= 81 && forall i :: 0 <= i < |grid| ==> grid[i] == '0' || grid[i] == '.') ==>
              values != null && forall c: Cell :: values[c] == AllDigits
  {
    var board := new seq<Digit>[81](_ => AllDigits);
    InitialConsistent(board[..]);
    var g := GridValues(grid);
    if !g.Values? {
      return null;
    }
    assert forall i :: 0 <= i < |grid| ==> ValidChar(grid[i]);
    var c := 0;
    while c < |grid|
      invariant 0 <= c <= |grid| <= 81
      invariant Consistent(board[..]) && PlacedUpTo(grid, board[..], c)
      invariant (forall j :: 0 <= j < c ==> !IsDigitChar(grid[j])) ==>
                  forall j: Cell :: board[j] == AllDigits
    {
      var ch := g.given[c];
      if IsDigitChar(ch) {
        ghost var before := board[..];
        var ok := Assign(board, c, DigitOf(ch));
        if !ok {
          return null;
        }
        GivenStep(grid, before, board[..], c);
      }
      c := c + 1;
    }
    PlacedGivensDistinct(grid, board[..]);
    return board;
  }
}
