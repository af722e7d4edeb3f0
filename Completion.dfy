/** The completion check: a puzzle is solved if each unit is a permutation of the
    digits 1 to 9. The solver's own check discards the result of a string replace,
    so as written it rejects every board; both the written and the intended check
    are given here. */
module Completion {
  import opened Topology
  import opened Board

  predicate AllSingle(b: seq<seq<Digit>>)
  {
    |b| == 81 && forall c: Cell :: |b[c]| == 1
  }

  /** Every square of the list holds exactly one candidate. */
  predicate SingleAt(b: seq<seq<Digit>>, cells: seq<Cell>)
    requires |b| == 81
  {
    forall k :: 0 <= k < |cells| ==> |b[cells[k]]| == 1
  }

  /** The digits of the squares in the list, in list order, when none is empty. */
  function Values(b: seq<seq<Digit>>, cells: seq<Cell>): (r: seq<Digit>)
    requires |b| == 81 && forall k :: 0 <= k < |cells| ==> b[cells[k]] != []
    ensures |r| == |cells|
  {
    seq(|cells|, k requires 0 <= k < |cells| => b[cells[k]][0])
  }

  /** Unit u of a board of single candidates holds each digit 1..9 once. */
  predicate UnitComplete(b: seq<seq<Digit>>, u: UnitIndex)
    requires AllSingle(b)
  {
    multiset(Values(b, Unit(u))) == multiset(AllDigits)
  }

  /** Every square holds one digit and every unit holds each of 1..9 once. */
  predicate IsSolved(b: seq<seq<Digit>>)
  {
    AllSingle(b) && forall u: UnitIndex :: UnitComplete(b, u)
  }

  // ---------------------------------------------------------------------------
  // Consistent boards of single candidates are solved

  lemma {:induction false} DistinctAtMostOnce(x: seq<Digit>, v: Digit)
    requires Distinct(x)
    ensures multiset(x)[v] <= 1
  {
    if x != [] {
      assert x == [x[0]] + x[1..];
      DistinctAtMostOnce(x[1..], v);
      if x[0] == v {
        forall j | 0 <= j < |x[1..]| ensures x[1..][j] != v {
          assert x[j + 1] != x[0];
        }
        assert v !in x[1..];
      }
    }
  }

  lemma AllDigitsOnce(v: int)
    ensures multiset(AllDigits)[v] == if 1 <= v <= 9 then 1 else 0
  {
    AllDigitsAscending();
    if 1 <= v <= 9 {
      AscendingAtMostOnce(AllDigits, v);
      assert AllDigits[v - 1] == v;
    } else {
      assert v !in AllDigits;
    }
  }

  lemma DigitCount(x: seq<Digit>, v: int)
    requires Distinct(x) && forall w: Digit :: w in x
    ensures multiset(x)[v] == multiset(AllDigits)[v]
  {
    AllDigitsOnce(v);
    if 1 <= v <= 9 {
      DistinctAtMostOnce(x, v);
      assert v in x;
    } else {
      assert v !in x;
    }
  }

  /** Different digits that include each of 1..9 are a permutation of 1..9. */
  lemma PermutationOfDigits(x: seq<Digit>)
    requires Distinct(x) && forall v: Digit :: v in x
    ensures multiset(x) == multiset(AllDigits)
  {
    forall v: int ensures multiset(x)[v] == multiset(AllDigits)[v] {
      DigitCount(x, v);
    }
  }

  lemma UnitPeers(u: UnitIndex, i: int, j: int)
    requires 0 <= i < j < 9
    ensures Unit(u)[j] in Peers(Unit(u)[i])
  {
    UnitDistinct(u);
    assert Unit(u)[i] in Unit(u) && Unit(u)[j] in Unit(u);
    assert SharesUnit(Unit(u)[i], Unit(u)[j]);
  }

  /** Squares that are pairwise peers hold different digits on a consistent board
      of single candidates. */
  lemma ValuesDistinct(b: seq<seq<Digit>>, cells: seq<Cell>)
    requires Consistent(b) && AllSingle(b)
    requires forall i, j :: 0 <= i < j < |cells| ==> cells[j] in Peers(cells[i])
    ensures Distinct(Values(b, cells))
  {
    var vals := Values(b, cells);
    forall i, j | 0 <= i < j < |cells| ensures vals[i] != vals[j] {
      assert Good(b, cells[i]);
      assert b[cells[i]] == [vals[i]] && b[cells[j]] == [vals[j]];
    }
  }

  /** A digit some square of the list can hold, on a board of single candidates,
      is among the list's digits. */
  lemma ValuesCover(b: seq<seq<Digit>>, cells: seq<Cell>, v: Digit)
    requires AllSingle(b) && exists c: Cell :: c in cells && v in b[c]
    ensures v in Values(b, cells)
  {
    var c: Cell :| c in cells && v in b[c];
    var k :| 0 <= k < |cells| && cells[k] == c;
    assert b[c] == [b[c][0]];
    assert Values(b, cells)[k] == v;
  }

  /** A unit of a consistent board of single candidates is complete. */
  lemma ConsistentUnitComplete(b: seq<seq<Digit>>, u: UnitIndex)
    requires Consistent(b) && AllSingle(b)
    ensures UnitComplete(b, u)
  {
    var cells := Unit(u);
    forall i, j | 0 <= i < j < |cells| ensures cells[j] in Peers(cells[i]) {
      UnitPeers(u, i, j);
    }
    ValuesDistinct(b, cells);
    forall v: Digit ensures v in Values(b, cells) {
      assert HasPlace(b, u, v);
      ValuesCover(b, cells, v);
    }
    PermutationOfDigits(Values(b, cells));
  }

  /** The closure invariant of propagation plus one candidate per square is the
      solved condition: peers differ, and every unit has a place for every digit. */
  lemma ConsistentSingletonsSolved(b: seq<seq<Digit>>)
    requires Consistent(b) && AllSingle(b)
    ensures IsSolved(b)
  {
    forall u: UnitIndex ensures UnitComplete(b, u) {
      ConsistentUnitComplete(b, u);
    }
  }

  // ---------------------------------------------------------------------------
  // String operations of the check, on candidate lists

  /** v occurs in r as a contiguous block (String.contains). */
  function Contains(r: seq<Digit>, v: seq<Digit>): (b: bool)
    ensures |v| == 1 ==> (b <==> v[0] in r)
  {
    (|v| <= |r| && r[..|v|] == v) || (r != [] && Contains(r[1..], v))
  }

  /** Every occurrence of v in r, left to right, removed (String.replace(v, "")). */
  function ReplaceAll(r: seq<Digit>, v: seq<Digit>): (s: seq<Digit>)
    ensures |v| == 1 ==> s == Remove(r, v[0])
    decreases |r|
  {
    if v == [] || r == [] then r
    else if |v| <= |r| && r[..|v|] == v then ReplaceAll(r[|v|..], v)
    else [r[0]] + ReplaceAll(r[1..], v)
  }

  // ---------------------------------------------------------------------------
  // The check as written

  /** unitSolved as the solver writes it: the value of replace is dropped, so the
      remaining digits stay "123456789" and the final length test always fails. */
  method UnitSolvedAsWritten(unit: seq<Cell>, values: array<seq<Digit>>) returns (ok: bool)
    requires values.Length == 81
    ensures !ok
  {
    var removingDigits := AllDigits;
    for i := 0 to |unit| {
      if Contains(removingDigits, values[unit[i]]) {
        var _ := ReplaceAll(removingDigits, values[unit[i]]);
      } else {
        return false;
      }
    }
    return |removingDigits| == 0;
  }

  /** solved as written: returns the board (true) only if every unit passes the
      check above, so it never does. */
  method SolvedAsWritten(values: array?<seq<Digit>>) returns (ok: bool)
    requires values != null ==> values.Length == 81
    ensures !ok
  {
    if values == null {
      return false;
    }
    for u := 0 to 27 {
      var unitOk := UnitSolvedAsWritten(Unit(u), values);
      if !unitOk {
        return false;
      }
    }
    return true;
  }

  // ---------------------------------------------------------------------------
  // The check as intended

  /** One square of the check: if its digit is among the remaining ones, removing
      it keeps the count exact; if not, the digit was already seen (every digit
      starts out remaining once), so the list is not a permutation of 1..9. */
  lemma Step(rest: seq<Digit>, vals: seq<Digit>, i: int, v: seq<Digit>)
    requires 0 <= i < |vals| && v == [vals[i]] && Ascending(rest)
    requires multiset(rest) + multiset(vals[..i]) == multiset(AllDigits)
    ensures Contains(rest, v) ==> (Ascending(ReplaceAll(rest, v)) &&
              multiset(ReplaceAll(rest, v)) + multiset(vals[..i + 1]) == multiset(AllDigits))
    ensures !Contains(rest, v) ==> multiset(vals) != multiset(AllDigits)
  {
    var x := vals[i];
    assert vals[..i + 1] == vals[..i] + [x];
    if x in rest {
      RemoveOnce(rest, x);
    } else {
      AllDigitsOnce(x);
      assert vals == vals[..i] + [x] + vals[i + 1..];
      assert multiset(vals)[x] >= multiset(vals[..i])[x] + 1;
    }
  }

  /** Once the whole list is seen, nothing remains exactly when it was a
      permutation of 1..9. */
  lemma StepDone(rest: seq<Digit>, vals: seq<Digit>)
    requires multiset(rest) + multiset(vals[..|vals|]) == multiset(AllDigits)
    ensures |rest| == 0 <==> multiset(vals) == multiset(AllDigits)
  {
    assert vals[..|vals|] == vals;
    assert |rest| == 0 <==> multiset(rest) == multiset{};
  }

  /** unitSolved with the replaced string kept. On squares of single candidates it
      accepts exactly when they hold each digit 1..9 once. */
  method UnitSolved(unit: seq<Cell>, values: array<seq<Digit>>) returns (ok: bool)
    requires values.Length == 81
    ensures SingleAt(values[..], unit) ==>
              (ok <==> multiset(Values(values[..], unit)) == multiset(AllDigits))
  {
    var removingDigits := AllDigits;
    ghost var single := SingleAt(values[..], unit);
    ghost var vals := if single then Values(values[..], unit) else [];
    AllDigitsAscending();
    for i := 0 to |unit|
      invariant single ==> Ascending(removingDigits)
      invariant single ==> multiset(removingDigits) + multiset(vals[..i]) == multiset(AllDigits)
    {
      var v := values[unit[i]];
      if single {
        assert v == [vals[i]];
        Step(removingDigits, vals, i, v);
      }
      if Contains(removingDigits, v) {
        removingDigits := ReplaceAll(removingDigits, v);
      } else {
        return false;
      }
    }
    if single {
      StepDone(removingDigits, vals);
    }
    return |removingDigits| == 0;
  }

  lemma {:induction false} RemoveCount(r: seq<Digit>, v: Digit)
    ensures multiset(Remove(r, v)) == multiset(r)[v := 0]
  {
    if r != [] {
      RemoveCount(r[1..], v);
      assert r == [r[0]] + r[1..];
      assert multiset(r) == multiset{r[0]} + multiset(r[1..]);
      if r[0] != v {
        assert Remove(r, v) == [r[0]] + Remove(r[1..], v);
        assert multiset(Remove(r, v)) == multiset{r[0]} + multiset(Remove(r[1..], v));
      }
    }
  }

  lemma RemoveOnce(r: seq<Digit>, v: Digit)
    requires Ascending(r) && v in r
    ensures multiset(Remove(r, v)) + multiset{v} == multiset(r)
  {
    AscendingAtMostOnce(r, v);
    RemoveCount(r, v);
  }

  lemma SingleUnit(b: seq<seq<Digit>>, u: UnitIndex)
    requires AllSingle(b)
    ensures SingleAt(b, Unit(u))
  {
  }

  /** solved with the check kept: on a board of single candidates it accepts
      exactly the solved boards. */
  method Solved(values: array?<seq<Digit>>) returns (ok: bool)
    requires values != null ==> values.Length == 81
    ensures values == null ==> !ok
    ensures values != null && AllSingle(values[..]) ==> (ok <==> IsSolved(values[..]))
  {
    if values == null {
      return false;
    }
    ghost var b := values[..];
    ghost var single := AllSingle(b);
    for u := 0 to 27
      invariant single ==> forall w: UnitIndex :: w < u ==> UnitComplete(b, w)
    {
      var unitOk := UnitSolved(Unit(u), values);
      if single {
        SingleUnit(b, u);
        assert unitOk <==> UnitComplete(b, u);
      }
      if !unitOk {
        return false;
      }
      if single {
        forall w: UnitIndex | w < u + 1 ensures UnitComplete(b, w) {
          if w < u {
            assert UnitComplete(b, w);
          }
        }
      }
    }
    return true;
  }

  // ---------------------------------------------------------------------------
  // A solved grid that the check as written rejects

  /** The digit in row r, column k of a fixed solved grid: row r starts at
      3 * (r % 3) + r / 3 and counts up along the row, modulo 9. */
  function ExampleValue(r: int, k: int): Digit
  {
    (3 * (r % 3) + r / 3 + k) % 9 + 1
  }

  function ExampleDigit(c: Cell): Digit
  {
    ExampleValue(Row(c), Col(c))
  }

  function ExampleBoard(): (b: seq<seq<Digit>>)
    ensures AllSingle(b)
  {
    seq(81, c requires 0 <= c < 81 => [ExampleDigit(c)])
  }

  lemma ShiftDiffers(x: int, y: int, o: int)
    requires 0 <= x < 9 && 0 <= y < 9 && x != y
    ensures (x + o) % 9 != (y + o) % 9
  {
  }

  lemma CellsDiffer(c1: Cell, c2: Cell)
    requires c1 != c2
    ensures Row(c1) != Row(c2) || Col(c1) != Col(c2)
  {
    AtRowCol(c1);
    AtRowCol(c2);
  }

  /** Two columns of one row hold different digits. */
  lemma RowPositionsDiffer(r: int, k1: int, k2: int)
    requires 0 <= r < 9 && 0 <= k1 < 9 && 0 <= k2 < 9 && k1 != k2
    ensures ExampleValue(r, k1) != ExampleValue(r, k2)
  {
    ShiftDiffers(k1, k2, 3 * (r % 3) + r / 3);
  }

  /** Two rows of one column hold different digits: the rows start at different
      offsets. */
  lemma ColumnPositionsDiffer(r1: int, r2: int, k: int)
    requires 0 <= r1 < 9 && 0 <= r2 < 9 && 0 <= k < 9 && r1 != r2
    ensures ExampleValue(r1, k) != ExampleValue(r2, k)
  {
    Div3(r1 % 3, r1 / 3);
    Div3(r2 % 3, r2 / 3);
    ShiftDiffers(3 * (r1 % 3) + r1 / 3, 3 * (r2 % 3) + r2 / 3, k);
  }

  /** Two positions of one box differ in their row or column inside the box,
      and the digit is that position shifted by an offset common to the box. */
  lemma BoxPositionsDiffer(r1: int, k1: int, r2: int, k2: int)
    requires 0 <= r1 < 9 && 0 <= k1 < 9 && 0 <= r2 < 9 && 0 <= k2 < 9
    requires r1 / 3 == r2 / 3 && k1 / 3 == k2 / 3 && (r1 != r2 || k1 != k2)
    ensures ExampleValue(r1, k1) != ExampleValue(r2, k2)
  {
    var t1, t2 := 3 * (r1 % 3) + k1 % 3, 3 * (r2 % 3) + k2 % 3;
    Div3(r1 % 3, k1 % 3);
    Div3(r2 % 3, k2 % 3);
    var o := r1 / 3 + 3 * (k1 / 3);
    assert 3 * (r1 % 3) + r1 / 3 + k1 == t1 + o;
    assert 3 * (r2 % 3) + r2 / 3 + k2 == t2 + o;
    ShiftDiffers(t1, t2, o);
  }

  /** Peers hold different digits on the example grid. */
  lemma ExampleDigitsDiffer(c1: Cell, c2: Cell)
    requires c2 in Peers(c1)
    ensures ExampleDigit(c1) != ExampleDigit(c2)
  {
    SharesUnitIff(c1, c2);
    BoxSame(c1, c2);
    CellsDiffer(c1, c2);
    if Row(c1) == Row(c2) {
      RowPositionsDiffer(Row(c1), Col(c1), Col(c2));
    } else if Col(c1) == Col(c2) {
      ColumnPositionsDiffer(Row(c1), Row(c2), Col(c1));
    } else {
      BoxPositionsDiffer(Row(c1), Col(c1), Row(c2), Col(c2));
    }
  }

  /** Nine different digits include every digit 1..9. */
  lemma DistinctDigitsCover(x: seq<Digit>)
    requires |x| == 9 && Distinct(x)
    ensures forall v: Digit :: v in x
  {
    AllDigitsAscending();
    assert Distinct(AllDigits);
    DistinctCard(x);
    DistinctCard(AllDigits);
    var sx := set w: Digit | w in x;
    var sa := set w: Digit | w in AllDigits;
    forall w | w in sx ensures w in sa {
      assert AllDigits[w - 1] == w;
    }
    assert sa == sx + (sa - sx);
    assert sa - sx == {};
    forall v: Digit ensures v in x {
      assert AllDigits[v - 1] == v;
      assert v in sa;
    }
  }

  lemma ExampleUnitComplete(u: UnitIndex)
    ensures UnitComplete(ExampleBoard(), u)
  {
    var b, cells := ExampleBoard(), Unit(u);
    var vals := Values(b, cells);
    forall i, j | 0 <= i < j < 9 ensures vals[i] != vals[j] {
      UnitPeers(u, i, j);
      ExampleDigitsDiffer(cells[i], cells[j]);
    }
    DistinctDigitsCover(vals);
    PermutationOfDigits(vals);
  }

  lemma ExampleSolved()
    ensures IsSolved(ExampleBoard())
  {
    forall u: UnitIndex ensures UnitComplete(ExampleBoard(), u) {
      ExampleUnitComplete(u);
    }
  }

  /** On the example grid, the check with the replaced string kept accepts the
      board and the check as written rejects it. */
  method SolvedGridRejected() returns (intended: bool, asWritten: bool)
    ensures intended && !asWritten
  {
    var board := new seq<Digit>[81](c requires 0 <= c < 81 => [ExampleDigit(c)]);
    assert board[..] == ExampleBoard();
    ExampleSolved();
    intended := Solved(board);
    asWritten := SolvedAsWritten(board);
  }
}
