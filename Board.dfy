/** The board state the solver passes around: for every square, the digits still
    possible there. The solver keeps each square's candidates as a string of digit
    characters taken from "123456789" in that order; here it is a sequence of digits
    in increasing order. */
module Board {
  import opened Topology

  function DigitRange(): (r: seq<Digit>)
    ensures |r| == 9
  {
    seq(9, i requires 0 <= i < 9 => i + 1)
  }

  /** The solver's digits "123456789": every candidate, in increasing order. */
  const AllDigits: seq<Digit> := DigitRange()

  predicate Ascending(x: seq<Digit>)
  {
    forall i, j :: 0 <= i < j < |x| ==> x[i] < x[j]
  }

  lemma AllDigitsAscending()
    ensures Ascending(AllDigits)
    ensures forall i :: 0 <= i < 9 ==> AllDigits[i] == i + 1
  {
    assert forall i :: 0 <= i < 9 ==> AllDigits[i] == i + 1;
  }

  predicate WellFormed(b: seq<seq<Digit>>)
  {
    |b| == 81 && forall c: Cell :: Ascending(b[c])
  }

  /** The candidates x without d: the solver's replace(d, "") on a square's string. */
  function Remove(x: seq<Digit>, d: Digit): (r: seq<Digit>)
    ensures forall v :: v in r <==> v in x && v != d
    ensures Ascending(x) ==> Ascending(r)
    ensures d !in x ==> r == x
  {
    if x == [] then []
    else if x[0] == d then Remove(x[1..], d)
    else
      var r := Remove(x[1..], d);
      assert d !in x ==> [x[0]] + r == x by {
        if d !in x { assert d !in x[1..]; assert [x[0]] + x[1..] == x; }
      }
      assert Ascending(x) ==> Ascending([x[0]] + r) by {
        if Ascending(x) {
          forall j | 0 <= j < |r| ensures x[0] < r[j] {
            assert r[j] in x[1..];
          }
        }
      }
      [x[0]] + r
  }

  lemma {:induction false} AscendingAtMostOnce(x: seq<Digit>, v: Digit)
    requires Ascending(x)
    ensures multiset(x)[v] <= 1
  {
    if x != [] {
      assert x == [x[0]] + x[1..];
      AscendingAtMostOnce(x[1..], v);
      if x[0] == v {
        assert forall j :: 0 <= j < |x[1..]| ==> x[1..][j] != v by {
          forall j | 0 <= j < |x[1..]| ensures x[1..][j] != v {
            assert x[0] < x[j + 1];
          }
        }
        assert v !in x[1..];
      }
    }
  }

  lemma {:induction false} AllSameCount(x: seq<Digit>, d: Digit)
    requires forall v :: v in x ==> v == d
    ensures multiset(x)[d] == |x|
  {
    if x != [] {
      assert x == [x[0]] + x[1..];
      assert x[0] in x;
      forall v | v in x[1..] ensures v == d {
        assert v in x;
      }
      AllSameCount(x[1..], d);
      assert multiset(x) == multiset([x[0]]) + multiset(x[1..]);
    }
  }

  /** An ascending, nonempty list whose only element can be d is [d]. */
  lemma OnlyDigit(x: seq<Digit>, d: Digit)
    requires Ascending(x) && x != []
    requires forall v :: v in x ==> v == d
    ensures x == [d]
  {
    AscendingAtMostOnce(x, d);
    AllSameCount(x, d);
    assert x[0] in x;
  }

  // ---------------------------------------------------------------------------
  // Relations between a board and a later board

  /** No square gained a candidate from b0 to b. */
  predicate Shrunk(b0: seq<seq<Digit>>, b: seq<seq<Digit>>)
  {
    |b0| == 81 && |b| == 81 &&
    forall c: Cell, v :: v in b[c] ==> v in b0[c]
  }

  /** Square c has a candidate, and when it has exactly one, no peer still holds it. */
  predicate Good(b: seq<seq<Digit>>, c: Cell)
    requires |b| == 81
  {
    b[c] != [] &&
    (|b[c]| == 1 ==> forall p :: p in Peers(c) ==> b[c][0] !in b[p])
  }

  /** Every square whose candidates changed from b0 to b is good in b. */
  predicate ChangedGood(b0: seq<seq<Digit>>, b: seq<seq<Digit>>)
    requires |b0| == 81 && |b| == 81
  {
    forall c: Cell :: b[c] != b0[c] ==> Good(b, c)
  }

  /** Some square of unit u can still hold x. */
  predicate HasPlace(b: seq<seq<Digit>>, u: UnitIndex, x: Digit)
    requires |b| == 81
  {
    exists c: Cell :: c in Unit(u) && x in b[c]
  }

  /** Every unit that had a place for a digit in b0 still has one in b. */
  predicate PlacesKept(b0: seq<seq<Digit>>, b: seq<seq<Digit>>)
    requires |b0| == 81 && |b| == 81
  {
    forall u: UnitIndex, x: Digit :: HasPlace(b0, u, x) ==> HasPlace(b, u, x)
  }

  /** Square c is the only square of unit u that can still hold x. */
  predicate OnlyPlace(b: seq<seq<Digit>>, u: UnitIndex, x: Digit, c: Cell)
    requires |b| == 81
  {
    c in Unit(u) && x in b[c] && forall c2: Cell :: c2 in Unit(u) && x in b[c2] ==> c2 == c
  }

  /** Some square of unit u could hold x in b0 and can no longer in b. */
  predicate LostPlace(b0: seq<seq<Digit>>, b: seq<seq<Digit>>, u: UnitIndex, x: Digit)
    requires |b0| == 81 && |b| == 81
  {
    exists c: Cell :: c in Unit(u) && x in b0[c] && x !in b[c]
  }

  /** Every unit that lost a place for a digit from b0 to b, and has one place
      left for it, has that digit assigned there. */
  predicate HiddenSinglesPlaced(b0: seq<seq<Digit>>, b: seq<seq<Digit>>)
    requires |b0| == 81 && |b| == 81
  {
    forall u: UnitIndex, x: Digit, c: Cell ::
      LostPlace(b0, b, u, x) && OnlyPlace(b, u, x, c) ==> b[c] == [x]
  }

  /** What a successful propagation step guarantees about its effect. */
  predicate Progress(b0: seq<seq<Digit>>, b: seq<seq<Digit>>)
  {
    Shrunk(b0, b) && ChangedGood(b0, b) && PlacesKept(b0, b) && HiddenSinglesPlaced(b0, b)
  }

  /** The two contradictions the solver detects: a square without candidates,
      or a unit with no place left for some digit. */
  predicate Contradicted(b: seq<seq<Digit>>)
    requires |b| == 81
  {
    (exists c: Cell :: b[c] == []) ||
    (exists u: UnitIndex, x: Digit :: !HasPlace(b, u, x))
  }

  /** The closure invariant of successful propagation: every square is good and
      every unit has a place for every digit. */
  predicate Consistent(b: seq<seq<Digit>>)
  {
    WellFormed(b) &&
    (forall c: Cell :: Good(b, c)) &&
    (forall u: UnitIndex, x: Digit :: HasPlace(b, u, x))
  }

  lemma ConsistentNotContradicted(b: seq<seq<Digit>>)
    requires Consistent(b)
    ensures !Contradicted(b)
  {
    forall c: Cell ensures b[c] != [] {
      assert Good(b, c);
    }
  }

  lemma GoodStays(b0: seq<seq<Digit>>, b: seq<seq<Digit>>, c: Cell)
    requires Shrunk(b0, b) && Good(b0, c) && b[c] == b0[c]
    ensures Good(b, c)
  {
  }

  /** A hidden single placed before a step stays placed through it: either the
      step itself took a place of x from u, or the places of x in u are the same
      before and after. */
  lemma HiddenStays(b1: seq<seq<Digit>>, b2: seq<seq<Digit>>, u: UnitIndex, x: Digit, c: Cell)
    requires WellFormed(b2) && Shrunk(b1, b2) && HiddenSinglesPlaced(b1, b2)
    requires OnlyPlace(b2, u, x, c)
    requires OnlyPlace(b1, u, x, c) ==> b1[c] == [x]
    ensures b2[c] == [x]
  {
    if !LostPlace(b1, b2, u, x) {
      forall c2: Cell | c2 in Unit(u) && x in b1[c2] ensures c2 == c {
        assert x in b2[c2];
      }
      assert OnlyPlace(b1, u, x, c);
      forall v | v in b2[c] ensures v == x {
        assert v in b1[c];
      }
      assert Ascending(b2[c]);
      OnlyDigit(b2[c], x);
    }
  }

  lemma {:induction false} ProgressTrans(b0: seq<seq<Digit>>, b1: seq<seq<Digit>>, b2: seq<seq<Digit>>)
    requires Progress(b0, b1) && Progress(b1, b2) && WellFormed(b2)
    ensures Progress(b0, b2)
  {
    forall c: Cell | b2[c] != b0[c] ensures Good(b2, c) {
      if b2[c] == b1[c] {
        GoodStays(b1, b2, c);
      }
    }
    forall u: UnitIndex, x: Digit, c: Cell | LostPlace(b0, b2, u, x) && OnlyPlace(b2, u, x, c)
      ensures b2[c] == [x]
    {
      if !LostPlace(b1, b2, u, x) {
        var c0: Cell :| c0 in Unit(u) && x in b0[c0] && x !in b2[c0];
        assert LostPlace(b0, b1, u, x);
      }
      HiddenStays(b1, b2, u, x, c);
    }
  }

  /** A successful step from a consistent board leads to a consistent board. */
  lemma ProgressKeepsConsistent(b0: seq<seq<Digit>>, b: seq<seq<Digit>>)
    requires Consistent(b0) && WellFormed(b) && Progress(b0, b)
    ensures Consistent(b)
  {
    forall c: Cell ensures Good(b, c) {
      if b[c] == b0[c] {
        GoodStays(b0, b, c);
      }
    }
  }

  // ---------------------------------------------------------------------------
  // The termination measure: how many (square, digit) candidates remain

  function Size(x: seq<Digit>, k: nat): (n: nat)
    requires k <= 9
  {
    if k == 0 then 0 else (if k in x then 1 else 0) + Size(x, k - 1)
  }

  function MeasureUpTo(b: seq<seq<Digit>>, n: nat): nat
    requires n <= |b|
  {
    if n == 0 then 0 else Size(b[n - 1], 9) + MeasureUpTo(b, n - 1)
  }

  function Measure(b: seq<seq<Digit>>): nat
  {
    MeasureUpTo(b, |b|)
  }

  lemma {:induction false} SizeMono(x: seq<Digit>, y: seq<Digit>, k: nat, d: int)
    requires k <= 9
    requires forall v :: v in y ==> v in x
    ensures Size(y, k) <= Size(x, k)
    ensures 1 <= d <= k && d in x && d !in y ==> Size(y, k) < Size(x, k)
  {
    if k > 0 {
      SizeMono(x, y, k - 1, d);
    }
  }

  lemma {:induction false} MeasureMonoUpTo(b0: seq<seq<Digit>>, b: seq<seq<Digit>>, n: nat, c: int, d: int)
    requires Shrunk(b0, b) && n <= 81
    ensures MeasureUpTo(b, n) <= MeasureUpTo(b0, n)
    ensures 0 <= c < n && 1 <= d <= 9 && d in b0[c] && d !in b[c] ==> MeasureUpTo(b, n) < MeasureUpTo(b0, n)
  {
    if n > 0 {
      MeasureMonoUpTo(b0, b, n - 1, c, d);
      SizeMono(b0[n - 1], b[n - 1], 9, d);
    }
  }

  /** The measure never grows as boards shrink, and drops when a candidate goes. */
  lemma MeasureMono(b0: seq<seq<Digit>>, b: seq<seq<Digit>>, c: Cell, d: Digit)
    requires Shrunk(b0, b)
    ensures Measure(b) <= Measure(b0)
    ensures d in b0[c] && d !in b[c] ==> Measure(b) < Measure(b0)
  {
    MeasureMonoUpTo(b0, b, 81, c, d);
  }
}
