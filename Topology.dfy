/** The fixed structure of a 9x9 board: squares, units and peers.
    Squares are numbered 0..80 in row-major order (A1 is 0, A9 is 8, I9 is 80).
    Units are numbered in the order the solver lists them: 0..8 the columns,
    9..17 the rows, 18..26 the boxes (column band outer, row band inner). */
module Topology {

  type Cell = c: int | 0 <= c < 81
  type UnitIndex = u: int | 0 <= u < 27
  type Digit = d: int | 1 <= d <= 9 witness 1

  const Rows: string := "ABCDEFGHI"
  const Cols: string := "123456789"

  function Row(c: Cell): int { c / 9 }
  function Col(c: Cell): int { c % 9 }
  /** Position of the box of c among the nine boxes of the unit list. */
  function Box(c: Cell): int { 3 * (Col(c) / 3) + Row(c) / 3 }

  /** The square in row r, column k. */
  function At(r: int, k: int): (c: Cell)
    requires 0 <= r < 9 && 0 <= k < 9
    ensures Row(c) == r && Col(c) == k
  {
    9 * r + k
  }

  lemma AtRowCol(c: Cell)
    ensures At(Row(c), Col(c)) == c
  {
  }

  // ---------------------------------------------------------------------------
  // Square names

  /** The two-character names formed by a letter of a followed by a character of b,
      a outer and b inner. */
  function Cross(a: string, b: string): (r: seq<string>)
    ensures |r| == |a| * |b|
  {
    if a == [] then []
    else seq(|b|, j requires 0 <= j < |b| => [a[0], b[j]]) + Cross(a[1..], b)
  }

  lemma {:induction false} CrossAt(a: string, b: string, i: int, j: int)
    requires 0 <= i < |a| && 0 <= j < |b|
    ensures i * |b| + j < |Cross(a, b)|
    ensures Cross(a, b)[i * |b| + j] == [a[i], b[j]]
  {
    if i > 0 {
      CrossAt(a[1..], b, i - 1, j);
      assert i * |b| + j == |b| + ((i - 1) * |b| + j);
    }
  }

  function Squares(): seq<string>
  {
    Cross(Rows, Cols)
  }

  lemma CrossNine(a: string, b: string)
    requires |a| == 9 && |b| == 9
    ensures |Cross(a, b)| == 81
    ensures forall c: Cell :: Cross(a, b)[c] == [a[Row(c)], b[Col(c)]]
  {
    forall c: Cell ensures Cross(a, b)[c] == [a[Row(c)], b[Col(c)]] {
      CrossAt(a, b, Row(c), Col(c));
    }
  }

  lemma SquareNamesDiffer(c1: Cell, c2: Cell)
    requires c1 != c2
    ensures [Rows[Row(c1)], Cols[Col(c1)]] != [Rows[Row(c2)], Cols[Col(c2)]]
  {
    AtRowCol(c1);
    AtRowCol(c2);
    assert Distinct(Rows) && Distinct(Cols);
    assert Row(c1) != Row(c2) || Col(c1) != Col(c2);
  }

  /** There are 81 square names, in row-major order, all different. */
  lemma SquaresRowMajor()
    ensures |Squares()| == 81
    ensures forall c: Cell :: Squares()[c] == [Rows[Row(c)], Cols[Col(c)]]
    ensures forall c1: Cell, c2: Cell :: c1 != c2 ==> Squares()[c1] != Squares()[c2]
  {
    CrossNine(Rows, Cols);
    forall c1: Cell, c2: Cell | c1 != c2 ensures Squares()[c1] != Squares()[c2] {
      SquareNamesDiffer(c1, c2);
    }
  }

  // ---------------------------------------------------------------------------
  // Units

  /** Unit u of the unit list: a column, a row or a box, listed row by row. */
  function Unit(u: UnitIndex): (r: seq<Cell>)
    ensures |r| == 9
  {
    if u < 9 then seq(9, k requires 0 <= k < 9 => At(k, u))
    else if u < 18 then seq(9, k requires 0 <= k < 9 => At(u - 9, k))
    else seq(9, k requires 0 <= k < 9 => At(3 * ((u - 18) % 3) + k / 3, 3 * ((u - 18) / 3) + k % 3))
  }

  /** Which kind of membership unit u stands for. */
  predicate InUnit(c: Cell, u: UnitIndex)
  {
    if u < 9 then Col(c) == u
    else if u < 18 then Row(c) == u - 9
    else Box(c) == u - 18
  }

  lemma Div3(x: int, y: int)
    requires 0 <= y < 3
    ensures (3 * x + y) / 3 == x && (3 * x + y) % 3 == y
  {
  }

  lemma BoxAt(u: UnitIndex, k: int)
    requires 18 <= u && 0 <= k < 9
    ensures Box(Unit(u)[k]) == u - 18
  {
    var b := u - 18;
    Div3(b / 3, b % 3);
    Div3(b % 3, k / 3);
    Div3(b / 3, k % 3);
    var c := Unit(u)[k];
    assert c == At(3 * (b % 3) + k / 3, 3 * (b / 3) + k % 3);
    assert Row(c) / 3 == b % 3;
    assert Col(c) / 3 == b / 3;
  }

  lemma BoxIndexOf(c: Cell)
    ensures c == Unit(18 + Box(c))[3 * (Row(c) % 3) + Col(c) % 3]
  {
    var b := Box(c);
    var k := 3 * (Row(c) % 3) + Col(c) % 3;
    Div3(Col(c) / 3, Row(c) / 3);
    Div3(Row(c) % 3, Col(c) % 3);
    assert b / 3 == Col(c) / 3 && b % 3 == Row(c) / 3;
    assert k / 3 == Row(c) % 3 && k % 3 == Col(c) % 3;
    AtRowCol(c);
  }

  lemma BoxMembership(c: Cell, u: UnitIndex)
    requires 18 <= u
    ensures c in Unit(u) <==> Box(c) == u - 18
  {
    if c in Unit(u) {
      var k :| 0 <= k < 9 && Unit(u)[k] == c;
      BoxAt(u, k);
    }
    if Box(c) == u - 18 {
      BoxIndexOf(c);
    }
  }

  lemma UnitMembership(c: Cell, u: UnitIndex)
    ensures c in Unit(u) <==> InUnit(c, u)
  {
    AtRowCol(c);
    if u < 9 {
      if InUnit(c, u) { assert Unit(u)[Row(c)] == c; }
    } else if u < 18 {
      if InUnit(c, u) { assert Unit(u)[Col(c)] == c; }
    } else {
      BoxMembership(c, u);
    }
  }

  lemma BoxCellsDiffer(u: UnitIndex, i: int, j: int)
    requires 18 <= u && 0 <= i < j < 9
    ensures Unit(u)[i] != Unit(u)[j]
  {
    var t := u - 18;
    assert Row(Unit(u)[i]) == 3 * (t % 3) + i / 3 && Col(Unit(u)[i]) == 3 * (t / 3) + i % 3;
    assert Row(Unit(u)[j]) == 3 * (t % 3) + j / 3 && Col(Unit(u)[j]) == 3 * (t / 3) + j % 3;
  }

  lemma UnitDistinct(u: UnitIndex)
    ensures Distinct(Unit(u))
  {
    forall i, j | 0 <= i < j < 9 ensures Unit(u)[i] != Unit(u)[j] {
      if u >= 18 {
        BoxCellsDiffer(u, i, j);
      }
    }
  }

  /** The list of all 27 units. */
  function UnitList(): (r: seq<seq<Cell>>)
    ensures |r| == 27
    ensures forall u: UnitIndex :: |r[u]| == 9 && Distinct(r[u])
    ensures forall c: Cell, u: UnitIndex :: c in r[u] <==> InUnit(c, u)
  {
    var r := seq(27, u requires 0 <= u < 27 => Unit(u));
    forall u: UnitIndex ensures Distinct(r[u]) && forall c: Cell :: c in r[u] <==> InUnit(c, u) {
      UnitDistinct(u);
      forall c: Cell ensures c in r[u] <==> InUnit(c, u) {
        UnitMembership(c, u);
      }
    }
    r
  }

  /** The units that contain square s, in unit-list order: its column, its row, its box. */
  function UnitsOf(s: Cell): (r: seq<UnitIndex>)
    ensures |r| == 3 && r[0] < r[1] < r[2]
    ensures r[0] < 9 <= r[1] < 18 <= r[2]
    ensures forall u: UnitIndex :: u in r <==> s in Unit(u)
  {
    var r := [Col(s), 9 + Row(s), 18 + Box(s)];
    forall u: UnitIndex ensures u in r <==> s in Unit(u) {
      UnitMembership(s, u);
    }
    r
  }

  // ---------------------------------------------------------------------------
  // Peers

  predicate SharesUnit(a: Cell, b: Cell)
  {
    exists u: UnitIndex :: a in Unit(u) && b in Unit(u)
  }

  lemma SharesUnitIff(a: Cell, b: Cell)
    ensures SharesUnit(a, b) <==> Row(a) == Row(b) || Col(a) == Col(b) || Box(a) == Box(b)
  {
    if SharesUnit(a, b) {
      var u: UnitIndex :| a in Unit(u) && b in Unit(u);
      UnitMembership(a, u);
      UnitMembership(b, u);
    }
    var u: UnitIndex := if Col(a) == Col(b) then Col(b) else if Row(a) == Row(b) then 9 + Row(b) else 18 + Box(b);
    if Row(a) == Row(b) || Col(a) == Col(b) || Box(a) == Box(b) {
      UnitMembership(a, u);
      UnitMembership(b, u);
      assert a in Unit(u) && b in Unit(u);
    }
  }

  predicate Distinct<T(==)>(xs: seq<T>)
  {
    forall i, j :: 0 <= i < j < |xs| ==> xs[i] != xs[j]
  }

  /** The peer-list builder: appends each square of xs that is not s and not yet listed. */
  function AddNew(acc: seq<Cell>, xs: seq<Cell>, s: Cell): (r: seq<Cell>)
    requires Distinct(acc) && s !in acc
    ensures Distinct(r) && s !in r
    ensures forall x :: x in r <==> x in acc || (x in xs && x != s)
    ensures |acc| <= |r| && r[..|acc|] == acc
    decreases |xs|
  {
    if xs == [] then acc
    else if xs[0] != s && xs[0] !in acc then AddNew(acc + [xs[0]], xs[1..], s)
    else AddNew(acc, xs[1..], s)
  }

  /** The squares of the units of s, unit after unit, in unit-list order. */
  function UnitSquares(s: Cell): seq<Cell>
  {
    var us := UnitsOf(s);
    Unit(us[0]) + Unit(us[1]) + Unit(us[2])
  }

  lemma UnitSquaresMembers(s: Cell, x: Cell)
    ensures x in UnitSquares(s) <==> SharesUnit(s, x)
  {
    var us := UnitsOf(s);
    if SharesUnit(s, x) {
      var u: UnitIndex :| s in Unit(u) && x in Unit(u);
      assert u in us;
    }
    if x in UnitSquares(s) {
      assert x in Unit(us[0]) || x in Unit(us[1]) || x in Unit(us[2]);
      assert s in Unit(us[0]) && s in Unit(us[1]) && s in Unit(us[2]);
    }
  }

  /** The peers of s: the squares of its column, row and box, without s, each once,
      in the order the builder meets them. */
  function Peers(s: Cell): (r: seq<Cell>)
    ensures Distinct(r) && s !in r
    ensures forall x: Cell :: x in r <==> x != s && SharesUnit(s, x)
  {
    var r := AddNew([], UnitSquares(s), s);
    forall x: Cell ensures x in r <==> x != s && SharesUnit(s, x) {
      UnitSquaresMembers(s, x);
    }
    r
  }

  lemma PeersSymmetric(a: Cell, b: Cell)
    ensures b in Peers(a) <==> a in Peers(b)
  {
    if SharesUnit(a, b) {
      var u: UnitIndex :| a in Unit(u) && b in Unit(u);
      assert SharesUnit(b, a);
    }
    if SharesUnit(b, a) {
      var u: UnitIndex :| b in Unit(u) && a in Unit(u);
      assert SharesUnit(a, b);
    }
  }


  // ---------------------------------------------------------------------------
  // Every square has exactly 20 peers

  /** The j-th (j = 0 or 1) of the two rows (or columns) in the band of r other than r. */
  function OtherInBand(r: int, j: int): (o: int)
    requires 0 <= r < 9 && 0 <= j < 2
    ensures 0 <= o < 9 && o / 3 == r / 3 && o != r
  {
    var k := if j < r % 3 then j else j + 1;
    Div3(r / 3, k);
    Div3(r / 3, r % 3);
    3 * (r / 3) + k
  }

  lemma OtherInBandInjective(r: int)
    requires 0 <= r < 9
    ensures OtherInBand(r, 0) != OtherInBand(r, 1)
  {
  }

  lemma OtherInBandCovers(r: int, o: int) returns (j: int)
    requires 0 <= r < 9 && 0 <= o < 9 && o / 3 == r / 3 && o != r
    ensures 0 <= j < 2 && OtherInBand(r, j) == o
  {
    Div3(r / 3, r % 3);
    Div3(o / 3, o % 3);
    j := if o % 3 < r % 3 then o % 3 else o % 3 - 1;
  }

  /** The i-th (i = 0..7) of the numbers 0..8 other than r. */
  function Skip(r: int, i: int): (k: int)
    requires 0 <= r < 9 && 0 <= i < 8
    ensures 0 <= k < 9 && k != r
  {
    if i < r then i else i + 1
  }

  /** The squares of the column of s other than s, top to bottom. */
  function ColumnRest(s: Cell): (r: seq<Cell>)
    ensures |r| == 8 && Distinct(r)
    ensures forall i :: 0 <= i < 8 ==> Col(r[i]) == Col(s) && Row(r[i]) != Row(s)
  {
    seq(8, i requires 0 <= i < 8 => At(Skip(Row(s), i), Col(s)))
  }

  /** The squares of the row of s other than s, left to right. */
  function RowRest(s: Cell): (r: seq<Cell>)
    ensures |r| == 8 && Distinct(r)
    ensures forall i :: 0 <= i < 8 ==> Row(r[i]) == Row(s) && Col(r[i]) != Col(s)
  {
    seq(8, i requires 0 <= i < 8 => At(Row(s), Skip(Col(s), i)))
  }

  /** The four squares of the box of s in neither its row nor its column, row by row. */
  function BoxRest(s: Cell): (r: seq<Cell>)
    ensures |r| == 4 && Distinct(r)
    ensures forall i :: 0 <= i < 4 ==>
      Row(r[i]) != Row(s) && Col(r[i]) != Col(s) && Row(r[i]) / 3 == Row(s) / 3 && Col(r[i]) / 3 == Col(s) / 3
  {
    OtherInBandInjective(Row(s));
    OtherInBandInjective(Col(s));
    [At(OtherInBand(Row(s), 0), OtherInBand(Col(s), 0)), At(OtherInBand(Row(s), 0), OtherInBand(Col(s), 1)),
     At(OtherInBand(Row(s), 1), OtherInBand(Col(s), 0)), At(OtherInBand(Row(s), 1), OtherInBand(Col(s), 1))]
  }

  /** The peers of s listed by kind: the 20 squares of the three lists above. */
  function PeersByKind(s: Cell): (r: seq<Cell>)
    ensures |r| == 20
  {
    ColumnRest(s) + RowRest(s) + BoxRest(s)
  }

  lemma BoxSame(a: Cell, b: Cell)
    ensures Box(a) == Box(b) <==> Row(a) / 3 == Row(b) / 3 && Col(a) / 3 == Col(b) / 3
  {
    Div3(Col(a) / 3, Row(a) / 3);
    Div3(Col(b) / 3, Row(b) / 3);
  }

  lemma ColumnRestCovers(s: Cell, x: Cell)
    requires x != s && Col(x) == Col(s)
    ensures x in ColumnRest(s)
  {
    AtRowCol(x);
    AtRowCol(s);
    var i := if Row(x) < Row(s) then Row(x) else Row(x) - 1;
    assert ColumnRest(s)[i] == x;
  }

  lemma RowRestCovers(s: Cell, x: Cell)
    requires x != s && Row(x) == Row(s)
    ensures x in RowRest(s)
  {
    AtRowCol(x);
    AtRowCol(s);
    var i := if Col(x) < Col(s) then Col(x) else Col(x) - 1;
    assert RowRest(s)[i] == x;
  }

  lemma BoxRestCovers(s: Cell, x: Cell)
    requires Row(x) != Row(s) && Col(x) != Col(s) && Row(x) / 3 == Row(s) / 3 && Col(x) / 3 == Col(s) / 3
    ensures x in BoxRest(s)
  {
    AtRowCol(x);
    var j1 := OtherInBandCovers(Row(s), Row(x));
    var j2 := OtherInBandCovers(Col(s), Col(x));
    var br := BoxRest(s);
    if j1 == 0 {
      if j2 == 0 { assert br[0] == x; } else { assert br[1] == x; }
    } else {
      if j2 == 0 { assert br[2] == x; } else { assert br[3] == x; }
    }
  }

  lemma PeersByKindMembers(s: Cell, x: Cell)
    ensures x in PeersByKind(s) <==> x != s && (Row(x) == Row(s) || Col(x) == Col(s) || Box(x) == Box(s))
  {
    var cr, rr, br := ColumnRest(s), RowRest(s), BoxRest(s);
    assert x in PeersByKind(s) <==> x in cr || x in rr || x in br;
    BoxSame(x, s);
    AtRowCol(s);
    if x != s && (Row(x) == Row(s) || Col(x) == Col(s) || Box(x) == Box(s)) {
      if Col(x) == Col(s) {
        ColumnRestCovers(s, x);
      } else if Row(x) == Row(s) {
        RowRestCovers(s, x);
      } else {
        BoxRestCovers(s, x);
      }
    }
    if x in cr || x in rr || x in br {
      AtRowCol(x);
    }
  }

  lemma PeersByKindDistinct(s: Cell)
    ensures Distinct(PeersByKind(s))
  {
    var cr, rr, br := ColumnRest(s), RowRest(s), BoxRest(s);
    var r := PeersByKind(s);
    forall i, j | 0 <= i < j < 20 ensures r[i] != r[j] {
      if j < 8 {
        assert r[i] == cr[i] && r[j] == cr[j];
      } else if i < 8 {
        assert r[i] == cr[i];
        assert j < 16 ==> r[j] == rr[j - 8];
        assert 16 <= j ==> r[j] == br[j - 16];
      } else if j < 16 {
        assert r[i] == rr[i - 8] && r[j] == rr[j - 8];
      } else if i < 16 {
        assert r[i] == rr[i - 8] && r[j] == br[j - 16];
      } else {
        assert r[i] == br[i - 16] && r[j] == br[j - 16];
      }
    }
  }

  lemma {:induction false} DistinctCard<T>(xs: seq<T>)
    requires Distinct(xs)
    ensures |set x: T | x in xs| == |xs|
  {
    if xs != [] {
      DistinctCard(xs[1..]);
      assert (set x | x in xs) == {xs[0]} + (set x | x in xs[1..]);
    }
  }

  lemma SameElementsSameLength(p: seq<Cell>, q: seq<Cell>)
    requires Distinct(p) && Distinct(q)
    requires (set x: Cell | x in p) == (set x: Cell | x in q)
    ensures |p| == |q|
  {
    DistinctCard(p);
    DistinctCard(q);
  }

  lemma PeersAsSet(s: Cell)
    ensures (set x: Cell | x in Peers(s)) == (set x: Cell | x in PeersByKind(s))
  {
    forall x: Cell ensures x in Peers(s) <==> x in PeersByKind(s) {
      SharesUnitIff(s, x);
      PeersByKindMembers(s, x);
    }
  }

  /** Every square has exactly 20 peers, all different, none of them the square itself. */
  lemma PeerCount(s: Cell)
    ensures |Peers(s)| == 20 && Distinct(Peers(s)) && s !in Peers(s)
  {
    PeersAsSet(s);
    PeersByKindDistinct(s);
    SameElementsSameLength(Peers(s), PeersByKind(s));
  }
}
