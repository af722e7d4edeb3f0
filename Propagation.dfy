/** Constraint propagation: assign and eliminate, which narrow the candidates of a
    board in place and report a contradiction by returning false (the solver's null). */
module Propagation {
  import opened Topology
  import opened Board

  /** The squares of unit u that can still hold d, in unit order. */
  method Places(a: array<seq<Digit>>, u: UnitIndex, d: Digit) returns (places: seq<Cell>)
    requires a.Length == 81
    ensures Distinct(places)
    ensures forall c: Cell :: c in places <==> c in Unit(u) && d in a[c]
    ensures places == [] <==> !HasPlace(a[..], u, d)
  {
    var unit := Unit(u);
    UnitDistinct(u);
    places := [];
    var k := 0;
    while k < 9
      invariant 0 <= k <= 9
      invariant Distinct(places)
      invariant forall c: Cell :: c in places <==> c in unit[..k] && d in a[c]
    {
      if d in a[unit[k]] {
        assert unit[k] !in unit[..k];
        places := places + [unit[k]];
      }
      assert unit[..k + 1] == unit[..k] + [unit[k]];
      k := k + 1;
    }
    assert unit[..9] == unit;
    if places != [] {
      assert places[0] in places;
      assert places[0] in Unit(u) && d in a[..][places[0]];
    }
  }

  /** Removing d from square s: the only place the solver writes a board. */
  lemma RemovalStep(b0: seq<seq<Digit>>, b1: seq<seq<Digit>>, s: Cell, d: Digit)
    requires WellFormed(b0) && d in b0[s] && b1 == b0[s := Remove(b0[s], d)]
    ensures WellFormed(b1) && Shrunk(b0, b1) && d !in b1[s]
    ensures Measure(b1) < Measure(b0)
  {
    MeasureMono(b0, b1, s, d);
  }

  /** After rule 1, every square eliminate changed is good: the narrowed square
      either was changed again by a nested step (which leaves it good) or is
      single and its value was taken from every peer. */
  lemma RuleOneSettles(b0: seq<seq<Digit>>, b1: seq<seq<Digit>>, b2: seq<seq<Digit>>, s: Cell, d: Digit)
    requires WellFormed(b0) && d in b0[s] && b1 == b0[s := Remove(b0[s], d)]
    requires b1[s] != [] && Progress(b1, b2)
    requires |b1[s]| == 1 ==> forall p :: p in Peers(s) ==> b1[s][0] !in b2[p]
    ensures Shrunk(b0, b2) && ChangedGood(b0, b2)
  {
    RemovalStep(b0, b1, s, d);
    forall c: Cell | b2[c] != b0[c] ensures Good(b2, c) {
      if c != s {
        assert b1[c] == b0[c];
      }
    }
  }

  /** After rule 2, every unit keeps a place for every digit it had a place for:
      the units of s were checked for d, and nothing else lost a place. */
  lemma RuleTwoSettles(b0: seq<seq<Digit>>, b1: seq<seq<Digit>>, b3: seq<seq<Digit>>, s: Cell, d: Digit)
    requires WellFormed(b0) && d in b0[s] && b1 == b0[s := Remove(b0[s], d)]
    requires |b3| == 81 && PlacesKept(b1, b3)
    requires forall u: UnitIndex :: u in UnitsOf(s) ==> HasPlace(b3, u, d)
    ensures PlacesKept(b0, b3)
  {
    forall u: UnitIndex, x: Digit | HasPlace(b0, u, x) ensures HasPlace(b3, u, x) {
      if x == d && s in Unit(u) {
        assert u in UnitsOf(s);
      } else {
        var c: Cell :| c in Unit(u) && x in b0[c];
        assert x in b1[c];
        assert HasPlace(b1, u, x);
      }
    }
  }

  /** A unit with two places for x has no only place for it. */
  lemma TwoPlaces(b: seq<seq<Digit>>, u: UnitIndex, x: Digit, p1: Cell, p2: Cell)
    requires |b| == 81 && p1 != p2 && p1 in Unit(u) && p2 in Unit(u) && x in b[p1] && x in b[p2]
    ensures forall c: Cell :: !OnlyPlace(b, u, x, c)
  {
  }

  /** The only units that lost a place in the removal itself are the units of s,
      for d; rule 2 placed d wherever one of them is left with one place. */
  lemma RemovalPlaced(b0: seq<seq<Digit>>, b1: seq<seq<Digit>>, b3: seq<seq<Digit>>, s: Cell, d: Digit)
    requires WellFormed(b0) && d in b0[s] && b1 == b0[s := Remove(b0[s], d)]
    requires |b3| == 81 && Shrunk(b1, b3) && HiddenSinglesPlaced(b1, b3)
    requires forall u: UnitIndex, c: Cell :: u in UnitsOf(s) && OnlyPlace(b3, u, d, c) ==> b3[c] == [d]
    ensures HiddenSinglesPlaced(b0, b3)
  {
    forall u: UnitIndex, x: Digit, c: Cell | LostPlace(b0, b3, u, x) && OnlyPlace(b3, u, x, c)
      ensures b3[c] == [x]
    {
      if !LostPlace(b1, b3, u, x) {
        var c0: Cell :| c0 in Unit(u) && x in b0[c0] && x !in b3[c0];
        assert x !in b1[c0];
        assert c0 == s && x == d;
        assert u in UnitsOf(s);
      }
    }
  }

  lemma RemovalSettles(b0: seq<seq<Digit>>, b1: seq<seq<Digit>>, b2: seq<seq<Digit>>,
                       b3: seq<seq<Digit>>, s: Cell, d: Digit)
    requires WellFormed(b0) && d in b0[s] && b1 == b0[s := Remove(b0[s], d)]
    requires b1[s] != [] && Progress(b1, b2) && Progress(b2, b3) && WellFormed(b3)
    requires |b1[s]| == 1 ==> forall p :: p in Peers(s) ==> b1[s][0] !in b2[p]
    requires forall u: UnitIndex :: u in UnitsOf(s) ==> HasPlace(b3, u, d)
    requires forall u: UnitIndex, c: Cell :: u in UnitsOf(s) && OnlyPlace(b3, u, d, c) ==> b3[c] == [d]
    ensures Progress(b0, b3)
  {
    RuleOneSettles(b0, b1, b2, s, d);
    forall c: Cell | b3[c] != b0[c] ensures Good(b3, c) {
      if b3[c] == b2[c] {
        GoodStays(b2, b3, c);
      }
    }
    ProgressTrans(b1, b2, b3);
    RuleTwoSettles(b0, b1, b3, s, d);
    RemovalPlaced(b0, b1, b3, s, d);
  }

  /** eliminate(values, s, d): remove d from the candidates of s and propagate.
      It fails when s is left without candidates, and otherwise applies rule 1
      and then rule 2 below. */
  method Eliminate(a: array<seq<Digit>>, s: Cell, d: Digit) returns (ok: bool)
    requires a.Length == 81 && WellFormed(a[..])
    modifies a
    decreases Measure(a[..]), 0
    ensures WellFormed(a[..]) && Shrunk(old(a[..]), a[..])
    ensures d !in a[s]
    ensures d !in old(a[s]) ==> ok && a[..] == old(a[..])
    ensures ok ==> Progress(old(a[..]), a[..])
    ensures !ok ==> Contradicted(a[..])
  {
    if d !in a[s] {
      return true;
    }
    ghost var b0 := a[..];
    a[s] := Remove(a[s], d);
    ghost var b1 := a[..];
    RemovalStep(b0, b1, s, d);
    if |a[s]| == 0 {
      return false;
    } else if |a[s]| == 1 {
      ok := EliminateFromPeers(a, s, a[s][0]);
      if !ok {
        return false;
      }
    }
    ghost var b2 := a[..];
    assert Progress(b1, b2);
    MeasureMono(b1, b2, s, d);
    ok := PlaceInUnits(a, s, d);
    if !ok {
      return false;
    }
    RemovalSettles(b0, b1, b2, a[..], s, d);
    return true;
  }

  /** One peer of rule 1 done: the steps so far make one step, and every peer
      handled so far is clear of d2. */
  lemma PeerStep(b0: seq<seq<Digit>>, before: seq<seq<Digit>>, after: seq<seq<Digit>>,
                 ps: seq<Cell>, i: int, d2: Digit)
    requires 0 <= i < |ps|
    requires Progress(b0, before) && Progress(before, after) && WellFormed(after)
    requires forall j :: 0 <= j < i ==> d2 !in before[ps[j]]
    requires d2 !in after[ps[i]]
    ensures Progress(b0, after)
    ensures forall j :: 0 <= j <= i ==> d2 !in after[ps[j]]
    ensures Measure(after) <= Measure(before)
  {
    ProgressTrans(b0, before, after);
    MeasureMono(before, after, 0, d2);
  }

  /** One unit of rule 2 done: the steps so far make one step, and every unit
      checked so far has a place for d, and holds d alone where it has one place. */
  lemma UnitStep(b0: seq<seq<Digit>>, before: seq<seq<Digit>>, after: seq<seq<Digit>>,
                 us: seq<UnitIndex>, i: int, d: Digit, places: seq<Cell>)
    requires 0 <= i < |us|
    requires WellFormed(after) && Progress(b0, before) && Progress(before, after)
    requires forall j :: 0 <= j < i ==> HasPlace(before, us[j], d)
    requires forall j, c: Cell :: 0 <= j < i && OnlyPlace(before, us[j], d, c) ==> before[c] == [d]
    requires Distinct(places) && places != []
    requires forall c: Cell :: c in places <==> c in Unit(us[i]) && d in before[c]
    requires |places| == 1 ==> after[places[0]] == [d]
    requires |places| != 1 ==> after == before
    ensures Progress(b0, after)
    ensures forall j :: 0 <= j <= i ==> HasPlace(after, us[j], d)
    ensures forall j, c: Cell :: 0 <= j <= i && OnlyPlace(after, us[j], d, c) ==> after[c] == [d]
  {
    ProgressTrans(b0, before, after);
    assert places[0] in places;
    if |places| != 1 {
      assert places[1] in places;
      TwoPlaces(after, us[i], d, places[0], places[1]);
    }
    forall j | 0 <= j <= i ensures HasPlace(after, us[j], d) {
      if j < i {
        assert HasPlace(before, us[j], d);
      } else {
        assert d in after[places[0]];
      }
    }
    forall j, c: Cell | 0 <= j <= i && OnlyPlace(after, us[j], d, c) ensures after[c] == [d] {
      if j < i {
        HiddenStays(before, after, us[j], d, c);
      } else if |places| == 1 {
        assert c in places;
      }
    }
  }

  /** Rule 1 of eliminate: s is reduced to the single value d2, so d2 is eliminated
      from every peer of s, in peer order, stopping at the first contradiction. */
  method EliminateFromPeers(a: array<seq<Digit>>, s: Cell, d2: Digit) returns (ok: bool)
    requires a.Length == 81 && WellFormed(a[..])
    modifies a
    decreases Measure(a[..]), 1
    ensures WellFormed(a[..]) && Shrunk(old(a[..]), a[..])
    ensures ok ==> Progress(old(a[..]), a[..]) && forall p :: p in Peers(s) ==> d2 !in a[p]
    ensures !ok ==> Contradicted(a[..])
  {
    ghost var b0 := a[..];
    var ps := Peers(s);
    var i := 0;
    while i < |ps|
      invariant 0 <= i <= |ps|
      invariant WellFormed(a[..]) && Progress(b0, a[..])
      invariant forall j :: 0 <= j < i ==> d2 !in a[..][ps[j]]
      invariant Measure(a[..]) <= Measure(b0)
    {
      ghost var before := a[..];
      ok := Eliminate(a, ps[i], d2);
      if !ok {
        return false;
      }
      PeerStep(b0, before, a[..], ps, i, d2);
      i := i + 1;
    }
    return true;
  }

  /** Rule 2 of eliminate: in every unit of s, in unit-list order, find the squares
      that can still hold d. None is a contradiction; exactly one gets d assigned. */
  method PlaceInUnits(a: array<seq<Digit>>, s: Cell, d: Digit) returns (ok: bool)
    requires a.Length == 81 && WellFormed(a[..])
    modifies a
    decreases Measure(a[..]), 2
    ensures WellFormed(a[..]) && Shrunk(old(a[..]), a[..])
    ensures ok ==> Progress(old(a[..]), a[..])
    ensures ok ==> forall u: UnitIndex :: u in UnitsOf(s) ==> HasPlace(a[..], u, d)
    ensures ok ==> forall u: UnitIndex, c: Cell :: u in UnitsOf(s) && OnlyPlace(a[..], u, d, c) ==> a[..][c] == [d]
    ensures !ok ==> Contradicted(a[..])
  {
    ghost var b0 := a[..];
    assert Progress(b0, b0);
    var us := UnitsOf(s);
    var i := 0;
    while i < 3
      invariant 0 <= i <= 3
      invariant WellFormed(a[..]) && Progress(b0, a[..])
      invariant forall j :: 0 <= j < i ==> HasPlace(a[..], us[j], d)
      invariant forall j, c: Cell :: 0 <= j < i && OnlyPlace(a[..], us[j], d, c) ==> a[..][c] == [d]
      invariant Measure(a[..]) <= Measure(b0)
    {
      ghost var before := a[..];
      var places := Places(a, us[i], d);
      if places == [] {
        return false;
      }
      assert places[0] in places;
      if |places| == 1 {
        ok := Assign(a, places[0], d);
        if !ok {
          return false;
        }
        MeasureMono(before, a[..], s, d);
      } else {
        assert Progress(before, a[..]);
      }
      UnitStep(b0, before, a[..], us, i, d, places);
      i := i + 1;
    }
    forall u: UnitIndex, c: Cell | u in UnitsOf(s) && OnlyPlace(a[..], u, d, c) ensures a[..][c] == [d] {
      var j :| 0 <= j < 3 && us[j] == u;
    }
    return true;
  }

  /** One other value of assign eliminated: the steps so far make one step, and
      every value eliminated so far is gone from s. */
  lemma OtherStep(b0: seq<seq<Digit>>, before: seq<seq<Digit>>, after: seq<seq<Digit>>,
                  s: Cell, others: seq<Digit>, i: int)
    requires 0 <= i < |others|
    requires Progress(b0, before) && Progress(before, after) && WellFormed(after)
    requires forall j :: 0 <= j < i ==> others[j] !in before[s]
    requires others[i] !in after[s]
    ensures Progress(b0, after)
    ensures forall j :: 0 <= j <= i ==> others[j] !in after[s]
    ensures Measure(after) <= Measure(before)
  {
    ProgressTrans(b0, before, after);
    MeasureMono(before, after, s, others[i]);
  }

  /** Once every other value is gone from a square that had candidates, the
      square holds d alone. */
  lemma AssignSettles(b0: seq<seq<Digit>>, b: seq<seq<Digit>>, s: Cell, d: Digit, others: seq<Digit>)
    requires WellFormed(b) && Progress(b0, b) && b0[s] != []
    requires others == Remove(b0[s], d)
    requires forall j :: 0 <= j < |others| ==> others[j] !in b[s]
    ensures b[s] == [d]
  {
    forall v | v in b[s] ensures v == d {
      assert v in b0[s];
    }
    assert b[s] != [] by {
      assert b[s] == b0[s] || Good(b, s);
    }
    OnlyDigit(b[s], d);
  }

  /** assign(values, s, d): eliminate every candidate of s other than d. */
  method Assign(a: array<seq<Digit>>, s: Cell, d: Digit) returns (ok: bool)
    requires a.Length == 81 && WellFormed(a[..])
    modifies a
    decreases Measure(a[..]), 1
    ensures WellFormed(a[..]) && Shrunk(old(a[..]), a[..])
    ensures ok ==> Progress(old(a[..]), a[..])
    ensures !ok ==> Contradicted(a[..])
    ensures ok && old(a[s]) != [] ==> a[s] == [d]
    ensures old(a[s]) == [] ==> ok && a[..] == old(a[..])
    ensures old(a[s]) == [d] ==> ok && a[..] == old(a[..])
    ensures d !in old(a[s]) && old(a[s]) != [] ==> !ok
  {
    ghost var b0 := a[..];
    var others := Remove(a[s], d);
    var i := 0;
    while i < |others|
      invariant 0 <= i <= |others|
      invariant WellFormed(a[..]) && Progress(b0, a[..])
      invariant forall j :: 0 <= j < i ==> others[j] !in a[..][s]
      invariant Measure(a[..]) <= Measure(b0)
      invariant i == 0 ==> a[..] == b0
    {
      ghost var before := a[..];
      ok := Eliminate(a, s, others[i]);
      if !ok {
        return false;
      }
      OtherStep(b0, before, a[..], s, others, i);
      i := i + 1;
    }
    if b0[s] != [] {
      AssignSettles(b0, a[..], s, d, others);
    }
    return true;
  }
}
