/** The rule by which a glacier's year-indexed mass-balance series absorbs a new reading. */
module MassBalance {
  import opened Base

  /** One call of add_mass_balance_measurement: the year, the net balance and the partial flag. */
  datatype Reading = Reading(year: int, value: real, partial: bool)

  /**
   * The series after one reading. A year not yet present is inserted with the reading's value
   * whatever the flag says; a partial reading for a present year is added to the stored value;
   * a full reading for a present year is discarded.
   */
  function Accumulate(m: map<int, real>, r: Reading): (m': map<int, real>)
    ensures m'.Keys == m.Keys + {r.year}
    ensures forall y :: y in m && y != r.year ==> m'[y] == m[y]
    ensures r.year !in m ==> m'[r.year] == r.value
    ensures r.year in m && r.partial ==> m'[r.year] == m[r.year] + r.value
    ensures r.year in m && !r.partial ==> m' == m
  {
    if r.year in m then
      if r.partial then m[r.year := m[r.year] + r.value] else m
    else
      m[r.year := r.value]
  }

  /** The series after the readings rs, applied in order. */
  function AccumulateAll(m: map<int, real>, rs: seq<Reading>): map<int, real>
  {
    if rs == [] then m else Accumulate(AccumulateAll(m, rs[..|rs| - 1]), rs[|rs| - 1])
  }

  /** The readings of rs that are about year y, in order. */
  function ForYear(rs: seq<Reading>, y: int): seq<Reading>
  {
    if rs == [] then []
    else ForYear(rs[..|rs| - 1], y) + (if rs[|rs| - 1].year == y then [rs[|rs| - 1]] else [])
  }

  /** The sum of the values of the partial readings of rs. */
  function PartialSum(rs: seq<Reading>): real
  {
    if rs == [] then 0.0
    else PartialSum(rs[..|rs| - 1]) + (if rs[|rs| - 1].partial then rs[|rs| - 1].value else 0.0)
  }

  /**
   * What the series holds for year y after the readings rs, stated without replaying them:
   * a year already present keeps its value plus every later partial reading for it; a new year
   * takes the value of its first reading plus every partial reading that follows that first one;
   * full readings after the first are lost.
   */
  function Expected(m: map<int, real>, rs: seq<Reading>, y: int): Option<real>
  {
    var ys := ForYear(rs, y);
    if y in m then Some(m[y] + PartialSum(ys))
    else if ys == [] then None
    else Some(ys[0].value + PartialSum(ys[1..]))
  }

  /** The value a year holds after one more reading, given what it held before. */
  function Absorb(before: Option<real>, r: Reading): Option<real>
  {
    match before
    case None => Some(r.value)
    case Some(v) => Some(if r.partial then v + r.value else v)
  }

  /** Replaying the readings one by one gives exactly the declarative value of every year. */
  lemma {:induction false} AccumulateAllAt(m: map<int, real>, rs: seq<Reading>, y: int)
    ensures Lookup(AccumulateAll(m, rs), y) == Expected(m, rs, y)
  {
    if rs != [] {
      var pre, r := rs[..|rs| - 1], rs[|rs| - 1];
      AccumulateAllAt(m, pre, y);
      AccumulateAt(AccumulateAll(m, pre), r, y);
      ExpectedSnoc(m, rs, y);
    }
  }

  lemma AccumulateAt(a: map<int, real>, r: Reading, y: int)
    ensures Lookup(Accumulate(a, r), y) == if r.year == y then Absorb(Lookup(a, y), r) else Lookup(a, y)
  {
  }

  lemma ExpectedSnoc(m: map<int, real>, rs: seq<Reading>, y: int)
    requires rs != []
    ensures var pre, r := rs[..|rs| - 1], rs[|rs| - 1];
      Expected(m, rs, y) == if r.year == y then Absorb(Expected(m, pre, y), r) else Expected(m, pre, y)
  {
    var pre, r := rs[..|rs| - 1], rs[|rs| - 1];
    if r.year != y {
      ExpectedSnocOther(m, rs, y);
    } else if y in m {
      ExpectedSnocPresent(m, rs, y);
    } else if ForYear(pre, y) == [] {
      ExpectedSnocFirst(m, rs, y);
    } else {
      ExpectedSnocLater(m, rs, y);
    }
  }

  lemma ExpectedSnocOther(m: map<int, real>, rs: seq<Reading>, y: int)
    requires rs != [] && rs[|rs| - 1].year != y
    ensures Expected(m, rs, y) == Expected(m, rs[..|rs| - 1], y)
  {
    assert ForYear(rs, y) == ForYear(rs[..|rs| - 1], y);
  }

  lemma ExpectedSnocFirst(m: map<int, real>, rs: seq<Reading>, y: int)
    requires rs != [] && rs[|rs| - 1].year == y && y !in m && ForYear(rs[..|rs| - 1], y) == []
    ensures Expected(m, rs, y) == Some(rs[|rs| - 1].value)
  {
    assert ForYear(rs, y) == [rs[|rs| - 1]];
  }

  lemma ExpectedSnocPresent(m: map<int, real>, rs: seq<Reading>, y: int)
    requires rs != [] && rs[|rs| - 1].year == y && y in m
    ensures Expected(m, rs, y) == Absorb(Expected(m, rs[..|rs| - 1], y), rs[|rs| - 1])
  {
    var ys, r := ForYear(rs[..|rs| - 1], y), rs[|rs| - 1];
    assert ForYear(rs, y) == ys + [r];
    PartialSumSnoc(ys, r);
  }

  lemma ExpectedSnocLater(m: map<int, real>, rs: seq<Reading>, y: int)
    requires rs != [] && rs[|rs| - 1].year == y && y !in m && ForYear(rs[..|rs| - 1], y) != []
    ensures Expected(m, rs, y) == Absorb(Expected(m, rs[..|rs| - 1], y), rs[|rs| - 1])
  {
    var ys, r := ForYear(rs[..|rs| - 1], y), rs[|rs| - 1];
    assert ForYear(rs, y) == ys + [r];
    assert (ys + [r])[1..] == ys[1..] + [r];
    PartialSumSnoc(ys[1..], r);
  }

  lemma PartialSumSnoc(rs: seq<Reading>, r: Reading)
    ensures PartialSum(rs + [r]) == PartialSum(rs) + (if r.partial then r.value else 0.0)
  {
    assert (rs + [r])[..|rs|] == rs;
  }

  /** Readings about other years do not touch year y. */
  lemma {:induction false} AccumulateAllOtherYears(m: map<int, real>, rs: seq<Reading>, y: int)
    requires forall i :: 0 <= i < |rs| ==> rs[i].year != y
    ensures Lookup(AccumulateAll(m, rs), y) == Lookup(m, y)
  {
    if rs != [] {
      AccumulateAllOtherYears(m, rs[..|rs| - 1], y);
    }
  }

  /** The set of years grows by exactly the years of the readings. */
  lemma {:induction false} AccumulateAllYears(m: map<int, real>, rs: seq<Reading>)
    ensures AccumulateAll(m, rs).Keys == m.Keys + set i | 0 <= i < |rs| :: rs[i].year
  {
    if rs != [] {
      var pre := rs[..|rs| - 1];
      AccumulateAllYears(m, pre);
      assert (set i | 0 <= i < |rs| :: rs[i].year)
          == (set i | 0 <= i < |pre| :: pre[i].year) + {rs[|rs| - 1].year} by {
        forall i | 0 <= i < |pre| ensures pre[i] == rs[i] { }
      }
    }
  }

  /** max(m.keys()): the most recent year of a non-empty series. */
  function LatestYear(m: map<int, real>): (y: int)
    requires |m| > 0
    ensures y in m && forall y' :: y' in m ==> y' <= y
  {
    assert m.Keys != {} by { assert |m.Keys| == |m|; }
    HasExtremes(m.Keys);
    var y :| y in m && forall y' :: y' in m ==> y' <= y;
    y
  }

  /** min(m.keys()): the first year of a non-empty series. */
  function FirstYear(m: map<int, real>): (y: int)
    requires |m| > 0
    ensures y in m && forall y' :: y' in m ==> y <= y'
  {
    assert m.Keys != {} by { assert |m.Keys| == |m|; }
    HasExtremes(m.Keys);
    var y :| y in m && forall y' :: y' in m ==> y <= y';
    y
  }

  /** The balance of the most recent year. */
  function LatestBalance(m: map<int, real>): real
    requires |m| > 0
  {
    m[LatestYear(m)]
  }

  lemma HasExtremes(s: set<int>)
    requires s != {}
    ensures exists y :: y in s && forall y' :: y' in s ==> y' <= y
    ensures exists y :: y in s && forall y' :: y' in s ==> y <= y'
  {
    assert exists x :: x in s by {
      if forall x :: x !in s {
        assert false;
      }
    }
    var x :| x in s;
    var rest := s - {x};
    assert s == rest + {x};
    if rest != {} {
      HasExtremes(rest);
      var hi :| hi in rest && forall y' :: y' in rest ==> y' <= hi;
      var lo :| lo in rest && forall y' :: y' in rest ==> lo <= y';
      var top := if x > hi then x else hi;
      var bottom := if x < lo then x else lo;
      assert forall y' :: y' in s ==> y' == x || y' in rest;
      assert top in s && forall y' :: y' in s ==> y' <= top;
      assert bottom in s && forall y' :: y' in s ==> bottom <= y';
    } else {
      assert s == {x};
      assert x in s && forall y' :: y' in s ==> y' <= x;
      assert x in s && forall y' :: y' in s ==> x <= y';
    }
  }
}
