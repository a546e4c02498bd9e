/**
 * The bounded top-n working set shared by find_nearest and sort_by_latest_mass_balance. Items
 * are offered in catalog order; while the dict holds fewer than n items the offered one is stored
 * unconditionally; once full, the item with the largest score (the first such in insertion order)
 * is popped and the offered one stored, but only when the offered score is strictly smaller.
 * find_nearest scores a (name, distance) item by its distance; sort_by_latest_mass_balance scores
 * a (latest balance, glacier) item by minus the balance, or by the balance when reverse is set.
 */
module TopN {
  import opened Base
  import opened OrderedDict

  function Scores<K, V>(d: seq<(K, V)>, score: (K, V) -> real): (s: seq<real>)
    ensures |s| == |d| && forall i :: 0 <= i < |d| ==> s[i] == score(d[i].0, d[i].1)
  {
    seq(|d|, i requires 0 <= i < |d| => score(d[i].0, d[i].1))
  }

  /** max(xs) as Python finds it: the first position holding the largest value. */
  function MaxIndex(xs: seq<real>): (m: nat)
    requires |xs| > 0
    ensures m < |xs|
    ensures forall j :: 0 <= j < |xs| ==> xs[j] <= xs[m]
    ensures forall j :: 0 <= j < m ==> xs[j] < xs[m]
  {
    if |xs| == 1 then 0
    else
      var m := MaxIndex(xs[..|xs| - 1]);
      if xs[|xs| - 1] > xs[m] then |xs| - 1 else m
  }

  /** One iteration of the working-set loop; None where max() of an empty dict raises. */
  function Step<K(==), V>(d: seq<(K, V)>, x: (K, V), n: int, score: (K, V) -> real): Option<seq<(K, V)>>
  {
    if |d| < n then Some(Put(d, x.0, x.1))
    else if |d| == 0 then None
    else
      var m := MaxIndex(Scores(d, score));
      if score(x.0, x.1) < score(d[m].0, d[m].1) then Some(Put(RemoveAt(d, m), x.0, x.1))
      else Some(d)
  }

  /** The working set after the loop has offered every item of xs, starting from an empty dict. */
  function Select<K(==), V>(xs: seq<(K, V)>, n: int, score: (K, V) -> real): Option<seq<(K, V)>>
  {
    if xs == [] then Some([])
    else
      match Select(xs[..|xs| - 1], n, score)
      case None => None
      case Some(d) => Step(d, xs[|xs| - 1], n, score)
  }

  /** Offering one more item is one more step of the loop. */
  lemma SelectSnoc<K, V>(xs: seq<(K, V)>, x: (K, V), n: int, score: (K, V) -> real)
    ensures Select(xs + [x], n, score) ==
      if Select(xs, n, score).None? then None else Step(Select(xs, n, score).value, x, n, score)
  {
    assert (xs + [x])[..|xs|] == xs;
  }

  /** The loop raises exactly when n is not positive and there is something to offer. */
  lemma {:induction false} SelectFails<K, V>(xs: seq<(K, V)>, n: int, score: (K, V) -> real)
    ensures Select(xs, n, score).None? <==> n <= 0 && xs != []
  {
    if xs != [] {
      var pre := xs[..|xs| - 1];
      SelectFails(pre, n, score);
      if n > 0 {
        SelectBounded(pre, n, score);
      }
    }
  }

  /** For n > 0: at most n items, distinct keys, every item one of the offered ones. */
  lemma {:induction false} SelectBounded<K, V>(xs: seq<(K, V)>, n: int, score: (K, V) -> real)
    requires n > 0
    ensures Select(xs, n, score).Some?
    ensures var d := Select(xs, n, score).value;
      |d| <= n && DistinctKeys(d) && forall x :: x in d ==> x in xs
  {
    if xs != [] {
      var pre, x := xs[..|xs| - 1], xs[|xs| - 1];
      SelectBounded(pre, n, score);
      var d := Select(pre, n, score).value;
      assert forall y :: y in pre ==> y in xs;
      if |d| < n {
        PutItems(d, x.0, x.1);
      } else {
        var m := MaxIndex(Scores(d, score));
        RemoveAtItems(d, m);
        PutItems(RemoveAt(d, m), x.0, x.1);
      }
    }
  }

  ghost predicate KeepsBest<K, V>(d: seq<(K, V)>, done: seq<(K, V)>, n: int, score: (K, V) -> real)
  {
    && |d| == (if |done| < n then |done| else n)
    && (forall x :: x in d ==> x in done)
    && (|d| < n ==> forall e :: e in done ==> e in d)
    && (forall e, x :: e in done && e !in d && x in d ==> score(x.0, x.1) <= score(e.0, e.1))
  }

  /**
   * With distinct keys the working set is a true top n: it holds min(n, |xs|) of the offered
   * items, and every item left out scores no better than every item kept.
   */
  lemma SelectKeepsBest<K, V>(xs: seq<(K, V)>, n: int, score: (K, V) -> real)
    requires n > 0 && DistinctKeys(xs)
    ensures Select(xs, n, score).Some?
    ensures var d := Select(xs, n, score).value;
      && |d| == (if |xs| < n then |xs| else n)
      && forall e, x :: e in xs && e !in d && x in d ==> score(x.0, x.1) <= score(e.0, e.1)
  {
    SelectInvariant(xs, n, score);
  }

  lemma {:induction false} SelectInvariant<K, V>(xs: seq<(K, V)>, n: int, score: (K, V) -> real)
    requires n > 0 && DistinctKeys(xs)
    ensures Select(xs, n, score).Some?
    ensures KeepsBest(Select(xs, n, score).value, xs, n, score)
  {
    if xs != [] {
      var pre, x := xs[..|xs| - 1], xs[|xs| - 1];
      assert xs == pre + [x];
      LastKeyFresh(xs, n, score);
      SelectInvariant(pre, n, score);
      var d := Select(pre, n, score).value;
      SelectSnoc(pre, x, n, score);
      StepKeepsBest(d, pre, x, n, score);
    }
  }

  /** Of distinct keys, the last one offered is none of those the working set holds before it. */
  lemma LastKeyFresh<K, V>(xs: seq<(K, V)>, n: int, score: (K, V) -> real)
    requires n > 0 && DistinctKeys(xs) && xs != []
    ensures DistinctKeys(xs[..|xs| - 1])
    ensures Select(xs[..|xs| - 1], n, score).Some?
    ensures DistinctKeys(Select(xs[..|xs| - 1], n, score).value)
    ensures xs[|xs| - 1].0 !in Keys(Select(xs[..|xs| - 1], n, score).value)
  {
    var pre, x := xs[..|xs| - 1], xs[|xs| - 1];
    assert DistinctKeys(pre) by {
      assert forall i :: 0 <= i < |pre| ==> pre[i] == xs[i];
    }
    SelectBounded(pre, n, score);
    var d := Select(pre, n, score).value;
    forall y | y in d ensures y.0 != x.0 {
      var j :| 0 <= j < |pre| && pre[j] == y;
      assert xs[j] == y;
    }
  }

  lemma StepKeepsBest<K, V>(d: seq<(K, V)>, done: seq<(K, V)>, x: (K, V), n: int, score: (K, V) -> real)
    requires n > 0 && DistinctKeys(d) && KeepsBest(d, done, n, score) && x.0 !in Keys(d)
    ensures Step(d, x, n, score).Some?
    ensures KeepsBest(Step(d, x, n, score).value, done + [x], n, score)
  {
    if |d| < n {
      AppendKeepsBest(d, done, x, n, score);
    } else {
      var m := MaxIndex(Scores(d, score));
      if score(x.0, x.1) < score(d[m].0, d[m].1) {
        ReplaceKeepsBest(d, done, x, n, m, score);
      } else {
        RejectKeepsBest(d, done, x, n, m, score);
      }
    }
  }

  /** A working set with room takes the offered item. */
  lemma AppendKeepsBest<K, V>(d: seq<(K, V)>, done: seq<(K, V)>, x: (K, V), n: int, score: (K, V) -> real)
    requires DistinctKeys(d) && KeepsBest(d, done, n, score) && x.0 !in Keys(d) && |d| < n
    ensures KeepsBest(Put(d, x.0, x.1), done + [x], n, score)
  {
    var all := done + [x];
    PutItems(d, x.0, x.1);
    var d' := Put(d, x.0, x.1);
    assert forall e :: e in all ==> e in done || e == x;
    assert forall y :: y in d' ==> y in d || y == x;
  }

  /** A full working set whose worst item m scores worse than the offered item swaps them. */
  lemma ReplaceKeepsBest<K, V>(d: seq<(K, V)>, done: seq<(K, V)>, x: (K, V), n: int, m: nat, score: (K, V) -> real)
    requires DistinctKeys(d) && KeepsBest(d, done, n, score) && x.0 !in Keys(d) && |d| == n
    requires m < |d| && forall j :: 0 <= j < |d| ==> score(d[j].0, d[j].1) <= score(d[m].0, d[m].1)
    requires score(x.0, x.1) < score(d[m].0, d[m].1)
    ensures KeepsBest(Put(RemoveAt(d, m), x.0, x.1), done + [x], n, score)
  {
    var all := done + [x];
    RemoveAtItems(d, m);
    var r := RemoveAt(d, m);
    assert x.0 !in Keys(r) by {
      assert forall y :: y in r ==> y in d;
    }
    PutItems(r, x.0, x.1);
    var d' := Put(r, x.0, x.1);
    assert forall e :: e in all ==> e in done || e == x;
    forall e, y | e in all && e !in d' && y in d' ensures score(y.0, y.1) <= score(e.0, e.1) {
      if y != x {
        assert y in d;
        var j :| 0 <= j < |d| && d[j] == y;
        if e != d[m] {
          assert e in done && e !in d;
        }
      } else if e != d[m] {
        assert e in done && e !in d;
        assert score(d[m].0, d[m].1) <= score(e.0, e.1);
      }
    }
  }

  /** A full working set whose worst item m scores no worse than the offered item stays as it is. */
  lemma RejectKeepsBest<K, V>(d: seq<(K, V)>, done: seq<(K, V)>, x: (K, V), n: int, m: nat, score: (K, V) -> real)
    requires KeepsBest(d, done, n, score) && |d| == n
    requires m < |d| && forall j :: 0 <= j < |d| ==> score(d[j].0, d[j].1) <= score(d[m].0, d[m].1)
    requires !(score(x.0, x.1) < score(d[m].0, d[m].1))
    ensures KeepsBest(d, done + [x], n, score)
  {
    var all := done + [x];
    forall e, y | e in all && e !in d && y in d ensures score(y.0, y.1) <= score(e.0, e.1) {
      if e == x {
        var j :| 0 <= j < |d| && d[j] == y;
      }
    }
  }

  /**
   * An offered item whose key the working set already holds overwrites that entry: while there
   * is room the set does not grow, and once it is full and the item beats its worst entry m of
   * another key, m is evicted and the set shrinks by one.
   */
  lemma StepCollides<K, V>(d: seq<(K, V)>, x: (K, V), n: int, score: (K, V) -> real)
    requires DistinctKeys(d) && x.0 in Keys(d)
    ensures |d| < n ==> Step(d, x, n, score).Some? && Keys(Step(d, x, n, score).value) == Keys(d)
    ensures |d| >= n && |d| > 0 ==>
      var m := MaxIndex(Scores(d, score));
      score(x.0, x.1) < score(d[m].0, d[m].1) && d[m].0 != x.0 ==>
        Step(d, x, n, score).Some? && |Step(d, x, n, score).value| == |d| - 1
  {
    PutKeys(d, x.0, x.1);
    if |d| >= n && |d| > 0 {
      var m := MaxIndex(Scores(d, score));
      if score(x.0, x.1) < score(d[m].0, d[m].1) && d[m].0 != x.0 {
        RemoveAtItems(d, m);
        var r := RemoveAt(d, m);
        var i := IndexOf(d, x.0);
        assert d[i] in r;
        assert x.0 in Keys(r) by {
          var j :| 0 <= j < |r| && r[j] == d[i];
          assert Keys(r)[j] == x.0;
        }
      }
    }
  }

  /** With n == 1 the single item kept scores no worse than any offered item, whatever the keys. */
  lemma {:induction false} SelectOne<K, V>(xs: seq<(K, V)>, score: (K, V) -> real)
    requires xs != []
    ensures Select(xs, 1, score).Some?
    ensures var d := Select(xs, 1, score).value;
      && |d| == 1 && d[0] in xs
      && forall e :: e in xs ==> score(d[0].0, d[0].1) <= score(e.0, e.1)
  {
    var pre, x := xs[..|xs| - 1], xs[|xs| - 1];
    assert xs == pre + [x];
    if pre == [] {
      assert Select(xs, 1, score) == Step([], x, 1, score);
    } else {
      SelectOne(pre, score);
      var d := Select(pre, 1, score).value;
      assert MaxIndex(Scores(d, score)) == 0;
      if score(x.0, x.1) < score(d[0].0, d[0].1) {
        assert RemoveAt(d, 0) == [];
      }
    }
  }

  /**
   * sorted(...): the items ordered by non-increasing score; a permutation of the input. Applied
   * to the latest-balance working set with the balance as score it gives the descending order of
   * sort_by_latest_mass_balance, with minus the balance the ascending one.
   */
  function SortDescending<K, V>(d: seq<(K, V)>, score: (K, V) -> real): (r: seq<(K, V)>)
    ensures multiset(r) == multiset(d)
    ensures forall i, j :: 0 <= i < j < |r| ==> score(r[j].0, r[j].1) <= score(r[i].0, r[i].1)
    ensures DistinctKeys(d) ==> DistinctKeys(r)
    decreases |d|
  {
    if d == [] then []
    else
      var m := MaxIndex(Scores(d, score));
      var rest := RemoveAt(d, m);
      RemoveAtDistinct(d, m);
      var sorted := SortDescending(rest, score);
      SortConsPerm(d, m, sorted);
      SortConsOrder(d, m, sorted, score);
      SortConsDistinct(d, m, sorted);
      [d[m]] + sorted
  }

  lemma RemoveAtDistinct<K, V>(d: seq<(K, V)>, m: nat)
    requires m < |d|
    ensures DistinctKeys(d) ==> DistinctKeys(RemoveAt(d, m))
  {
    if DistinctKeys(d) {
      RemoveAtItems(d, m);
    }
  }

  lemma SortConsPerm<K, V>(d: seq<(K, V)>, m: nat, sorted: seq<(K, V)>)
    requires m < |d| && multiset(sorted) == multiset(RemoveAt(d, m))
    ensures multiset([d[m]] + sorted) == multiset(d)
  {
    assert d == d[..m] + [d[m]] + d[m + 1..];
  }

  lemma SortConsOrder<K, V>(d: seq<(K, V)>, m: nat, sorted: seq<(K, V)>, score: (K, V) -> real)
    requires m < |d| && forall j :: 0 <= j < |d| ==> score(d[j].0, d[j].1) <= score(d[m].0, d[m].1)
    requires multiset(sorted) == multiset(RemoveAt(d, m))
    requires forall i, j :: 0 <= i < j < |sorted| ==> score(sorted[j].0, sorted[j].1) <= score(sorted[i].0, sorted[i].1)
    ensures forall i, j :: 0 <= i < j < |sorted| + 1 ==>
      score(([d[m]] + sorted)[j].0, ([d[m]] + sorted)[j].1) <= score(([d[m]] + sorted)[i].0, ([d[m]] + sorted)[i].1)
  {
    var r := [d[m]] + sorted;
    forall j | 0 < j < |r| ensures score(r[j].0, r[j].1) <= score(d[m].0, d[m].1) {
      assert r[j] == sorted[j - 1];
      assert r[j] in multiset(RemoveAt(d, m));
      assert r[j] in d[..m] + d[m + 1..];
    }
  }

  lemma SortConsDistinct<K, V>(d: seq<(K, V)>, m: nat, sorted: seq<(K, V)>)
    requires m < |d| && multiset(sorted) == multiset(RemoveAt(d, m))
    requires DistinctKeys(d) ==> DistinctKeys(sorted)
    ensures DistinctKeys(d) ==> DistinctKeys([d[m]] + sorted)
  {
    if DistinctKeys(d) {
      RemoveAtItems(d, m);
      var r := [d[m]] + sorted;
      forall j | 0 < j < |r| ensures r[j].0 != d[m].0 {
        assert r[j] == sorted[j - 1];
        assert r[j] in multiset(RemoveAt(d, m));
        assert r[j] in RemoveAt(d, m);
      }
    }
  }
}
