/**
 * The catalog's queries stated on values: the glaciers in catalog order, each as a GlacierView.
 * The methods of GlacierCollection compute exactly these functions; the lemmas here say what
 * their results mean.
 */
module Queries {
  import opened Base
  import opened Decimal
  import opened OrderedDict
  import opened MassBalance
  import opened GlacierEntity
  import opened TopN
  import opened CodePattern

  // ---------------------------------------------------------------- find_nearest

  /** The distance between (lat1, lon1) and (lat2, lon2); the catalog uses the haversine distance. */
  type Distance = (real, real, real, real) -> real

  function DistanceTo(g: GlacierView, lat: real, lon: real, dist: Distance): real
  {
    dist(lat, lon, g.coordinates.0, g.coordinates.1)
  }

  /** The (name, distance) items find_nearest offers to its working set, in catalog order. */
  function DistanceItems(vs: seq<GlacierView>, lat: real, lon: real, dist: Distance): (xs: seq<(string, real)>)
    ensures |xs| == |vs|
    ensures forall i :: 0 <= i < |vs| ==> xs[i] == (vs[i].name, DistanceTo(vs[i], lat, lon, dist))
  {
    seq(|vs|, i requires 0 <= i < |vs| => (vs[i].name, DistanceTo(vs[i], lat, lon, dist)))
  }

  /** find_nearest ranks a working-set item by its distance. */
  function ByDistance(name: string, distance: real): real
  {
    distance
  }

  /** find_nearest: the names left in the working set, in its insertion order. */
  function Nearest(vs: seq<GlacierView>, lat: real, lon: real, n: int, dist: Distance): Result<seq<string>>
  {
    match Select(DistanceItems(vs, lat, lon, dist), n, ByDistance)
    case None => Failure(EmptyWorkingSet)
    case Some(d) => Success(Keys(d))
  }

  /** find_nearest fails exactly when n is not positive and the catalog is not empty. */
  lemma NearestFails(vs: seq<GlacierView>, lat: real, lon: real, n: int, dist: Distance)
    ensures Nearest(vs, lat, lon, n, dist).Failure? <==> n <= 0 && vs != []
  {
    SelectFails(DistanceItems(vs, lat, lon, dist), n, ByDistance);
  }

  /** For n > 0: at most n names, none twice, each the name of some glacier of the catalog. */
  lemma NearestBounded(vs: seq<GlacierView>, lat: real, lon: real, n: int, dist: Distance)
    requires n > 0
    ensures Nearest(vs, lat, lon, n, dist).Success?
    ensures |Nearest(vs, lat, lon, n, dist).value| <= n
    ensures forall k, l :: 0 <= k < l < |Nearest(vs, lat, lon, n, dist).value| ==>
      Nearest(vs, lat, lon, n, dist).value[k] != Nearest(vs, lat, lon, n, dist).value[l]
    ensures forall k :: 0 <= k < |Nearest(vs, lat, lon, n, dist).value| ==>
      exists i :: 0 <= i < |vs| && vs[i].name == Nearest(vs, lat, lon, n, dist).value[k]
  {
    var xs := DistanceItems(vs, lat, lon, dist);
    SelectBounded(xs, n, ByDistance);
    var d := Select(xs, n, ByDistance).value;
    forall k | 0 <= k < |d| ensures exists i :: 0 <= i < |vs| && vs[i].name == d[k].0 {
      assert d[k] in d;
      var i :| 0 <= i < |xs| && xs[i] == d[k];
    }
  }

  /** The names of the catalog are pairwise different. */
  predicate DistinctNames(vs: seq<GlacierView>)
  {
    forall i, j :: 0 <= i < j < |vs| ==> vs[i].name != vs[j].name
  }

  /**
   * With distinct names find_nearest is a true nearest-n query: it returns min(n, |vs|) names,
   * and no glacier left out is closer than a glacier returned.
   */
  lemma NearestClosest(vs: seq<GlacierView>, lat: real, lon: real, n: int, dist: Distance)
    requires n > 0 && DistinctNames(vs)
    ensures Nearest(vs, lat, lon, n, dist).Success?
    ensures |Nearest(vs, lat, lon, n, dist).value| == if |vs| < n then |vs| else n
    ensures forall i, j ::
      (0 <= i < |vs| && 0 <= j < |vs|
       && vs[i].name in Nearest(vs, lat, lon, n, dist).value
       && vs[j].name !in Nearest(vs, lat, lon, n, dist).value) ==>
        DistanceTo(vs[i], lat, lon, dist) <= DistanceTo(vs[j], lat, lon, dist)
  {
    var xs := DistanceItems(vs, lat, lon, dist);
    assert DistinctKeys(xs);
    SelectKeepsBest(xs, n, ByDistance);
    SelectBounded(xs, n, ByDistance);
    var d := Select(xs, n, ByDistance).value;
    forall i, j | 0 <= i < |vs| && 0 <= j < |vs| && vs[i].name in Keys(d) && vs[j].name !in Keys(d)
      ensures DistanceTo(vs[i], lat, lon, dist) <= DistanceTo(vs[j], lat, lon, dist)
    {
      var k :| 0 <= k < |d| && Keys(d)[k] == vs[i].name;
      assert d[k] in d;
      var i' :| 0 <= i' < |xs| && xs[i'] == d[k];
      assert i' == i;
      assert xs[j] !in d;
    }
  }

  /** find_nearest with n = 1 returns one name, of a glacier no other glacier is closer than. */
  lemma NearestOne(vs: seq<GlacierView>, lat: real, lon: real, dist: Distance)
    requires vs != []
    ensures Nearest(vs, lat, lon, 1, dist).Success?
    ensures |Nearest(vs, lat, lon, 1, dist).value| == 1
    ensures exists i :: (0 <= i < |vs| && Nearest(vs, lat, lon, 1, dist).value[0] == vs[i].name
      && forall j :: 0 <= j < |vs| ==> DistanceTo(vs[i], lat, lon, dist) <= DistanceTo(vs[j], lat, lon, dist))
  {
    var xs := DistanceItems(vs, lat, lon, dist);
    SelectOne(xs, ByDistance);
    var d := Select(xs, 1, ByDistance).value;
    var i :| 0 <= i < |xs| && xs[i] == d[0];
    assert Keys(d)[0] == vs[i].name;
    forall j | 0 <= j < |vs| ensures DistanceTo(vs[i], lat, lon, dist) <= DistanceTo(vs[j], lat, lon, dist) {
      assert xs[j] in xs;
    }
  }

  // ---------------------------------------------------------------- sort_by_latest_mass_balance

  /** The balance of the most recent year of a measured glacier. */
  function Latest(g: GlacierView): real
    requires Measured(g)
  {
    LatestBalance(g.balances)
  }

  /** The (latest balance, catalog position) items sort_by_latest_mass_balance offers, in catalog order. */
  function LatestItems(vs: seq<GlacierView>): (xs: seq<(real, nat)>)
    ensures forall k :: 0 <= k < |xs| ==>
      xs[k].1 < |vs| && Measured(vs[xs[k].1]) && xs[k].0 == Latest(vs[xs[k].1])
    ensures forall k, l :: 0 <= k < l < |xs| ==> xs[k].1 < xs[l].1
  {
    if vs == [] then []
    else
      var pre, g := vs[..|vs| - 1], vs[|vs| - 1];
      var xs := LatestItems(pre);
      assert forall p :: 0 <= p < |pre| ==> pre[p] == vs[p];
      if Measured(g) then xs + [(Latest(g), |vs| - 1)] else xs
  }

  /** Every measured glacier offers its item. */
  lemma {:induction false} LatestItemsComplete(vs: seq<GlacierView>, p: nat)
    requires p < |vs| && Measured(vs[p])
    ensures (Latest(vs[p]), p) in LatestItems(vs)
  {
    var pre := vs[..|vs| - 1];
    if p < |pre| {
      assert pre[p] == vs[p];
      LatestItemsComplete(pre, p);
    }
  }

  /** With n not positive, one measured glacier is enough to make the working-set loop raise. */
  lemma LatestFailsAt(vs: seq<GlacierView>, p: nat, n: int, reverse: bool)
    requires p < |vs| && Measured(vs[p]) && n <= 0
    ensures Select(LatestItems(vs), n, EvictScore(reverse)).None?
  {
    LatestItemsComplete(vs, p);
    SelectFails(LatestItems(vs), n, EvictScore(reverse));
  }

  /** Offering one more glacier adds its item exactly when it is measured. */
  lemma LatestItemsSnoc(vs: seq<GlacierView>, i: nat)
    requires i < |vs|
    ensures LatestItems(vs[..i + 1]) ==
      LatestItems(vs[..i]) + (if Measured(vs[i]) then [(Latest(vs[i]), i)] else [])
  {
    assert vs[..i + 1][..i] == vs[..i];
  }

  function Balance(latest: real, position: nat): real
  {
    latest
  }

  function NegatedBalance(latest: real, position: nat): real
  {
    -latest
  }

  /**
   * The working set evicts its smallest balance (the largest negated one) and admits a larger
   * one; with reverse it evicts the largest balance and admits a smaller one.
   */
  function EvictScore(reverse: bool): (real, nat) -> real
  {
    if reverse then Balance else NegatedBalance
  }

  /** The final ranking: by decreasing balance, or by increasing balance with reverse. */
  function RankScore(reverse: bool): (real, nat) -> real
  {
    if reverse then NegatedBalance else Balance
  }

  /** sort_by_latest_mass_balance: the positions of the glaciers left in the working set, ranked. */
  function SortByLatest(vs: seq<GlacierView>, n: int, reverse: bool): Result<seq<nat>>
  {
    match Select(LatestItems(vs), n, EvictScore(reverse))
    case None => Failure(EmptyWorkingSet)
    case Some(d) => Success(Values(SortDescending(d, RankScore(reverse))))
  }

  /** Every position the ranking returns is a position of the catalog. */
  lemma SortByLatestInRange(vs: seq<GlacierView>, n: int, reverse: bool)
    requires SortByLatest(vs, n, reverse).Success?
    ensures forall k :: 0 <= k < |SortByLatest(vs, n, reverse).value| ==> SortByLatest(vs, n, reverse).value[k] < |vs|
  {
    if n > 0 {
      LatestRanked(vs, n, reverse);
    } else {
      SelectFails(LatestItems(vs), n, EvictScore(reverse));
    }
  }

  predicate AnyMeasured(vs: seq<GlacierView>)
  {
    exists p :: 0 <= p < |vs| && Measured(vs[p])
  }

  /** a ranks strictly before b: larger, or smaller with reverse. */
  predicate Before(reverse: bool, a: real, b: real)
  {
    if reverse then a < b else a > b
  }

  /** Positions of measured glaciers, each ranking strictly before the next. */
  predicate Ranked(vs: seq<GlacierView>, r: seq<nat>, reverse: bool)
  {
    && (forall k :: 0 <= k < |r| ==> r[k] < |vs| && Measured(vs[r[k]]))
    && forall k, l :: 0 <= k < l < |r| ==> Before(reverse, Latest(vs[r[k]]), Latest(vs[r[l]]))
  }

  /** The query fails exactly when n is not positive and some glacier is measured. */
  lemma LatestFails(vs: seq<GlacierView>, n: int, reverse: bool)
    ensures SortByLatest(vs, n, reverse).Failure? <==> n <= 0 && AnyMeasured(vs)
  {
    var xs := LatestItems(vs);
    SelectFails(xs, n, EvictScore(reverse));
    if AnyMeasured(vs) {
      var p :| 0 <= p < |vs| && Measured(vs[p]);
      LatestItemsComplete(vs, p);
    }
  }

  /**
   * For n > 0: at most n glaciers, all measured, in strict order of their latest balance,
   * highest first (lowest first with reverse); so no glacier appears twice.
   */
  lemma LatestRanked(vs: seq<GlacierView>, n: int, reverse: bool)
    requires n > 0
    ensures SortByLatest(vs, n, reverse).Success?
    ensures |SortByLatest(vs, n, reverse).value| <= n
    ensures Ranked(vs, SortByLatest(vs, n, reverse).value, reverse)
  {
    var xs := LatestItems(vs);
    SelectBounded(xs, n, EvictScore(reverse));
    var d: seq<(real, nat)> := Select(xs, n, EvictScore(reverse)).value;
    var s: seq<(real, nat)> := SortDescending(d, RankScore(reverse));
    SortedItems(d, s);
    forall k | 0 <= k < |s| ensures s[k].1 < |vs| && Measured(vs[s[k].1]) && s[k].0 == Latest(vs[s[k].1]) {
      assert s[k] in d;
      var j :| 0 <= j < |xs| && xs[j] == s[k];
    }
    forall k, l | 0 <= k < l < |s| ensures Before(reverse, s[k].0, s[l].0) {
      assert RankScore(reverse)(s[l].0, s[l].1) <= RankScore(reverse)(s[k].0, s[k].1);
      assert s[k].0 != s[l].0;
    }
  }

  /** A sorted working set has the working set's items, as many, and its distinct keys. */
  lemma SortedItems<K, V>(d: seq<(K, V)>, s: seq<(K, V)>)
    requires multiset(s) == multiset(d)
    ensures |s| == |d| && forall x :: x in s <==> x in d
  {
    assert |s| == |multiset(s)| && |d| == |multiset(d)|;
    forall x ensures x in s <==> x in d {
      assert x in s <==> x in multiset(s);
      assert x in d <==> x in multiset(d);
    }
  }

  /** The measured glaciers have pairwise different latest balances. */
  predicate DistinctLatest(vs: seq<GlacierView>)
  {
    forall p, q :: 0 <= p < q < |vs| && Measured(vs[p]) && Measured(vs[q]) ==> Latest(vs[p]) != Latest(vs[q])
  }

  /**
   * With pairwise different latest balances the query is a true top n: it returns
   * min(n, number of measured glaciers) glaciers, and no measured glacier left out ranks
   * before one returned.
   */
  lemma LatestTop(vs: seq<GlacierView>, n: int, reverse: bool)
    requires n > 0 && DistinctLatest(vs)
    ensures SortByLatest(vs, n, reverse).Success?
    ensures |SortByLatest(vs, n, reverse).value| == if MeasuredCount(vs) < n then MeasuredCount(vs) else n
    ensures forall k, p ::
      (0 <= k < |SortByLatest(vs, n, reverse).value| && 0 <= p < |vs| && Measured(vs[p])
       && p !in SortByLatest(vs, n, reverse).value) ==>
        SortByLatest(vs, n, reverse).value[k] < |vs| && Measured(vs[SortByLatest(vs, n, reverse).value[k]])
        && !Before(reverse, Latest(vs[p]), Latest(vs[SortByLatest(vs, n, reverse).value[k]]))
  {
    var xs := LatestItems(vs);
    MeasuredItems(vs);
    LatestItemsDistinct(vs);
    SelectKeepsBest(xs, n, EvictScore(reverse));
    SelectBounded(xs, n, EvictScore(reverse));
    var d: seq<(real, nat)> := Select(xs, n, EvictScore(reverse)).value;
    var s: seq<(real, nat)> := SortDescending(d, RankScore(reverse));
    SortedItems(d, s);
    var r := Values(s);
    assert SortByLatest(vs, n, reverse) == Success(r);
    forall k, p | 0 <= k < |r| && 0 <= p < |vs| && Measured(vs[p]) && p !in r
      ensures r[k] < |vs| && Measured(vs[r[k]]) && !Before(reverse, Latest(vs[p]), Latest(vs[r[k]]))
    {
      LeftOutItem(vs, s, p);
      RankedItem(vs, d, s, k);
      KeptRanksFirst(xs, d, reverse, (Latest(vs[p]), p), s[k]);
    }
  }

  /** With pairwise different latest balances the offered items have distinct keys. */
  lemma LatestItemsDistinct(vs: seq<GlacierView>)
    requires DistinctLatest(vs)
    ensures DistinctKeys(LatestItems(vs))
  {
    var xs := LatestItems(vs);
    forall k, l | 0 <= k < l < |xs| ensures xs[k].0 != xs[l].0 {
      assert xs[k].1 < xs[l].1;
    }
  }

  /** A measured glacier whose position is not ranked has its item outside the ranking. */
  lemma LeftOutItem(vs: seq<GlacierView>, s: seq<(real, nat)>, p: nat)
    requires p < |vs| && Measured(vs[p]) && p !in Values(s)
    ensures (Latest(vs[p]), p) in LatestItems(vs) && (Latest(vs[p]), p) !in s
  {
    LatestItemsComplete(vs, p);
  }

  /** An item of the ranking is the item of a measured glacier. */
  lemma RankedItem(vs: seq<GlacierView>, d: seq<(real, nat)>, s: seq<(real, nat)>, k: nat)
    requires (forall x :: x in d ==> x in LatestItems(vs)) && (forall x :: x in s <==> x in d) && k < |s|
    ensures Values(s)[k] < |vs| && Measured(vs[Values(s)[k]]) && s[k].0 == Latest(vs[Values(s)[k]])
  {
    var xs := LatestItems(vs);
    assert s[k] in d;
    var j :| 0 <= j < |xs| && xs[j] == s[k];
  }

  /** An item the working set keeps ranks no later than an item it left out. */
  lemma KeptRanksFirst(xs: seq<(real, nat)>, d: seq<(real, nat)>, reverse: bool, e: (real, nat), x: (real, nat))
    requires forall e, x :: e in xs && e !in d && x in d ==>
      EvictScore(reverse)(x.0, x.1) <= EvictScore(reverse)(e.0, e.1)
    requires e in xs && e !in d && x in d
    ensures !Before(reverse, e.0, x.0)
  {
    assert EvictScore(reverse)(x.0, x.1) <= EvictScore(reverse)(e.0, e.1);
  }

  /** With n = 1 the one glacier returned has the highest latest balance (the lowest with reverse). */
  lemma LatestOne(vs: seq<GlacierView>, reverse: bool)
    requires AnyMeasured(vs)
    ensures SortByLatest(vs, 1, reverse).Success?
    ensures |SortByLatest(vs, 1, reverse).value| == 1
    ensures SortByLatest(vs, 1, reverse).value[0] < |vs| && Measured(vs[SortByLatest(vs, 1, reverse).value[0]])
    ensures forall q :: 0 <= q < |vs| && Measured(vs[q]) ==>
      !Before(reverse, Latest(vs[q]), Latest(vs[SortByLatest(vs, 1, reverse).value[0]]))
  {
    var xs := LatestItems(vs);
    var p :| 0 <= p < |vs| && Measured(vs[p]);
    LatestItemsComplete(vs, p);
    SelectOne(xs, EvictScore(reverse));
    var d: seq<(real, nat)> := Select(xs, 1, EvictScore(reverse)).value;
    SortOne(d, RankScore(reverse));
    assert SortByLatest(vs, 1, reverse) == Success(Values(d));
    RankedItem(vs, d, d, 0);
    forall q | 0 <= q < |vs| && Measured(vs[q])
      ensures !Before(reverse, Latest(vs[q]), Latest(vs[d[0].1]))
    {
      LatestItemsComplete(vs, q);
      OneStep(xs, d[0], (Latest(vs[q]), q), reverse);
    }
  }

  lemma SortOne<K, V>(d: seq<(K, V)>, score: (K, V) -> real)
    requires |d| == 1
    ensures SortDescending(d, score) == d
  {
    var s := SortDescending(d, score);
    SortedItems(d, s);
    assert s[0] in d;
  }

  lemma OneStep(xs: seq<(real, nat)>, x: (real, nat), e: (real, nat), reverse: bool)
    requires forall e :: e in xs ==> EvictScore(reverse)(x.0, x.1) <= EvictScore(reverse)(e.0, e.1)
    requires e in xs
    ensures !Before(reverse, e.0, x.0)
  {
    assert EvictScore(reverse)(x.0, x.1) <= EvictScore(reverse)(e.0, e.1);
  }

  // ---------------------------------------------------------------- filter_by_code

  /** The argument of filter_by_code: a text pattern, or an integer used as its decimal text. */
  datatype CodeQuery = TextPattern(text: string) | IntPattern(code: int)

  /** str(code_pattern) */
  function PatternText(q: CodeQuery): string
  {
    match q
    case TextPattern(s) => s
    case IntPattern(i) => IntString(i)
  }

  /** Some string the pattern expands to is not an integer, so that int() on it fails. */
  ghost predicate Unreadable(pattern: string)
  {
    exists s :: Matches(pattern, s) && ParseInt(s).None?
  }

  /** The names of the glaciers, in catalog order, whose code the pattern selects. */
  ghost function SelectedNames(vs: seq<GlacierView>, pattern: string): seq<string>
  {
    if vs == [] then []
    else
      var g := vs[|vs| - 1];
      SelectedNames(vs[..|vs| - 1], pattern) + (if Selects(pattern, g.code) then [g.name] else [])
  }

  /** The names of the glaciers, in catalog order, whose code is c. */
  function NamesWithCode(vs: seq<GlacierView>, c: int): seq<string>
  {
    if vs == [] then []
    else
      var g := vs[|vs| - 1];
      NamesWithCode(vs[..|vs| - 1], c) + (if g.code == c then [g.name] else [])
  }

  /** A name is selected exactly when it is the name of a glacier whose code the pattern selects. */
  lemma {:induction false} SelectedNamesMembers(vs: seq<GlacierView>, pattern: string)
    ensures forall x :: x in SelectedNames(vs, pattern) <==>
      exists i :: 0 <= i < |vs| && vs[i].name == x && Selects(pattern, vs[i].code)
  {
    if vs != [] {
      var pre := vs[..|vs| - 1];
      SelectedNamesMembers(pre, pattern);
      assert forall i :: 0 <= i < |pre| ==> pre[i] == vs[i];
      forall x | x in SelectedNames(vs, pattern)
        ensures exists i :: 0 <= i < |vs| && vs[i].name == x && Selects(pattern, vs[i].code)
      {
        if x !in SelectedNames(pre, pattern) {
          assert vs[|vs| - 1].name == x;
        }
      }
    }
  }

  /** A pattern without wildcards selects the glaciers whose code its text reads as. */
  lemma {:induction false} PlainPatternNames(vs: seq<GlacierView>, pattern: string, c: int)
    requires Wildcard !in pattern && ParseInt(pattern) == Some(c)
    ensures SelectedNames(vs, pattern) == NamesWithCode(vs, c)
    ensures !Unreadable(pattern)
  {
    NoWildcardMatches(pattern, pattern);
    if Unreadable(pattern) {
      var s :| Matches(pattern, s) && ParseInt(s).None?;
      NoWildcardMatches(pattern, s);
    }
    if vs != [] {
      PlainPatternNames(vs[..|vs| - 1], pattern, c);
      PlainPatternSelects(pattern, vs[|vs| - 1].code);
    }
  }

  /** An integer argument selects exactly the glaciers with that code, and never fails. */
  lemma IntPatternNames(vs: seq<GlacierView>, c: int)
    ensures SelectedNames(vs, PatternText(IntPattern(c))) == NamesWithCode(vs, c)
    ensures !Unreadable(PatternText(IntPattern(c)))
  {
    IntStringRoundTrip(c);
    var s := IntString(c);
    assert Wildcard !in s by {
      if c < 0 {
        var t := NatString(-c);
        assert s == "-" + t;
        assert forall i :: 0 <= i < |t| ==> IsDigit(t[i]);
      } else {
        assert forall i :: 0 <= i < |s| ==> IsDigit(s[i]);
      }
    }
    PlainPatternNames(vs, s, c);
  }

  /** "???" selects every glacier whose code lies between 0 and 999, and never fails. */
  lemma AllWildcardsNames(vs: seq<GlacierView>)
    ensures forall x :: x in SelectedNames(vs, "???") <==>
      exists i :: 0 <= i < |vs| && vs[i].name == x && 0 <= vs[i].code <= 999
    ensures !Unreadable("???")
  {
    SelectedNamesMembers(vs, "???");
    forall i | 0 <= i < |vs| ensures Selects("???", vs[i].code) <==> 0 <= vs[i].code <= 999 {
      AllWildcardsSelect(vs[i].code);
    }
    forall s | Matches("???", s) ensures ParseInt(s).Some? {
      assert AllDigits(s);
      ThreeDigits(s);
    }
  }

  // ---------------------------------------------------------------- summary

  /** The number of glaciers with at least one measurement. */
  function MeasuredCount(vs: seq<GlacierView>): nat
  {
    if vs == [] then 0 else MeasuredCount(vs[..|vs| - 1]) + (if Measured(vs[|vs| - 1]) then 1 else 0)
  }

  predicate Shrank(g: GlacierView)
  {
    Measured(g) && Latest(g) < 0.0
  }

  /** The number of glaciers whose latest balance is negative. */
  function ShrinkerCount(vs: seq<GlacierView>): nat
  {
    if vs == [] then 0 else ShrinkerCount(vs[..|vs| - 1]) + (if Shrank(vs[|vs| - 1]) then 1 else 0)
  }

  /** The earliest first year of a measured glacier, starting from the year given. */
  function EarliestYear(vs: seq<GlacierView>, start: int): int
  {
    if vs == [] then start
    else
      var e := EarliestYear(vs[..|vs| - 1], start);
      var g := vs[|vs| - 1];
      if Measured(g) && FirstYear(g.balances) < e then FirstYear(g.balances) else e
  }

  /** What summary reports: the number of glaciers, the earliest year, the percentage that shrank. */
  datatype SummaryReport = SummaryReport(glacierCount: nat, earliestYear: int, percentShrunk: real)

  /** summary, with the current year as a parameter; it fails when no glacier is measured. */
  function Summary(vs: seq<GlacierView>, currentYear: int): Result<SummaryReport>
  {
    var measured := MeasuredCount(vs);
    if measured == 0 then Failure(DivisionByZero)
    else
      var percent := (ShrinkerCount(vs) as real / measured as real) * 100.0;
      Success(SummaryReport(|vs|, EarliestYear(vs, currentYear), percent))
  }

  /**
   * The earliest year is no later than the current year nor than any measured glacier's first
   * year, and it is the current year or the first year of some measured glacier.
   */
  lemma {:induction false} EarliestYearBounds(vs: seq<GlacierView>, start: int)
    ensures EarliestYear(vs, start) <= start
    ensures forall p :: 0 <= p < |vs| && Measured(vs[p]) ==> EarliestYear(vs, start) <= FirstYear(vs[p].balances)
    ensures EarliestYear(vs, start) == start
      || exists p :: 0 <= p < |vs| && Measured(vs[p]) && EarliestYear(vs, start) == FirstYear(vs[p].balances)
  {
    if vs != [] {
      var pre := vs[..|vs| - 1];
      EarliestYearBounds(pre, start);
      assert forall p :: 0 <= p < |pre| ==> pre[p] == vs[p];
    }
  }

  /** The measured glaciers are counted once each, as the items the latest-balance query offers. */
  lemma {:induction false} MeasuredItems(vs: seq<GlacierView>)
    ensures MeasuredCount(vs) == |LatestItems(vs)|
    ensures MeasuredCount(vs) == 0 <==> !AnyMeasured(vs)
  {
    if vs != [] {
      var pre := vs[..|vs| - 1];
      MeasuredItems(pre);
      assert forall p :: 0 <= p < |pre| ==> pre[p] == vs[p];
      if AnyMeasured(pre) {
        var p :| 0 <= p < |pre| && Measured(pre[p]);
        assert Measured(vs[p]);
      }
    }
  }

  /** No more glaciers shrank than were measured, and all of them shrank exactly when the counts agree. */
  lemma {:induction false} ShrinkerBounds(vs: seq<GlacierView>)
    ensures ShrinkerCount(vs) <= MeasuredCount(vs)
    ensures ShrinkerCount(vs) == 0 <==> forall p :: 0 <= p < |vs| ==> !Shrank(vs[p])
    ensures ShrinkerCount(vs) == MeasuredCount(vs) <==> forall p :: 0 <= p < |vs| && Measured(vs[p]) ==> Shrank(vs[p])
  {
    if vs != [] {
      var pre := vs[..|vs| - 1];
      ShrinkerBounds(pre);
      assert forall p :: 0 <= p < |pre| ==> pre[p] == vs[p];
    }
  }

  /**
   * summary fails exactly when no glacier is measured; otherwise the percentage lies between
   * 0 and 100, and is 0 exactly when none shrank and 100 exactly when every measured one did.
   */
  lemma SummaryPercent(vs: seq<GlacierView>, currentYear: int)
    ensures Summary(vs, currentYear).Failure? <==> !AnyMeasured(vs)
    ensures Summary(vs, currentYear).Success? ==>
      && Summary(vs, currentYear).value.glacierCount == |vs|
      && 0.0 <= Summary(vs, currentYear).value.percentShrunk <= 100.0
      && (Summary(vs, currentYear).value.percentShrunk == 0.0 <==> forall p :: 0 <= p < |vs| ==> !Shrank(vs[p]))
      && (Summary(vs, currentYear).value.percentShrunk == 100.0 <==>
            forall p :: 0 <= p < |vs| && Measured(vs[p]) ==> Shrank(vs[p]))
  {
    MeasuredItems(vs);
    ShrinkerBounds(vs);
    if AnyMeasured(vs) {
      Percentage(ShrinkerCount(vs), MeasuredCount(vs));
    }
  }

  lemma Percentage(s: nat, m: nat)
    requires s <= m && m > 0
    ensures var pc := (s as real / m as real) * 100.0;
      && 0.0 <= pc <= 100.0 && (pc == 0.0 <==> s == 0) && (pc == 100.0 <==> s == m)
  {
    var q := s as real / m as real;
    assert q * (m as real) == s as real;
    assert q <= 1.0 by {
      if q > 1.0 {
        assert q * (m as real) > m as real;
      }
    }
  }

  // ---------------------------------------------------------------- plot_extremes

  /**
   * The two glaciers plot_extremes draws: the top of the ranking by highest latest balance,
   * which must have grown, and the top of the ranking by lowest, which must have shrunk.
   */
  function Extremes(vs: seq<GlacierView>): Result<(nat, nat)>
  {
    LatestRanked(vs, 1, false);
    LatestRanked(vs, 1, true);
    var grow := SortByLatest(vs, 1, false).value;
    if grow == [] then Failure(NoMeasuredGlacier)
    else if Latest(vs[grow[0]]) <= 0.0 then Failure(NoGrowth)
    else
      var shrink := SortByLatest(vs, 1, true).value;
      if shrink == [] then Failure(NoMeasuredGlacier)
      else if Latest(vs[shrink[0]]) >= 0.0 then Failure(NoShrinkage)
      else Success((grow[0], shrink[0]))
  }

  predicate SomeGrew(vs: seq<GlacierView>)
  {
    exists p :: 0 <= p < |vs| && Measured(vs[p]) && Latest(vs[p]) > 0.0
  }

  predicate SomeShrank(vs: seq<GlacierView>)
  {
    exists p :: 0 <= p < |vs| && Shrank(vs[p])
  }

  /**
   * plot_extremes fails for want of a measured glacier, for want of one that grew, or for want
   * of one that shrank, in that order; otherwise it draws a glacier with the highest latest
   * balance and one with the lowest.
   */
  lemma ExtremesCases(vs: seq<GlacierView>)
    ensures Extremes(vs) == Failure(NoMeasuredGlacier) <==> !AnyMeasured(vs)
    ensures Extremes(vs) == Failure(NoGrowth) <==> AnyMeasured(vs) && !SomeGrew(vs)
    ensures Extremes(vs) == Failure(NoShrinkage) <==> SomeGrew(vs) && !SomeShrank(vs)
    ensures Extremes(vs).Success? <==> SomeGrew(vs) && SomeShrank(vs)
    ensures Extremes(vs).Success? ==>
      var (p, q) := Extremes(vs).value;
      && p < |vs| && q < |vs| && Measured(vs[p]) && Measured(vs[q])
      && Latest(vs[p]) > 0.0 && Latest(vs[q]) < 0.0
      && forall k :: 0 <= k < |vs| && Measured(vs[k]) ==> Latest(vs[q]) <= Latest(vs[k]) <= Latest(vs[p])
  {
    LatestRanked(vs, 1, false);
    LatestRanked(vs, 1, true);
    var grow, shrink := SortByLatest(vs, 1, false).value, SortByLatest(vs, 1, true).value;
    if AnyMeasured(vs) {
      LatestOne(vs, false);
      LatestOne(vs, true);
      var p, q := grow[0], shrink[0];
      if SomeGrew(vs) {
        var k :| 0 <= k < |vs| && Measured(vs[k]) && Latest(vs[k]) > 0.0;
        assert !Before(false, Latest(vs[k]), Latest(vs[p]));
      }
      if SomeShrank(vs) {
        var k :| 0 <= k < |vs| && Shrank(vs[k]);
        assert !Before(true, Latest(vs[k]), Latest(vs[q]));
      }
      if Latest(vs[p]) > 0.0 {
        assert SomeGrew(vs);
      }
      if Latest(vs[q]) < 0.0 {
        assert Shrank(vs[q]);
      }
    }
  }
}
