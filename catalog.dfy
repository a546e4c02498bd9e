/**
 * GlacierCollection: the catalog of glaciers keyed by WGMS id, in insertion order. Its glaciers
 * are objects whose mass balances the measurement sheet updates in place; its queries read them.
 * Every method is proved against the value-level functions of Inventory, MeasurementSheet and
 * Queries, applied to the catalog's current contents.
 */
module Catalog {
  import opened Base
  import opened Decimal
  import opened OrderedDict
  import opened MassBalance
  import opened GlacierEntity
  import opened TopN
  import opened CodePattern
  import opened Inventory
  import opened MeasurementSheet
  import opened Queries

  class GlacierCollection {
    /** The dict self.glaciers: (id, glacier) items in insertion order. */
    var glaciers: seq<(string, Glacier)>

    ghost function Objects(): set<Glacier>
      reads this
    {
      set i | 0 <= i < |glaciers| :: glaciers[i].1
    }

    /** Each id occurs once and keys the glacier of that id, so distinct items hold distinct glaciers. */
    ghost predicate Valid()
      reads this
    {
      && DistinctKeys(glaciers)
      && forall i :: 0 <= i < |glaciers| ==> glaciers[i].1.id == glaciers[i].0
    }

    /** The catalog as a value: each id with the current state of its glacier. */
    ghost function Entries(): (es: seq<(string, GlacierView)>)
      reads this, Objects()
      ensures |es| == |glaciers|
      ensures forall i :: 0 <= i < |glaciers| ==> es[i] == (glaciers[i].0, glaciers[i].1.Snapshot())
    {
      seq(|glaciers|, i reads this, Objects() requires 0 <= i < |glaciers| =>
        (glaciers[i].0, glaciers[i].1.Snapshot()))
    }

    /** The glaciers alone, in catalog order, as self.glaciers.items() visits them. */
    ghost function View(): (vs: seq<GlacierView>)
      reads this, Objects()
      ensures |vs| == |glaciers| && forall i :: 0 <= i < |glaciers| ==> vs[i] == glaciers[i].1.Snapshot()
    {
      Values(Entries())
    }

    constructor Empty()
      ensures glaciers == []
    {
      glaciers := [];
    }

    /**
     * The constructor over the rows of the inventory sheet: it fails exactly as FromRows does,
     * and otherwise holds fresh glaciers whose contents are exactly those FromRows builds.
     */
    static method FromInventory(rows: seq<InventoryRow>) returns (r: Result<GlacierCollection>)
      ensures r.Failure? <==> FromRows(rows).Failure?
      ensures r.Failure? ==> r.error == FromRows(rows).error
      ensures r.Success? ==> fresh(r.value) && fresh(r.value.Objects())
      ensures r.Success? ==> r.value.Valid() && r.value.Entries() == FromRows(rows).value
    {
      var c := new GlacierCollection.Empty();
      for j := 0 to |rows|
        invariant fresh(c) && fresh(c.Objects()) && c.Valid()
        invariant FromRows(rows[..j]) == Success(c.Entries())
      {
        var row := rows[j];
        assert rows[..j + 1][..j] == rows[..j];
        var code := ParseInt(CodeText(row));
        if code.None? {
          FromRowsStops(rows, j + 1);
          return Failure(NotAnInteger(CodeText(row)));
        }
        ghost var objs, es := c.Objects(), c.Entries();
        var g := new Glacier(row.gid, row.name, row.unit, row.lat, row.lon, code.value);
        assert c.Entries() == es;
        assert g.Snapshot() == Built(row, code.value);
        c.Update(row.gid, g);
        assert fresh(objs + {g});
      }
      assert rows[..|rows|] == rows;
      return Success(c);
    }

    /**
     * self.glaciers.update({gid: g}): the item of gid now holds g, in place when gid was present
     * and appended otherwise; the other glaciers and their contents are untouched.
     */
    method Update(gid: string, g: Glacier)
      requires Valid() && g.id == gid
      modifies this
      ensures glaciers == Put(old(glaciers), gid, g)
      ensures Valid() && Objects() <= old(Objects()) + {g}
      ensures Entries() == Put(old(Entries()), gid, g.Snapshot())
    {
      ghost var es := Entries();
      PutParallel(glaciers, es, gid, g, g.Snapshot());
      PutItems(glaciers, gid, g);
      glaciers := Put(glaciers, gid, g);
      assert Entries() == Put(es, gid, g.Snapshot());
    }

    /**
     * read_mass_balance_data over the rows of the sheet: the catalog's glaciers stay where they
     * are, their contents become those Ingest computes, and the method fails exactly when Ingest
     * stops, with the same error; the rows before the failing one stay applied.
     */
    method ReadMassBalanceData(rows: seq<MeasurementRow>) returns (r: Result<()>)
      requires Valid()
      modifies Objects()
      ensures glaciers == old(glaciers) && Valid()
      ensures Entries() == Ingest(old(Entries()), rows).entries
      ensures r.Failure? <==> Ingest(old(Entries()), rows).error.Some?
      ensures r.Failure? ==> Some(r.error) == Ingest(old(Entries()), rows).error
    {
      ghost var start := Entries();
      for j := 0 to |rows|
        invariant glaciers == old(glaciers) && Valid()
        invariant Ingest(start, rows[..j]) == Outcome(Entries(), None)
      {
        var row := rows[j];
        ghost var before := Entries();
        assert rows[..j + 1][..j] == rows[..j];
        IngestShape(start, rows[..j]);
        assert Keys(before) == Keys(glaciers);
        assert Keys(start) == Keys(glaciers);
        var lower := ParseInt(row.lowerBound);
        if lower.None? {
          IngestStops(start, rows, j + 1);
          return Failure(NotAnInteger(row.lowerBound));
        }
        var upper := ParseInt(row.upperBound);
        if upper.None? {
          IngestStops(start, rows, j + 1);
          return Failure(NotAnInteger(row.upperBound));
        }
        var partial: bool;
        if lower.value == WholeGlacier && upper.value == WholeGlacier {
          partial := false;
        } else {
          partial := true;
        }
        if row.balance.Some? {
          if row.gid !in Keys(glaciers) {
            IngestStops(start, rows, j + 1);
            return Failure(UnknownGlacier(row.gid));
          }
          var p := IndexOf(glaciers, row.gid);
          var g := glaciers[p].1;
          var year := ParseInt(row.year);
          if year.None? {
            IngestStops(start, rows, j + 1);
            return Failure(NotAnInteger(row.year));
          }
          IndexOfKeys(glaciers, before, row.gid);
          ghost var reading := Reading(year.value, row.balance.value, partial);
          assert ApplyRow(before, row) == Outcome(AddReading(before, p, reading), None);
          AddAt(p, year.value, row.balance.value, partial);
        }
      }
      assert rows[..|rows|] == rows;
      return Success(());
    }

    /**
     * find_nearest(lat, lon, n) with the distance function given: the names the working set
     * holds after every glacier was offered, as Nearest states them.
     */
    method FindNearest(lat: real, lon: real, n: int, dist: Distance) returns (r: Result<seq<string>>)
      ensures r == Nearest(View(), lat, lon, n, dist)
    {
      var nearest: seq<(string, real)> := [];
      for i := 0 to |glaciers|
        invariant Select(DistanceItems(View()[..i], lat, lon, dist), n, ByDistance) == Some(nearest)
      {
        var v := glaciers[i].1;
        var (lat2, lon2) := v.coordinates;
        var distance := dist(lat, lon, lat2, lon2);
        ghost var done := DistanceItems(View()[..i + 1], lat, lon, dist);
        assert done[..i] == DistanceItems(View()[..i], lat, lon, dist);
        assert done[i] == (v.name, distance);
        assert done == done[..i] + [done[i]];
        if |nearest| < n {
          nearest := Put(nearest, v.name, distance);
        } else if |nearest| == 0 {
          // max() of an empty dict raises
          SelectFails(DistanceItems(View(), lat, lon, dist), n, ByDistance);
          return Failure(EmptyWorkingSet);
        } else {
          var farthest := MaxIndex(Scores(nearest, ByDistance));
          if distance < nearest[farthest].1 {
            nearest := Put(RemoveAt(nearest, farthest), v.name, distance);
          }
        }
      }
      assert View()[..|glaciers|] == View();
      return Success(Keys(nearest));
    }

    /**
     * filter_by_code: it fails exactly when some string the pattern expands to is not an integer,
     * naming the first such string in the order of the expansion loop; otherwise it returns, in catalog order, the names of the glaciers
     * whose code the pattern selects.
     */
    method FilterByCode(query: CodeQuery) returns (r: Result<seq<string>>)
      ensures r.Failure? <==> Unreadable(PatternText(query))
      ensures r.Failure? ==>
        r.error.NotAnInteger? && Matches(PatternText(query), r.error.text) && ParseInt(r.error.text).None?
      ensures r.Failure? ==> var texts := Expansion(PatternText(query));
        exists i ::
          && 0 <= i < |texts|
          && r.error == NotAnInteger(texts[i])
          && forall j :: 0 <= j < i ==> ParseInt(texts[j]).Some?
      ensures r.Success? ==> r.value == SelectedNames(View(), PatternText(query))
    {
      var pattern := PatternText(query);
      var texts := Expand(pattern);
      var codes: seq<int> := [];
      for j := 0 to |texts|
        invariant |codes| == j && forall k :: 0 <= k < j ==> ParseInt(texts[k]) == Some(codes[k])
      {
        var code := ParseInt(texts[j]);
        if code.None? {
          return Failure(NotAnInteger(texts[j]));
        }
        codes := codes + [code.value];
      }
      assert forall c :: c in codes <==> Selects(pattern, c) by {
        forall c ensures c in codes <==> Selects(pattern, c) {
          if c in codes {
            var k :| 0 <= k < |codes| && codes[k] == c;
            assert Matches(pattern, texts[k]) && ParseInt(texts[k]) == Some(c);
          }
          if Selects(pattern, c) {
            var s :| Matches(pattern, s) && ParseInt(s) == Some(c);
            var k :| 0 <= k < |texts| && texts[k] == s;
          }
        }
      }
      assert !Unreadable(pattern) by {
        forall s | Matches(pattern, s) ensures ParseInt(s).Some? {
          var k :| 0 <= k < |texts| && texts[k] == s;
        }
      }
      var names: seq<string> := [];
      for i := 0 to |glaciers|
        invariant names == SelectedNames(View()[..i], pattern)
      {
        var v := glaciers[i].1;
        assert View()[..i + 1][..i] == View()[..i];
        if v.code in codes {
          names := names + [v.name];
        }
      }
      assert View()[..|glaciers|] == View();
      return Success(names);
    }

    /**
     * sort_by_latest_mass_balance(n, reverse): the glaciers at the positions SortByLatest
     * ranks, in its order; it fails exactly when SortByLatest does.
     */
    method SortByLatestMassBalance(n: int, reverse: bool) returns (r: Result<seq<Glacier>>)
      ensures r.Failure? <==> SortByLatest(View(), n, reverse).Failure?
      ensures r.Failure? ==> r.error == SortByLatest(View(), n, reverse).error
      ensures r.Success? ==> |r.value| == |SortByLatest(View(), n, reverse).value|
      ensures r.Success? ==> forall k :: 0 <= k < |r.value| ==>
        SortByLatest(View(), n, reverse).value[k] < |glaciers|
        && r.value[k] == glaciers[SortByLatest(View(), n, reverse).value[k]].1
    {
      ghost var vs := View();
      var working := OfferAll(Values(glaciers), vs, n, reverse);
      assert View() == vs;
      if working.None? {
        return Failure(EmptyWorkingSet);
      }
      var changes: seq<(real, nat)> := working.value;
      var ranked: seq<(real, nat)> := SortDescending(changes, RankScore(reverse));
      var positions := Values(ranked);
      assert positions == SortByLatest(vs, n, reverse).value;
      SortByLatestInRange(vs, n, reverse);
      // [changes[k] for k in sorted(changes.keys(), ...)]
      var entries := glaciers;
      var result := seq(|positions|, k requires 0 <= k < |positions| && positions[k] < |entries| =>
        entries[positions[k]].1);
      return Success(result);
    }

    /**
     * self.glaciers[gid].add_mass_balance_measurement(...) for the glacier at position p: its
     * series takes the reading and no other entry of the catalog changes.
     */
    method AddAt(p: nat, year: int, massBalance: real, partial: bool)
      requires Valid() && p < |glaciers|
      modifies glaciers[p].1
      ensures glaciers == old(glaciers) && Valid()
      ensures Entries() == AddReading(old(Entries()), p, Reading(year, massBalance, partial))
    {
      ghost var before := Entries();
      var g := glaciers[p].1;
      g.AddMassBalanceMeasurement(year, massBalance, partial);
      forall i | 0 <= i < |glaciers| ensures Entries()[i] == AddReading(before, p, Reading(year, massBalance, partial))[i] {
        if i != p {
          assert Keys(glaciers)[i] != Keys(glaciers)[p];
          assert glaciers[i].1 != g;
        }
      }
    }

    /** summary, with the current year given: exactly the report Summary states. */
    method Summary(currentYear: int) returns (r: Result<SummaryReport>)
      ensures r == Queries.Summary(View(), currentYear)
    {
      ghost var vs := View();
      var glacierCount := |glaciers|;
      var earliestYear := EarliestOf(Values(glaciers), vs, currentYear);
      var measured, shrinkers := CountShrinkers(Values(glaciers), vs);
      assert View() == vs;
      if measured == 0 {
        return Failure(DivisionByZero);
      }
      var percentShrunk := (shrinkers as real / measured as real) * 100.0;
      return Success(SummaryReport(glacierCount, earliestYear, percentShrunk));
    }

    /**
     * plot_extremes without the drawing: the glacier that grew most and the one that shrank
     * most at their latest measurement, as Extremes states them, or the error that stops it.
     */
    method PlotExtremes() returns (r: Result<(Glacier, Glacier)>)
      ensures r.Failure? <==> Extremes(View()).Failure?
      ensures r.Failure? ==> r.error == Extremes(View()).error
      ensures r.Success? ==> Extremes(View()).value.0 < |glaciers| && Extremes(View()).value.1 < |glaciers|
      ensures r.Success? ==>
        r.value == (glaciers[Extremes(View()).value.0].1, glaciers[Extremes(View()).value.1].1)
    {
      ghost var vs := View();
      LatestRanked(vs, 1, false);
      LatestRanked(vs, 1, true);
      ghost var up, down := SortByLatest(vs, 1, false).value, SortByLatest(vs, 1, true).value;
      var grow := SortByLatestMassBalance(1, false);
      assert View() == vs;
      var growExtreme := grow.value;
      if |growExtreme| == 0 {
        // grow_extreme[0] raises
        assert Extremes(vs) == Failure(NoMeasuredGlacier);
        return Failure(NoMeasuredGlacier);
      }
      var growGlacier := growExtreme[0];
      assert growGlacier.Snapshot() == vs[up[0]];
      var growth := growGlacier.massBalances[LatestYear(growGlacier.massBalances)];
      assert growth == Latest(vs[up[0]]);
      if !(growth > 0.0) {
        assert Extremes(vs) == Failure(NoGrowth);
        return Failure(NoGrowth);
      }
      var shrunk := SortByLatestMassBalance(1, true);
      assert View() == vs;
      var shrunkExtreme := shrunk.value;
      if |shrunkExtreme| == 0 {
        assert Extremes(vs) == Failure(NoMeasuredGlacier);
        return Failure(NoMeasuredGlacier);
      }
      var shrunkGlacier := shrunkExtreme[0];
      assert shrunkGlacier.Snapshot() == vs[down[0]];
      var shrinkage := shrunkGlacier.massBalances[LatestYear(shrunkGlacier.massBalances)];
      assert shrinkage == Latest(vs[down[0]]);
      if !(shrinkage < 0.0) {
        assert Extremes(vs) == Failure(NoShrinkage);
        return Failure(NoShrinkage);
      }
      assert Extremes(vs) == Success((up[0], down[0]));
      return Success((growGlacier, shrunkGlacier));
    }
  }

  /** The first loop of summary over the glaciers gs, whose contents are vs: the earliest first year. */
  method EarliestOf(gs: seq<Glacier>, ghost vs: seq<GlacierView>, currentYear: int) returns (earliestYear: int)
    requires |gs| == |vs| && forall i :: 0 <= i < |gs| ==> gs[i].massBalances == vs[i].balances
    ensures earliestYear == EarliestYear(vs, currentYear)
  {
    earliestYear := currentYear;
    for i := 0 to |gs|
      invariant earliestYear == EarliestYear(vs[..i], currentYear)
    {
      var v := gs[i];
      assert vs[..i + 1][..i] == vs[..i];
      if |v.massBalances| > 0 {
        var minYear := FirstYear(v.massBalances);
        if minYear < earliestYear {
          earliestYear := minYear;
        }
      }
    }
    assert vs[..|gs|] == vs;
  }

  /**
   * The second loop of summary over the glaciers gs, whose contents are vs: how many are
   * measured and how many of those shrank at their latest measurement.
   */
  method CountShrinkers(gs: seq<Glacier>, ghost vs: seq<GlacierView>) returns (measured: nat, shrinkers: nat)
    requires |gs| == |vs| && forall i :: 0 <= i < |gs| ==> gs[i].massBalances == vs[i].balances
    ensures measured == MeasuredCount(vs) && shrinkers == ShrinkerCount(vs)
  {
    measured, shrinkers := 0, 0;
    for i := 0 to |gs|
      invariant measured == MeasuredCount(vs[..i])
      invariant shrinkers == ShrinkerCount(vs[..i])
    {
      var v := gs[i];
      assert vs[..i + 1][..i] == vs[..i];
      if |v.massBalances| > 0 {
        measured := measured + 1;
        var latestChange := v.massBalances[LatestYear(v.massBalances)];
        if latestChange < 0.0 {
          shrinkers := shrinkers + 1;
        }
      }
    }
    assert vs[..|gs|] == vs;
  }

  /**
   * The loop of the working set over the glaciers gs, whose contents are vs: every measured
   * glacier offers its latest balance with its position.
   */
  method OfferAll(gs: seq<Glacier>, ghost vs: seq<GlacierView>, n: int, reverse: bool)
    returns (r: Option<seq<(real, nat)>>)
    requires |gs| == |vs| && forall i :: 0 <= i < |gs| ==> gs[i].massBalances == vs[i].balances
    ensures r == Select(LatestItems(vs), n, EvictScore(reverse))
  {
    ghost var offered: seq<(real, nat)> := [];
    // latest balance -> the glacier, held by its catalog position
    var changes: seq<(real, nat)> := [];
    for i := 0 to |gs|
      invariant offered == LatestItems(vs[..i])
      invariant Select(offered, n, EvictScore(reverse)) == Some(changes)
    {
      var v := gs[i];
      LatestItemsSnoc(vs, i);
      if |v.massBalances| > 0 {
        var latestChange := v.massBalances[LatestYear(v.massBalances)];
        ghost var x: (real, nat) := (latestChange, i);
        assert x == (Latest(vs[i]), i);
        SelectSnoc(offered, x, n, EvictScore(reverse));
        var next := OfferChange(changes, latestChange, i, n, reverse);
        if next.None? {
          LatestFailsAt(vs, i, n, reverse);
          return None;
        }
        changes := next.value;
        offered := offered + [x];
      }
    }
    assert vs[..|gs|] == vs;
    return Some(changes);
  }

  /**
   * One glacier offering its latest balance to the working set of sort_by_latest_mass_balance:
   * stored while fewer than n are held; otherwise, unless the working set is empty (min() or
   * max() of it raises), it replaces the smallest balance held when larger, or with reverse the
   * largest balance held when smaller.
   */
  method OfferChange(changes: seq<(real, nat)>, latestChange: real, position: nat, n: int, reverse: bool)
    returns (r: Option<seq<(real, nat)>>)
    ensures r == Step(changes, (latestChange, position), n, EvictScore(reverse))
    ensures r.None? <==> n <= 0 && changes == []
  {
    if !reverse {
      if |changes| < n {
        return Some(Put(changes, latestChange, position));
      } else if |changes| == 0 {
        return None;
      }
      // min(changes.keys()): the first key of largest negated value
      var smallest := MaxIndex(Scores(changes, NegatedBalance));
      if latestChange > changes[smallest].0 {
        return Some(Put(RemoveAt(changes, smallest), latestChange, position));
      }
    } else {
      if |changes| < n {
        return Some(Put(changes, latestChange, position));
      } else if |changes| == 0 {
        return None;
      }
      // max(changes.keys())
      var largest := MaxIndex(Scores(changes, Balance));
      if latestChange < changes[largest].0 {
        return Some(Put(RemoveAt(changes, largest), latestChange, position));
      }
    }
    return Some(changes);
  }
}
