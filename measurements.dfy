/**
 * Reading the mass-balance sheet into the catalog. Rows are taken in order; both bound cells of
 * every row are read as integers, and a row with a non-empty balance cell adds one reading to
 * the glacier of its id, partial unless both bounds are 9999. The first row that cannot be read
 * stops the loop, and the rows before it stay applied.
 */
module MeasurementSheet {
  import opened Base
  import opened Decimal
  import opened OrderedDict
  import opened MassBalance
  import opened GlacierEntity

  /**
   * One row of the mass-balance sheet: the cells WGMS_ID, YEAR, ANNUAL_BALANCE (None for the
   * empty cell, otherwise its number), LOWER_BOUND and UPPER_BOUND.
   */
  datatype MeasurementRow = MeasurementRow(
    gid: string,
    year: string,
    balance: Option<real>,
    lowerBound: string,
    upperBound: string)

  /** The value both bounds hold when a measurement covers the whole glacier. */
  const WholeGlacier: int := 9999

  predicate IsPartial(lower: int, upper: int)
  {
    !(lower == WholeGlacier && upper == WholeGlacier)
  }

  /**
   * What stops the loop at this row, given the ids of the catalog: a bound that is not an
   * integer, and, when the balance cell is not empty, an unknown id or a year that is not an
   * integer, checked in that order.
   */
  function RowFault(ids: seq<string>, row: MeasurementRow): Option<Error>
  {
    if ParseInt(row.lowerBound).None? then Some(NotAnInteger(row.lowerBound))
    else if ParseInt(row.upperBound).None? then Some(NotAnInteger(row.upperBound))
    else if row.balance.None? then None
    else if row.gid !in ids then Some(UnknownGlacier(row.gid))
    else if ParseInt(row.year).None? then Some(NotAnInteger(row.year))
    else None
  }

  /** The reading a row contributes; none for an empty balance cell or a cell that cannot be read. */
  function RowReading(row: MeasurementRow): (r: Option<Reading>)
    ensures r.Some? ==> row.balance.Some? && ParseInt(row.year) == Some(r.value.year)
    ensures r.Some? ==> r.value.value == row.balance.value
    ensures r.Some? ==> (r.value.partial <==>
      !(ParseInt(row.lowerBound) == Some(WholeGlacier) && ParseInt(row.upperBound) == Some(WholeGlacier)))
    ensures (row.balance.Some? && ParseInt(row.year).Some?
      && ParseInt(row.lowerBound).Some? && ParseInt(row.upperBound).Some?) ==> r.Some?
  {
    match (ParseInt(row.year), row.balance, ParseInt(row.lowerBound), ParseInt(row.upperBound))
    case (Some(y), Some(b), Some(l), Some(u)) => Some(Reading(y, b, IsPartial(l, u)))
    case _ => None
  }

  /** The catalog entries after some rows, and the error that stopped the loop, if any. */
  datatype Outcome = Outcome(entries: seq<(string, GlacierView)>, error: Option<Error>)

  /** One iteration: a faulty row stops; a reading goes to the glacier of the row's id. */
  function ApplyRow(d: seq<(string, GlacierView)>, row: MeasurementRow): Outcome
  {
    match RowFault(Keys(d), row)
    case Some(e) => Outcome(d, Some(e))
    case None =>
      match RowReading(row)
      case None => Outcome(d, None)
      case Some(r) =>
        Outcome(AddReading(d, IndexOf(d, row.gid), r), None)
  }

  /** The entries with reading r added to the series of entry p, and nothing else changed. */
  function AddReading(d: seq<(string, GlacierView)>, p: nat, r: Reading): (e: seq<(string, GlacierView)>)
    requires p < |d|
    ensures |e| == |d| && e[p].0 == d[p].0 && e[p].1.balances == Accumulate(d[p].1.balances, r)
    ensures e[p].1.(balances := d[p].1.balances) == d[p].1
    ensures forall i :: 0 <= i < |d| && i != p ==> e[i] == d[i]
  {
    d[p := (d[p].0, d[p].1.(balances := Accumulate(d[p].1.balances, r)))]
  }

  /** The whole loop over the rows, in order, from the catalog entries d. */
  function Ingest(d: seq<(string, GlacierView)>, rows: seq<MeasurementRow>): Outcome
  {
    if rows == [] then Outcome(d, None)
    else
      var o := Ingest(d, rows[..|rows| - 1]);
      if o.error.Some? then o else ApplyRow(o.entries, rows[|rows| - 1])
  }

  /** The readings the rows hold for glacier g, in order. */
  function ReadingsFor(rows: seq<MeasurementRow>, g: string): seq<Reading>
  {
    if rows == [] then []
    else
      var row := rows[|rows| - 1];
      ReadingsFor(rows[..|rows| - 1], g)
        + (if row.gid == g && RowReading(row).Some? then [RowReading(row).value] else [])
  }

  /** e is d with possibly other balances: same ids, same glaciers in the same places. */
  predicate SameGlaciers(d: seq<(string, GlacierView)>, e: seq<(string, GlacierView)>)
  {
    && |e| == |d|
    && forall p :: 0 <= p < |d| ==> e[p].0 == d[p].0 && e[p].1.(balances := d[p].1.balances) == d[p].1
  }

  /** Reading measurements adds no glacier, drops none, moves none and changes nothing but balances. */
  lemma {:induction false} IngestShape(d: seq<(string, GlacierView)>, rows: seq<MeasurementRow>)
    ensures SameGlaciers(d, Ingest(d, rows).entries)
    ensures Keys(Ingest(d, rows).entries) == Keys(d)
  {
    if rows != [] {
      IngestShape(d, rows[..|rows| - 1]);
    }
  }

  /** The loop stops with an error exactly when some row is faulty. */
  lemma {:induction false} IngestFails(d: seq<(string, GlacierView)>, rows: seq<MeasurementRow>)
    ensures Ingest(d, rows).error.Some? <==>
      exists i :: 0 <= i < |rows| && RowFault(Keys(d), rows[i]).Some?
  {
    if rows != [] {
      var pre, row := rows[..|rows| - 1], rows[|rows| - 1];
      assert rows == pre + [row];
      IngestFails(d, pre);
      IngestShape(d, pre);
      if Ingest(d, pre).error.Some? {
        var i :| 0 <= i < |pre| && RowFault(Keys(d), pre[i]).Some?;
        assert rows[i] == pre[i];
      } else if RowFault(Keys(d), row).Some? {
        assert RowFault(Keys(d), rows[|rows| - 1]).Some?;
      } else {
        forall i | 0 <= i < |rows| ensures RowFault(Keys(d), rows[i]).None? {
          if i < |pre| {
            assert rows[i] == pre[i];
          }
        }
      }
    }
  }

  /** A loop that does not stop met no faulty row. */
  lemma IngestFaultless(d: seq<(string, GlacierView)>, rows: seq<MeasurementRow>)
    requires Ingest(d, rows).error.None?
    ensures forall j :: 0 <= j < |rows| ==> RowFault(Keys(d), rows[j]).None?
  {
    IngestFails(d, rows);
  }

  /**
   * When the loop stops with an error, it is the error of the first faulty row, and the entries
   * are those the rows before it made.
   */
  lemma {:induction false} IngestFirstFault(d: seq<(string, GlacierView)>, rows: seq<MeasurementRow>)
    requires Ingest(d, rows).error.Some?
    ensures exists i ::
      && 0 <= i < |rows| && RowFault(Keys(d), rows[i]) == Ingest(d, rows).error
      && (forall j :: 0 <= j < i ==> RowFault(Keys(d), rows[j]).None?)
      && Ingest(d, rows).entries == Ingest(d, rows[..i]).entries
  {
    var pre, row := rows[..|rows| - 1], rows[|rows| - 1];
    assert rows == pre + [row];
    if Ingest(d, pre).error.Some? {
      IngestFirstFault(d, pre);
      var i :| 0 <= i < |pre| && RowFault(Keys(d), pre[i]) == Ingest(d, pre).error
        && (forall j :: 0 <= j < i ==> RowFault(Keys(d), pre[j]).None?)
        && Ingest(d, pre).entries == Ingest(d, pre[..i]).entries;
      assert pre[..i] == rows[..i];
      assert forall j :: 0 <= j < i ==> rows[j] == pre[j];
      assert rows[i] == pre[i];
    } else {
      IngestFaultless(d, pre);
      assert rows[..|pre|] == pre;
      assert RowFault(Keys(d), rows[|pre|]) == Ingest(d, rows).error by {
        IngestShape(d, pre);
      }
    }
  }

  /** Once a prefix of the rows stops the loop, the loop stops there. */
  lemma {:induction false} IngestStops(d: seq<(string, GlacierView)>, rows: seq<MeasurementRow>, k: nat)
    requires k <= |rows| && Ingest(d, rows[..k]).error.Some?
    ensures Ingest(d, rows) == Ingest(d, rows[..k])
    decreases |rows| - k
  {
    if k < |rows| {
      var pre := rows[..|rows| - 1];
      assert pre[..k] == rows[..k];
      IngestStops(d, pre, k);
    } else {
      assert rows[..k] == rows;
    }
  }

  /**
   * Without a faulty row, and with the ids distinct, every glacier's series is its old series
   * after the readings the rows hold for it, in row order.
   */
  lemma {:induction false} IngestBalances(d: seq<(string, GlacierView)>, rows: seq<MeasurementRow>)
    requires DistinctKeys(d) && Ingest(d, rows).error.None?
    ensures |Ingest(d, rows).entries| == |d|
    ensures forall p :: 0 <= p < |d| ==>
      Ingest(d, rows).entries[p].1.balances == AccumulateAll(d[p].1.balances, ReadingsFor(rows, d[p].0))
  {
    IngestShape(d, rows);
    if rows != [] {
      var pre, row := rows[..|rows| - 1], rows[|rows| - 1];
      var o := Ingest(d, pre);
      assert o.error.None?;
      IngestBalances(d, pre);
      IngestShape(d, pre);
      var e := o.entries;
      assert Ingest(d, rows) == ApplyRow(e, row);
      match RowReading(row)
      case None =>
        forall p | 0 <= p < |d| ensures ReadingsFor(rows, d[p].0) == ReadingsFor(pre, d[p].0) { }
      case Some(r) =>
        forall p | 0 <= p < |d|
          ensures Ingest(d, rows).entries[p].1.balances == AccumulateAll(d[p].1.balances, ReadingsFor(rows, d[p].0))
        {
          ApplyAt(d, e, row, r, p);
          if d[p].0 == row.gid {
            var s := ReadingsFor(pre, d[p].0);
            assert ReadingsFor(rows, d[p].0) == s + [r];
            assert (s + [r])[..|s|] == s;
          } else {
            assert ReadingsFor(rows, d[p].0) == ReadingsFor(pre, d[p].0);
          }
        }
    }
  }

  /** The effect of one reading on entry p, for distinct ids. */
  lemma ApplyAt(d: seq<(string, GlacierView)>, e: seq<(string, GlacierView)>, row: MeasurementRow, r: Reading, p: nat)
    requires DistinctKeys(d) && SameGlaciers(d, e) && Keys(e) == Keys(d) && p < |d|
    requires RowFault(Keys(e), row).None? && RowReading(row) == Some(r)
    ensures ApplyRow(e, row).entries[p].1.balances ==
      if d[p].0 == row.gid then Accumulate(e[p].1.balances, r) else e[p].1.balances
  {
    var q := IndexOf(e, row.gid);
    assert Keys(d)[q] == row.gid && Keys(d)[p] == d[p].0;
    if d[p].0 == row.gid {
      assert p == q;
    }
  }

  /**
   * The value every year of every glacier holds after the sheet, stated without replaying it:
   * the first reading of a new year, and every later partial reading added on top.
   */
  lemma IngestYear(d: seq<(string, GlacierView)>, rows: seq<MeasurementRow>, p: nat, y: int)
    requires DistinctKeys(d) && Ingest(d, rows).error.None? && p < |d|
    ensures p < |Ingest(d, rows).entries|
    ensures Lookup(Ingest(d, rows).entries[p].1.balances, y) ==
      Expected(d[p].1.balances, ReadingsFor(rows, d[p].0), y)
  {
    IngestShape(d, rows);
    IngestBalances(d, rows);
    AccumulateAllAt(d[p].1.balances, ReadingsFor(rows, d[p].0), y);
  }
}
