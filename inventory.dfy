/**
 * Building the catalog from the rows of the glacier inventory sheet: one glacier per row, keyed
 * by its WGMS id, its three-digit code read from the PRIM_CLASSIFIC, FORM and FRONTAL_CHARS
 * columns written one after the other.
 */
module Inventory {
  import opened Base
  import opened Decimal
  import opened OrderedDict
  import opened GlacierEntity

  /**
   * One row of the inventory sheet: the columns WGMS_ID, NAME, POLITICAL_UNIT, LATITUDE and
   * LONGITUDE (the coordinates already read as numbers), PRIM_CLASSIFIC, FORM, FRONTAL_CHARS.
   */
  datatype InventoryRow = InventoryRow(
    gid: string,
    name: string,
    unit: string,
    lat: real,
    lon: real,
    primClass: string,
    form: string,
    frontalChars: string)

  /** The text whose int() is the glacier's code. */
  function CodeText(row: InventoryRow): string
  {
    row.primClass + row.form + row.frontalChars
  }

  predicate CodeParses(row: InventoryRow)
  {
    ParseInt(CodeText(row)).Some?
  }

  /** The freshly built glacier of a row with the given code: no measurements yet. */
  function Built(row: InventoryRow, code: int): (v: GlacierView)
    ensures !Measured(v)
  {
    GlacierView(row.gid, row.name, row.unit, (row.lat, row.lon), code, map[])
  }

  /**
   * The catalog after the rows, in order: each row replaces the entry of its id (keeping that
   * entry's position) or appends a new one; the first row whose code text is not an integer
   * stops the whole construction.
   */
  function FromRows(rows: seq<InventoryRow>): Result<seq<(string, GlacierView)>>
  {
    if rows == [] then Success([])
    else
      var row := rows[|rows| - 1];
      match FromRows(rows[..|rows| - 1])
      case Failure(e) => Failure(e)
      case Success(d) =>
        match ParseInt(CodeText(row))
        case None => Failure(NotAnInteger(CodeText(row)))
        case Some(code) => Success(Put(d, row.gid, Built(row, code)))
  }

  /**
   * The construction fails exactly when some row's code text is not an integer, and then with
   * the text of the first such row.
   */
  lemma {:induction false} FromRowsFails(rows: seq<InventoryRow>)
    ensures FromRows(rows).Failure? <==> exists i :: 0 <= i < |rows| && !CodeParses(rows[i])
    ensures FromRows(rows).Failure? ==>
      exists i :: 0 <= i < |rows| && !CodeParses(rows[i])
        && (forall j :: 0 <= j < i ==> CodeParses(rows[j]))
        && FromRows(rows).error == NotAnInteger(CodeText(rows[i]))
  {
    if rows != [] {
      var pre, row := rows[..|rows| - 1], rows[|rows| - 1];
      FromRowsFails(pre);
      assert forall j :: 0 <= j < |pre| ==> pre[j] == rows[j];
      if FromRows(pre).Failure? {
        var i :| 0 <= i < |pre| && !CodeParses(pre[i])
          && (forall j :: 0 <= j < i ==> CodeParses(pre[j]))
          && FromRows(pre).error == NotAnInteger(CodeText(pre[i]));
        assert !CodeParses(rows[i]);
      } else if !CodeParses(row) {
        assert !CodeParses(rows[|rows| - 1]);
      } else {
        forall i | 0 <= i < |rows| ensures CodeParses(rows[i]) {
          if i < |pre| {
            assert rows[i] == pre[i];
          }
        }
      }
    }
  }

  /** The ids of the rows, in order. */
  function Ids(rows: seq<InventoryRow>): (ids: seq<string>)
    ensures |ids| == |rows| && forall i :: 0 <= i < |rows| ==> ids[i] == rows[i].gid
  {
    seq(|rows|, i requires 0 <= i < |rows| => rows[i].gid)
  }

  /** The distinct ids in the order of their first appearance. */
  function Dedup(ids: seq<string>): seq<string>
  {
    if ids == [] then []
    else
      var ks := Dedup(ids[..|ids| - 1]);
      if ids[|ids| - 1] in ks then ks else ks + [ids[|ids| - 1]]
  }

  /** The first position of an id that occurs. */
  function FirstAt(ids: seq<string>, k: string): (i: nat)
    requires k in ids
    ensures i < |ids| && ids[i] == k
    ensures forall j :: 0 <= j < i ==> ids[j] != k
  {
    if ids[0] == k then 0 else 1 + FirstAt(ids[1..], k)
  }

  /** The last position of an id that occurs. */
  function LastAt(ids: seq<string>, k: string): (i: nat)
    requires k in ids
    ensures i < |ids| && ids[i] == k
    ensures forall j :: i < j < |ids| ==> ids[j] != k
  {
    if ids[|ids| - 1] == k then |ids| - 1 else LastAt(ids[..|ids| - 1], k)
  }

  /** Dedup holds each id once, and exactly the ids that occur. */
  lemma {:induction false} DedupElements(ids: seq<string>)
    ensures forall i, j :: 0 <= i < j < |Dedup(ids)| ==> Dedup(ids)[i] != Dedup(ids)[j]
    ensures forall x :: x in Dedup(ids) <==> x in ids
  {
    if ids != [] {
      var pre := ids[..|ids| - 1];
      DedupElements(pre);
      var ks, x := Dedup(pre), ids[|ids| - 1];
      assert ids == pre + [x];
      if x !in ks {
        var ks' := ks + [x];
        assert Dedup(ids) == ks';
        forall i, j | 0 <= i < j < |ks'| ensures ks'[i] != ks'[j] {
          assert ks'[i] == ks[i] && ks[i] in ks;
          if j < |ks| {
            assert ks'[j] == ks[j];
          } else {
            assert ks'[j] == x;
          }
        }
      } else {
        assert Dedup(ids) == ks;
      }
    }
  }

  /** Dedup lists the ids by increasing position of first appearance. */
  lemma {:induction false} DedupOrder(ids: seq<string>)
    ensures forall p :: 0 <= p < |Dedup(ids)| ==> Dedup(ids)[p] in ids
    ensures forall p, q :: 0 <= p < q < |Dedup(ids)| ==> FirstAt(ids, Dedup(ids)[p]) < FirstAt(ids, Dedup(ids)[q])
  {
    DedupElements(ids);
    if ids != [] {
      var pre, x := ids[..|ids| - 1], ids[|ids| - 1];
      DedupOrder(pre);
      DedupElements(pre);
      var ks := Dedup(pre);
      assert ids == pre + [x];
      forall k | k in pre ensures FirstAt(ids, k) == FirstAt(pre, k) {
        FirstAtSnoc(pre, x, k);
      }
      if x !in ks {
        assert FirstAt(ids, x) == |pre|;
      }
    }
  }

  lemma FirstAtSnoc(ids: seq<string>, x: string, k: string)
    requires k in ids
    ensures FirstAt(ids + [x], k) == FirstAt(ids, k)
  {
    var i, j := FirstAt(ids + [x], k), FirstAt(ids, k);
    assert (ids + [x])[j] == k;
  }

  /** The ids of a successful construction are the distinct ids of the rows, in order of first appearance. */
  lemma {:induction false} FromRowsKeys(rows: seq<InventoryRow>)
    requires FromRows(rows).Success?
    ensures Keys(FromRows(rows).value) == Dedup(Ids(rows))
  {
    if rows != [] {
      var pre, row := rows[..|rows| - 1], rows[|rows| - 1];
      FromRowsKeys(pre);
      var d := FromRows(pre).value;
      PutKeys(d, row.gid, Built(row, ParseInt(CodeText(row)).value));
      assert Ids(rows)[..|rows| - 1] == Ids(pre);
    }
  }

  /** Once a prefix of the rows fails, the construction fails the same way. */
  lemma {:induction false} FromRowsStops(rows: seq<InventoryRow>, k: nat)
    requires k <= |rows| && FromRows(rows[..k]).Failure?
    ensures FromRows(rows) == FromRows(rows[..k])
    decreases |rows| - k
  {
    if k < |rows| {
      var pre := rows[..|rows| - 1];
      assert pre[..k] == rows[..k];
      FromRowsStops(pre, k);
    } else {
      assert rows[..k] == rows;
    }
  }

  /**
   * A successful construction holds one entry per distinct id, every row's id among them, and
   * each entry is the glacier built from the LAST row with that id.
   */
  lemma FromRowsEntries(rows: seq<InventoryRow>)
    requires FromRows(rows).Success?
    ensures var d := FromRows(rows).value;
      && DistinctKeys(d)
      && (forall i :: 0 <= i < |rows| ==> rows[i].gid in Keys(d))
      && forall p :: 0 <= p < |d| ==> (d[p].0 in Ids(rows) &&
           var i := LastAt(Ids(rows), d[p].0);
           ParseInt(CodeText(rows[i])) == Some(d[p].1.code) && d[p].1 == Built(rows[i], d[p].1.code))
  {
    FromRowsKeys(rows);
    DedupElements(Ids(rows));
    var d := FromRows(rows).value;
    forall i | 0 <= i < |rows| ensures rows[i].gid in Keys(d) {
      assert Ids(rows)[i] == rows[i].gid;
    }
    forall p | 0 <= p < |d| ensures d[p].0 in Ids(rows) {
      assert Keys(d)[p] == d[p].0;
    }
    FromRowsLast(rows);
  }

  lemma {:induction false} FromRowsLast(rows: seq<InventoryRow>)
    requires FromRows(rows).Success?
    ensures var d := FromRows(rows).value;
      forall p :: 0 <= p < |d| ==> (d[p].0 in Ids(rows) &&
        var i := LastAt(Ids(rows), d[p].0);
        ParseInt(CodeText(rows[i])) == Some(d[p].1.code) && d[p].1 == Built(rows[i], d[p].1.code))
  {
    if rows != [] {
      var pre, row := rows[..|rows| - 1], rows[|rows| - 1];
      var ids := Ids(rows);
      assert ids[..|ids| - 1] == Ids(pre);
      assert ids == Ids(pre) + [row.gid];
      FromRowsLast(pre);
      FromRowsKeys(pre);
      DedupElements(Ids(pre));
      var d := FromRows(pre).value;
      var b := Built(row, ParseInt(CodeText(row)).value);
      var d' := Put(d, row.gid, b);
      assert FromRows(rows) == Success(d');
      PutAt(d, row.gid, b);
      PutItems(d, row.gid, b);
      forall p | 0 <= p < |d'|
        ensures d'[p].0 in ids &&
          var i := LastAt(ids, d'[p].0);
          ParseInt(CodeText(rows[i])) == Some(d'[p].1.code) && d'[p].1 == Built(rows[i], d'[p].1.code)
      {
        if p < |d| && d[p].0 != row.gid {
          assert d'[p] == d[p];
          assert LastAt(ids, d[p].0) == LastAt(Ids(pre), d[p].0);
          assert rows[LastAt(ids, d[p].0)] == pre[LastAt(Ids(pre), d[p].0)];
        } else {
          assert d'[p] == (row.gid, b);
          assert LastAt(ids, row.gid) == |rows| - 1;
        }
      }
    }
  }

  /** The entries stand in the order in which their ids first appear in the rows. */
  lemma FromRowsOrder(rows: seq<InventoryRow>)
    requires FromRows(rows).Success?
    ensures var d, ids := FromRows(rows).value, Ids(rows);
      (forall p :: 0 <= p < |d| ==> d[p].0 in ids)
      && forall p, q :: 0 <= p < q < |d| ==> FirstAt(ids, d[p].0) < FirstAt(ids, d[q].0)
  {
    FromRowsKeys(rows);
    DedupOrder(Ids(rows));
    var d := FromRows(rows).value;
    assert forall p :: 0 <= p < |d| ==> Keys(d)[p] == d[p].0;
  }
}
