/**
 * The per-station soil-moisture extremes of the original SWAMP (maxmoist.py).
 *
 * The script reads the ids of the 107 stations of the soil-properties table,
 * folds the yearly `minmax_YYYY` tables into one lower and one upper extreme
 * per station, starting from the sentinels 1000 mm and 0 mm, turns an extreme
 * still equal to its sentinel into an undefined value, and attaches to each
 * station the latitude and longitude found for its id in a second table.
 * Reading the text files and plotting the result are not part of this model:
 * the tables arrive as sequences of numbers.
 */
module MaxMoist {
  import opened Wrappers
  import opened Grid
  import opened Seqs

  /** The number of stations of the soil-properties table. */
  const NSITE: nat := 107
  /** The sentinels the fold starts from: `dmax` from 0 mm, `dmin` from 1000 mm (100 cm). */
  const DMIN_LB: real := 0.0
  const DMAX_UB: real := 1000.0

  /** The failures of the script. */
  datatype Error =
    | SiteCount        // the soil-properties table does not hold 107 rows
    | DuplicateSites   // two rows of the soil-properties table share an id
    | YearShape        // a yearly table does not hold one (min, max) row per station
    | NoYearlyFiles    // no yearly table: NaN cannot be stored in the integer sentinel arrays
    | DuplicateLatLon  // a station id occurs twice in the lat/lon table

  // ---------------------------------------------------------------------------
  // Station ids
  // ---------------------------------------------------------------------------

  /** `astype(int)`: the integer part, truncated toward zero. */
  function Truncate(x: real): (n: int)
    ensures x >= 0.0 ==> 0 <= n && n as real <= x < n as real + 1.0
    ensures x < 0.0 ==> n <= 0 && n as real - 1.0 < x <= n as real
  {
    if x >= 0.0 then x.Floor else -((-x).Floor)
  }

  /** Truncation keeps whole numbers, so integer ids written as reals are read back unchanged. */
  lemma TruncateWhole(n: int)
    ensures Truncate(n as real) == n
  {
  }

  /**
   * The ids of the first column of the soil-properties table, truncated to
   * integers; the table must hold 107 rows with 107 different ids.
   */
  function SiteIds(column: seq<real>): (r: Result<seq<int>, Error>)
    ensures r.Ok? <==> |column| == NSITE && Distinct(seq(|column|, i requires 0 <= i < |column| => Truncate(column[i])))
    ensures r.Err? ==> r.error == (if |column| != NSITE then SiteCount else DuplicateSites)
    ensures r.Ok? ==> |r.value| == NSITE && forall i :: 0 <= i < NSITE ==> r.value[i] == Truncate(column[i])
  {
    if |column| != NSITE then Err(SiteCount)
    else
      var ids := seq(|column|, i requires 0 <= i < |column| => Truncate(column[i]));
      ElementsSize(ids);
      if |Elements(ids)| != NSITE then Err(DuplicateSites) else Ok(ids)
  }

  // ---------------------------------------------------------------------------
  // Aggregation of the yearly tables
  // ---------------------------------------------------------------------------

  /** One row of a yearly table: the station's lowest and highest moisture of that year, in mm. */
  datatype YearRow = YearRow(lo: real, hi: real)

  type YearTable = seq<YearRow>

  function Min(a: real, b: real): real {
    if a <= b then a else b
  }

  function Max(a: real, b: real): real {
    if a >= b then a else b
  }

  /** Every yearly table holds one row per station. */
  predicate WellShaped(years: seq<YearTable>) {
    forall k :: 0 <= k < |years| ==> |years[k]| == NSITE
  }

  /** `dmin[j]` after folding `years` into the sentinel 1000 with `np.minimum`. */
  function FoldMin(years: seq<YearTable>, j: nat): (m: real)
    requires WellShaped(years) && j < NSITE
    ensures m <= DMAX_UB
  {
    if |years| == 0 then DMAX_UB else Min(FoldMin(years[..|years| - 1], j), years[|years| - 1][j].lo)
  }

  /** `dmax[j]` after folding `years` into the sentinel 0 with `np.maximum`. */
  function FoldMax(years: seq<YearTable>, j: nat): (m: real)
    requires WellShaped(years) && j < NSITE
    ensures m >= DMIN_LB
  {
    if |years| == 0 then DMIN_LB else Max(FoldMax(years[..|years| - 1], j), years[|years| - 1][j].hi)
  }

  /** `dmin` lies below the sentinel and below every yearly minimum of the station. */
  lemma {:induction false} FoldMinIsLowerBound(years: seq<YearTable>, j: nat)
    requires WellShaped(years) && j < NSITE
    ensures FoldMin(years, j) <= DMAX_UB
    ensures forall k :: 0 <= k < |years| ==> FoldMin(years, j) <= years[k][j].lo
  {
    if |years| > 0 {
      var init := years[..|years| - 1];
      FoldMinIsLowerBound(init, j);
      forall k | 0 <= k < |init|
        ensures years[k][j].lo == init[k][j].lo
      {
      }
    }
  }

  /** `dmin` is the sentinel or one of the yearly minima of the station. */
  lemma {:induction false} FoldMinAttained(years: seq<YearTable>, j: nat)
    requires WellShaped(years) && j < NSITE
    ensures FoldMin(years, j) == DMAX_UB || exists k :: 0 <= k < |years| && FoldMin(years, j) == years[k][j].lo
  {
    if |years| > 0 {
      var init := years[..|years| - 1];
      FoldMinAttained(init, j);
      if FoldMin(years, j) != years[|years| - 1][j].lo && FoldMin(init, j) != DMAX_UB {
        var k :| 0 <= k < |init| && FoldMin(init, j) == init[k][j].lo;
        assert years[k] == init[k];
      }
    }
  }

  /** `dmax` lies above the sentinel and above every yearly maximum of the station. */
  lemma {:induction false} FoldMaxIsUpperBound(years: seq<YearTable>, j: nat)
    requires WellShaped(years) && j < NSITE
    ensures FoldMax(years, j) >= DMIN_LB
    ensures forall k :: 0 <= k < |years| ==> FoldMax(years, j) >= years[k][j].hi
  {
    if |years| > 0 {
      var init := years[..|years| - 1];
      FoldMaxIsUpperBound(init, j);
      forall k | 0 <= k < |init|
        ensures years[k][j].hi == init[k][j].hi
      {
      }
    }
  }

  /** `dmax` is the sentinel or one of the yearly maxima of the station. */
  lemma {:induction false} FoldMaxAttained(years: seq<YearTable>, j: nat)
    requires WellShaped(years) && j < NSITE
    ensures FoldMax(years, j) == DMIN_LB || exists k :: 0 <= k < |years| && FoldMax(years, j) == years[k][j].hi
  {
    if |years| > 0 {
      var init := years[..|years| - 1];
      FoldMaxAttained(init, j);
      if FoldMax(years, j) != years[|years| - 1][j].hi && FoldMax(init, j) != DMIN_LB {
        var k :| 0 <= k < |init| && FoldMax(init, j) == init[k][j].hi;
        assert years[k] == init[k];
      }
    }
  }

  /** The extremes of every station, or the failure the script stops at. */
  datatype Extremes = Extremes(dmin: seq<Cell>, dmax: seq<Cell>)

  function AggregateSpec(years: seq<YearTable>): Result<Extremes, Error> {
    if !WellShaped(years) then Err(YearShape)
    else if |years| == 0 then Err(NoYearlyFiles)
    else Ok(Extremes(
      seq(NSITE, j requires 0 <= j < NSITE => MaskValue(FoldMin(years, j), DMAX_UB)),
      seq(NSITE, j requires 0 <= j < NSITE => MaskValue(FoldMax(years, j), DMIN_LB))))
  }

  /**
   * What the aggregation promises for station j: `dmin` is undefined exactly
   * when no yearly minimum lies below 1000 mm, and otherwise is the least
   * yearly minimum; `dmax` is undefined exactly when no yearly maximum lies
   * above 0 mm, and otherwise is the greatest yearly maximum.
   */
  lemma AggregateGuarantees(years: seq<YearTable>, j: nat)
    requires j < NSITE
    ensures var r := AggregateSpec(years);
      r.Ok? ==>
        && (r.value.dmin[j].None? <==> forall k :: 0 <= k < |years| ==> years[k][j].lo >= DMAX_UB)
        && (r.value.dmin[j].Some? ==>
              (forall k :: 0 <= k < |years| ==> r.value.dmin[j].value <= years[k][j].lo) &&
              (exists k :: 0 <= k < |years| && r.value.dmin[j].value == years[k][j].lo))
        && (r.value.dmax[j].None? <==> forall k :: 0 <= k < |years| ==> years[k][j].hi <= DMIN_LB)
        && (r.value.dmax[j].Some? ==>
              (forall k :: 0 <= k < |years| ==> r.value.dmax[j].value >= years[k][j].hi) &&
              (exists k :: 0 <= k < |years| && r.value.dmax[j].value == years[k][j].hi))
  {
    if AggregateSpec(years).Ok? {
      FoldMinIsLowerBound(years, j);
      FoldMinAttained(years, j);
      FoldMaxIsUpperBound(years, j);
      FoldMaxAttained(years, j);
    }
  }

  /**
   * The aggregation: the sentinel arrays are replaced file by file by their
   * element-wise minimum (maximum) with the year's column, and afterwards
   * every entry still equal to its sentinel is overwritten with NaN.
   */
  method Aggregate(years: seq<YearTable>) returns (r: Result<Extremes, Error>)
    ensures r == AggregateSpec(years)
  {
    var dmin := seq(NSITE, _ => DMAX_UB);
    var dmax := seq(NSITE, _ => DMIN_LB);
    for k := 0 to |years|
      invariant WellShaped(years[..k])
      invariant |dmin| == NSITE && |dmax| == NSITE
      invariant forall j :: 0 <= j < NSITE ==> dmin[j] == FoldMin(years[..k], j) && dmax[j] == FoldMax(years[..k], j)
    {
      if |years[k]| != NSITE {
        return Err(YearShape);
      }
      var year := years[k];
      assert years[..k + 1][..k] == years[..k];
      dmin := seq(NSITE, j requires 0 <= j < NSITE => Min(dmin[j], year[j].lo));
      dmax := seq(NSITE, j requires 0 <= j < NSITE => Max(dmax[j], year[j].hi));
    }
    assert years[..|years|] == years;
    if |years| == 0 {
      return Err(NoYearlyFiles);
    }
    var lo := new Cell[NSITE](j requires 0 <= j < NSITE reads {} => Some(dmin[j]));
    var hi := new Cell[NSITE](j requires 0 <= j < NSITE reads {} => Some(dmax[j]));
    for j := 0 to NSITE
      invariant forall i :: 0 <= i < j ==> lo[i] == MaskValue(dmin[i], DMAX_UB) && hi[i] == MaskValue(dmax[i], DMIN_LB)
      invariant forall i :: j <= i < NSITE ==> lo[i] == Some(dmin[i]) && hi[i] == Some(dmax[i])
    {
      if dmin[j] == DMAX_UB {
        lo[j] := None;
      }
      if dmax[j] == DMIN_LB {
        hi[j] := None;
      }
    }
    assert lo[..] == seq(NSITE, j requires 0 <= j < NSITE => MaskValue(FoldMin(years, j), DMAX_UB));
    assert hi[..] == seq(NSITE, j requires 0 <= j < NSITE => MaskValue(FoldMax(years, j), DMIN_LB));
    r := Ok(Extremes(lo[..], hi[..]));
  }

  // ---------------------------------------------------------------------------
  // Station coordinates
  // ---------------------------------------------------------------------------

  /** One row of the lat/lon table; the id is read as a number and truncated. */
  datatype LatLonRow = LatLonRow(id: real, lat: real, lon: real)

  /** No two rows of the table carry the id `id`. */
  predicate AtMostOneRow(table: seq<LatLonRow>, id: int) {
    forall k, l :: 0 <= k < l < |table| && Truncate(table[k].id) == id ==> Truncate(table[l].id) != id
  }

  /** The rows of the table whose id is `id`: what `.loc[id]` selects. */
  function Matches(table: seq<LatLonRow>, id: int): (m: seq<LatLonRow>)
    ensures forall row :: row in m <==> row in table && Truncate(row.id) == id
    ensures |m| <= |table|
  {
    if |table| == 0 then []
    else
      var rest := Matches(table[1..], id);
      assert forall row :: row in table <==> row == table[0] || row in table[1..] by {
        assert table == [table[0]] + table[1..];
      }
      if Truncate(table[0].id) == id then [table[0]] + rest else rest
  }

  /**
   * `.loc[id]` selects at most one row exactly when at most one row of the
   * table carries the id; otherwise it returns a table rather than a row.
   */
  lemma {:induction false} MatchesAtMostOne(table: seq<LatLonRow>, id: int)
    ensures |Matches(table, id)| <= 1 <==> AtMostOneRow(table, id)
  {
    if |table| > 0 {
      var tail := table[1..];
      var rest := Matches(tail, id);
      MatchesAtMostOne(tail, id);
      assert forall k :: 1 <= k < |table| ==> table[k] == tail[k - 1];
      if Truncate(table[0].id) == id {
        if |rest| > 0 {
          assert rest[0] in tail;
          var l :| 0 <= l < |tail| && tail[l] == rest[0];
          assert Truncate(table[l + 1].id) == id;
        }
      } else {
        if AtMostOneRow(tail, id) {
          forall k, l | 0 <= k < l < |table| && Truncate(table[k].id) == id
            ensures Truncate(table[l].id) != id
          {
            assert table[k] == tail[k - 1] && table[l] == tail[l - 1];
          }
        }
        if AtMostOneRow(table, id) {
          forall k, l | 0 <= k < l < |tail| && Truncate(tail[k].id) == id
            ensures Truncate(tail[l].id) != id
          {
            assert tail[k] == table[k + 1] && tail[l] == table[l + 1];
          }
        }
      }
    }
  }

  /** The coordinates of every station, in the order of `ids`. */
  datatype Coordinates = Coordinates(lat: seq<Cell>, lon: seq<Cell>)

  /** No station id occurs twice in the table. */
  predicate UniqueMatches(ids: seq<int>, table: seq<LatLonRow>) {
    forall i :: 0 <= i < |ids| ==> |Matches(table, ids[i])| <= 1
  }

  function CoordinateOf(table: seq<LatLonRow>, id: int, lat: bool): Cell {
    var m := Matches(table, id);
    if |m| == 0 then None else if lat then Some(m[0].lat) else Some(m[0].lon)
  }

  /**
   * The lookup: a station missing from the table keeps undefined coordinates,
   * a station found once takes that row's coordinates, and a station found
   * more than once makes the assignment fail.
   */
  function LookupSpec(ids: seq<int>, table: seq<LatLonRow>): (r: Result<Coordinates, Error>)
    ensures r.Ok? <==> UniqueMatches(ids, table)
    ensures r.Err? ==> r.error == DuplicateLatLon
    ensures r.Ok? ==> |r.value.lat| == |ids| && |r.value.lon| == |ids|
    ensures r.Ok? ==> forall i :: 0 <= i < |ids| ==>
      && (r.value.lat[i].None? <==> forall row :: row in table ==> Truncate(row.id) != ids[i])
      && (r.value.lon[i].None? <==> forall row :: row in table ==> Truncate(row.id) != ids[i])
      && (forall row :: row in table && Truncate(row.id) == ids[i] ==>
            r.value.lat[i] == Some(row.lat) && r.value.lon[i] == Some(row.lon))
  {
    if !UniqueMatches(ids, table) then Err(DuplicateLatLon)
    else
      var r := Ok(Coordinates(
        seq(|ids|, i requires 0 <= i < |ids| => CoordinateOf(table, ids[i], true)),
        seq(|ids|, i requires 0 <= i < |ids| => CoordinateOf(table, ids[i], false))));
      assert forall i :: 0 <= i < |ids| ==> |Matches(table, ids[i])| <= 1;
      forall i, row | 0 <= i < |ids| && row in table && Truncate(row.id) == ids[i]
        ensures Matches(table, ids[i]) == [row]
      {
        assert row in Matches(table, ids[i]);
      }
      r
  }

  /** The lookup fails exactly when two rows of the table carry the id of some station. */
  lemma LookupDuplicate(ids: seq<int>, table: seq<LatLonRow>)
    ensures LookupSpec(ids, table).Err? <==> exists i :: 0 <= i < |ids| && !AtMostOneRow(table, ids[i])
  {
    forall i | 0 <= i < |ids|
      ensures |Matches(table, ids[i])| <= 1 <==> AtMostOneRow(table, ids[i])
    {
      MatchesAtMostOne(table, ids[i]);
    }
  }

  /**
   * The loop over the stations: both coordinate arrays start as NaN and
   * entry i is written when the id of station i is found in the table.
   */
  method Lookup(ids: seq<int>, table: seq<LatLonRow>) returns (r: Result<Coordinates, Error>)
    ensures r == LookupSpec(ids, table)
  {
    var lat := new Cell[|ids|](_ => None);
    var lon := new Cell[|ids|](_ => None);
    for i := 0 to |ids|
      invariant forall k :: 0 <= k < i ==> |Matches(table, ids[k])| <= 1
      invariant forall k :: 0 <= k < i ==> lat[k] == CoordinateOf(table, ids[k], true) && lon[k] == CoordinateOf(table, ids[k], false)
      invariant forall k :: i <= k < |ids| ==> lat[k] == None && lon[k] == None
    {
      var m := Matches(table, ids[i]);
      if |m| > 1 {
        return Err(DuplicateLatLon);
      }
      if |m| == 1 {
        lat[i] := Some(m[0].lat);
        lon[i] := Some(m[0].lon);
      }
    }
    LookupFound(ids, table, lat[..], lon[..]);
    r := Ok(Coordinates(lat[..], lon[..]));
  }

  /** Coordinates found for every station of a table without duplicates are the specified result. */
  lemma LookupFound(ids: seq<int>, table: seq<LatLonRow>, lat: seq<Cell>, lon: seq<Cell>)
    requires UniqueMatches(ids, table) && |lat| == |ids| && |lon| == |ids|
    requires forall k :: 0 <= k < |ids| ==> lat[k] == CoordinateOf(table, ids[k], true) && lon[k] == CoordinateOf(table, ids[k], false)
    ensures LookupSpec(ids, table) == Ok(Coordinates(lat, lon))
  {
    assert lat == seq(|ids|, i requires 0 <= i < |ids| => CoordinateOf(table, ids[i], true));
    assert lon == seq(|ids|, i requires 0 <= i < |ids| => CoordinateOf(table, ids[i], false));
  }

  // ---------------------------------------------------------------------------
  // The script
  // ---------------------------------------------------------------------------

  /** One row of the final table: id, coordinates and extremes of a station. */
  datatype Site = Site(id: int, lat: Cell, lon: Cell, dmin: Cell, dmax: Cell)

  function TableSpec(column: seq<real>, years: seq<YearTable>, latLon: seq<LatLonRow>): Result<seq<Site>, Error> {
    var ids :- SiteIds(column);
    var ext :- AggregateSpec(years);
    var coords :- LookupSpec(ids, latLon);
    Ok(seq(NSITE, j requires 0 <= j < NSITE =>
      Site(ids[j], coords.lat[j], coords.lon[j], ext.dmin[j], ext.dmax[j])))
  }

  /** The script end to end: ids, then extremes, then coordinates, then one row per station. */
  method Table(column: seq<real>, years: seq<YearTable>, latLon: seq<LatLonRow>) returns (r: Result<seq<Site>, Error>)
    ensures r == TableSpec(column, years, latLon)
  {
    var ids :- SiteIds(column);
    var ext :- Aggregate(years);
    var coords :- Lookup(ids, latLon);
    r := Ok(seq(NSITE, j requires 0 <= j < NSITE =>
      Site(ids[j], coords.lat[j], coords.lon[j], ext.dmin[j], ext.dmax[j])));
  }
}
