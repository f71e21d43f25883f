/**
 * The decision rules of the SWAMP input downloaders (dl.py).
 *
 * Everything that talks to a server or a disk is a parameter here: the
 * directory listings arrive as sequences of names, a download as a function
 * from a file name to the values it holds, and the dates as the strings
 * pandas formats them into (`%Y` for CRN, `%Y%m%d` for PRISM, `%Y%j` for
 * ALEXI). What remains is what the downloaders decide: whether the CRN header
 * file is well formed, which requested years and dates are available, which
 * PRISM stability is used and when that draws a warning, how each day is
 * fetched once, how missing values are masked, and when missing ALEXI days
 * are fatal or gap-filled.
 */
module Download {
  import opened Wrappers
  import opened Grid
  import opened Seqs
  import Text

  /** The failures the downloaders raise. */
  datatype Error =
    | HeaderLineCount               // headers.txt does not hold exactly three lines
    | HeaderFieldCount              // the number row and the name row differ in length
    | HeaderNumbering               // the number row is not 1, 2, ..., n
    | YearUnavailable(year: string) // a requested year is not listed on the server
    | SiteColumns                   // the CRN table lacks a station column, or has nothing else
    | FileNotFound(ymd: string)     // no PRISM file of any stability for the day
    | RasterSize(name: string)      // a raster does not hold rows * cols values
    | DateUnavailable(yj: string)   // a requested ALEXI date is not listed on the server
    | MissingFileName               // `fp.name` evaluated on `None`: AttributeError
    | NoDays                        // nothing to concatenate: no day was requested
    | AllMissing                    // every requested ALEXI day is missing

  // ---------------------------------------------------------------------------
  // CRN: the header file
  // ---------------------------------------------------------------------------

  /** The field-number row a header with `n` columns must have: "1", "2", ..., "n". */
  function FieldNumbers(n: nat): (nums: seq<string>)
    ensures |nums| == n
  {
    seq(n, i requires 0 <= i < n => Text.NatToString(i + 1))
  }

  /** Field number i reads back as the number i + 1. */
  lemma FieldNumbersParse(n: nat, i: nat)
    requires i < n
    ensures Text.ParseDigits(FieldNumbers(n)[i]) == i + 1
  {
    Text.ParseNatToString(i + 1);
  }

  /**
   * The header check of `get_crn`: three lines, as many numbers as names in
   * the first two, and the numbers counting 1..n. The result is the list of
   * column names.
   */
  function ValidateHeader(lines: seq<string>): (r: Result<seq<string>, Error>)
    ensures r.Ok? <==> (
      && |lines| == 3
      && |Text.Split(lines[0])| == |Text.Split(lines[1])|
      && forall i :: 0 <= i < |Text.Split(lines[0])| ==> Text.Split(lines[0])[i] == Text.NatToString(i + 1))
    ensures r.Ok? ==> r.value == Text.Split(lines[1])
    ensures r.Err? && |lines| != 3 ==> r.error == HeaderLineCount
    ensures r.Err? && |lines| == 3 ==>
      r.error == (if |Text.Split(lines[0])| != |Text.Split(lines[1])| then HeaderFieldCount else HeaderNumbering)
  {
    if |lines| != 3 then Err(HeaderLineCount)
    else
      var nums := Text.Split(lines[0]);
      var columns := Text.Split(lines[1]);
      if |nums| != |columns| then Err(HeaderFieldCount)
      else
        NumberedIff(nums);
        if nums != FieldNumbers(|columns|) then Err(HeaderNumbering)
        else Ok(columns)
  }

  /** A row of numbers equals FieldNumbers exactly when its entry i is the decimal of i + 1. */
  lemma NumberedIff(nums: seq<string>)
    ensures nums == FieldNumbers(|nums|) <==> forall i :: 0 <= i < |nums| ==> nums[i] == Text.NatToString(i + 1)
  {
  }

  /**
   * A header written the way the server writes it passes the check and yields
   * its column names, whatever the unit line says.
   */
  lemma HeaderRoundTrip(columns: seq<string>, units: string)
    requires forall k :: 0 <= k < |columns| ==> Text.IsToken(columns[k])
    ensures ValidateHeader([Text.Join(FieldNumbers(|columns|)), Text.Join(columns), units]) == Ok(columns)
  {
    var nums := FieldNumbers(|columns|);
    NumberLineRoundTrip(|columns|);
    Text.SplitJoin(columns);
    var lines := [Text.Join(nums), Text.Join(columns), units];
    assert Text.Split(lines[0]) == nums && Text.Split(lines[1]) == columns;
    assert |nums| == |columns|;
  }

  /** The number line the server writes splits back into its field numbers. */
  lemma NumberLineRoundTrip(n: nat)
    ensures Text.Split(Text.Join(FieldNumbers(n))) == FieldNumbers(n)
  {
    var nums := FieldNumbers(n);
    forall k | 0 <= k < |nums|
      ensures Text.IsToken(nums[k])
    {
      Text.NatToStringIsToken(k + 1);
    }
    Text.SplitJoin(nums);
  }

  /** The station columns the combined CRN table must contain. */
  const SITE_COLS: seq<string> := ["WBANNO", "LST_DATE", "CRX_VN", "LONGITUDE", "LATITUDE"]

  /** `set(site_cols) < set(df)`: every station column is present, and some data column besides. */
  function HasSiteColumns(columns: seq<string>): (b: bool)
    ensures b <==> (forall k :: 0 <= k < |SITE_COLS| ==> SITE_COLS[k] in columns) &&
                   (exists k :: 0 <= k < |columns| && columns[k] !in SITE_COLS)
  {
    var station, present := Elements(SITE_COLS), Elements(columns);
    assert station <= present <==> forall k :: 0 <= k < |SITE_COLS| ==> SITE_COLS[k] in columns by {
      if forall k :: 0 <= k < |SITE_COLS| ==> SITE_COLS[k] in columns {
        forall x | x in station
          ensures x in present
        {
          var k :| 0 <= k < |SITE_COLS| && SITE_COLS[k] == x;
        }
      }
      if station <= present {
        forall k | 0 <= k < |SITE_COLS|
          ensures SITE_COLS[k] in columns
        {
          assert SITE_COLS[k] in station;
        }
      }
    }
    assert station <= present ==> (station != present <==> exists k :: 0 <= k < |columns| && columns[k] !in SITE_COLS) by {
      if station <= present && station != present {
        var x :| x in present && x !in station;
        var k :| 0 <= k < |columns| && columns[k] == x;
      }
      if exists k :: 0 <= k < |columns| && columns[k] !in SITE_COLS {
        var k :| 0 <= k < |columns| && columns[k] !in SITE_COLS;
        assert columns[k] in present && columns[k] !in station;
      }
    }
    station < present
  }

  // ---------------------------------------------------------------------------
  // CRN: one table per requested year
  // ---------------------------------------------------------------------------

  /**
   * The per-year tables of the loop of `get_crn` over the distinct years, or
   * the failure for the first year the server does not list.
   */
  function YearTables<D>(years: seq<string>, available: seq<string>, fetch: string -> D): (r: Result<seq<D>, Error>)
    ensures r.Ok? <==> forall k :: 0 <= k < |years| ==> years[k] in available
    ensures r.Ok? ==> |r.value| == |years| && forall k :: 0 <= k < |years| ==> r.value[k] == fetch(years[k])
    ensures r.Err? ==> exists k :: (0 <= k < |years| && r.error == YearUnavailable(years[k]) &&
      years[k] !in available && forall m :: 0 <= m < k ==> years[m] in available)
  {
    if |years| == 0 then Ok([])
    else if years[0] !in available then Err(YearUnavailable(years[0]))
    else
      var rest :- YearTables(years[1..], available, fetch);
      assert forall k :: 1 <= k < |years| ==> years[k] == years[1..][k - 1];
      Ok([fetch(years[0])] + rest)
  }

  /**
   * What `get_crn` decides: the header is checked, the distinct years of the
   * requested days are fetched in order, and the last table must carry the
   * station columns (with no year at all there is no last table).
   */
  function CrnSpec<D>(lines: seq<string>, dayYears: seq<string>, available: seq<string>,
                      fetch: string -> D): Result<seq<D>, Error>
  {
    var columns :- ValidateHeader(lines);
    var tables :- YearTables(Unique(dayYears), available, fetch);
    if |tables| == 0 then Err(NoDays)
    else if !HasSiteColumns(columns) then Err(SiteColumns)
    else Ok(tables)
  }

  /**
   * `get_crn`: check the header, then loop over the distinct years and append
   * each year's table, stopping at the first year the server does not list.
   * `fetch` stands for the download or the cache read of one year.
   */
  method GetCrn<D>(lines: seq<string>, dayYears: seq<string>, available: seq<string>,
                   fetch: string -> D) returns (r: Result<seq<D>, Error>)
    ensures r == CrnSpec(lines, dayYears, available, fetch)
  {
    var columns :- ValidateHeader(lines);
    var tables :- FetchYears(Unique(dayYears), available, fetch);
    if |tables| == 0 {
      return Err(NoDays);
    }
    if !HasSiteColumns(columns) {
      return Err(SiteColumns);
    }
    r := Ok(tables);
  }

  /** The loop of `get_crn` over the distinct years, appending one table per year. */
  method FetchYears<D>(years: seq<string>, available: seq<string>, fetch: string -> D) returns (r: Result<seq<D>, Error>)
    ensures r == YearTables(years, available, fetch)
  {
    var tables: seq<D> := [];
    for i := 0 to |years|
      invariant forall k :: 0 <= k < i ==> years[k] in available
      invariant |tables| == i && forall k :: 0 <= k < i ==> tables[k] == fetch(years[k])
    {
      if years[i] !in available {
        YearTablesFirstFailure(years, available, fetch, i);
        return Err(YearUnavailable(years[i]));
      }
      tables := tables + [fetch(years[i])];
    }
    ghost var spec := YearTables(years, available, fetch);
    assert spec.Ok? && spec.value == tables;
    r := Ok(tables);
  }

  /** When every year before year i is listed and year i is not, the tables fail with year i. */
  lemma YearTablesFirstFailure<D>(years: seq<string>, available: seq<string>, fetch: string -> D, i: nat)
    requires i < |years| && years[i] !in available
    requires forall k :: 0 <= k < i ==> years[k] in available
    ensures YearTables(years, available, fetch) == Err(YearUnavailable(years[i]))
  {
    var r := YearTables(years, available, fetch);
    var k :| 0 <= k < |years| && r.error == YearUnavailable(years[k]) &&
      years[k] !in available && forall m :: 0 <= m < k ==> years[m] in available;
    assert k == i;
  }

  // ---------------------------------------------------------------------------
  // PRISM: which file of a day is used
  // ---------------------------------------------------------------------------

  /** The stabilities in order of preference. */
  const STABILITIES: seq<string> := ["stable", "provisional", "early"]

  /** The name of the daily precipitation archive of `ymd` at stability `stab`. */
  function PrismFileName(stab: string, ymd: string): string {
    "PRISM_ppt_" + stab + "_4kmD2_" + ymd + "_bil.zip"
  }

  /**
   * The stability used for day `ymd`: the first of STABILITIES whose file is
   * listed for the year; no such file is an error.
   */
  function Choose(ymd: string, listed: seq<string>): (r: Result<string, Error>)
    ensures r.Ok? ==> exists k :: (0 <= k < |STABILITIES| && r.value == STABILITIES[k] &&
      PrismFileName(r.value, ymd) in listed &&
      forall m :: 0 <= m < k ==> PrismFileName(STABILITIES[m], ymd) !in listed)
    ensures r.Err? <==> forall k :: 0 <= k < |STABILITIES| ==> PrismFileName(STABILITIES[k], ymd) !in listed
    ensures r.Err? ==> r.error == FileNotFound(ymd)
  {
    if PrismFileName(STABILITIES[0], ymd) in listed then Ok(STABILITIES[0])
    else if PrismFileName(STABILITIES[1], ymd) in listed then Ok(STABILITIES[1])
    else if PrismFileName(STABILITIES[2], ymd) in listed then Ok(STABILITIES[2])
    else Err(FileNotFound(ymd))
  }

  /** The `for ... else` search over the stabilities. */
  method ChooseStability(ymd: string, listed: seq<string>) returns (r: Result<string, Error>)
    ensures r == Choose(ymd, listed)
  {
    var k := 0;
    while k < |STABILITIES|
      invariant 0 <= k <= |STABILITIES|
      invariant forall m :: 0 <= m < k ==> PrismFileName(STABILITIES[m], ymd) !in listed
    {
      if PrismFileName(STABILITIES[k], ymd) in listed {
        return Ok(STABILITIES[k]);
      }
      k := k + 1;
    }
    return Err(FileNotFound(ymd));
  }

  /** `stab in stabilities[1:]`: the choice draws a warning. */
  predicate Warns(stab: string) {
    stab in STABILITIES[1..]
  }

  /**
   * A chosen stability draws a warning exactly when it is not "stable", and
   * a "stable" file, when listed, is always the one chosen.
   */
  lemma ChoiceWarning(ymd: string, listed: seq<string>)
    ensures Choose(ymd, listed).Ok? ==> (Warns(Choose(ymd, listed).value) <==> Choose(ymd, listed).value != "stable")
    ensures PrismFileName("stable", ymd) in listed ==> Choose(ymd, listed) == Ok("stable")
  {
    assert STABILITIES[1..] == ["provisional", "early"];
  }

  // ---------------------------------------------------------------------------
  // PRISM: one grid per requested day
  // ---------------------------------------------------------------------------

  /**
   * `f` is the raster `raw`, read row by row with `cols` values per row, with
   * the `nodata` value undefined and every other value kept.
   */
  ghost predicate RasterOf(f: Field, raw: seq<real>, cols: nat, nodata: real) {
    forall i, j :: 0 <= i < |f| && 0 <= j < |f[i]| ==>
      && j < cols
      && RowMajor(i, j, cols) < |raw|
      && (f[i][j].None? <==> raw[RowMajor(i, j, cols)] == nodata)
      && (f[i][j].Some? ==> f[i][j].value == raw[RowMajor(i, j, cols)])
  }

  /** Reshaping a flat raster and masking its nodata value gives the raster read row by row. */
  lemma MaskedRaster(raw: seq<real>, rows: nat, cols: nat, nodata: real)
    requires |raw| == rows * cols
    ensures RasterOf(MaskNodata(Reshape(raw, rows, cols), nodata), raw, cols, nodata)
  {
    ReshapeCells(raw, rows, cols);
  }

  /** The PRISM raster: 621 rows of 1405 cells, -9999 where there is no value. */
  const PRISM_NROWS: nat := 621
  const PRISM_NCOLS: nat := 1405
  const PRISM_NODATA: real := -9999.0

  /** `ymd[:4]`: the year of a day. */
  function Year(ymd: string): string {
    if |ymd| <= 4 then ymd else ymd[..4]
  }

  /** One day of the PRISM dataset: the day, the stability used, whether it warned, the grid. */
  datatype PrismDay = PrismDay(ymd: string, stability: string, warned: bool, ppt: Field)

  /**
   * Day `ymd` of `get_prism`: its year must be listed, a file of some
   * stability must be listed for it, and the raster must have the PRISM size;
   * the grid is the raster with the nodata value undefined.
   */
  function PrismDaySpec(ymd: string, availableYears: seq<string>, listing: string -> seq<string>,
                        read: string -> seq<real>): (r: Result<PrismDay, Error>)
    ensures r == Err(YearUnavailable(Year(ymd))) <==> Year(ymd) !in availableYears
    ensures Year(ymd) in availableYears ==> r == PrismFetch(ymd, listing(Year(ymd)), read)
  {
    var year := Year(ymd);
    if year !in availableYears then Err(YearUnavailable(year))
    else PrismFetch(ymd, listing(year), read)
  }

  /**
   * A day whose year is listed, given the year's file names: the file of the
   * chosen stability must hold a 621 x 1405 raster, read row by row, and the
   * day's grid is that raster with -9999 undefined.
   */
  function PrismFetch(ymd: string, names: seq<string>, read: string -> seq<real>): (r: Result<PrismDay, Error>)
    ensures Choose(ymd, names).Err? ==> r == Err(FileNotFound(ymd))
    ensures Choose(ymd, names).Ok? ==>
      var name := PrismFileName(Choose(ymd, names).value, ymd);
      && (r.Ok? <==> |read(name)| == PRISM_NROWS * PRISM_NCOLS)
      && (r.Err? ==> r.error == RasterSize(name))
    ensures r.Ok? ==>
      && r.value.ymd == ymd
      && r.value.stability == Choose(ymd, names).value
      && (r.value.warned <==> r.value.stability != "stable")
      && Shaped(r.value.ppt, PRISM_NROWS, PRISM_NCOLS)
    ensures r.Ok? ==> RasterOf(r.value.ppt, read(PrismFileName(r.value.stability, ymd)), PRISM_NCOLS, PRISM_NODATA)
  {
    var stab :- Choose(ymd, names);
    var name := PrismFileName(stab, ymd);
    var raw := read(name);
    if |raw| != PRISM_NROWS * PRISM_NCOLS then Err(RasterSize(name))
    else
      ChoiceWarning(ymd, names);
      MaskedRaster(raw, PRISM_NROWS, PRISM_NCOLS, PRISM_NODATA);
      Ok(PrismDay(ymd, stab, Warns(stab), MaskNodata(Reshape(raw, PRISM_NROWS, PRISM_NCOLS), PRISM_NODATA)))
  }

  /** All days in order, or the failure of the first day that fails. */
  function PrismDays(ymds: seq<string>, availableYears: seq<string>, listing: string -> seq<string>,
                     read: string -> seq<real>): (r: Result<seq<PrismDay>, Error>)
    ensures r.Ok? <==> forall k :: 0 <= k < |ymds| ==> PrismDaySpec(ymds[k], availableYears, listing, read).Ok?
    ensures r.Ok? ==> (|r.value| == |ymds| &&
      forall k :: 0 <= k < |ymds| ==> r.value[k] == PrismDaySpec(ymds[k], availableYears, listing, read).value)
    ensures r.Err? ==> exists k :: (0 <= k < |ymds| &&
      PrismDaySpec(ymds[k], availableYears, listing, read) == Err(r.error) &&
      forall m :: 0 <= m < k ==> PrismDaySpec(ymds[m], availableYears, listing, read).Ok?)
  {
    if |ymds| == 0 then Ok([])
    else
      var day :- PrismDaySpec(ymds[0], availableYears, listing, read);
      var rest :- PrismDays(ymds[1..], availableYears, listing, read);
      assert forall k :: 1 <= k < |ymds| ==> ymds[k] == ymds[1..][k - 1];
      Ok([day] + rest)
  }

  /** What `get_prism` decides: the distinct days in order, or the first failure. */
  function PrismSpec(days: seq<string>, availableYears: seq<string>, listing: string -> seq<string>,
                     read: string -> seq<real>): Result<seq<PrismDay>, Error>
  {
    var out :- PrismDays(Unique(days), availableYears, listing, read);
    if |out| == 0 then Err(NoDays) else Ok(out)
  }

  /**
   * What a successful `get_prism` guarantees: one entry per distinct day; its
   * year is listed, its stability is the first one whose file is listed,
   * and it warned exactly when that is not "stable".
   */
  lemma PrismGuarantees(days: seq<string>, availableYears: seq<string>, listing: string -> seq<string>,
                        read: string -> seq<real>)
    ensures var r := PrismSpec(days, availableYears, listing, read);
      r.Ok? ==>
        && |r.value| == |Unique(days)|
        && forall k :: 0 <= k < |r.value| ==>
             && r.value[k].ymd == Unique(days)[k]
             && Year(r.value[k].ymd) in availableYears
             && r.value[k].stability in STABILITIES
             && r.value[k].stability == Choose(r.value[k].ymd, listing(Year(r.value[k].ymd))).value
             && PrismFileName(r.value[k].stability, r.value[k].ymd) in listing(Year(r.value[k].ymd))
             && (r.value[k].warned <==> r.value[k].stability != "stable")
  {
    var r := PrismSpec(days, availableYears, listing, read);
    if r.Ok? {
      var ymds := Unique(days);
      forall k | 0 <= k < |r.value|
        ensures r.value[k].ymd == ymds[k]
        ensures Year(r.value[k].ymd) in availableYears
        ensures r.value[k].stability in STABILITIES
        ensures r.value[k].stability == Choose(r.value[k].ymd, listing(Year(r.value[k].ymd))).value
        ensures PrismFileName(r.value[k].stability, r.value[k].ymd) in listing(Year(r.value[k].ymd))
        ensures r.value[k].warned <==> r.value[k].stability != "stable"
      {
        var year := Year(ymds[k]);
        var c := Choose(ymds[k], listing(year));
        assert c.Ok?;
        ChoiceWarning(ymds[k], listing(year));
      }
    }
  }

  /**
   * `get_prism`: the loop over the distinct days, then the concatenation,
   * which fails when there is nothing to concatenate. `listings` are the
   * years whose listing was requested, in request order: each at most once,
   * only for years the server lists, and every year of a returned day.
   */
  method GetPrism(days: seq<string>, availableYears: seq<string>, listing: string -> seq<string>,
                  read: string -> seq<real>) returns (r: Result<seq<PrismDay>, Error>, listings: seq<string>)
    ensures r == PrismSpec(days, availableYears, listing, read)
    ensures Distinct(listings)
    ensures forall y :: y in listings ==> y in availableYears
    ensures r.Ok? ==> forall k :: 0 <= k < |r.value| ==> Year(r.value[k].ymd) in listings
  {
    var out;
    out, listings := FetchPrismDays(Unique(days), availableYears, listing, read);
    if out.Err? {
      return Err(out.error), listings;
    }
    if |out.value| == 0 {
      return Err(NoDays), listings;
    }
    r := out;
  }

  /**
   * The `fns_year` cache holds exactly the years in `listings`, each with the
   * listing the server returns for it; every year was requested once, and only
   * when the server lists it.
   */
  ghost predicate CacheHolds(cache: map<string, seq<string>>, listings: seq<string>, availableYears: seq<string>,
                       listing: string -> seq<string>) {
    && (forall y :: y in cache <==> y in listings)
    && (forall y :: y in cache ==> cache[y] == listing(y))
    && Distinct(listings)
    && (forall y :: y in listings ==> y in availableYears)
  }

  /**
   * The loop of `get_prism`: a year's listing is requested the first time one
   * of its days needs it and kept in the `fns_year` cache afterwards.
   */
  method FetchPrismDays(ymds: seq<string>, availableYears: seq<string>, listing: string -> seq<string>,
                        read: string -> seq<real>) returns (r: Result<seq<PrismDay>, Error>, listings: seq<string>)
    ensures r == PrismDays(ymds, availableYears, listing, read)
    ensures Distinct(listings)
    ensures forall y :: y in listings ==> y in availableYears
    ensures r.Ok? ==> forall k :: 0 <= k < |ymds| ==> Year(ymds[k]) in listings
  {
    var out: seq<PrismDay> := [];
    var cache: map<string, seq<string>> := map[];
    listings := [];
    for i := 0 to |ymds|
      invariant |out| == i
      invariant forall k :: 0 <= k < i ==> PrismDaySpec(ymds[k], availableYears, listing, read) == Ok(out[k])
      invariant CacheHolds(cache, listings, availableYears, listing)
      invariant forall k :: 0 <= k < i ==> Year(ymds[k]) in cache
    {
      var day;
      day, cache, listings := FetchPrismStep(ymds[i], availableYears, listing, read, cache, listings);
      if day.Err? {
        FirstFailure(ymds, availableYears, listing, read, i);
        return Err(day.error), listings;
      }
      out := out + [day.value];
    }
    AllDaysFetched(ymds, availableYears, listing, read, out);
    r := Ok(out);
  }

  /**
   * One pass of the loop of `get_prism`: the year check, the cached listing
   * of the year, and the day itself. The cache only grows.
   */
  method FetchPrismStep(ymd: string, availableYears: seq<string>, listing: string -> seq<string>,
                        read: string -> seq<real>, cache: map<string, seq<string>>, listings: seq<string>)
    returns (day: Result<PrismDay, Error>, cache': map<string, seq<string>>, listings': seq<string>)
    requires CacheHolds(cache, listings, availableYears, listing)
    ensures day == PrismDaySpec(ymd, availableYears, listing, read)
    ensures CacheHolds(cache', listings', availableYears, listing)
    ensures cache.Keys <= cache'.Keys
    ensures day.Ok? ==> Year(ymd) in cache'
  {
    var year := Year(ymd);
    if year !in availableYears {
      return Err(YearUnavailable(year)), cache, listings;
    }
    var names;
    names, cache', listings' := CachedListing(year, cache, listings, listing);
    day := FetchPrismDay(ymd, names, read);
  }

  /** When every day succeeds, the days are the specified result. */
  lemma AllDaysFetched(ymds: seq<string>, availableYears: seq<string>, listing: string -> seq<string>,
                       read: string -> seq<real>, out: seq<PrismDay>)
    requires |out| == |ymds|
    requires forall k :: 0 <= k < |ymds| ==> PrismDaySpec(ymds[k], availableYears, listing, read) == Ok(out[k])
    ensures PrismDays(ymds, availableYears, listing, read) == Ok(out)
  {
    var spec := PrismDays(ymds, availableYears, listing, read);
    assert spec.Ok? && spec.value == out;
  }

  /**
   * `fns_year.get(year)`, requesting and caching the listing on a miss; the
   * requested years are kept in request order.
   */
  method CachedListing(year: string, cache: map<string, seq<string>>, listings: seq<string>,
                       listing: string -> seq<string>)
    returns (names: seq<string>, cache': map<string, seq<string>>, listings': seq<string>)
    requires forall y :: y in cache <==> y in listings
    requires forall y :: y in cache ==> cache[y] == listing(y)
    requires Distinct(listings)
    ensures names == listing(year)
    ensures listings' == if year in listings then listings else listings + [year]
    ensures cache' == cache[year := listing(year)]
    ensures forall y :: y in cache' <==> y in listings'
    ensures Distinct(listings')
  {
    if year in cache {
      names, cache', listings' := cache[year], cache, listings;
    } else {
      names := listing(year);
      cache', listings' := cache[year := names], listings + [year];
    }
  }

  /** One listed day: choose the stability among the year's file names, read and mask the raster. */
  method FetchPrismDay(ymd: string, names: seq<string>, read: string -> seq<real>) returns (r: Result<PrismDay, Error>)
    ensures r == PrismFetch(ymd, names, read)
  {
    var stab :- ChooseStability(ymd, names);
    var name := PrismFileName(stab, ymd);
    var raw := read(name);
    if |raw| != PRISM_NROWS * PRISM_NCOLS {
      return Err(RasterSize(name));
    }
    r := Ok(PrismDay(ymd, stab, Warns(stab), MaskNodata(Reshape(raw, PRISM_NROWS, PRISM_NCOLS), PRISM_NODATA)));
  }

  /** When every day before day i succeeds and day i fails, the whole sequence fails with day i's error. */
  lemma FirstFailure(ymds: seq<string>, availableYears: seq<string>, listing: string -> seq<string>,
                     read: string -> seq<real>, i: nat)
    requires i < |ymds|
    requires forall k :: 0 <= k < i ==> PrismDaySpec(ymds[k], availableYears, listing, read).Ok?
    requires PrismDaySpec(ymds[i], availableYears, listing, read).Err?
    ensures PrismDays(ymds, availableYears, listing, read) == Err(PrismDaySpec(ymds[i], availableYears, listing, read).error)
  {
    var r := PrismDays(ymds, availableYears, listing, read);
    assert r.Err?;
    var k :| 0 <= k < |ymds| && PrismDaySpec(ymds[k], availableYears, listing, read) == Err(r.error) &&
      forall m :: 0 <= m < k ==> PrismDaySpec(ymds[m], availableYears, listing, read).Ok?;
    assert k == i;
  }

  // ---------------------------------------------------------------------------
  // ALEXI: one grid per requested day
  // ---------------------------------------------------------------------------

  /** The ALEXI raster: 625 rows of 1456 cells, -9999 where there is no value. */
  const ALEXI_NLAT: nat := 625
  const ALEXI_NLON: nat := 1456
  const ALEXI_BAD: real := -9999.0

  /** The name of the ALEXI evapotranspiration file of day `yj`. */
  function AlexiFileName(yj: string): string {
    "ALEXI_ET_4KM_CONUS_V01_" + yj + ".dat"
  }

  /** What the loop obtains for one day: the file's grid, or nothing when the file is absent. */
  datatype AlexiDay = Loaded(et: Field) | Missing

  /**
   * `load_alexi(fp)` for a file that exists: the file must hold a 625 x 1456
   * raster, read row by row, and the grid is that raster with -9999 undefined.
   */
  function LoadAlexi(name: string, read: string -> seq<real>): (r: Result<Field, Error>)
    ensures r.Ok? <==> |read(name)| == ALEXI_NLAT * ALEXI_NLON
    ensures r.Err? ==> r.error == RasterSize(name)
    ensures r.Ok? ==> Shaped(r.value, ALEXI_NLAT, ALEXI_NLON) && RasterOf(r.value, read(name), ALEXI_NLON, ALEXI_BAD)
  {
    var raw := read(name);
    if |raw| != ALEXI_NLAT * ALEXI_NLON then Err(RasterSize(name))
    else
      MaskedRaster(raw, ALEXI_NLAT, ALEXI_NLON, ALEXI_BAD);
      Ok(MaskNodata(Reshape(raw, ALEXI_NLAT, ALEXI_NLON), ALEXI_BAD))
  }

  /**
   * Day `yj` as the loop of `get_alexi` treats it: an unlisted date fails, a
   * file present after the download attempt is loaded, an absent one is a
   * missing day. `present` stands for `fp.is_file()` after the attempt.
   */
  function AlexiDaySpec(yj: string, available: seq<string>, present: string -> bool,
                        read: string -> seq<real>): Result<AlexiDay, Error>
  {
    if yj !in available then Err(DateUnavailable(yj))
    else if !present(AlexiFileName(yj)) then Ok(Missing)
    else
      var et :- LoadAlexi(AlexiFileName(yj), read);
      Ok(Loaded(et))
  }

  /** All days in order, or the failure of the first day that fails. */
  function AlexiDays(yjs: seq<string>, available: seq<string>, present: string -> bool,
                     read: string -> seq<real>): (r: Result<seq<AlexiDay>, Error>)
    ensures r.Ok? <==> forall k :: 0 <= k < |yjs| ==> AlexiDaySpec(yjs[k], available, present, read).Ok?
    ensures r.Ok? ==> (|r.value| == |yjs| &&
      forall k :: 0 <= k < |yjs| ==> r.value[k] == AlexiDaySpec(yjs[k], available, present, read).value)
    ensures r.Err? ==> exists k :: (0 <= k < |yjs| &&
      AlexiDaySpec(yjs[k], available, present, read) == Err(r.error) &&
      forall m :: 0 <= m < k ==> AlexiDaySpec(yjs[m], available, present, read).Ok?)
  {
    if |yjs| == 0 then Ok([])
    else
      var day :- AlexiDaySpec(yjs[0], available, present, read);
      var rest :- AlexiDays(yjs[1..], available, present, read);
      assert forall k :: 1 <= k < |yjs| ==> yjs[k] == yjs[1..][k - 1];
      Ok([day] + rest)
  }

  /** `n_missing_days`: how many of the days are missing. */
  function CountMissing(days: seq<AlexiDay>): (n: nat)
    ensures n <= |days|
  {
    if |days| == 0 then 0 else (if days[0].Missing? then 1 else 0) + CountMissing(days[1..])
  }

  /** The counter reaches the number of days exactly when every day is missing. */
  lemma {:induction false} CountMissingAll(days: seq<AlexiDay>)
    ensures CountMissing(days) == |days| <==> forall k :: 0 <= k < |days| ==> days[k].Missing?
  {
    if |days| > 0 {
      CountMissingAll(days[1..]);
      assert forall k :: 1 <= k < |days| ==> days[k] == days[1..][k - 1];
    }
  }

  /** The counter is positive exactly when some day is missing. */
  lemma {:induction false} CountMissingSome(days: seq<AlexiDay>)
    ensures CountMissing(days) > 0 <==> exists k :: 0 <= k < |days| && days[k].Missing?
  {
    if |days| > 0 {
      CountMissingSome(days[1..]);
      if exists k :: 0 <= k < |days[1..]| && days[1..][k].Missing? {
        var k :| 0 <= k < |days[1..]| && days[1..][k].Missing?;
        assert days[k + 1].Missing?;
      }
      if exists k :: 0 <= k < |days| && days[k].Missing? {
        var k :| 0 <= k < |days| && days[k].Missing?;
        if k > 0 {
          assert days[1..][k - 1].Missing?;
        }
      }
    }
  }

  /** The all-undefined grid a missing day is meant to contribute before the gap filling. */
  function AllUndefined(): (f: Field)
    ensures Shaped(f, ALEXI_NLAT, ALEXI_NLON)
    ensures forall i, j :: 0 <= i < ALEXI_NLAT && 0 <= j < ALEXI_NLON ==> f[i][j].None?
  {
    seq(ALEXI_NLAT, _ => seq(ALEXI_NLON, _ => None))
  }

  /** The series before gap filling: a missing day contributes the all-undefined grid. */
  function Series(days: seq<AlexiDay>): (s: seq<Field>)
    ensures |s| == |days|
    ensures forall k :: 0 <= k < |days| ==> s[k] == (if days[k].Loaded? then days[k].et else AllUndefined())
  {
    seq(|days|, k requires 0 <= k < |days| => if days[k].Loaded? then days[k].et else AllUndefined())
  }

  /** A run of `get_alexi`: the evapotranspiration series and whether it was gap-filled. */
  datatype AlexiRun = AlexiRun(et: seq<Field>, gapFilled: bool)

  /**
   * What `get_alexi` is meant to decide: the distinct days are scanned in
   * order; nothing requested is an error (nothing to concatenate); every day
   * missing is an error; some day missing sends the series through the
   * nearest-day gap filling `fill`.
   */
  function AlexiSpec(days: seq<string>, available: seq<string>, present: string -> bool,
                     read: string -> seq<real>, fill: seq<Field> -> seq<Field>): Result<AlexiRun, Error>
  {
    AlexiOutcome(Unique(days), available, present, read, fill)
  }

  /** The decision of `get_alexi` once the distinct days `yjs` are known. */
  function AlexiOutcome(yjs: seq<string>, available: seq<string>, present: string -> bool,
                        read: string -> seq<real>, fill: seq<Field> -> seq<Field>): Result<AlexiRun, Error>
  {
    var loaded :- AlexiDays(yjs, available, present, read);
    var missing := CountMissing(loaded);
    if |yjs| == 0 then Err(NoDays)
    else if missing == |yjs| then Err(AllMissing)
    else if missing > 0 then Ok(AlexiRun(fill(Series(loaded)), true))
    else Ok(AlexiRun(Series(loaded), false))
  }

  /**
   * `get_alexi` fails with AllMissing exactly when at least one day is
   * requested, every requested day is listed, and no requested file is
   * present.
   */
  lemma AlexiAllMissing(days: seq<string>, available: seq<string>, present: string -> bool,
                        read: string -> seq<real>, fill: seq<Field> -> seq<Field>)
    ensures var yjs := Unique(days);
      AlexiSpec(days, available, present, read, fill) == Err(AllMissing) <==>
        |yjs| > 0 && forall k :: 0 <= k < |yjs| ==> yjs[k] in available && !present(AlexiFileName(yjs[k]))
  {
    OutcomeAllMissing(Unique(days), available, present, read, fill);
  }

  /** `AlexiAllMissing` for the distinct days themselves. */
  lemma OutcomeAllMissing(yjs: seq<string>, available: seq<string>, present: string -> bool,
                          read: string -> seq<real>, fill: seq<Field> -> seq<Field>)
    ensures AlexiOutcome(yjs, available, present, read, fill) == Err(AllMissing) <==>
      |yjs| > 0 && forall k :: 0 <= k < |yjs| ==> yjs[k] in available && !present(AlexiFileName(yjs[k]))
  {
    var loaded := AlexiDays(yjs, available, present, read);
    if loaded.Ok? {
      AlexiDaysPresence(yjs, available, present, read);
      CountMissingAll(loaded.value);
    } else {
      var k :| 0 <= k < |yjs| && AlexiDaySpec(yjs[k], available, present, read) == Err(loaded.error);
      assert yjs[k] !in available || present(AlexiFileName(yjs[k]));
    }
  }

  /** A successful `get_alexi` had at least one requested file present. */
  lemma AlexiNeedsPresentFile(days: seq<string>, available: seq<string>, present: string -> bool,
                              read: string -> seq<real>, fill: seq<Field> -> seq<Field>)
    ensures var yjs := Unique(days);
      AlexiSpec(days, available, present, read, fill).Ok? ==>
        exists k :: 0 <= k < |yjs| && present(AlexiFileName(yjs[k]))
  {
    var yjs := Unique(days);
    OutcomeNeedsPresentFile(yjs, available, present, read, fill);
    if AlexiSpec(days, available, present, read, fill).Ok? {
      assert AlexiOutcome(yjs, available, present, read, fill).Ok?;
      var k :| 0 <= k < |yjs| && present(AlexiFileName(yjs[k]));
      assert 0 <= k < |Unique(days)| && present(AlexiFileName(Unique(days)[k]));
    }
  }

  /** `AlexiNeedsPresentFile` for the distinct days themselves. */
  lemma OutcomeNeedsPresentFile(yjs: seq<string>, available: seq<string>, present: string -> bool,
                                read: string -> seq<real>, fill: seq<Field> -> seq<Field>)
    ensures AlexiOutcome(yjs, available, present, read, fill).Ok? ==>
      exists k :: 0 <= k < |yjs| && present(AlexiFileName(yjs[k]))
  {
    var loaded := AlexiDays(yjs, available, present, read);
    if AlexiOutcome(yjs, available, present, read, fill).Ok? {
      var ds := loaded.value;
      assert CountMissing(ds) != |ds|;
      AlexiDaysPresence(yjs, available, present, read);
      CountMissingAll(ds);
      var k :| 0 <= k < |ds| && !ds[k].Missing?;
      assert present(AlexiFileName(yjs[k]));
    }
  }

  /** A successful `get_alexi` gap-fills exactly when some requested file is absent. */
  lemma AlexiGapFilling(days: seq<string>, available: seq<string>, present: string -> bool,
                        read: string -> seq<real>, fill: seq<Field> -> seq<Field>)
    ensures var r := AlexiSpec(days, available, present, read, fill);
      var yjs := Unique(days);
      r.Ok? ==> (r.value.gapFilled <==> exists k :: 0 <= k < |yjs| && !present(AlexiFileName(yjs[k])))
  {
    var yjs := Unique(days);
    var r := AlexiOutcome(yjs, available, present, read, fill);
    OutcomeGapFilling(yjs, available, present, read, fill);
    if AlexiSpec(days, available, present, read, fill).Ok? {
      assert r.Ok? && r == AlexiSpec(days, available, present, read, fill);
      if r.value.gapFilled {
        var k :| 0 <= k < |yjs| && !present(AlexiFileName(yjs[k]));
        assert 0 <= k < |Unique(days)| && !present(AlexiFileName(Unique(days)[k]));
      }
      if exists k :: 0 <= k < |Unique(days)| && !present(AlexiFileName(Unique(days)[k])) {
        var k :| 0 <= k < |Unique(days)| && !present(AlexiFileName(Unique(days)[k]));
        assert 0 <= k < |yjs| && !present(AlexiFileName(yjs[k]));
      }
    }
  }

  /** `AlexiGapFilling` for the distinct days themselves. */
  lemma OutcomeGapFilling(yjs: seq<string>, available: seq<string>, present: string -> bool,
                          read: string -> seq<real>, fill: seq<Field> -> seq<Field>)
    ensures var r := AlexiOutcome(yjs, available, present, read, fill);
      r.Ok? ==> (r.value.gapFilled <==> exists k :: 0 <= k < |yjs| && !present(AlexiFileName(yjs[k])))
  {
    var loaded := AlexiDays(yjs, available, present, read);
    var r := AlexiOutcome(yjs, available, present, read, fill);
    if r.Ok? {
      var ds := loaded.value;
      assert r.value.gapFilled <==> CountMissing(ds) > 0;
      AlexiDaysPresence(yjs, available, present, read);
      CountMissingSome(ds);
      if exists k :: 0 <= k < |yjs| && !present(AlexiFileName(yjs[k])) {
        var k :| 0 <= k < |yjs| && !present(AlexiFileName(yjs[k]));
        assert ds[k].Missing?;
      }
      if r.value.gapFilled {
        var k :| 0 <= k < |ds| && ds[k].Missing?;
        assert !present(AlexiFileName(yjs[k]));
      }
    }
  }

  /** Without gap filling, day k of `get_alexi` is the raster of the k-th distinct day. */
  lemma AlexiUnfilledDays(days: seq<string>, available: seq<string>, present: string -> bool,
                          read: string -> seq<real>, fill: seq<Field> -> seq<Field>)
    ensures var r := AlexiSpec(days, available, present, read, fill);
      var yjs := Unique(days);
      r.Ok? && !r.value.gapFilled ==>
        (|r.value.et| == |yjs| && forall k :: 0 <= k < |yjs| ==> LoadAlexi(AlexiFileName(yjs[k]), read) == Ok(r.value.et[k]))
  {
    OutcomeUnfilledDays(Unique(days), available, present, read, fill);
  }

  /** `AlexiUnfilledDays` for the distinct days themselves. */
  lemma OutcomeUnfilledDays(yjs: seq<string>, available: seq<string>, present: string -> bool,
                            read: string -> seq<real>, fill: seq<Field> -> seq<Field>)
    ensures var r := AlexiOutcome(yjs, available, present, read, fill);
      r.Ok? && !r.value.gapFilled ==>
        (|r.value.et| == |yjs| && forall k :: 0 <= k < |yjs| ==> LoadAlexi(AlexiFileName(yjs[k]), read) == Ok(r.value.et[k]))
  {
    var loaded := AlexiDays(yjs, available, present, read);
    if loaded.Ok? {
      AlexiDaysPresence(yjs, available, present, read);
      CountMissingSome(loaded.value);
    }
  }

  /** A successful scan marks a day missing exactly when its file is absent, and loads it otherwise. */
  lemma AlexiDaysPresence(yjs: seq<string>, available: seq<string>, present: string -> bool,
                          read: string -> seq<real>)
    requires AlexiDays(yjs, available, present, read).Ok?
    ensures var ds := AlexiDays(yjs, available, present, read).value;
      && |ds| == |yjs|
      && (forall k :: 0 <= k < |yjs| ==> (ds[k].Missing? <==> !present(AlexiFileName(yjs[k]))))
      && (forall k :: 0 <= k < |yjs| && ds[k].Loaded? ==> LoadAlexi(AlexiFileName(yjs[k]), read) == Ok(ds[k].et))
  {
  }

  /**
   * `get_alexi`: loop over the distinct days, counting the missing ones, then
   * concatenate and apply the all-missing and gap-filling rules.
   */
  method GetAlexi(days: seq<string>, available: seq<string>, present: string -> bool,
                  read: string -> seq<real>, fill: seq<Field> -> seq<Field>) returns (r: Result<AlexiRun, Error>)
    ensures r == AlexiSpec(days, available, present, read, fill)
  {
    var yjs := Unique(days);
    var loaded: seq<AlexiDay> := [];
    var missing := 0;
    for i := 0 to |yjs|
      invariant |loaded| == i
      invariant forall k :: 0 <= k < i ==> AlexiDaySpec(yjs[k], available, present, read) == Ok(loaded[k])
      invariant missing == CountMissing(loaded)
    {
      var yj := yjs[i];
      if yj !in available {
        AlexiFirstFailure(yjs, available, present, read, i);
        return Err(DateUnavailable(yj));
      }
      var name := AlexiFileName(yj);
      var day;
      if present(name) {
        var et := LoadAlexi(name, read);
        if et.Err? {
          AlexiFirstFailure(yjs, available, present, read, i);
          return Err(et.error);
        }
        day := Loaded(et.value);
      } else {
        day := Missing;
        missing := missing + 1;
      }
      CountMissingSnoc(loaded, day);
      loaded := loaded + [day];
    }
    AllAlexiDaysScanned(yjs, available, present, read, loaded);
    if |yjs| == 0 {
      return Err(NoDays);
    }
    var series := Series(loaded);
    if missing == |yjs| {
      return Err(AllMissing);
    }
    if missing > 0 {
      series := fill(series);
    }
    r := Ok(AlexiRun(series, missing > 0));
  }

  /** When every day succeeds, the scanned days are the specified result. */
  lemma AllAlexiDaysScanned(yjs: seq<string>, available: seq<string>, present: string -> bool,
                            read: string -> seq<real>, loaded: seq<AlexiDay>)
    requires |loaded| == |yjs|
    requires forall k :: 0 <= k < |yjs| ==> AlexiDaySpec(yjs[k], available, present, read) == Ok(loaded[k])
    ensures AlexiDays(yjs, available, present, read) == Ok(loaded)
  {
    var spec := AlexiDays(yjs, available, present, read);
    assert spec.Ok? && spec.value == loaded;
  }

  /** Counting a day appended at the end. */
  lemma {:induction false} CountMissingSnoc(days: seq<AlexiDay>, day: AlexiDay)
    ensures CountMissing(days + [day]) == CountMissing(days) + (if day.Missing? then 1 else 0)
  {
    if |days| > 0 {
      CountMissingSnoc(days[1..], day);
      assert (days + [day])[1..] == days[1..] + [day];
    }
  }

  /** When every day before day i succeeds and day i fails, the whole scan fails with day i's error. */
  lemma AlexiFirstFailure(yjs: seq<string>, available: seq<string>, present: string -> bool,
                          read: string -> seq<real>, i: nat)
    requires i < |yjs|
    requires forall k :: 0 <= k < i ==> AlexiDaySpec(yjs[k], available, present, read).Ok?
    requires AlexiDaySpec(yjs[i], available, present, read).Err?
    ensures AlexiDays(yjs, available, present, read) == Err(AlexiDaySpec(yjs[i], available, present, read).error)
  {
    var r := AlexiDays(yjs, available, present, read);
    assert r.Err?;
    var k :| 0 <= k < |yjs| && AlexiDaySpec(yjs[k], available, present, read) == Err(r.error) &&
      forall m :: 0 <= m < k ==> AlexiDaySpec(yjs[m], available, present, read).Ok?;
    assert k == i;
  }

  // ---------------------------------------------------------------------------
  // ALEXI as written: a missing file crashes
  // ---------------------------------------------------------------------------

  /**
   * Day `yj` as the code is written: for an absent file `load_alexi(None)`
   * formats `fp.name` with `fp` being `None` and raises AttributeError before
   * the counter is incremented.
   */
  function AlexiDayAsWritten(yj: string, available: seq<string>, present: string -> bool,
                             read: string -> seq<real>): Result<AlexiDay, Error>
  {
    if yj !in available then Err(DateUnavailable(yj))
    else if !present(AlexiFileName(yj)) then Err(MissingFileName)
    else
      var et :- LoadAlexi(AlexiFileName(yj), read);
      Ok(Loaded(et))
  }

  /** The loop of `get_alexi` as written: the first failing day stops it, and an absent file is a failure. */
  function AlexiScanAsWritten(yjs: seq<string>, available: seq<string>, present: string -> bool,
                              read: string -> seq<real>): (r: Result<seq<Field>, Error>)
    ensures r.Ok? ==> |r.value| == |yjs|
    ensures r.Err? ==> r.error.DateUnavailable? || r.error == MissingFileName || r.error.RasterSize?
    ensures r.Ok? ==> forall k :: 0 <= k < |yjs| ==>
      present(AlexiFileName(yjs[k])) && LoadAlexi(AlexiFileName(yjs[k]), read) == Ok(r.value[k])
  {
    if |yjs| == 0 then Ok([])
    else
      var day :- AlexiDayAsWritten(yjs[0], available, present, read);
      var rest :- AlexiScanAsWritten(yjs[1..], available, present, read);
      assert day.Loaded?;
      assert forall k :: 1 <= k < |yjs| ==> yjs[k] == yjs[1..][k - 1];
      Ok([day.et] + rest)
  }

  /**
   * `get_alexi` as written: the scan over the distinct days, then the
   * concatenation, which raises when no day was requested. Since an absent
   * file already failed the scan, the all-missing and gap-filling rules are
   * never reached.
   */
  function AlexiAsWritten(days: seq<string>, available: seq<string>, present: string -> bool,
                          read: string -> seq<real>): (r: Result<AlexiRun, Error>)
    ensures |Unique(days)| == 0 ==> r == Err(NoDays)
    ensures r.Ok? ==> |r.value.et| == |Unique(days)| && !r.value.gapFilled
    ensures r.Ok? ==> forall k :: 0 <= k < |Unique(days)| ==> present(AlexiFileName(Unique(days)[k]))
    ensures r != Err(AllMissing)
  {
    var yjs := Unique(days);
    var et :- AlexiScanAsWritten(yjs, available, present, read);
    if |yjs| == 0 then Err(NoDays) else Ok(AlexiRun(et, false))
  }

  /**
   * The discrepancy on a concrete input: two listed days, the second file
   * absent. As written the scan raises AttributeError; the intended scan
   * loads the first day and gap-fills the second.
   */
  lemma AlexiMissingDayCrashes(read: string -> seq<real>, fill: seq<Field> -> seq<Field>)
    requires |read(AlexiFileName("2022001"))| == ALEXI_NLAT * ALEXI_NLON
    ensures var present := (name: string) => name == AlexiFileName("2022001");
      && AlexiAsWritten(["2022001", "2022002"], ["2022001", "2022002"], present, read) == Err(MissingFileName)
      && AlexiSpec(["2022001", "2022002"], ["2022001", "2022002"], present, read, fill).Ok?
      && AlexiSpec(["2022001", "2022002"], ["2022001", "2022002"], present, read, fill).value.gapFilled
  {
    var present := (name: string) => name == AlexiFileName("2022001");
    var yjs := ["2022001", "2022002"];
    SecondFileAbsent(present);
    UniqueOfDistinct(yjs);
    assert yjs[1..] == ["2022002"];
    assert AlexiDayAsWritten("2022002", yjs, present, read) == Err(MissingFileName);
    assert AlexiScanAsWritten(yjs[1..], yjs, present, read) == Err(MissingFileName);
    SecondDayGapFilled(read, fill);
  }

  /** Of the two days of the example, only the first file is present. */
  lemma SecondFileAbsent(present: string -> bool)
    requires forall name :: present(name) <==> name == AlexiFileName("2022001")
    ensures present(AlexiFileName("2022001")) && !present(AlexiFileName("2022002"))
  {
    assert AlexiFileName("2022002")[29] != AlexiFileName("2022001")[29];
  }

  /** The intended scan of the example loads the first day, misses the second, and gap-fills. */
  lemma SecondDayGapFilled(read: string -> seq<real>, fill: seq<Field> -> seq<Field>)
    requires |read(AlexiFileName("2022001"))| == ALEXI_NLAT * ALEXI_NLON
    ensures var present := (name: string) => name == AlexiFileName("2022001");
      && AlexiSpec(["2022001", "2022002"], ["2022001", "2022002"], present, read, fill).Ok?
      && AlexiSpec(["2022001", "2022002"], ["2022001", "2022002"], present, read, fill).value.gapFilled
  {
    var present := (name: string) => name == AlexiFileName("2022001");
    var yjs := ["2022001", "2022002"];
    SecondFileAbsent(present);
    UniqueOfDistinct(yjs);
    var loaded := AlexiDays(yjs, yjs, present, read);
    assert loaded.Ok?;
    assert loaded.value[1] == Missing;
    CountMissingSome(loaded.value);
    CountMissingAll(loaded.value);
  }
}
