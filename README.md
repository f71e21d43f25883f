# SWAMP soil-moisture model in Dafny

SWAMP estimates the volumetric soil moisture of the top 25 cm of soil on a
720 x 1150 latitude/longitude grid over the contiguous United States. A run
covers the days of a date range:

1. It loads static weighting coefficients and masks the non-positive ones.
2. It picks an initial condition (IC) for the first day. The IC is zero on
   the coefficient mask, or interpolated from the soil-moisture readings of
   the Climate Reference Network (CRN) stations, or an available-water-content
   (AWC) combination of three depths, or a field the caller supplies.
3. It advances every cell day by day with a clipped water balance, driven by
   precipitation (PRISM) minus evapotranspiration (ALEXI).

This project models:

- the integrator `swamp/calc.py`, in module `Calc`;
- the earlier prototype script `swamp.py`, in module `Prototype`;
- the per-station extremes script `maxmoist.py`, in module `MaxMoist`;
- the decision rules of the downloaders in `dl.py`, in module `Download`.

Shared pieces:

- `Grid`: cells, fields, clipping, nodata masking and reshaping.
- `Text`: Python's `str.lower`, `str.split()` and `str(n)`.
- `Seqs`: distinctness, `set(xs)` and pandas' order-keeping `unique()`.
- `Wrappers`: `Option` and `Result`.

Values and I/O:

- A NaN cell is `None`. Real arithmetic is exact.
- Servers, files and external libraries appear as function-typed parameters:
  directory listings, file contents, the MetPy interpolation, the xarray
  regridding and the nearest-day gap filling.
- Every loop of the source is a method with invariants. Each method is proved
  equal to a specification function, and lemmas state what that function
  guarantees.

## Model

| member | source | states |
|---|---|---|
| Grid.Clip | swamp/calc.py:195-199 | the clipped value lies in [0, 1]; values already in [0, 1] are unchanged; values below 0 saturate at 0 and values above 1 at 1 |
| Grid.MaskNodata | dl.py:213-215 | same shape as the raster; a cell is undefined exactly when the raster holds the nodata value, otherwise it holds the raster value |
| Grid.FillUndefinedMaskNodata | dl.py:213-215 | masking loses nothing: writing the sentinel back into the undefined cells restores the raster |
| Grid.Reshape | dl.py:209-210 | `reshape(rows, cols)` of a flat buffer of rows*cols values gives a rows x cols grid |
| Grid.ReshapeIndex | dl.py:209-210 | the buffer is row-major: cell (i, j) of the reshaped grid is value i*cols + j of the flat buffer |
| Grid.FlattenReshape | dl.py:209-210 | reading the reshaped grid row-major gives back the flat buffer |
| Grid.ReshapeFlatten | dl.py:342-344 | a rows x cols grid read row-major has rows*cols cells, and reshaping that buffer gives the grid back: reshaping loses and invents nothing |
| Grid.FlattenShaped | swamp/calc.py:175 | a rows x cols grid has rows*cols cells, the element count `ic == 0` is judged on |
| Text.Lower | swamp/calc.py:175-180 | the lower-cased string has the same length, and each character is lowered on its own (ASCII letters to lower case, everything else kept) |
| Text.LowerIdempotent | swamp/calc.py:175-180 | lowering twice is lowering once |
| Text.Split | dl.py:39-40 | every piece of `str.split()` is a non-empty, whitespace-free token |
| Text.SplitPieces | dl.py:39-40 | the pieces of `str.split()`, concatenated, are exactly the non-whitespace characters of the line, and there is one piece per maximal run of them |
| Text.SplitJoin | dl.py:39-40 | splitting the space-joined tokens gives back exactly those tokens |
| Text.NatToString | dl.py:42 | `str(n)` is a non-empty string of decimal digits with no leading zero; it starts with 0 exactly when n is 0 |
| Text.ParseNatToString | dl.py:42 | the digits of `str(n)` read back as n, so distinct numbers have distinct strings |
| Seqs.ElementsSize | maxmoist.py:40 | `len(set(xs)) <= len(xs)`, with equality exactly when no element repeats |
| Seqs.Unique | dl.py:135 | the result has no repeats and holds exactly the elements of the input |
| Seqs.UniqueOrder | dl.py:135 | the distinct elements come in the order of their first occurrence in the input |
| Seqs.IndexOf | dl.py:135 | the index of the first occurrence: the element is there, and nowhere before it |
| Seqs.UniqueOfDistinct | dl.py:266 | a sequence without repeats is left as it is |
| Seqs.UniqueIdempotent | dl.py:53 | deduplicating twice is deduplicating once |
| Calc.MaskCoeffs | swamp/calc.py:50-51 | same shape; a weight is kept exactly when it is positive, and every other weight is undefined |
| Calc.Unmasked | swamp/calc.py:46-49 | with masking off, every weight is kept as read |
| Calc.LoadCoeffs | swamp/calc.py:43-53 | succeeds exactly when both weight files are 720 x 1150, and fails with CoeffShape otherwise; the result is the slope weights, masked or not as asked |
| Calc.ZeroIc | swamp/calc.py:123-126 | the zero IC is undefined exactly where the coefficients are undefined and 0 elsewhere |
| Calc.MaskMissing | swamp/calc.py:74 | a reading is kept exactly when it is present and not -99 |
| Calc.Observations | swamp/calc.py:73-75 | no point carries -99, and every point comes from a row whose reading is kept |
| Calc.ObservationsInOrder | swamp/calc.py:73-75 | there is one point per kept row, in table order: the point of kept row i follows the points of the kept rows before it |
| Calc.InterpOptions | swamp/calc.py:66 | the keys are the defaults' and the caller's; caller settings win, and defaults fill the rest |
| Calc.CrnIc | swamp/calc.py:61-80 | the CRN IC is the 5 cm readings, -99 masked and dropped, interpolated with the merged settings and regridded; it lies on the 720 x 1150 grid |
| Calc.AwcCell | swamp/calc.py:112 | defined exactly when all three layers are defined; the value is 7.5 v5 + 7.5 v10 + 20 v20 |
| Calc.AwcCombine | swamp/calc.py:111-114 | the combination is taken cell by cell over the shape of the layers |
| Calc.AwcIc | swamp/calc.py:83-120 | the intended AWC IC, each depth interpolated from its own stations: it succeeds exactly when the three interpolated layers have the same shape, and fails with LayerShape otherwise; on success the IC is the regridded 7.5/7.5/20 combination of the layers, on the 720 x 1150 grid |
| Calc.CarriedCoords | swamp/calc.py:98-108 | the positions `x, y` hold after the call for a depth, as written: the stations read at that depth and at every shallower one, never more than the readings |
| Calc.KeptValues | swamp/calc.py:100-108 | the readings of a depth after `-99` masking and NaN removal: one per kept station |
| Calc.CarriedCount | swamp/calc.py:98-109 | positions and readings of a depth have the same length exactly when every station read there was read at the shallower depths |
| Calc.CarriedPairs | swamp/calc.py:98-109 | when every station read at a depth was read at the shallower ones, the pairs handed to the interpolation are that depth's own observations |
| Calc.LayerAsWritten | swamp/calc.py:103-109 | the interpolation of one depth as written fails with PointCount exactly when some station read there lacks a shallower reading, and otherwise is the intended layer |
| Calc.AwcIcAsWritten | swamp/calc.py:83-120 | `_ic_awc` as written is the intended AWC IC when every station read at 10 cm was read at 5 cm and every station read at 20 cm was read at 5 and 10 cm, and fails with PointCount otherwise |
| Calc.AwcMissingShallowReadingFails | swamp/calc.py:98-104 | three stations at distinct positions, the first with -99 at 5 cm but readings at 10 and 20 cm, the others read at every depth: the 5 cm call gets two points, but as written the 10 cm call gets three readings and two positions and the IC fails, while the intended one is computed |
| Calc.Dispatch | swamp/calc.py:175-184 | None, 0 and "zero" in any case select the zero IC; "crn" and "awc" in any case select their strategies; a supplied field is used as given; every other value is rejected with InvalidIc (each as an if-and-only-if) |
| Calc.DispatchAsWritten | swamp/calc.py:175 | as written, a supplied field of more than one cell raises the ambiguous-truth-value error; a supplied field of at most one cell selects the zero IC exactly when it is the single value 0, and otherwise agrees with Dispatch |
| Calc.PrecomputedGridIcRejected | swamp/calc.py:175 | for any supplied 720 x 1150 IC, the code as written fails, while the corrected dispatch uses the field |
| Calc.DispatchIgnoresCase | swamp/calc.py:175-180 | a strategy name selects the same strategy whatever its letter case |
| Calc.IcField | swamp/calc.py:175-182 | the zero strategy gives the zero IC, "crn" the CRN IC and "awc" the AWC IC, both on the output grid; a supplied field is the IC; only the AWC strategy can fail, and only with LayerShape |
| Calc.StepCell | swamp/calc.py:188-199 | the new value is defined exactly when the previous value, the coefficient and the forcing are all defined, and it lies in [0, 1] |
| Calc.StepCellSaturates | swamp/calc.py:195-199 | from a non-negative previous value, weighted forcing of at least a full 250 mm layer saturates the cell at 1 |
| Calc.StepCellDries | swamp/calc.py:195-199 | from a previous value of at most 1, weighted forcing of at most minus 250 mm dries the cell to 0 |
| Calc.StepField | swamp/calc.py:189-196 | a day is advanced cell by cell under a cell rule, with each cell independent of its neighbours |
| Calc.Day | swamp/calc.py:186-199 | day d of the recurrence under a cell rule has the shape of the coefficients, and day 0 is the IC |
| Calc.DayCell | swamp/calc.py:188-199 | on a day after day 0, each cell is the rule applied to that cell of the day before, its coefficient and its forcing |
| Calc.Integrate | swamp/calc.py:186-199 | one field per forcing day; field k is day k of the recurrence under the cell rule, starting from the IC |
| Calc.DayBoundsAndMask | swamp/calc.py:188-199 | after day 0 every defined value lies in [0, 1], and a cell with an undefined coefficient is undefined |
| Calc.ZeroIcDefined | swamp/calc.py:175-199 | from the zero IC, a cell is defined on day d exactly when its coefficient is defined and its forcing was defined on every day 1..d |
| Calc.ZeroIcMaskedEveryDay | swamp/calc.py:123-126 | from the zero IC, a masked cell is undefined on every day, day 0 included |
| Calc.UnforcedCellKeepsValue | swamp/calc.py:195-199 | a cell with zero forcing keeps its day-0 value in [0, 1] |
| Calc.SaturationPersists | swamp/calc.py:195-199 | a saturated cell stays at 1 while its weighted forcing is not negative |
| Calc.DrynessPersists | swamp/calc.py:195-199 | a dry cell stays at 0 while its weighted forcing is not positive |
| Calc.DayCount | swamp/calc.py:143-144 | the daily range [start, end] is empty exactly when start > end, and otherwise holds end - start + 1 days |
| Calc.RunGuarantees | swamp/calc.py:129-201 | a successful run has one 720 x 1150 field per day of [start, end]; every defined value after day 0 lies in [0, 1]; a cell with a non-positive slope weight is undefined after day 0 |
| Calc.RunInitialCondition | swamp/calc.py:172-186 | day 0 of a successful run is the IC of the selected strategy: the zero IC on the masked weights for None, 0 or "zero", the CRN IC, the AWC IC, or the supplied field; only a supplied field can fail the shape check |
| Calc.Run | swamp/calc.py:129-201 | the run checks the weights, the range and the IC, in that order, and then returns the integrated series of its specification |
| Calc.TimeStep | swamp/calc.py:186-199 | the loop writing day i from day i-1 into a preallocated series produces the integrated series |
| Calc.TwoByTwoZeroForcing | swamp/calc.py:123-199 | worked example: 2 x 2 weights with one masked cell and zero forcing keep the three other cells at 0 on both days and the masked cell undefined |
| Prototype.StepCell | swamp.py:60-63 | the cell rule of the script: the new value is defined exactly when the previous value, the weight and the forcing are defined, and it lies in [0, 1] |
| Prototype.DayBounds | swamp.py:60-63 | under the script's rule with the unmasked weights, every defined value after day 0 lies in [0, 1] |
| Prototype.Zeros | swamp.py:53 | the series starts as 0 in every cell |
| Prototype.Start | swamp.py:53-58 | day 0 is the IC when one is given, and the zeros otherwise |
| Prototype.ZeroStartDefined | swamp.py:53-63 | without an IC, a cell is defined on day d exactly when its forcing was defined on days 1..d, whatever its weight |
| Prototype.ZeroIsFixedPoint | swamp.py:53-63 | without an IC and with zero forcing, every cell stays 0 |
| Prototype.CalcRuleIsScaledPrototype | swamp.py:63 | the 250 mm rule of the integrator is the prototype's 1000 mm rule with the weight multiplied by 4 |
| Prototype.RunGuarantees | swamp.py:31-63 | a successful script run has one field per day; day 0 is the IC or all zeros; every later defined value lies in [0, 1] |
| Prototype.Run | swamp.py:31-63 | the script checks the weights, allocates zeros, overwrites day 0 with a given IC and fills each later day from the day before, giving the specified series |
| Prototype.Series | swamp.py:53-63 | a zero-filled series with day 0 overwritten by a given IC, advanced day by day, is the integrated series from the start field |
| Prototype.Advance | swamp.py:60-63 | the loop writing day i from day i-1 turns an array holding the start field at day 0 into the integrated series |
| MaxMoist.Truncate | maxmoist.py:39 | `astype(int)` truncates toward zero: the result is within 1 of the input, and no larger in magnitude |
| MaxMoist.TruncateWhole | maxmoist.py:39 | whole-number ids are read back unchanged |
| MaxMoist.SiteIds | maxmoist.py:36-40 | succeeds exactly when the table has 107 rows with 107 different truncated ids; the error says which check failed; the ids are the truncated first column |
| MaxMoist.FoldMin | maxmoist.py:45-51 | the folded minimum never exceeds the sentinel 1000 |
| MaxMoist.FoldMax | maxmoist.py:46-52 | the folded maximum is never below the sentinel 0 |
| MaxMoist.FoldMinIsLowerBound | maxmoist.py:45-51 | the folded minimum is at most the sentinel 1000 and at most every yearly minimum |
| MaxMoist.FoldMinAttained | maxmoist.py:45-51 | the folded minimum is the sentinel or one of the yearly minima |
| MaxMoist.FoldMaxIsUpperBound | maxmoist.py:46-52 | the folded maximum is at least the sentinel 0 and at least every yearly maximum |
| MaxMoist.FoldMaxAttained | maxmoist.py:46-52 | the folded maximum is the sentinel or one of the yearly maxima |
| Grid.MaskValue | maxmoist.py:53-54 | `x[x == sentinel] = nan` for one value: undefined exactly when the value equals the sentinel, otherwise the value itself |
| MaxMoist.AggregateGuarantees | maxmoist.py:43-54 | dmin is undefined exactly when no yearly minimum is below 1000, and otherwise is the least yearly minimum (a bound, and attained); dmax dually with 0 |
| MaxMoist.Aggregate | maxmoist.py:43-54 | the file-by-file fold and the masking loop compute the specified extremes; a malformed or missing yearly table is an error |
| MaxMoist.Matches | maxmoist.py:67 | a row is selected exactly when it is in the table and its truncated id is the station's id |
| MaxMoist.LookupSpec | maxmoist.py:63-72 | succeeds exactly when no station id occurs twice in the table; a station absent from the table keeps undefined coordinates; a station found takes that row's latitude and longitude |
| MaxMoist.MatchesAtMostOne | maxmoist.py:67-69 | a station selects at most one row exactly when no two rows of the table carry its truncated id |
| MaxMoist.LookupDuplicate | maxmoist.py:63-72 | the lookup fails exactly when some station has two rows with its truncated id |
| MaxMoist.Lookup | maxmoist.py:63-72 | the loop over the stations computes the specified coordinates |
| MaxMoist.Table | maxmoist.py:36-75 | the script end to end (ids, extremes, coordinates, one record per station) computes its specification |
| Download.FieldNumbersParse | dl.py:42 | entry i of the expected numbering reads back as i + 1 |
| Download.ValidateHeader | dl.py:37-42 | accepted exactly when there are 3 lines, the first two have equally many fields, and field i of the first is `str(i + 1)`; the result is the column names; each failure is named |
| Download.HeaderRoundTrip | dl.py:37-42 | a header written as numbering, names and units is accepted and yields its names, whatever the unit line holds |
| Download.HasSiteColumns | dl.py:95-102 | `set(site_cols) < set(df)`: true exactly when every station column is present and some other column is too |
| Download.YearTables | dl.py:52-56 | succeeds exactly when every requested year is listed; table k is year k's download; a failure names the first unlisted year |
| Download.GetCrn | dl.py:37-102 | header check, the per-year loop over the distinct years, then the site-column check, as specified |
| Download.FetchYears | dl.py:54-92 | the loop appending one table per year computes the specified tables |
| Download.Choose | dl.py:162-170 | the stability is the first of stable, provisional, early whose file is listed; failure exactly when none is listed, as FileNotFound of the day |
| Download.ChooseStability | dl.py:165-170 | the `for ... else` search computes the specified choice |
| Download.ChoiceWarning | dl.py:171-174 | the choice warns exactly when it is not "stable", and a listed stable file is always chosen |
| Download.PrismDaySpec | dl.py:138-140 | a day fails with YearUnavailable exactly when its year is not listed; a listed year goes on to the file choice and the raster |
| Download.PrismFetch | dl.py:162-215 | a day whose listing has no file fails with FileNotFound; otherwise it succeeds exactly when the raster has 621*1405 values; the day carries its date, the chosen stability, a warning exactly when that is not "stable", and the 621 x 1405 grid whose cell (i, j) is undefined exactly when raster value i*1405 + j is -9999 and is that value otherwise |
| Download.PrismDays | dl.py:137-246 | succeeds exactly when every day succeeds; entry k is day k's result; a failure is the first failing day's error |
| Download.PrismGuarantees | dl.py:135-174 | one entry per distinct day, in order; the day's year is listed; its stability is the one `Choose` picks and its file is listed; it warned exactly when the stability is not "stable" |
| Download.GetPrism | dl.py:133-250 | the loop and the concatenation compute the specification; each year's listing is requested at most once, only for listed years, and for every year of a returned day |
| Download.FetchPrismDays | dl.py:137-246 | the loop with the per-year cache computes the specified days, with the same listing guarantees |
| Download.FetchPrismStep | dl.py:138-215 | one day of the loop: the year check, the cached listing of the year and the day's raster give that day's specified result; the cache only grows and keeps its invariant, and holds the day's year when the day succeeds |
| Download.CachedListing | dl.py:142-152 | returns the year's listing, requested once: cached afterwards, and recorded only on a miss |
| Download.FetchPrismDay | dl.py:162-215 | stability choice, raster size check, reshape and masking of one day compute its specification |
| Download.AlexiDays | dl.py:281-312 | succeeds exactly when every day succeeds; entry k is day k's result; a failure is the first failing day's error |
| Download.CountMissing | dl.py:279-310 | the missing-day counter never exceeds the number of days |
| Download.CountMissingAll | dl.py:317 | the counter equals the number of days exactly when every day is missing |
| Download.CountMissingSome | dl.py:319 | the counter is positive exactly when some day is missing |
| Download.AllUndefined | dl.py:337-339 | a missing day contributes a 625 x 1456 grid with every cell undefined |
| Download.Series | dl.py:306-315 | one grid per day: the loaded grid, or the all-undefined grid for a missing day |
| Download.LoadAlexi | dl.py:337-344 | loading succeeds exactly when the file holds 625*1456 values, and fails with RasterSize otherwise; the 625 x 1456 grid has cell (i, j) undefined exactly when value i*1456 + j is -9999, and that value otherwise |
| Download.AlexiAllMissing | dl.py:279-318 | `get_alexi` fails with AllMissing exactly when some day is requested, every requested day is listed, and no requested file is present |
| Download.AlexiNeedsPresentFile | dl.py:306-318 | a successful run had at least one requested file present |
| Download.AlexiGapFilling | dl.py:306-320 | a successful run gap-fills exactly when some requested file is absent |
| Download.AlexiUnfilledDays | dl.py:306-315 | without gap filling, day k is the loaded raster of the k-th distinct day |
| Download.GetAlexi | dl.py:279-320 | the loop with the missing-day counter, then the all-missing and gap-filling rules, computes the specification |
| Download.AlexiScanAsWritten | dl.py:281-312 | the loop as written: a successful scan has one grid per day, every file was present and grid k is the loaded raster of day k; its failures are an unlisted date, the missing-file crash or a raster size error |
| Download.AlexiAsWritten | dl.py:306-320 | as written, no requested day gives NoDays; a successful run never gap-fills, has one grid per distinct day, needs every file present, and the all-missing error is never reached |
| Download.AlexiMissingDayCrashes | dl.py:337-340 | for two listed days with the second file absent, the code as written fails, while the intended scan gap-fills |

## Left out

- Network and disk access are not modelled. This covers the HTTP requests, the regular expressions that extract listings from HTML pages, the cache files, zip extraction, and reading BIL, binary and text files. Listings, file presence and file contents are parameters.
- Date handling is left out: `pd.date_range` and the `strftime` formatting. Days arrive as consecutive integers (`Calc`, `Prototype`) or as already formatted strings (`Download`).
- The MetPy `interpolate_to_grid` call, the xarray `interp` onto the output grid and `interpolate_na(method="nearest")` are opaque function parameters.
- The forcing P - ET arrives as fields already on the output grid. Its construction from the PRISM and ALEXI datasets is not modelled.
- Floating point is not modelled. This covers float32 rasters, IEEE rounding and NaN propagation inside `np.minimum`/`np.maximum` of the yearly tables. Reals are exact, and NaN appears only as an undefined cell.
- `remove_nan_observations` is modelled as dropping rows whose reading is undefined. NaN coordinates of a station are not modelled. In `_ic_awc` the positions it returns are carried into the next depth's call (Calc.AwcIcAsWritten); pandas aligns the boolean mask on the row labels there, which the model states as filtering the carried rows.
- Calc.AwcIc: the lattice coordinates of the interpolated layers are not modelled. The combined field is labelled with the 20 cm lattice (swamp/calc.py:113), and layers of equal shape but different extent are added cell by cell, as the source does.
- Calc.LayerAsWritten: a length mismatch is modelled as the error PointCount for every `interp_type`. The default radial basis function (scipy Rbf) and the linear, nearest and cubic methods (scipy griddata) raise on it. The barnes, cressman and natural_neighbor methods index the readings by neighbour or vertex indices and silently pair positions with the wrong readings; for them PointCount stands for that mispairing, whose field is not modelled.
- Calc.Run uses the intended `Calc.AwcIc`. The code as written is `Calc.AwcIcAsWritten`.
- Text.Lower: only ASCII letters are lowered. Python's full Unicode case mapping is not modelled.
- Warnings are not modelled, except the PRISM stability warning. This includes empty listings, an empty CRN table and a missing ALEXI file. The printing of URLs and of missing stations is not modelled either.
- In `get_crn`, the `dropna` over the data columns and the selection of the requested dates are not modelled; the tables are opaque values. The header download and `splitlines` happen before the model: the header arrives as its lines.
- Download.HasSiteColumns: the site-column test is applied to the columns named by the header. The source (dl.py:102) tests the columns of the last year's table, which may come from an older cache file with other columns; the model assumes every table has the header's columns.
- Calc.Run uses the corrected dispatch `Calc.Dispatch`. The code as written is `Calc.DispatchAsWritten`.
- Download.GetAlexi follows the evidently intended handling of a missing file. The code as written is `Download.AlexiAsWritten`.
- Download.GetPrism: states that each year's listing is requested at most once and only for listed years, not the order of those requests.
- Calc.CrnIc: the xarray `interp` onto the output grid is a parameter that always returns a 720 x 1150 field. Its coordinates and interpolation are not modelled, so only a supplied IC can have the wrong shape. Calc.AwcIc relies on the same assumption.
- Calc.IcField: a supplied IC of a shape other than 720 x 1150 is an IcShape error. xarray broadcasting of such an IC into day 0 is not modelled.
- Prototype.Run: likewise, an `ic` that is not 720 x 1150 is an IcShape error. What the `.loc` assignment into day 0 (swamp.py:57) does with it, broadcasting or raising, is not modelled.
- Plotting (`maxmoist.py` after line 77) and the `alexi-et-missing.py`/`try-oa.py` scratch scripts are not part of this model.

## Findings

| source | as written | input that shows it | evidently intended | confidence | as-written member | corrected member |
|---|---|---|---|---|---|---|
| swamp/calc.py:175 | `ic == 0` on an `xr.DataArray` IC gives an array, and `or` then asks for its truth value, which raises ValueError for more than one cell | any 720 x 1150 field passed as `ic` | a supplied DataArray is used as the IC, as the docstring at line 136 says | high; not executed | Calc.DispatchAsWritten | Calc.Dispatch |
| swamp/calc.py:103 | `remove_nan_observations` rebinds `x, y` to the positions kept at 5 cm. The 10 cm call filters those positions by the 10 cm mask, but the 10 cm readings only by their own mask; the 20 cm call does the same. Positions and readings then differ in length and the interpolation raises ValueError | three stations at distinct positions: the first with 5 cm reading -99 and 10 cm reading 0.2, the other two read at every depth (with one 5 cm point the default rbf call at line 99 would already fail) | every depth is interpolated from its own stations' positions, as in `_ic_crn` | high; not executed | Calc.AwcIcAsWritten | Calc.AwcIc |
| dl.py:309 | `load_alexi(None)` formats `fp.name` with `fp` None (line 340) and raises AttributeError, so `n_missing_days` is never incremented and lines 317-320 are unreachable | days 2022001 and 2022002, both listed, with only the first file present | a missing day contributes an all-NaN grid that is later gap-filled | high; not executed | Download.AlexiAsWritten | Download.GetAlexi |
