/**
 * The SWAMP soil-moisture integrator (swamp/calc.py).
 *
 * A run masks the static weighting coefficients, picks an initial condition
 * (IC) for day 0, and then advances every grid cell independently by the
 * water-balance recurrence
 *
 *   sm[i] = clip((250 * sm[i-1] + c * f[i]) / 250, 0, 1)
 *
 * where `f[i]` is the precipitation-minus-evapotranspiration forcing of day i
 * in millimetres and 250 mm is the depth of the modelled soil layer.
 */
module Calc {
  import opened Wrappers
  import opened Grid
  import Text

  /** Depth of the soil layer of interest, in cm and in mm. */
  const SOIL_DEPTH_CM: int := 25
  const SOIL_DEPTH_MM: real := (SOIL_DEPTH_CM * 10) as real

  /** The exceptions `run` can raise. */
  datatype Error =
    | CoeffShape      // the shape assertion on the weight files fails
    | EmptyRange      // [start, end] holds no day: there is nothing to concatenate
    | InvalidIc       // ValueError: invalid `ic` setting
    | AmbiguousTruth  // ValueError: the truth value of a multi-cell array is ambiguous
    | LayerShape      // the three interpolated AWC layers have different shapes
    | PointCount      // ValueError: the interpolation gets more readings than coordinates
    | IcShape         // the IC does not fit day 0 of the output grid

  // ---------------------------------------------------------------------------
  // Coefficient field
  // ---------------------------------------------------------------------------

  /** `c.where(c > 0, nan)`: positive weights are kept, every other weight is undefined. */
  function MaskCoeffs(raw: seq<seq<real>>): (c: Field)
    ensures SameShape(c, raw)
    ensures forall i, j :: 0 <= i < |raw| && 0 <= j < |raw[i]| ==>
      (c[i][j].Some? <==> raw[i][j] > 0.0) && (c[i][j].Some? ==> c[i][j].value == raw[i][j])
  {
    seq(|raw|, i requires 0 <= i < |raw| =>
      seq(|raw[i]|, j requires 0 <= j < |raw[i]| => if raw[i][j] > 0.0 then Some(raw[i][j]) else None))
  }

  /** The weights as read, every one of them defined (`mask_neg=False`). */
  function Unmasked(raw: seq<seq<real>>): (c: Field)
    ensures SameShape(c, raw)
    ensures forall i, j :: 0 <= i < |raw| && 0 <= j < |raw[i]| ==> c[i][j] == Some(raw[i][j])
  {
    seq(|raw|, i requires 0 <= i < |raw| => seq(|raw[i]|, j requires 0 <= j < |raw[i]| => Some(raw[i][j])))
  }

  /**
   * `_get_coeffs_ds`: both weight files must be 720 x 1150; the slope weights
   * become the coefficient field, masked when `maskNeg` holds.
   */
  function LoadCoeffs(slp: seq<seq<real>>, intw: seq<seq<real>>, maskNeg: bool): (r: Result<Field, Error>)
    ensures r.Ok? <==> Shaped(slp, NLAT, NLON) && Shaped(intw, NLAT, NLON)
    ensures r.Err? ==> r.error == CoeffShape
    ensures r.Ok? ==> Shaped(r.value, NLAT, NLON)
    ensures r.Ok? ==> r.value == if maskNeg then MaskCoeffs(slp) else Unmasked(slp)
  {
    if Shaped(slp, NLAT, NLON) && Shaped(intw, NLAT, NLON) then
      Ok(if maskNeg then MaskCoeffs(slp) else Unmasked(slp))
    else
      Err(CoeffShape)
  }

  // ---------------------------------------------------------------------------
  // Initial conditions
  // ---------------------------------------------------------------------------

  /** `_ic_zero`: 0 wherever `x` is defined, undefined wherever it is not (the land mask). */
  function ZeroIc(x: Field): (ic: Field)
    ensures SameShape(ic, x)
    ensures forall i, j :: 0 <= i < |x| && 0 <= j < |x[i]| ==>
      (ic[i][j].None? <==> x[i][j].None?) && (ic[i][j].Some? ==> ic[i][j].value == 0.0)
  {
    seq(|x|, i requires 0 <= i < |x| =>
      seq(|x[i]|, j requires 0 <= j < |x[i]| => if x[i][j].None? then None else Some(0.0)))
  }

  /** One row of the CRN daily table: station position and soil moisture at three depths. */
  datatype StationRow = StationRow(lon: Cell, lat: Cell, sm5: Cell, sm10: Cell, sm20: Cell)

  /** The soil-moisture columns SOIL_MOISTURE_{5,10,20}_DAILY. */
  datatype Depth = Cm5 | Cm10 | Cm20

  /** The reading the CRN files use for an invalid measurement. */
  const MISSING_READING: real := -99.0

  function Reading(row: StationRow, d: Depth): Cell
  {
    match d
    case Cm5 => row.sm5
    case Cm10 => row.sm10
    case Cm20 => row.sm20
  }

  /** `v.loc[v == -99] = nan` for one reading. */
  function MaskMissing(v: Cell): (r: Cell)
    ensures r.Some? <==> v.Some? && v.value != MISSING_READING
    ensures r.Some? ==> r == v
  {
    if v == Some(MISSING_READING) then None else v
  }

  /** A scattered observation handed to the interpolation service. */
  datatype Point = Point(lon: Cell, lat: Cell, value: real)

  /** The row survives the -99 masking and the removal of undefined values. */
  predicate Kept(row: StationRow, d: Depth) {
    MaskMissing(Reading(row, d)).Some?
  }

  function ToPoint(row: StationRow, d: Depth): Point
    requires Kept(row, d)
  {
    Point(row.lon, row.lat, Reading(row, d).value)
  }

  /** How many of `rows` survive the masking of depth `d`. */
  function KeptCount(rows: seq<StationRow>, d: Depth): (n: nat)
    ensures n <= |rows|
  {
    if rows == [] then 0 else (if Kept(rows[0], d) then 1 else 0) + KeptCount(rows[1..], d)
  }

  /**
   * The observations of one depth column: -99 readings are masked and then
   * `remove_nan_observations` drops every point whose value is undefined,
   * keeping the order of the table. No point carries -99, and every point
   * comes from a kept row.
   */
  function Observations(rows: seq<StationRow>, d: Depth): (pts: seq<Point>)
    ensures forall k :: 0 <= k < |pts| ==> pts[k].value != MISSING_READING
    ensures forall p :: p in pts ==> exists i :: 0 <= i < |rows| && Kept(rows[i], d) && p == ToPoint(rows[i], d)
  {
    if rows == [] then []
    else
      var rest := Observations(rows[1..], d);
      assert forall p :: p in rest ==> exists i :: 0 <= i < |rows| && Kept(rows[i], d) && p == ToPoint(rows[i], d) by {
        forall p | p in rest
          ensures exists i :: 0 <= i < |rows| && Kept(rows[i], d) && p == ToPoint(rows[i], d)
        {
          var i :| 0 <= i < |rows[1..]| && Kept(rows[1..][i], d) && p == ToPoint(rows[1..][i], d);
          assert rows[1..][i] == rows[i + 1];
        }
      }
      if Kept(rows[0], d) then [ToPoint(rows[0], d)] + rest else rest
  }

  /**
   * There is one observation per kept row, in the order of the table: the
   * point of kept row i comes right after the points of the kept rows before it.
   */
  lemma {:induction false} ObservationsInOrder(rows: seq<StationRow>, d: Depth)
    ensures var pts := Observations(rows, d);
      && |pts| == KeptCount(rows, d)
      && forall i :: 0 <= i < |rows| && Kept(rows[i], d) ==>
           KeptCount(rows[..i], d) < |pts| && pts[KeptCount(rows[..i], d)] == ToPoint(rows[i], d)
  {
    if rows != [] {
      var tail := rows[1..];
      var rest := Observations(tail, d);
      ObservationsInOrder(tail, d);
      var head := if Kept(rows[0], d) then 1 else 0;
      var pts := Observations(rows, d);
      assert pts == if Kept(rows[0], d) then [ToPoint(rows[0], d)] + rest else rest;
      assert rows[..0] == [];
      forall i | 1 <= i < |rows| && Kept(rows[i], d)
        ensures KeptCount(rows[..i], d) < |pts| && pts[KeptCount(rows[..i], d)] == ToPoint(rows[i], d)
      {
        assert rows[..i][1..] == tail[..i - 1];
        assert tail[i - 1] == rows[i];
        assert KeptCount(rows[..i], d) == head + KeptCount(tail[..i - 1], d);
      }
    }
  }

  /** A value of the interpolation settings (`interp_type`, `hres`, ...). */
  datatype OptionValue = Str(s: string) | Num(x: real)

  type Options = map<string, OptionValue>

  /** `_DEFAULT_METPY_INTERP_KWS`. */
  const DEFAULT_INTERP: Options := map["interp_type" := Str("rbf"), "hres" := Num(0.1)]

  /** `{**_DEFAULT_METPY_INTERP_KWS, **kwargs}`: the caller's settings override the defaults key by key. */
  function InterpOptions(kws: Options): (o: Options)
    ensures o.Keys == DEFAULT_INTERP.Keys + kws.Keys
    ensures forall k :: k in kws ==> o[k] == kws[k]
    ensures forall k :: k in DEFAULT_INTERP && k !in kws ==> o[k] == DEFAULT_INTERP[k]
  {
    DEFAULT_INTERP + kws
  }

  /** MetPy `interpolate_to_grid`: scattered points to a field on an intermediate lattice. */
  type Interpolator = (seq<Point>, Options) -> Field

  /** An all-undefined field on the output grid. */
  const UNDEFINED_GRID: Field := seq(NLAT, _ => seq(NLON, _ => None))

  /**
   * xarray `.interp(lat=GRID.lat, lon=GRID.lon)`: resampling onto the output
   * grid, whose coordinates make every result 720 x 1150.
   */
  type Regridder = regrid: Field -> Field | forall g :: Shaped(regrid(g), NLAT, NLON)
    witness (g: Field) => UNDEFINED_GRID

  /** The interpolated field of one depth column. */
  function Layer(rows: seq<StationRow>, d: Depth, kws: Options, interp: Interpolator): Field
  {
    interp(Observations(rows, d), InterpOptions(kws))
  }

  /**
   * `_ic_crn`: the 5 cm readings, -99 and undefined ones dropped, interpolated
   * with the merged settings and resampled onto the output grid.
   */
  function CrnIc(rows: seq<StationRow>, kws: Options, interp: Interpolator, regrid: Regridder): (ic: Field)
    ensures Shaped(ic, NLAT, NLON)
    ensures ic == regrid(interp(Observations(rows, Cm5), InterpOptions(kws)))
  {
    regrid(Layer(rows, Cm5, kws, interp))
  }

  /** Layer thicknesses (cm) weighting the 5, 10 and 20 cm readings. */
  const W5: real := 7.5
  const W10: real := 7.5
  const W20: real := 20.0

  /** `7.5 * v5 + 7.5 * v10 + 20 * v20` for one cell; NaN in any layer propagates. */
  function AwcCell(v5: Cell, v10: Cell, v20: Cell): (r: Cell)
    ensures r.Some? <==> v5.Some? && v10.Some? && v20.Some?
    ensures r.Some? ==> r.value == W5 * v5.value + W10 * v10.value + W20 * v20.value
  {
    if v5.Some? && v10.Some? && v20.Some? then Some(W5 * v5.value + W10 * v10.value + W20 * v20.value) else None
  }

  /** The available water content: the pointwise weighted sum of three equally shaped layers. */
  function AwcCombine(g5: Field, g10: Field, g20: Field): (g: Field)
    requires SameShape(g5, g10) && SameShape(g5, g20)
    ensures SameShape(g, g5)
    ensures forall i, j :: 0 <= i < |g5| && 0 <= j < |g5[i]| ==> g[i][j] == AwcCell(g5[i][j], g10[i][j], g20[i][j])
  {
    seq(|g5|, i requires 0 <= i < |g5| =>
      seq(|g5[i]|, j requires 0 <= j < |g5[i]| => AwcCell(g5[i][j], g10[i][j], g20[i][j])))
  }

  /**
   * `_ic_awc` as evidently intended: each layer is interpolated from the
   * stations read at its own depth, then the layers are combined and
   * resampled. The code as written is `AwcIcAsWritten`.
   */
  function AwcIc(rows: seq<StationRow>, kws: Options, interp: Interpolator, regrid: Regridder): (r: Result<Field, Error>)
    ensures r.Ok? <==> (SameShape(Layer(rows, Cm5, kws, interp), Layer(rows, Cm10, kws, interp))
                        && SameShape(Layer(rows, Cm5, kws, interp), Layer(rows, Cm20, kws, interp)))
    ensures r.Err? ==> r.error == LayerShape
    ensures r.Ok? ==> Shaped(r.value, NLAT, NLON)
    ensures r.Ok? ==> r.value == regrid(AwcCombine(Layer(rows, Cm5, kws, interp), Layer(rows, Cm10, kws, interp),
                                                   Layer(rows, Cm20, kws, interp)))
  {
    var g5, g10, g20 := Layer(rows, Cm5, kws, interp), Layer(rows, Cm10, kws, interp), Layer(rows, Cm20, kws, interp);
    if SameShape(g5, g10) && SameShape(g5, g20) then Ok(regrid(AwcCombine(g5, g10, g20))) else Err(LayerShape)
  }

  // ---------------------------------------------------------------------------
  // The AWC IC as written: the coordinates are carried from depth to depth
  // ---------------------------------------------------------------------------

  /**
   * The station positions `x, y` keep, as written, after the call for depth d:
   * each call rebinds them to the rows kept at its own depth among the rows
   * the shallower calls kept, while the readings are filtered at d alone.
   */
  predicate Carried(row: StationRow, d: Depth) {
    && Kept(row, d)
    && (d != Cm5 ==> Kept(row, Cm5))
    && (d == Cm20 ==> Kept(row, Cm10))
  }

  /** The coordinates handed to the interpolation of depth d as written, in table order. */
  function CarriedCoords(rows: seq<StationRow>, d: Depth): (xy: seq<(Cell, Cell)>)
    ensures |xy| <= KeptCount(rows, d)
  {
    if rows == [] then []
    else (if Carried(rows[0], d) then [(rows[0].lon, rows[0].lat)] else []) + CarriedCoords(rows[1..], d)
  }

  /** The readings handed to the interpolation of depth d: every kept reading, in table order. */
  function KeptValues(rows: seq<StationRow>, d: Depth): (vs: seq<real>)
    ensures |vs| == KeptCount(rows, d)
  {
    if rows == [] then []
    else (if Kept(rows[0], d) then [Reading(rows[0], d).value] else []) + KeptValues(rows[1..], d)
  }

  /** Every station read at depth d was also read at every shallower depth. */
  predicate ShallowerKept(rows: seq<StationRow>, d: Depth) {
    forall i :: 0 <= i < |rows| && Kept(rows[i], d) ==> Carried(rows[i], d)
  }

  /** Coordinates and readings paired position by position, as `interpolate_to_grid` reads them. */
  function Pair(xy: seq<(Cell, Cell)>, vs: seq<real>): (pts: seq<Point>)
    requires |xy| == |vs|
    ensures |pts| == |vs|
    ensures forall k :: 0 <= k < |pts| ==> pts[k] == Point(xy[k].0, xy[k].1, vs[k])
  {
    seq(|vs|, k requires 0 <= k < |vs| => Point(xy[k].0, xy[k].1, vs[k]))
  }

  /** Every station is read at the shallower depths exactly when the first is and all the others are. */
  lemma ShallowerKeptCons(rows: seq<StationRow>, d: Depth)
    requires rows != []
    ensures ShallowerKept(rows, d) <==> (Kept(rows[0], d) ==> Carried(rows[0], d)) && ShallowerKept(rows[1..], d)
  {
    var tail := rows[1..];
    if (Kept(rows[0], d) ==> Carried(rows[0], d)) && ShallowerKept(tail, d) {
      forall i | 0 <= i < |rows| && Kept(rows[i], d)
        ensures Carried(rows[i], d)
      {
        if i > 0 {
          assert rows[i] == tail[i - 1];
        }
      }
    }
    if ShallowerKept(rows, d) {
      forall i | 0 <= i < |tail| && Kept(tail[i], d)
        ensures Carried(tail[i], d)
      {
        assert tail[i] == rows[i + 1];
      }
    }
  }

  /**
   * The coordinates and readings of depth d have the same length exactly when
   * every station read at d was read at the shallower depths.
   */
  lemma {:induction false} CarriedCount(rows: seq<StationRow>, d: Depth)
    ensures |CarriedCoords(rows, d)| == |KeptValues(rows, d)| <==> ShallowerKept(rows, d)
  {
    if rows != [] {
      CarriedCount(rows[1..], d);
      ShallowerKeptCons(rows, d);
    }
  }

  /** When every station read at d was read at the shallower depths, the pairs are the observations of d. */
  lemma {:induction false} CarriedPairs(rows: seq<StationRow>, d: Depth)
    requires ShallowerKept(rows, d)
    ensures |CarriedCoords(rows, d)| == |KeptValues(rows, d)|
    ensures Pair(CarriedCoords(rows, d), KeptValues(rows, d)) == Observations(rows, d)
  {
    CarriedCount(rows, d);
    if rows != [] {
      var tail := rows[1..];
      ShallowerKeptCons(rows, d);
      CarriedPairs(tail, d);
      if Kept(rows[0], d) {
        PairCons((rows[0].lon, rows[0].lat), CarriedCoords(tail, d), Reading(rows[0], d).value, KeptValues(tail, d));
      }
    }
  }

  /** Pairing a longer pair of sequences puts the pair of their heads first. */
  lemma PairCons(p: (Cell, Cell), xy: seq<(Cell, Cell)>, v: real, vs: seq<real>)
    requires |xy| == |vs|
    ensures Pair([p] + xy, [v] + vs) == [Point(p.0, p.1, v)] + Pair(xy, vs)
  {
    var l, r := Pair([p] + xy, [v] + vs), [Point(p.0, p.1, v)] + Pair(xy, vs);
    forall k | 1 <= k < |l|
      ensures l[k] == r[k]
    {
      assert ([p] + xy)[k] == xy[k - 1] && ([v] + vs)[k] == vs[k - 1];
    }
  }

  /**
   * `interpolate_to_grid` for depth d as written: the positions carried from
   * the shallower calls paired with the readings of d. The interpolation
   * raises when it gets more readings than positions.
   */
  function LayerAsWritten(rows: seq<StationRow>, d: Depth, kws: Options, interp: Interpolator): (r: Result<Field, Error>)
    ensures r.Ok? <==> ShallowerKept(rows, d)
    ensures r.Err? ==> r.error == PointCount
    ensures r.Ok? ==> r.value == Layer(rows, d, kws, interp)
  {
    var xy, vs := CarriedCoords(rows, d), KeptValues(rows, d);
    CarriedCount(rows, d);
    if ShallowerKept(rows, d) then CarriedPairs(rows, d); Ok(interp(Pair(xy, vs), InterpOptions(kws)))
    else Err(PointCount)
  }

  /**
   * `_ic_awc` as written: the 5, 10 and 20 cm layers are interpolated in turn
   * with the carried positions, then combined and resampled. A station read
   * at a depth but not at a shallower one makes it fail; otherwise it is the
   * intended `AwcIc`.
   */
  function AwcIcAsWritten(rows: seq<StationRow>, kws: Options, interp: Interpolator, regrid: Regridder): (r: Result<Field, Error>)
    ensures ShallowerKept(rows, Cm10) && ShallowerKept(rows, Cm20) ==> r == AwcIc(rows, kws, interp, regrid)
    ensures !(ShallowerKept(rows, Cm10) && ShallowerKept(rows, Cm20)) ==> r == Err(PointCount)
  {
    var r5 := LayerAsWritten(rows, Cm5, kws, interp);
    var r10 := LayerAsWritten(rows, Cm10, kws, interp);
    var r20 := LayerAsWritten(rows, Cm20, kws, interp);
    if r5.Err? then r5
    else if r10.Err? then r10
    else if r20.Err? then r20
    else if SameShape(r5.value, r10.value) && SameShape(r5.value, r20.value) then
      Ok(regrid(AwcCombine(r5.value, r10.value, r20.value)))
    else Err(LayerShape)
  }

  /**
   * Three stations at distinct positions, the first with a -99 reading at
   * 5 cm but readings at 10 and 20 cm, the others read at every depth: the
   * 5 cm interpolation gets two well-spread points, but as written the 10 cm
   * interpolation gets three readings and two positions and fails, while with
   * every station's own position the IC is computed.
   */
  lemma AwcMissingShallowReadingFails(kws: Options, interp: Interpolator, regrid: Regridder)
    ensures var rows := [StationRow(Some(-100.0), Some(40.0), Some(MISSING_READING), Some(0.2), Some(0.3)),
                         StationRow(Some(-90.0), Some(35.0), Some(0.25), Some(0.25), Some(0.25)),
                         StationRow(Some(-80.0), Some(30.0), Some(0.3), Some(0.3), Some(0.3))];
      && AwcIcAsWritten(rows, kws, interp, regrid) == Err(PointCount)
      && AwcIc(rows, kws, (pts: seq<Point>, o: Options) => UNDEFINED_GRID, regrid).Ok?
  {
    var rows := [StationRow(Some(-100.0), Some(40.0), Some(MISSING_READING), Some(0.2), Some(0.3)),
                 StationRow(Some(-90.0), Some(35.0), Some(0.25), Some(0.25), Some(0.25)),
                 StationRow(Some(-80.0), Some(30.0), Some(0.3), Some(0.3), Some(0.3))];
    assert Kept(rows[0], Cm10) && !Carried(rows[0], Cm10);
  }

  /** The values the `ic` argument of `run` can take. */
  datatype Selector =
    | Unset                       // ic=None
    | Number(n: real)             // a Python int, float or bool
    | Name(s: string)             // a string
    | Precomputed(field: Field)   // an xr.DataArray
    | Unsupported                 // any other object

  /** The IC strategy a selector stands for. */
  datatype Strategy = ZeroStrategy | CrnStrategy | AwcStrategy | GivenStrategy(field: Field)

  /**
   * The IC dispatch of `run`: None, 0 or "zero" in any case select the zero IC,
   * "crn" and "awc" in any case the station strategies, a precomputed field is
   * used as is, and anything else is rejected.
   */
  function Dispatch(sel: Selector): (r: Result<Strategy, Error>)
    ensures r == Ok(ZeroStrategy) <==> sel == Unset || sel == Number(0.0) || (sel.Name? && Text.Lower(sel.s) == "zero")
    ensures r == Ok(CrnStrategy) <==> sel.Name? && Text.Lower(sel.s) == "crn"
    ensures r == Ok(AwcStrategy) <==> sel.Name? && Text.Lower(sel.s) == "awc"
    ensures sel.Precomputed? ==> r == Ok(GivenStrategy(sel.field))
    ensures r.Err? <==> (sel == Unsupported || (sel.Number? && sel.n != 0.0)
                         || (sel.Name? && Text.Lower(sel.s) != "zero" && Text.Lower(sel.s) != "crn" && Text.Lower(sel.s) != "awc"))
    ensures r.Err? ==> r.error == InvalidIc
  {
    match sel
    case Unset => Ok(ZeroStrategy)
    case Number(n) => if n == 0.0 then Ok(ZeroStrategy) else Err(InvalidIc)
    case Name(s) =>
      var lower := Text.Lower(s);
      if lower == "zero" then Ok(ZeroStrategy)
      else if lower == "crn" then Ok(CrnStrategy)
      else if lower == "awc" then Ok(AwcStrategy)
      else Err(InvalidIc)
    case Precomputed(f) => Ok(GivenStrategy(f))
    case Unsupported => Err(InvalidIc)
  }

  /**
   * The dispatch as written: for an array, `ic == 0` is an array of booleans
   * and `or` asks for its truth value, which numpy refuses for more than one
   * cell; a single cell holding 0 selects the zero IC, and any other field of
   * at most one cell (empty, undefined, non-zero) is used as given. For an
   * empty field this follows older numpy, where the truth value of an empty
   * array is False with a deprecation warning; numpy 2.2 and later raise there.
   */
  function DispatchAsWritten(sel: Selector): (r: Result<Strategy, Error>)
    ensures !sel.Precomputed? ==> r == Dispatch(sel)
    ensures sel.Precomputed? ==> (r == Err(AmbiguousTruth) <==> |Flatten(sel.field)| > 1)
    ensures sel.Precomputed? && |Flatten(sel.field)| <= 1 ==>
      (r == Ok(ZeroStrategy) <==> Flatten(sel.field) == [Some(0.0)]) &&
      (r != Ok(ZeroStrategy) ==> r == Dispatch(sel))
  {
    match sel
    case Precomputed(f) =>
      var cells := Flatten(f);
      if |cells| > 1 then Err(AmbiguousTruth)
      else if cells == [Some(0.0)] then Ok(ZeroStrategy)
      else Ok(GivenStrategy(f))
    case _ => Dispatch(sel)
  }

  /** A grid-shaped precomputed IC is rejected as written, though `run` documents it as accepted. */
  lemma PrecomputedGridIcRejected(f: Field)
    requires Shaped(f, NLAT, NLON)
    ensures DispatchAsWritten(Precomputed(f)) == Err(AmbiguousTruth)
    ensures Dispatch(Precomputed(f)) == Ok(GivenStrategy(f))
  {
    FlattenShaped(f, NLAT, NLON);
  }

  /** The dispatch does not depend on the case of the selector string. */
  lemma DispatchIgnoresCase(s: string)
    ensures Dispatch(Name(s)) == Dispatch(Name(Text.Lower(s)))
  {
    Text.LowerIdempotent(s);
  }

  /** The IC field of a strategy, on the masked coefficients `c`. */
  function IcField(strategy: Strategy, c: Field, rows: seq<StationRow>, kws: Options,
                   interp: Interpolator, regrid: Regridder): (r: Result<Field, Error>)
    ensures strategy == ZeroStrategy ==> r == Ok(ZeroIc(c))
    ensures strategy == CrnStrategy ==> r == Ok(CrnIc(rows, kws, interp, regrid))
    ensures strategy == AwcStrategy ==> r == AwcIc(rows, kws, interp, regrid)
    ensures strategy.GivenStrategy? ==> r == Ok(strategy.field)
    ensures r.Err? ==> strategy == AwcStrategy && r.error == LayerShape
    ensures r.Ok? && (strategy == CrnStrategy || strategy == AwcStrategy) ==> Shaped(r.value, NLAT, NLON)
  {
    match strategy
    case ZeroStrategy => Ok(ZeroIc(c))
    case CrnStrategy => Ok(CrnIc(rows, kws, interp, regrid))
    case AwcStrategy => AwcIc(rows, kws, interp, regrid)
    case GivenStrategy(f) => Ok(f)
  }

  // ---------------------------------------------------------------------------
  // The recurrence
  // ---------------------------------------------------------------------------

  /** The day's forcing weighted by the cell's coefficient, `c * f`, in mm of water. */
  function Weighted(c: real, f: real): real {
    c * f
  }

  /** One cell of one day: `clip((250 * prev + c * f) / 250, 0, 1)`, undefined if any input is. */
  function StepCell(prev: Cell, c: Cell, f: Cell): (r: Cell)
    ensures r.Some? <==> prev.Some? && c.Some? && f.Some?
    ensures r.Some? ==> 0.0 <= r.value <= 1.0
  {
    if prev.Some? && c.Some? && f.Some? then
      Some(Clip((SOIL_DEPTH_MM * prev.value + Weighted(c.value, f.value)) / SOIL_DEPTH_MM))
    else
      None
  }

  /** Forcing that adds at least a full layer of water saturates the cell. */
  lemma StepCellSaturates(prev: real, c: real, f: real)
    requires prev >= 0.0 && c * f >= SOIL_DEPTH_MM
    ensures StepCell(Some(prev), Some(c), Some(f)) == Some(1.0)
  {
  }

  /** Forcing that removes at least a full layer of water dries the cell. */
  lemma StepCellDries(prev: real, c: real, f: real)
    requires prev <= 1.0 && c * f <= -SOIL_DEPTH_MM
    ensures StepCell(Some(prev), Some(c), Some(f)) == Some(0.0)
  {
  }

  /**
   * A per-cell update rule: the new value of a cell from its previous value,
   * its coefficient and its forcing of the day. `StepCell` is the rule of
   * `run`; the prototype script has its own.
   */
  type Rule = (Cell, Cell, Cell) -> Cell

  /** One day of the whole grid: cell (i, j) depends on cell (i, j) of the inputs only. */
  function StepField(rule: Rule, prev: Field, c: Field, f: Field): (r: Field)
    requires SameShape(prev, c) && SameShape(c, f)
    ensures SameShape(r, c)
    ensures forall i, j :: 0 <= i < |c| && 0 <= j < |c[i]| ==> r[i][j] == rule(prev[i][j], c[i][j], f[i][j])
  {
    seq(|c|, i requires 0 <= i < |c| =>
      seq(|c[i]|, j requires 0 <= j < |c[i]| => rule(prev[i][j], c[i][j], f[i][j])))
  }

  /** The IC, the coefficients and every forcing field lie on one lattice. */
  predicate Conformable(ic: Field, c: Field, forcing: seq<Field>) {
    SameShape(ic, c) && forall k :: 0 <= k < |forcing| ==> SameShape(forcing[k], c)
  }

  /**
   * The soil-moisture field of day `d`: the IC on day 0; on a later day each
   * cell is the rule applied to the same cell of the day before, its
   * coefficient and its forcing of day `d`.
   */
  function Day(rule: Rule, ic: Field, c: Field, forcing: seq<Field>, d: nat): (sm: Field)
    requires Conformable(ic, c, forcing) && d < |forcing|
    ensures SameShape(sm, c)
    ensures d == 0 ==> sm == ic
    decreases d
  {
    if d == 0 then ic else StepField(rule, Day(rule, ic, c, forcing, d - 1), c, forcing[d])
  }

  /**
   * On a day after day 0, each cell is the rule applied to the same cell of
   * the day before, its coefficient and its forcing of the day.
   */
  lemma DayCell(rule: Rule, ic: Field, c: Field, forcing: seq<Field>, d: nat, i: nat, j: nat)
    requires Conformable(ic, c, forcing) && 0 < d < |forcing| && i < |c| && j < |c[i]|
    ensures Day(rule, ic, c, forcing, d)[i][j] == rule(Day(rule, ic, c, forcing, d - 1)[i][j], c[i][j], forcing[d][i][j])
  {
  }

  /** A day after day 0 is the rule applied to the day before it. */
  lemma DayStep(rule: Rule, ic: Field, c: Field, forcing: seq<Field>, d: nat)
    requires Conformable(ic, c, forcing) && 0 < d < |forcing|
    ensures SameShape(Day(rule, ic, c, forcing, d - 1), c)
    ensures Day(rule, ic, c, forcing, d) == StepField(rule, Day(rule, ic, c, forcing, d - 1), c, forcing[d])
  {
  }

  /** The whole series: one field per forcing day. */
  function Integrate(rule: Rule, ic: Field, c: Field, forcing: seq<Field>): (sm: seq<Field>)
    requires Conformable(ic, c, forcing)
    ensures |sm| == |forcing|
    ensures forall k :: 0 <= k < |sm| ==> sm[k] == Day(rule, ic, c, forcing, k)
  {
    seq(|forcing|, k requires 0 <= k < |forcing| => Day(rule, ic, c, forcing, k))
  }

  /**
   * Every defined value after day 0 lies in [0, 1], and a cell with an
   * undefined coefficient is undefined on every day after day 0.
   */
  lemma DayBoundsAndMask(ic: Field, c: Field, forcing: seq<Field>, d: nat, i: nat, j: nat)
    requires Conformable(ic, c, forcing) && 1 <= d < |forcing|
    requires i < |c| && j < |c[i]|
    ensures Day(StepCell, ic, c, forcing, d)[i][j].Some? ==> 0.0 <= Day(StepCell, ic, c, forcing, d)[i][j].value <= 1.0
    ensures c[i][j].None? ==> Day(StepCell, ic, c, forcing, d)[i][j].None?
  {
  }

  /**
   * Started from the zero IC, a cell is defined on day d exactly when its
   * coefficient is defined and its forcing was defined on every day 1..d.
   */
  lemma {:induction false} ZeroIcDefined(c: Field, forcing: seq<Field>, d: nat, i: nat, j: nat)
    requires Conformable(ZeroIc(c), c, forcing) && d < |forcing|
    requires i < |c| && j < |c[i]|
    ensures Day(StepCell, ZeroIc(c), c, forcing, d)[i][j].Some? <==>
      c[i][j].Some? && forall e :: 1 <= e <= d ==> forcing[e][i][j].Some?
  {
    if d > 0 {
      ZeroIcDefined(c, forcing, d - 1, i, j);
    }
  }

  /** Started from the zero IC, a cell outside the coefficient mask is undefined on every day. */
  lemma ZeroIcMaskedEveryDay(c: Field, forcing: seq<Field>, d: nat, i: nat, j: nat)
    requires Conformable(ZeroIc(c), c, forcing) && d < |forcing|
    requires i < |c| && j < |c[i]| && c[i][j].None?
    ensures Day(StepCell, ZeroIc(c), c, forcing, d)[i][j].None?
  {
    ZeroIcDefined(c, forcing, d, i, j);
  }

  /**
   * A cell whose forcing is 0 on days 1..d keeps its day-0 value, provided
   * that value is in [0, 1]; in particular 0 is a fixed point.
   */
  lemma {:induction false} UnforcedCellKeepsValue(ic: Field, c: Field, forcing: seq<Field>, d: nat, i: nat, j: nat, v: real)
    requires Conformable(ic, c, forcing) && d < |forcing|
    requires i < |c| && j < |c[i]| && c[i][j].Some?
    requires ic[i][j] == Some(v) && 0.0 <= v <= 1.0
    requires forall e :: 1 <= e <= d ==> forcing[e][i][j] == Some(0.0)
    ensures Day(StepCell, ic, c, forcing, d)[i][j] == Some(v)
  {
    if d > 0 {
      UnforcedCellKeepsValue(ic, c, forcing, d - 1, i, j, v);
    }
  }

  /** Once saturated, a cell stays at 1 while its weighted forcing is not negative. */
  lemma {:induction false} SaturationPersists(ic: Field, c: Field, forcing: seq<Field>, s: nat, d: nat, i: nat, j: nat)
    requires Conformable(ic, c, forcing) && s <= d < |forcing|
    requires i < |c| && j < |c[i]| && c[i][j].Some?
    requires Day(StepCell, ic, c, forcing, s)[i][j] == Some(1.0)
    requires forall e :: s < e <= d ==> forcing[e][i][j].Some? && c[i][j].value * forcing[e][i][j].value >= 0.0
    ensures Day(StepCell, ic, c, forcing, d)[i][j] == Some(1.0)
  {
    if d > s {
      SaturationPersists(ic, c, forcing, s, d - 1, i, j);
    }
  }

  /** Once dry, a cell stays at 0 while its weighted forcing is not positive. */
  lemma {:induction false} DrynessPersists(ic: Field, c: Field, forcing: seq<Field>, s: nat, d: nat, i: nat, j: nat)
    requires Conformable(ic, c, forcing) && s <= d < |forcing|
    requires i < |c| && j < |c[i]| && c[i][j].Some?
    requires Day(StepCell, ic, c, forcing, s)[i][j] == Some(0.0)
    requires forall e :: s < e <= d ==> forcing[e][i][j].Some? && c[i][j].value * forcing[e][i][j].value <= 0.0
    ensures Day(StepCell, ic, c, forcing, d)[i][j] == Some(0.0)
  {
    if d > s {
      DrynessPersists(ic, c, forcing, s, d - 1, i, j);
    }
  }

  // ---------------------------------------------------------------------------
  // run
  // ---------------------------------------------------------------------------

  /** Number of days of `pd.date_range(start, end, freq="D")`, with days numbered consecutively. */
  function DayCount(start: int, end: int): (n: nat)
    ensures n > 0 <==> start <= end
    ensures n > 0 ==> n == end - start + 1
  {
    if start <= end then end - start + 1 else 0
  }

  /** Fields on the output grid are conformable. */
  lemma GridConformable(ic: Field, c: Field, forcing: seq<Field>)
    requires Shaped(ic, NLAT, NLON) && Shaped(c, NLAT, NLON)
    requires forall k :: 0 <= k < |forcing| ==> Shaped(forcing[k], NLAT, NLON)
    ensures Conformable(ic, c, forcing)
  {
  }

  /** The `ic_kws` settings: none given is an empty dictionary. */
  function Settings(kws: Option<Options>): Options {
    if kws.Some? then kws.value else map[]
  }

  /** What `run` computes, or the error it raises first. */
  function RunSpec(start: int, end: int, slp: seq<seq<real>>, intw: seq<seq<real>>, forcing: seq<Field>,
                   sel: Selector, kws: Option<Options>, rows: seq<StationRow>,
                   interp: Interpolator, regrid: Regridder): Result<seq<Field>, Error>
    requires start <= end ==> |forcing| == DayCount(start, end)
    requires forall k :: 0 <= k < |forcing| ==> Shaped(forcing[k], NLAT, NLON)
  {
    var c :- LoadCoeffs(slp, intw, true);
    if DayCount(start, end) == 0 then Err(EmptyRange)
    else
      var strategy :- Dispatch(sel);
      var ic :- IcField(strategy, c, rows, Settings(kws), interp, regrid);
      if !Shaped(ic, NLAT, NLON) then Err(IcShape)
      else
        GridConformable(ic, c, forcing);
        Ok(Integrate(StepCell, ic, c, forcing))
  }

  /**
   * The IC of a run: day 0 of a successful run is the IC of the selected
   * strategy (the zero IC on the masked weights, the CRN or AWC field, or the
   * supplied field), and only a supplied IC can have the wrong shape.
   */
  lemma RunInitialCondition(start: int, end: int, slp: seq<seq<real>>, intw: seq<seq<real>>, forcing: seq<Field>,
                            sel: Selector, kws: Option<Options>, rows: seq<StationRow>,
                            interp: Interpolator, regrid: Regridder)
    requires start <= end ==> |forcing| == DayCount(start, end)
    requires forall k :: 0 <= k < |forcing| ==> Shaped(forcing[k], NLAT, NLON)
    ensures var r := RunSpec(start, end, slp, intw, forcing, sel, kws, rows, interp, regrid);
      r.Ok? ==>
        && |r.value| > 0
        && ((sel == Unset || sel == Number(0.0) || (sel.Name? && Text.Lower(sel.s) == "zero")) ==>
              r.value[0] == ZeroIc(MaskCoeffs(slp)))
        && (sel.Name? && Text.Lower(sel.s) == "crn" ==> r.value[0] == CrnIc(rows, Settings(kws), interp, regrid))
        && (sel.Name? && Text.Lower(sel.s) == "awc" ==> Ok(r.value[0]) == AwcIc(rows, Settings(kws), interp, regrid))
        && (sel.Precomputed? ==> r.value[0] == sel.field)
    ensures RunSpec(start, end, slp, intw, forcing, sel, kws, rows, interp, regrid) == Err(IcShape) ==> sel.Precomputed?
  {
    RunDayZero(start, end, slp, intw, forcing, sel, kws, rows, interp, regrid);
  }

  /** Day 0 of a successful run is the IC of the dispatched strategy. */
  lemma RunDayZero(start: int, end: int, slp: seq<seq<real>>, intw: seq<seq<real>>, forcing: seq<Field>,
                   sel: Selector, kws: Option<Options>, rows: seq<StationRow>,
                   interp: Interpolator, regrid: Regridder)
    requires start <= end ==> |forcing| == DayCount(start, end)
    requires forall k :: 0 <= k < |forcing| ==> Shaped(forcing[k], NLAT, NLON)
    ensures var r := RunSpec(start, end, slp, intw, forcing, sel, kws, rows, interp, regrid);
      r.Ok? ==>
        && |r.value| > 0
        && Dispatch(sel).Ok?
        && Shaped(slp, NLAT, NLON)
        && Ok(r.value[0]) == IcField(Dispatch(sel).value, MaskCoeffs(slp), rows, Settings(kws), interp, regrid)
    ensures RunSpec(start, end, slp, intw, forcing, sel, kws, rows, interp, regrid) == Err(IcShape) ==>
      Dispatch(sel).Ok? && IcField(Dispatch(sel).value, MaskCoeffs(slp), rows, Settings(kws), interp, regrid).Ok?
  {
    var r := RunSpec(start, end, slp, intw, forcing, sel, kws, rows, interp, regrid);
    if r.Ok? {
      var c := LoadCoeffs(slp, intw, true).value;
      var ic := IcField(Dispatch(sel).value, c, rows, Settings(kws), interp, regrid).value;
      assert r.value == Integrate(StepCell, ic, c, forcing);
    }
  }

  /**
   * What a successful `run` guarantees: one grid-shaped field per day of
   * [start, end], every defined value after day 0 lies in [0, 1], and cells
   * whose weight is not positive are undefined after day 0.
   */
  lemma RunGuarantees(start: int, end: int, slp: seq<seq<real>>, intw: seq<seq<real>>, forcing: seq<Field>,
                      sel: Selector, kws: Option<Options>, rows: seq<StationRow>,
                      interp: Interpolator, regrid: Regridder)
    requires start <= end ==> |forcing| == DayCount(start, end)
    requires forall k :: 0 <= k < |forcing| ==> Shaped(forcing[k], NLAT, NLON)
    ensures var r := RunSpec(start, end, slp, intw, forcing, sel, kws, rows, interp, regrid);
      r.Ok? ==>
        && start <= end
        && |r.value| == end - start + 1
        && (forall k :: 0 <= k < |r.value| ==> Shaped(r.value[k], NLAT, NLON))
        && (forall k, i, j :: 1 <= k < |r.value| && 0 <= i < NLAT && 0 <= j < NLON && r.value[k][i][j].Some? ==>
              0.0 <= r.value[k][i][j].value <= 1.0)
        && (forall k, i, j :: 1 <= k < |r.value| && 0 <= i < NLAT && 0 <= j < NLON && slp[i][j] <= 0.0 ==>
              r.value[k][i][j].None?)
  {
    var r := RunSpec(start, end, slp, intw, forcing, sel, kws, rows, interp, regrid);
    if r.Ok? {
      var c := LoadCoeffs(slp, intw, true).value;
      var ic := IcField(Dispatch(sel).value, c, rows, Settings(kws), interp, regrid).value;
      assert r.value == Integrate(StepCell, ic, c, forcing);
      SeriesGuarantees(ic, slp, forcing);
    }
  }

  /** `RunGuarantees` for the series integrated from a grid-shaped IC with the masked weights. */
  lemma SeriesGuarantees(ic: Field, slp: seq<seq<real>>, forcing: seq<Field>)
    requires Shaped(ic, NLAT, NLON) && Shaped(slp, NLAT, NLON)
    requires forall k :: 0 <= k < |forcing| ==> Shaped(forcing[k], NLAT, NLON)
    requires Conformable(ic, MaskCoeffs(slp), forcing)
    ensures var sm := Integrate(StepCell, ic, MaskCoeffs(slp), forcing);
      && (forall k :: 0 <= k < |sm| ==> Shaped(sm[k], NLAT, NLON))
      && (forall k, i, j :: 1 <= k < |sm| && 0 <= i < NLAT && 0 <= j < NLON && sm[k][i][j].Some? ==>
            0.0 <= sm[k][i][j].value <= 1.0)
      && (forall k, i, j :: 1 <= k < |sm| && 0 <= i < NLAT && 0 <= j < NLON && slp[i][j] <= 0.0 ==>
            sm[k][i][j].None?)
  {
    var c := MaskCoeffs(slp);
    var sm: seq<Field> := Integrate(StepCell, ic, c, forcing);
    forall k | 0 <= k < |sm|
      ensures Shaped(sm[k], NLAT, NLON)
    {
      assert SameShape(sm[k], ic);
    }
    forall k: int, i: int, j: int | 1 <= k < |sm| && 0 <= i < NLAT && 0 <= j < NLON
      ensures sm[k][i][j].Some? ==> 0.0 <= sm[k][i][j].value <= 1.0
      ensures slp[i][j] <= 0.0 ==> sm[k][i][j].None?
    {
      DayBoundsAndMask(ic, c, forcing, k, i, j);
    }
  }

  /**
   * `run`: the series is preallocated, day 0 receives the IC and each later
   * day is written from the day before it.
   */
  method Run(start: int, end: int, slp: seq<seq<real>>, intw: seq<seq<real>>, forcing: seq<Field>,
             sel: Selector, kws: Option<Options>, rows: seq<StationRow>,
             interp: Interpolator, regrid: Regridder) returns (r: Result<seq<Field>, Error>)
    requires start <= end ==> |forcing| == DayCount(start, end)
    requires forall k :: 0 <= k < |forcing| ==> Shaped(forcing[k], NLAT, NLON)
    ensures r == RunSpec(start, end, slp, intw, forcing, sel, kws, rows, interp, regrid)
  {
    var coeffs := LoadCoeffs(slp, intw, true);
    if coeffs.Err? {
      return Err(coeffs.error);
    }
    var c := coeffs.value;
    var ntime := DayCount(start, end);
    if ntime == 0 {
      return Err(EmptyRange);
    }
    var options: Options := Settings(kws);
    var strategy := Dispatch(sel);
    if strategy.Err? {
      return Err(strategy.error);
    }
    var icr := IcField(strategy.value, c, rows, options, interp, regrid);
    if icr.Err? {
      return Err(icr.error);
    }
    var ic := icr.value;
    if !Shaped(ic, NLAT, NLON) {
      return Err(IcShape);
    }
    GridConformable(ic, c, forcing);
    var sm := TimeStep(ic, c, forcing);
    r := Ok(sm);
  }

  /**
   * The time loop of `run`: a preallocated series whose day 0 is the IC and
   * whose day i is written from day i - 1 and the forcing of day i.
   */
  method TimeStep(ic: Field, c: Field, forcing: seq<Field>) returns (series: seq<Field>)
    requires Conformable(ic, c, forcing) && |forcing| > 0
    ensures series == Integrate(StepCell, ic, c, forcing)
  {
    var sm := new Field[|forcing|];
    sm[0] := ic;
    ghost var spec := Integrate(StepCell, ic, c, forcing);
    for i := 1 to |forcing|
      invariant sm[..i] == spec[..i]
    {
      DayStep(StepCell, ic, c, forcing, i);
      assert sm[i - 1] == spec[i - 1];
      sm[i] := StepField(StepCell, sm[i - 1], c, forcing[i]);
      assert sm[..i + 1] == sm[..i] + [sm[i]];
    }
    series := sm[..];
    assert series == sm[..|forcing|];
  }

  // ---------------------------------------------------------------------------
  // A small worked example
  // ---------------------------------------------------------------------------

  /**
   * On a 2 x 2 grid with weights [[1, 1], [1, undefined]] and two days of zero
   * forcing, the zero IC gives two fields: the masked cell undefined, the
   * other three cells 0 on both days.
   */
  lemma TwoByTwoZeroForcing()
    ensures var c: Field := [[Some(1.0), Some(1.0)], [Some(1.0), None]];
            var zero: Field := [[Some(0.0), Some(0.0)], [Some(0.0), Some(0.0)]];
            Conformable(ZeroIc(c), c, [zero, zero])
            && Integrate(StepCell, ZeroIc(c), c, [zero, zero]) == [[[Some(0.0), Some(0.0)], [Some(0.0), None]],
                                                        [[Some(0.0), Some(0.0)], [Some(0.0), None]]]
  {
    var c: Field := [[Some(1.0), Some(1.0)], [Some(1.0), None]];
    var zero: Field := [[Some(0.0), Some(0.0)], [Some(0.0), Some(0.0)]];
    var expected: Field := [[Some(0.0), Some(0.0)], [Some(0.0), None]];
    assert ZeroIc(c) == expected by {
      assert ZeroIc(c)[0] == expected[0];
      assert ZeroIc(c)[1] == expected[1];
    }
    assert Day(StepCell, ZeroIc(c), c, [zero, zero], 1) == expected by {
      var d1 := StepField(StepCell, expected, c, zero);
      assert d1[0] == expected[0];
      assert d1[1] == expected[1];
    }
  }
}
