/**
 * The earlier prototype integrator (swamp.py): the same time loop as `Calc`,
 * but the series starts as all zeros, the IC replaces day 0 only when one is
 * given, the coefficients are used as read (no masking), and a day advances by
 *
 *   sm[i] = clip(sm[i-1] + c * f[i] / 1000, 0, 1).
 */
module Prototype {
  import opened Wrappers
  import opened Grid
  import Calc

  /** The prototype divides the weighted forcing by a fixed 1000 mm. */
  const DIVISOR_MM: real := 1000.0

  /** The failures of the script. */
  datatype Error =
    | CoeffShape  // the shape assertion on the weight files fails
    | EmptyRange  // [start, end] holds no day: there is nothing to concatenate
    | IcShape     // the IC does not fit day 0 of the output grid

  /**
   * One cell of one day: `clip(prev + c * f / 1000, 0, 1)`; NaN in any input
   * propagates. The script's weights are read from file and always defined
   * (see `Calc.Unmasked`), so in a run only `prev` and `f` can be undefined.
   */
  function StepCell(prev: Cell, c: Cell, f: Cell): (r: Cell)
    ensures r.Some? <==> prev.Some? && c.Some? && f.Some?
    ensures r.Some? ==> 0.0 <= r.value <= 1.0
  {
    if prev.Some? && c.Some? && f.Some? then Some(Clip(prev.value + Calc.Weighted(c.value, f.value) / DIVISOR_MM)) else None
  }

  /** `np.zeros` on the lattice of `c`. */
  function Zeros(c: seq<seq<real>>): (z: Field)
    ensures SameShape(z, c)
    ensures forall i, j :: 0 <= i < |c| && 0 <= j < |c[i]| ==> z[i][j] == Some(0.0)
  {
    seq(|c|, i requires 0 <= i < |c| => seq(|c[i]|, j requires 0 <= j < |c[i]| => Some(0.0)))
  }

  /** Day 0: the IC when one is given, the zeros the series starts with otherwise. */
  function Start(c: seq<seq<real>>, ic: Option<Field>): (s: Field)
    ensures ic.None? ==> s == Zeros(c)
    ensures ic.Some? ==> s == ic.value
  {
    if ic.Some? then ic.value else Zeros(c)
  }

  /**
   * Every defined value after day 0 lies in [0, 1]. The script's weights are
   * the raw slope weights, all defined (`Calc.Unmasked`).
   */
  lemma DayBounds(start: Field, slp: seq<seq<real>>, forcing: seq<Field>, d: nat, i: nat, j: nat)
    requires Calc.Conformable(start, Calc.Unmasked(slp), forcing) && 1 <= d < |forcing|
    requires i < |slp| && j < |slp[i]|
    ensures Calc.Day(StepCell, start, Calc.Unmasked(slp), forcing, d)[i][j].Some? ==>
      0.0 <= Calc.Day(StepCell, start, Calc.Unmasked(slp), forcing, d)[i][j].value <= 1.0
  {
    Calc.DayCell(StepCell, start, Calc.Unmasked(slp), forcing, d, i, j);
  }

  /**
   * Without an IC, a cell is defined on day d exactly when its forcing was
   * defined on every day 1..d, whatever the sign of its weight.
   */
  lemma {:induction false} ZeroStartDefined(slp: seq<seq<real>>, forcing: seq<Field>, d: nat, i: nat, j: nat)
    requires Calc.Conformable(Zeros(slp), Calc.Unmasked(slp), forcing) && d < |forcing|
    requires i < |slp| && j < |slp[i]|
    ensures Calc.Day(StepCell, Zeros(slp), Calc.Unmasked(slp), forcing, d)[i][j].Some? <==>
      forall e :: 1 <= e <= d ==> forcing[e][i][j].Some?
  {
    if d > 0 {
      ZeroStartDefined(slp, forcing, d - 1, i, j);
      Calc.DayCell(StepCell, Zeros(slp), Calc.Unmasked(slp), forcing, d, i, j);
    }
  }

  /** Without an IC and with zero forcing, every cell stays 0 on every day. */
  lemma {:induction false} ZeroIsFixedPoint(slp: seq<seq<real>>, forcing: seq<Field>, d: nat, i: nat, j: nat)
    requires Calc.Conformable(Zeros(slp), Calc.Unmasked(slp), forcing) && d < |forcing|
    requires i < |slp| && j < |slp[i]|
    requires forall e :: 1 <= e <= d ==> forcing[e][i][j] == Some(0.0)
    ensures Calc.Day(StepCell, Zeros(slp), Calc.Unmasked(slp), forcing, d)[i][j] == Some(0.0)
  {
    if d > 0 {
      ZeroIsFixedPoint(slp, forcing, d - 1, i, j);
      Calc.DayCell(StepCell, Zeros(slp), Calc.Unmasked(slp), forcing, d, i, j);
    }
  }

  /**
   * The two rules compared: the 250 mm rule of `Calc` is the prototype's
   * 1000 mm rule with the weight multiplied by 4.
   */
  lemma CalcRuleIsScaledPrototype(prev: Cell, c: real, f: Cell)
    ensures Calc.StepCell(prev, Some(c), f) == StepCell(prev, Some(4.0 * c), f)
  {
    if prev.Some? && f.Some? {
      var p, w := prev.value, Calc.Weighted(c, f.value);
      assert Calc.Weighted(4.0 * c, f.value) == 4.0 * w;
      assert Calc.SOIL_DEPTH_MM == 250.0;
      assert (Calc.SOIL_DEPTH_MM * p + w) / Calc.SOIL_DEPTH_MM == p + (4.0 * w) / DIVISOR_MM;
    }
  }

  /** What the script computes for days [start, end], or the failure it stops at first. */
  function RunSpec(startDay: int, endDay: int, slp: seq<seq<real>>, intw: seq<seq<real>>,
                   forcing: seq<Field>, ic: Option<Field>): Result<seq<Field>, Error>
    requires startDay <= endDay ==> |forcing| == Calc.DayCount(startDay, endDay)
    requires forall k :: 0 <= k < |forcing| ==> Shaped(forcing[k], NLAT, NLON)
  {
    if !(Shaped(slp, NLAT, NLON) && Shaped(intw, NLAT, NLON)) then Err(CoeffShape)
    else if Calc.DayCount(startDay, endDay) == 0 then Err(EmptyRange)
    else if ic.Some? && !Shaped(ic.value, NLAT, NLON) then Err(IcShape)
    else
      Calc.GridConformable(Start(slp, ic), Calc.Unmasked(slp), forcing);
      Ok(Calc.Integrate(StepCell, Start(slp, ic), Calc.Unmasked(slp), forcing))
  }

  /**
   * What a successful run guarantees: one field per day of [start, end], day 0
   * is the IC when given and all zeros otherwise, and every later defined
   * value lies in [0, 1].
   */
  lemma RunGuarantees(startDay: int, endDay: int, slp: seq<seq<real>>, intw: seq<seq<real>>,
                      forcing: seq<Field>, ic: Option<Field>)
    requires startDay <= endDay ==> |forcing| == Calc.DayCount(startDay, endDay)
    requires forall k :: 0 <= k < |forcing| ==> Shaped(forcing[k], NLAT, NLON)
    ensures var r := RunSpec(startDay, endDay, slp, intw, forcing, ic);
      r.Ok? ==>
        && startDay <= endDay
        && |r.value| == endDay - startDay + 1
        && r.value[0] == (if ic.Some? then ic.value else Zeros(slp))
        && (forall k, i, j :: 1 <= k < |r.value| && 0 <= i < NLAT && 0 <= j < NLON && r.value[k][i][j].Some? ==>
              0.0 <= r.value[k][i][j].value <= 1.0)
  {
    var r := RunSpec(startDay, endDay, slp, intw, forcing, ic);
    if r.Ok? {
      forall k, i, j | 1 <= k < |r.value| && 0 <= i < NLAT && 0 <= j < NLON
        ensures r.value[k][i][j].Some? ==> 0.0 <= r.value[k][i][j].value <= 1.0
      {
        DayBounds(Start(slp, ic), slp, forcing, k, i, j);
      }
    }
  }

  /**
   * The script: the weights are checked, a zero-filled series is allocated,
   * day 0 is overwritten by the IC when one is given, and each later day is
   * written from the day before it.
   */
  method Run(startDay: int, endDay: int, slp: seq<seq<real>>, intw: seq<seq<real>>,
             forcing: seq<Field>, ic: Option<Field>) returns (r: Result<seq<Field>, Error>)
    requires startDay <= endDay ==> |forcing| == Calc.DayCount(startDay, endDay)
    requires forall k :: 0 <= k < |forcing| ==> Shaped(forcing[k], NLAT, NLON)
    ensures r == RunSpec(startDay, endDay, slp, intw, forcing, ic)
  {
    if !(Shaped(slp, NLAT, NLON) && Shaped(intw, NLAT, NLON)) {
      return Err(CoeffShape);
    }
    var ntime := Calc.DayCount(startDay, endDay);
    if ntime == 0 {
      return Err(EmptyRange);
    }
    if ic.Some? && !Shaped(ic.value, NLAT, NLON) {
      return Err(IcShape);
    }
    Calc.GridConformable(Start(slp, ic), Calc.Unmasked(slp), forcing);
    var series := Series(slp, ic, forcing);
    r := Ok(series);
  }

  /**
   * The series of the script: a zero-filled array, day 0 overwritten by the
   * IC when one is given, and each later day written from the day before it.
   */
  method Series(slp: seq<seq<real>>, ic: Option<Field>, forcing: seq<Field>) returns (series: seq<Field>)
    requires Calc.Conformable(Start(slp, ic), Calc.Unmasked(slp), forcing) && |forcing| > 0
    ensures series == Calc.Integrate(StepCell, Start(slp, ic), Calc.Unmasked(slp), forcing)
  {
    var zeros := Zeros(slp);
    var sm := new Field[|forcing|](_ => zeros);
    if ic.Some? {
      sm[0] := ic.value;
    }
    Advance(sm, Start(slp, ic), slp, forcing);
    series := sm[..];
  }

  /** The time loop: day i of `sm` is written from day i - 1 and the forcing of day i. */
  method Advance(sm: array<Field>, start: Field, slp: seq<seq<real>>, forcing: seq<Field>)
    requires Calc.Conformable(start, Calc.Unmasked(slp), forcing) && sm.Length == |forcing| > 0 && sm[0] == start
    modifies sm
    ensures sm[..] == Calc.Integrate(StepCell, start, Calc.Unmasked(slp), forcing)
  {
    var c := Calc.Unmasked(slp);
    ghost var spec := Calc.Integrate(StepCell, start, c, forcing);
    for i := 1 to |forcing|
      invariant sm[..i] == spec[..i]
    {
      Calc.DayStep(StepCell, start, c, forcing, i);
      assert sm[i - 1] == spec[i - 1];
      sm[i] := Calc.StepField(StepCell, sm[i - 1], c, forcing[i]);
      assert sm[..i + 1] == sm[..i] + [sm[i]];
    }
    assert sm[..] == sm[..|forcing|];
  }
}
