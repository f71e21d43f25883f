/**
 * The common lattice of the soil-moisture model (swamp/calc.py, swamp.py):
 * a cell holds a real or the undefined marker, a field is a row-major grid
 * of cells, and every gridded quantity of a run shares the 720 x 1150 shape.
 */
module Grid {
  import opened Wrappers

  /** One grid cell: a real value, or `None` where the source holds NaN. */
  type Cell = Option<real>

  /** A 2-D field, indexed by latitude row and then longitude column. */
  type Field = seq<seq<Cell>>

  /** Number of latitude rows and longitude columns of the output grid. */
  const NLAT: nat := 720
  const NLON: nat := 1150

  /** `f` is a rectangular `rows` x `cols` grid. */
  predicate Shaped<T>(f: seq<seq<T>>, rows: nat, cols: nat) {
    |f| == rows && forall i :: 0 <= i < |f| ==> |f[i]| == cols
  }

  /** `a` and `b` have the same number of rows, and matching rows have the same length. */
  predicate SameShape<A, B>(a: seq<seq<A>>, b: seq<seq<B>>) {
    |a| == |b| && forall i :: 0 <= i < |a| ==> |a[i]| == |b[i]|
  }

  /** `np.clip(x, 0, 1)`: the saturation/dryness bound of volumetric soil moisture. */
  function Clip(x: real): (r: real)
    ensures 0.0 <= r <= 1.0
    ensures 0.0 <= x <= 1.0 ==> r == x
    ensures x < 0.0 ==> r == 0.0
    ensures x > 1.0 ==> r == 1.0
  {
    if x < 0.0 then 0.0 else if x > 1.0 then 1.0 else x
  }

  /** One value with a sentinel (a raster's nodata value, a fold's starting value): the sentinel becomes undefined. */
  function MaskValue(x: real, nodata: real): (c: Cell)
    ensures c.None? <==> x == nodata
    ensures c.Some? ==> c.value == x
  {
    if x == nodata then None else Some(x)
  }

  /** `np.where(raw == nodata, nan, raw)` over a whole raster. */
  function MaskNodata(raw: seq<seq<real>>, nodata: real): (f: Field)
    ensures SameShape(f, raw)
    ensures forall i, j :: 0 <= i < |raw| && 0 <= j < |raw[i]| ==>
      (f[i][j].None? <==> raw[i][j] == nodata) && (f[i][j].Some? ==> f[i][j].value == raw[i][j])
  {
    seq(|raw|, i requires 0 <= i < |raw| => seq(|raw[i]|, j requires 0 <= j < |raw[i]| => MaskValue(raw[i][j], nodata)))
  }

  /** Writes the sentinel back into every undefined cell (the inverse of `MaskNodata`). */
  function FillUndefined(f: Field, nodata: real): (raw: seq<seq<real>>)
    ensures SameShape(raw, f)
  {
    seq(|f|, i requires 0 <= i < |f| => seq(|f[i]|, j requires 0 <= j < |f[i]| =>
      match f[i][j] case None => nodata case Some(v) => v))
  }

  /** Masking the nodata sentinel loses nothing: every other value is kept unchanged. */
  lemma FillUndefinedMaskNodata(raw: seq<seq<real>>, nodata: real)
    ensures FillUndefined(MaskNodata(raw, nodata), nodata) == raw
  {
    var back := FillUndefined(MaskNodata(raw, nodata), nodata);
    forall i | 0 <= i < |raw|
      ensures back[i] == raw[i]
    {
      assert |back[i]| == |raw[i]|;
    }
  }

  /** The cells of `f` in row-major order (`f.values.ravel()`). */
  function Flatten<T>(f: seq<seq<T>>): seq<T>
  {
    if f == [] then [] else f[0] + Flatten(f[1..])
  }

  /** A `rows` x `cols` grid has `rows * cols` cells. */
  lemma {:induction false} FlattenShaped<T>(f: seq<seq<T>>, rows: nat, cols: nat)
    requires Shaped(f, rows, cols)
    ensures |Flatten(f)| == rows * cols
  {
    if f != [] {
      assert Shaped(f[1..], rows - 1, cols);
      FlattenShaped(f[1..], rows - 1, cols);
      assert rows * cols == cols + (rows - 1) * cols;
    }
  }

  /** `flat.reshape(rows, cols)`: consecutive runs of `cols` values become the rows. */
  function Reshape<T>(flat: seq<T>, rows: nat, cols: nat): (f: seq<seq<T>>)
    requires |flat| == rows * cols
    ensures Shaped(f, rows, cols)
  {
    if rows == 0 then []
    else
      assert |flat| == cols + (rows - 1) * cols;
      [flat[..cols]] + Reshape(flat[cols..], rows - 1, cols)
  }

  /** Cell (i, j) of the reshaped grid is value `i * cols + j` of the flat buffer: the buffer is row-major. */
  lemma {:induction false} ReshapeIndex<T>(flat: seq<T>, rows: nat, cols: nat, i: nat, j: nat)
    requires |flat| == rows * cols && i < rows && j < cols
    ensures i * cols + j < |flat| && Reshape(flat, rows, cols)[i][j] == flat[i * cols + j]
  {
    MulSucc(rows - 1, cols);
    var tail := flat[cols..];
    assert Reshape(flat, rows, cols) == [flat[..cols]] + Reshape(tail, rows - 1, cols);
    if i > 0 {
      ReshapeIndex(tail, rows - 1, cols, i - 1, j);
      MulSucc(i - 1, cols);
      assert Reshape(flat, rows, cols)[i] == Reshape(tail, rows - 1, cols)[i - 1];
    }
  }

  /** One more row of `b` cells is `b` more cells. */
  lemma MulSucc(a: nat, b: nat)
    ensures (a + 1) * b == b + a * b && a * b >= 0
  {
  }

  /** The offset of cell (i, j) in a row-major buffer of rows of `cols` cells. */
  function RowMajor(i: nat, j: nat, cols: nat): nat {
    i * cols + j
  }

  /** `ReshapeIndex` for every cell at once. */
  lemma ReshapeCells<T>(flat: seq<T>, rows: nat, cols: nat)
    requires |flat| == rows * cols
    ensures forall i, j :: 0 <= i < rows && 0 <= j < cols ==>
      RowMajor(i, j, cols) < |flat| && Reshape(flat, rows, cols)[i][j] == flat[RowMajor(i, j, cols)]
  {
    forall i, j | 0 <= i < rows && 0 <= j < cols
      ensures RowMajor(i, j, cols) < |flat| && Reshape(flat, rows, cols)[i][j] == flat[RowMajor(i, j, cols)]
    {
      ReshapeIndex(flat, rows, cols, i, j);
    }
  }

  /** Reshaping and then reading the cells back in row-major order gives the flat data. */
  lemma {:induction false} FlattenReshape<T>(flat: seq<T>, rows: nat, cols: nat)
    requires |flat| == rows * cols
    ensures Flatten(Reshape(flat, rows, cols)) == flat
  {
    if rows > 0 {
      assert |flat| == cols + (rows - 1) * cols;
      var f := Reshape(flat, rows, cols);
      FlattenReshape(flat[cols..], rows - 1, cols);
      calc {
        Flatten(f);
        f[0] + Flatten(f[1..]);
        flat[..cols] + Flatten(Reshape(flat[cols..], rows - 1, cols));
        flat[..cols] + flat[cols..];
        flat;
      }
    }
  }

  /** Reading a grid in row-major order and reshaping it gives the grid back. */
  lemma {:induction false} ReshapeFlatten<T>(f: seq<seq<T>>, rows: nat, cols: nat)
    requires Shaped(f, rows, cols)
    ensures |Flatten(f)| == rows * cols
    ensures Reshape(Flatten(f), rows, cols) == f
  {
    FlattenShaped(f, rows, cols);
    if rows > 0 {
      assert Shaped(f[1..], rows - 1, cols);
      ReshapeFlatten(f[1..], rows - 1, cols);
      var flat := Flatten(f);
      assert flat[..cols] == f[0];
      assert flat[cols..] == Flatten(f[1..]);
      assert f == [f[0]] + f[1..];
    }
  }
}
