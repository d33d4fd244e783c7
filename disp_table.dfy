/** Tabulated dispersion on a uniform wavelength grid (disp-table.c).  Row i
    of the shared table holds (n, k) at wavelength lambda_min + i * stride and
    the complex index is n - i*k. */
module DispTable {
  import opened Common
  import opened DataTables

  /** disp_table_get_value_at_index: column 0 is n, column 1 is k, and the
      value is n - i*k. */
  function ValueAtIndex(cells: seq<seq<real>>, idx: nat): (v: Complex)
    requires idx < |cells| && |cells[idx]| >= 2
    ensures v.re == cells[idx][0] && v.im == -cells[idx][1]
  {
    Complex(cells[idx][0], -cells[idx][1])
  }

  /** The grid step used by disp_table_n_value: (lmax - lmin) / (nb - 1). */
  function Step(lmin: real, lmax: real, nb: int): (dlam: real)
    requires nb >= 2
    ensures lmin < lmax ==> dlam > 0.0
    ensures lmin != lmax ==> dlam != 0.0
    ensures lmin + (nb - 1) as real * dlam == lmax
  {
    (lmax - lmin) / (nb - 1) as real
  }

  /** The grid position of `lam`: how many steps it lies past lambda_min. */
  function Position(lmin: real, lmax: real, nb: int, lam: real): (x: real)
    requires nb >= 2 && lmin != lmax
    ensures x * Step(lmin, lmax, nb) == lam - lmin
  {
    (lam - lmin) / Step(lmin, lmax, nb)
  }

  /** The interpolation weight of `lam` on the segment starting at node k:
      its offset from node k in steps. */
  function Weight(lmin: real, lmax: real, nb: int, k: int, lam: real): (t: real)
    requires nb >= 2 && lmin != lmax
    ensures t == Position(lmin, lmax, nb, lam) - k as real
  {
    var dlam := Step(lmin, lmax, nb);
    var t := (lam - (lmin + k as real * dlam)) / dlam;
    DivSub(lam - lmin, k as real, dlam);
    t
  }

  /** (a - b*d) / d == a/d - b for a non-zero d. */
  lemma DivSub(a: real, b: real, d: real)
    requires d != 0.0
    ensures (a - (b * d)) / d == a / d - b
  {
    var q := a / d;
    assert q * d == a;
    assert a - b * d == (q - b) * d;
  }

  /** The segment used by disp_table_n_value: the truncated grid position,
      clamped into [0, nb-2]. */
  function SegmentIndex(lmin: real, lmax: real, nb: int, lam: real): (ni: int)
    requires nb >= 2 && lmin != lmax
    ensures 0 <= ni <= nb - 2
  {
    var t := Trunc(Position(lmin, lmax, nb, lam));
    if t < 0 then 0 else if t >= nb - 1 then nb - 2 else t
  }

  /** disp_table_n_value over the grid (lmin, lmax, nb) and the table cells:
      linear interpolation, or extension, of the segment SegmentIndex picks. */
  function UniformNValue(lmin: real, lmax: real, nb: int, cells: seq<seq<real>>, lam: real): (r: Complex)
    requires nb >= 2 && lmin != lmax && WellFormed(cells, nb, 2)
    ensures exists k :: 0 <= k <= nb - 2 &&
                        r == Lerp(ValueAtIndex(cells, k), ValueAtIndex(cells, k + 1), Position(lmin, lmax, nb, lam) - k as real)
    ensures lam == lmin ==> r == ValueAtIndex(cells, 0)
    ensures lam == lmax ==> r == ValueAtIndex(cells, nb - 1)
  {
    var ni := SegmentIndex(lmin, lmax, nb, lam);
    RangeEnds(lmin, lmax, nb, lam);
    Lerp(ValueAtIndex(cells, ni), ValueAtIndex(cells, ni + 1), Weight(lmin, lmax, nb, ni, lam))
  }

  /** lambda_min lies at the start of the first segment and lambda_max at the
      end of the last one. */
  lemma RangeEnds(lmin: real, lmax: real, nb: int, lam: real)
    requires nb >= 2 && lmin != lmax
    ensures lam == lmin ==> SegmentIndex(lmin, lmax, nb, lam) == 0 && Weight(lmin, lmax, nb, 0, lam) == 0.0
    ensures lam == lmax ==> SegmentIndex(lmin, lmax, nb, lam) == nb - 2 && Weight(lmin, lmax, nb, nb - 2, lam) == 1.0
  {
    var dlam := Step(lmin, lmax, nb);
    var x := Position(lmin, lmax, nb, lam);
    if lam == lmax {
      MulCancel(x, (nb - 1) as real, dlam);
      assert Trunc(x) == nb - 1;
    }
  }

  /** A stride that divides the range into nb - 1 steps is the grid step. */
  lemma StrideIsStep(stride: real, lmin: real, lmax: real, nb: int)
    requires nb >= 2 && stride * (nb - 1) as real == lmax - lmin
    ensures stride == Step(lmin, lmax, nb)
  {
    MulCancel(stride, Step(lmin, lmax, nb), (nb - 1) as real);
  }

  /** A non-zero factor cancels. */
  lemma MulCancel(a: real, b: real, c: real)
    requires c != 0.0 && a * c == b * c
    ensures a == b
  {
    assert (a - b) * c == 0.0;
  }

  /** Multiplying by a positive factor keeps the order. */
  lemma MulMonotone(a: real, b: real, d: real)
    requires d > 0.0
    ensures a < b ==> a * d < b * d
    ensures a <= b ==> a * d <= b * d
  {
  }

  /** On an increasing grid, the position orders like the wavelength does:
      it lies in [i, i+1) exactly when the wavelength lies between nodes i
      and i+1. */
  lemma PositionBounds(lmin: real, lmax: real, nb: int, lam: real, i: int)
    requires nb >= 2 && lmin < lmax
    ensures var x := Position(lmin, lmax, nb, lam);
      var dlam := Step(lmin, lmax, nb);
      (i as real <= x <==> lmin + i as real * dlam <= lam) &&
      (x < i as real <==> lam < lmin + i as real * dlam) &&
      (i as real < x <==> lmin + i as real * dlam < lam)
  {
    var x := Position(lmin, lmax, nb, lam);
    var dlam := Step(lmin, lmax, nb);
    MulMonotone(x, i as real, dlam);
    MulMonotone(i as real, x, dlam);
  }

  /** A wavelength inside segment i (on an increasing grid) is interpolated
      between nodes i and i+1 with the fractional offset as weight. */
  lemma {:induction false} InteriorSegment(lmin: real, lmax: real, nb: int, cells: seq<seq<real>>, i: int, lam: real)
    requires nb >= 2 && lmin < lmax && WellFormed(cells, nb, 2)
    requires 0 <= i <= nb - 2
    requires lmin + i as real * Step(lmin, lmax, nb) <= lam < lmin + (i + 1) as real * Step(lmin, lmax, nb)
    ensures SegmentIndex(lmin, lmax, nb, lam) == i
    ensures var t := Weight(lmin, lmax, nb, i, lam);
      0.0 <= t < 1.0 &&
      UniformNValue(lmin, lmax, nb, cells, lam) == Lerp(ValueAtIndex(cells, i), ValueAtIndex(cells, i + 1), t)
  {
    PositionBounds(lmin, lmax, nb, lam, i);
    PositionBounds(lmin, lmax, nb, lam, i + 1);
    assert Trunc(Position(lmin, lmax, nb, lam)) == i;
  }

  /** Evaluating at grid node i returns node i's value exactly. */
  lemma {:induction false} NodeExact(lmin: real, lmax: real, nb: int, cells: seq<seq<real>>, i: int, lam: real)
    requires nb >= 2 && lmin != lmax && WellFormed(cells, nb, 2)
    requires 0 <= i < nb && lam == lmin + i as real * Step(lmin, lmax, nb)
    ensures UniformNValue(lmin, lmax, nb, cells, lam) == ValueAtIndex(cells, i)
  {
    var dlam := Step(lmin, lmax, nb);
    var x := Position(lmin, lmax, nb, lam);
    MulCancel(x, i as real, dlam);
    assert Trunc(x) == i;
    if i == nb - 1 {
      assert SegmentIndex(lmin, lmax, nb, lam) == nb - 2;
      assert Weight(lmin, lmax, nb, nb - 2, lam) == 1.0;
    } else {
      assert SegmentIndex(lmin, lmax, nb, lam) == i;
      assert Weight(lmin, lmax, nb, i, lam) == 0.0;
    }
  }

  /** With a stride that divides the range into nb - 1 steps, evaluating at
      lmin + i * stride returns node i's value. */
  lemma NodeAtStride(lmin: real, lmax: real, nb: int, cells: seq<seq<real>>, stride: real, i: int, lam: real)
    requires nb >= 2 && lmin != lmax && WellFormed(cells, nb, 2)
    requires stride * (nb - 1) as real == lmax - lmin && 0 <= i < nb
    requires lam == lmin + i as real * stride
    ensures UniformNValue(lmin, lmax, nb, cells, lam) == ValueAtIndex(cells, i)
  {
    StrideIsStep(stride, lmin, lmax, nb);
    NodeExact(lmin, lmax, nb, cells, i, lam);
  }

  /** Below lambda_min the first segment is extended linearly: the value is
      not clamped. */
  lemma {:induction false} BelowRange(lmin: real, lmax: real, nb: int, cells: seq<seq<real>>, lam: real)
    requires nb >= 2 && lmin < lmax && WellFormed(cells, nb, 2)
    requires lam < lmin
    ensures var t := Weight(lmin, lmax, nb, 0, lam);
      t < 0.0 &&
      UniformNValue(lmin, lmax, nb, cells, lam) == Lerp(ValueAtIndex(cells, 0), ValueAtIndex(cells, 1), t)
  {
    PositionBounds(lmin, lmax, nb, lam, 0);
    assert SegmentIndex(lmin, lmax, nb, lam) == 0;
  }

  /** Above lambda_max the last segment is extended linearly: the weight of
      the last node exceeds one. */
  lemma {:induction false} AboveRange(lmin: real, lmax: real, nb: int, cells: seq<seq<real>>, lam: real)
    requires nb >= 2 && lmin < lmax && WellFormed(cells, nb, 2)
    requires lam > lmax
    ensures var t := Weight(lmin, lmax, nb, nb - 2, lam);
      t > 1.0 &&
      UniformNValue(lmin, lmax, nb, cells, lam) == Lerp(ValueAtIndex(cells, nb - 2), ValueAtIndex(cells, nb - 1), t)
  {
    PositionBounds(lmin, lmax, nb, lam, nb - 1);
    assert Position(lmin, lmax, nb, lam) > (nb - 1) as real;
    assert SegmentIndex(lmin, lmax, nb, lam) == nb - 2;
  }

  /** The legacy NK example: header "1 0.3 0.8 2" and rows (1.5, 0), (1.6, 0.1),
      (1.7, 0.2) give a grid of 300..800 nm in steps of 250 nm; at 450 nm the
      code interpolates 60% of the way along the first segment. */
  lemma NkExample()
    ensures Step(300.0, 800.0, 3) == 250.0
    ensures UniformNValue(300.0, 800.0, 3, [[1.5, 0.0], [1.6, 0.1], [1.7, 0.2]], 450.0) == Complex(1.56, -0.06)
  {
    assert (450.0 - 300.0) / 250.0 == 0.6;
    assert Trunc(0.6) == 0;
  }

  /** struct disp_table inside a table dispersion. */
  class TableDisp {
    var pointsNumber: int
    var lambdaMin: real
    var lambdaMax: real
    var lambdaStride: real
    var tableRef: DataTable

    ghost predicate Valid()
      reads this, tableRef
    {
      tableRef.Valid() && tableRef.cols == 2 && pointsNumber == |tableRef.cells|
    }

    /** disp_new(DISP_TABLE) followed by disp_table_init: `points` rows of two
        zero columns in a table of its own, and an empty range. */
    constructor Init(points: nat)
      ensures Valid() && fresh(tableRef)
      ensures pointsNumber == points && lambdaMin == 0.0 && lambdaMax == 0.0
      ensures tableRef.refcount == 1 && !tableRef.freed
    {
      pointsNumber := points;
      lambdaMin := 0.0;
      lambdaMax := 0.0;
      tableRef := new DataTable(points, 2);
    }

    /** disp_base_copy: a new dispersion whose fields are those of src; the
        table is shared, not duplicated. */
    constructor CopyOf(src: TableDisp)
      ensures pointsNumber == src.pointsNumber && lambdaMin == src.lambdaMin
      ensures lambdaMax == src.lambdaMax && lambdaStride == src.lambdaStride
      ensures tableRef == src.tableRef
    {
      pointsNumber := src.pointsNumber;
      lambdaMin := src.lambdaMin;
      lambdaMax := src.lambdaMax;
      lambdaStride := src.lambdaStride;
      tableRef := src.tableRef;
    }

    /** disp_table_set_index_value: row `idx` becomes (nr, ni); no other row changes. */
    method SetIndexValue(idx: nat, nr: real, ni: real)
      requires Valid() && idx < pointsNumber
      modifies tableRef`cells
      ensures Valid()
      ensures tableRef.cells == old(tableRef.cells)[idx := [nr, ni]]
    {
      tableRef.Set(idx, 0, nr);
      tableRef.Set(idx, 1, ni);
      assert tableRef.cells[idx] == [nr, ni];
    }

    /** disp_table_set_range: stores the range and the stride that divides it
        into pointsNumber - 1 steps. */
    method SetRange(lmin: real, lmax: real)
      requires pointsNumber != 1
      modifies this`lambdaMin, this`lambdaMax, this`lambdaStride
      ensures lambdaMin == lmin && lambdaMax == lmax
      ensures lambdaStride * (pointsNumber - 1) as real == lmax - lmin
    {
      lambdaMin := lmin;
      lambdaMax := lmax;
      lambdaStride := (lmax - lmin) / (pointsNumber - 1) as real;
    }

    /** disp_table_get_range */
    method GetRange() returns (lmin: real, lmax: real, points: int)
      ensures lmin == lambdaMin && lmax == lambdaMax && points == pointsNumber
    {
      lmin, lmax, points := lambdaMin, lambdaMax, pointsNumber;
    }

    /** disp_table_get_lambda: the wavelength of grid node `idx`. */
    function GetLambda(idx: int): (lam: real)
      reads this
      ensures lam - lambdaMin == idx as real * lambdaStride
    {
      lambdaMin + idx as real * lambdaStride
    }

    /** disp_table_n_value of this dispersion. */
    function NValue(lam: real): (r: Complex)
      reads this, tableRef
      requires Valid() && pointsNumber >= 2 && lambdaMin != lambdaMax
      ensures lam == lambdaMin ==> r == ValueAtIndex(tableRef.cells, 0)
      ensures lam == lambdaMax ==> r == ValueAtIndex(tableRef.cells, pointsNumber - 1)
    {
      UniformNValue(lambdaMin, lambdaMax, pointsNumber, tableRef.cells, lam)
    }

    /** The grid n_value divides is the one set_range stored: evaluating at
        get_lambda(i) returns row i. */
    lemma NodeAtGetLambda(i: int)
      requires Valid() && pointsNumber >= 2 && lambdaMin != lambdaMax
      requires lambdaStride * (pointsNumber - 1) as real == lambdaMax - lambdaMin
      requires 0 <= i < pointsNumber
      ensures NValue(GetLambda(i)) == ValueAtIndex(tableRef.cells, i)
    {
      var lam := GetLambda(i);
      assert WellFormed(tableRef.cells, pointsNumber, 2);
      NodeAtStride(lambdaMin, lambdaMax, pointsNumber, tableRef.cells, lambdaStride, i, lam);
    }

    /** disp_table_copy: a new dispersion that shares the same table, whose
        reference count grows by exactly one. */
    method Copy() returns (res: TableDisp)
      requires Valid() && !tableRef.freed
      modifies tableRef`refcount
      ensures fresh(res) && res.Valid()
      ensures res.tableRef == tableRef
      ensures tableRef.refcount == old(tableRef.refcount) + 1
      ensures res.pointsNumber == pointsNumber && res.lambdaMin == lambdaMin
      ensures res.lambdaMax == lambdaMax && res.lambdaStride == lambdaStride
    {
      res := new TableDisp.CopyOf(this);
      tableRef.Ref();
    }

    /** disp_table_free: the table's reference count drops by exactly one. */
    method Free()
      requires !tableRef.freed && tableRef.refcount >= 1
      modifies tableRef`refcount, tableRef`freed
      ensures tableRef.refcount == old(tableRef.refcount) - 1
      ensures tableRef.freed <==> tableRef.refcount == 0
    {
      tableRef.Unref();
    }
  }

  /** The row assembly of disp_table_new_from_nk_file, from a header already
      read as (wlmin, wlmax, npt) in micrometres and the (n, k) pairs already
      read from the rows that follow.  npt + 1 rows are needed; a short input
      fails.  A header with fewer than one interval is rejected. */
  method NewFromNkRows(wlmin: real, wlmax: real, npt: int, rows: seq<(real, real)>) returns (d: TableDisp?)
    ensures d != null <==> npt >= 1 && |rows| >= npt + 1
    ensures d != null ==> fresh(d) && fresh(d.tableRef) && d.Valid()
    ensures d != null ==> d.pointsNumber == npt + 1
    ensures d != null ==> d.lambdaMin == wlmin * 1000.0 && d.lambdaMax == wlmax * 1000.0
    ensures d != null ==> d.lambdaStride * npt as real == (wlmax - wlmin) * 1000.0
    ensures d != null ==> forall j :: 0 <= j <= npt ==> d.tableRef.cells[j] == [rows[j].0, rows[j].1]
  {
    if npt < 1 {
      return null;
    }
    d := new TableDisp.Init(npt + 1);
    var j := 0;
    while j <= npt
      invariant 0 <= j <= npt + 1 && j <= |rows|
      invariant d.Valid() && d.pointsNumber == npt + 1 && fresh(d) && fresh(d.tableRef)
      invariant !d.tableRef.freed && d.tableRef.refcount == 1
      invariant forall r :: 0 <= r < j && r < |rows| ==> d.tableRef.cells[r] == [rows[r].0, rows[r].1]
    {
      if j >= |rows| {
        d.Free();
        return null;
      }
      d.SetIndexValue(j, rows[j].0, rows[j].1);
      j := j + 1;
    }
    d.SetRange(wlmin * 1000.0, wlmax * 1000.0);
  }
}
