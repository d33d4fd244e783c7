/** Tabulated dispersion on an irregular wavelength grid (disp-sample-table.c).
    Row j of the shared three-column table holds (wavelength, n, k). */
module DispSampleTable {
  import opened Common
  import opened DataTables

  /** The value of row j inside the table: column 1 is n, column 2 is k, and
      the value is n - i*k. */
  function Node(cells: seq<seq<real>>, j: nat): (v: Complex)
    requires j < |cells| && |cells[j]| >= 3
    ensures v.re == cells[j][1] && v.im == -cells[j][2]
  {
    Complex(cells[j][1], -cells[j][2])
  }

  /** The wavelengths of the first nb rows strictly increase. */
  ghost predicate Increasing(cells: seq<seq<real>>, nb: int)
    requires WellFormed(cells, nb, 3)
  {
    forall a, b :: 0 <= a < b < nb ==> cells[a][0] < cells[b][0]
  }

  /** disp_sample_table_n_value can evaluate lam: it divides by the width of
      the bracketing segment, and a later segment is only entered when its
      left wavelength is below lam, so only a flat first segment reached
      with lam at or below its right end gives a zero width. */
  ghost predicate DefinedAt(cells: seq<seq<real>>, nb: int, lam: real)
    requires WellFormed(cells, nb, 3)
  {
    nb >= 2 && lam <= cells[1][0] ==> cells[0][0] != cells[1][0]
  }

  /** The bracketing scan of disp_sample_table_n_value started at `from`: the
      smallest j in [from, nb-2] whose next wavelength reaches lam, or nb - 1
      when there is none. */
  function Bracket(cells: seq<seq<real>>, nb: int, lam: real, from: nat): (j: nat)
    requires nb >= 1 && WellFormed(cells, nb, 3) && from <= nb - 1
    ensures from <= j <= nb - 1
    ensures forall k :: from < k <= j ==> cells[k][0] < lam
    ensures j < nb - 1 ==> cells[j + 1][0] >= lam
    decreases nb - from
  {
    if from >= nb - 1 then from
    else if cells[from + 1][0] >= lam then from
    else Bracket(cells, nb, lam, from + 1)
  }

  /** Two indices that both satisfy the scan's stopping rule coincide. */
  lemma BracketUnique(cells: seq<seq<real>>, nb: int, lam: real, j: nat)
    requires nb >= 1 && WellFormed(cells, nb, 3) && j <= nb - 1
    requires forall k :: 0 < k <= j ==> cells[k][0] < lam
    requires j < nb - 1 ==> cells[j + 1][0] >= lam
    ensures Bracket(cells, nb, lam, 0) == j
  {
  }

  /** DefinedAt holds exactly when the segment the scan selects, if any, has
      a non-zero width. */
  lemma {:induction false} DefinedAtExact(cells: seq<seq<real>>, nb: int, lam: real)
    requires nb >= 1 && WellFormed(cells, nb, 3)
    ensures var j := Bracket(cells, nb, lam, 0);
      DefinedAt(cells, nb, lam) <==> (j < nb - 1 ==> cells[j][0] != cells[j + 1][0])
  {
    var j := Bracket(cells, nb, lam, 0);
    if nb >= 2 && lam <= cells[1][0] {
      BracketUnique(cells, nb, lam, 0);
    } else if j > 0 {
      assert cells[j][0] < lam;
    }
  }

  /** The scan stops at the last row when every later wavelength is below
      lam, and at row 0 when the second wavelength already reaches it. */
  lemma BracketEnds(cells: seq<seq<real>>, nb: int, lam: real)
    requires nb >= 1 && WellFormed(cells, nb, 3)
    ensures (forall k :: 0 < k < nb ==> cells[k][0] < lam) ==> Bracket(cells, nb, lam, 0) == nb - 1
    ensures nb >= 2 && lam <= cells[1][0] ==> Bracket(cells, nb, lam, 0) == 0
  {
    if forall k :: 0 < k < nb ==> cells[k][0] < lam {
      BracketUnique(cells, nb, lam, nb - 1);
    }
    if nb >= 2 && lam <= cells[1][0] {
      BracketUnique(cells, nb, lam, 0);
    }
  }

  /** disp_sample_table_n_value over the first nb rows: beyond the last
      wavelength the last row is returned as n + i*k; otherwise the bracketing
      segment is interpolated (or extended below the first node). */
  function SampleNValue(cells: seq<seq<real>>, nb: int, lam: real): (r: Complex)
    requires nb >= 1 && WellFormed(cells, nb, 3) && DefinedAt(cells, nb, lam)
    ensures (forall k :: 0 < k < nb ==> cells[k][0] < lam) ==> r == Complex(cells[nb - 1][1], cells[nb - 1][2])
    ensures nb >= 2 && lam <= cells[1][0] ==>
              r == Lerp(Node(cells, 0), Node(cells, 1), (lam - cells[0][0]) / (cells[1][0] - cells[0][0]))
  {
    BracketEnds(cells, nb, lam);
    var j := Bracket(cells, nb, lam, 0);
    if j >= nb - 1 then
      Complex(cells[j][1], cells[j][2])
    else
      assert j > 0 ==> cells[j][0] < lam;
      var a := (lam - cells[j][0]) / (cells[j + 1][0] - cells[j][0]);
      Lerp(Node(cells, j), Node(cells, j + 1), a)
  }

  /** Inside the table the value is n1 + (n2 - n1) * a on the bracketing
      segment j, with a = (lam - lambda_j) / (lambda_j+1 - lambda_j). */
  lemma {:induction false} InsideInterpolates(cells: seq<seq<real>>, nb: int, lam: real, j: nat)
    requires nb >= 2 && WellFormed(cells, nb, 3) && DefinedAt(cells, nb, lam)
    requires j < nb - 1 && cells[j + 1][0] >= lam
    requires forall k :: 0 < k <= j ==> cells[k][0] < lam
    ensures var a := (lam - cells[j][0]) / (cells[j + 1][0] - cells[j][0]);
      SampleNValue(cells, nb, lam) == Node(cells, j).Plus(Node(cells, j + 1).Minus(Node(cells, j)).Scale(a))
  {
    BracketUnique(cells, nb, lam, j);
  }

  /** Evaluating at the first wavelength selects segment 0 with weight 0. */
  lemma {:induction false} SampleFirstNode(cells: seq<seq<real>>, nb: int)
    requires nb >= 2 && WellFormed(cells, nb, 3) && cells[1][0] > cells[0][0]
    ensures DefinedAt(cells, nb, cells[0][0])
    ensures SampleNValue(cells, nb, cells[0][0]) == Node(cells, 0)
  {
    BracketUnique(cells, nb, cells[0][0], 0);
    var d := cells[1][0] - cells[0][0];
    assert (cells[0][0] - cells[0][0]) / d == 0.0;
  }

  /** Evaluating at a later wavelength i selects segment i - 1 with weight 1. */
  lemma {:induction false} SampleLaterNode(cells: seq<seq<real>>, nb: int, i: nat)
    requires nb >= 2 && WellFormed(cells, nb, 3) && 0 < i < nb
    requires DefinedAt(cells, nb, cells[i][0])
    requires forall k :: 0 < k <= i - 1 ==> cells[k][0] < cells[i][0]
    ensures SampleNValue(cells, nb, cells[i][0]) == Node(cells, i)
  {
    BracketUnique(cells, nb, cells[i][0], i - 1);
    DivSelf(cells[i][0] - cells[i - 1][0]);
  }

  /** With strictly increasing wavelengths, and at least two rows, evaluating
      at a stored wavelength returns that row's value. */
  lemma {:induction false} SampleNodeExact(cells: seq<seq<real>>, nb: int, i: nat)
    requires nb >= 2 && WellFormed(cells, nb, 3) && Increasing(cells, nb)
    requires i < nb
    ensures DefinedAt(cells, nb, cells[i][0])
    ensures SampleNValue(cells, nb, cells[i][0]) == Node(cells, i)
  {
    assert cells[0][0] < cells[1][0];
    if i == 0 {
      assert cells[0][0] < cells[1][0];
      SampleFirstNode(cells, nb);
    } else {
      assert forall k :: 0 < k <= i - 1 ==> cells[k][0] < cells[i][0];
      SampleLaterNode(cells, nb, i);
    }
  }

  /** Below the first wavelength the first segment is extended linearly:
      j = 0 and the weight a is negative. */
  lemma {:induction false} BelowFirstNode(cells: seq<seq<real>>, nb: int, lam: real)
    requires nb >= 2 && WellFormed(cells, nb, 3) && Increasing(cells, nb)
    requires lam < cells[0][0]
    ensures DefinedAt(cells, nb, lam)
    ensures var a := (lam - cells[0][0]) / (cells[1][0] - cells[0][0]);
      a < 0.0 && SampleNValue(cells, nb, lam) == Lerp(Node(cells, 0), Node(cells, 1), a)
  {
    BracketUnique(cells, nb, lam, 0);
    var d := cells[1][0] - cells[0][0];
    var a := (lam - cells[0][0]) / d;
    assert a * d == lam - cells[0][0];
  }

  /** Beyond the last wavelength the last row is returned as n + i*k: the
      opposite sign of k to the value the interpolation gives at that node. */
  lemma {:induction false} BeyondLastNode(cells: seq<seq<real>>, nb: int, lam: real)
    requires nb >= 2 && WellFormed(cells, nb, 3) && Increasing(cells, nb)
    requires lam > cells[nb - 1][0]
    ensures DefinedAt(cells, nb, lam) && DefinedAt(cells, nb, cells[nb - 1][0])
    ensures SampleNValue(cells, nb, lam) == Complex(cells[nb - 1][1], cells[nb - 1][2])
    ensures cells[nb - 1][2] != 0.0 ==> SampleNValue(cells, nb, lam) != SampleNValue(cells, nb, cells[nb - 1][0])
  {
    assert forall k :: 0 < k <= nb - 1 ==> cells[k][0] < lam;
    BracketUnique(cells, nb, lam, nb - 1);
    SampleNodeExact(cells, nb, nb - 1);
  }

  /** A one-row table returns its row as n + i*k at every wavelength. */
  lemma SingleRow(cells: seq<seq<real>>, lam: real)
    requires WellFormed(cells, 1, 3)
    ensures DefinedAt(cells, 1, lam)
    ensures SampleNValue(cells, 1, lam) == Complex(cells[0][1], cells[0][2])
  {
  }

  /** The two-row example: (100 nm, 1.0, 0) and (200 nm, 1.2, 0) give 1.1 at
      150 nm. */
  lemma MatExample(cells: seq<seq<real>>)
    requires cells == [[100.0, 1.0, 0.0], [200.0, 1.2, 0.0]]
    ensures DefinedAt(cells, 2, 150.0)
    ensures SampleNValue(cells, 2, 150.0) == Complex(1.1, 0.0)
  {
    assert WellFormed(cells, 2, 3);
    InsideInterpolates(cells, 2, 150.0, 0);
    var a := (150.0 - cells[0][0]) / (cells[1][0] - cells[0][0]);
    assert a == 0.5;
    var n1, n2 := Node(cells, 0), Node(cells, 1);
    assert n1 == Complex(1.0, 0.0);
    assert n2 == Complex(1.2, 0.0);
    assert n1.Plus(n2.Minus(n1).Scale(a)) == Complex(1.1, 0.0);
  }

  /** struct disp_sample_table inside a sample-table dispersion. */
  class SampleTableDisp {
    var nb: int
    var tableRef: DataTable

    ghost predicate Valid()
      reads this, tableRef
    {
      tableRef.Valid() && tableRef.cols == 3 && 0 <= nb <= |tableRef.cells|
    }

    /** disp_sample_table_init: nb rows of three zero columns in a table of
        its own. */
    constructor Init(nb: nat)
      ensures Valid() && fresh(tableRef)
      ensures this.nb == nb && |tableRef.cells| == nb
      ensures tableRef.refcount == 1 && !tableRef.freed
    {
      this.nb := nb;
      tableRef := new DataTable(nb, 3);
    }

    /** disp_base_copy: a new dispersion whose fields are those of src; the
        table is shared, not duplicated. */
    constructor CopyOf(src: SampleTableDisp)
      ensures nb == src.nb && tableRef == src.tableRef
    {
      nb := src.nb;
      tableRef := src.tableRef;
    }

    /** disp_sample_table_clear: no rows are in use; the table reference is
        kept as it is. */
    method Clear()
      modifies this`nb
      ensures nb == 0 && tableRef == old(tableRef)
    {
      nb := 0;
    }

    /** disp_sample_table_copy: a new dispersion with the same fields; the
        shared table gains an owner only when rows are in use. */
    method Copy() returns (res: SampleTableDisp)
      requires Valid() && !tableRef.freed
      modifies tableRef`refcount
      ensures fresh(res) && res.Valid()
      ensures res.nb == nb && res.tableRef == tableRef
      ensures tableRef.refcount == old(tableRef.refcount) + (if nb > 0 then 1 else 0)
    {
      res := new SampleTableDisp.CopyOf(this);
      if nb > 0 {
        tableRef.Ref();
      }
    }

    /** disp_sample_table_free: the shared table loses an owner only when
        rows are in use. */
    method Free()
      requires nb > 0 ==> !tableRef.freed && tableRef.refcount >= 1
      modifies tableRef`refcount, tableRef`freed
      ensures tableRef.refcount == old(tableRef.refcount) - (if nb > 0 then 1 else 0)
      ensures nb > 0 ==> (tableRef.freed <==> tableRef.refcount == 0)
      ensures nb <= 0 ==> tableRef.freed == old(tableRef.freed)
    {
      if nb > 0 {
        tableRef.Unref();
      }
    }

    /** disp_sample_table_n_value: scan for the bracketing segment, then
        return the last row or interpolate. */
    method NValue(lam: real) returns (n: Complex)
      requires Valid() && nb >= 1 && DefinedAt(tableRef.cells, nb, lam)
      ensures n == SampleNValue(tableRef.cells, nb, lam)
    {
      var t := tableRef;
      var j := 0;
      while j < nb - 1
        invariant 0 <= j <= nb - 1
        invariant forall k :: 0 < k <= j ==> t.cells[k][0] < lam
      {
        var jlam := t.Get(j + 1, 0);
        if jlam >= lam {
          break;
        }
        j := j + 1;
      }
      BracketUnique(t.cells, nb, lam, j);
      if j >= nb - 1 {
        return Complex(t.Get(j, 1), t.Get(j, 2));
      }
      var lam1, lam2 := t.Get(j, 0), t.Get(j + 1, 0);
      var a := (lam - lam1) / (lam2 - lam1);
      var n1 := Complex(t.Get(j, 1), -t.Get(j, 2));
      var n2 := Complex(t.Get(j + 1, 1), -t.Get(j + 1, 2));
      n := n1.Plus(n2.Minus(n1).Scale(a));
    }
  }
}
