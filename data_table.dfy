/** The shared, reference-counted two-dimensional table that backs the
    tabulated dispersions and the spectra.  Its implementation (data-table.c)
    is not part of this model: the class below keeps exactly what the core
    relies on — a rows x columns matrix of values, a reference count and
    whether the storage has been released. */
module DataTables {

  /** Every one of the first `nb` rows has at least `cols` columns. */
  ghost predicate WellFormed(cells: seq<seq<real>>, nb: int, cols: nat)
  {
    0 <= nb <= |cells| && forall r :: 0 <= r < nb ==> |cells[r]| >= cols
  }

  class DataTable {
    /** `cells[r][c]` is the value at row `r`, column `c`. */
    var cells: seq<seq<real>>
    var cols: nat
    var refcount: int
    var freed: bool

    ghost predicate Valid()
      reads this
    {
      forall r :: 0 <= r < |cells| ==> |cells[r]| == cols
    }

    function Rows(): nat
      reads this
    {
      |cells|
    }

    /** data_table_new: a zero-filled table held by one owner. */
    constructor (rows: nat, cols: nat)
      ensures Valid() && |cells| == rows && this.cols == cols
      ensures refcount == 1 && !freed
      ensures forall r, c :: 0 <= r < rows && 0 <= c < cols ==> cells[r][c] == 0.0
    {
      this.cols := cols;
      cells := seq(rows, _ => seq(cols, _ => 0.0));
      refcount := 1;
      freed := false;
    }

    /** data_table_get */
    function Get(r: nat, c: nat): real
      reads this
      requires Valid() && r < |cells| && c < cols
    {
      cells[r][c]
    }

    /** data_table_set: only the addressed cell changes. */
    method Set(r: nat, c: nat, v: real)
      requires Valid() && r < |cells| && c < cols
      modifies this`cells
      ensures Valid() && |cells| == |old(cells)|
      ensures cells == old(cells)[r := old(cells)[r][c := v]]
    {
      cells := cells[r := cells[r][c := v]];
    }

    /** data_table_ref: one more owner shares the storage. */
    method Ref()
      requires !freed
      modifies this`refcount
      ensures refcount == old(refcount) + 1
    {
      refcount := refcount + 1;
    }

    /** data_table_unref: one owner lets go; the storage is released exactly
        when the last owner does. */
    method Unref()
      requires !freed && refcount >= 1
      modifies this`refcount, this`freed
      ensures refcount == old(refcount) - 1
      ensures freed <==> refcount == 0
    {
      refcount := refcount - 1;
      if refcount == 0 {
        freed := true;
      }
    }
  }
}
