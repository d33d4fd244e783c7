/** The two containers the sampling optimiser works on
    (fox-gui/dispers_sampling_optim.cpp): a growable vector with a spare
    capacity, and a fixed table of N = 3 rows stored one row after another in
    a single buffer. */
module TabArrays {

  /** pod_vector<T>: the elements in use and the capacity reserved for them. */
  class PodVector<T> {
    var elems: seq<T>
    var capacity: nat

    ghost predicate Valid()
      reads this
    {
      |elems| <= capacity
    }

    /** An empty vector with `capacity` slots reserved. */
    constructor (capacity: nat)
      ensures Valid() && elems == [] && this.capacity == capacity
    {
      elems := [];
      this.capacity := capacity;
    }

    /** push_back: the value goes after the last element. */
    method PushBack(x: T)
      requires Valid()
      modifies this
      ensures Valid() && elems == old(elems) + [x]
    {
      if capacity < |elems| + 1 {
        capacity := (|elems| + 1) * 3 / 2;
      }
      elems := elems + [x];
    }

    /** insert_at: when the capacity is short, it becomes 3/2 of the size
        needed; then the value goes at `index`, the elements before it keep
        their place and the later ones move one to the right. */
    method InsertAt(index: int, value: T)
      requires Valid() && 0 <= index <= |elems|
      modifies this
      ensures Valid()
      ensures elems == old(elems)[..index] + [value] + old(elems)[index..]
      ensures capacity == if old(capacity) < |old(elems)| + 1 then (|old(elems)| + 1) * 3 / 2 else old(capacity)
    {
      var required := |elems| + 1;
      if capacity < required {
        capacity := required * 3 / 2;
      }
      elems := elems[..index] + [value] + elems[index..];
    }

    /** operator[] used as an lvalue: only element i changes. */
    method Set(i: int, value: T)
      requires Valid() && 0 <= i < |elems|
      modifies this`elems
      ensures Valid() && elems == old(elems)[i := value]
    {
      elems := elems[i := value];
    }
  }

  /** Where cell (i, j) of a table of `size` columns lives in the buffer:
      every cell of the table has a place of its own inside the buffer. */
  lemma CellLayout(size: nat, i: int, j: int, i': int, j': int)
    requires 0 <= i < size && 0 <= j < 3 && 0 <= i' < size && 0 <= j' < 3
    ensures 0 <= i + size * j < 3 * size
    ensures i + size * j == i' + size * j' <==> i == i' && j == j'
  {
    if j == 0 {
    } else if j == 1 {
    } else {
    }
    if j' == 0 {
    } else if j' == 1 {
    } else {
    }
  }

  /** tab_array<double, 3>: a table of three rows of `size` entries, kept in
      one buffer of 3 * size entries, row after row. */
  class TabArray {
    const size: nat
    const cells: array<real>

    ghost predicate Valid()
      reads this
    {
      cells.Length == 3 * size
    }

    constructor (size: nat)
      ensures Valid() && this.size == size && fresh(cells)
    {
      this.size := size;
      cells := new real[3 * size];
    }

    /** at(i, j): entry i of row j, at offset i + size * j. */
    function At(i: int, j: int): (v: real)
      reads this, cells
      requires Valid() && 0 <= i < size && 0 <= j < 3
      ensures v == cells[i + size * j]
    {
      CellLayout(size, i, j, i, j);
      cells[i + size * j]
    }

    /** row(k): the `size` entries of row k, the same cells at(., k) names. */
    function Row(k: int): (r: seq<real>)
      reads this, cells
      requires Valid() && 0 <= k < 3
      ensures |r| == size
      ensures forall i :: 0 <= i < size ==> r[i] == At(i, k)
    {
      if k == 0 then cells[..size]
      else if k == 1 then cells[size..2 * size]
      else cells[2 * size..]
    }

    /** Writing at(i, j) changes that entry and no other. */
    method Set(i: int, j: int, v: real)
      requires Valid() && 0 <= i < size && 0 <= j < 3
      modifies cells
      ensures Valid() && At(i, j) == v
      ensures forall i', j' :: 0 <= i' < size && 0 <= j' < 3 && (i' != i || j' != j) ==> At(i', j') == old(At(i', j'))
    {
      CellLayout(size, i, j, i, j);
      cells[i + size * j] := v;
      forall i', j' | 0 <= i' < size && 0 <= j' < 3 && (i' != i || j' != j)
        ensures At(i', j') == old(At(i', j'))
      {
        CellLayout(size, i, j, i', j');
        CellLayout(size, i', j', i', j');
      }
    }
  }
}
