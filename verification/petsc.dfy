/** The parts of PETSc the AC assembly writes into, reduced to their effect on values:
    a matrix filled with MatSetValue(s) under ADD_VALUES, a vector filled with
    VecSetValues under INSERT_VALUES, the insertion-mode flag threaded between fillers,
    and the read-only DC Jacobian read row by row with MatGetRow. */
module Petsc {

  /** PETSc's InsertMode as far as the fillers use it. */
  datatype InsertMode = NotSetValues | InsertValues | AddValues

  /** One contribution handed to MatSetValue(s): value `val` at position (row, col). */
  datatype Entry = Entry(row: int, col: int, val: real)

  /** Value stored at (i, j) of a sparse matrix; positions never written read as zero. */
  function At(m: map<(int, int), real>, i: int, j: int): real {
    if (i, j) in m then m[(i, j)] else 0.0
  }

  /** Contributions applied in order under ADD_VALUES: each is added to what is stored. */
  function Accumulate(m: map<(int, int), real>, es: seq<Entry>): map<(int, int), real>
    decreases |es|
  {
    if es == [] then m
    else Accumulate(m[(es[0].row, es[0].col) := At(m, es[0].row, es[0].col) + es[0].val], es[1..])
  }

  /** Total of the contributions in `es` aimed at position (i, j). */
  function KeySum(es: seq<Entry>, i: int, j: int): real {
    if es == [] then 0.0
    else (if es[0].row == i && es[0].col == j then es[0].val else 0.0) + KeySum(es[1..], i, j)
  }

  /** Under ADD_VALUES the stored value is the old one plus every contribution to that
      position, whatever the order; positions no contribution names keep their value. */
  lemma {:induction false} AccumulateAt(m: map<(int, int), real>, es: seq<Entry>, i: int, j: int)
    ensures At(Accumulate(m, es), i, j) == At(m, i, j) + KeySum(es, i, j)
    decreases |es|
  {
    if es != [] {
      var m' := m[(es[0].row, es[0].col) := At(m, es[0].row, es[0].col) + es[0].val];
      AccumulateAt(m', es[1..], i, j);
    }
  }

  /** Two batches of ADD_VALUES calls have the effect of one batch holding both. */
  lemma {:induction false} AccumulateAppend(m: map<(int, int), real>, a: seq<Entry>, b: seq<Entry>)
    ensures Accumulate(m, a + b) == Accumulate(Accumulate(m, a), b)
    decreases |a|
  {
    if a == [] {
      assert a + b == b;
    } else {
      var m' := m[(a[0].row, a[0].col) := At(m, a[0].row, a[0].col) + a[0].val];
      assert (a + b)[0] == a[0];
      assert (a + b)[1..] == a[1..] + b;
      AccumulateAppend(m', a[1..], b);
    }
  }

  lemma {:induction false} KeySumAppend(a: seq<Entry>, b: seq<Entry>, i: int, j: int)
    ensures KeySum(a + b, i, j) == KeySum(a, i, j) + KeySum(b, i, j)
  {
    if a == [] {
      assert a + b == b;
    } else {
      assert (a + b)[0] == a[0];
      assert (a + b)[1..] == a[1..] + b;
      KeySumAppend(a[1..], b, i, j);
    }
  }

  /** A single MatSetValue call reaches its own position only. */
  lemma KeySumSingle(e: Entry, i: int, j: int)
    ensures KeySum([e], i, j) == if e.row == i && e.col == j then e.val else 0.0
  {
    assert [e][1..] == [];
  }

  /** The contributions of one MatSetValues call on a single row: `vals[k]` at (row, cols[k]). */
  function RowEntries(row: int, cols: seq<int>, vals: seq<real>): (es: seq<Entry>)
    requires |cols| == |vals|
    ensures |es| == |cols|
    ensures forall k :: 0 <= k < |es| ==> es[k] == Entry(row, cols[k], vals[k])
  {
    if cols == [] then [] else [Entry(row, cols[0], vals[0])] + RowEntries(row, cols[1..], vals[1..])
  }

  /** Total of the values whose column is `c` (the assembled value of a row at column c). */
  function ColumnSum(cols: seq<int>, vals: seq<real>, c: int): real
    requires |cols| == |vals|
  {
    if cols == [] then 0.0
    else (if cols[0] == c then vals[0] else 0.0) + ColumnSum(cols[1..], vals[1..], c)
  }

  /** A single-row batch only reaches its own row, and there its column totals. */
  lemma {:induction false} KeySumRowEntries(row: int, cols: seq<int>, vals: seq<real>, i: int, j: int)
    requires |cols| == |vals|
    ensures KeySum(RowEntries(row, cols, vals), i, j) == if i == row then ColumnSum(cols, vals, j) else 0.0
  {
    if cols != [] {
      KeySumRowEntries(row, cols[1..], vals[1..], i, j);
    }
  }

  /** Every column index moved by `n`. */
  function Shift(cols: seq<int>, n: int): (s: seq<int>)
    ensures |s| == |cols|
  {
    seq(|cols|, k requires 0 <= k < |cols| => cols[k] + n)
  }

  /** Column totals of a shifted row are those of the original row `n` columns to the left. */
  lemma {:induction false} ColumnSumShift(cols: seq<int>, vals: seq<real>, n: int, c: int)
    requires |cols| == |vals|
    ensures ColumnSum(Shift(cols, n), vals, c) == ColumnSum(cols, vals, c - n)
  {
    if cols != [] {
      assert Shift(cols, n)[1..] == Shift(cols[1..], n);
      ColumnSumShift(cols[1..], vals[1..], n, c);
    }
  }

  predicate Distinct(cols: seq<int>) {
    forall p, q :: 0 <= p < q < |cols| ==> cols[p] != cols[q]
  }

  /** In a row without repeated columns the total at a column present is its one value,
      and the total at a column absent is zero. */
  lemma {:induction false} ColumnSumDistinct(cols: seq<int>, vals: seq<real>, c: int)
    requires |cols| == |vals| && Distinct(cols)
    ensures forall k :: 0 <= k < |cols| && cols[k] == c ==> ColumnSum(cols, vals, c) == vals[k]
    ensures c !in cols ==> ColumnSum(cols, vals, c) == 0.0
  {
    if cols != [] {
      assert Distinct(cols[1..]);
      ColumnSumDistinct(cols[1..], vals[1..], c);
      if cols[0] == c {
        assert c !in cols[1..];
      }
    }
  }

  /** VecSetValues under INSERT_VALUES: `ix[k]` is overwritten with `y[k]`, in order. */
  function InsertAll(v: map<int, real>, ix: seq<int>, y: seq<real>): map<int, real>
    requires |ix| == |y|
    decreases |ix|
  {
    if ix == [] then v else InsertAll(v[ix[0] := y[0]], ix[1..], y[1..])
  }

  /** Indices that are not inserted keep their presence and their value. */
  lemma {:induction false} InsertAllOutside(v: map<int, real>, ix: seq<int>, y: seq<real>, i: int)
    requires |ix| == |y| && i !in ix
    ensures i in InsertAll(v, ix, y) <==> i in v
    ensures i in v ==> InsertAll(v, ix, y)[i] == v[i]
    decreases |ix|
  {
    if ix != [] {
      assert i !in ix[1..];
      InsertAllOutside(v[ix[0] := y[0]], ix[1..], y[1..], i);
    }
  }

  /** The last value inserted at an index is the one the vector holds there. */
  lemma {:induction false} InsertAllLast(v: map<int, real>, ix: seq<int>, y: seq<real>, k: nat)
    requires |ix| == |y| && k < |ix|
    requires forall q :: k < q < |ix| ==> ix[q] != ix[k]
    ensures ix[k] in InsertAll(v, ix, y) && InsertAll(v, ix, y)[ix[k]] == y[k]
    decreases k
  {
    if k == 0 {
      assert ix[0] !in ix[1..];
      InsertAllOutside(v[ix[0] := y[0]], ix[1..], y[1..], ix[0]);
    } else {
      InsertAllLast(v[ix[0] := y[0]], ix[1..], y[1..], k - 1);
    }
  }

  /** One row of an assembled sparse matrix as MatGetRow hands it out. */
  datatype SparseRow = SparseRow(cols: seq<int>, vals: seq<real>) {
    predicate Valid() { |cols| == |vals| }
  }

  /** The DC Jacobian, read only: rows by global index; rows never assembled are empty. */
  datatype Jacobian = Jacobian(rows: map<int, SparseRow>) {
    predicate Valid() {
      forall r :: r in rows ==> rows[r].Valid()
    }

    /** MatGetRow. */
    function Row(r: int): (row: SparseRow)
      requires Valid()
      ensures row.Valid()
      ensures r !in rows ==> row.cols == []
    {
      if r in rows then rows[r] else SparseRow([], [])
    }

    /** MatGetValues on one position: the assembled value at (i, j). */
    function Value(i: int, j: int): real
      requires Valid()
    {
      ColumnSum(Row(i).cols, Row(i).vals, j)
    }
  }

  /** A PETSc matrix (Mat) being filled with ADD_VALUES. */
  class Mat {
    var entries: map<(int, int), real>
    /** Number of MAT_FLUSH_ASSEMBLY flushes so far. */
    var flushes: nat

    constructor ()
      ensures entries == map[] && flushes == 0
    {
      entries := map[];
      flushes := 0;
    }

    /** MatSetValue(A, row, col, v, ADD_VALUES). */
    method AddValue(row: int, col: int, v: real)
      modifies this
      ensures entries == Accumulate(old(entries), [Entry(row, col, v)])
      ensures flushes == old(flushes)
    {
      entries := entries[(row, col) := At(entries, row, col) + v];
    }

    /** MatSetValues(A, 1, &row, |cols|, cols, vals, ADD_VALUES). */
    method AddValues(row: int, cols: seq<int>, vals: seq<real>)
      requires |cols| == |vals|
      modifies this
      ensures entries == Accumulate(old(entries), RowEntries(row, cols, vals))
      ensures flushes == old(flushes)
    {
      entries := Accumulate(entries, RowEntries(row, cols, vals));
    }

    /** MatAssemblyBegin/End(A, MAT_FLUSH_ASSEMBLY): stored values are kept. */
    method FlushAssembly()
      modifies this
      ensures entries == old(entries)
      ensures flushes == old(flushes) + 1
    {
      flushes := flushes + 1;
    }
  }

  /** A PETSc vector (Vec) filled with INSERT_VALUES. */
  class Vec {
    var values: map<int, real>

    constructor ()
      ensures values == map[]
    {
      values := map[];
    }

    /** VecSetValues(x, |ix|, ix, y, INSERT_VALUES). */
    method SetValues(ix: seq<int>, y: seq<real>)
      requires |ix| == |y|
      modifies this
      ensures values == InsertAll(old(values), ix, y)
    {
      values := InsertAll(values, ix, y);
    }
  }
}
