/** What the metal-region fillers add to the AC matrix and to the transformation
    matrix, as sequences of ADD_VALUES contributions, with the layout properties
    proved about them. The methods of MetalAc.MetalSimulationRegion are proved to
    apply exactly these sequences. */
module AcMatrix {
  import opened Petsc
  import opened Dof

  // ---------------------------------------------------------------------------
  // Target rows and redirection

  /** Both the adjacent region and the adjacent node were supplied. */
  predicate Redirected(adjRegion: Option<DofLayout>, adjNode: Option<FvmNode>) {
    adjRegion.Some? && adjNode.Some?
  }

  /** When redirecting, the adjacent region tracks every variable in `vs`. */
  predicate AdjacentTracks(adjRegion: Option<DofLayout>, adjNode: Option<FvmNode>, vs: seq<Variable>) {
    Redirected(adjRegion, adjNode) ==>
      adjRegion.value.Valid() && forall v :: v in vs ==> v in adjRegion.value.offset
  }

  /** The (real, imaginary) rows that receive the equations of variable `v` of `node`:
      the node's own, or the adjacent node's in the adjacent region's numbering. */
  function TargetRows(node: FvmNode, layout: DofLayout, v: Variable,
                      adjRegion: Option<DofLayout>, adjNode: Option<FvmNode>): (rows: (int, int))
    requires layout.Valid() && v in layout.offset
    requires AdjacentTracks(adjRegion, adjNode, [v])
    ensures var base := if Redirected(adjRegion, adjNode) then adjNode.value.globalOffset else node.globalOffset;
            var n := if Redirected(adjRegion, adjNode) then adjRegion.value.nVariables else layout.nVariables;
            base <= rows.0 < base + n && rows.1 == rows.0 + n
  {
    if Redirected(adjRegion, adjNode) then
      assert v in [v];
      (RealIndex(adjNode.value.globalOffset, adjRegion.value, v), ImagIndex(adjNode.value.globalOffset, adjRegion.value, v))
    else
      (RealIndex(node.globalOffset, layout, v), ImagIndex(node.globalOffset, layout, v))
  }

  /** When the adjacent node's block and the node's own block are disjoint, the target
      rows stay in the node's own block exactly when no redirection pair is given. */
  lemma RedirectionOnlyWhenBoth(node: FvmNode, layout: DofLayout, v: Variable,
                                adjRegion: Option<DofLayout>, adjNode: Option<FvmNode>)
    requires layout.Valid() && v in layout.offset
    requires AdjacentTracks(adjRegion, adjNode, [v])
    requires Redirected(adjRegion, adjNode) ==>
      BlocksDisjoint(node.globalOffset, layout.nVariables, adjNode.value.globalOffset, adjRegion.value.nVariables)
    ensures var rows := TargetRows(node, layout, v, adjRegion, adjNode);
            (node.globalOffset <= rows.0 < node.globalOffset + 2 * layout.nVariables) <==> !Redirected(adjRegion, adjNode)
    ensures !Redirected(adjRegion, adjNode) ==>
      TargetRows(node, layout, v, adjRegion, adjNode)
        == (RealIndex(node.globalOffset, layout, v), ImagIndex(node.globalOffset, layout, v))
  {
  }

  // ---------------------------------------------------------------------------
  // Copying a Jacobian row into the real and imaginary blocks

  /** The two MatSetValues calls for one Jacobian row: the row as it is into row
      `acReal`, and with every column moved by `n` into row `acImag`. */
  function CopyRow(acReal: int, acImag: int, n: int, row: SparseRow): seq<Entry>
    requires row.Valid()
  {
    RowEntries(acReal, row.cols, row.vals) + RowEntries(acImag, Shift(row.cols, n), row.vals)
  }

  /** What the copy adds at any position: the row's value at column j in the real row,
      its value at column j - n in the imaginary row, and nothing anywhere else. */
  lemma CopyRowAt(acReal: int, acImag: int, n: int, row: SparseRow, i: int, j: int)
    requires row.Valid()
    ensures KeySum(CopyRow(acReal, acImag, n, row), i, j)
         == (if i == acReal then ColumnSum(row.cols, row.vals, j) else 0.0)
          + (if i == acImag then ColumnSum(row.cols, row.vals, j - n) else 0.0)
  {
    KeySumAppend(RowEntries(acReal, row.cols, row.vals), RowEntries(acImag, Shift(row.cols, n), row.vals), i, j);
    KeySumRowEntries(acReal, row.cols, row.vals, i, j);
    KeySumRowEntries(acImag, Shift(row.cols, n), row.vals, i, j);
    if i == acImag {
      ColumnSumShift(row.cols, row.vals, n, j);
    }
  }

  /** The doubling: for an assembled row (no repeated column) and distinct target rows,
      every entry (c, v) adds v at (acReal, c) and v at (acImag, c + n), and every other
      position of the matrix keeps its value: no cross term between the blocks. */
  lemma Doubling(m: map<(int, int), real>, acReal: int, acImag: int, n: int, row: SparseRow)
    requires row.Valid() && Distinct(row.cols) && acReal != acImag
    ensures var m' := Accumulate(m, CopyRow(acReal, acImag, n, row));
      && (forall k :: 0 <= k < |row.cols| ==>
            At(m', acReal, row.cols[k]) == At(m, acReal, row.cols[k]) + row.vals[k])
      && (forall k :: 0 <= k < |row.cols| ==>
            At(m', acImag, row.cols[k] + n) == At(m, acImag, row.cols[k] + n) + row.vals[k])
      && (forall i, j :: !(i == acReal && j in row.cols) && !(i == acImag && j - n in row.cols) ==>
            At(m', i, j) == At(m, i, j))
  {
    var m' := Accumulate(m, CopyRow(acReal, acImag, n, row));
    forall k | 0 <= k < |row.cols|
      ensures At(m', acReal, row.cols[k]) == At(m, acReal, row.cols[k]) + row.vals[k]
      ensures At(m', acImag, row.cols[k] + n) == At(m, acImag, row.cols[k] + n) + row.vals[k]
    {
      AccumulateAt(m, CopyRow(acReal, acImag, n, row), acReal, row.cols[k]);
      CopyRowAt(acReal, acImag, n, row, acReal, row.cols[k]);
      AccumulateAt(m, CopyRow(acReal, acImag, n, row), acImag, row.cols[k] + n);
      CopyRowAt(acReal, acImag, n, row, acImag, row.cols[k] + n);
      ColumnSumDistinct(row.cols, row.vals, row.cols[k]);
    }
    forall i, j | !(i == acReal && j in row.cols) && !(i == acImag && j - n in row.cols)
      ensures At(m', i, j) == At(m, i, j)
    {
      AccumulateAt(m, CopyRow(acReal, acImag, n, row), i, j);
      CopyRowAt(acReal, acImag, n, row, i, j);
      ColumnSumDistinct(row.cols, row.vals, j);
      ColumnSumDistinct(row.cols, row.vals, j - n);
    }
  }

  // ---------------------------------------------------------------------------
  // Thermal reactive term

  /** density * HeatCapacity(T) * omega * volume: the jwC admittance of thermal storage. */
  function ThermalTerm(node: FvmNode, material: Material, omega: real): real {
    node.data.density * material.heatCapacity(node.data.T) * omega * node.volume
  }

  /** `c` at (realRow, imagRow) and its negation at (imagRow, realRow). */
  function Reactive(realRow: int, imagRow: int, c: real): seq<Entry> {
    [Entry(realRow, imagRow, c), Entry(imagRow, realRow, -c)]
  }

  /** The two cross entries change by exact negatives of each other, so their changes sum
      to zero for every frequency; nothing else changes. */
  lemma ReactiveAntisymmetric(m: map<(int, int), real>, realRow: int, imagRow: int, c: real, i: int, j: int)
    requires realRow != imagRow
    ensures var m' := Accumulate(m, Reactive(realRow, imagRow, c));
      && At(m', realRow, imagRow) == At(m, realRow, imagRow) + c
      && At(m', imagRow, realRow) == At(m, imagRow, realRow) - c
      && (At(m', realRow, imagRow) - At(m, realRow, imagRow)) + (At(m', imagRow, realRow) - At(m, imagRow, realRow)) == 0.0
      && ((i, j) != (realRow, imagRow) && (i, j) != (imagRow, realRow) ==> At(m', i, j) == At(m, i, j))
  {
    var es := Reactive(realRow, imagRow, c);
    var e1, e2 := Entry(realRow, imagRow, c), Entry(imagRow, realRow, -c);
    assert es == [e1] + [e2];
    forall p, q
      ensures KeySum(es, p, q)
           == (if p == realRow && q == imagRow then c else 0.0) + (if p == imagRow && q == realRow then -c else 0.0)
    {
      KeySumAppend([e1], [e2], p, q);
      KeySumSingle(e1, p, q);
      KeySumSingle(e2, p, q);
    }
    AccumulateAt(m, es, realRow, imagRow);
    AccumulateAt(m, es, imagRow, realRow);
    AccumulateAt(m, es, i, j);
  }

  // ---------------------------------------------------------------------------
  // The nodal filler

  /** Copy of the Jacobian row of variable `v` (read at the node's own real index) into
      the target rows; columns are moved by this region's variable count. */
  function VariableCopy(layout: DofLayout, node: FvmNode, J: Jacobian, v: Variable,
                        adjRegion: Option<DofLayout>, adjNode: Option<FvmNode>): seq<Entry>
    requires layout.Valid() && v in layout.offset && J.Valid()
    requires AdjacentTracks(adjRegion, adjNode, [v])
  {
    var rows := TargetRows(node, layout, v, adjRegion, adjNode);
    CopyRow(rows.0, rows.1, layout.nVariables, J.Row(RealIndex(node.globalOffset, layout, v)))
  }

  /** The copies for the first `k` variables of `vs`, in order. */
  function CopyVariables(layout: DofLayout, node: FvmNode, J: Jacobian, vs: seq<Variable>, k: nat,
                         adjRegion: Option<DofLayout>, adjNode: Option<FvmNode>): seq<Entry>
    requires layout.Valid() && J.Valid() && (forall v :: v in vs ==> v in layout.offset)
    requires AdjacentTracks(adjRegion, adjNode, vs) && k <= |vs|
  {
    if k == 0 then []
    else
      assert vs[k - 1] in vs;
      CopyVariables(layout, node, J, vs, k - 1, adjRegion, adjNode)
        + VariableCopy(layout, node, J, vs[k - 1], adjRegion, adjNode)
  }

  /** The thermal reactive term for the node's temperature rows (redirected like the copy). */
  function ThermalReactive(layout: DofLayout, material: Material, node: FvmNode, omega: real,
                           adjRegion: Option<DofLayout>, adjNode: Option<FvmNode>): seq<Entry>
    requires layout.Valid() && Temperature in layout.offset
    requires AdjacentTracks(adjRegion, adjNode, [Temperature])
  {
    var rows := TargetRows(node, layout, Temperature, adjRegion, adjNode);
    Reactive(rows.0, rows.1, ThermalTerm(node, material, omega))
  }

  /** Everything the all-variable nodal filler adds to the AC matrix. */
  function NodalContributions(layout: DofLayout, enableTl: bool, material: Material, node: FvmNode,
                              J: Jacobian, omega: real,
                              adjRegion: Option<DofLayout>, adjNode: Option<FvmNode>): seq<Entry>
    requires Tracks(layout, enableTl) && J.Valid()
    requires AdjacentTracks(adjRegion, adjNode, Variables(enableTl))
  {
    CopyVariables(layout, node, J, Variables(enableTl), |Variables(enableTl)|, adjRegion, adjNode)
      + (if enableTl then ThermalReactive(layout, material, node, omega, adjRegion, adjNode) else [])
  }

  /** Everything the single-variable nodal filler adds for variable `v`. */
  function NodalVariableContributions(layout: DofLayout, enableTl: bool, material: Material, node: FvmNode,
                                      v: Variable, J: Jacobian, omega: real,
                                      adjRegion: Option<DofLayout>, adjNode: Option<FvmNode>): seq<Entry>
    requires Tracks(layout, enableTl) && v in layout.offset && J.Valid()
    requires AdjacentTracks(adjRegion, adjNode, [v])
  {
    VariableCopy(layout, node, J, v, adjRegion, adjNode)
      + (if v == Temperature && enableTl then ThermalReactive(layout, material, node, omega, adjRegion, adjNode) else [])
  }

  /** Applying the nodal filler's contributions is applying the row copies and then, when
      the lattice temperature is solved, the thermal reactive term. */
  lemma NodalSplit(m: map<(int, int), real>, layout: DofLayout, enableTl: bool, material: Material, node: FvmNode,
                   J: Jacobian, omega: real, adjRegion: Option<DofLayout>, adjNode: Option<FvmNode>)
    requires Tracks(layout, enableTl) && J.Valid()
    requires AdjacentTracks(adjRegion, adjNode, Variables(enableTl))
    ensures enableTl ==> Temperature in layout.offset && AdjacentTracks(adjRegion, adjNode, [Temperature])
    ensures enableTl ==>
      Accumulate(m, NodalContributions(layout, enableTl, material, node, J, omega, adjRegion, adjNode))
        == Accumulate(Accumulate(m, CopyVariables(layout, node, J, Variables(enableTl), |Variables(enableTl)|, adjRegion, adjNode)),
                      ThermalReactive(layout, material, node, omega, adjRegion, adjNode))
    ensures !enableTl ==>
      NodalContributions(layout, enableTl, material, node, J, omega, adjRegion, adjNode)
        == CopyVariables(layout, node, J, Variables(enableTl), |Variables(enableTl)|, adjRegion, adjNode)
  {
    var copies := CopyVariables(layout, node, J, Variables(enableTl), |Variables(enableTl)|, adjRegion, adjNode);
    if enableTl {
      assert Temperature in Variables(enableTl);
      AccumulateAppend(m, copies, ThermalReactive(layout, material, node, omega, adjRegion, adjNode));
    } else {
      assert copies + [] == copies;
    }
  }

  /** Every row a contribution of the copies of `vs` lands in is a target row of one of them. */
  lemma {:induction false} CopyVariablesRows(layout: DofLayout, node: FvmNode, J: Jacobian, vs: seq<Variable>, k: nat,
                                             adjRegion: Option<DofLayout>, adjNode: Option<FvmNode>, e: Entry)
    requires layout.Valid() && J.Valid() && (forall v :: v in vs ==> v in layout.offset)
    requires AdjacentTracks(adjRegion, adjNode, vs) && k <= |vs|
    requires e in CopyVariables(layout, node, J, vs, k, adjRegion, adjNode)
    ensures exists v :: v in vs && AdjacentTracks(adjRegion, adjNode, [v]) &&
              (e.row == TargetRows(node, layout, v, adjRegion, adjNode).0 ||
               e.row == TargetRows(node, layout, v, adjRegion, adjNode).1)
    decreases k
  {
    var last := vs[k - 1];
    assert last in vs;
    if e in CopyVariables(layout, node, J, vs, k - 1, adjRegion, adjNode) {
      CopyVariablesRows(layout, node, J, vs, k - 1, adjRegion, adjNode, e);
    } else {
      var rows := TargetRows(node, layout, last, adjRegion, adjNode);
      var row := J.Row(RealIndex(node.globalOffset, layout, last));
      var a := RowEntries(rows.0, row.cols, row.vals);
      var b := RowEntries(rows.1, Shift(row.cols, layout.nVariables), row.vals);
      assert e in a + b;
      if e in a {
        var q :| 0 <= q < |a| && a[q] == e;
      } else {
        var q :| 0 <= q < |b| && b[q] == e;
      }
    }
  }

  /** With a redirection pair whose block is disjoint from the node's own, the nodal
      filler writes nothing into the node's own rows: every contribution lands in the
      adjacent node's block. */
  lemma RedirectedFillAvoidsOwnRows(layout: DofLayout, enableTl: bool, material: Material, node: FvmNode,
                                    J: Jacobian, omega: real,
                                    adjRegion: Option<DofLayout>, adjNode: Option<FvmNode>, e: Entry)
    requires Tracks(layout, enableTl) && J.Valid()
    requires AdjacentTracks(adjRegion, adjNode, Variables(enableTl))
    requires Redirected(adjRegion, adjNode)
    requires BlocksDisjoint(node.globalOffset, layout.nVariables, adjNode.value.globalOffset, adjRegion.value.nVariables)
    requires e in NodalContributions(layout, enableTl, material, node, J, omega, adjRegion, adjNode)
    ensures adjNode.value.globalOffset <= e.row < adjNode.value.globalOffset + 2 * adjRegion.value.nVariables
    ensures !(node.globalOffset <= e.row < node.globalOffset + 2 * layout.nVariables)
  {
    var copies := CopyVariables(layout, node, J, Variables(enableTl), |Variables(enableTl)|, adjRegion, adjNode);
    if e in copies {
      CopyVariablesRows(layout, node, J, Variables(enableTl), |Variables(enableTl)|, adjRegion, adjNode, e);
    } else {
      assert enableTl;
      assert AdjacentTracks(adjRegion, adjNode, [Temperature]);
      var rows := TargetRows(node, layout, Temperature, adjRegion, adjNode);
      assert e.row == rows.0 || e.row == rows.1;
    }
  }

  // ---------------------------------------------------------------------------
  // The region driver

  /** Owned nodes not on a boundary (boundary_id invalid), in order. */
  function InteriorNodes(nodes: seq<FvmNode>): (inner: seq<FvmNode>)
    ensures forall k :: 0 <= k < |inner| ==> inner[k].boundaryId.None?
  {
    if nodes == [] then []
    else
      var init := InteriorNodes(nodes[..|nodes| - 1]);
      var last := nodes[|nodes| - 1];
      if last.boundaryId.None? then init + [last] else init
  }

  /** A node is kept exactly when it is one of `nodes` and carries no boundary. */
  lemma {:induction false} InteriorNodesMembers(nodes: seq<FvmNode>)
    ensures forall n :: n in InteriorNodes(nodes) <==> n in nodes && n.boundaryId.None?
    decreases |nodes|
  {
    if nodes != [] {
      InteriorNodesMembers(nodes[..|nodes| - 1]);
      assert nodes == nodes[..|nodes| - 1] + [nodes[|nodes| - 1]];
    }
  }

  /** The nodal filler's contributions, without redirection, for each node of `nodes`. */
  function NodalAll(layout: DofLayout, enableTl: bool, material: Material, nodes: seq<FvmNode>,
                    J: Jacobian, omega: real): seq<Entry>
    requires Tracks(layout, enableTl) && J.Valid()
  {
    if nodes == [] then []
    else NodalAll(layout, enableTl, material, nodes[..|nodes| - 1], J, omega)
           + NodalContributions(layout, enableTl, material, nodes[|nodes| - 1], J, omega, None, None)
  }

  /** Applying the copies of the first `k` variables and then that of variable `k` is
      applying the copies of the first `k + 1`. */
  lemma CopyVariablesStep(m: map<(int, int), real>, layout: DofLayout, node: FvmNode, J: Jacobian,
                          vs: seq<Variable>, k: nat, adjRegion: Option<DofLayout>, adjNode: Option<FvmNode>)
    requires layout.Valid() && J.Valid() && (forall w :: w in vs ==> w in layout.offset)
    requires AdjacentTracks(adjRegion, adjNode, vs) && k < |vs|
    ensures AdjacentTracks(adjRegion, adjNode, [vs[k]])
    ensures Accumulate(m, CopyVariables(layout, node, J, vs, k + 1, adjRegion, adjNode))
         == Accumulate(Accumulate(m, CopyVariables(layout, node, J, vs, k, adjRegion, adjNode)),
                       VariableCopy(layout, node, J, vs[k], adjRegion, adjNode))
  {
    assert vs[k] in vs;
    AccumulateAppend(m, CopyVariables(layout, node, J, vs, k, adjRegion, adjNode), VariableCopy(layout, node, J, vs[k], adjRegion, adjNode));
  }

  /** Extending the node list by one node extends the contributions by that node's. */
  lemma NodalAllSnoc(layout: DofLayout, enableTl: bool, material: Material, nodes: seq<FvmNode>,
                     node: FvmNode, J: Jacobian, omega: real)
    requires Tracks(layout, enableTl) && J.Valid()
    ensures NodalAll(layout, enableTl, material, nodes + [node], J, omega)
         == NodalAll(layout, enableTl, material, nodes, J, omega)
            + NodalContributions(layout, enableTl, material, node, J, omega, None, None)
  {
    assert (nodes + [node])[..|nodes|] == nodes;
  }

  /** The interior nodes of a prefix one longer. */
  lemma InteriorNodesPrefix(nodes: seq<FvmNode>, k: nat)
    requires k < |nodes|
    ensures nodes[k].boundaryId.None? ==> InteriorNodes(nodes[..k + 1]) == InteriorNodes(nodes[..k]) + [nodes[k]]
    ensures nodes[k].boundaryId.Some? ==> InteriorNodes(nodes[..k + 1]) == InteriorNodes(nodes[..k])
  {
    assert nodes[..k + 1][..k] == nodes[..k];
  }

  /** What the region driver adds while visiting the first `k` owned nodes: the nodal
      filler's contributions, without redirection, for each of them not on a boundary. */
  function RegionContributions(layout: DofLayout, enableTl: bool, material: Material, nodes: seq<FvmNode>, k: nat,
                               J: Jacobian, omega: real): seq<Entry>
    requires Tracks(layout, enableTl) && J.Valid() && k <= |nodes|
  {
    if k == 0 then []
    else if nodes[k - 1].boundaryId.Some? then RegionContributions(layout, enableTl, material, nodes, k - 1, J, omega)
    else RegionContributions(layout, enableTl, material, nodes, k - 1, J, omega)
           + NodalContributions(layout, enableTl, material, nodes[k - 1], J, omega, None, None)
  }

  /** The driver's contributions are the nodal filler's for exactly the interior nodes, in order. */
  lemma {:induction false} RegionContributionsInterior(layout: DofLayout, enableTl: bool, material: Material,
                                                       nodes: seq<FvmNode>, k: nat, J: Jacobian, omega: real)
    requires Tracks(layout, enableTl) && J.Valid() && k <= |nodes|
    ensures RegionContributions(layout, enableTl, material, nodes, k, J, omega)
         == NodalAll(layout, enableTl, material, InteriorNodes(nodes[..k]), J, omega)
    decreases k
  {
    if k == 0 {
      assert nodes[..0] == [];
    } else {
      RegionContributionsInterior(layout, enableTl, material, nodes, k - 1, J, omega);
      InteriorNodesPrefix(nodes, k - 1);
      if nodes[k - 1].boundaryId.None? {
        NodalAllSnoc(layout, enableTl, material, InteriorNodes(nodes[..k - 1]), nodes[k - 1], J, omega);
      }
    }
  }

  /** One more node visited by the driver: its contributions, if any, come after the others'. */
  lemma RegionStep(m: map<(int, int), real>, layout: DofLayout, enableTl: bool, material: Material,
                   nodes: seq<FvmNode>, k: nat, J: Jacobian, omega: real)
    requires Tracks(layout, enableTl) && J.Valid() && k < |nodes|
    ensures nodes[k].boundaryId.Some? ==>
      RegionContributions(layout, enableTl, material, nodes, k + 1, J, omega)
        == RegionContributions(layout, enableTl, material, nodes, k, J, omega)
    ensures nodes[k].boundaryId.None? ==>
      Accumulate(m, RegionContributions(layout, enableTl, material, nodes, k + 1, J, omega))
        == Accumulate(Accumulate(m, RegionContributions(layout, enableTl, material, nodes, k, J, omega)),
                      NodalContributions(layout, enableTl, material, nodes[k], J, omega, None, None))
  {
    AccumulateAppend(m, RegionContributions(layout, enableTl, material, nodes, k, J, omega),
                     NodalContributions(layout, enableTl, material, nodes[k], J, omega, None, None));
  }

  // ---------------------------------------------------------------------------
  // The transformation matrix

  /** MatGetValues(J, d, d) at the real index of `v` of `node`. */
  function DiagonalEntry(layout: DofLayout, node: FvmNode, J: Jacobian, v: Variable): real
    requires layout.Valid() && v in layout.offset && J.Valid()
  {
    var d := RealIndex(node.globalOffset, layout, v);
    J.Value(d, d)
  }

  /** Every variable other than potential has a nonzero diagonal Jacobian entry at each node. */
  predicate DiagonalsNonZero(layout: DofLayout, enableTl: bool, nodes: seq<FvmNode>, J: Jacobian)
    requires Tracks(layout, enableTl) && J.Valid()
  {
    enableTl ==> forall k :: 0 <= k < |nodes| ==> DiagonalEntry(layout, nodes[k], J, Temperature) != 0.0
  }

  /** The 2x2 block of `v` of `node`, in the order of the four MatSetValue calls. */
  function TransformationBlock(layout: DofLayout, node: FvmNode, J: Jacobian, v: Variable, omega: real): seq<Entry>
    requires layout.Valid() && v in layout.offset && J.Valid()
    requires v != Potential ==> DiagonalEntry(layout, node, J, v) != 0.0
  {
    var d := RealIndex(node.globalOffset, layout, v);
    var i := ImagIndex(node.globalOffset, layout, v);
    [Entry(d, d, 1.0)]
      + (if v != Potential
         then [Entry(d, i, omega / DiagonalEntry(layout, node, J, v)), Entry(i, d, -omega / DiagonalEntry(layout, node, J, v))]
         else [])
      + [Entry(i, i, 1.0)]
  }

  /** The blocks of the first `k` variables of `vs` of one node, in order. */
  function TransformationNode(layout: DofLayout, node: FvmNode, J: Jacobian, vs: seq<Variable>, k: nat, omega: real): seq<Entry>
    requires layout.Valid() && J.Valid() && k <= |vs|
    requires forall v :: v in vs ==> v in layout.offset && (v != Potential ==> DiagonalEntry(layout, node, J, v) != 0.0)
  {
    if k == 0 then []
    else
      assert vs[k - 1] in vs;
      TransformationNode(layout, node, J, vs, k - 1, omega) + TransformationBlock(layout, node, J, vs[k - 1], omega)
  }

  /** Everything the transformation builder adds for the first `k` owned nodes, node by node. */
  function TransformationContributions(layout: DofLayout, enableTl: bool, nodes: seq<FvmNode>, k: nat, J: Jacobian, omega: real): seq<Entry>
    requires Tracks(layout, enableTl) && J.Valid() && DiagonalsNonZero(layout, enableTl, nodes, J) && k <= |nodes|
  {
    if k == 0 then []
    else
      TransformationContributions(layout, enableTl, nodes, k - 1, J, omega)
        + TransformationNode(layout, nodes[k - 1], J, Variables(enableTl), |Variables(enableTl)|, omega)
  }

  /** One more variable of a node: its block is applied after the others'. */
  lemma TransformationNodeStep(m: map<(int, int), real>, layout: DofLayout, node: FvmNode, J: Jacobian,
                               vs: seq<Variable>, k: nat, omega: real)
    requires layout.Valid() && J.Valid() && k < |vs|
    requires forall w :: w in vs ==> w in layout.offset && (w != Potential ==> DiagonalEntry(layout, node, J, w) != 0.0)
    ensures vs[k] in layout.offset && (vs[k] != Potential ==> DiagonalEntry(layout, node, J, vs[k]) != 0.0)
    ensures Accumulate(m, TransformationNode(layout, node, J, vs, k + 1, omega))
         == Accumulate(Accumulate(m, TransformationNode(layout, node, J, vs, k, omega)), TransformationBlock(layout, node, J, vs[k], omega))
  {
    assert vs[k] in vs;
    AccumulateAppend(m, TransformationNode(layout, node, J, vs, k, omega), TransformationBlock(layout, node, J, vs[k], omega));
  }

  /** One more node: its blocks are applied after the others'. */
  lemma TransformationStep(m: map<(int, int), real>, layout: DofLayout, enableTl: bool, nodes: seq<FvmNode>, k: nat,
                           J: Jacobian, omega: real)
    requires Tracks(layout, enableTl) && J.Valid() && DiagonalsNonZero(layout, enableTl, nodes, J) && k < |nodes|
    ensures enableTl ==> DiagonalEntry(layout, nodes[k], J, Temperature) != 0.0
    ensures Accumulate(m, TransformationContributions(layout, enableTl, nodes, k + 1, J, omega))
         == Accumulate(Accumulate(m, TransformationContributions(layout, enableTl, nodes, k, J, omega)),
                       TransformationNode(layout, nodes[k], J, Variables(enableTl), |Variables(enableTl)|, omega))
  {
    AccumulateAppend(m, TransformationContributions(layout, enableTl, nodes, k, J, omega),
                     TransformationNode(layout, nodes[k], J, Variables(enableTl), |Variables(enableTl)|, omega));
  }

  /** The block adds one on both diagonal positions; for every variable except potential
      it adds omega/diag at (real, imag) and its negation at (imag, real); it changes no
      other position. */
  lemma TransformationBlockAt(m: map<(int, int), real>, layout: DofLayout, node: FvmNode, J: Jacobian,
                              v: Variable, omega: real, i: int, j: int)
    requires layout.Valid() && v in layout.offset && J.Valid()
    requires v != Potential ==> DiagonalEntry(layout, node, J, v) != 0.0
    ensures var re := RealIndex(node.globalOffset, layout, v);
            var im := ImagIndex(node.globalOffset, layout, v);
            var cross := if v != Potential then omega / DiagonalEntry(layout, node, J, v) else 0.0;
            var m' := Accumulate(m, TransformationBlock(layout, node, J, v, omega));
      && At(m', re, re) == At(m, re, re) + 1.0
      && At(m', im, im) == At(m, im, im) + 1.0
      && At(m', re, im) == At(m, re, im) + cross
      && At(m', im, re) == At(m, im, re) - cross
      && ((i != re && i != im) || (j != re && j != im) ==> At(m', i, j) == At(m, i, j))
  {
    var re := RealIndex(node.globalOffset, layout, v);
    var im := ImagIndex(node.globalOffset, layout, v);
    var es := TransformationBlock(layout, node, J, v, omega);
    var cross := if v != Potential then omega / DiagonalEntry(layout, node, J, v) else 0.0;
    var x := if v != Potential then [Entry(re, im, cross), Entry(im, re, -cross)] else [];
    if v != Potential {
      var diag := DiagonalEntry(layout, node, J, v);
      assert -omega / diag == -(omega / diag);
      assert es == [Entry(re, re, 1.0)] + x + [Entry(im, im, 1.0)];
    } else {
      assert es == [Entry(re, re, 1.0)] + x + [Entry(im, im, 1.0)];
    }
    forall p, q
      ensures KeySum(es, p, q)
           == (if p == re && q == re then 1.0 else 0.0) + (if p == im && q == im then 1.0 else 0.0)
            + (if p == re && q == im then cross else 0.0) + (if p == im && q == re then -cross else 0.0)
    {
      KeySumAppend([Entry(re, re, 1.0)] + x, [Entry(im, im, 1.0)], p, q);
      KeySumAppend([Entry(re, re, 1.0)], x, p, q);
      KeySumSingle(Entry(re, re, 1.0), p, q);
      KeySumSingle(Entry(im, im, 1.0), p, q);
      if v != Potential {
        assert x == [Entry(re, im, cross)] + [Entry(im, re, -cross)];
        KeySumAppend([Entry(re, im, cross)], [Entry(im, re, -cross)], p, q);
        KeySumSingle(Entry(re, im, cross), p, q);
        KeySumSingle(Entry(im, re, -cross), p, q);
      } else {
        assert KeySum(x, p, q) == 0.0;
      }
    }
    AccumulateAt(m, es, re, re);
    AccumulateAt(m, es, im, im);
    AccumulateAt(m, es, re, im);
    AccumulateAt(m, es, im, re);
    AccumulateAt(m, es, i, j);
  }

  /** At zero frequency a block is the identity: its cross positions do not change. */
  lemma TransformationAtZeroFrequency(m: map<(int, int), real>, layout: DofLayout, node: FvmNode, J: Jacobian, v: Variable)
    requires layout.Valid() && v in layout.offset && J.Valid()
    requires v != Potential ==> DiagonalEntry(layout, node, J, v) != 0.0
    ensures var re := RealIndex(node.globalOffset, layout, v);
            var im := ImagIndex(node.globalOffset, layout, v);
            var m' := Accumulate(m, TransformationBlock(layout, node, J, v, 0.0));
      && At(m', re, im) == At(m, re, im)
      && At(m', im, re) == At(m, im, re)
      && At(m', re, re) == At(m, re, re) + 1.0
      && At(m', im, im) == At(m, im, im) + 1.0
  {
    TransformationBlockAt(m, layout, node, J, v, 0.0, 0, 0);
  }

  // ---------------------------------------------------------------------------
  // Interface constraint

  /** The two MatSetValues calls tying `v` of `node` to `v` of the adjacent node:
      +1 at the own column and -1 at the adjacent column, in the real and the imaginary row. */
  function EqualityRows(layout: DofLayout, node: FvmNode, adjLayout: DofLayout, adjNode: FvmNode, v: Variable): seq<Entry>
    requires layout.Valid() && v in layout.offset && adjLayout.Valid() && v in adjLayout.offset
  {
    var re := RealIndex(node.globalOffset, layout, v);
    var im := ImagIndex(node.globalOffset, layout, v);
    RowEntries(re, [re, RealIndex(adjNode.globalOffset, adjLayout, v)], [1.0, -1.0])
      + RowEntries(im, [im, ImagIndex(adjNode.globalOffset, adjLayout, v)], [1.0, -1.0])
  }

  /** Everything the all-variable interface constraint adds. */
  function ForceEqualContributions(layout: DofLayout, enableTl: bool, node: FvmNode,
                                   adjLayout: DofLayout, adjNode: FvmNode): seq<Entry>
    requires Tracks(layout, enableTl) && Tracks(adjLayout, enableTl)
  {
    EqualityRows(layout, node, adjLayout, adjNode, Potential)
      + (if enableTl then EqualityRows(layout, node, adjLayout, adjNode, Temperature) else [])
  }

  /** The contributions to row `row` applied to the vector `x`. */
  function RowApply(es: seq<Entry>, row: int, x: int -> real): real {
    if es == [] then 0.0
    else (if es[0].row == row then es[0].val * x(es[0].col) else 0.0) + RowApply(es[1..], row, x)
  }

  lemma {:induction false} RowApplyAppend(a: seq<Entry>, b: seq<Entry>, row: int, x: int -> real)
    ensures RowApply(a + b, row, x) == RowApply(a, row, x) + RowApply(b, row, x)
  {
    if a == [] {
      assert a + b == b;
    } else {
      assert (a + b)[0] == a[0];
      assert (a + b)[1..] == a[1..] + b;
      RowApplyAppend(a[1..], b, row, x);
    }
  }

  /** The own and the adjacent unknowns of `v` are equal in `x`, in both parts. */
  predicate AgreesAcross(layout: DofLayout, node: FvmNode, adjLayout: DofLayout, adjNode: FvmNode, v: Variable, x: int -> real)
    requires layout.Valid() && v in layout.offset && adjLayout.Valid() && v in adjLayout.offset
  {
    && x(RealIndex(node.globalOffset, layout, v)) == x(RealIndex(adjNode.globalOffset, adjLayout, v))
    && x(ImagIndex(node.globalOffset, layout, v)) == x(ImagIndex(adjNode.globalOffset, adjLayout, v))
  }

  lemma EqualityRowsBalanced(layout: DofLayout, node: FvmNode, adjLayout: DofLayout, adjNode: FvmNode,
                             v: Variable, row: int, x: int -> real)
    requires layout.Valid() && v in layout.offset && adjLayout.Valid() && v in adjLayout.offset
    requires AgreesAcross(layout, node, adjLayout, adjNode, v, x)
    ensures RowApply(EqualityRows(layout, node, adjLayout, adjNode, v), row, x) == 0.0
  {
    var re := RealIndex(node.globalOffset, layout, v);
    var im := ImagIndex(node.globalOffset, layout, v);
    var a := RowEntries(re, [re, RealIndex(adjNode.globalOffset, adjLayout, v)], [1.0, -1.0]);
    var b := RowEntries(im, [im, ImagIndex(adjNode.globalOffset, adjLayout, v)], [1.0, -1.0]);
    RowApplyAppend(a, b, row, x);
    assert a[1..][1..] == [] && b[1..][1..] == [];
  }

  /** On a vector where every constrained unknown equals its counterpart across the
      interface, each row the constraint touches sums to zero. */
  lemma ForceEqualBalanced(layout: DofLayout, enableTl: bool, node: FvmNode, adjLayout: DofLayout, adjNode: FvmNode,
                           row: int, x: int -> real)
    requires Tracks(layout, enableTl) && Tracks(adjLayout, enableTl)
    requires AgreesAcross(layout, node, adjLayout, adjNode, Potential, x)
    requires enableTl ==> AgreesAcross(layout, node, adjLayout, adjNode, Temperature, x)
    ensures RowApply(ForceEqualContributions(layout, enableTl, node, adjLayout, adjNode), row, x) == 0.0
  {
    var p := EqualityRows(layout, node, adjLayout, adjNode, Potential);
    var t := if enableTl then EqualityRows(layout, node, adjLayout, adjNode, Temperature) else [];
    RowApplyAppend(p, t, row, x);
    EqualityRowsBalanced(layout, node, adjLayout, adjNode, Potential, row, x);
    if enableTl {
      EqualityRowsBalanced(layout, node, adjLayout, adjNode, Temperature, row, x);
    }
  }

  lemma ColumnSumPair(own: int, other: int, c: int)
    ensures ColumnSum([own, other], [1.0, -1.0], c)
         == (if c == own then 1.0 else 0.0) + (if c == other then -1.0 else 0.0)
  {
    assert [own, other][1..] == [other] && [1.0, -1.0][1..] == [-1.0];
    assert [other][1..] == [] && [-1.0][1..] == [];
    assert ColumnSum([other], [-1.0], c) == (if other == c then -1.0 else 0.0) + ColumnSum([], [], c);
  }

  /** The constraint accumulates onto what the rows already hold (ADD_VALUES): +1 at the
      own column and -1 at the adjacent column of each row, when the two columns differ;
      every other position of the matrix keeps its value. */
  lemma EqualityRowsAdd(m: map<(int, int), real>, layout: DofLayout, node: FvmNode, adjLayout: DofLayout,
                        adjNode: FvmNode, v: Variable)
    requires layout.Valid() && v in layout.offset && adjLayout.Valid() && v in adjLayout.offset
    requires RealIndex(node.globalOffset, layout, v) != RealIndex(adjNode.globalOffset, adjLayout, v)
    requires ImagIndex(node.globalOffset, layout, v) != ImagIndex(adjNode.globalOffset, adjLayout, v)
    ensures var re := RealIndex(node.globalOffset, layout, v);
            var im := ImagIndex(node.globalOffset, layout, v);
            var adjRe := RealIndex(adjNode.globalOffset, adjLayout, v);
            var adjIm := ImagIndex(adjNode.globalOffset, adjLayout, v);
            var m' := Accumulate(m, EqualityRows(layout, node, adjLayout, adjNode, v));
      && At(m', re, re) == At(m, re, re) + 1.0
      && At(m', re, adjRe) == At(m, re, adjRe) - 1.0
      && At(m', im, im) == At(m, im, im) + 1.0
      && At(m', im, adjIm) == At(m, im, adjIm) - 1.0
      && forall i, j :: !(i == re && (j == re || j == adjRe)) && !(i == im && (j == im || j == adjIm)) ==>
           At(m', i, j) == At(m, i, j)
  {
    var re := RealIndex(node.globalOffset, layout, v);
    var im := ImagIndex(node.globalOffset, layout, v);
    var adjRe := RealIndex(adjNode.globalOffset, adjLayout, v);
    var adjIm := ImagIndex(adjNode.globalOffset, adjLayout, v);
    var es := EqualityRows(layout, node, adjLayout, adjNode, v);
    var a := RowEntries(re, [re, adjRe], [1.0, -1.0]);
    var b := RowEntries(im, [im, adjIm], [1.0, -1.0]);
    forall p, q
      ensures KeySum(es, p, q)
           == (if p == re then ColumnSum([re, adjRe], [1.0, -1.0], q) else 0.0)
            + (if p == im then ColumnSum([im, adjIm], [1.0, -1.0], q) else 0.0)
    {
      KeySumAppend(a, b, p, q);
      KeySumRowEntries(re, [re, adjRe], [1.0, -1.0], p, q);
      KeySumRowEntries(im, [im, adjIm], [1.0, -1.0], p, q);
    }
    ColumnSumPair(re, adjRe, re);
    ColumnSumPair(re, adjRe, adjRe);
    ColumnSumPair(im, adjIm, im);
    ColumnSumPair(im, adjIm, adjIm);
    AccumulateAt(m, es, re, re);
    AccumulateAt(m, es, re, adjRe);
    AccumulateAt(m, es, im, im);
    AccumulateAt(m, es, im, adjIm);
    forall i, j | !(i == re && (j == re || j == adjRe)) && !(i == im && (j == im || j == adjIm))
      ensures At(Accumulate(m, es), i, j) == At(m, i, j)
    {
      ColumnSumPair(re, adjRe, j);
      ColumnSumPair(im, adjIm, j);
      AccumulateAt(m, es, i, j);
    }
  }
}
