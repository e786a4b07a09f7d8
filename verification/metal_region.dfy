/** MetalSimulationRegion's AC small-signal methods (src/solver/ddm_ac/ddmac_resistance.cc).
    Each filler is proved to apply exactly the contribution sequence AcMatrix or
    AcVector defines for it; the properties of those sequences are proved there. */
module MetalAc {
  import opened Petsc
  import opened Dof
  import opened AcMatrix
  import opened AcVector

  /** The column lists of the two MatSetValues calls for one Jacobian row: the columns
      as they are for the real row, and each moved by `n` for the imaginary row. */
  method SplitColumns(cols: seq<int>, n: int) returns (realCols: seq<int>, imagCols: seq<int>)
    ensures realCols == cols
    ensures |imagCols| == |cols|
    ensures forall k :: 0 <= k < |cols| ==> imagCols[k] == cols[k] + n
  {
    realCols, imagCols := [], [];
    var k: nat := 0;
    while k < |cols|
      invariant k <= |cols|
      invariant realCols == cols[..k]
      invariant |imagCols| == k
      invariant forall q :: 0 <= q < k ==> imagCols[q] == cols[q] + n
    {
      realCols := realCols + [cols[k]];
      imagCols := imagCols + [cols[k] + n];
      k := k + 1;
    }
  }

  class MetalSimulationRegion {
    /** ebm_n_variables / ebm_variable_offset of this region. */
    const layout: DofLayout
    /** get_advanced_model()->enable_Tl(): the lattice temperature is solved. */
    const enableTl: bool
    /** The region's material model. */
    const material: Material
    /** Genius::processor_id(): the process running this code. */
    const rank: nat
    /** The local nodes (owned and ghost), in iteration order. */
    var nodes: seq<FvmNode>

    constructor (layout: DofLayout, enableTl: bool, material: Material, rank: nat, nodes: seq<FvmNode>)
      requires Tracks(layout, enableTl)
      ensures Valid()
      ensures this.layout == layout && this.enableTl == enableTl && this.rank == rank && this.nodes == nodes
      ensures this.material.conductance == material.conductance
      ensures forall t :: this.material.heatCapacity(t) == material.heatCapacity(t)
    {
      this.layout := layout;
      this.enableTl := enableTl;
      this.material := material;
      this.rank := rank;
      this.nodes := nodes;
    }

    /** Every variable the run solves has an assigned offset in this region. */
    predicate Valid() {
      Tracks(layout, enableTl)
    }

    /** The nodes owned by this process (on_processor_nodes). */
    function ProcessorNodes(): (owned: seq<FvmNode>)
      reads this
      ensures forall k :: 0 <= k < |owned| ==> owned[k].processorId == rank
    {
      OwnedNodes(nodes, rank)
    }

    // -------------------------------------------------------------------------
    // DDMAC_Fill_Value

    /** The slots one node pushes onto the three buffers of DDMAC_Fill_Value. */
    method PushNodeSlots(node: FvmNode, ix: seq<int>, y: seq<real>, s: seq<real>)
      returns (ix': seq<int>, y': seq<real>, s': seq<real>)
      requires Valid() && material.conductance != 0.0 && node.volume != 0.0
      ensures var ne := NodeExcitation(layout, enableTl, material.conductance, node);
              ix' == ix + Indices(ne) && y' == y + Values(ne) && s' == s + Scales(ne)
    {
      var sigma := material.conductance;
      assert sigma * node.volume != 0.0;
      // potential, real and imaginary part
      ix' := ix + [RealIndex(node.globalOffset, layout, Potential)];
      y' := y + [node.data.psi];
      s' := s + [1.0 / (sigma * node.volume)];
      ix' := ix' + [ImagIndex(node.globalOffset, layout, Potential)];
      y' := y' + [node.data.psi];
      s' := s' + [1.0 / (sigma * node.volume)];
      // lattice temperature, real and imaginary part
      if enableTl {
        ix' := ix' + [RealIndex(node.globalOffset, layout, Temperature)];
        y' := y' + [node.data.T];
        s' := s' + [1.0 / node.volume];
        ix' := ix' + [ImagIndex(node.globalOffset, layout, Temperature)];
        y' := y' + [node.data.T];
        s' := s' + [1.0 / node.volume];
      }
      ghost var ne := NodeExcitation(layout, enableTl, sigma, node);
      assert ne[0].scale == 1.0 / (sigma * node.volume);
      assert Indices(ne) == ix'[|ix|..];
      assert Values(ne) == y'[|y|..];
      assert Scales(ne) == s'[|s|..];
    }

    /** The three buffers of DDMAC_Fill_Value, filled node by node. */
    method CollectExcitation() returns (ix: seq<int>, y: seq<real>, s: seq<real>)
      requires Valid() && Scalable(material, ProcessorNodes())
      ensures var xs := RegionExcitation(layout, enableTl, material.conductance, ProcessorNodes());
              ix == Indices(xs) && y == Values(xs) && s == Scales(xs)
      ensures |ix| == |y| == |s| == Width(enableTl) * |ProcessorNodes()|
    {
      var pn := ProcessorNodes();
      var sigma := material.conductance;
      ix, y, s := [], [], [];
      var k: nat := 0;
      while k < |pn|
        invariant k <= |pn|
        invariant var xs := RegionExcitation(layout, enableTl, sigma, pn[..k]);
                  ix == Indices(xs) && y == Values(xs) && s == Scales(xs)
      {
        ix, y, s := PushNodeSlots(pn[k], ix, y, s);
        RegionExcitationPrefix(layout, enableTl, sigma, pn, k);
        BuffersAppend(RegionExcitation(layout, enableTl, sigma, pn[..k]), NodeExcitation(layout, enableTl, sigma, pn[k]));
        k := k + 1;
      }
      assert pn[..k] == pn;
      ExcitationLength(layout, enableTl, sigma, pn);
    }

    /** DDMAC_Fill_Value: one INSERT_VALUES call into each vector with all buffered
        slots, and no call at all when no node is owned. */
    method FillValue(x: Vec, L: Vec)
      requires Valid() && Scalable(material, ProcessorNodes())
      requires x != L
      modifies x, L
      ensures var xs := RegionExcitation(layout, enableTl, material.conductance, ProcessorNodes());
        && x.values == InsertAll(old(x.values), Indices(xs), Values(xs))
        && L.values == InsertAll(old(L.values), Indices(xs), Scales(xs))
      ensures ProcessorNodes() == [] ==> x.values == old(x.values) && L.values == old(L.values)
      ensures GlobalBlocksDisjoint(ProcessorNodes(), layout.nVariables) ==>
        forall i :: 0 <= i < |ProcessorNodes()| ==>
          ExcitationHeld(x.values, L.values, layout, enableTl, material.conductance, ProcessorNodes()[i])
    {
      var ix, y, s := CollectExcitation();
      ghost var x0, l0 := x.values, L.values;
      if |ix| > 0 {
        x.SetValues(ix, y);
        L.SetValues(ix, s);
      }
      ghost var pn := ProcessorNodes();
      if GlobalBlocksDisjoint(pn, layout.nVariables) {
        forall i | 0 <= i < |pn|
          ensures ExcitationHeld(x.values, L.values, layout, enableTl, material.conductance, pn[i])
        {
          ExcitationInserted(x0, l0, layout, enableTl, material.conductance, pn, i);
        }
      }
    }

    // -------------------------------------------------------------------------
    // DDMAC_Fill_Matrix_Vector

    /** DDMAC_Fill_Matrix_Vector: flushes A when the previous writes were INSERT_VALUES,
        runs the nodal filler, without redirection, on the owned nodes that are not on a
        boundary, and leaves the flag at ADD_VALUES. */
    method FillMatrixVector(A: Mat, J: Jacobian, omega: real, flag: InsertMode) returns (flagOut: InsertMode)
      requires Valid() && J.Valid()
      modifies A
      ensures A.entries == Accumulate(old(A.entries),
                RegionContributions(layout, enableTl, material, ProcessorNodes(), |ProcessorNodes()|, J, omega))
      ensures A.flushes == old(A.flushes) + (if flag == InsertValues then 1 else 0)
      ensures flagOut == AddValues
    {
      if flag != AddValues && flag != NotSetValues {
        A.FlushAssembly();
      }
      FillRegionNodes(ProcessorNodes(), A, J, omega);
      flagOut := AddValues;
    }

    /** The node loop of DDMAC_Fill_Matrix_Vector over the nodes `pn` of this process. */
    method FillRegionNodes(pn: seq<FvmNode>, A: Mat, J: Jacobian, omega: real)
      requires Valid() && J.Valid()
      requires forall k :: 0 <= k < |pn| ==> pn[k].processorId == rank
      modifies A
      ensures A.entries == Accumulate(old(A.entries), RegionContributions(layout, enableTl, material, pn, |pn|, J, omega))
      ensures A.flushes == old(A.flushes)
    {
      ghost var start := A.entries;
      var k: nat := 0;
      while k < |pn|
        invariant k <= |pn|
        invariant A.entries == Accumulate(start, RegionContributions(layout, enableTl, material, pn, k, J, omega))
        invariant A.flushes == old(A.flushes)
      {
        RegionStep(start, layout, enableTl, material, pn, k, J, omega);
        if pn[k].boundaryId.None? {
          var _ := FillNodalMatrixVector(pn[k], A, J, omega, None, None);
        }
        k := k + 1;
      }
    }

    // -------------------------------------------------------------------------
    // DDMAC_Fill_Nodal_Matrix_Vector, both forms

    /** Adds the copy of the Jacobian row of `v` into the real and imaginary target rows. */
    method CopyVariableRow(node: FvmNode, v: Variable, A: Mat, J: Jacobian,
                           adjRegion: Option<DofLayout>, adjNode: Option<FvmNode>)
      requires Valid() && v in layout.offset && J.Valid()
      requires AdjacentTracks(adjRegion, adjNode, [v])
      modifies A
      ensures A.entries == Accumulate(old(A.entries), VariableCopy(layout, node, J, v, adjRegion, adjNode))
      ensures A.flushes == old(A.flushes)
    {
      var jacobianRow := RealIndex(node.globalOffset, layout, v);
      var row := J.Row(jacobianRow);
      var acReal, acImag := TargetRowsOf(node, v, adjRegion, adjNode);
      var realCols, imagCols := SplitColumns(row.cols, layout.nVariables);
      ghost var start := A.entries;
      A.AddValues(acReal, realCols, row.vals);
      A.AddValues(acImag, imagCols, row.vals);
      assert imagCols == Shift(row.cols, layout.nVariables);
      AccumulateAppend(start, RowEntries(acReal, realCols, row.vals), RowEntries(acImag, imagCols, row.vals));
    }

    /** The target rows of `v`: this node's own, or the adjacent node's in the adjacent
        region's numbering when both the adjacent region and node are given. */
    method TargetRowsOf(node: FvmNode, v: Variable, adjRegion: Option<DofLayout>, adjNode: Option<FvmNode>)
      returns (acReal: int, acImag: int)
      requires Valid() && v in layout.offset
      requires AdjacentTracks(adjRegion, adjNode, [v])
      ensures (acReal, acImag) == TargetRows(node, layout, v, adjRegion, adjNode)
    {
      acReal := RealIndex(node.globalOffset, layout, v);
      acImag := ImagIndex(node.globalOffset, layout, v);
      if adjRegion.Some? && adjNode.Some? {
        assert v in [v];
        acReal := RealIndex(adjNode.value.globalOffset, adjRegion.value, v);
        acImag := ImagIndex(adjNode.value.globalOffset, adjRegion.value, v);
      }
    }

    /** The thermal reactive term: density * HeatCapacity(T) * omega * volume at
        (real row, imaginary row) and its negation at (imaginary row, real row). */
    method AddThermalReactive(node: FvmNode, A: Mat, omega: real, adjRegion: Option<DofLayout>, adjNode: Option<FvmNode>)
      requires Valid() && Temperature in layout.offset
      requires AdjacentTracks(adjRegion, adjNode, [Temperature])
      modifies A
      ensures A.entries == Accumulate(old(A.entries), ThermalReactive(layout, material, node, omega, adjRegion, adjNode))
      ensures A.flushes == old(A.flushes)
    {
      var heatCapacity := material.heatCapacity(node.data.T);
      var realRow, imagRow := TargetRowsOf(node, Temperature, adjRegion, adjNode);
      ghost var start := A.entries;
      var c := node.data.density * heatCapacity * omega * node.volume;
      A.AddValue(realRow, imagRow, c);
      A.AddValue(imagRow, realRow, -node.data.density * heatCapacity * omega * node.volume);
      assert -node.data.density * heatCapacity * omega * node.volume == -c;
      AccumulateAppend(start, [Entry(realRow, imagRow, c)], [Entry(imagRow, realRow, -c)]);
      assert [Entry(realRow, imagRow, c)] + [Entry(imagRow, realRow, -c)] == Reactive(realRow, imagRow, c);
      assert c == ThermalTerm(node, material, omega);
      assert Reactive(realRow, imagRow, c) == ThermalReactive(layout, material, node, omega, adjRegion, adjNode);
    }

    /** The loop over the variables of DDMAC_Fill_Nodal_Matrix_Vector: the row copy of
        every variable, in order. */
    method CopyAllVariables(node: FvmNode, A: Mat, J: Jacobian, adjRegion: Option<DofLayout>, adjNode: Option<FvmNode>)
      requires Valid() && J.Valid()
      requires AdjacentTracks(adjRegion, adjNode, Variables(enableTl))
      modifies A
      ensures A.entries == Accumulate(old(A.entries), CopyVariables(layout, node, J, Variables(enableTl), |Variables(enableTl)|, adjRegion, adjNode))
      ensures A.flushes == old(A.flushes)
    {
      var vars := Variables(enableTl);
      ghost var start := A.entries;
      var k: nat := 0;
      while k < |vars|
        invariant k <= |vars|
        invariant A.entries == Accumulate(start, CopyVariables(layout, node, J, vars, k, adjRegion, adjNode))
        invariant A.flushes == old(A.flushes)
      {
        k := CopyNextVariable(node, k, A, J, adjRegion, adjNode, start);
      }
    }

    /** One pass of the variable loop: the row copy of the `k`-th variable extends the
        copies applied so far. */
    method CopyNextVariable(node: FvmNode, k: nat, A: Mat, J: Jacobian,
                            adjRegion: Option<DofLayout>, adjNode: Option<FvmNode>, ghost start: map<(int, int), real>)
      returns (next: nat)
      requires Valid() && J.Valid() && k < |Variables(enableTl)|
      requires AdjacentTracks(adjRegion, adjNode, Variables(enableTl))
      requires A.entries == Accumulate(start, CopyVariables(layout, node, J, Variables(enableTl), k, adjRegion, adjNode))
      modifies A
      ensures next == k + 1
      ensures A.entries == Accumulate(start, CopyVariables(layout, node, J, Variables(enableTl), next, adjRegion, adjNode))
      ensures A.flushes == old(A.flushes)
    {
      next := k + 1;
      var vars := Variables(enableTl);
      CopyVariablesStep(start, layout, node, J, vars, k, adjRegion, adjNode);
      CopyVariableRow(node, vars[k], A, J, adjRegion, adjNode);
    }

    /** DDMAC_Fill_Nodal_Matrix_Vector for every variable of an owned node: each
        variable's Jacobian row is copied into the real and imaginary blocks of the
        (possibly redirected) target rows, then the thermal reactive term is added when
        the lattice temperature is solved. */
    method FillNodalMatrixVector(node: FvmNode, A: Mat, J: Jacobian, omega: real,
                                 adjRegion: Option<DofLayout>, adjNode: Option<FvmNode>)
      returns (flagOut: InsertMode)
      requires Valid() && J.Valid()
      requires node.processorId == rank
      requires AdjacentTracks(adjRegion, adjNode, Variables(enableTl))
      modifies A
      ensures A.entries == Accumulate(old(A.entries), NodalContributions(layout, enableTl, material, node, J, omega, adjRegion, adjNode))
      ensures A.flushes == old(A.flushes)
      ensures flagOut == AddValues
    {
      NodalSplit(A.entries, layout, enableTl, material, node, J, omega, adjRegion, adjNode);
      CopyAllVariables(node, A, J, adjRegion, adjNode);
      if enableTl {
        AddThermalReactive(node, A, omega, adjRegion, adjNode);
      }
      flagOut := AddValues;
    }

    /** DDMAC_Fill_Nodal_Matrix_Vector for one variable `v` of an owned node; the thermal
        reactive term is added only when `v` is the lattice temperature and it is solved. */
    method FillNodalVariable(node: FvmNode, v: Variable, A: Mat, J: Jacobian, omega: real,
                             adjRegion: Option<DofLayout>, adjNode: Option<FvmNode>)
      returns (flagOut: InsertMode)
      requires Valid() && v in layout.offset && J.Valid()
      requires node.processorId == rank
      requires AdjacentTracks(adjRegion, adjNode, [v])
      modifies A
      ensures A.entries == Accumulate(old(A.entries), NodalVariableContributions(layout, enableTl, material, node, v, J, omega, adjRegion, adjNode))
      ensures A.flushes == old(A.flushes)
      ensures flagOut == AddValues
    {
      ghost var start := A.entries;
      CopyVariableRow(node, v, A, J, adjRegion, adjNode);
      if v == Temperature && enableTl {
        AddThermalReactive(node, A, omega, adjRegion, adjNode);
        AccumulateAppend(start, VariableCopy(layout, node, J, v, adjRegion, adjNode),
                         ThermalReactive(layout, material, node, omega, adjRegion, adjNode));
      } else {
        assert VariableCopy(layout, node, J, v, adjRegion, adjNode) + []
            == VariableCopy(layout, node, J, v, adjRegion, adjNode);
      }
      flagOut := AddValues;
    }

    // -------------------------------------------------------------------------
    // DDMAC_Fill_Transformation_Matrix

    /** DDMAC_Fill_Transformation_Matrix: flushes T when the previous writes were
        INSERT_VALUES, then adds the 2x2 block of every variable of every owned node, and
        leaves the flag at ADD_VALUES. */
    method FillTransformationMatrix(T: Mat, J: Jacobian, omega: real, flag: InsertMode) returns (flagOut: InsertMode)
      requires Valid() && J.Valid()
      requires DiagonalsNonZero(layout, enableTl, ProcessorNodes(), J)
      modifies T
      ensures T.entries == Accumulate(old(T.entries),
                TransformationContributions(layout, enableTl, ProcessorNodes(), |ProcessorNodes()|, J, omega))
      ensures T.flushes == old(T.flushes) + (if flag == InsertValues then 1 else 0)
      ensures flagOut == AddValues
    {
      if flag != AddValues && flag != NotSetValues {
        T.FlushAssembly();
      }
      AddTransformationNodes(ProcessorNodes(), T, J, omega);
      flagOut := AddValues;
    }

    /** The node loop of DDMAC_Fill_Transformation_Matrix over the nodes `pn` of this process. */
    method AddTransformationNodes(pn: seq<FvmNode>, T: Mat, J: Jacobian, omega: real)
      requires Valid() && J.Valid() && DiagonalsNonZero(layout, enableTl, pn, J)
      modifies T
      ensures T.entries == Accumulate(old(T.entries), TransformationContributions(layout, enableTl, pn, |pn|, J, omega))
      ensures T.flushes == old(T.flushes)
    {
      ghost var start := T.entries;
      var k: nat := 0;
      while k < |pn|
        invariant k <= |pn|
        invariant T.entries == Accumulate(start, TransformationContributions(layout, enableTl, pn, k, J, omega))
        invariant T.flushes == old(T.flushes)
      {
        TransformationStep(start, layout, enableTl, pn, k, J, omega);
        AddTransformationNode(pn[k], T, J, omega);
        k := k + 1;
      }
    }

    /** The blocks of every variable of one node, in the order the variables are visited. */
    method AddTransformationNode(node: FvmNode, T: Mat, J: Jacobian, omega: real)
      requires Valid() && J.Valid()
      requires enableTl ==> DiagonalEntry(layout, node, J, Temperature) != 0.0
      modifies T
      ensures T.entries == Accumulate(old(T.entries), TransformationNode(layout, node, J, Variables(enableTl), |Variables(enableTl)|, omega))
      ensures T.flushes == old(T.flushes)
    {
      var vars := Variables(enableTl);
      ghost var start := T.entries;
      var q: nat := 0;
      while q < |vars|
        invariant q <= |vars|
        invariant T.entries == Accumulate(start, TransformationNode(layout, node, J, vars, q, omega))
        invariant T.flushes == old(T.flushes)
      {
        TransformationNodeStep(start, layout, node, J, vars, q, omega);
        AddTransformationBlock(node, vars[q], T, J, omega);
        q := q + 1;
      }
    }

    /** The four MatSetValue calls of one block of the transformation matrix. */
    method AddTransformationBlock(node: FvmNode, v: Variable, T: Mat, J: Jacobian, omega: real)
      requires Valid() && v in layout.offset && J.Valid()
      requires v != Potential ==> DiagonalEntry(layout, node, J, v) != 0.0
      modifies T
      ensures T.entries == Accumulate(old(T.entries), TransformationBlock(layout, node, J, v, omega))
      ensures T.flushes == old(T.flushes)
    {
      var diagIndex := RealIndex(node.globalOffset, layout, v);
      var diagValue := J.Value(diagIndex, diagIndex);
      var acReal := diagIndex;
      var acImag := diagIndex + layout.nVariables;
      ghost var start := T.entries;
      ghost var done: seq<Entry> := [];
      T.AddValue(acReal, acReal, 1.0);
      AccumulateAppend(start, done, [Entry(acReal, acReal, 1.0)]);
      done := done + [Entry(acReal, acReal, 1.0)];
      if v != Potential {
        T.AddValue(acReal, acImag, omega / diagValue);
        AccumulateAppend(start, done, [Entry(acReal, acImag, omega / diagValue)]);
        done := done + [Entry(acReal, acImag, omega / diagValue)];
        T.AddValue(acImag, acReal, -omega / diagValue);
        AccumulateAppend(start, done, [Entry(acImag, acReal, -omega / diagValue)]);
        done := done + [Entry(acImag, acReal, -omega / diagValue)];
      }
      T.AddValue(acImag, acImag, 1.0);
      AccumulateAppend(start, done, [Entry(acImag, acImag, 1.0)]);
      done := done + [Entry(acImag, acImag, 1.0)];
      assert done == TransformationBlock(layout, node, J, v, omega);
    }

    // -------------------------------------------------------------------------
    // DDMAC_Force_equal, both forms

    /** The two MatSetValues calls tying `v` of `node` to `v` of the adjacent node. */
    method AddEqualityRows(node: FvmNode, v: Variable, A: Mat, adjRegion: DofLayout, adjNode: FvmNode)
      requires Valid() && v in layout.offset && adjRegion.Valid() && v in adjRegion.offset
      modifies A
      ensures A.entries == Accumulate(old(A.entries), EqualityRows(layout, node, adjRegion, adjNode, v))
      ensures A.flushes == old(A.flushes)
    {
      var realRow := RealIndex(node.globalOffset, layout, v);
      var imagRow := ImagIndex(node.globalOffset, layout, v);
      var realCol := [realRow, RealIndex(adjNode.globalOffset, adjRegion, v)];
      var imagCol := [imagRow, ImagIndex(adjNode.globalOffset, adjRegion, v)];
      var diag := [1.0, -1.0];
      ghost var start := A.entries;
      A.AddValues(realRow, realCol, diag);
      A.AddValues(imagRow, imagCol, diag);
      AccumulateAppend(start, RowEntries(realRow, realCol, diag), RowEntries(imagRow, imagCol, diag));
    }

    /** DDMAC_Force_equal for potential and, when solved, lattice temperature: requires
        the flag to be ADD_VALUES already and adds the +1/-1 difference rows. */
    method ForceEqual(node: FvmNode, A: Mat, flag: InsertMode, adjRegion: DofLayout, adjNode: FvmNode)
      returns (flagOut: InsertMode)
      requires Valid() && Tracks(adjRegion, enableTl)
      requires flag == AddValues
      modifies A
      ensures A.entries == Accumulate(old(A.entries), ForceEqualContributions(layout, enableTl, node, adjRegion, adjNode))
      ensures A.flushes == old(A.flushes)
      ensures flagOut == AddValues
    {
      ghost var start := A.entries;
      AddEqualityRows(node, Potential, A, adjRegion, adjNode);
      if enableTl {
        AddEqualityRows(node, Temperature, A, adjRegion, adjNode);
        AccumulateAppend(start, EqualityRows(layout, node, adjRegion, adjNode, Potential),
                         EqualityRows(layout, node, adjRegion, adjNode, Temperature));
      } else {
        assert EqualityRows(layout, node, adjRegion, adjNode, Potential) + []
            == EqualityRows(layout, node, adjRegion, adjNode, Potential);
      }
      flagOut := AddValues;
    }

    /** DDMAC_Force_equal for one variable `v`, which both regions must have assigned. */
    method ForceEqualVariable(node: FvmNode, v: Variable, A: Mat, flag: InsertMode, adjRegion: DofLayout, adjNode: FvmNode)
      returns (flagOut: InsertMode)
      requires Valid() && adjRegion.Valid()
      requires flag == AddValues
      requires v in layout.offset && v in adjRegion.offset
      modifies A
      ensures A.entries == Accumulate(old(A.entries), EqualityRows(layout, node, adjRegion, adjNode, v))
      ensures A.flushes == old(A.flushes)
      ensures flagOut == AddValues
    {
      AddEqualityRows(node, v, A, adjRegion, adjNode);
      flagOut := AddValues;
    }

    // -------------------------------------------------------------------------
    // DDMAC_Update_Solution

    /** DDMAC_Update_Solution: every local node (owned or ghost) gets psi_ac from the
        real/imaginary pair at its local potential offsets, and T_ac likewise when the
        lattice temperature is solved; nothing else of any node changes. */
    method UpdateSolution(lxx: seq<real>)
      requires Valid()
      requires forall k :: 0 <= k < |nodes| ==> NodeReadable(layout, enableTl, nodes[k], |lxx|)
      modifies this
      ensures |nodes| == |old(nodes)|
      ensures forall k :: 0 <= k < |nodes| ==>
        && NodeReadable(layout, enableTl, old(nodes)[k], |lxx|)
        && nodes[k].data.psiAc == ExtractAc(layout, old(nodes)[k].localOffset, Potential, lxx)
        && nodes[k].data.tAc == (if enableTl then ExtractAc(layout, old(nodes)[k].localOffset, Temperature, lxx)
                                 else old(nodes)[k].data.tAc)
        && nodes[k] == old(nodes)[k].(data := old(nodes)[k].data.(psiAc := nodes[k].data.psiAc, tAc := nodes[k].data.tAc))
    {
      var k: nat := 0;
      while k < |nodes|
        invariant k <= |nodes| && |nodes| == |old(nodes)|
        invariant forall q :: 0 <= q < |nodes| ==> NodeReadable(layout, enableTl, old(nodes)[q], |lxx|)
        invariant forall q :: k <= q < |nodes| ==> nodes[q] == old(nodes)[q]
        invariant forall q :: 0 <= q < k ==>
          && nodes[q].data.psiAc == ExtractAc(layout, old(nodes)[q].localOffset, Potential, lxx)
          && nodes[q].data.tAc == (if enableTl then ExtractAc(layout, old(nodes)[q].localOffset, Temperature, lxx)
                                   else old(nodes)[q].data.tAc)
          && nodes[q] == old(nodes)[q].(data := old(nodes)[q].data.(psiAc := nodes[q].data.psiAc, tAc := nodes[q].data.tAc))
      {
        var node := nodes[k];
        var lo := node.localOffset;
        var data := node.data;
        var psiReal := lxx[RealIndex(lo, layout, Potential)];
        var psiImag := lxx[ImagIndex(lo, layout, Potential)];
        data := data.(psiAc := Complex(psiReal, psiImag));
        if enableTl {
          var tReal := lxx[RealIndex(lo, layout, Temperature)];
          var tImag := lxx[ImagIndex(lo, layout, Temperature)];
          data := data.(tAc := Complex(tReal, tImag));
        }
        nodes := nodes[k := node.(data := data)];
        k := k + 1;
      }
    }
  }
}
