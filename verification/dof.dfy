/** Degrees of freedom of the AC system: which physical variables a region tracks,
    where each sits inside a node's block of unknowns, and the node records the
    fillers read. In the AC numbering a node's block starts at its global offset and
    holds the real parts of its `nVariables` unknowns followed by their imaginary parts. */
module Dof {

  datatype Option<T> = None | Some(value: T)

  /** The solution variables a metal region can carry. */
  datatype Variable = Potential | Temperature

  /** A region's variable count (ebm_n_variables) and variable offsets
      (ebm_variable_offset); a variable absent from `offset` is unassigned. */
  datatype DofLayout = DofLayout(nVariables: nat, offset: map<Variable, nat>) {
    /** Potential is always tracked, every offset lies inside the variable block, and
        two tracked variables never share an offset. */
    predicate Valid() {
      && Potential in offset
      && (forall v :: v in offset ==> offset[v] < nVariables)
      && (Temperature in offset ==> offset[Temperature] != offset[Potential])
    }
  }

  /** Index of the real part of `v` for a node whose block starts at `base`. */
  function RealIndex(base: int, layout: DofLayout, v: Variable): (i: int)
    requires layout.Valid() && v in layout.offset
    ensures base <= i < base + layout.nVariables
  {
    base + layout.offset[v]
  }

  /** Index of the imaginary part of `v`: the real index moved by the variable count. */
  function ImagIndex(base: int, layout: DofLayout, v: Variable): (i: int)
    requires layout.Valid() && v in layout.offset
    ensures base + layout.nVariables <= i < base + 2 * layout.nVariables
    ensures i == RealIndex(base, layout, v) + layout.nVariables
  {
    base + layout.nVariables + layout.offset[v]
  }

  /** Within one node the real and imaginary indices of all tracked variables are
      pairwise different. */
  lemma IndicesSeparate(base: int, layout: DofLayout, v: Variable, w: Variable)
    requires layout.Valid() && v in layout.offset && w in layout.offset
    ensures RealIndex(base, layout, v) != ImagIndex(base, layout, w)
    ensures v != w ==> RealIndex(base, layout, v) != RealIndex(base, layout, w)
    ensures v != w ==> ImagIndex(base, layout, v) != ImagIndex(base, layout, w)
  {
  }

  /** Two node blocks of AC unknowns that share no index. */
  predicate BlocksDisjoint(base1: int, n1: nat, base2: int, n2: nat) {
    base1 + 2 * n1 <= base2 || base2 + 2 * n2 <= base1
  }

  datatype Complex = Complex(re: real, im: real)

  /** FVM_NodeData: the DC operating point and the AC results stored on a node. */
  datatype NodeData = NodeData(psi: real, T: real, density: real, psiAc: Complex, tAc: Complex)

  /** FVM_Node: `boundaryId` None stands for BoundaryInfo::invalid_id, `processorId` is
      the owning process of the node's root node. */
  datatype FvmNode = FvmNode(
    globalOffset: nat,
    localOffset: nat,
    volume: real,
    processorId: nat,
    boundaryId: Option<nat>,
    data: NodeData)

  /** The region's material: conductivity (mt->basic->Conductance()) and lattice heat
      capacity as a function of temperature (mt->thermal->HeatCapacity). */
  datatype Material = Material(conductance: real, heatCapacity: real -> real)

  /** The variables handled per node, in the order the fillers visit them. */
  function Variables(enableTl: bool): (vs: seq<Variable>)
    ensures |vs| >= 1 && vs[0] == Potential
    ensures Temperature in vs <==> enableTl
    ensures forall p, q :: 0 <= p < q < |vs| ==> vs[p] != vs[q]
  {
    if enableTl then [Potential, Temperature] else [Potential]
  }

  /** The layout of a region tracks every variable the run handles. */
  predicate Tracks(layout: DofLayout, enableTl: bool) {
    layout.Valid() && (enableTl ==> Temperature in layout.offset)
  }

  /** Nodes of `nodes` owned by process `rank`, in order (on_processor_nodes). */
  function OwnedNodes(nodes: seq<FvmNode>, rank: nat): (owned: seq<FvmNode>)
    ensures forall k :: 0 <= k < |owned| ==> owned[k].processorId == rank
  {
    if nodes == [] then []
    else
      var init := OwnedNodes(nodes[..|nodes| - 1], rank);
      var last := nodes[|nodes| - 1];
      if last.processorId == rank then init + [last] else init
  }

  /** A node is kept exactly when it is one of `nodes` and owned by `rank`. */
  lemma {:induction false} OwnedNodesMembers(nodes: seq<FvmNode>, rank: nat)
    ensures forall n :: n in OwnedNodes(nodes, rank) <==> n in nodes && n.processorId == rank
    decreases |nodes|
  {
    if nodes != [] {
      OwnedNodesMembers(nodes[..|nodes| - 1], rank);
      assert nodes == nodes[..|nodes| - 1] + [nodes[|nodes| - 1]];
    }
  }
}
