/** The vector side of the metal-region AC step: the excitation and scaling entries
    written before the solve, and the per-node complex results read back after it. */
module AcVector {
  import opened Petsc
  import opened Dof

  // ---------------------------------------------------------------------------
  // Excitation and scaling

  /** One slot of the three buffers: an AC index, the DC value written to the solution
      vector there, and the scaling written to the scaling vector there. */
  datatype Excitation = Excitation(index: int, value: real, scale: real)

  /** The nodes can be scaled: nonzero conductivity and nonzero volumes. */
  predicate Scalable(material: Material, nodes: seq<FvmNode>) {
    material.conductance != 0.0 && forall k :: 0 <= k < |nodes| ==> nodes[k].volume != 0.0
  }

  /** Slots contributed by one node: 2, or 4 when the lattice temperature is solved. */
  function Width(enableTl: bool): nat {
    if enableTl then 4 else 2
  }

  /** The slots of one node, in push order: potential real and imaginary with scaling
      1/(sigma * volume), then temperature real and imaginary with scaling 1/volume. Each
      imaginary slot mirrors the real slot before it, `nVariables` further on. */
  function NodeExcitation(layout: DofLayout, enableTl: bool, sigma: real, node: FvmNode): (xs: seq<Excitation>)
    requires Tracks(layout, enableTl) && sigma != 0.0 && node.volume != 0.0
    ensures |xs| == Width(enableTl)
    ensures forall k :: 0 <= k < |xs| && k % 2 == 0 ==>
      && xs[k + 1].index == xs[k].index + layout.nVariables
      && xs[k + 1].value == xs[k].value
      && xs[k + 1].scale == xs[k].scale
    ensures xs[0].index == RealIndex(node.globalOffset, layout, Potential) && xs[0].value == node.data.psi
    ensures enableTl ==> xs[2].index == RealIndex(node.globalOffset, layout, Temperature) && xs[2].value == node.data.T
  {
    var g := node.globalOffset;
    assert sigma * node.volume != 0.0;
    var psiScale := 1.0 / (sigma * node.volume);
    [Excitation(RealIndex(g, layout, Potential), node.data.psi, psiScale),
     Excitation(ImagIndex(g, layout, Potential), node.data.psi, psiScale)]
    + (if enableTl then
         [Excitation(RealIndex(g, layout, Temperature), node.data.T, 1.0 / node.volume),
          Excitation(ImagIndex(g, layout, Temperature), node.data.T, 1.0 / node.volume)]
       else [])
  }

  /** The scalings and imaginary indices of a node's slots: potential is scaled by
      1/(sigma * volume), the lattice temperature by 1/volume only. */
  lemma NodeExcitationScales(layout: DofLayout, enableTl: bool, sigma: real, node: FvmNode)
    requires Tracks(layout, enableTl) && sigma != 0.0 && node.volume != 0.0
    ensures var xs := NodeExcitation(layout, enableTl, sigma, node);
      && xs[1].index == ImagIndex(node.globalOffset, layout, Potential)
      && xs[0].scale == xs[1].scale == 1.0 / (sigma * node.volume)
      && (enableTl ==> xs[3].index == ImagIndex(node.globalOffset, layout, Temperature)
                       && xs[2].scale == xs[3].scale == 1.0 / node.volume)
  {
    assert sigma * node.volume != 0.0;
  }

  /** The slots of all nodes, node after node. */
  function RegionExcitation(layout: DofLayout, enableTl: bool, sigma: real, nodes: seq<FvmNode>): seq<Excitation>
    requires Tracks(layout, enableTl) && sigma != 0.0
    requires forall k :: 0 <= k < |nodes| ==> nodes[k].volume != 0.0
  {
    if nodes == [] then []
    else RegionExcitation(layout, enableTl, sigma, nodes[..|nodes| - 1])
           + NodeExcitation(layout, enableTl, sigma, nodes[|nodes| - 1])
  }

  /** The buffers grow in lockstep by the same width per node. */
  lemma {:induction false} ExcitationLength(layout: DofLayout, enableTl: bool, sigma: real, nodes: seq<FvmNode>)
    requires Tracks(layout, enableTl) && sigma != 0.0
    requires forall k :: 0 <= k < |nodes| ==> nodes[k].volume != 0.0
    ensures |RegionExcitation(layout, enableTl, sigma, nodes)| == Width(enableTl) * |nodes|
    decreases |nodes|
  {
    if nodes != [] {
      ExcitationLength(layout, enableTl, sigma, nodes[..|nodes| - 1]);
    }
  }

  /** Node i owns the slots [w*i, w*i + w) of the buffers, and they are its own slots. */
  lemma {:induction false} ExcitationSlots(layout: DofLayout, enableTl: bool, sigma: real, nodes: seq<FvmNode>, i: nat)
    requires Tracks(layout, enableTl) && sigma != 0.0
    requires forall k :: 0 <= k < |nodes| ==> nodes[k].volume != 0.0
    requires i < |nodes|
    ensures var w := Width(enableTl);
            var xs := RegionExcitation(layout, enableTl, sigma, nodes);
            w * i + w <= |xs| && xs[w * i .. w * i + w] == NodeExcitation(layout, enableTl, sigma, nodes[i])
    decreases |nodes|
  {
    var w := Width(enableTl);
    var init := nodes[..|nodes| - 1];
    ExcitationLength(layout, enableTl, sigma, init);
    var xs := RegionExcitation(layout, enableTl, sigma, nodes);
    var front := RegionExcitation(layout, enableTl, sigma, init);
    assert xs == front + NodeExcitation(layout, enableTl, sigma, nodes[|nodes| - 1]);
    if i < |nodes| - 1 {
      ExcitationSlots(layout, enableTl, sigma, init, i);
      if enableTl {
        assert w * i + w <= |front|;
      } else {
        assert w * i + w <= |front|;
      }
      assert xs[w * i .. w * i + w] == front[w * i .. w * i + w];
    } else {
      assert w * i == |front|;
    }
  }

  /** The single-node, potential-only scenario: conductivity 2 and volume 0.5 give the
      scaling 1 at both the real and the imaginary potential index. */
  lemma ExcitationScenario(layout: DofLayout, node: FvmNode)
    requires Tracks(layout, false)
    requires node.volume == 0.5
    ensures var g := node.globalOffset;
            RegionExcitation(layout, false, 2.0, [node])
              == [Excitation(RealIndex(g, layout, Potential), node.data.psi, 1.0),
                  Excitation(ImagIndex(g, layout, Potential), node.data.psi, 1.0)]
  {
    assert [node][..0] == [];
  }

  function Indices(xs: seq<Excitation>): (ix: seq<int>)
    ensures |ix| == |xs| && forall k :: 0 <= k < |xs| ==> ix[k] == xs[k].index
  {
    seq(|xs|, k requires 0 <= k < |xs| => xs[k].index)
  }

  function Values(xs: seq<Excitation>): (y: seq<real>)
    ensures |y| == |xs| && forall k :: 0 <= k < |xs| ==> y[k] == xs[k].value
  {
    seq(|xs|, k requires 0 <= k < |xs| => xs[k].value)
  }

  function Scales(xs: seq<Excitation>): (s: seq<real>)
    ensures |s| == |xs| && forall k :: 0 <= k < |xs| ==> s[k] == xs[k].scale
  {
    seq(|xs|, k requires 0 <= k < |xs| => xs[k].scale)
  }

  /** The buffers of two runs of slots are the buffers of each, one after the other. */
  lemma BuffersAppend(a: seq<Excitation>, b: seq<Excitation>)
    ensures Indices(a + b) == Indices(a) + Indices(b)
    ensures Values(a + b) == Values(a) + Values(b)
    ensures Scales(a + b) == Scales(a) + Scales(b)
  {
  }

  /** The slots of a prefix one longer. */
  lemma RegionExcitationPrefix(layout: DofLayout, enableTl: bool, sigma: real, nodes: seq<FvmNode>, k: nat)
    requires Tracks(layout, enableTl) && sigma != 0.0 && k < |nodes|
    requires forall q :: 0 <= q < |nodes| ==> nodes[q].volume != 0.0
    ensures RegionExcitation(layout, enableTl, sigma, nodes[..k + 1])
         == RegionExcitation(layout, enableTl, sigma, nodes[..k]) + NodeExcitation(layout, enableTl, sigma, nodes[k])
  {
    assert nodes[..k + 1][..k] == nodes[..k];
  }

  /** When no two slots share an index, after the two inserts every slot's index holds
      its value in the solution vector and its scaling in the scaling vector. */
  lemma ExcitationStored(x: map<int, real>, l: map<int, real>, xs: seq<Excitation>, k: nat)
    requires Distinct(Indices(xs)) && k < |xs|
    ensures xs[k].index in InsertAll(x, Indices(xs), Values(xs))
    ensures InsertAll(x, Indices(xs), Values(xs))[xs[k].index] == xs[k].value
    ensures xs[k].index in InsertAll(l, Indices(xs), Scales(xs))
    ensures InsertAll(l, Indices(xs), Scales(xs))[xs[k].index] == xs[k].scale
  {
    InsertAllLast(x, Indices(xs), Values(xs), k);
    InsertAllLast(l, Indices(xs), Scales(xs), k);
  }

  /** No two nodes share an index of their global AC blocks. */
  predicate GlobalBlocksDisjoint(nodes: seq<FvmNode>, n: nat) {
    forall p, q :: 0 <= p < q < |nodes| ==> BlocksDisjoint(nodes[p].globalOffset, n, nodes[q].globalOffset, n)
  }

  /** A node's slots stay inside its own global block and never repeat an index. */
  lemma NodeExcitationIndices(layout: DofLayout, enableTl: bool, sigma: real, node: FvmNode)
    requires Tracks(layout, enableTl) && sigma != 0.0 && node.volume != 0.0
    ensures var xs := NodeExcitation(layout, enableTl, sigma, node);
      forall k :: 0 <= k < |xs| ==>
        node.globalOffset <= xs[k].index < node.globalOffset + 2 * layout.nVariables
    ensures Distinct(Indices(NodeExcitation(layout, enableTl, sigma, node)))
  {
    var g := node.globalOffset;
    NodeExcitationScales(layout, enableTl, sigma, node);
    IndicesSeparate(g, layout, Potential, Potential);
    if enableTl {
      IndicesSeparate(g, layout, Potential, Temperature);
      IndicesSeparate(g, layout, Temperature, Potential);
      IndicesSeparate(g, layout, Temperature, Temperature);
    }
  }

  /** The slots of nodes whose blocks all avoid [base, base + 2n) never fall in it. */
  lemma {:induction false} RegionExcitationAvoids(layout: DofLayout, enableTl: bool, sigma: real, nodes: seq<FvmNode>, base: int)
    requires Tracks(layout, enableTl) && sigma != 0.0
    requires forall k :: 0 <= k < |nodes| ==> nodes[k].volume != 0.0
    requires forall k :: 0 <= k < |nodes| ==>
      BlocksDisjoint(nodes[k].globalOffset, layout.nVariables, base, layout.nVariables)
    ensures forall e :: e in RegionExcitation(layout, enableTl, sigma, nodes) ==>
      !(base <= e.index < base + 2 * layout.nVariables)
    decreases |nodes|
  {
    if nodes != [] {
      var init := nodes[..|nodes| - 1];
      var last := nodes[|nodes| - 1];
      var front := RegionExcitation(layout, enableTl, sigma, init);
      var back := NodeExcitation(layout, enableTl, sigma, last);
      assert forall k :: 0 <= k < |init| ==> init[k] == nodes[k];
      RegionExcitationAvoids(layout, enableTl, sigma, init, base);
      NodeExcitationIndices(layout, enableTl, sigma, last);
      assert BlocksDisjoint(last.globalOffset, layout.nVariables, base, layout.nVariables);
      assert RegionExcitation(layout, enableTl, sigma, nodes) == front + back;
    }
  }

  /** With pairwise disjoint global blocks no index occurs twice among the slots of a
      region, so the single INSERT_VALUES call writes every slot's own value. */
  lemma {:induction false} RegionExcitationDistinct(layout: DofLayout, enableTl: bool, sigma: real, nodes: seq<FvmNode>)
    requires Tracks(layout, enableTl) && sigma != 0.0
    requires forall k :: 0 <= k < |nodes| ==> nodes[k].volume != 0.0
    requires GlobalBlocksDisjoint(nodes, layout.nVariables)
    ensures Distinct(Indices(RegionExcitation(layout, enableTl, sigma, nodes)))
    decreases |nodes|
  {
    if nodes != [] {
      var init := nodes[..|nodes| - 1];
      var last := nodes[|nodes| - 1];
      var front := RegionExcitation(layout, enableTl, sigma, init);
      var back := NodeExcitation(layout, enableTl, sigma, last);
      var n := layout.nVariables;
      assert GlobalBlocksDisjoint(init, n) by {
        forall p, q | 0 <= p < q < |init|
          ensures BlocksDisjoint(init[p].globalOffset, n, init[q].globalOffset, n)
        {
          assert init[p] == nodes[p] && init[q] == nodes[q];
        }
      }
      RegionExcitationDistinct(layout, enableTl, sigma, init);
      forall k | 0 <= k < |init|
        ensures BlocksDisjoint(init[k].globalOffset, n, last.globalOffset, n)
      {
        assert init[k] == nodes[k];
      }
      RegionExcitationAvoids(layout, enableTl, sigma, init, last.globalOffset);
      NodeExcitationIndices(layout, enableTl, sigma, last);
      var ix := Indices(front + back);
      forall p, q | 0 <= p < q < |ix|
        ensures ix[p] != ix[q]
      {
        if q < |front| {
          assert ix[p] == Indices(front)[p] && ix[q] == Indices(front)[q];
        } else if p >= |front| {
          assert ix[p] == Indices(back)[p - |front|] && ix[q] == Indices(back)[q - |front|];
        } else {
          assert ix[p] == front[p].index && ix[q] == back[q - |front|].index;
          assert front[p] in front;
        }
      }
    }
  }

  /** What a node's slots leave in the two vectors: its DC potential and 1/(sigma * volume)
      at both potential indices, and, when the lattice temperature is solved, its DC
      temperature and 1/volume at both temperature indices. */
  predicate ExcitationHeld(xv: map<int, real>, lv: map<int, real>, layout: DofLayout, enableTl: bool,
                           sigma: real, node: FvmNode)
    requires Tracks(layout, enableTl) && sigma != 0.0 && node.volume != 0.0
  {
    var g := node.globalOffset;
    var rp, ip := RealIndex(g, layout, Potential), ImagIndex(g, layout, Potential);
    && rp in xv && ip in xv && rp in lv && ip in lv
    && xv[rp] == node.data.psi && xv[ip] == node.data.psi
    && sigma * node.volume != 0.0
    && lv[rp] == 1.0 / (sigma * node.volume) && lv[ip] == 1.0 / (sigma * node.volume)
    && (enableTl ==>
          var rt, it := RealIndex(g, layout, Temperature), ImagIndex(g, layout, Temperature);
          && rt in xv && it in xv && rt in lv && it in lv
          && xv[rt] == node.data.T && xv[it] == node.data.T
          && lv[rt] == 1.0 / node.volume && lv[it] == 1.0 / node.volume)
  }

  /** After the two inserts of a region whose global blocks are disjoint, every node's
      indices hold its DC values in the solution vector and its scalings in the scaling
      vector. */
  lemma ExcitationInserted(x: map<int, real>, l: map<int, real>, layout: DofLayout, enableTl: bool,
                           sigma: real, nodes: seq<FvmNode>, i: nat)
    requires Tracks(layout, enableTl) && sigma != 0.0
    requires forall k :: 0 <= k < |nodes| ==> nodes[k].volume != 0.0
    requires GlobalBlocksDisjoint(nodes, layout.nVariables) && i < |nodes|
    ensures var xs := RegionExcitation(layout, enableTl, sigma, nodes);
      ExcitationHeld(InsertAll(x, Indices(xs), Values(xs)), InsertAll(l, Indices(xs), Scales(xs)),
                     layout, enableTl, sigma, nodes[i])
  {
    var xs := RegionExcitation(layout, enableTl, sigma, nodes);
    RegionExcitationDistinct(layout, enableTl, sigma, nodes);
    ExcitationSlots(layout, enableTl, sigma, nodes, i);
    NodeExcitationScales(layout, enableTl, sigma, nodes[i]);
    RunStored(x, l, xs, Width(enableTl) * i, NodeExcitation(layout, enableTl, sigma, nodes[i]));
    SlotsHeld(InsertAll(x, Indices(xs), Values(xs)), InsertAll(l, Indices(xs), Scales(xs)),
              layout, enableTl, sigma, nodes[i]);
  }

  /** Vectors that hold each of a node's slots hold what ExcitationHeld asks of the node. */
  lemma SlotsHeld(xv: map<int, real>, lv: map<int, real>, layout: DofLayout, enableTl: bool,
                  sigma: real, node: FvmNode)
    requires Tracks(layout, enableTl) && sigma != 0.0 && node.volume != 0.0
    requires var ne := NodeExcitation(layout, enableTl, sigma, node);
      forall j :: 0 <= j < |ne| ==>
        ne[j].index in xv && xv[ne[j].index] == ne[j].value && ne[j].index in lv && lv[ne[j].index] == ne[j].scale
    ensures ExcitationHeld(xv, lv, layout, enableTl, sigma, node)
  {
    NodeExcitationScales(layout, enableTl, sigma, node);
  }

  /** Every slot of a run of slots inside a buffer without repeated indices is stored. */
  lemma RunStored(x: map<int, real>, l: map<int, real>, xs: seq<Excitation>, b: nat, run: seq<Excitation>)
    requires Distinct(Indices(xs)) && b + |run| <= |xs| && xs[b..b + |run|] == run
    ensures forall j :: 0 <= j < |run| ==>
      && run[j].index in InsertAll(x, Indices(xs), Values(xs))
      && InsertAll(x, Indices(xs), Values(xs))[run[j].index] == run[j].value
      && run[j].index in InsertAll(l, Indices(xs), Scales(xs))
      && InsertAll(l, Indices(xs), Scales(xs))[run[j].index] == run[j].scale
  {
    forall j | 0 <= j < |run|
      ensures run[j].index in InsertAll(x, Indices(xs), Values(xs))
      ensures InsertAll(x, Indices(xs), Values(xs))[run[j].index] == run[j].value
      ensures run[j].index in InsertAll(l, Indices(xs), Scales(xs))
      ensures InsertAll(l, Indices(xs), Scales(xs))[run[j].index] == run[j].scale
    {
      assert run[j] == xs[b + j];
      ExcitationStored(x, l, xs, b + j);
    }
  }

  // ---------------------------------------------------------------------------
  // Solution extraction

  /** The solution buffer holds both parts of `v` at a node with local offset `lo`. */
  predicate Readable(layout: DofLayout, lo: int, v: Variable, len: nat)
    requires layout.Valid() && v in layout.offset
  {
    0 <= RealIndex(lo, layout, v) && ImagIndex(lo, layout, v) < len
  }

  /** Every variable the node reads back is inside the buffer. */
  predicate NodeReadable(layout: DofLayout, enableTl: bool, node: FvmNode, len: nat)
    requires Tracks(layout, enableTl)
  {
    Readable(layout, node.localOffset, Potential, len)
      && (enableTl ==> Readable(layout, node.localOffset, Temperature, len))
  }

  /** The complex value of `v` read from the local solution buffer. */
  function ExtractAc(layout: DofLayout, lo: int, v: Variable, lxx: seq<real>): (c: Complex)
    requires layout.Valid() && v in layout.offset && Readable(layout, lo, v, |lxx|)
  {
    Complex(lxx[RealIndex(lo, layout, v)], lxx[ImagIndex(lo, layout, v)])
  }

  /** The inverse direction: the complex value `c` of `v` written into a buffer. */
  function PlaceAc(layout: DofLayout, lo: int, v: Variable, c: Complex, lxx: seq<real>): (r: seq<real>)
    requires layout.Valid() && v in layout.offset && Readable(layout, lo, v, |lxx|)
    ensures |r| == |lxx|
    ensures forall p :: 0 <= p < |lxx| && p != RealIndex(lo, layout, v) && p != ImagIndex(lo, layout, v) ==> r[p] == lxx[p]
  {
    lxx[RealIndex(lo, layout, v) := c.re][ImagIndex(lo, layout, v) := c.im]
  }

  /** A buffer holding the AC results of one node at its local offsets. */
  function PlaceNode(layout: DofLayout, enableTl: bool, node: FvmNode, lxx: seq<real>): (r: seq<real>)
    requires Tracks(layout, enableTl) && NodeReadable(layout, enableTl, node, |lxx|)
    ensures |r| == |lxx|
    ensures forall p :: 0 <= p < |lxx| && !(node.localOffset <= p < node.localOffset + 2 * layout.nVariables) ==> r[p] == lxx[p]
  {
    var withPsi := PlaceAc(layout, node.localOffset, Potential, node.data.psiAc, lxx);
    if enableTl then PlaceAc(layout, node.localOffset, Temperature, node.data.tAc, withPsi) else withPsi
  }

  /** A buffer holding the AC results of every node. */
  function PackSolution(layout: DofLayout, enableTl: bool, nodes: seq<FvmNode>, lxx: seq<real>): (r: seq<real>)
    requires Tracks(layout, enableTl)
    requires forall k :: 0 <= k < |nodes| ==> NodeReadable(layout, enableTl, nodes[k], |lxx|)
    ensures |r| == |lxx|
  {
    if nodes == [] then lxx
    else
      var front := PackSolution(layout, enableTl, nodes[..|nodes| - 1], lxx);
      PlaceNode(layout, enableTl, nodes[|nodes| - 1], front)
  }

  /** No two nodes share an index of their local blocks. */
  predicate LocalBlocksDisjoint(nodes: seq<FvmNode>, n: nat) {
    forall p, q :: 0 <= p < q < |nodes| ==> BlocksDisjoint(nodes[p].localOffset, n, nodes[q].localOffset, n)
  }

  /** Reading a node's values back from the buffer that holds them gives what was placed. */
  lemma ExtractPlaced(layout: DofLayout, enableTl: bool, node: FvmNode, lxx: seq<real>)
    requires Tracks(layout, enableTl) && NodeReadable(layout, enableTl, node, |lxx|)
    ensures ExtractAc(layout, node.localOffset, Potential, PlaceNode(layout, enableTl, node, lxx)) == node.data.psiAc
    ensures enableTl ==> ExtractAc(layout, node.localOffset, Temperature, PlaceNode(layout, enableTl, node, lxx)) == node.data.tAc
  {
    if enableTl {
      IndicesSeparate(node.localOffset, layout, Potential, Temperature);
      IndicesSeparate(node.localOffset, layout, Temperature, Potential);
    }
  }

  /** Placing one node's values leaves what another node with a disjoint block reads. */
  lemma PlaceNodeKeepsOthers(layout: DofLayout, enableTl: bool, node: FvmNode, other: FvmNode, lxx: seq<real>)
    requires Tracks(layout, enableTl)
    requires NodeReadable(layout, enableTl, node, |lxx|) && NodeReadable(layout, enableTl, other, |lxx|)
    requires node.localOffset + 2 * layout.nVariables <= other.localOffset
          || other.localOffset + 2 * layout.nVariables <= node.localOffset
    ensures ExtractAc(layout, other.localOffset, Potential, PlaceNode(layout, enableTl, node, lxx))
         == ExtractAc(layout, other.localOffset, Potential, lxx)
    ensures enableTl ==>
      ExtractAc(layout, other.localOffset, Temperature, PlaceNode(layout, enableTl, node, lxx))
        == ExtractAc(layout, other.localOffset, Temperature, lxx)
  {
  }

  /** The extractor inverts packing: with disjoint local blocks, every node reads back
      exactly the complex values that were placed for it. */
  lemma {:induction false} ExtractPackRoundTrip(layout: DofLayout, enableTl: bool, nodes: seq<FvmNode>, lxx: seq<real>, i: nat)
    requires Tracks(layout, enableTl)
    requires forall k :: 0 <= k < |nodes| ==> NodeReadable(layout, enableTl, nodes[k], |lxx|)
    requires LocalBlocksDisjoint(nodes, layout.nVariables)
    requires i < |nodes|
    ensures ExtractAc(layout, nodes[i].localOffset, Potential, PackSolution(layout, enableTl, nodes, lxx)) == nodes[i].data.psiAc
    ensures enableTl ==>
      ExtractAc(layout, nodes[i].localOffset, Temperature, PackSolution(layout, enableTl, nodes, lxx)) == nodes[i].data.tAc
    decreases |nodes|
  {
    var init := nodes[..|nodes| - 1];
    var last := nodes[|nodes| - 1];
    var front := PackSolution(layout, enableTl, init, lxx);
    if i == |nodes| - 1 {
      ExtractPlaced(layout, enableTl, last, front);
    } else {
      assert nodes[i] == init[i];
      ExtractPackRoundTrip(layout, enableTl, init, lxx, i);
      PlaceNodeKeepsOthers(layout, enableTl, last, nodes[i], front);
    }
  }
}
