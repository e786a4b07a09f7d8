# AC small-signal assembly of a metal region

This project models the AC small-signal methods of `MetalSimulationRegion` in the
Genius TCAD simulator (`src/solver/ddm_ac/ddmac_resistance.cc`), and proves properties
about them. At angular frequency omega, the real DC Jacobian `J` becomes a real system of
twice the size that stands for a complex operator. Within a node's block of unknowns, a
variable at offset `o` keeps its real part at `global_offset + o` and its imaginary part
at `global_offset + n_variables + o`.

The methods are modelled one for one, as methods of the Dafny class
`MetalAc.MetalSimulationRegion`:

- `FillValue`: the excitation and scaling vectors.
- `FillMatrixVector`: the region driver.
- `FillNodalMatrixVector` and `FillNodalVariable`: the two nodal fillers.
- `FillTransformationMatrix`: the transformation matrix.
- `ForceEqual` and `ForceEqualVariable`: the interface constraint.
- `UpdateSolution`: the solution extractor.

PETSc is reduced to its effect on values (module `Petsc`):

- A matrix filled under `ADD_VALUES` is a `map<(int, int), real>`. `Accumulate` folds the
  contributions of `MatSetValue(s)` calls into it.
- A vector filled under `INSERT_VALUES` is a `map<int, real>` that `InsertAll` overwrites.
- `MAT_FLUSH_ASSEMBLY` is a counter `Mat.flushes`.
- The by-reference `add_value_flag` is a returned `flagOut` in every method that sets it.
  The driver, the transformation builder and both `ForceEqual` forms read its incoming
  value, so they also take it as an in parameter. The two nodal fillers overwrite it with
  ADD_VALUES without reading it (lines 258, 331), so they take no flag parameter.

Each filler is proved to apply exactly one contribution sequence, defined as a function in
`AcMatrix` or `AcVector`. The source's promises are then proved about those sequences:

- the doubling of a Jacobian row into the real and imaginary blocks;
- redirection to an adjacent node only when both the adjacent region and node are given;
- the antisymmetric thermal term;
- the transformation block;
- the balanced +1/-1 interface rows;
- the round trip between packing results into a buffer and extracting them.

The files, in dependency order:

- `petsc.dfy`: module `Petsc`.
- `dof.dfy`: module `Dof`, holding the variable layout, node records and index formulas.
- `ac_matrix.dfy`: module `AcMatrix`.
- `ac_vector.dfy`: module `AcVector`.
- `metal_region.dfy`: module `MetalAc`.

Where one might assume otherwise, the model follows the code:

- The imaginary column shift is this region's `n_variables` (lines 227, 301).
- `DDMAC_Force_equal` adds +1/-1 to the node's rows with `ADD_VALUES` (lines 348-349).
- The temperature scaling is `1/volume` (lines 79, 84).
- `DDMAC_Update_Solution` visits every local node, ghosts included (lines 394-396).
- `DDMAC_Fill_Value` makes one insert into each of `x` and `L` with all slots (lines
  88-92).

## Model

| member | source | states |
|---|---|---|
| MetalAc.MetalSimulationRegion.FillValue | src/solver/ddm_ac/ddmac_resistance.cc:29-94 | `x` and `L` are overwritten, in push order, with the DC values and scalings of every owned node's slots (`RegionExcitation`). When no node is owned, neither vector changes. When the owned nodes' global blocks are pairwise disjoint, every owned node ends with psi and 1/(sigma·volume) at both potential indices and, with temperature, T and 1/volume at both temperature indices (`ExcitationHeld`). |
| MetalAc.MetalSimulationRegion.CollectExcitation | src/solver/ddm_ac/ddmac_resistance.cc:51-86 | The three buffers are exactly the indices, values and scalings of the owned nodes' slots, node after node. They grow in lockstep to width × number of owned nodes. |
| MetalAc.MetalSimulationRegion.PushNodeSlots | src/solver/ddm_ac/ddmac_resistance.cc:60-85 | One node's pushes extend each buffer by exactly that node's slots (`NodeExcitation`). |
| AcVector.NodeExcitation | src/solver/ddm_ac/ddmac_resistance.cc:60-85 | A node contributes 2 slots, or 4 with temperature. Each imaginary slot repeats the value and scaling of its real slot at the index `n_variables` further on. The first slot is psi at the real potential index; the third is T at the real temperature index. |
| AcVector.NodeExcitationScales | src/solver/ddm_ac/ddmac_resistance.cc:62-84 | The potential slots are scaled by 1/(sigma·volume) and the temperature slots by 1/volume only. The imaginary slots sit at the imaginary indices. |
| AcVector.ExcitationLength | src/solver/ddm_ac/ddmac_resistance.cc:54-86 | The buffers hold width × number of nodes slots. |
| AcVector.ExcitationSlots | src/solver/ddm_ac/ddmac_resistance.cc:54-86 | Node i owns buffer slots [w·i, w·i + w), and they are exactly that node's own slots. |
| AcVector.ExcitationScenario | src/solver/ddm_ac/ddmac_resistance.cc:60-69 | One potential-only node with conductance 2 and volume 0.5 gets scaling 1 at both its real and imaginary potential index. |
| AcVector.BuffersAppend | src/solver/ddm_ac/ddmac_resistance.cc:62-84 | The index, value and scaling buffers of two runs of slots are those of each run, concatenated. |
| AcVector.RegionExcitationPrefix | src/solver/ddm_ac/ddmac_resistance.cc:54-86 | Visiting one more node appends exactly that node's slots. |
| AcVector.ExcitationStored | src/solver/ddm_ac/ddmac_resistance.cc:88-92 | If no two slots share an index, then after the two inserts each slot's index holds its value in `x` and its scaling in `L`. |
| AcVector.NodeExcitationIndices | src/solver/ddm_ac/ddmac_resistance.cc:60-85 | Every slot of a node lies in its global block [g, g + 2·n_variables), and no index repeats among them. |
| AcVector.RegionExcitationAvoids | src/solver/ddm_ac/ddmac_resistance.cc:54-86 | If every node's block is disjoint from a block at `base`, no slot of the region falls in that block. |
| AcVector.RegionExcitationDistinct | src/solver/ddm_ac/ddmac_resistance.cc:54-92 | With pairwise disjoint global blocks, no index occurs twice in the buffer handed to the inserts. |
| AcVector.RunStored | src/solver/ddm_ac/ddmac_resistance.cc:88-92 | Every slot of a contiguous run of a buffer without repeated indices is stored, value in `x` and scaling in `L`. |
| AcVector.SlotsHeld | src/solver/ddm_ac/ddmac_resistance.cc:60-85 | Vectors that hold each of a node's slots hold its psi and 1/(sigma·volume) at both potential indices and, with temperature, its T and 1/volume at both temperature indices. |
| AcVector.ExcitationInserted | src/solver/ddm_ac/ddmac_resistance.cc:54-92 | With pairwise disjoint global blocks, after the two inserts every node holds those values and scalings at its own indices. |
| MetalAc.MetalSimulationRegion.FillMatrixVector | src/solver/ddm_ac/ddmac_resistance.cc:100-127 | A is flushed once exactly when the incoming flag is INSERT_VALUES, i.e. neither ADD_VALUES nor NOT_SET_VALUES. Its entries gain the driver's contributions over the owned nodes. The flag leaves as ADD_VALUES. |
| MetalAc.MetalSimulationRegion.FillRegionNodes | src/solver/ddm_ac/ddmac_resistance.cc:112-122 | The node loop applies `RegionContributions` for all nodes given to it and does not flush. |
| AcMatrix.RegionContributionsInterior | src/solver/ddm_ac/ddmac_resistance.cc:112-122 | The driver's contributions are the unredirected nodal filler's for exactly the nodes whose boundary id is invalid, in iteration order. |
| AcMatrix.InteriorNodes | src/solver/ddm_ac/ddmac_resistance.cc:118-121 | Every node kept carries no boundary id. |
| AcMatrix.InteriorNodesMembers | src/solver/ddm_ac/ddmac_resistance.cc:118-121 | A node is visited by the filler if and only if it is among the given nodes and has no boundary id. |
| AcMatrix.InteriorNodesPrefix | src/solver/ddm_ac/ddmac_resistance.cc:114-122 | One more node appends it to the interior nodes when it has no boundary id, and leaves them unchanged otherwise. |
| AcMatrix.NodalAllSnoc | src/solver/ddm_ac/ddmac_resistance.cc:114-122 | One more interior node appends its nodal contributions after the others'. |
| AcMatrix.RegionStep | src/solver/ddm_ac/ddmac_resistance.cc:114-122 | Visiting a boundary node adds nothing. Visiting an interior node applies its nodal contributions after those already applied. |
| MetalAc.MetalSimulationRegion.ProcessorNodes | src/solver/ddm_ac/ddmac_resistance.cc:52-54 | Every node iterated is owned by this process. |
| Dof.OwnedNodes | src/solver/ddm_ac/ddmac_resistance.cc:112-114 | The owned-node sequence holds only nodes of this process. |
| Dof.OwnedNodesMembers | src/solver/ddm_ac/ddmac_resistance.cc:150-152 | A node is iterated if and only if it is a local node owned by this process. |
| MetalAc.MetalSimulationRegion.FillNodalMatrixVector | src/solver/ddm_ac/ddmac_resistance.cc:183-261 | The node must be owned by this process. A gains each variable's row copy and then, with temperature, the thermal reactive term (`NodalContributions`). A is not flushed, and the flag leaves as ADD_VALUES. |
| MetalAc.MetalSimulationRegion.FillNodalVariable | src/solver/ddm_ac/ddmac_resistance.cc:268-333 | The node must be owned. A gains the row copy of `v`, plus the thermal reactive term only when `v` is the temperature and temperature is solved. The flag leaves as ADD_VALUES. |
| MetalAc.MetalSimulationRegion.CopyAllVariables | src/solver/ddm_ac/ddmac_resistance.cc:204-238 | The variable loop applies the row copy of every solved variable, potential first. |
| MetalAc.MetalSimulationRegion.CopyNextVariable | src/solver/ddm_ac/ddmac_resistance.cc:210-237 | One pass of the variable loop extends the applied copies from k variables to k + 1. |
| MetalAc.MetalSimulationRegion.CopyVariableRow | src/solver/ddm_ac/ddmac_resistance.cc:210-237 | A gains the Jacobian row of `v`, read at the node's own real index. It goes into the target real row unshifted and into the target imaginary row shifted by this region's `n_variables` (`VariableCopy`). |
| MetalAc.MetalSimulationRegion.TargetRowsOf | src/solver/ddm_ac/ddmac_resistance.cc:215-221 | The computed rows are the node's own or, with both adjacent pointers given, the adjacent node's (`TargetRows`). |
| MetalAc.SplitColumns | src/solver/ddm_ac/ddmac_resistance.cc:223-228 | The real column list is the row's columns unchanged. The imaginary list has the same length, with each column moved by `n`. |
| AcMatrix.TargetRows | src/solver/ddm_ac/ddmac_resistance.cc:215-221 | The real target row lies in the block of the chosen node, and the imaginary row is `n_variables` further on. With redirection the adjacent region's base and `n_variables` apply. |
| AcMatrix.RedirectionOnlyWhenBoth | src/solver/ddm_ac/ddmac_resistance.cc:215-221 | For disjoint node blocks, the target rows stay in the node's own block if and only if not both adjacent region and adjacent node are given. Without redirection they are the node's own real and imaginary indices. |
| AcMatrix.CopyRowAt | src/solver/ddm_ac/ddmac_resistance.cc:223-234 | At (i, j) the copy adds the row's total at column j in the real row and its total at column j − n in the imaginary row, and nothing elsewhere. |
| AcMatrix.Doubling | src/solver/ddm_ac/ddmac_resistance.cc:210-234 | For a row without repeated columns and distinct target rows, each entry (c, v) adds v at (ac_real, c) and v at (ac_imag, c + n). Every other position keeps its value, so there are no real/imaginary cross terms. |
| AcMatrix.CopyVariablesRows | src/solver/ddm_ac/ddmac_resistance.cc:215-234 | Every row a copy writes into is the real or imaginary target row of a copied variable. |
| AcMatrix.CopyVariablesStep | src/solver/ddm_ac/ddmac_resistance.cc:204-238 | Applying the copies of k + 1 variables means applying those of k variables and then the copy of variable k. |
| AcMatrix.RedirectedFillAvoidsOwnRows | src/solver/ddm_ac/ddmac_resistance.cc:215-255 | With redirection to a disjoint block, every entry the filler adds lies in the adjacent node's rows and none in the node's own rows. |
| MetalAc.MetalSimulationRegion.AddThermalReactive | src/solver/ddm_ac/ddmac_resistance.cc:242-255 | A gains density·HeatCapacity(T)·omega·volume at (real row, imaginary row) and its negation at (imaginary row, real row), in the target temperature rows. |
| AcMatrix.ReactiveAntisymmetric | src/solver/ddm_ac/ddmac_resistance.cc:253-254 | The two cross positions change by c and −c, their changes sum to zero for every omega, and no other position changes. |
| AcMatrix.NodalSplit | src/solver/ddm_ac/ddmac_resistance.cc:204-255 | The nodal contributions are the row copies followed, with temperature, by the thermal term. Without temperature they are the copies alone. |
| MetalAc.MetalSimulationRegion.FillTransformationMatrix | src/solver/ddm_ac/ddmac_resistance.cc:130-177 | T is flushed exactly when the incoming flag is INSERT_VALUES. It gains the 2×2 block of every solved variable of every owned node, node by node, potential first. The flag leaves as ADD_VALUES. |
| MetalAc.MetalSimulationRegion.AddTransformationNodes | src/solver/ddm_ac/ddmac_resistance.cc:150-173 | The node loop applies the blocks of all nodes given to it and does not flush. |
| MetalAc.MetalSimulationRegion.AddTransformationNode | src/solver/ddm_ac/ddmac_resistance.cc:156-172 | The variable loop applies the block of every solved variable of the node. |
| MetalAc.MetalSimulationRegion.AddTransformationBlock | src/solver/ddm_ac/ddmac_resistance.cc:158-171 | The four (or two) MatSetValue calls add exactly `TransformationBlock` for `v`. |
| AcMatrix.TransformationNodeStep | src/solver/ddm_ac/ddmac_resistance.cc:156-172 | The blocks of k + 1 variables are those of k variables followed by the block of variable k. |
| AcMatrix.TransformationStep | src/solver/ddm_ac/ddmac_resistance.cc:150-173 | The blocks of k + 1 nodes are those of k nodes followed by node k's blocks. |
| AcMatrix.TransformationBlockAt | src/solver/ddm_ac/ddmac_resistance.cc:158-171 | The block adds 1 at (real, real) and (imag, imag). For every variable except potential it adds omega/diag at (real, imag) and −omega/diag at (imag, real), with diag = J(diag_index, diag_index). No other position changes. |
| AcMatrix.TransformationAtZeroFrequency | src/solver/ddm_ac/ddmac_resistance.cc:166-171 | At omega = 0 the cross positions do not change, and the block adds the identity. |
| MetalAc.MetalSimulationRegion.ForceEqual | src/solver/ddm_ac/ddmac_resistance.cc:337-365 | The flag must already be ADD_VALUES. A gains the +1/−1 rows for potential and, with temperature, for temperature (`ForceEqualContributions`). The flag leaves as ADD_VALUES. |
| MetalAc.MetalSimulationRegion.ForceEqualVariable | src/solver/ddm_ac/ddmac_resistance.cc:368-386 | The flag must be ADD_VALUES, and `v` must be assigned in both regions. A gains the +1/−1 rows of `v`, and the flag leaves as ADD_VALUES. |
| MetalAc.MetalSimulationRegion.AddEqualityRows | src/solver/ddm_ac/ddmac_resistance.cc:376-382 | The two MatSetValues calls add exactly the real and imaginary difference rows of `v`. |
| AcMatrix.EqualityRowsAdd | src/solver/ddm_ac/ddmac_resistance.cc:343-349 | For own and adjacent columns that differ, the constraint is added on top of what the rows hold: +1 at the own column and −1 at the adjacent column, in both the real and imaginary row. Every other position of the matrix keeps its value. |
| AcMatrix.EqualityRowsBalanced | src/solver/ddm_ac/ddmac_resistance.cc:376-382 | Applied to a vector where the own and adjacent unknowns of `v` agree, the constraint rows of `v` sum to zero in every row. |
| AcMatrix.ForceEqualBalanced | src/solver/ddm_ac/ddmac_resistance.cc:343-360 | Applied to a vector where potential and, with temperature, temperature agree across the interface, every constrained row sums to zero. |
| MetalAc.MetalSimulationRegion.UpdateSolution | src/solver/ddm_ac/ddmac_resistance.cc:389-418 | Every local node's psi_ac becomes (lxx[lo + psi_off], lxx[lo + n_variables + psi_off]). T_ac is set likewise only with temperature, and otherwise keeps its value. No other field of any node changes, and no node is added or removed. |
| AcVector.ExtractPlaced | src/solver/ddm_ac/ddmac_resistance.cc:402-415 | Reading a node's pairs back from a buffer that holds its placed values gives its psi_ac and T_ac. |
| AcVector.PlaceNodeKeepsOthers | src/solver/ddm_ac/ddmac_resistance.cc:402-415 | Placing one node's values leaves every value another node with a disjoint local block reads. |
| AcVector.ExtractPackRoundTrip | src/solver/ddm_ac/ddmac_resistance.cc:394-416 | For nodes with disjoint local blocks, extracting from the buffer that packs all nodes' AC values returns each node's own psi_ac and, with temperature, T_ac. |
| AcVector.PlaceNode | src/solver/ddm_ac/ddmac_resistance.cc:402-415 | Writing a node's AC values touches only that node's local block. |
| Dof.RealIndex | src/solver/ddm_ac/ddmac_resistance.cc:215 | The real index of a variable lies in the first half of the node's block. |
| Dof.ImagIndex | src/solver/ddm_ac/ddmac_resistance.cc:216 | The imaginary index lies in the second half, exactly `n_variables` after the real index. |
| Dof.IndicesSeparate | src/solver/ddm_ac/ddmac_resistance.cc:215-216 | Within a node, no real index equals an imaginary index, and different variables have different indices. |
| Dof.Variables | src/solver/ddm_ac/ddmac_resistance.cc:190-196 | Potential comes first. Temperature is present if and only if it is solved. No variable repeats. |
| Petsc.AccumulateAt | src/solver/ddm_ac/ddmac_resistance.cc:231-234 | Under ADD_VALUES, a position's value is its old value plus every contribution to it. Positions no contribution names keep their value. |
| Petsc.AccumulateAppend | src/solver/ddm_ac/ddmac_resistance.cc:231-234 | Two batches of ADD_VALUES calls have the effect of one batch holding both. |
| Petsc.KeySumAppend | src/solver/ddm_ac/ddmac_resistance.cc:231-234 | The total at a position over two batches is the sum of the two totals. |
| Petsc.KeySumSingle | src/solver/ddm_ac/ddmac_resistance.cc:165 | A single MatSetValue reaches only its own position. |
| Petsc.RowEntries | src/solver/ddm_ac/ddmac_resistance.cc:231 | A single-row MatSetValues call puts vals[k] at (row, cols[k]) for each k. |
| Petsc.KeySumRowEntries | src/solver/ddm_ac/ddmac_resistance.cc:231 | A single-row call reaches only its row, with that row's column totals. |
| Petsc.ColumnSumShift | src/solver/ddm_ac/ddmac_resistance.cc:227 | The column totals of a shifted row are those of the original row n columns to the left. |
| Petsc.ColumnSumDistinct | src/solver/ddm_ac/ddmac_resistance.cc:213 | In a row without repeated columns, the total at a present column is its single value, and the total at an absent column is zero. |
| Petsc.InsertAllOutside | src/solver/ddm_ac/ddmac_resistance.cc:90-91 | INSERT_VALUES leaves every index not inserted as it was. |
| Petsc.InsertAllLast | src/solver/ddm_ac/ddmac_resistance.cc:90-91 | Under INSERT_VALUES, an index holds the last value inserted at it. |
| Petsc.Jacobian.Row | src/solver/ddm_ac/ddmac_resistance.cc:213 | MatGetRow returns matching column and value lists; a row never assembled is empty. |
| Petsc.Mat.AddValue | src/solver/ddm_ac/ddmac_resistance.cc:165 | MatSetValue with ADD_VALUES accumulates one contribution and does not flush. |
| Petsc.Mat.AddValues | src/solver/ddm_ac/ddmac_resistance.cc:231 | MatSetValues on one row with ADD_VALUES accumulates that row's contributions. |
| Petsc.Mat.FlushAssembly | src/solver/ddm_ac/ddmac_resistance.cc:107-108 | A flush keeps every stored value and counts one flush. |
| Petsc.Vec.SetValues | src/solver/ddm_ac/ddmac_resistance.cc:90 | VecSetValues with INSERT_VALUES overwrites the listed indices in order. |

## Left out

- MAT_FLUSH_ASSEMBLY is a collective, distributed operation. Here it is only a counter on
  the matrix; pending-insertion semantics and communication are not modelled.
- Ownership across processes: `genius_assert(processor_id == ...)` (lines 198, 275) is a
  precondition `node.processorId == rank` of the nodal fillers. Which process runs which
  node is not modelled.
- `MatGetRow`/`MatRestoreRow` lifetimes, `VecGetLocalSize` and the buffer `reserve`
  calls (lines 45-49, 213, 237) manage memory only and are not modelled.
- `mt->mapping(...)` (lines 202, 278) points the material model at the current node.
  HeatCapacity is modelled as a function of T alone, the same at every node; any
  dependence on the node mapped at lines 202/278 is not captured. Conductance is a
  single field of `Material`.
- IEEE floating point and `std::complex` are replaced by exact `real` and pairs of reals.
  Rounding, overflow, infinities and NaN are not modelled.
- PetscInt width: indices are unbounded integers; 32-bit overflow of an index is not
  modelled.
- The unused `Vec b` parameter of the driver and the nodal fillers is dropped.
- An unassigned variable offset (`invalid_uint`) is a variable absent from
  `DofLayout.offset`. The region's `genius_assert` checks (lines 61, 76) become the
  requirement `Tracks(layout, enableTl)`.
- Null `fvm_node`, `node_data` and adjacent-region pointers are not modelled. The
  `genius_assert(node_data != NULL)` of line 400 is left out, and the adjacent pair is an
  `Option` pair.
- `on_processor_nodes` is taken to be the local nodes owned by this process, in the
  order of the local nodes (`OwnedNodes`). The source iterates a separate container
  whose order is not part of this model.
- Several redirected fills into the same adjacent rows, made from different regions, are
  not related to each other; each filler's effect is stated on its own.
- MetalAc.MetalSimulationRegion.FillValue: requires conductance and every owned node's
  volume to be nonzero (`Scalable`). The source divides without checking.
- MetalAc.MetalSimulationRegion.FillValue: requires `x` and `L` to be different vectors.
  The source does not check this, and with one vector the second insert would overwrite
  the first.
- MetalAc.MetalSimulationRegion.FillTransformationMatrix: requires the Jacobian's
  temperature diagonal to be nonzero at every owned node (`DiagonalsNonZero`). The source
  divides by it unchecked.
- MetalAc.MetalSimulationRegion.FillNodalMatrixVector: with redirection, requires the
  adjacent region to assign every solved variable (`AdjacentTracks`). The source reads
  the adjacent offsets without checking.
- MetalAc.MetalSimulationRegion.ForceEqual: requires the adjacent region to assign
  potential and, with temperature, temperature. The all-variable overload of the source
  does not check this.
- MetalAc.MetalSimulationRegion.UpdateSolution: requires both parts of every read
  variable of every local node to lie inside `lxx` (`NodeReadable`). The source indexes
  the raw buffer unchecked.
- AcMatrix.Doubling: stated for rows without repeated columns (an assembled PETSc row)
  and distinct target rows. For other rows, `CopyRowAt` gives the general per-position
  totals.
