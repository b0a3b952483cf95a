# Cellular Potts lattice core of Chaste, modelled in Dafny

This project models the core of Chaste's two-dimensional Cellular Potts
population and proves properties about it. Chaste is a C++ framework for
cell-based simulation. In a Potts model, each cell occupies a set of sites of
a regular lattice of nodes. The mesh stores each cell's sites as an *element*:
an ordered list of global node indices. Each node stores the set of element
indices that contain it.

The model covers these parts:

- **Moore-neighbourhood query** (`LatticeTopology`, `lattice_topology.dfy`).
  - Node `i` of a grid `across` nodes wide and `up` nodes high gets up to
    eight neighbour indices, in the fixed order N, NW, W, SW, S, SE, E, NE.
  - A neighbour is dropped when an edge test says the node lies on that edge.
    A diagonal survives only when both of its sides do.
  - The source computes in 32-bit `unsigned` arithmetic, and the model writes
    that wrap-around out explicitly (`Wrap`).
  - The set version of the query is the set of the vector's entries.
- **Mesh arenas** (`PottsMesh`, `potts_mesh.dfy`).
  - `Mesh` is a class whose fields are the element node lists, the element
    deletion flags and the node containing-element sets. Its methods update
    these fields in place.
  - Its operations are element construction (which registers the element with
    its nodes), `PottsElement::AddNode`, and the erasure of one node from an
    element.
  - `MeshState` is the value view of the same arenas. The site-migration
    sweep is specified on it as `MigrateStep` and `SweepFrom`.
- **Population bookkeeping** (`PottsPopulation`, `potts_population.dfy`).
  - `Population` is a class holding the cell list, the cell-to-element map,
    the element-to-cell map and the mesh.
  - `Validate` counts cells per element in an array. `RemoveDeadCells` erases
    dead cells from the list in place.
  - `UpdateNodeLocations` runs the migration sweep on the mesh.
  - `WriteResultsToFiles` produces the integer payload of one results line:
    per cell, the node count of its element followed by the node indices.
- **Initial crypt cells** (`CryptCellsGenerator`, `crypt_cells_generator.dfy`).
  - A cell's zone follows from its element's centroid height against four
    thresholds.
  - A random birth time is scaled by the zone's typical cycle time.
  - When location indices are given, only elements whose index is listed
    get a cell.
- **Shared definitions.** `Sequences` (`sequences.dfy`) holds small facts
  about sequences. `Wrappers` (`wrappers.dfy`) holds `Option`.

Inputs that the source reads from singletons, the random number generator or
the mesh geometry are parameters here:

- the grid sizes;
- element centroid heights;
- the uniform draws;
- the cell-cycle phase durations;
- whether cells may differentiate.

The 4 × 4 worked examples follow the code. Node 5 gives
`[9, 8, 4, 0, 1, 2, 6, 10]`. Node 0 gives `[4, 1, 5]`: the north-east
diagonal is kept, because node 0 is on neither the north nor the east edge.

## Model

| member | source | states |
|---|---|---|
| LatticeTopology.NeighbouringNodeIndicesVector | src/population/PottsBasedCellPopulation.cpp:346-445 | the query returns at most eight entries, each the 32-bit candidate of a direction its node's edge flags allow |
| LatticeTopology.EdgeFlagsMeaning | src/population/PottsBasedCellPopulation.cpp:421-424 | south means row 0, west column 0, east the last column; north means `i >= nodes_up * (nodes_across - 1)` with at least two columns and never holds with one |
| LatticeTopology.NeighbourVector | src/population/PottsBasedCellPopulation.cpp:439-445 | the neighbour vector has at most eight entries |
| LatticeTopology.AvailableDirectionsSpec | src/population/PottsBasedCellPopulation.cpp:426-445 | the kept directions are exactly the available ones, each once, in N, NW, W, SW, S, SE, E, NE order, at most eight |
| LatticeTopology.AvailableSlotsPresent | src/population/PottsBasedCellPopulation.cpp:439-445 | every available direction's candidate index appears in the vector |
| LatticeTopology.VectorIsFilteredCandidates | src/population/PottsBasedCellPopulation.cpp:409-445 | the vector is the in-order subsequence of the eight candidates `i+W, i+W-1, i-1, i-W-1, i-W, i-W+1, i+1, i+W+1` (mod 2^32) kept by the availability flags |
| LatticeTopology.DiagonalRule | src/population/PottsBasedCellPopulation.cpp:429-436 | each diagonal is available iff both of its orthogonal directions are |
| LatticeTopology.NeighbourPosition | src/population/PottsBasedCellPopulation.cpp:410-436 | with the source's south, west and east tests, an available candidate is a non-negative index whose row and column are the node's own moved one step in that direction |
| LatticeTopology.InteriorNodeHasEightNeighbours | src/population/PottsBasedCellPopulation.cpp:410-445 | a node on no edge gets all eight neighbours, each the plain sum, in compass order |
| LatticeTopology.Node5Of4By4 | src/population/PottsBasedCellPopulation.cpp:410-445 | node 5 of a 4 × 4 grid gives `[9, 8, 4, 0, 1, 2, 6, 10]` |
| LatticeTopology.Node0Of4By4 | src/population/PottsBasedCellPopulation.cpp:410-445 | node 0 of a 4 × 4 grid gives `[4, 1, 5]` (N, E, NE) |
| LatticeTopology.NeighboursAreAdjacent | src/population/PottsBasedCellPopulation.cpp:421-445 | every entry is a different node whose row and column each differ from the node's by at most one; entry `j` lies exactly the row and column step of the `j`-th kept direction away, so there is no east/west wrap-around on any grid width |
| LatticeTopology.NeighbouringNodeIndices | src/population/PottsBasedCellPopulation.cpp:330-343 | the neighbour set has exactly the members of the neighbour vector |
| LatticeTopology.NeighbourSetMatchesVector | src/population/PottsBasedCellPopulation.cpp:330-343 | the vector has no repeats, so the set has as many members as the vector has entries |
| LatticeTopology.SquareNorthEdgeIsTopRow | src/population/PottsBasedCellPopulation.cpp:422 | on a square grid of at least 2 × 2 nodes, the source's north test holds exactly on the top row |
| LatticeTopology.SquareGridNeighboursInRange | src/population/PottsBasedCellPopulation.cpp:421-445 | on a square grid of at least 2 × 2 nodes, every neighbour of a grid node is a node of the grid |
| LatticeTopology.IntendedNeighboursInRange | src/population/PottsBasedCellPopulation.cpp:422 | with the top-row north test, every neighbour of every rectangular grid's node is in the grid |
| LatticeTopology.IntendedAgreesOnSquareGrids | src/population/PottsBasedCellPopulation.cpp:422 | on square grids of at least 2 × 2 nodes, the source's query and the top-row query agree |
| LatticeTopology.NonSquareGridNorthNeighbourOffGrid | src/population/PottsBasedCellPopulation.cpp:422 | on a 4-wide, 2-high grid, node 4 (top row) gets the north neighbour 8, which is outside the grid; the top-row test drops it |
| LatticeTopology.OneColumnGridHasNoNorthEdge | src/population/PottsBasedCellPopulation.cpp:422 | with one column, the north threshold wraps, so no node is on the north edge |
| LatticeTopology.OneColumnGridNorthNeighbourOffGrid | src/population/PottsBasedCellPopulation.cpp:422 | in a grid 1 wide and 2 high, node 1 (top row) gets `[2, 0]`, with 2 outside the grid, where the top-row test gives `[0]` |
| PottsMesh.Mesh.AddElement | cell_based/src/mesh/PottsElement.cpp:43-47 | the new element lists its nodes at the next index, is not deleted, and is recorded by exactly its nodes |
| PottsMesh.NewElementEffect | cell_based/src/mesh/PottsElement.cpp:43-47 | element construction lists the nodes at the next index, not deleted; each initial node's set gains exactly that index, every other set is unchanged, and the existing elements and their flags stay as they were |
| PottsMesh.NewElementKeepsInvariants | cell_based/src/mesh/PottsElement.cpp:43-47 | construction keeps node lists and containing sets in agreement, and keeps lists free of repeats when the initial nodes have none |
| PottsMesh.Mesh.AddNode | cell_based/src/mesh/PottsElement.cpp:55-62 | the new state is the old one with the node appended to the element and the element added to the node's set |
| PottsMesh.AppendNodeEffect | cell_based/src/mesh/PottsElement.cpp:55-62 | the list grows by one, with earlier entries unchanged and in order and the node last; the node's set gains the element; no other element or node changes |
| PottsMesh.AppendNodeKeepsConsistency | cell_based/src/mesh/PottsElement.cpp:58-61 | adding a node keeps "every listed node records the element" and its converse |
| PottsMesh.AppendPresentNodeRepeats | cell_based/src/mesh/PottsElement.cpp:55-62 | re-adding a listed node repeats it in the list and leaves every containing set unchanged (no duplicate check) |
| PottsMesh.Mesh.DeleteNode | src/population/PottsBasedCellPopulation.cpp:231 | erasing the node at a local position removes that entry and removes the element from that node's set |
| PottsMesh.NextNode | src/population/PottsBasedCellPopulation.cpp:213-222 | the claimed node is `(last + 1) mod numNodes`, a node of the mesh |
| PottsMesh.StripStep | src/population/PottsBasedCellPopulation.cpp:224-232 | erasing the node from one more element of the snapshot set extends the strip by that element |
| PottsMesh.StripNodeEffect | src/population/PottsBasedCellPopulation.cpp:224-232 | after the strip, the node's set is empty and no other set changes; an element that held the node has lost its first copy with its other entries kept in order, and every other element keeps its list |
| PottsMesh.SweepFrom | src/population/PottsBasedCellPopulation.cpp:208-236 | the sweep visits the elements in index order and skips deleted ones: over deleted elements only it leaves the mesh as it was, and it can fail only at an element that is not deleted |
| PottsMesh.MigrateStep | src/population/PottsBasedCellPopulation.cpp:213-235 | one element's turn keeps the arenas well formed, each element's recorded nodes listed, and the arena sizes and deletion flags unchanged |
| PottsMesh.MigrateStepEffect | src/population/PottsBasedCellPopulation.cpp:213-235 | after a turn the claimed node is recorded by the claiming element alone and other nodes' sets are unchanged; the claiming element's list is its old list (less the first copy of the node, if it held one) followed by the node; every other holder has lost its first copy with its order kept, and every other element keeps its list |
| PottsMesh.MigrateStepKeepsConsistency | src/population/PottsBasedCellPopulation.cpp:213-235 | a turn keeps node lists and containing sets in agreement and lists free of repeats |
| PottsMesh.MigrateStepKeepsAtMostOne | src/population/PottsBasedCellPopulation.cpp:213-235 | on a mesh that may have free (medium) sites, a turn never lets two elements share a site and never frees an occupied site; the claimed site ends up held by the claiming element alone |
| PottsMesh.MigrateStepKeepsPartition | src/population/PottsBasedCellPopulation.cpp:213-235 | corollary: when every site is occupied by exactly one element, a turn keeps it so |
| PottsMesh.SweepKeepsShape | src/population/PottsBasedCellPopulation.cpp:207-236 | a completed sweep keeps the arenas well formed, their sizes, and the deletion flags |
| PottsMesh.SweepKeepsConsistency | src/population/PottsBasedCellPopulation.cpp:207-236 | a completed sweep keeps node lists and containing sets in agreement and free of repeats |
| PottsMesh.SweepKeepsAtMostOne | src/population/PottsBasedCellPopulation.cpp:207-236 | on a mesh that may have free sites, a completed sweep never lets two elements share a site and never frees an occupied site |
| PottsMesh.SweepKeepsPartition | src/population/PottsBasedCellPopulation.cpp:207-236 | corollary: when every site is occupied by exactly one element, a completed sweep keeps it so |
| PottsPopulation.Population.Validate | src/population/PottsBasedCellPopulation.cpp:297-326 | succeeds iff every element index is the location of exactly one cell; otherwise reports the smallest offending index, with "no cell" checked before "more than one", and reports the count |
| PottsPopulation.OneCellPerElement | src/population/PottsBasedCellPopulation.cpp:297-326 | on success, the cell locations are pairwise different and cover every element, and the cell count equals the element count |
| PottsPopulation.ElementsCoveredOnce | src/population/PottsBasedCellPopulation.cpp:297-326 | conversely, pairwise different locations that cover every element pass the check |
| PottsPopulation.Population.RemoveDeadCells | src/population/PottsBasedCellPopulation.cpp:182-200 | the list becomes the old list with dead cells filtered out, and the return value is the number of dead cells; the mesh is not touched |
| PottsPopulation.SurvivorsSpec | src/population/PottsBasedCellPopulation.cpp:182-200 | the survivors are live, each live cell keeps its multiplicity, and survivors plus removed cells make up the old list |
| PottsPopulation.SurvivorsAppend | src/population/PottsBasedCellPopulation.cpp:185-199 | filtering preserves order: the survivors of a concatenation are the concatenation of the survivors |
| PottsPopulation.NoDeadCellsSurvive | src/population/PottsBasedCellPopulation.cpp:182-200 | a list without dead cells is unchanged and none are removed |
| PottsPopulation.Population.UpdateNodeLocations | src/population/PottsBasedCellPopulation.cpp:204-238 | the mesh ends in the state of the specified sweep over the elements in index order, skipping deleted ones |
| PottsPopulation.Population.ClaimNextNode | src/population/PottsBasedCellPopulation.cpp:213-235 | one element's turn leaves the mesh in exactly the state `MigrateStep` specifies |
| PottsPopulation.Population.CellAt | src/population/PottsBasedCellPopulation.cpp:576-579 | looking an element up in the element-to-cell map inserts a null entry when none exists, and returns the mapped entry |
| PottsPopulation.Population.WriteResultsToFiles | src/population/PottsBasedCellPopulation.cpp:567-597 | the payload is the block encoding of the node lists of the cells (in list order) whose element is not deleted and whose mapped cell is not dead; null entries are added exactly for the looked-up elements that had none |
| PottsPopulation.DecodeEncode | src/population/PottsBasedCellPopulation.cpp:586-595 | a payload of count-prefixed blocks reads back as the same blocks |
| PottsPopulation.BlockLength | src/population/PottsBasedCellPopulation.cpp:586-595 | each written block is the node count followed by the node indices, `1 + numNodes` integers |
| PottsPopulation.NullMappingDoesNotSkip | src/population/PottsBasedCellPopulation.cpp:572-582 | an element that is not deleted and has no mapped cell, or a null one, has its block written |
| PottsPopulation.AllBlocksWritten | src/population/PottsBasedCellPopulation.cpp:567-597 | when no cell is skipped, one block per cell is written, and block `k` is the node list of cell `k`'s element |
| CryptCellsGenerator.StemCycleTime | src/crypt/Cell/SimpleWntCellCycleModelCellsGeneratorForVertex.cpp:47-51 | the stem cycle time, stem G1 plus S-G2-M, is at least each phase when both are non-negative |
| CryptCellsGenerator.TransitCycleTime | src/crypt/Cell/SimpleWntCellCycleModelCellsGeneratorForVertex.cpp:39-43 | the transit cycle time, transit G1 plus S-G2-M, is at least each phase when both are non-negative |
| CryptCellsGenerator.ZoneOf | src/crypt/Cell/SimpleWntCellCycleModelCellsGeneratorForVertex.cpp:109-138 | generation is at most 4, 0 iff `y <= y0`; stem iff generation 0; differentiated iff generation 4 and cells can differentiate |
| CryptCellsGenerator.GenerationCountsBands | src/crypt/Cell/SimpleWntCellCycleModelCellsGeneratorForVertex.cpp:109-138 | with `y0 < y1 <= y2 <= y3`, the generation counts the bands below `y`: above `y0`, and at or above each of `y1`, `y2`, `y3` |
| CryptCellsGenerator.GenerationMonotone | src/crypt/Cell/SimpleWntCellCycleModelCellsGeneratorForVertex.cpp:109-138 | with ordered thresholds, a higher cell never has an earlier generation |
| CryptCellsGenerator.CycleTimeByHeight | src/crypt/Cell/SimpleWntCellCycleModelCellsGeneratorForVertex.cpp:109-137 | the birth time is scaled by the stem cycle time at or below `y0`, and by the transit cycle time above it, differentiated cells included |
| CryptCellsGenerator.CellFor | src/crypt/Cell/SimpleWntCellCycleModelCellsGeneratorForVertex.cpp:99-151 | the cell made for an element is healthy, initialised iff requested, of generation at most 4, a stem cell iff generation 0 iff its height is at most `y0`, and born at time 0 without random birth times |
| CryptCellsGenerator.BirthTime | src/crypt/Cell/SimpleWntCellCycleModelCellsGeneratorForVertex.cpp:103-107 | without random birth times the birth time is 0 |
| CryptCellsGenerator.BirthTimeInLastCycle | src/crypt/Cell/SimpleWntCellCycleModelCellsGeneratorForVertex.cpp:103-138 | for a draw in [0, 1) and a positive cycle time, the birth time is at most 0, and it is after minus one cycle time when random |
| CryptCellsGenerator.SelectedSpec | src/crypt/Cell/SimpleWntCellCycleModelCellsGeneratorForVertex.cpp:153-163 | the kept element indices are increasing, and index `i` is kept iff `i < numElements` and (no locations are given, or `i` is listed) |
| CryptCellsGenerator.AllSelectedWithoutLocations | src/crypt/Cell/SimpleWntCellCycleModelCellsGeneratorForVertex.cpp:159-162 | with no locations given, every element index gets a cell, in order |
| CryptCellsGenerator.SelectedCount | src/crypt/Cell/SimpleWntCellCycleModelCellsGeneratorForVertex.cpp:71-81 | with locations given, the cell count is at most the list's length, and equals it iff the list has no repeats and only in-range entries |
| CryptCellsGenerator.GenerateForVertexCrypt | src/crypt/Cell/SimpleWntCellCycleModelCellsGeneratorForVertex.cpp:55-165 | the output (the list is cleared first) has one cell per kept element index in increasing order; element `i` uses its own height and draw `i` |
| CryptCellsGenerator.GeneratedCellsSpec | src/crypt/Cell/SimpleWntCellCycleModelCellsGeneratorForVertex.cpp:109-151 | cell `j` is healthy, has the zone type and generation of the `j`-th kept element's height, has its cycle model initialised iff requested, and has that element's birth time |
| CryptCellsGenerator.GeneratedBirthTimes | src/crypt/Cell/SimpleWntCellCycleModelCellsGeneratorForVertex.cpp:103-151 | for draws in [0, 1) and positive cycle times, every generated cell was born within the last cycle of its zone, and at time 0 without random birth times |

## Left out

- `PottsElement::GetAspectRatio` is not modelled. It is floating-point covariance work with `pow`, `sqrt` and exact comparisons of doubles.
- Stream and file output is not modelled: the time stamp, separators and newline of each results line, opening and closing files, parameter output, and `SimulationTime`. Only the integer block payload is kept.
- The population's stub members are not modelled: `AddCell` (which asserts), the no-op `AddNode`/`SetNode`, the commented-out `Update`, and `GetDampingConstant`.
- The commented-out one- and three-dimensional neighbour code is not modelled.
- The thin delegations to the mesh (`GetNode`, `GetElement`, widths, element centroids) are not modelled. The grid sizes and centroid heights are inputs instead.
- The population constructor's optional call to `Validate` is not modelled. `Population.constructor` only stores its arguments. How the base population builds its maps is not part of this model.
- The random-number and tissue-configuration singletons are not modelled. Draws, phase durations and the differentiation switch are parameters.
- The creation of each cell's cycle model is not modelled.
- LatticeTopology.NeighboursAreAdjacent: the adjacency lemmas assume `i + across + 1 < 2^32`. Near the top of the 32-bit range the wrapped candidates are not adjacent, and the model does not state what happens there.
- LatticeTopology.NeighbourSetMatchesVector: assumes `i + across + 1 < 2^32` too. Without it the vector can repeat an entry: with `i = 2^31 + 1`, `across = 2^31` and `up = 2`, no edge flag holds and the north and south candidates both wrap to 1, so the set is smaller than the vector.
- LatticeTopology.InteriorNodeHasEightNeighbours: assumes `i + across + 1 < 2^32`, so that each of the eight entries is the plain sum rather than its 32-bit wrap.
- PottsMesh.Mesh.AddElement: the `index` argument of the `PottsElement` constructor is not modelled. The new element always takes the next index of the element arena. How the mesh chooses the index it passes is not part of this model, so an element built with any other index is not covered.
- PottsMesh.Mesh.DeleteNode: `MutableElement::DeleteNode`, `GetNodeLocalIndex` and `Node::RemoveElement` are not part of this model. The model uses their evident meaning:
  - erase the entry at a local position;
  - the node's first position in the list;
  - drop the element from the node's set.
  With repeat-free lists, the first position and any other choice agree.
- PottsPopulation.Population.ClaimNextNode: the snapshot set is visited in an arbitrary order rather than ascending order. The result is proved to be the same for every order.
- PottsPopulation.Population.UpdateNodeLocations: the force vector and time step are dropped, because the source does not use them. The precondition that every visited element is non-empty is stated as "the specified sweep is defined" (`SweepFrom(...).Some?`).
- PottsPopulation.Population.Validate: the cell iterator's rules for skipping cells live in the abstract base population and are not part of this model. Every listed cell is counted, and the element count is the arena size.
- PottsPopulation.Population.RemoveDeadCells: the `--it` after an erase is modelled as a plain filter. The in-place erase walks the list by position.
- CryptCellsGenerator.GenerateForVertexCrypt: the source sets the generation on the cell-cycle model only when a `dynamic_cast` succeeds. That class hierarchy is not part of this model, so the zone generation is recorded on the generated cell itself.
- CryptCellsGenerator.GenerateForVertexCrypt: the template's dimension is fixed at 2, so `assert(DIM==2)` always holds.
- CryptCellsGenerator.GenerateForVertexCrypt: the `reserve` call does not affect the result and is not modelled.
- CryptCellsGenerator.GenerateForVertexCrypt: doubles are modelled as exact reals, with no rounding.

## Findings

| source | as written | input that shows it | evidently intended | confidence | as-written member | corrected member |
|---|---|---|---|---|---|---|
| src/population/PottsBasedCellPopulation.cpp:422 | a node is on the north edge iff `i > nodes_up*(nodes_across-1)-1`, with width and height swapped | a grid 4 wide and 2 high (nodes 0..7), node 4 in the top row: the north flag is false, so the north neighbour 8 is emitted, outside the grid | north edge iff `i >= nodes_across*(nodes_up-1)`, the top row | high; not executed | LatticeTopology.NonSquareGridNorthNeighbourOffGrid | LatticeTopology.IntendedNeighboursInRange |
| src/population/PottsBasedCellPopulation.cpp:422 | with `nodes_across == 1`, the unsigned threshold `nodes_up*0-1` wraps to 2^32 - 1, so no node is ever on the north edge | a grid 1 wide and 2 high (nodes 0 and 1), node 1 in the top row: the vector is `[2, 0]`, and 2 is not a node of the grid; the intended test gives `[0]` | the top row is the north edge | medium; not executed | LatticeTopology.OneColumnGridNorthNeighbourOffGrid | LatticeTopology.IntendedNeighboursInRange |
