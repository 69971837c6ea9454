# Heat transfer on a mesh of nodes

A model of mingyli/parallel-heat-transfer, a collection of finite-difference
heat-conduction programs. The C++ programs and the Go ports keep the same
structure. A mesh is an array of nodes, each with a temperature `T`, a scratch
sum `T_sum`, a position and a `fixed` flag marking Dirichlet nodes. Every time
step has two phases:

- an accumulate phase, where each free node adds the temperatures of the nodes
  within reach into its `T_sum` (`apply_tsum`);
- an update phase, where each free node replaces `T` by a function of `T_sum`
  and clears the sum (`tupdate`).

The model covers:

- **Bar** (`heatGen/twoD/common_naive.cpp` with `serial.cpp`). A bar of n nodes
  with both ends fixed. Every node is offered every node of the bar, but only
  the two adjacent ones are within reach. The update halves the sum.
- **Plate** (`heatGen/twoD/common.cpp` and `heatGen/twoD/init_bar_def.cpp`,
  driven by `twoD/serial.cpp`). An n x n plate whose neighbour indices are
  computed in each accumulate block, and hot spots that carry a heat source `qdot`.
- **Shape** (`novelShape/common.cpp` with `novelShape/serial.cpp`). A plate with
  a hollow cavity, where free nodes only take heat from neighbours on the same
  side of the cavity wall.
- **Go ports** (`golang/serial/serial.go`, `golang/serial.go` and
  `golang/parallel/parallel.go`). The bar and the square in Go. The parallel
  version hands every index to a pool of worker goroutines, once per phase.
- **MPI** (`heatGen/oneD/mpi.cpp`). The block partition of a bar across MPI
  ranks, the per-rank step, and the exchange of ghost nodes.

The model makes these modelling choices:

- Loops that change the mesh in place are methods over `array`s. Each method is
  specified by a function of the array's old contents, and the physics (the
  Jacobi averaging, fixed nodes never moving, steps that match across
  variants) is proved about those functions.
- All C node variants share one record, `HeatNode.Node`; each program reads
  and writes only its own fields. Fields an initialiser never writes keep
  whatever the buffer held.
- Temperatures are `real`. Integers are unbounded except where the source
  relies on a 32-bit result (the hot-spot heat source value `qdot`).

## Model

| member | source | states |
|---|---|---|
| Options.FirstFrom | heatGen/twoD/common_naive.cpp:115-121 | -1 exactly when no argument from the start position matches; otherwise the index of the first match |
| Options.FindOption | heatGen/twoD/common_naive.cpp:115-121 | returns -1 exactly when no argument after argv[0] equals the option, else the first such index |
| Options.ReadInt | heatGen/twoD/common_naive.cpp:123-129 | the default when the option is absent or last, else atoi of the following argument |
| Options.ReadString | heatGen/twoD/common_naive.cpp:131-137 | the default when the option is absent or last, else the following argument |
| NaiveBar.InitBar | heatGen/twoD/common_naive.cpp:50-69 | node 0 fixed at ltem, node n-1 fixed at rtem (which wins when n = 1), free nodes at T_default, node i at i*dx, T_sum 0; other fields kept |
| NaiveBar.InitBarLayout | heatGen/twoD/common_naive.cpp:50-69 | init_bar yields a laid-out bar: fixed exactly at both ends, end temperatures ltem and rtem, the rest at T_default, every T_sum 0 |
| NaiveBar.ApplyTsum | heatGen/twoD/common_naive.cpp:74-83 | a fixed node is untouched; only T_sum changes; a free node adds nb.T exactly when 0 < distance <= dx + 0.001 |
| NaiveBar.TUpdate | heatGen/twoD/common_naive.cpp:88-95 | a fixed node is untouched; a free node takes T_sum / 2 and clears T_sum |
| NaiveBar.ReachIsAdjacency | heatGen/twoD/common_naive.cpp:74-83 | on the laid-out bar, node j is within reach of node i exactly when j = i - 1 or j = i + 1 |
| NaiveSerial.Pulled | serial.cpp:57-58 | the sweep of one node over the bar changes only its T_sum, and nothing on a fixed node |
| NaiveSerial.NaiveStepAll | serial.cpp:55-65 | a step changes only T and T_sum: positions and flags stay, and a fixed node is kept whole |
| NaiveSerial.PullAll | serial.cpp:57-58 | node i ends as the fold of apply_tsum over every node of the pre-step bar; no other node changes |
| NaiveSerial.AccumulateAll | serial.cpp:55-59 | every node ends as its sweep over the pre-phase bar, even though earlier nodes have already changed their T_sum |
| NaiveSerial.UpdateAll | serial.cpp:64-65 | every node is tupdate of its old value |
| NaiveSerial.NaiveStep | serial.cpp:55-65 | the array after one step is the step function of its old contents |
| NaiveSerial.NaiveSimulate | serial.cpp:50-75 | the array after nsteps steps is NaiveSteps of its old contents |
| NaiveSerial.PulledOnBar | serial.cpp:57-58 | on a laid-out bar, the first m calls add the temperatures of exactly those of nodes i-1 and i+1 below m |
| NaiveSerial.NaiveStepOnBar | serial.cpp:55-65 | fixed ends keep their nodes; free node i gets (T_sum + T[i-1] + T[i+1]) / 2 and clears T_sum |
| NaiveSerial.NaiveStepsKeepBar | serial.cpp:50-75 | any number of steps keeps the bar laid out and both end nodes unchanged, and after one step every free T_sum is 0 |
| NaiveSerial.NaiveStepAverages | serial.cpp:55-65 | with T_sum 0, a step gives each free node the mean of its neighbours' temperatures |
| MpiPartition.Ends | heatGen/oneD/mpi.cpp:46-47 | lindex of rank 0 is 0 and rindex of the last rank is n |
| MpiPartition.RangeOf | heatGen/oneD/mpi.cpp:46-47 | 0 <= lindex <= rindex <= n, and rindex of rank r equals lindex of rank r + 1 |
| MpiPartition.RangeSize | heatGen/oneD/mpi.cpp:46-47 | every range holds n / n_proc or n / n_proc + 1 nodes, so it is nonempty once n >= n_proc |
| MpiPartition.Ordered | heatGen/oneD/mpi.cpp:46-47 | a lower rank's range ends at or before a higher rank's starts |
| MpiPartition.OwnerFromOwns | heatGen/oneD/mpi.cpp:46-47 | the search for an owner from a rank at or below the node finds a rank whose range holds it |
| MpiPartition.Tiling | heatGen/oneD/mpi.cpp:46-47 | every node in [0, n) lies in the range of exactly one rank |
| MpiPartition.NeighboursInBuffer | heatGen/oneD/mpi.cpp:46-47 | with n >= n_proc, tnodes[lindex-1] and tnodes[rindex] are inside the buffer exactly when the rank is neither first nor last |
| MpiPartition.EvenStarts | heatGen/oneD/mpi.cpp:46-47 | when all ranges have n / n_proc nodes, rank p starts at p * (n / n_proc) |
| MpiPartition.EvenRange | heatGen/oneD/mpi.cpp:46-47 | when n_proc divides n, rank p owns [p * (n / n_proc), (p + 1) * (n / n_proc)) |
| MpiPartition.EvenRanges | heatGen/oneD/mpi.cpp:92-93 | the per-rank counts passed to MPI_Allgather agree across all ranks exactly when n_proc divides n |
| MpiStep.NaiveKernelSumsOnly | heatGen/twoD/common_naive.cpp:74-83 | the bar's apply_tsum changes only T_sum and ignores the neighbour's T_sum, so the SumsOnly hypothesis below can be met |
| MpiStep.LocalStep | heatGen/oneD/mpi.cpp:61-68 | the buffer after both loops is LocalStepped of its old contents; requires 1 <= lindex and rindex < n |
| MpiStep.AccumulatedWrites | heatGen/oneD/mpi.cpp:61-64 | the sweep writes only nodes already swept |
| MpiStep.LocalStepWrites | heatGen/oneD/mpi.cpp:61-68 | the local step changes no node outside [lindex, rindex) |
| MpiStep.AccumulatedReads | heatGen/oneD/mpi.cpp:61-64 | buffers that agree on [lindex-1, rindex] still agree there after any prefix of the sweep |
| MpiStep.LocalStepReads | heatGen/oneD/mpi.cpp:61-68 | the result on [lindex, rindex) depends only on tnodes[lindex-1 .. rindex] |
| MpiStep.AccumulatedSumsOnly | heatGen/oneD/mpi.cpp:61-64 | with a sums-only kernel, the sweep changes only T_sum fields |
| MpiStep.AccumulatedJacobi | heatGen/oneD/mpi.cpp:61-64 | with a sums-only kernel, every swept node equals apply_tsum of its pre-sweep left and right neighbours, despite the in-place update of the left one |
| MpiStep.LocalStepJacobi | heatGen/oneD/mpi.cpp:61-68 | with such a kernel, node i ends as tupdate(apply_tsum(apply_tsum(T[i], T[i-1]), T[i+1])) of the pre-step buffer |
| MpiExchange.Received | heatGen/oneD/mpi.cpp:36-41 | a received NODE carries T, T_sum and x from the sender; qdot and fixed stay as the receiving slot held them |
| MpiExchange.FixedNotSent | heatGen/oneD/mpi.cpp:36-41 | a pinned node can arrive as a free one |
| MpiExchange.Slots | heatGen/oneD/mpi.cpp:72-88 | with n >= n_proc, every range is nonempty and contiguous with its neighbours, and the slots at lindex-1 and rindex lie inside the buffer |
| MpiExchange.SendLeft | heatGen/oneD/mpi.cpp:71-79 | the buffers after the send to the left are SentLeft of the old buffers |
| MpiExchange.SendRight | heatGen/oneD/mpi.cpp:81-88 | the buffers after the send to the right are SentRight of the old buffers |
| MpiExchange.Exchange | heatGen/oneD/mpi.cpp:70-88 | the buffers after both sends are Exchanged of the old buffers |
| MpiExchange.ExchangeWrites | heatGen/oneD/mpi.cpp:72-88 | only tnodes[rindex] (not on the last rank), tnodes[lindex-1] (not on rank 0) and recv_buffer[0] change; every owned node is kept |
| MpiExchange.OwnedKept | heatGen/oneD/mpi.cpp:72-88 | an owned node is unchanged halfway through and after the exchange |
| MpiExchange.RightGhostFilled | heatGen/oneD/mpi.cpp:71-79 | tnodes[rindex] of rank q is the same global index as rank q+1's lindex and carries that node's T, T_sum and x; qdot and fixed come from recv_buffer[0] |
| MpiExchange.LeftGhostFilled | heatGen/oneD/mpi.cpp:81-88 | tnodes[lindex-1] of rank q is the same global index as rank q-1's rindex-1 and carries that node's T, T_sum and x; qdot and fixed come from recv_buffer[0] |
| MpiGather.BlockOf | heatGen/oneD/mpi.cpp:92-93 | with even ranges, node i falls in block i / (n / n_proc), which is that rank's range |
| MpiGather.Encode | heatGen/oneD/common.h:17-24 | the ten 4-byte quads of a node read back as its T, T_sum, x, qdot and fixed |
| MpiGather.ReadsBack | heatGen/oneD/common.h:17-24 | a slot holding a node's quads reads back as that node's T, T_sum, x, qdot and fixed |
| MpiGather.GatherTearsNodes | heatGen/oneD/mpi.cpp:36-41 | with the NODE datatype's 32-byte extent, n = 4 and two ranks, the T of recv_buffer[2] reads back as rank 1's tnodes[2].x, so that slot does not hold its owner's node whenever x and T differ |
| MpiGather.WholeGatherCollectsOwners | heatGen/oneD/mpi.cpp:102-103 | with a datatype covering the whole node at the node's extent, slot i of every rank's recv_buffer holds node i of its owner, for every i in [0, n) |
| HotSpotPlate.Int32 | heatGen/twoD/common.cpp:97 | the C int result is in the 32-bit range, congruent to the exact value, and equal to it when that fits |
| HotSpotPlate.HotSpotQdotPositive | heatGen/twoD/common.cpp:97-110 | for mesh_pts up to 1458 the source 1010*n*n does not overflow and is positive |
| HotSpotPlate.HotSpots | heatGen/twoD/common.cpp:97-110 | init_bar heats 13 indices |
| HotSpotPlate.HotSpotNearCentre | heatGen/twoD/common.cpp:97-110 | every hot spot lies within two rows and two columns of (n/2, n/2) |
| HotSpotPlate.PlateCell | heatGen/twoD/common.cpp:50-111 | after init_bar, cell (i, j) is fixed and an edge exactly on the perimeter; rows 0 and n-1 hold ltem and rtem, columns 0 and n-1 of the middle rows hold ltem and rtem with x = 0; interior cells hold T_default at (step*j, step*i); T_sum is 0; hot spots carry the source |
| HotSpotPlate.InitBar | heatGen/twoD/common.cpp:50-111 | every cell of the buffer ends as PlateAt of its old node, and the returned step is 1/(mesh_pts-1); requires mesh_pts >= 5 so the 13 hot-spot writes stay in the buffer |
| HotSpotPlate.SetBorderPair | heatGen/twoD/common.cpp:54-70 | one pass of the first loop sets (0, j) and (n-1, j) and nothing else |
| HotSpotPlate.InitBorderRows | heatGen/twoD/common.cpp:54-70 | rows 0 and n-1 are framed; the rows between are untouched |
| HotSpotPlate.SetInterior | heatGen/twoD/common.cpp:74-80 | sets interior cell (i, j) and nothing else |
| HotSpotPlate.SetEndColumns | heatGen/twoD/common.cpp:83-95 | sets columns 0 and n-1 of row i and nothing else |
| HotSpotPlate.InitMiddleRow | heatGen/twoD/common.cpp:72-96 | every cell of row i is framed by its column; every cell of another row is untouched |
| HotSpotPlate.InitMiddleRows | heatGen/twoD/common.cpp:72-96 | rows 1 to n-2 are framed; rows 0 and n-1 are untouched |
| HotSpotPlate.Heat | heatGen/twoD/common.cpp:97-110 | one qdot assignment extends the set of seeded hot spots by one index |
| HotSpotPlate.SeedHotSpots | heatGen/twoD/common.cpp:97-110 | exactly the 13 hot-spot cells get qdot = 1010*n*n; every other node is unchanged |
| HotSpotPlate.HeatCross | heatGen/twoD/common.cpp:97-104 | the first seven assignments seed the first seven hot spots |
| HotSpotPlate.HeatOuter | heatGen/twoD/common.cpp:105-110 | the last six assignments seed the rest |
| HotSpotPlate.HotSpotsInBuffer | heatGen/twoD/common.cpp:97-110 | from mesh_pts = 5 on, every hot-spot index lies inside the n*n buffer |
| HotSpotPlate.HotSpotsAreInterior | heatGen/twoD/common.cpp:50-111 | from mesh_pts = 7 on, every hot spot is a free interior node at T_default holding the full source |
| HotSpotPlate.ApplyTsum | heatGen/twoD/common.cpp:117-123 | a fixed node is untouched; a free node adds nb.T to T_sum and changes nothing else |
| HotSpotPlate.TUpdate | heatGen/twoD/common.cpp:128-136 | a fixed node is untouched; a free node takes (T_sum + qdot*step^2/k) / div and clears T_sum; nothing else changes |
| PlateSerial.SourcesInBuffer | twoD/serial.cpp:56-90 | every index an accumulate block reads lies inside the n*n buffer |
| PlateSerial.InteriorSources | twoD/serial.cpp:60-63 | an interior cell reads up, down, left and right, in that order |
| PlateSerial.InteriorSourcesAreNeighbours | twoD/serial.cpp:60-63 | an interior cell gets four calls, one per orthogonal neighbour, and a cell is among its sources exactly when it is adjacent |
| PlateSerial.TopRowSources | twoD/serial.cpp:71-73 | a row-0 cell reads the cell below it and that cell's two row neighbours |
| PlateSerial.BottomRowSources | twoD/serial.cpp:75-77 | a row-(n-1) cell reads the cell above it and that cell's two row neighbours |
| PlateSerial.LeftColumnSources | twoD/serial.cpp:83-85 | a column-0 cell (i, 0) reads (i, 1), then cell (i, i) and cell (i-1, n-i), not the cells above and below it |
| PlateSerial.RightColumnSources | twoD/serial.cpp:87-89 | a column-(n-1) cell reads (i, n-2), then cell (i+1, i-1) and cell (i, n-1-i) |
| PlateSerial.InteriorIndices | twoD/serial.cpp:60-63 | the driver's (i-1)*n + j and (i+1)*n + j are the cells one row up and one row down, inside the buffer |
| PlateSerial.InteriorCell | twoD/serial.cpp:60-63 | cell n*i + j gains the four cross temperatures of the step's start; no temperature and no other node changes |
| PlateSerial.BorderIndices | twoD/serial.cpp:71-77 | the row offsets the border calls use lie inside the buffer |
| PlateSerial.TopCell | twoD/serial.cpp:71-73 | cell (0, j) gains the three row-1 temperatures; nothing else changes |
| PlateSerial.BottomCell | twoD/serial.cpp:75-77 | cell (n-1, j) gains the three row-(n-2) temperatures; nothing else changes |
| PlateSerial.TopBottomColumn | twoD/serial.cpp:70-77 | one pass updates (0, j) and (n-1, j) only |
| PlateSerial.SideIndices | twoD/serial.cpp:83-89 | (n+1)*i and (n-1)*i are n*i + i and n*i - i, inside the buffer |
| PlateSerial.SideCell | twoD/serial.cpp:83-89 | cells (i, 0) and (i, n-1) gain the sums of their listed sources; nothing else changes |
| PlateSerial.InteriorColumns | twoD/serial.cpp:58-64 | every cell of row i in columns 1 to n-2 gains its four cross temperatures; every other cell and every temperature is unchanged |
| PlateSerial.InteriorRow | twoD/serial.cpp:58-64 | the interior cells of row i gain their cross sums; the rest of the buffer is unchanged |
| PlateSerial.InteriorRowAddressed | twoD/serial.cpp:58-64 | within row i, columns 1 to n-2 are the interior cells, and each one's source sum is its cross sum |
| PlateSerial.AccumulateInterior | twoD/serial.cpp:56-65 | every node ends as offered by the interior block, which reads only the step's start temperatures |
| PlateSerial.TopBottomAddressed | twoD/serial.cpp:68-78 | the row block's cells are columns 1 to n-2 of rows 0 and n-1, reading the row-1 and row-(n-2) triples |
| PlateSerial.TopBottomColumns | twoD/serial.cpp:70-78 | after the column loop, cells 1 to n-2 of row 0 and of row n-1 have gained their row triples; every other node is unchanged |
| PlateSerial.AccumulateTopBottom | twoD/serial.cpp:68-78 | every node ends as offered by the row block |
| PlateSerial.SideRowAddressed | twoD/serial.cpp:83-89 | within row i, the column block's cells are exactly columns 0 and n-1, and they read the sources the driver lists |
| PlateSerial.AccumulateSides | twoD/serial.cpp:80-90 | every node ends as offered by the column block |
| PlateSerial.BlocksPartition | twoD/serial.cpp:56-90 | the three blocks are disjoint, and a corner has no sources |
| PlateSerial.Finalize | twoD/serial.cpp:95-96 | indices 0 to n-1 are tupdated with div 1; every later index is untouched |
| PlateSerial.StepAll | twoD/serial.cpp:56-96 | a step changes only T and T_sum: x, y, qdot and the fixed and edge flags stay, and a fixed node is kept whole |
| PlateSerial.Step | twoD/serial.cpp:56-96 | the array after one step is the step function of its old contents |
| PlateSerial.Simulate | twoD/serial.cpp:50-106 | the array after nsteps steps is Steps of its old contents |
| PlateSerial.InteriorGathered | twoD/serial.cpp:60-63 | the sum an interior cell gathers is the sum of its four neighbours' pre-step temperatures |
| PlateSerial.InteriorStep | twoD/serial.cpp:56-96 | a step adds the four neighbour temperatures to an interior cell's T_sum and leaves its T, because the finalize loop never reaches it |
| PlateSerial.FrozenStep | twoD/serial.cpp:95-96 | with row 0 fixed, a step is its accumulate blocks alone |
| PlateSerial.FrozenRowZero | twoD/serial.cpp:50-106 | with row 0 fixed, t steps change no temperature and no flag, and a free node's T_sum grows by t times its source sum |
| PlateSerial.FrozenKeepsTemps | twoD/serial.cpp:50-106 | with row 0 fixed, any number of steps keeps every temperature |
| PlateSerial.PlateRowZeroFixed | heatGen/twoD/common.cpp:54-70 | row 0 of the plate init_bar builds is all fixed |
| PlateSerial.InitializedPlateKeepsTemperatures | twoD/serial.cpp:34-106 | the plate init_bar builds keeps every temperature through any number of steps |
| DefaultPlate.DefaultCell | heatGen/twoD/init_bar_def.cpp:4-32 | the laid-out node is fixed exactly on rows 0 and n-1, an edge exactly on the four sides, at ltem, rtem or T_default by row, with T_sum 0, x = step*j and y = 0, bar_size or step*i |
| DefaultPlate.InitBarDefault | heatGen/twoD/init_bar_def.cpp:1-33 | every node of the n*n buffer ends as the cell layout at (k / n, k % n) says, whatever the buffer held |
| DefaultPlate.SetDefaultBorderPair | heatGen/twoD/init_bar_def.cpp:6-18 | node j of row 0 and node j of row n-1 are laid out; nothing else changes |
| DefaultPlate.DefaultBorderRows | heatGen/twoD/init_bar_def.cpp:5-19 | rows 0 and n-1 are laid out; the middle rows are untouched |
| DefaultPlate.SetFree | heatGen/twoD/init_bar_def.cpp:23-28 | node (i, j) becomes free at T_default, not an edge; nothing else changes |
| DefaultPlate.DefaultMiddleRow | heatGen/twoD/init_bar_def.cpp:22-31 | row i is laid out, its two end columns made edges; nothing else changes |
| DefaultPlate.DefaultMiddleRows | heatGen/twoD/init_bar_def.cpp:21-32 | rows 1 to n-2 are laid out; rows 0 and n-1 are untouched |
| NovelShape.ShapeCell | novelShape/common.cpp:51-98 | in the laid-out plate, exactly the four corners are corners; the edges are the outer border and the cavity's rim; the cavity cells, and only they, sit at x = -100; the fixed cells are the two column-0 strips at ltem and rtem, none in the cavity; every other node is free at T_default with T_sum 0 |
| NovelShape.InitShape | novelShape/common.cpp:51-98 | returns step = 1/(n-1) and leaves every node as the cell layout says; needs n >= 10, because with a smaller mesh the cavity pass writes row -1 |
| NovelShape.FillRow | novelShape/common.cpp:56-64 | row i becomes free at T_default, neither edge nor corner; nothing else changes |
| NovelShape.FillRows | novelShape/common.cpp:55-65 | the first pass blanks every node |
| NovelShape.CornersAddressed | novelShape/common.cpp:67-70 | the four indices written are exactly the four corner cells |
| NovelShape.MarkCorners | novelShape/common.cpp:67-70 | exactly the corner cells gain the corner flag |
| NovelShape.EdgeRoundAddressed | novelShape/common.cpp:73-76 | pass i flags exactly (i, 0), (i, n-1), (0, i) and (n-1, i) |
| NovelShape.EdgeRound | novelShape/common.cpp:73-76 | exactly the four indices of pass i gain the edge flag |
| NovelShape.MarkBorder | novelShape/common.cpp:72-77 | exactly the outer-border cells gain the edge flag |
| NovelShape.HollowRow | novelShape/common.cpp:80-89 | row i's cavity columns move to x = -100; the rim cells this pass writes gain the edge flag; nothing else changes |
| NovelShape.HollowRoundAddressed | novelShape/common.cpp:79-90 | each pass extends the moved cells and the rim by exactly the indices it writes |
| NovelShape.HollowCavity | novelShape/common.cpp:79-90 | exactly the cavity cells move and exactly the rim cells gain the edge flag |
| NovelShape.PinCell | novelShape/common.cpp:92-97 | pass i pins exactly (i, 0) at ltem and (n-i-1, 0) at rtem, two cells no earlier pass pinned |
| NovelShape.PinRound | novelShape/common.cpp:93-96 | the two cells of pass i become fixed at ltem and rtem; nothing else changes |
| NovelShape.PinStrips | novelShape/common.cpp:92-97 | exactly the two strips are fixed, at ltem and rtem |
| NovelShape.ApplyTsum | novelShape/common.cpp:103-112 | a fixed node is untouched; otherwise only T_sum changes, by the neighbour's T or not at all |
| NovelShape.SidesDoNotMix | novelShape/common.cpp:108-111 | between laid-out nodes, a free node takes a neighbour's T exactly when both are solid or both are in the cavity |
| NovelShape.TUpdate | novelShape/common.cpp:117-125 | a fixed node is untouched; a free node takes T_sum / div and clears T_sum |
| NovelShape.Visible | novelShape/common.cpp:138-141 | the saved indices are in increasing order, each in the buffer with x > -1, and every node with x > -1 is among them |
| NovelShape.SavedAreSolid | novelShape/common.cpp:138-141 | on the laid-out plate a node is saved exactly when it is not in the cavity |
| NovelShapeSerial.PullFrom | novelShape/serial.cpp:59-66 | a chain of apply_tsum calls changes only T_sum and leaves a fixed node as it is |
| NovelShapeSerial.Side | novelShape/serial.cpp:59-66 | a guarded neighbour is at most one index, inside the buffer |
| NovelShapeSerial.OrthogonalIn | novelShape/serial.cpp:59-66 | every in-grid orthogonal neighbour indexes the n*n buffer |
| NovelShapeSerial.PullFour | novelShape/serial.cpp:59-66 | four guarded calls in a row are one chain over their concatenated sources |
| NovelShapeSerial.PullSnoc | novelShape/serial.cpp:59-66 | one more guarded call extends the chain by one stage |
| NovelShapeSerial.CellPullIsGathered | novelShape/serial.cpp:59-66 | the four guarded calls make exactly one call per in-grid orthogonal neighbour, up, down, left, right |
| NovelShapeSerial.Divisor | novelShape/serial.cpp:77-82 | the divisor is 2, 3 or 4 |
| NovelShapeSerial.Pull | novelShape/serial.cpp:60-66 | one guarded call gives node c apply_tsum of the neighbour's pre-step node, changes no other node, and keeps every T and x |
| NovelShapeSerial.AccumulateCell | novelShape/serial.cpp:59-66 | node (i, j) ends as its four calls on the pre-step buffer give; no other node changes |
| NovelShapeSerial.AccumulateRow | novelShape/serial.cpp:57-67 | row i ends accumulated; the rest is unchanged |
| NovelShapeSerial.AccumulateAll | novelShape/serial.cpp:55-68 | the accumulate phase leaves every node as the Jacobi sweep from the step's start gives, though the loop updates in place |
| NovelShapeSerial.UpdateRow | novelShape/serial.cpp:75-83 | every node of row i is tupdated with its own divisor; nothing else changes |
| NovelShapeSerial.UpdateAll | novelShape/serial.cpp:73-85 | every node is tupdated with its own divisor |
| NovelShapeSerial.ShapeStep | novelShape/serial.cpp:55-85 | every node ends as one step of the pre-step buffer gives |
| NovelShapeSerial.ShapeSimulate | novelShape/serial.cpp:50-95 | the buffer after nsteps steps is nsteps steps of its old contents |
| NovelShapeSerial.PullFromSides | novelShape/serial.cpp:59-66 | on a laid-out plate a free node gathers exactly the temperatures of the listed neighbours on its own side of the cavity wall |
| NovelShapeSerial.ShapeStepCell | novelShape/serial.cpp:55-85 | a fixed node is unchanged by a step; a free node keeps everything but T and T_sum, takes its gathered sum over its divisor, and clears T_sum |
| NovelShapeSerial.GatheredOnSides | novelShape/serial.cpp:55-68 | on a laid-out plate a free node gathers its old T_sum plus the temperatures of its in-grid neighbours on its own side of the wall |
| NovelShapeSerial.ShapeStepsKeepLayout | novelShape/serial.cpp:50-95 | through any number of steps every node keeps its position and flags, and every fixed node keeps its whole node |
| NovelShapeSerial.ShapeDivisor | novelShape/serial.cpp:77-82 | on the laid-out plate the divisor is 2 exactly at the corners, 3 on the rest of the border and the rim, and 4 elsewhere |
| GoMesh.FixTemp | golang/serial/serial.go:92-95 | the node is fixed at temp; every other field keeps its value |
| GoMesh.FixTempTwice | golang/serial/serial.go:92-95 | a second FixTemp on the same node overrides the first entirely |
| GoMesh.Reach | golang/serial/serial.go:102-115 | two nodes k and m on the dX grid are within dX + EPS in x exactly when k and m differ by at most one |
| GoMesh.TUpdate | golang/serial/serial.go:118-124 | a fixed node is untouched; a free node's new T times Neighbors is its TSum, TSum is cleared, and nothing else changes |
| GoMesh.UpdateAll | golang/serial/serial.go:202-204 | every node is replaced by its TUpdate |
| GoMesh.InitBar | golang/serial/serial.go:39-57 | returns a fresh n-node slice whose node k is the bar layout's node k |
| GoMesh.BarLayout | golang/serial/serial.go:39-57 | in the bar, exactly the two ends are fixed, at leftTemp and rightTemp with one neighbour each; every other node is free at TDefault with two; TSum is 0 |
| GoMesh.CountNeighbors | golang/serial/serial.go:70-83 | the count is the number of in-grid orthogonal neighbours of column i, row j, between 0 and 4 |
| GoMesh.InitSquare | golang/serial/serial.go:59-90 | returns a fresh n*n slice whose node k is the square layout's node k |
| GoMesh.SquareLayout | golang/serial/serial.go:59-90 | in the square, node k sits in column k%n and row k/n with as many Neighbors as in-grid orthogonal neighbours (2 to 4); only nodes 0 and n*n-1 are fixed, at the two given temperatures; every other node is at TDefault; TSum is 0 |
| GoSerial.ApplyTsum | golang/serial/serial.go:97-116 | a fixed node is untouched; only TSum changes; a free node within dX + EPS in x takes the neighbour's T, and one farther off is unchanged |
| GoSerial.BarPull | golang/serial/serial.go:178-179 | free node i ends with the sum it gathers from nodes i+1 and i-1 of the pre-step bar; nothing else changes |
| GoSerial.BarAccumulate | golang/serial/serial.go:176-181 | every node ends as gathered from the pre-step bar, though the loop updates in place |
| GoSerial.AdmittedExactly | golang/serial/serial.go:185-196 | the guards admit an offset exactly when it moves along one axis and stays in the grid, and both indices then lie in the slice |
| GoSerial.OffsetsAreNeighbours | golang/serial/serial.go:185-196 | the nine offsets add exactly the temperatures of the node's in-grid orthogonal neighbours |
| GoSerial.OffsetCountIsNeighbors | golang/serial/serial.go:185-196 | the guards admit as many offsets as the node has in-grid orthogonal neighbours |
| GoSerial.SquareColumnOffsets | golang/serial/serial.go:186-196 | the dy loop adds the admitted terms of offset dx to node idxA; nothing else changes |
| GoSerial.SquareCell | golang/serial/serial.go:185-197 | the node's TSum grows by the temperatures of its in-grid neighbours; nothing else changes |
| GoSerial.SquareColumn | golang/serial/serial.go:184-198 | every node of column i ends gathered; the other columns are unchanged |
| GoSerial.SquareAccumulate | golang/serial/serial.go:183-199 | every node ends gathered from the pre-step square |
| GoSerial.StepKeepsShape | golang/serial/serial.go:175-204 | a step keeps every node's position, Fixed flag and Neighbors count |
| GoSerial.Step | golang/serial/serial.go:175-204 | the slice after one pass is one step of its old contents |
| GoSerial.Simulate | golang/serial/serial.go:164-205 | the slice after nsteps passes is nsteps steps of its old contents |
| GoSerial.BarStepOnBar | golang/serial/serial.go:175-204 | on the laid-out bar the fixed ends keep their nodes, and a free node k takes (TSum + T[k+1] + T[k-1]) / 2 and clears TSum |
| GoSerial.BarStepKeepsBar | golang/serial/serial.go:175-204 | one bar step keeps the bar laid out and its ends unchanged, and clears every free node's TSum |
| GoSerial.BarStepsKeepBar | golang/serial/serial.go:164-205 | any number of bar steps keeps the bar laid out and both ends unchanged |
| GoSerial.BarStepsClearSums | golang/serial/serial.go:164-205 | after at least one step every free node has TSum 0 |
| GoSerial.SquareStepCell | golang/serial/serial.go:183-204 | a fixed node keeps T but its TSum grows by its neighbours' T; a free node's new T times Neighbors is its old TSum plus its neighbours' T, and its TSum is cleared |
| GoSerial.SquareStepsKeepSquare | golang/serial/serial.go:164-205 | on the laid-out square each node admits exactly Neighbors offsets; any number of steps keeps the layout and every fixed node's T |
| GoAllPairs.ApplyTsum | golang/serial.go:88-99 | a fixed node is untouched; only TSum changes; a free node takes the neighbour's T exactly when the two lie within dX + EPS along one axis and level along the other |
| GoAllPairs.SquareReach | golang/serial.go:93-96 | on the square's positions two distinct nodes are in reach exactly when they are orthogonally adjacent |
| GoAllPairs.Pulled | golang/serial.go:123-128 | a run of ApplyTsum calls changes only TSum and leaves a fixed node as it is |
| GoAllPairs.PullAll | golang/serial.go:123-128 | node i ends as ApplyTsum with every other node of the pre-step mesh gives; nothing else changes |
| GoAllPairs.Accumulate | golang/serial.go:122-129 | every node ends gathered from the pre-step mesh, though the loop updates in place |
| GoAllPairs.StepAll | golang/serial.go:121-133 | a step keeps every node's position, flag and count, so the mesh stays dividable |
| GoAllPairs.Step | golang/serial.go:122-133 | the slice after one pass is one step of its old contents |
| GoAllPairs.Simulate | golang/serial.go:121-134 | the slice after nsteps passes is nsteps steps of its old contents |
| GoAllPairs.StepsKeepFixed | golang/serial.go:121-134 | through any number of steps every fixed node keeps its node, and every node its position, flag and count |
| GoAllPairs.AdjacentByIndex | golang/serial.go:123-127 | node m is one of the four index neighbours of node k exactly when it is orthogonally adjacent |
| GoAllPairs.NeighboursBelowStep | golang/serial.go:123-127 | index m adds to the running neighbour sum exactly when it is adjacent to k |
| GoAllPairs.NeighboursBelowAll | golang/serial.go:123-127 | once every index has been visited, the running sum is the sum over the in-grid orthogonal neighbours |
| GoAllPairs.PulledBelow | golang/serial.go:123-128 | the first m iterations of the inner loop add to a free node exactly its neighbours below m |
| GoAllPairs.AddedIffAdjacent | golang/serial.go:124-127 | iteration j adds to node k exactly when j is orthogonally adjacent to k |
| GoAllPairs.PulledStep | golang/serial.go:124-127 | iteration j adds s[j].T to a free node k exactly when j is another node in reach |
| GoAllPairs.GatheredOnSquare | golang/serial.go:122-129 | on the square a free node gathers exactly its in-grid orthogonal neighbours' temperatures |
| GoAllPairs.StepOnSquare | golang/serial.go:121-133 | on the square a fixed node keeps its node, and a free node's new T times Neighbors is its TSum plus its neighbours' T, with TSum cleared |
| GoAllPairs.FreeStep | golang/serial.go:131-133 | a free node that gathered sum takes (TSum + sum) / Neighbors and clears TSum |
| GoAllPairs.StepsKeepSquare | golang/serial.go:121-134 | any number of steps keeps the square laid out |
| GoAllPairs.NeighbourTempsReadsT | golang/serial.go:123-127 | the neighbour sum depends only on the temperatures |
| GoAllPairs.StepCellMatchesSerial | golang/serial.go:121-133 | on the square, node k after one step equals node k after one step of golang/serial/serial.go, up to a fixed node's TSum |
| GoAllPairs.StepMatchesSerial | golang/serial.go:121-133 | one step here and one there keep two meshes with the same temperatures in step |
| GoAllPairs.NextStepMatchesSerial | golang/serial.go:121-134 | agreement after t steps carries to t + 1 |
| GoAllPairs.StepsMatchSerial | golang/serial.go:121-134 | on the square the all-pairs loop and golang/serial/serial.go's neighbour loop keep the same meshes at every step, up to a fixed node's unread TSum |
| GoAllPairs.SerialTemperaturesAgree | golang/serial.go:136-140 | hence both programs report the same temperature for every node after any number of steps |
| GoAllPairs.InitBar | golang/serial.go:33-48 | returns a fresh n-node slice whose nodes are free at TDefault on the dX grid, with node 0 and node meshPts-1 pinned and every Neighbors 0 |
| GoAllPairs.GlobalBarLayout | golang/serial.go:33-48 | with meshPts = n exactly nodes 0 and n-1 are fixed; with meshPts < n node n-1 stays free; every Neighbors is 0, so a bar of three or more nodes has a free node TUpdate would divide by zero |
| GoParallel.SumAt | golang/parallel/parallel.go:158-170 | the sum body changes only node idx's TSum; in bar mode a free node's TSum becomes its bar neighbours' T; in square mode or on a fixed node the mesh is unchanged |
| GoParallel.SumBody | golang/parallel/parallel.go:158-170 | the slice after the body is SumAt of its old contents |
| GoParallel.SumAtIdempotent | golang/parallel/parallel.go:168 | running the sum body twice for one index is running it once |
| GoParallel.SumAtCommutes | golang/parallel/parallel.go:158-170 | the sum bodies for two indices commute, so the order in which workers take indices does not matter |
| GoParallel.UpdateAt | golang/parallel/parallel.go:179-183 | node idx becomes its TUpdate; every other node is unchanged |
| GoParallel.UpdateBody | golang/parallel/parallel.go:179-183 | the slice after the body is UpdateAt of its old contents |
| GoParallel.Summed | golang/parallel/parallel.go:192-196 | after the sum phase a node differs from its pre-step node only in TSum |
| GoParallel.StepAll | golang/parallel/parallel.go:192-201 | a step keeps every node's position, flag and count, so the mesh stays dividable |
| GoParallel.SumPhase | golang/parallel/parallel.go:192-196 | every node ends summed from the pre-step mesh, whatever order the indices run in |
| GoParallel.UpdatePhase | golang/parallel/parallel.go:197-201 | every node is replaced by its TUpdate |
| GoParallel.Step | golang/parallel/parallel.go:192-201 | the slice after one pass is one step of its old contents |
| GoParallel.Simulate | golang/parallel/parallel.go:191-202 | the slice after nsteps passes is nsteps steps of its old contents |
| GoParallel.SquareStepZeroes | golang/parallel/parallel.go:160-183 | in square mode the sum body is empty, so from a square whose free nodes hold TSum 0 a step takes every free node to T = 0 and leaves fixed nodes unchanged |
| GoParallel.SquareStepsZeroes | golang/parallel/parallel.go:191-202 | in square mode, after any number of steps, free nodes sit at T = 0 from the first step on and fixed nodes never move |
| GoParallel.BarStepMatchesSerial | golang/parallel/parallel.go:158-183 | on a cleared bar a step here equals a step of golang/serial/serial.go |
| GoParallel.NextBarStepMatchesSerial | golang/parallel/parallel.go:191-202 | agreement on a still-cleared bar after t steps carries to t + 1 |
| GoParallel.BarStepsMatchSerial | golang/parallel/parallel.go:191-202 | from the bar InitBar returns, bar mode here and golang/serial/serial.go compute the same meshes at every step |
| Grid.OrthogonalExactly | novelShape/serial.cpp:59-66 | the neighbour list of an in-grid cell holds exactly the in-buffer indices of the cells orthogonally adjacent to it, never the cell itself |

Helpers without a row, which state unfolding and arithmetic facts the proofs use rather than model source lines: `HeatNode.Temps`, `HeatNode.SumOver3`, `HeatNode.SumOver4`, `MpiPartition.DivMono`, `MpiPartition.DivAdd`, `MpiPartition.DivUnique`, `MpiPartition.MulSign`, `MpiExchange.ContentsAre`, `MpiGather.QuotientInRange`, `MpiGather.ElementSource`, `MpiGather.ElementOf`, `MpiGather.BlockOffset`, `MpiGather.ScaledBelow`, `MpiGather.SlotBound`, `MpiGather.WholeSlot`, `MpiGather.WholeQuad` and `Grid.MiddleRowsAddressed`.

## Left out

- File output (`save`, the CSV and temperature printing), timers, `printf`, and the Go profiling and tracing (`flag`, `pprof`, `trace`) have no effect on the mesh, so they are not modelled. `NovelShape.Visible` models only which nodes `save` selects.
- Command-line parsing is modelled by `Options`. The integer `atoi` makes of an argument is a parameter of `Options.ReadInt`, because the C library is not part of this model.
- Floating point: temperatures and positions are `real`, so there is no rounding, overflow, infinity or NaN. The distance guards are exact comparisons of reals.
- GoMesh.TUpdate: requires a nonzero `Neighbors` on a free node. In Go that division gives an infinity or a NaN, which has no `real` counterpart. `GoAllPairs.GlobalBarLayout` proves that the bar of golang/serial.go hits this case.
- NovelShape.InitShape: requires n >= 10, because for a smaller mesh the cavity pass writes outside the buffer.
- HotSpotPlate.InitBar: requires n >= 5, because for a smaller mesh the hot-spot indices fall outside the buffer.
- DefaultPlate.InitBarDefault: requires n >= 2, because the spacing divides by mesh_pts - 1.
- MpiStep.LocalStep: requires 1 <= lindex and rindex < n. The source's loop reads tnodes[lindex-1] and tnodes[rindex], so rank 0 and the last rank read outside the buffer (`MpiPartition.NeighboursInBuffer`).
- MPI runtime: `MPI_Init`, ranks running concurrently, and the blocking of `MPI_Send` and `MPI_Recv` are not modelled. The exchange runs the ranks' sends and receives one rank at a time, in an order in which every message is delivered (`MpiExchange.SendLeft`, `MpiExchange.SendRight`).
- MpiExchange.Exchange: requires n >= n_proc, so that every rank owns at least one node.
- MpiExchange.Received: the NODE datatype carries T, T_sum, x and the first four bytes of qdot. The model transfers T, T_sum and x, and the receiver keeps its own qdot and flags.
- MpiGather.Allgathered: the `MPI_Allgather` is modelled only when n_proc divides n. Otherwise the ranks pass different counts, which MPI does not define (`MpiPartition.EvenRanges`).
- MpiGather.Allgathered: memory is modelled in 4-byte quads, and a double's two halves are named by its value rather than by its bits. A double whose halves come from two values reads back as no value, and the int at byte 24 of NODE moves the low half of `qdot` without interpreting it.
- The `MPI_Bcast` of line 44 is not modelled. Every rank has already run the same `init_bar`, and the broadcast copies each quad it covers to the same address on every rank, so it can change only memory that `init_bar` leaves uninitialised.
- The time-step driver of heatGen/oneD/mpi.cpp that runs the local step, the exchange and the gather NSTEPS times on every rank is not modelled as one method. Its three parts are modelled separately.
- The kernels of heatGen/oneD/common.cpp are not part of this model. `MpiStep` takes `apply_tsum` and `tupdate` as parameters, and `MpiStep.NaiveKernelSumsOnly` shows that the naive kernel has the shape its Jacobi lemma needs.
- Memory from `malloc` is uninitialised. The model treats its contents as arbitrary old values, which the initialisers partly overwrite.
- The pointer arithmetic and integer width of the C index expressions are not modelled: indices are unbounded integers. The exception is the hot-spot heat source value `qdot = 1010*n*n` of heatGen/twoD/common.cpp, which is modelled with 32-bit wrap-around.
- Goroutine scheduling, channels and the `sync.WaitGroup` of golang/parallel/parallel.go are modelled by running each phase's bodies one index at a time. `GoParallel.SumAtCommutes` shows that the order of the sum bodies does not matter.
- parallel.go's `Neighbors` is a float64 that only ever holds whole counts, so it is modelled as an `int`.
- openmp.cpp is not part of this model: its OpenMP parallel region and work-sharing pragmas run the bar step that `NaiveSerial` models for serial.cpp.
- visualize.py, a plotting script, is not part of this model.

## Findings

| source | as written | input that shows it | evidently intended | confidence | as-written member | corrected member |
|---|---|---|---|---|---|---|
| heatGen/oneD/mpi.cpp:36-41 | NODE covers three doubles and an int at byte 24 and is never resized, so its extent is 32 bytes, while node_t (heatGen/oneD/common.h:17-24) is 40 bytes. The `MPI_Allgather` of lines 92-93 and 102-103 therefore reads and writes element e at byte 32 e. | n = 4 and n_proc = 2: rank 1's block starts at byte 64 of recv_buffer, and the T of recv_buffer[2] receives rank 1's tnodes[2].x | a datatype that covers every field of node_t with the extent of node_t, so that recv_buffer[i] receives node i from its owner | not executed; assumes MPI rounds the extent up to the 8-byte alignment of a double | MpiGather.GatherTearsNodes | MpiGather.WholeGatherCollectsOwners |
