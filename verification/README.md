# A verified model of the simulator's hard parts

The simulator ships a thermal floorplanner and thermal solvers (HotSpot), a trace format with a two-way protocol
(SIFT), a scheduler script and a CPI-stack builder. This project models the parts of them that carry the difficult
invariants and proves what they promise, in Dafny 4.11. `dafny verify dfyconfig.toml` checks everything.

**Floorplanning** (`Polish`, `MoveSpace`, `NpeTables`, `Npe`, `Slicing`, `Curves`, `Geometry`, `Sizing`, `Floorplan`,
`FloorplanLayout`, `Compaction`, `Strips`, `Rim`, `Wrap`, `Evaluate`). A floorplan is a normalized Polish expression
that three kinds of annealing move edit in place, together with four cached tables. Main results: every run of moves
keeps the expression valid and the tables equal to a recomputation; a swap of unit and cut is refused exactly when its
result would be invalid; every move is undone by itself; any two valid expressions on the same units are connected by
moves; valid expressions and skewed slicing trees correspond one to one and the parser never runs out of its stack for
up to 128 units; the orientation picked at the root has the least area among all choices of one orientation per unit;
the recursive sizing, which enlarges child curves while it places blocks, tiles the bounding box exactly, and a dead
block goes exactly when it is small enough beside its neighbour, so that without compaction every unit keeps its chosen
size; the L2 cache makes the chip a square where the core allows it, and has its area; wrapping the rim around keeps
the tiling under an exact condition on empty blocks, which compaction removes; and one whole evaluation of the
annealing loop, from expression to wrapped chip and back to the placeholder, is correct.

**Dense solver and block model** (`Sums`, `LupMatrix`, `Lup`, `LupSingular`, `Conduction`, `BlockModel`,
`BlockAssembly`, `BlockGeometry`, `BlockValues`, `BlockSolve`, `BlockThermal`). In-place LUP decomposition with pivoting
gives P*A = L*U, substitution solves A*x = b, inversion inverts; a successful decomposition with a zero last pivot has
no inverse. The block model's matrix B has in every entry the conductance that floorplan and materials say, is symmetric
with row sums equal to the ambient conductances, takes only zero to zero and never leads to a zero pivot. All of it is
composed: from a floorplan and its power to steady-state temperatures, which solve B*T = power, send exactly the block
power to the ambient and are nowhere below the ambient.

**Grid model** (`GridMap`, `GridShares`, `Multigrid`, `GridNetwork`, `GridSweep`, `GridSolver`, `GridAssembly`,
`GridMatrix`, `GridSystem`, `GridValues`). Every block gives every cell power by the area they have in common, and none
is lost; coarsening keeps the power, the vertical conductance and the heat capacity of every layer at every depth, and
the model's dimensions are restored exactly when they can be halved all the way. The Gauss-Seidel sweep and the
separately assembled sparse matrix describe one system: the assembly emits exactly the predicted number of entries and
no position twice, each with the resistance between its two nodes, the matrix is symmetric, and its solutions are the
fixed points of the sweep, which no sweep ever moves away from. There is at most one: every node reaches the ambient, so
the system is nonsingular. That steady state sends exactly the power of the cells to the ambient and is nowhere below
the ambient. Both package paths are included.

**SIFT** (`SiftFormat`, `SiftTrace`, `SiftMessages`, `SiftEconomy`, `SiftWriter`, `SiftReader`, `SiftProtocol`). The
record formats are unambiguous and read back exactly; for every sequence of writer calls the reader reports the same
instructions with their code bytes and the same messages, and hands every request with its arguments to its handler;
no code and no page mapping is sent twice; the decode cache with its successor pointers always gives the cache entry of
the address. The request/response protocol with nested memory accesses is a state machine of both sides: over every run
no assertion fails, exactly one side waits, each request gets its own reply, and remote accesses act like direct ones.

**Scripts** (`ThreadLists`, `Scheduler`, `CpiStack`, `CpiReport`, `SortedSet`). The locality scheduler never shares a
core, accounts for every thread's progress in its score, and after each period runs exactly the lowest-scored threads; a
CPI stack neither loses nor double-counts a key and shows exactly the components worth showing; the tolerant sorted set
used for grid lines finds exactly what lies within the tolerance.

**Shared** (`Wrappers`, `RealFunctions`, `Compass`). Optional values, functions on reals, and the four sides of a chip.

## How the code is modelled

Floating-point numbers are reals, and comparisons up to a tolerance are equalities, except in `SortedSet` and in the
pivot test of `Lup`, where the tolerance is the point. `fatal` and failed assertions are results (`false`, `null`,
`None`, `Failed`), or are shown not to occur. Objects and arrays that the code updates in place are classes and arrays
here; their methods are proved against functions on values, about which the theorems are stated. Square roots are a
function parameter that squares back; random draws are arbitrary; performance counters are parameters.

Assumptions taken over from the code's own use: at least two units, leaf curves positive with widths rising and heights
falling; fresh thread ids; instruction sizes 1 to 15 that depend only on the address, like the code bytes; no
instruction in the last page of the address space where whole pages of code are sent; positive dimensions and
resistances; at least two rows and columns for the assembled matrix; `detailed_3D` off.

Where the code does less than its description says, the model follows the code:

- `make_random_move` stops with "giving up" exactly when 15 or more tries failed before the first success, so also
  when the 16th try succeeded (`Npe.MakeRandomMove`; `Npe.RefusedThroughout` shows that tries can fail for good).
- Names of 65535 or more characters in a routine announcement are cut off (`SiftMessages.RequestRoundTrip`).
- An instruction of size zero is accepted by the writer and never read back (`SiftFormat.RecordRoundTrip`).
- A simple instruction record drops the executed bit (`SiftTrace.ExecutedBit` says exactly when that matters).
- Program output and system calls without data are accepted by the writer and refused by the reader
  (`SiftTrace.EmptyMessagesRefused`, `SiftProtocol.MessageFailsIff`).
- Memory accesses inside handlers of calls other than system call, sync, magic and emulate, or of no bytes, fail an
  assertion (`SiftProtocol.AccessFailsIff`).
- Resuming a thread that still holds a core lets a later thread start on a core in use
  (`Scheduler.ResumedWhileRunning`; `Scheduler.Scheduler.ThreadResume` and `ThreadStart` give the exact conditions).
- Empty blocks can make rim strips overlap. Blocks and strips tile the chip exactly when every empty block on a side
  takes no length of that edge, is not at the corner where the side's strips are extended, and does not lie strictly
  within the edge of another block (`Rim.RimTilesIff`; `Rim.HarmfulAlone` and `Rim.PointOnEdge` show the parts of the
  condition). Compaction, which the floorplanner uses before it wraps, removes empty blocks.
- Odd grid dimensions are not restored after multigrid descent (`Multigrid.OddRowsLost`, `Multigrid.BackIff`). The
  solver never meets them: without SuperLU the model is refused unless both dimensions are powers of two, for which
  `Multigrid.PowersHalvable` holds, and with SuperLU the multigrid solver is not called.
- `sift_format.h` calls every record with a nonzero first byte a simple instruction; the reader distinguishes by the
  low four bits, and so does `SiftFormat.Decode`.

## Model

| member | source | states |
|---|---|---|
| Polish.UnitsBelowExact | HotSpot-6.0/npe.c:16-24 | the unit table lists exactly the positions of operands, ascending |
| Polish.FlipsBelowExact | HotSpot-6.0/npe.c:27-36 | the flip table lists exactly the adjacent pairs of an operand and a cut |
| Polish.ChainsBelowExact | HotSpot-6.0/npe.c:39-61 | the chain table lists exactly the first cuts of maximal runs of cuts |
| Polish.M1KeepsValid | HotSpot-6.0/npe.c:157-172 | exchanging adjacent operands keeps a valid expression valid |
| Polish.M2KeepsValid | HotSpot-6.0/npe.c:175-198 | inverting a chain keeps a valid expression valid |
| Polish.M3KeepsValid | HotSpot-6.0/npe.c:225-264 | an accepted swap of operand and cut keeps balloting and normalization |
| Polish.MoveKeepsValid | HotSpot-6.0/npe.c:157-264 | every offered move that is carried out gives a valid expression on the same units |
| Polish.MoveUndone | HotSpot-6.0/npe.c:157-264 | the same move at the same position is offered again and undoes a successful move |
| Polish.M1Effect | HotSpot-6.0/npe.c:157-172 | the unit is exchanged with the next one, past cuts only, and nothing else changes |
| Polish.M2Effect | HotSpot-6.0/npe.c:175-198 | one whole run of cuts is inverted and nothing else changes |
| Polish.M3Exact | HotSpot-6.0/npe.c:225-264 | a swap of unit and cut is carried out exactly when the result is a valid expression |
| MoveSpace.RunKeepsValid | HotSpot-6.0/npe.c:267-321 | validity holds after any run of moves |
| MoveSpace.RunUndone | HotSpot-6.0/npe.c:157-264 | every run of moves can be run backwards |
| MoveSpace.InitialValid | HotSpot-6.0/npe.c:75-105 | the initial expression 0 1 V 2 V ... is valid |
| MoveSpace.LeftMoveLowersSum | HotSpot-6.0/npe.c:225-264 | moving a cut left lowers the sum of cut positions |
| MoveSpace.LeftMoveExists | HotSpot-6.0/npe.c:225-264 | a valid expression that is not fully skewed has a legal move of a cut to the left |
| MoveSpace.ReachesInitial | HotSpot-6.0/npe.c:75-105 | every valid expression on n units reaches the initial one by legal moves |
| MoveSpace.Connected | HotSpot-6.0/npe.c:157-264 | any two valid expressions on the same units are connected by legal moves |
| NpeTables.SwappedTables | HotSpot-6.0/npe.c:201-264 | moving an operand over a cut changes one entry of the unit table and one ballot count, by one each |
| NpeTables.TablesNonempty | HotSpot-6.0/npe.c:267-321 | a valid expression always offers a unit, a chain and a flip to draw |
| NpeTables.SureMove | HotSpot-6.0/npe.c:272-298 | drawn moves of the first two kinds always apply |
| Npe.NPE.FillUnitPos | HotSpot-6.0/npe.c:16-24 | the loop fills the unit table |
| Npe.NPE.FillFlipPos | HotSpot-6.0/npe.c:27-36 | the loop fills the flip table |
| Npe.NPE.FillChainPos | HotSpot-6.0/npe.c:39-61 | succeeds exactly on normalized expressions and then fills the chain table |
| Npe.NPE.FillBallotCount | HotSpot-6.0/npe.c:63-72 | the loop fills the ballot counts |
| Npe.NPE.Initial | HotSpot-6.0/npe.c:75-105 | builds the initial expression with all tables right |
| Npe.NPE.Duplicate | HotSpot-6.0/npe.c:324-357 | a fresh copy with the same expression and right tables |
| Npe.NPE.SwapUnits | HotSpot-6.0/npe.c:157-172 | carries out the exchange in place and leaves every table right |
| Npe.NPE.InvertChain | HotSpot-6.0/npe.c:175-198 | inverts the chain in place and leaves every table right |
| Npe.NPE.UpdateUnitPos | HotSpot-6.0/npe.c:201-223 | the binary search finds the position exactly when it is there and changes that entry only |
| Npe.NPE.SwapCutUnit | HotSpot-6.0/npe.c:225-264 | carries out the move exactly when it is legal, refuses without any change otherwise, and never misses a unit position |
| Npe.NPE.Make | HotSpot-6.0/npe.c:272-314 | a move drawn from the tables is done exactly when it applies, with all tables right afterwards |
| Npe.TryMove | HotSpot-6.0/npe.c:272-314 | one try fails exactly when it drew 16 swaps of a unit and a cut that are all refused, and leaves the copy as it was; otherwise the copy is one offered move away |
| Npe.MakeRandomMove | HotSpot-6.0/npe.c:267-321 | gives up exactly when at least 15 tries failed before the first success, each failed try being 16 offered moves that are refused; otherwise returns a fresh valid expression that the offered move made leads to |
| Npe.RefusedThroughout | HotSpot-6.0/npe.c:225-264 | in every initial expression the first swap of a unit and a cut is offered and refused, however often it is drawn |
| Slicing.ParseThenPrint | HotSpot-6.0/shape.c:299-332 | parsing a valid expression ends with one tree whose postorder is the expression |
| Slicing.PrintThenParse | HotSpot-6.0/shape.c:299-332 | parsing the postorder of a tree gives the tree back |
| Slicing.NormalizedIffSkew | HotSpot-6.0/npe.c:39-61 | the postorder is normalized exactly when no right child has its parent's cut |
| Slicing.TreesAreExpressions | HotSpot-6.0/shape.c:299-332 | valid trees and valid expressions correspond one to one |
| Slicing.FewUnitsFit | HotSpot-6.0/shape.c:269-289 | expressions on at most 128 units never overflow the stack |
| Curves.ShapeAdd | HotSpot-6.0/shape.c:125-198 | the merge loop computes the sum of two curves for either cut |
| Curves.AddProper | HotSpot-6.0/shape.c:125-198 | the sum of two curves is again positive and monotone |
| Curves.AddDominates | HotSpot-6.0/shape.c:125-198 | at most m+n-1 entries dominate all m*n combinations, for both cuts |
| Curves.EntryAttained | HotSpot-6.0/shape.c:299-332 | every entry of a tree's curve is attained by the choice its positions lead to |
| Curves.ChoiceDominated | HotSpot-6.0/shape.c:299-332 | every choice of orientations is dominated by some entry of the tree's curve |
| Curves.MinAreaPos | HotSpot-6.0/shape.c:387-397 | the loop finds an entry of least area |
| Curves.OptimalOrientation | HotSpot-6.0/shape.c:387-397 | the least-area entry of the root is no larger than any choice of one orientation per leaf, and is attained |
| Geometry.JoinTiles | HotSpot-6.0/shape.c:405-543 | tilings of the two parts of a split join to a tiling of the whole |
| Geometry.ArrangedTiles | HotSpot-6.0/shape.c:545-570 | a tiling stays one wherever its pieces are stored |
| Sizing.CellComposed | HotSpot-6.0/shape.c:420-537 | at each cut children and dead space make up the box, compacted or not |
| Sizing.PlanSound | HotSpot-6.0/shape.c:405-543 | the whole plan of a tree is a sound composition of boxes |
| Sizing.SpotsTile | HotSpot-6.0/shape.c:405-543 | the pieces of a sound plan tile its box |
| Sizing.SpotsPlacedOnce | HotSpot-6.0/shape.c:405-543 | no two pieces share an index and dead blocks stay in the places reserved for them |
| Sizing.PlanAtLeast | HotSpot-6.0/shape.c:405-543 | every unit gets at least its chosen size |
| Sizing.PlanDeadNonempty | HotSpot-6.0/shape.c:420-537 | with compaction on no dead block survives empty |
| Floorplan.NodeStack.Push | HotSpot-6.0/shape.c:269-276 | pushes exactly when the stack is not full |
| Floorplan.NodeStack.Pop | HotSpot-6.0/shape.c:279-288 | pops the last node pushed, exactly when the stack is not empty |
| Floorplan.TreeFromNpe | HotSpot-6.0/shape.c:299-332 | gives a tree exactly when the expression fits the stack, that of the parse, with the curves of its nodes, and an empty stack |
| FloorplanLayout.SizeVertical | HotSpot-6.0/shape.c:420-478 | a vertical cut: dead block or enlarged child curve as planned |
| FloorplanLayout.SizeHorizontal | HotSpot-6.0/shape.c:479-537 | a horizontal cut: dead block or enlarged child curve as planned |
| FloorplanLayout.RecursiveSizing | HotSpot-6.0/shape.c:405-543 | places the pieces of the plan and only them, and counts the dead blocks |
| FloorplanLayout.TreeToFlp | HotSpot-6.0/shape.c:545-570 | lays out the least-area orientation; block count plus compacted blocks is 2n-1 |
| FloorplanLayout.LaidOutTiles | HotSpot-6.0/shape.c:545-570 | the rectangles laid out tile the bounding box: inside, disjoint, covering, equal area |
| FloorplanLayout.LaidOutUnits | HotSpot-6.0/shape.c:405-543 | every unit laid out has at least the size of its chosen orientation |
| Compaction.CellDecided | HotSpot-6.0/shape.c:420-537 | the dead block of a cut goes exactly when compaction is on and its extent is at most the ratio of the smaller child; sizes of both children in either case |
| Compaction.PlanDecided | HotSpot-6.0/shape.c:405-543 | so at every cut of the tree |
| Compaction.LaidOutDecided | HotSpot-6.0/shape.c:545-570 | so in every floorplan laid out |
| Compaction.LaidOutExactly | HotSpot-6.0/shape.c:405-543 | with compaction off, or a ratio of zero, every unit laid out has exactly the size of its chosen orientation |
| Strips.PermutedTiles | HotSpot-6.0/flp.c:712-795 | a tiling listed in another order is a tiling |
| Strips.FillsLength | HotSpot-6.0/flp.c:712-795 | strips that fill a side have its length in total |
| Rim.SideFills | HotSpot-6.0/flp.c:722-785 | if no empty block does harm, the strips of the blocks on a side fill that side and its corner exactly |
| Rim.PinwheelTiles | HotSpot-6.0/flp.c:706-711 | core and four sides, each extended clockwise at one corner, fill the chip |
| Rim.RimTiles | HotSpot-6.0/flp.c:712-795 | if no empty block does harm, blocks and strips together tile the enlarged chip, corners included |
| Rim.RimTilesIff | HotSpot-6.0/flp.c:712-795 | for every tiled core, empty blocks included, blocks and strips tile the chip exactly when no empty block does harm |
| Rim.UnclearOverlaps | HotSpot-6.0/flp.c:722-785 | every empty block that does harm has a strip that overlaps the strip of another block on the same side |
| Rim.HarmfulAlone | HotSpot-6.0/flp.c:712-795 | any empty block at an extended corner, or that takes some length of an edge, spoils the tiling |
| Rim.PointOnEdge | HotSpot-6.0/flp.c:712-795 | a point within the edge of another block spoils the tiling although its strip has no length |
| Rim.RingSize | HotSpot-6.0/flp.c:273-281 | there are at most 2n+2 strips, plus one for every empty block, and without those if no empty block does harm |
| Wrap.TotalWidth | HotSpot-6.0/flp.c:1498-1512 | rightmost edge less leftmost edge |
| Wrap.TotalHeight | HotSpot-6.0/flp.c:1514-1528 | topmost edge less bottom edge |
| Wrap.TotalAreaOf | HotSpot-6.0/flp.c:1596-1603 | sum of the areas |
| Wrap.Translate | HotSpot-6.0/flp.c:340-356 | moves all blocks so that the tiled box starts at the given point |
| Wrap.L2SizeRight | HotSpot-6.0/flp.c:619-672 | in all branches core plus L2 area is the area of the enlarged rectangle, with non-negative sizes |
| Wrap.L2SizeProportioned | HotSpot-6.0/flp.c:629-671 | the chip is a square exactly where core plus L2 area exceeds the squares of both sides of the core; otherwise bottom part and arms are five to one, by the shape of the core |
| Wrap.L2Tiles | HotSpot-6.0/flp.c:674-704 | core, bottom part and two arms tile the enlarged rectangle |
| Wrap.WrapL2 | HotSpot-6.0/flp.c:619-704 | in place: blocks and the three L2 parts tile a rectangle of that shape and the parts have exactly the requested area |
| Wrap.WrapRim | HotSpot-6.0/flp.c:712-795 | in place: the blocks moved inside the rim, then the strips; they tile the chip exactly when no empty block does harm, and then there are at most 2n+2 strips |
| Wrap.SolidRim | HotSpot-6.0/flp.c:847-854 | blocks of positive area always leave room for the strips and do no harm |
| Evaluate.LaidOutSolid | HotSpot-6.0/flp.c:847-847 | with compaction on everything laid out has positive area |
| Evaluate.WrapAround | HotSpot-6.0/flp.c:851-854 | with or without L2 and rim the chip is tiled, its area being core plus L2, plus the ring, and the L2 cache has its shape |
| Evaluate.EvaluateNpe | HotSpot-6.0/flp.c:891-905 | one evaluation stops only if the expression exceeds the stack, never for up to 128 units, and otherwise tiles the chip |
| Evaluate.RestoreDeadBlocks | HotSpot-6.0/flp.c:316-338 | the floorplan is a placeholder again, with its units in place and empty dead blocks |
| LupMatrix.SwapKeepsPartial | HotSpot-6.0/RCutil.c:93-96 | exchanging rows keeps the partial factorization |
| LupMatrix.EliminateKeepsPartial | HotSpot-6.0/RCutil.c:98-102 | eliminating a column extends the factorization by one column, with multipliers at most one |
| Lup.FindPivot | HotSpot-6.0/RCutil.c:82-89 | the pivot is the largest entry of the rest of the column |
| Lup.Lupdcmp | HotSpot-6.0/RCutil.c:75-103 | on success p is a permutation, P*A = L*U for the original A and every multiplier is at most one; failure means a column below the tolerance |
| Lup.Lusolve | HotSpot-6.0/RCutil.c:162-178 | with nonzero pivots the result satisfies A*x = b |
| Lup.SubstitutionSolves | HotSpot-6.0/RCutil.c:162-178 | L*y = P*b and U*x = y give A*x = b |
| Lup.Matinv | HotSpot-6.0/RCutil.c:558-567 | with a nonzero last pivot the result is a right inverse; a stop means that the rest of a pivot column of the given matrix is below the tolerance |
| LupSingular.ZeroPivotNoInverse | HotSpot-6.0/RCutil.c:558-567 | with a zero last pivot there is no right inverse |
| Conduction.MinimumPrinciple | HotSpot-6.0/temperature_block.c:398-411 | with non-negative sources no node of a grounded network is below the ambient |
| Conduction.OnlyZeroSolvesZero | HotSpot-6.0/temperature_block.c:264-274 | a grounded conductance matrix takes only zero to zero |
| Conduction.UniqueSolution | HotSpot-6.0/temperature_block.c:264-274 | two solutions for the same right-hand side are equal |
| Conduction.HeatConserved | HotSpot-6.0/temperature_block.c:398-411 | heat to the ambient equals the sum of the sources |
| BlockModel.BuildB | HotSpot-6.0/temperature_block.c:236-262 | off-diagonal entries combine the two half-conductances, each row sums to its ambient conductance |
| BlockModel.BIsConductive | HotSpot-6.0/temperature_block.c:236-262 | B is symmetric with non-positive off-diagonal entries and row sums equal to the ambient conductances |
| BlockModel.BIsGrounded | HotSpot-6.0/temperature_block.c:236-262 | every node reaches the ambient in at most three steps |
| BlockModel.BNonsingular | HotSpot-6.0/temperature_block.c:264-274 | B*T = 0 only for T = 0 |
| BlockModel.SetInternalPower | HotSpot-6.0/temperature_block.c:382-395 | the loops complete the power vector with ambient terms |
| BlockModel.SteadyState | HotSpot-6.0/temperature_block.c:398-411 | heat to the ambient equals total block power and with non-negative power no node is below the ambient |
| BlockModel.SteadyStateTemp | HotSpot-6.0/temperature_block.c:398-411 | completes the power vector and, with nonzero pivots, the temperatures returned solve B*T = power |
| BlockAssembly.AssembleG | HotSpot-6.0/temperature_block.c:170-235 | every entry of the conductance matrix and of the ambient vector has its value, zero where nothing is joined, and B's requirements hold |
| BlockAssembly.AssembledFrom | HotSpot-6.0/temperature_block.c:170-235 | no conductance is negative, every block is linked down to the sink, every spreader edge to its sink edge, the sink to the ambient and the spreader edges not |
| BlockGeometry.SharedRight | HotSpot-6.0/flp.c:1401-1496 | adjacency and shared length are mutual, and the length is positive exactly for adjacent blocks |
| BlockGeometry.ChipPhysical | HotSpot-6.0/temperature_block.c:107-168 | the half-conductances, neighbours, shared lengths and edge sums of any floorplan of positive blocks are what the assembly asks for |
| BlockValues.TouchRight | HotSpot-6.0/flp.c:1401-1496 | the adjacency tests find exactly the blocks that share some length of an edge, and that length |
| BlockValues.EntriesRight | HotSpot-6.0/temperature_block.c:107-272 | every entry of B: neighbours through conductivity, thickness, shared length and centre distance; layers through the area of the block; edges in series with the resistance beyond; package and ambient; nothing else |
| BlockSolve.ZeroPivotKernel | HotSpot-6.0/RCutil.c:75-103 | a symmetric matrix with a zero last pivot takes a nonzero vector to zero |
| BlockSolve.BPivotsNonzero | HotSpot-6.0/temperature_block.c:264-274 | a successful decomposition of B has no zero pivot |
| BlockThermal.PopulateModel | HotSpot-6.0/temperature_block.c:170-280 | conductances and B are those of the chip in any case, and B is decomposed; failure means that the rest of a pivot column of that B is below the tolerance |
| BlockThermal.SteadyTemperatures | HotSpot-6.0/temperature_block.c:398-411 | the temperatures solve B*T = power for the B of the chip, heat to the ambient is the block power and with non-negative power no node is below the ambient; failure only where the decomposition of that B meets a column below the tolerance |
| BlockThermal.SolveFloorplan | HotSpot-6.0/temperature_block.c:93-105 | the same from a floorplan, refused exactly when it is larger than spreader or sink, with all entries of B those of floorplan and materials |
| GridMap.CellCovered | HotSpot-6.0/temperature_grid.c:243-296 | overlaps computed for the cells of the range are the parts of the interval in them, whole for inner cells and nothing outside |
| GridMap.InRangeIff | HotSpot-6.0/temperature_grid.c:249-256 | the index checks pass exactly for blocks inside the grid |
| GridMap.InteriorFull | HotSpot-6.0/temperature_grid.c:282-298 | the shortcut for fully covered cells agrees with the general overlap formula |
| GridMap.CellShare | HotSpot-6.0/temperature_grid.c:282-322 | the share of a cell, refused exactly for blocks turned around |
| GridMap.SetBgmap | HotSpot-6.0/temperature_grid.c:220-335 | stops exactly when some block is out of range; otherwise each cell lists its blocks in order with their shares |
| GridMap.BlistAverage | HotSpot-6.0/temperature_grid.c:202-217 | the loop computes the weighted density of a cell's list |
| GridMap.PowerConserved | HotSpot-6.0/temperature_grid.c:1681-1711 | total grid power equals total block power for every floorplan inside the grid |
| GridMap.XlateVector | HotSpot-6.0/temperature_grid.c:1681-1722 | in every layer each cell gets its power and the cells add up to that layer's blocks; the package nodes are copied from behind the last layer |
| GridShares.SpreadIs | HotSpot-6.0/temperature_grid.c:220-335 | the power of a cell is, over all blocks, their density times the area in common with the cell, rows being counted from the top |
| Multigrid.QuadTotal | HotSpot-6.0/temperature_grid.c:2448-2463 | adding up blocks of four keeps the total |
| Multigrid.GridModel.RestrictPower | HotSpot-6.0/temperature_grid.c:2448-2469 | each coarse cell is the sum of four, package nodes are copied |
| Multigrid.GridModel.RecursiveMultigrid | HotSpot-6.0/temperature_grid.c:2575-2617 | resistances and capacities are restored; rows and columns exactly when halvable all the way, and then power, vertical conductance and heat capacity of each whole layer are the same at every depth |
| Multigrid.BackIff | HotSpot-6.0/temperature_grid.c:2590-2613 | dimensions come back unchanged exactly when even at every depth |
| Multigrid.PowersHalvable | HotSpot-6.0/temperature_grid.c:671-673 | powers of two are |
| GridNetwork.LinksRight | HotSpot-6.0/temperature_grid.c:2190-2202 | the neighbours listed for a node are exactly the nodes it is joined to |
| GridNetwork.LinksMutual | HotSpot-6.0/temperature_grid.c:2190-2202 | neighbours list each other with the same conductance |
| GridNetwork.LinksSound | HotSpot-6.0/temperature_grid.c:2190-2202 | every node has neighbours, through positive conductances |
| GridSweep.IndexUnique | HotSpot-6.0/temperature_grid.c:1669-1671 | no two nodes share a place in the vector |
| GridSweep.CellSums | HotSpot-6.0/temperature_grid.c:2299-2330 | the conductance and temperature sums of the sweep are those over all neighbours of the cell |
| GridSweep.SweepFixedIff | HotSpot-6.0/temperature_grid.c:2248-2440 | a sweep changes nothing exactly when every node is balanced |
| GridSweep.SweepCloses | HotSpot-6.0/temperature_grid.c:2248-2440 | no part of an in-place sweep increases the largest distance to a fixed point |
| GridSolver.RelaxCell | HotSpot-6.0/temperature_grid.c:2283-2430 | one cell takes its balancing temperature |
| GridSolver.RelaxPack | HotSpot-6.0/temperature_grid.c:1912-2172 | one package node takes its balancing temperature |
| GridSolver.SingleIteration | HotSpot-6.0/temperature_grid.c:2248-2440 | one iteration is the sweep over all nodes, and the change it returns is zero exactly at fixed points |
| GridAssembly.NineCases | HotSpot-6.0/temperature_grid.c:3409-3975 | the nine cases by cell number are the nine positions in the layer |
| GridAssembly.NineMember | HotSpot-6.0/temperature_grid.c:3409-4010 | each case lists exactly the neighbours that the sweep uses |
| GridAssembly.NineSums | HotSpot-6.0/temperature_grid.c:3409-4010 | with the same sums of conductances and weighted temperatures |
| GridAssembly.PackRowRight | HotSpot-6.0/temperature_grid.c:4013-4501 | the rows written out for the package nodes, in their order of emission, are the neighbours that the sweep uses |
| GridAssembly.RowAmbientRight | HotSpot-6.0/temperature_grid.c:4013-4501 | so are their links to the ambient |
| GridAssembly.EntriesProduct | HotSpot-6.0/temperature_grid.c:3307-4516 | a row of the matrix times T is total conductance times the node's temperature less the neighbours' weighted temperatures |
| GridAssembly.OneSystem | HotSpot-6.0/temperature_grid.c:3307-4597 | A*T = rhs exactly when T is a fixed point of the sweep, for the rows as emitted for cells and package |
| GridAssembly.Symmetric | HotSpot-6.0/temperature_grid.c:3307-4516 | with every entry the mirrored one is emitted |
| GridMatrix.NnzRight | HotSpot-6.0/temperature_grid.c:3342-3373 | exactly nnz entries are emitted, for both package paths |
| GridMatrix.BuildMatrix | HotSpot-6.0/temperature_grid.c:3383-4504 | the loops emit the rows in order and the closing check on nnz never fails |
| GridMatrix.BuildRhs | HotSpot-6.0/temperature_grid.c:4518-4597 | the loops over cells and the assignments for each side of the package put power and ambient terms at every node's place |
| GridSystem.EntriesOnce | HotSpot-6.0/temperature_grid.c:3307-4516 | no position of the matrix is emitted twice, so that the conversion to columns finds no duplicates; entries off the diagonal are negative |
| GridSystem.MatrixSymmetric | HotSpot-6.0/temperature_grid.c:3307-4516 | the matrix is symmetric: A(r, c) = A(c, r), with emitted values added up by position |
| GridSystem.ProductIsSum | HotSpot-6.0/temperature_grid.c:3307-4516 | the product over emitted entries is the product of the whole matrix |
| GridSystem.GridConductive | HotSpot-6.0/temperature_grid.c:3307-4516 | the matrix is that of a conduction network: rows sum to the conductances to the ambient |
| GridSystem.GridGrounded | HotSpot-6.0/temperature_grid.c:2190-2202 | every node reaches the ambient in no more steps than there are layers |
| GridSystem.SteadyUnique | HotSpot-6.0/temperature_grid.c:2248-2440 | two fixed points of the sweep, that is two solutions of the assembled system, are equal |
| GridSystem.SteadyHeat | HotSpot-6.0/temperature_grid.c:2248-2440 | at the steady state heat to the ambient is the power of the cells, and where no cell is cooled no node is below the ambient |
| GridValues.CellEntries | HotSpot-6.0/temperature_grid.c:3409-4010 | the matrix entry of two neighbouring cells is one over the resistance along x, along y or between the layers |
| GridValues.OtherCells | HotSpot-6.0/temperature_grid.c:3409-4010 | and zero for cells that share no face |
| GridValues.RingEntry | HotSpot-6.0/temperature_grid.c:3409-4010 | an edge cell and its package node: half the cell and its part of the ring in series, for all five rings and four sides |
| GridValues.BondEntry | HotSpot-6.0/temperature_grid.c:4013-4501 | the package groups through their resistances, side by side |
| GridValues.RowSums | HotSpot-6.0/temperature_grid.c:3307-4516 | every row sums to the conductance of its node to the ambient, given by its resistance |
| GridValues.InnerBalance | HotSpot-6.0/temperature_grid.c:2283-2430 | at its relaxed temperature the six heat flows of an inner cell, each difference over its resistance, add up to the power |
| SiftFormat.BytesRoundTrip | sift/sift_format.h:38-80 | fixed-width integers are read back exactly |
| SiftFormat.DispatchUnambiguous | sift/sift_reader.cc:171-466 | the first byte determines the layout |
| SiftFormat.RecordRoundTrip | sift/sift_format.h:38-80 | a record that the writer accepts is read back exactly, whatever follows, if and only if it is not an instruction of size zero |
| SiftTrace.CodeDelivered | sift/sift_writer.cc:158-207 | before an instruction record the reader holds all its code bytes, in both modes and across pages |
| SiftTrace.MappingsDelivered | sift/sift_writer.cc:835-861 | page mappings sent on demand keep both tables equal |
| SiftTrace.CallDelivered | sift/sift_writer.cc:153-277 | one writer call is reported exactly and leaves both sides in agreement, with no reader assertion failing |
| SiftTrace.CallsDelivered | sift/sift_writer.cc:153-277 | so is every sequence of calls |
| SiftTrace.BytesAreRecords | sift/sift_reader.cc:161-519 | reading the byte stream is reading the records |
| SiftTrace.TraceRoundTrip | sift/sift_reader.cc:161-519 | the reader of the written stream reports the same instructions and messages in order and ends in agreement |
| SiftTrace.CacheRefinement | sift/sift_reader.cc:626-654 | with or without successor pointers the result is the cache entry; an address is decoded once |
| SiftTrace.ExecutedBit | sift/sift_reader.cc:462-480 | an instruction comes back unchanged exactly when predicated, executed, or not at the expected address |
| SiftTrace.EmptyMessagesRefused | sift/sift_reader.cc:264-290 | output and system calls without data fail the reader's assertions |
| SiftMessages.RequestRoundTrip | sift/sift_writer.cc:312-726 | the arguments of all twelve kinds of request come out of the record as they went in, if and only if output and system calls carry data and no name is cut off |
| SiftMessages.UnpackedIff | sift/sift_reader.cc:228-447 | the sizes the reader asserts are those whose fields it can take |
| SiftMessages.RequestsArrive | sift/sift_reader.cc:161-466 | for every sequence of requests the reader of the byte stream hands exactly these, in order, to its handlers |
| SiftEconomy.SentOnce | sift/sift_writer.cc:158-207 | over every sequence of calls no code and no page mapping is sent twice |
| SiftWriter.Writer.SendPages | sift/sift_writer.cc:184-206 | sends the code pages not sent before, in order |
| SiftWriter.Writer.SendVa2pa | sift/sift_writer.cc:835-861 | sends a mapping once, and only for mapped pages |
| SiftWriter.Writer.Instruction | sift/sift_writer.cc:153-277 | emits what the trace model says, exactly when sizes are within the format |
| SiftWriter.Writer.SendMessage | sift/sift_writer.cc:312-361 | emits mappings and the message |
| SiftWriter.Writer.Send | sift/sift_writer.cc:312-726 | emits mappings and the request with its arguments packed |
| SiftWriter.Writer.End | sift/sift_writer.cc:95-109 | emits the end marker |
| SiftReader.Reader.DecodeInstruction | sift/sift_reader.cc:598-624 | copies the code bytes across pages, failing exactly when a page is missing |
| SiftReader.Reader.GetStaticInstruction | sift/sift_reader.cc:626-654 | the result is always the cache object of the address, and agrees with the cache model |
| SiftReader.Reader.StoreCode | sift/sift_reader.cc:196-224 | the chunk loop stores the bytes at their addresses |
| SiftReader.Reader.HandleOther | sift/sift_reader.cc:176-455 | reacts to code, mappings and messages as the trace model says |
| SiftReader.Reader.Read | sift/sift_reader.cc:161-519 | delivers the next instruction, and what is reported by then and later is what the whole stream gives |
| SiftReader.Reader.ReadTrace | sift/siftdump.cc:74-76 | reading until the end reports exactly what the stream contains |
| SiftProtocol.RemoteAccess | sift/sift_writer.cc:728-803 | a remote access is served exactly when it is a read or write of some bytes and acts like a direct one |
| SiftProtocol.ReadAfterWrite | sift/sift_writer.cc:728-803 | a read gives what was last written there |
| SiftProtocol.StepKeeps | sift/sift_reader.cc:521-596 | every step of writer, reader or handler keeps the protocol invariant |
| SiftProtocol.ProtocolSafe | sift/sift_writer.cc:417-485 | over every run no assertion fails, calls and replies match in order, and handlers see the program's memory |
| SiftProtocol.OneSideWaits | sift/sift_writer.cc:417-485 | during a call exactly one side waits, and on return both channels are empty |
| SiftProtocol.CallProgress | sift/sift_writer.cc:534-574 | every step brings a call one step nearer to its return, except accesses, which cost three |
| SiftProtocol.AccessFailsIff | sift/sift_writer.cc:365-407 | an access fails an assertion exactly when the call does not serve memory or the access is empty or of no known kind |
| SiftProtocol.MessageFailsIff | sift/sift_reader.cc:264-409 | a message with the fixed fields its writer sends fails an assertion exactly when its size is not the asserted one |
| ThreadLists.EarlyFree | scripts/scheduler-locality.py:104-107 | with few cores in use the lowest free ones lie in the prefix given out so far |
| ThreadLists.SortSorted | scripts/scheduler-locality.py:114-115 | sorting by score orders and permutes |
| Scheduler.SelectedRight | scripts/scheduler-locality.py:113-117 | the selection is as many of the lowest-scored runnable threads as there are cores |
| Scheduler.EnoughRoom | scripts/scheduler-locality.py:121-128 | there are always enough free cores for the threads moved in |
| Scheduler.AfterPeriodic | scripts/scheduler-locality.py:109-135 | after the moves exactly the selected threads run, unshared, the kept ones where they were |
| Scheduler.PeriodicReserved | scripts/scheduler-locality.py:109-135 | during the initial assignment the moves stay within the cores given out |
| Scheduler.Scheduler.ThreadStart | scripts/scheduler-locality.py:68-76 | initial score and metric; safety is kept exactly when the next core of the initial assignment is unused, which the invariant ensures |
| Scheduler.Scheduler.ThreadStall | scripts/scheduler-locality.py:81-94 | the progress is added to the score, the core goes to the lowest-scored waiting thread and nothing else changes |
| Scheduler.Scheduler.ThreadResume | scripts/scheduler-locality.py:96-107 | lowest score and lowest free core; safety always, and the exact condition for the initial assignment to stay clean |
| Scheduler.Scheduler.MoveIn | scripts/scheduler-locality.py:130-134 | the loop moves each thread to its core and displaces exactly its holder |
| Scheduler.Scheduler.Periodic | scripts/scheduler-locality.py:109-135 | every running thread is credited with its progress, so that a score is the one last set plus all progress since; exactly the min(runnable, cores) lowest-scored threads run, those that ran stay put, the others take the lowest free cores in the order of their scores, and the assertion holds |
| Scheduler.ResumedWhileRunning | scripts/scheduler-locality.py:68-107 | resuming a running thread leads to a shared core |
| CpiStack.BreakExact | tools/buildstack.py:8-43 | the keys of the items are split without overlap among shown components and "other" |
| CpiStack.BreakdownSum | tools/buildstack.py:8-43 | in every (sub)stack entries plus "other" equal the total |
| CpiStack.BreakJustified | tools/buildstack.py:16-41 | when collapsing, everything shown exceeds the threshold of the item it is named after |
| CpiStack.Uncollapsed | tools/buildstack.py:16-41 | without collapsing every leaf is shown in order and nothing goes to "other" |
| CpiStack.Merger.TakeKeys | tools/buildstack.py:27-34 | adds up and deletes the keys still present |
| CpiStack.Merger.GetItems | tools/buildstack.py:8-43 | the recursion over the shared table computes the breakdown |
| CpiStack.MergeItems | tools/buildstack.py:46-54 | the reported entries, "other" included, add up to the original values, and what is left over are exactly the keys of no item |
| CpiStack.MergeCores | tools/buildstack.py:44-55 | so for every core, each from its own values |
| CpiReport.ReportExact | tools/buildstack.py:8-54 | when collapsing, the report lists exactly the items above their threshold in groups above theirs (a group itself where none of its items is), in order, with the sums of their own keys; every other key is of no item or of one at or below its threshold |
| CpiReport.ListInFull | tools/buildstack.py:8-43 | without collapsing every leaf is shown with its own keys |
| SortedSet.FindExact | HotSpot-6.0/util.c:453-472 | found exactly when some value lies within the tolerance; otherwise the place separates the values |
| SortedSet.FindMonotone | HotSpot-6.0/util.c:453-472 | lookups never cross, and values two tolerances apart are found at different places |
| SortedSet.InsertedRight | HotSpot-6.0/util.c:478-491 | insertion keeps gaps of at least the tolerance, keeps all values and makes the new one findable |
| SortedSet.BsearchInsert | HotSpot-6.0/util.c:478-491 | the shifting loop performs the insertion, and reports whether it did |
| SortedSet.LinesRight | HotSpot-6.0/flp.c:477-489 | the lines collected are apart by the tolerance, contain every boundary up to the tolerance and nothing but boundaries |
| SortedSet.LinesInOrder | HotSpot-6.0/flp.c:477-489 | the two boundaries of a block are found in order |
| SortedSet.LinesCollected | HotSpot-6.0/flp.c:477-489 | both together, for all blocks |
| SortedSet.CollectLines | HotSpot-6.0/flp.c:477-489 | the loop collects these lines for both axes: every later lookup of a block boundary succeeds, in order, and every line is a boundary of some block |

## Left out

- BlockAssembly.AssembleG: the resistances of the package outside the chip's own area are inputs, like the materials.
- BlockThermal.PopulateModel: that the decomposition succeeds is not promised; its pivot test is absolute, so that very small conductances are taken for a singular matrix.
- GridMap.SetBgmap: tolerant rounding is exact rounding here, so overlaps within the tolerance of zero or of a whole cell are not snapped.
- GridMap.InRangeIff: the same; a block that sticks out of the grid by less than the tolerance is out of range here.
- GridMap.XlateVector: the translation of temperatures, a weighted average without the cell area, is not modelled.
- GridSystem.SteadyUnique: that the sweeps reach the steady state, and how fast, is not stated; no sweep leads away from it (GridSweep.SweepCloses).
- GridSolver.SingleIteration: divisions by a resistance are multiplications by its conductance, which is the same over the reals.
- Multigrid.GridModel.RecursiveMultigrid: temperatures, prolongation and the convergence loop are not part of this model, only the grid's dimensions, resistances, capacities and power.
- SiftTrace.TraceRoundTrip: addresses do not wrap around at the top of the address space; bytes of a fresh page that were never sent count as zero.
- SiftReader.Reader.HandleOther: messages are handed on whole; how their arguments are taken out is SiftMessages.Unpack, and replies are modelled in SiftProtocol.
- SiftWriter.Writer.Instruction: where whole pages of code are sent, instructions in the last page of the address space, and one of size zero at address zero, are excluded, because the loop over the pages wraps around and does not end; addresses past the top of the address space do not wrap.
- SiftWriter.Writer.SendMessage: compression and stream opening are not modelled; which arguments of a system call are addresses to be mapped first is an input.
- SiftProtocol.ProtocolSafe: records under way are whole records, and buffering between flushes is not modelled; the calls flush, so that waiting sides always see what was sent to them.
- Scheduler.Scheduler.ThreadStall: thread exit is a stall; dictionary order is the order of thread starts, on which no statement depends.
- CpiStack.MergeItems: the values left over are returned; the message about them on the error stream is not modelled.
- Evaluate.EvaluateNpe: cost, temperatures and the annealing schedule that keeps or drops moves are not modelled.
- Wrap.WrapRim: wire densities and block names are not modelled; the array must have room for the strips, as the code does not check it.
- SortedSet.CollectLines: floorplans with more distinct lines than the fixed arrays hold, for which the code writes past their end, are excluded; the cells cut out by the lines are not modelled.
- Step-size control of the Runge-Kutta solver, transient slopes, and detailed 3D conductances.
- Curves from aspect ratios, convection formulas, leakage: transcendental arithmetic.
- BLAS and LAPACK branches, the SuperLU solve, zlib, XED decoding: foreign code.
- Configuration tables and command lines, file parsing and printing of floorplans, temperatures and statistics, the separate thermal model for mobile chips, and the plotting, installation and remaining statistics scripts.
