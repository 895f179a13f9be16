# Verified model of the solver

The repository holds two linear and mixed-integer solvers: a C++ engine in `src/` and a C engine in
`c/`. This project models the parts of them that decide whether an answer is right, and proves that
it is: the sparse basis factorization and its solves, presolve and its inverse, both simplex
engines, branch and bound, the certificate checker, and two dense kernels. Doubles are reals, an
infinite bound is `Inf`, and tolerances are parameters or named constants. Statements that need
exact arithmetic say so by setting tolerances to zero; the others hold for every tolerance.

## How it is laid out

Linear algebra. `Sums`, `Matrices` and `Triangular` carry sums, matrices by columns and substitution
orders. `Reachability` and `DepthFirst` are the depth-first search with an explicit stack;
`SharedStack` is the C variant that keeps stack and output in one array. `PackedColumns`,
`LuFactors`, `FactorStep`, `PivotStep`, `SparseSolve`, `SharedSolve` and `Factorize` are the
left-looking factorization, `LuOrder` the column order of the C one, `CompleteLu`, `ForwardSolve`,
`Transpose` and `HyperSparse` the solves, `EtaFile` the product-form updates, `SingularColumns` and
`SingularReport` the report on singular columns, and `BasisFactorization` the object that holds it
all. `DenseLu`, `DenseSolves`, `DenseFactor` and `GaussSolve` are the dense kernels.

Presolve. `LpModel` is the linear program and what optimal, infeasible and unbounded mean.
`PresolveState`, `PresolveBounds` and `PresolveSteps` are the reductions on values, `Presolver` the
pass loop over mutable state, `Postsolve` the emitted model and the way back.

Simplex, C++. `Tableaus`, `ExchangeStep`, `SimplexSteps`, `PrimalStep`, `PrimalTurns` and `DualStep`,
`DualChoice`, `DualTurns` are single steps; `Augmented`, `Pricing`, `BasicValues`, `BasisKernel`
connect them with the program and the factorization; `CrashBasis` and `DualStart` are the two
starts and `ParentBasis` the warm one; `TwoPhase` and `Outcomes` are what the endings mean, and
`FinalCheck` what a finished basis has to pass; `Simplex` is the engine, `Restart` a run of it, and
`LpSolver` the pipeline around it. The C engine is `SpxModel`, `InfeasibilityPhase`, `SpxTurns`,
`SpxValues` and `SpxEngine`; `SingletonRows`, `FaintRows` and `SpxSolver` are what comes
before and after it.

Branch and bound. `MilpModel`, `MilpPropagate`, `CoverCuts`, `NodeHeap`, `Residuals`, `SearchTree`,
`BranchAndBound` and `MilpSolve`; `MilpRuns` holds runs on small models. Certificates: `Certificate`
and `CertifiedOptimality`.

## What was found

Four things the code or its comments promise do not hold as stated. Each comes with a run or a call
after which it fails, and with the exact condition under which it holds.

- On a limit, branch and bound lets go of the node in hand before it computes the reported bound,
  though the comment there says the node is included (c/src/sk_milp.c:768-776 against :694 and :697).
  The report is the least open bound if and only if, when the limit strikes, the incumbent or a
  shelved node is no better than the node let go (`MilpSolve.DroppedMatters`, promised of every run by
  `MilpSolve.Solve`). `MilpRuns.OverstatedReport` is a run that ends with 3 reported while a feasible
  point has value 2; `MilpRuns.ReportOverstates` shows it for every exact relaxation.
- When the root relaxation is not solved, the reported bound of branch and bound is 0
  (c/src/sk_milp.c:774), whatever the model. It is a valid bound if and only if no feasible point costs
  less than 0 (`MilpSolve.Solve`). `MilpRuns.UnsolvedRootReportsZero` is a run that ends with 0 reported
  while a feasible point costs -1.
- `setup_phase1` says it defines the whole state it depends on, but it leaves `basic_row_of_` of the
  structural columns as a dual run left it (src/lp/Simplex.cpp:231-366). The record is right after it
  if and only if no structural was recorded as basic before (`Simplex.Simplex.SetupPhase1`); after a
  dual run stopped by its iteration limit that means: if and only if the run ended with none basic
  (`Simplex.Simplex.Solve`). `Restart.RestartLosesPlaces` is a run of the driver in which it is wrong.
- The singleton presolve of the C simplex does not count entries up to 1e-14 (c/src/sk_simplex.c:112),
  so a row with one large and one small entry passes for a bound. For a given matrix the bounds taken
  over keep exactly the feasible points, whatever the bounds are, if and only if it has no such row
  (`FaintRows.FaintDecides`). `FaintRows.FaintEntryLosesPoint` is a call that cuts off a feasible point.

## Model

| member | source | states |
|---|---|---|
| `DepthFirst.Reach` | src/lp/BasisFactorization.cpp:325-361 | the pattern is exactly the nodes reachable from the seeds, each once, every node before the nodes it leads to; marks change only to the search's own |
| `SparseSolve.SparseLSolve` | src/lp/BasisFactorization.cpp:45-113 | the work vector solves the partial L for the column and is zero off the pattern found, which is a topological order of the reachable rows |
| `LuOrder.Order` | c/src/sk_lu.c:82-191 | the order lists every column once; the front columns are upper triangular in the rows they were peeled with, the back columns lower triangular; nothing in between has a single live entry, by row or by column; the rest is ordered by live count |
| `SharedStack.Pattern` | c/src/sk_lu.c:198-237 | stack and output share one array of n places: after every single write the two are apart; the output is exactly the nodes reachable from the seeds, each once, before its children |
| `SharedSolve.SpLSolve` | c/src/sk_lu.c:228-251 | the C sparse solve gives what forward substitution with the partial L gives, zero off the pattern |
| `Transpose.BuildTranspose` | src/lp/BasisFactorization.cpp:297-323 | each row's list names exactly the columns storing the row off the diagonal |
| `HyperSparse.TransposedSolves` | src/lp/BasisFactorization.cpp:433-520 | solving only the positions a search finds, or all of them past the density limit, in either phase, gives the vector of the full U' and L' sweeps |
| `SingularReport.ReportIsTrue` | src/lp/BasisFactorization.cpp:255-291 | every reported column is replaced by its unit column, to within the floor, the others stand as given; an empty report means independent columns, and at floor zero a nonempty one means dependent columns |
| `BasisFactorization.BasisFactorization.Factorize` | src/lp/BasisFactorization.cpp:115-295 | the factors are triangular with the diagonals where the solves expect them and multiply to the given columns, reported ones replaced; the update file is empty |
| `BasisFactorization.BasisFactorization.Ftran` | src/lp/BasisFactorization.cpp:363-413 | the vector becomes the one solution of B x = b for the current basis, after any accepted updates |
| `BasisFactorization.BasisFactorization.Btran` | src/lp/BasisFactorization.cpp:415-520 | the vector becomes the one solution of B' y = c for the current basis |
| `BasisFactorization.BasisFactorization.Update` | src/lp/BasisFactorization.cpp:522-537 | accepted exactly when the pivot weight reaches the floor; fed with the solved column, the new basis is the old one with that column in the leaving place if and only if no weight was dropped; a refusal changes nothing |
| `EtaFile.ExchangedNonsingular` | src/lp/BasisFactorization.cpp:522-537 | exchanging a column on a nonzero weight keeps a basis nonsingular |
| `DenseFactor.DenseFactor.Factorize` | c/src/sankhya_lu.c:22-86 | success leaves PA = LU with multipliers at most one and a nonsingular matrix; a refusal changes nothing and comes from a zero matrix or a column in which partial pivoting runs out of entries above the threshold |
| `DenseFactor.DenseFactor.Solve` | c/src/sankhya_lu.c:88-106 | A x = rhs |
| `DenseFactor.DenseFactor.SolveTranspose` | c/src/sankhya_lu.c:108-137 | A' x = rhs, permutation scatter included |
| `GaussSolve.Solve` | c/src/sk_solve.c:424-455 | on success b is the only solution of the original system, whose matrix is nonsingular; a refusal means that partial pivoting with unscaled row subtractions reaches a column of the original whose remaining entries are all below the smallest pivot |
| `Presolver.InitialAdmits` | src/lp/Presolve.cpp:80-111 | the initial bounds and counts fit the model, count its nonzeros, and admit exactly the feasible points |
| `PresolveBounds.TightenUpperSame` | src/lp/Presolve.cpp:199-212 | for any nonnegative tolerances, an upper bound tightened by a limit the rows imply admits the same points |
| `PresolveBounds.TightenLowerSame` | src/lp/Presolve.cpp:214-228 | the same for a lower bound |
| `PresolveSteps.ForcingSame` | src/lp/Presolve.cpp:353-398 | fixing every column of a forcing row at the end that reaches its bound, then dropping the row, admits the same points |
| `Presolver.Presolver.Run` | src/lp/Presolve.cpp:250-505 | after any number of passes the counts are the nonzeros left in the active part, the state reduces the original one in meaning, an infeasible flag means no point is left and an unbounded flag points of any low objective |
| `Postsolve.Presolve` | src/lp/Presolve.cpp:70-588 | reduced feasible points expand to feasible ones, every feasible point is matched by a reduced one no dearer, reduced optima expand to optima; INFEASIBLE means no feasible point, UNBOUNDED that any feasible point comes with arbitrarily cheap ones |
| `Postsolve.Restore` | src/lp/Presolve.cpp:590-602 | the restored point is the expansion: feasible or optimal for the original when the reduced one was for the reduced model |
| `SimplexSteps.PassTwoFinds` | src/lp/Simplex.cpp:1168-1232 | for any expansion, pass 2 of the ratio test finds a row whenever pass 1's step is finite |
| `PrimalStep.PivotKeeps` | src/lp/Simplex.cpp:1238-1296 | a pivot whose step nothing blocks keeps equations, bounds, resting places, bookkeeping and a nonsingular basis, and does not raise the cost |
| `PrimalStep.FlipKeeps` | src/lp/Simplex.cpp:1191-1205 | so does a bound flip |
| `Simplex.Simplex.SetupPhase1` | src/lp/Simplex.cpp:231-366 | the crash basis is consistent and nonsingular, every value within bounds that do not cross, every row balanced, artificials priced; the place record is right if and only if no structural was recorded as basic before |
| `Restart.RestartLosesPlaces` | src/lp/Simplex.cpp:1537-1570 | with an iteration limit of one the dual brings x in and stops, the driver starts the primal over, and phase 1 is set up with a wrong place record; the answer is still true |
| `Simplex.Simplex.RunPrimal` | src/lp/Simplex.cpp:1120-1297 | without tolerances every run keeps a point of the program and does not raise the cost; OPTIMAL is an optimum with no column worth moving, UNBOUNDED has points of any low cost, and phase 1 on the artificials fails only on a singular report |
| `TwoPhase.PhaseOnePositive` | src/lp/Simplex.cpp:1413-1460 | a positive phase-1 optimum, even with artificials frozen by the crash, means no feasible point |
| `TwoPhase.PhaseOneBounded` | src/lp/Simplex.cpp:1192-1213 | phase 1 never reaches its unbounded exit |
| `Simplex.Simplex.RunTwoPhase` | src/lp/Simplex.cpp:1413-1472 | the two-phase driver's OPTIMAL, INFEASIBLE and UNBOUNDED are true of the linear program |
| `Simplex.Simplex.SetupDualStart` | src/lp/Simplex.cpp:368-434 | started exactly when each cost has the bound it asks for; then the all-slack basis is consistent, balanced, and priced on the right side everywhere |
| `DualStep.DualKeeps` | src/lp/Simplex.cpp:676-758 | the pivot on the least dual ratio keeps every movable nonbasic column's reduced cost on its side of zero |
| `DualStep.NoCandidates` | src/lp/Simplex.cpp:638-738 | a row out of bounds that no column can help holds at no point within the bounds |
| `Simplex.Simplex.RunDual` | src/lp/Simplex.cpp:553-761 | every run keeps the sign condition; OPTIMAL is an optimum and INFEASIBLE has no point |
| `Simplex.Simplex.SeatBasis` | src/lp/Simplex.cpp:457-543 | a basis handed in is seated only if it fits the program and is a basis, and, at pivot floor zero, whenever it does; then it is consistent, balanced, at rest and rightly recorded |
| `Simplex.Simplex.Finalize` | src/lp/Simplex.cpp:1299-1411 | an OPTIMAL that passes has residuals within the final tolerance of a freshly derived basis; without tolerances a feasible point with the right signs always passes, but for a singular report |
| `FinalCheck.NearOptimal` | src/lp/Simplex.cpp:1373-1408 | reduced costs wrong by at most a limit: no point of the program costs less by more than the limit times its distance, whether or not the tableau is within its bounds |
| `Simplex.Simplex.Solve` | src/lp/Simplex.cpp:1474-1574 | a basis handed in, the dual from its cold start, then the primal, each through the final check: without tolerances every answer is true of the linear program, whatever basis was handed in; at any tolerances OPTIMAL comes with a nearly feasible point and a bound on how far it is from the best; after a dual run cut short the place record is right if and only if the run left no structural basic |
| `FinalCheck.OriginalResidual` | src/lp/LpSolver.cpp:24-50 | the residual bounds every violation of the original model and is zero exactly on its feasible points |
| `LpSolver.SolveLp` | src/lp/LpSolver.cpp:127-334 | with presolve or without, whichever of simplex and first-order solver leads, OPTIMAL at any tolerances comes with a point whose violations pass the gate; without tolerances, and if the first-order solver converges to optima only, every answer is true of the original model |
| `InfeasibilityPhase.NoMoreInfeasible` | c/src/sk_simplex.c:310-333 | a step no dearer in the unit costs, within the effective bounds, is no more infeasible |
| `InfeasibilityPhase.SomethingBlocks` | c/src/sk_simplex.c:431-501 | the artificial-free phase 1 cannot reach its nothing-blocks exit |
| `InfeasibilityPhase.StillInfeasible` | c/src/sk_simplex.c:585-595 | no column worth moving while a variable is out of bounds means no feasible point |
| `SpxTurns.DecideSpx` | c/src/sk_simplex.c:443-501 | the ratio test that weighs the column's own width: a flip or pivot it allows keeps the phase's tableau primal and no dearer, and nothing in the way means arbitrarily low cost |
| `SpxTurns.PinnedRests` | c/src/sk_simplex.c:634-657 | a leaving variable is recorded at a bound of its own that it sits on, whichever effective bound it reached |
| `SpxValues.StartIsSound` | c/src/sk_simplex.c:270-284 | the basis of logicals is consistent and nonsingular, structurals rest at the bound nearest zero |
| `SpxEngine.Spx.Refactorize` | c/src/sk_simplex.c:276-308 | the basic values are re-derived so that [A -I] z = 0; values that balanced already do not change |
| `SpxEngine.Spx.Solve` | c/src/sk_simplex.c:539-674 | without tolerances the sum of infeasibilities never grows, and OPTIMAL, INFEASIBLE and UNBOUNDED are true of the problem, whatever columns are chosen; a failure means a singular report |
| `SingletonRows.SingletonPresolve` | c/src/sk_simplex.c:83-140 | the bounds of rows with one entry that counts are all taken over by their columns; if no row passes for one of these without being one, exactly the same points remain; infeasible exactly when bounds cross by more than the tolerance |
| `FaintRows.FaintDecides` | c/src/sk_simplex.c:110-127 | for a matrix, the bounds taken over keep exactly the feasible points under all bounds if and only if no row with one entry that counts has another that is dropped without being zero |
| `FaintRows.FaintEntryLosesPoint` | c/src/sk_simplex.c:110-127 | a call on one row with a faint second entry cuts off a feasible point |
| `SingletonRows.RepairDuals` | c/src/sk_simplex.c:142-186 | the reduced costs stay those of the multipliers through every repair, if no row passes for a singleton without being one |
| `SpxSolver.SolveModel` | c/src/sk_simplex.c:507-748 | a published OPTIMAL carries a certificate recomputed from the model within the gate, at any tolerances; without tolerances OPTIMAL, INFEASIBLE and UNBOUNDED are true of the model |
| `NodeHeap.Heap.Push` | c/src/sk_milp.c:53-71 | the heap keeps its order and gains exactly the node |
| `NodeHeap.Heap.Pop` | c/src/sk_milp.c:73-91 | a node of least bound leaves, the rest stay, in heap order; nothing when empty |
| `MilpPropagate.Propagate` | c/src/sk_milp.c:315-429 | propagation with activities from the start of each round, at the code's own tolerances, loses no integer point of the box that beats the cutoff, reports emptiness only when there is none, and, without a cutoff, stops no direction in which the relaxation could go on for ever |
| `CoverCuts.BuildCoverCuts` | c/src/sk_milp.c:155-230 | a cut from exactly the rows of positive coefficients on binaries that exceed a nonnegative right-hand side, in order, up to the fixed number: the shortest prefix over the right-hand side, largest coefficients first; none cuts off a feasible point |
| `SearchTree.RootGrounds` | c/src/sk_milp.c:651-662 | once the relaxation of the propagated root has an optimum, no node's relaxation is bottomless, however its box was propagated, unless the model has no feasible point |
| `SearchTree.FeasibleGoesOn` | c/src/sk_milp.c:653-659 | with integer columns bounded, the way down of an UNBOUNDED root takes every feasible point along: all of it below the infinity threshold is feasible and falls in cost |
| `SearchTree.ChildrenWeighLess` | c/src/sk_milp.c:739-760 | floor and ceiling children split the node's integer points: their weights and one more make up its own |
| `BranchAndBound.Milp.RoundingHeuristic` | c/src/sk_milp.c:482-543 | the bounds are put back; the incumbent changes exactly when rounding works and improves, to that point |
| `BranchAndBound.Milp.SolveRoot` | c/src/sk_milp.c:638-680 | the verdict is what the relaxation of the propagated root box answers; INFEASIBLE has no feasible point, UNBOUNDED a relaxation with a way down for ever, TIME_LIMIT a box of the search the relaxation gave up on; otherwise no feasible point lies below the root value, and a rounding that works at the root is the incumbent |
| `BranchAndBound.Milp.ProcessNode` | c/src/sk_milp.c:710-762 | every feasible point of the node is no better than the incumbent by more than the margin or in a child whose bound it does not beat |
| `BranchAndBound.Milp.OneTurn` | c/src/sk_milp.c:693-762 | one turn keeps every feasible point covered by incumbent or open nodes, uses up one unit of the weight left, and closes the search only on a gap small enough |
| `BranchAndBound.Milp.Search` | c/src/sk_milp.c:683-763 | an optimal verdict is within the margin or the relative gap of every feasible point, an infeasible one is true, a limit leaves every better point in an open node or the dropped one; with finite integer bounds and as many turns as the root box allows, a time limit means the relaxation gave up on a box of the search |
| `MilpSolve.ReportedBound` | c/src/sk_milp.c:766-776 | the least of the incumbent's value and the bounds of the nodes still at hand; without an incumbent the root's value |
| `MilpSolve.DroppedMatters` | c/src/sk_milp.c:693-698 | the report is the least bound of all nodes left open if and only if the incumbent or a shelved node is no better than the node let go |
| `MilpRuns.ReportOverstates` | c/src/sk_milp.c:693-776 | for every exact relaxation, a run on two columns that stops as the search begins reports 3 though the dropped root's bound is 1.5 and a feasible point has value 2 |
| `MilpRuns.TrapIsAnswered` | c/src/sk_milp.c:432-463 | such a relaxation exists: one that answers every box of that search exactly and never runs out of time |
| `MilpRuns.UnsolvedRootReportsZero` | c/src/sk_milp.c:653-776 | a run whose root is stopped by the clock reports 0 though a feasible point costs -1 |
| `MilpRuns.BottomlessButEmpty` | c/src/sk_milp.c:657 | a relaxation without a lower bound on a model without integer points: UNBOUNDED does not mean that there is a feasible point |
| `MilpSolve.Solve` | c/src/sk_milp.c:585-822 | verdicts are true; a returned point is feasible to tolerance and has the returned value; with a feasible point, UNBOUNDED if and only if the relaxation is bottomless; on a limit no feasible point worth having lies below the report with the dropped node's bound counted, and the report itself is that bound if and only if the node was outweighed; from an unsolved root the report is valid if and only if no feasible point costs less than 0; with finite integer bounds and no limit the run ends with an answer |
| `Residuals.PrimalResidual` | c/src/sk_core.c:405-431 | the residual is at most t exactly when every row and column is violated by at most t |
| `Certificate.Verify` | c/src/sk_core.c:394-510 | the loops compute exactly the residuals, complementarity and objectives of their definitions |
| `CertifiedOptimality.LpCertificate` | c/src/sk_core.c:394-510 | with dual infeasibility zero, the objective exceeds that of any feasible point by at most complementarity times one plus its size |
| `CertifiedOptimality.QpCertificate` | c/src/sk_core.c:394-510 | for a symmetric positive semidefinite Q, residuals all zero mean a global minimum |

## Left out

- Rounding and drift: arithmetic is exact; statements with working tolerances are about those tolerances alone.
- Scaling: both engines are modelled with all scale factors 1.
- CUDA and PDLP: the first-order solver is a function that may or may not converge; readers, writers, timing and memory are not modelled.
- Devex weights, pseudocosts, stall switching and the choice among columns worth moving: the choice is left open, so statements hold for every choice.
- Clocks: a time limit is a budget of turns, and the relaxation may report running out of time.
- The node relaxation of branch and bound is an oracle assumed exact on the boxes of the search, or out of time (`SearchTree.Exact`); exact includes telling that there is no lower bound.
- Quadratic objectives in branch and bound: not modelled.
- `MilpModel.Representable`: bounds near the infinity threshold are spaced like doubles; a bound closer to 1e30 than 1 is not a double.
- Basis repair on singular columns: a singular report ends the run as a failure, and refuses a basis handed in.
- The update file's drop tolerance is zero in both engines; `BasisFactorization.BasisFactorization.Update` states what a positive one does.
- c/src/sk_lu.c: the factorization loop, the solves and the update are represented by the contract of the C++ factorization; the order, the search and the sparse solve are modelled.
- SpxSolver.SolveModel: calls the singleton presolve with tolerance zero on crossed bounds; the engine is modelled on bounds that do not cross. It does not promise that an optimum of the engine passes the gate; multipliers the repair puts on the wrong one of two active singleton rows can withhold it.
- A column that names a row twice: validation accepts it (c/src/sk_core.c:126-155), but the scatter of a column overwrites where pricing adds (c/src/sk_lu.c:239, src/lp/BasisFactorization.cpp:93-95); the models exclude it.
- Validation of models, CSC assembly and allocation failures: inputs are well formed and memory suffices.
