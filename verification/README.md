# CIRCT algorithms, modelled and proved

This project models the algorithms of CIRCT (and of two LLVM utility scripts) that are hardest to get right, and proves
what they are for. Operations and blocks are numbers, and integers are unbounded.

* **Static scheduling.** The parametric dual simplex scheduler with its in-place tableau (`Tableaus`, `Unimodular`,
  `LinearProgram`, `Unbounded`, `Schedules`, `SimplexTheory`, `InitialTableau`, `Freezing`, `SimplexBase`), the acyclic
  and cyclic schedulers on top of it (`SimplexSchedulers`), list scheduling with shared operators (`ListSchedules`,
  `SharedOperators`), chaining (`Topological`, `TopologicalDriver`, `ChainingTheory`, `ChainDelays`, `ChainBreaks`,
  `ChainingScheduler`, `ChainingExamples`), ASAP (`AsapTheory`), and the reservation table of the modulo scheduler with
  the meaning of a verified modulo schedule (`Modulo`, `ReservationTable`, `ModuloMoves`). `Problems` states what a
  correct schedule is. A tableau row means that the products of its entries with the non-basic variables, plus the basic
  variable, equal the parametric constant; all properties follow from the fact that every step keeps the set of solutions.
* **The pretty printer.** A streaming printer with a token buffer, a scan stack, negative sizes and rebased totals
  (`PrettyBuffer`, `PrettyStream`, `PrettyPrinting`) prints exactly what a printer prints that knows all sizes in advance
  (`PrettyTokens`). `PrettyScan` and `PrettyLevels` describe the scan stack by the groups that are open;
  `PrettyGroups` is about groups that fit on a line, and `PrettyLayout` and `PrettyText` about all others: where lines
  start, and at which columns.
* **SSA maximization.** A rewriting of control flow graphs by a worklist (`MaximizeSsa`) makes all values local to their
  blocks and preserves all executions step for step (`ControlFlow`, `MaximizeTheory`, `MaximizeRuns`), and touches no
  value that is not selected (`MaximizeSelection`).
* **Logical equivalence.** Circuits are exported as constraints (`LogicExport`, `LogicSolver`) that have exactly one
  solution for every input, the one that evaluation gives (`Netlists`, `Equivalence`), so that unsatisfiable means
  equivalent (`Solutions`). `BitVectors`, `BitArithmetic` and `LogicExpressions` treat single operations.
* **The instance graph.** Nodes and records with doubly linked use lists (`UseLists`), what they hold as a value
  (`InstanceGraphs`, `HeapGraphs`), the updates through the links and the inference of top-level modules
  (`InstanceGraphClass`, `CycleSearch`), and a cache of instance paths (`InstancePaths`, `PathCaches`).
* **Smaller transformations.** Flattening of memory indices (`FlattenMemRefs`), case folding tables compiled to a chain
  of conditional returns (`CaseFold`), and pass pipelines with their text and what runs when they do (`PipelineTheory`,
  `PipelineTraces`, `Pipelines`).

Classes are used where the source updates objects in place; their methods are proved against functions on values, and
the lemmas are about those functions. The graph that the nodes and records of an instance graph hold is a ghost
parameter of the methods. `Arithmetic`, `Vectors` and `Options` are helpers.

Where the code differs from what it says or promises, the model follows the code:

* The documentation of shared operators (`mlir/circt/include/circt/Scheduling/Problems.h`, lines 406-407) takes a limit
  of zero for no limit, and so does the scheduler, but the verification of utilization rejects every use of such an
  operator type. `ScheduleShared` states that this is the only case in which its schedules are rejected;
  `ZeroLimitIsRejected` is an instance.
* `computeChainBreakingDependences` is meant to accumulate the longest chains, but a dependence on a multi-cycle
  operation overwrites what has been accumulated from there. The longest chains are recorded if and only if no larger
  delay is overwritten (`LongestIffNeverLowers`), and then the cycle time is met (`CycleTimeIsMet`);
  `DoubleUseExceedsCycleTime` is an instance where it is not.
* The same pass marks an operation before its predecessors are known. It is driven in rounds until a round handles
  nothing, and so it never reports a cycle of values (`BreakingNeverFails`); its success is right if and only if there is
  none (`BreakingIsRightIffAcyclic`). The step that the scheduler asserts cannot fail fails exactly on those cycles.
* When the modulo scheduler increments the initiation interval, it moves operations of one operator type only, and
  asserts that the partial schedule stays feasible. Of the dependences, exactly those survive that `SurvivesIff` tells,
  in particular all between operations of that type (`SameTypeSurvives`, `NewOperationSurvives`);
  `OtherTypeDoesNotSurvive` is an instance with two types in which one does not.
* The inferred top-level modules are kept when the graph changes. `GetInferredTopLevelNodes` is right if and only if the
  answer it kept is, and each update says when that is so: never after `AddModule` and `Erase`, always after
  `ReplaceInstance`; after `AddInstance` if the instantiated module is none of the answer and no cycle is closed; after
  `EraseInstance` if the module has another instance.

## Model

| member | source | states |
|---|---|---|
| `Tableaus.PivotRepresents` | mlir/circt/lib/Scheduling/SimplexSchedulers.cpp:517-560 | a pivot on any entry that is 1 or -1 keeps the set of solutions of the constraint system, for all values of the parameters |
| `Tableaus.PivotMeasures` | mlir/circt/lib/Scheduling/SimplexSchedulers.cpp:517-560 | a pivot also keeps what the objective rows measure at every solution |
| `Tableaus.PivotResidual` | mlir/circt/lib/Scheduling/SimplexSchedulers.cpp:517-560 | each row after a pivot is the row before it, less a multiple of the pivot row, on all points, with the elided column swapped in |
| `InitialTableau.InitialRepresents` | mlir/circt/lib/Scheduling/SimplexSchedulers.cpp:315-387 | the tableau built from the dependences has exactly their solutions, with one slack variable per dependence |
| `InitialTableau.InitialMeasures` | mlir/circt/lib/Scheduling/SimplexSchedulers.cpp:307-313 | its objective rows measure the sums of start times of the chosen operations |
| `InitialTableau.InitialDualFeasible` | mlir/circt/lib/Scheduling/SimplexSchedulers.cpp:335-387 | and no column of its cost matrix is lexicographically negative |
| `Unimodular.RepresentsIsUnimodular` | mlir/circt/lib/Scheduling/SimplexSchedulers.cpp:315-387 | a tableau that represents any set of dependence constraints has only -1, 0 and 1 in its constraint matrix |
| `Unimodular.RunsStayUnimodular` | mlir/circt/lib/Scheduling/SimplexSchedulers.cpp:517-560 | so has every tableau that any sequence of pivots leads to |
| `Unimodular.NonZeroIsPivot` | mlir/circt/lib/Scheduling/SimplexSchedulers.cpp:520-523 | the asserted pivot elements: every non-zero entry is 1 or -1 |
| `Unimodular.SomeCutSeparates` | mlir/circt/lib/Scheduling/SimplexSchedulers.cpp:315-326 | the reason: some cut of the start times, at a threshold relative to a fixed origin, tells the variable of a column from zero |
| `LinearProgram.InfeasibleRow` | mlir/circt/lib/Scheduling/SimplexSchedulers.cpp:562-599 | a row with a negative constant and no negative entry in an unfrozen column has no feasible solution |
| `LinearProgram.BasicPointOptimal` | mlir/circt/lib/Scheduling/SimplexSchedulers.cpp:562-599 | with non-negative cost columns, the basic point is lexicographically optimal among all feasible points, frozen variables kept |
| `LinearProgram.DualPivotKeepsDualFeasible` | mlir/circt/lib/Scheduling/SimplexSchedulers.cpp:405-450 | pivoting on the lexicographically greatest quotient keeps the cost columns non-negative |
| `LinearProgram.PrimalPivotKeepsPrimalFeasible` | mlir/circt/lib/Scheduling/SimplexSchedulers.cpp:452-492 | pivoting on the row of the least quotient keeps the parametric constants non-negative |
| `SimplexTheory.RowExcludes` | mlir/circt/lib/Scheduling/SimplexSchedulers.cpp:576-594 | a row with a negative constant and no pivot candidate leaves no solution at these parameters |
| `SimplexBase.RowExcludesMore` | mlir/circt/lib/Scheduling/SimplexSchedulers.cpp:576-594 | and none at any initiation interval below the one that T is raised to, or at any larger one if T is not raised |
| `SimplexTheory.StartTimesAreSchedule` | mlir/circt/lib/Scheduling/SimplexSchedulers.cpp:738-749 | with non-negative constants, the start times that are read off form a schedule |
| `SimplexTheory.StartTimesAreOptimal` | mlir/circt/lib/Scheduling/SimplexSchedulers.cpp:738-749 | and with non-negative cost columns, no schedule that keeps the frozen start times has a smaller objective |
| `SimplexTheory.PivotStaysFreeOfT` | mlir/circt/lib/Scheduling/SimplexSchedulers.cpp:517-560 | without distances, T never enters the tableau |
| `Schedules.TranslateRepresents` | mlir/circt/lib/Scheduling/SimplexSchedulers.cpp:658-670 | translating a column of a start time represents the problem with that start time shifted, for all values of S and T |
| `Schedules.FixRepresents` | mlir/circt/lib/Scheduling/SimplexSchedulers.cpp:696-718 | translating the S column by a number represents the problem with that number put in for S |
| `SimplexBase.FreezingFindsPivot` | mlir/circt/lib/Scheduling/SimplexSchedulers.cpp:643-650 | freezing a variable in the basis always finds a pivot column, as the source asserts |
| `Freezing.PotentialsHaveOneSign` | mlir/circt/lib/Scheduling/SimplexSchedulers.cpp:315-326 | the start times that a non-basic variable determines do not differ in sign |
| `Freezing.PositiveEntryCostsNothing` | mlir/circt/lib/Scheduling/SimplexSchedulers.cpp:643-656 | hence a column with a positive entry in the row of a start time has no costs, if costs are non-negative and objectives are sums of start times |
| `Freezing.FreezingKeepsDualFeasible` | mlir/circt/lib/Scheduling/SimplexSchedulers.cpp:414-450 | so that pivoting on the greatest quotient keeps the costs non-negative when positive elements are considered, too |
| `Freezing.FixedWhereItIs` | mlir/circt/lib/Scheduling/SimplexSchedulers.cpp:672-719 | fixing an operation at its current start time leaves a feasible tableau with the same start times for all operations |
| `SimplexBase.SimplexSchedulerBase.BuildTableau` | mlir/circt/lib/Scheduling/SimplexSchedulers.cpp:335-387 | builds the tableau in place; it represents the dependences and is dual feasible |
| `SimplexBase.SimplexSchedulerBase.MultiplyRow` | mlir/circt/lib/Scheduling/SimplexSchedulers.cpp:494-500 | scales one row, with the entry of the temporary column |
| `SimplexBase.SimplexSchedulerBase.AddMultipleOfRow` | mlir/circt/lib/Scheduling/SimplexSchedulers.cpp:502-515 | adds a multiple of a row to another, with the entry of the temporary column |
| `SimplexBase.SimplexSchedulerBase.PivotAt` | mlir/circt/lib/Scheduling/SimplexSchedulers.cpp:517-560 | the in-place pivot with its temporary column and variable lists is exactly the pivot of the tableau |
| `SimplexBase.SimplexSchedulerBase.FindDualPivotRow` | mlir/circt/lib/Scheduling/SimplexSchedulers.cpp:405-412 | the first row with a negative constant, or none, and then all constants are non-negative |
| `SimplexBase.SimplexSchedulerBase.FindDualPivotColumn` | mlir/circt/lib/Scheduling/SimplexSchedulers.cpp:414-450 | an unfrozen column with the lexicographically greatest quotient, or none if there is no candidate |
| `SimplexBase.SimplexSchedulerBase.FindPrimalPivotColumn` | mlir/circt/lib/Scheduling/SimplexSchedulers.cpp:452-467 | an unfrozen column with lexicographically negative costs, or none if there is no such column |
| `SimplexBase.SimplexSchedulerBase.FindPrimalPivotRow` | mlir/circt/lib/Scheduling/SimplexSchedulers.cpp:469-492 | a row of the least quotient among the positive entries of the column |
| `SimplexBase.SimplexSchedulerBase.RaiseInterval` | mlir/circt/lib/Scheduling/SimplexSchedulers.cpp:576-594 | raises T to the least value at which the entries of the row for 1 and T no longer sum up to a negative number, and says exactly when that does not help, or is not possible; with S at 0, the intervals that are passed, or all, have no solution |
| `SimplexBase.SimplexSchedulerBase.SolveTableau` | mlir/circt/lib/Scheduling/SimplexSchedulers.cpp:562-599 | when solved, the constants are non-negative; every interval that was passed, and on failure every interval, has no solution |
| `SimplexBase.SimplexSchedulerBase.RestoreDualFeasibility` | mlir/circt/lib/Scheduling/SimplexSchedulers.cpp:601-619 | keeps the constants non-negative, and ends with non-negative cost columns; it fails only on unbounded programs, and so never when the objectives are sums of start times |
| `Unbounded.UnlimitedIsUnbounded` | mlir/circt/lib/Scheduling/SimplexSchedulers.cpp:601-615 | a negative cost column without a pivot row means that there are solutions with as small an objective as wanted, those of higher priority unchanged |
| `Unbounded.SumsAreLimited` | mlir/circt/lib/Scheduling/SimplexSchedulers.cpp:601-615 | with sums of start times as objectives every negative cost column has a pivot row |
| `SimplexBase.SimplexSchedulerBase.Freeze` | mlir/circt/lib/Scheduling/SimplexSchedulers.cpp:631-656 | takes the variable out of the basis and records its time step; costs that were non-negative stay so |
| `SimplexBase.SimplexSchedulerBase.Translate` | mlir/circt/lib/Scheduling/SimplexSchedulers.cpp:658-670 | subtracts multiples of a column from the three parameter columns, in every row |
| `SimplexBase.SimplexSchedulerBase.ScheduleAt` | mlir/circt/lib/Scheduling/SimplexSchedulers.cpp:672-719 | fixes a start time; costs that were non-negative stay so, and nothing moves if the operation is fixed where it starts. If fixing fails, everything is as before, and at the initiation interval that had been reached (without distances: at the given one) no schedule that keeps the fixed start times has it |
| `SimplexBase.SimplexSchedulerBase.RollBack` | mlir/circt/lib/Scheduling/SimplexSchedulers.cpp:684-693 | undoes the freezing: constraints and frozen variables are those before it, and the problem is solved again |
| `SimplexBase.SimplexSchedulerBase.MoveBy` | mlir/circt/lib/Scheduling/SimplexSchedulers.cpp:721-736 | moves a fixed start time by an amount, and changes no other |
| `SimplexBase.SimplexSchedulerBase.GetStartTime` | mlir/circt/lib/Scheduling/SimplexSchedulers.cpp:738-749 | the start time of a variable, whether it is in the basis, not in it, or frozen |
| `SimplexSchedulers.VerifyIffSchedule` | mlir/circt/lib/Scheduling/Problems.cpp:114-143 | a schedule in the sense of the constraints is exactly one that the problem verifies |
| `SimplexSchedulers.VerifyCyclicIffSchedule` | mlir/circt/lib/Scheduling/Problems.cpp:171-202 | the same for cyclic problems and an initiation interval |
| `SimplexSchedulers.ScheduleAcyclic` | mlir/circt/lib/Scheduling/SimplexSchedulers.cpp:787-810 | the schedule is verified and starts the last operation as early as any other; failure means that there is none |
| `SimplexSchedulers.ScheduleCyclic` | mlir/circt/lib/Scheduling/SimplexSchedulers.cpp:823-846 | the schedule is verified, no smaller interval admits any, and the last operation starts as early as the interval allows; failure means that no interval admits a schedule |
| `Topological.DriveIffAcyclic` | mlir/circt/lib/Scheduling/Utilities.cpp:21-53 | the driver succeeds if and only if the dependences that its handler waits for have no cycle |
| `Topological.LongWalkHasCycle` | mlir/circt/lib/Scheduling/Utilities.cpp:21-53 | when a round makes no progress, walking back along unhandled predecessors finds a cycle |
| `TopologicalDriver.Driver.HandleOperationsInTopologicalOrder` | mlir/circt/lib/Scheduling/Utilities.cpp:21-53 | the two nested loops over in-place worklists terminate, and compute what the driver does on values |
| `AsapTheory.AsapIsLeastSchedule` | mlir/circt/lib/Scheduling/ASAPScheduler.cpp:19-45 | fails exactly on a cycle; otherwise the start times are verified, and pointwise least among all schedules |
| `AsapTheory.AsapAgreesOnLastOp` | mlir/circt/lib/Scheduling/ASAPScheduler.cpp:19-45 | any schedule in which the last operation is as early as possible starts it when ASAP does |
| `TopologicalDriver.ScheduleAsap` | mlir/circt/lib/Scheduling/ASAPScheduler.cpp:19-45 | the imperative scheduler has this result |
| `SharedOperators.DelayedIsSchedule` | mlir/circt/lib/Scheduling/SimplexSchedulers.cpp:903-923 | an operation can be delayed together with all operations that are reached from it |
| `SharedOperators.LimitedDelaysSuccessors` | mlir/circt/lib/Scheduling/SimplexSchedulers.cpp:885-898 | every dependence on an operation of limited type has a positive latency |
| `SharedOperators.FixingStaysFeasible` | mlir/circt/lib/Scheduling/SimplexSchedulers.cpp:916-923 | hence fixing it at any later time leaves a feasible problem |
| `SharedOperators.ChooseTime` | mlir/circt/lib/Scheduling/SimplexSchedulers.cpp:912-917 | the first time step from the start time in the partial schedule on at which fewer operations of the type are fixed than its limit allows: before it, as many are fixed as allowed |
| `SharedOperators.FixOperation` | mlir/circt/lib/Scheduling/SimplexSchedulers.cpp:908-926 | fixes the operation there; the partial schedule is again one in which the last operation starts as early as what is fixed allows, and the same one if the operation was there already |
| `ListSchedules.FixedWhereItStarts` | mlir/circt/lib/Scheduling/SimplexSchedulers.cpp:912-917 | an operation is fixed where it starts if the partial schedule keeps the limits |
| `ListSchedules.NothingIsDelayed` | mlir/circt/lib/Scheduling/SimplexSchedulers.cpp:871-926 | if the schedule without limits keeps them, no operation is delayed, and the last operation starts as early as in any schedule |
| `ListSchedules.EnoughIsOptimal` | mlir/circt/lib/Scheduling/SimplexSchedulers.cpp:871-926 | with as many operators of each limited type as operations, the last operation starts as early as in any schedule |
| `SharedOperators.SortedByStartTime` | mlir/circt/lib/Scheduling/SimplexSchedulers.cpp:895-898 | the stable sort gives exactly the limited operations, in the order of their start times |
| `SharedOperators.ScheduleShared` | mlir/circt/lib/Scheduling/SimplexSchedulers.cpp:856-943 | the asserted fixing never fails, precedences are kept, and so is every limit but zero; verification fails exactly if an operator type with limit zero is used. The schedule is a list schedule: each limited operation is fixed, in the order of the start times without limits, at the first time step from its start time on at which fewer than its limit are fixed, and each partial schedule is optimal for what is fixed; with enough operators the last operation starts as early as in any schedule |
| `SharedOperators.ZeroLimitIsRejected` | mlir/circt/lib/Scheduling/Problems.cpp:341-370 | a problem with one operation and limit zero, none of whose schedules is verified |
| `SharedOperators.FixedIsVerified` | mlir/circt/lib/Scheduling/Problems.cpp:341-370 | respecting the limits at the fixed start times passes the verification, except for limits of zero |
| `Problems.Problem.VerifyUtilization` | mlir/circt/lib/Scheduling/Problems.cpp:341-359 | the loop that counts users per time step accepts exactly if no time step has more than the limit |
| `Modulo.DependenceHoldsIff` | mlir/circt/lib/Scheduling/Problems.cpp:171-190 | a dependence is verified if and only if it holds between the right instances of all iterations |
| `Modulo.WithinLimitIff` | mlir/circt/lib/Scheduling/Problems.cpp:376-395 | congruence classes are within the limit if and only if no absolute time step starts more operations, for any number of overlapped iterations |
| `Modulo.VerifiedIffOverlapped` | mlir/circt/lib/Scheduling/Problems.cpp:397-408 | verification accepts exactly the schedules whose iterations can run overlapped |
| `ReservationTable.MRT.Enter` | mlir/circt/lib/Scheduling/SimplexSchedulers.cpp:970-987 | enters the operation into its slot if there is a free place, and reports failure otherwise |
| `ReservationTable.MRT.Release` | mlir/circt/lib/Scheduling/SimplexSchedulers.cpp:989-996 | removes exactly the operation from its slot |
| `ReservationTable.MovedSlot` | mlir/circt/lib/Scheduling/SimplexSchedulers.cpp:1092-1112 | adding the quotient keeps the slot when the interval grows by one, and one more step moves on by one slot |
| `ReservationTable.MovedFit` | mlir/circt/lib/Scheduling/SimplexSchedulers.cpp:1081-1112 | after the shift, every slot is within its limit |
| `ReservationTable.RoomForN` | mlir/circt/lib/Scheduling/SimplexSchedulers.cpp:1113-1141 | there is a free place for the new operation: in its own slot if one was vacated, and in the next slot otherwise |
| `ReservationTable.MRT.IncrementInterval` | mlir/circt/lib/Scheduling/SimplexSchedulers.cpp:1075-1141 | unmoved operations keep their slots, the others move by exactly one, and entering them and the new operation never fails |
| `ModuloMoves.SurvivesIff` | mlir/circt/lib/Scheduling/SimplexSchedulers.cpp:1101-1118 | when the interval grows by one, a dependence survives exactly unless its source moves and its destination does not, while it is tight and stays within one interval |
| `ModuloMoves.SameTypeSurvives` | mlir/circt/lib/Scheduling/SimplexSchedulers.cpp:1101-1118 | so that dependences between operations of the type that is moved survive |
| `ModuloMoves.NewOperationSurvives` | mlir/circt/lib/Scheduling/SimplexSchedulers.cpp:1132-1141 | and those between them and the new operation |
| `ModuloMoves.OtherTypeDoesNotSurvive` | mlir/circt/lib/Scheduling/SimplexSchedulers.cpp:1121-1141 | an instance with two types, in which the new operation moves and an operation that depends on it does not, against what the source asserts |
| `ChainingTheory.InCycleTimesAreCorrect` | mlir/circt/lib/Scheduling/ChainingSupport.cpp:93-131 | the start times in cycle that are assigned pass the verification of chaining problems, if the assignment succeeds |
| `ChainingTheory.PredecessorEndsInCycle` | mlir/circt/lib/Scheduling/ChainingSupport.cpp:100-125 | a combinational predecessor contributes only if it starts in the same cycle |
| `ChainingTheory.DriveIsBreakRun` | mlir/circt/lib/Scheduling/ChainingSupport.cpp:24-91 | registered in topological order, the operations are handled once each, in that order |
| `ChainingTheory.ChainAccounts` | mlir/circt/lib/Scheduling/ChainingSupport.cpp:38-85 | each start time in cycle is accounted for by a recorded chain that ends in that cycle |
| `ChainingTheory.CycleTimeIsMet` | mlir/circt/lib/Scheduling/ChainingSupport.cpp:24-131 | if no dependence lowers the delay of a chain, a schedule that meets the chain-breaking dependences gets start times in cycle that are verified and leave room for each incoming delay |
| `ChainDelays.RecordedAreChains` | mlir/circt/lib/Scheduling/ChainingSupport.cpp:38-72 | every delay recorded is that of an unbroken chain |
| `ChainDelays.LongestIffNeverLowers` | mlir/circt/lib/Scheduling/ChainingSupport.cpp:36-72 | the delays recorded are those of the longest chains, at every operation after each of its dependences, if and only if no dependence overwrites a larger delay |
| `ChainDelays.LoweredIsLost` | mlir/circt/lib/Scheduling/ChainingSupport.cpp:56-62 | where a larger delay is overwritten, a chain is lost |
| `ChainDelays.NoDoubleUseNeverLowers` | mlir/circt/lib/Scheduling/ChainingSupport.cpp:56-71 | no delay is lowered if no operation uses a value directly after using it through combinational operations |
| `ChainBreaks.BreaksAreChains` | mlir/circt/lib/Scheduling/ChainingSupport.cpp:76-86 | there is a break only where an unbroken chain exceeds the cycle time |
| `ChainBreaks.RecordsAreRight` | mlir/circt/lib/Scheduling/ChainingSupport.cpp:36-86 | the delays of the chains, defined without the records of the pass: a chain ends where one from the same origin is too long |
| `ChainBreaks.BreaksIffTooLong` | mlir/circt/lib/Scheduling/ChainingSupport.cpp:36-86 | in these terms, exactly the chains that are too long are broken, if no dependence lowers a delay |
| `ChainBreaks.BreaksArePaths` | mlir/circt/lib/Scheduling/ChainingSupport.cpp:24-91 | for operations in any order: there is a break only where a path through combinational operations exceeds the cycle time, and none if all paths fit |
| `TopologicalDriver.Driver.HandleBreakChains` | mlir/circt/lib/Scheduling/ChainingSupport.cpp:35-85 | the in-place handler records and breaks chains as on values |
| `TopologicalDriver.Driver.HandleInCycle` | mlir/circt/lib/Scheduling/ChainingSupport.cpp:97-127 | the in-place handler assigns the latest arrival |
| `ChainingScheduler.ScheduleChaining` | mlir/circt/lib/Scheduling/SimplexSchedulers.cpp:1219-1255 | the schedule is verified, meets the chain-breaking dependences, and starts the last operation as early as these allow. If all combinational paths fit the cycle time, this is as early as in any schedule; if no delay is lowered, as early as in any that keeps the operations of each chain apart that is too long. The chain-breaking pass fails only on delays that exceed the cycle time, and the asserted last step exactly on a cycle of values |
| `ChainingExamples.DoubleUseExceedsCycleTime` | mlir/circt/lib/Scheduling/ChainingSupport.cpp:24-131 | a problem whose chain is overwritten: the pass finds nothing to break, and the start times in cycle that are then assigned exceed the cycle time |
| `Topological.BreakingNeverFails` | mlir/circt/lib/Scheduling/ChainingSupport.cpp:40-54 | the chain-breaking pass never reports a cycle: an operation is marked even if its predecessors are unknown, so that the first round marks all and handles one, and the second handles the rest |
| `Topological.BreakingIsRightIffAcyclic` | mlir/circt/lib/Scheduling/ChainingSupport.cpp:40-54 | so its success says that there is no cycle of values if and only if there is none |
| `ChainingExamples.MutualUseIsMissed` | mlir/circt/lib/Scheduling/ChainingSupport.cpp:40-54 | two operations that use each other pass, have a schedule, and get no start times in cycle |
| `PrettyTokens.OnlyFitMatters` | mlir/circt/lib/Support/PrettyPrinter.cpp:249-314 | printing a token depends on its size only by whether it exceeds the space that is left |
| `PrettyTokens.OfflineStaysOnMargin` | mlir/circt/lib/Support/PrettyPrinter.cpp:249-314 | space, column and pending indentation add up to the margin at all times |
| `PrettyScan.PendingStep` | mlir/circt/lib/Support/PrettyPrinter.cpp:178-202 | which unknown sizes a token determines, and how many groups the others still wait for |
| `PrettyScan.LeftOfSuffix` | mlir/circt/lib/Support/PrettyPrinter.cpp:179-202 | checking a stack that has lost its oldest entries pops the same entries |
| `PrettyLevels.StackStep` | mlir/circt/lib/Support/PrettyPrinter.cpp:79-128 | the stack of all tokens of unknown size, as a token is added |
| `PrettyLevels.PendingIsOnStack` | mlir/circt/lib/Support/PrettyPrinter.cpp:204-221 | every token of unknown size is on it |
| `PrettyLevels.LeftIsKept` | mlir/circt/lib/Support/PrettyPrinter.cpp:179-202 | checking it pops down to the begin of the innermost open group, and to the bottom outside of all groups |
| `PrettyBuffer.CheckStackOk` | mlir/circt/lib/Support/PrettyPrinter.cpp:179-202 | exactly the sizes that a break determines are set, to the widths of all tokens up to the break |
| `PrettyBuffer.PushScanOk` | mlir/circt/lib/Support/PrettyPrinter.cpp:81-85 | adding a begin or an end keeps buffer, totals, negative sizes and scan stack related to the tokens |
| `PrettyBuffer.PushBreakOk` | mlir/circt/lib/Support/PrettyPrinter.cpp:98-107 | so does adding a break after the stack has been checked |
| `PrettyStream.FrontIsKnown` | mlir/circt/lib/Support/PrettyPrinter.cpp:211-220 | if the first token is not the oldest on the scan stack, its size is known |
| `PrettyStream.ForceOk` | mlir/circt/lib/Support/PrettyPrinter.cpp:213-218 | setting the oldest size to infinity keeps the rest related |
| `PrettyStream.AdvanceOk` | mlir/circt/lib/Support/PrettyPrinter.cpp:227-237 | so does dropping a printed token |
| `PrettyStream.PrintForced` | mlir/circt/lib/Support/PrettyPrinter.cpp:211-219 | infinity prints as the true size does in every continuation of the stream |
| `PrettyStream.PrintFront` | mlir/circt/lib/Support/PrettyPrinter.cpp:224-230 | the first token prints as in the offline printer, however the stream continues |
| `PrettyStream.RebaseOk` | mlir/circt/lib/Support/PrettyPrinter.cpp:129-156 | rebasing totals, negative sizes and scan stack entries changes nothing that they stand for |
| `PrettyStream.AdjustedStaysNegative` | mlir/circt/lib/Support/PrettyPrinter.cpp:143-147 | sizes that are unknown stay negative, as the source asserts |
| `PrettyStream.OfflineAtEnd` | mlir/circt/lib/Support/PrettyPrinter.cpp:158-166 | outside of all groups, the virtual break at the end of the stream changes no size |
| `PrettyPrinting.StreamStepOk` | mlir/circt/lib/Support/PrettyPrinter.cpp:206-221 | each round of the loop prints at least one token |
| `PrettyPrinting.PopUntilIsChecked` | mlir/circt/lib/Support/PrettyPrinter.cpp:179-202 | the loop with its depth counter pops exactly the entries that the break determines |
| `PrettyPrinting.EofOk` | mlir/circt/lib/Support/PrettyPrinter.cpp:158-166 | at the end, everything that is buffered is printed as by the offline printer |
| `PrettyPrinting.PrettyPrinter.constructor` | mlir/circt/include/circt/Support/PrettyPrinter.h:191-205 | the initial state is on the margin, outside of all groups |
| `PrettyPrinting.PrettyPrinter.Add` | mlir/circt/lib/Support/PrettyPrinter.cpp:79-127 | adding a token prints only what every continuation of the stream prints alike |
| `PrettyPrinting.PrettyPrinter.RebaseIfNeeded` | mlir/circt/lib/Support/PrettyPrinter.cpp:129-156 | afterwards the left total is at most the threshold |
| `PrettyPrinting.PrettyPrinter.CheckStack` | mlir/circt/lib/Support/PrettyPrinter.cpp:179-202 | the in-place loop over the scan stack |
| `PrettyPrinting.PrettyPrinter.CheckStream` | mlir/circt/lib/Support/PrettyPrinter.cpp:206-221 | afterwards what is buffered fits into the space, or nothing is buffered; it terminates |
| `PrettyPrinting.PrettyPrinter.AdvanceLeft` | mlir/circt/lib/Support/PrettyPrinter.cpp:224-238 | prints while the size of the first token is known |
| `PrettyPrinting.PrettyPrinter.Print` | mlir/circt/lib/Support/PrettyPrinter.cpp:249-304 | the in-place update of space, indentation, print stack and output |
| `PrettyPrinting.PrettyPrinter.Eof` | mlir/circt/lib/Support/PrettyPrinter.cpp:158-176 | the output of the whole stream is exactly that of the offline printer, which knows every size in advance, and this is the text of the layout by groups; afterwards the printer is outside of all groups again |
| `PrettyGroups.FittingGroupStaysOnLine` | mlir/circt/lib/Support/PrettyPrinter.cpp:257-291 | once a group is printed as fitting, no break in it or in a group inside of it starts a line, and it takes exactly the width of its tokens |
| `PrettyGroups.FitsIffItFits` | mlir/circt/lib/Support/PrettyPrinter.cpp:275-291 | a group is printed as fitting if and only if it never breaks, its size fits, or a group around it never breaks |
| `PrettyGroups.InnerGroupFits` | mlir/circt/lib/Support/PrettyPrinter.cpp:279-289 | a group inside of a group that fits does so, too |
| `PrettyGroups.OfflineDepth` | mlir/circt/lib/Support/PrettyPrinter.cpp:292-300 | there is an entry on the print stack at every end, as the source asserts |
| `PrettyGroups.OfflineCounts` | mlir/circt/lib/Support/PrettyPrinter.cpp:275-304 | the counter is the number of entries that always fit |
| `PrettyLayout.BeginAgrees` | mlir/circt/lib/Support/PrettyPrinter.cpp:275-291 | a group is broken exactly if it may break, no group around it prevents that, and its size exceeds the space; its indentation is relative to the column or to the indentation around it |
| `PrettyLayout.BreakAgrees` | mlir/circt/lib/Support/PrettyPrinter.cpp:257-274 | a break starts a line exactly if it may, and its group is broken consistently, or inconsistently and its size exceeds the space |
| `PrettyLayout.EndAgrees` | mlir/circt/lib/Support/PrettyPrinter.cpp:292-304 | at an end, the indentation is that of the innermost broken group around |
| `PrettyLayout.OfflineIsLayout` | mlir/circt/lib/Support/PrettyPrinter.cpp:249-304 | text, column, indentation and groups are those of a layout that is defined by the groups of the tokens, without a state |
| `PrettyText.BreaksOfGroup` | mlir/circt/lib/Support/PrettyPrinter.cpp:257-291 | in a group that does not fit, each break directly in it starts a line if it is consistent, and exactly those of too large a size if it is inconsistent, apart from those that never break; in other groups none does |
| `PrettyText.BreaksOutside` | mlir/circt/lib/Support/PrettyPrinter.cpp:257-274 | outside of all groups, exactly the breaks of too large a size start a line |
| `PrettyText.LineOfGroup` | mlir/circt/lib/Support/PrettyPrinter.cpp:243-291 | the text on such a line begins at the column at which the group began (or the indentation around it, for block style), plus the offset of the group, plus that of the break, each sum clamped |
| `PrettyText.EndRestores` | mlir/circt/lib/Support/PrettyPrinter.cpp:292-304 | after the end of a group, the indentation is that before its begin |
| `PrettyText.OnlyBlanksBetween` | mlir/circt/lib/Support/PrettyPrinter.cpp:249-274 | the texts are printed in order, with only spaces and newlines between them |
| `MaximizeTheory.NeedsIsLeast` | mlir/circt/lib/Transforms/MaximizeSSA.cpp:101-139 | the blocks that backtracking finds are the least set with the users and their predecessors, up to the defining block |
| `MaximizeTheory.EntryDoesNotNeed` | mlir/circt/lib/Transforms/MaximizeSSA.cpp:101-139 | if definitions dominate uses, the entry block never gets an argument, so that signatures stay |
| `MaximizeTheory.RewrittenIsLocal` | mlir/circt/lib/Transforms/MaximizeSSA.cpp:141-149 | afterwards, the value is used only in the block that defines it |
| `MaximizeTheory.LocalStays` | mlir/circt/lib/Transforms/MaximizeSSA.cpp:106-149 | values that are local stay local, and the new arguments are local |
| `MaximizeTheory.WellFormedStays` | mlir/circt/lib/Transforms/MaximizeSSA.cpp:38-55 | every edge passes as many values as the block has arguments, also with two edges to one block |
| `MaximizeTheory.DominanceStays` | mlir/circt/lib/Transforms/MaximizeSSA.cpp:81-152 | definitions still dominate uses |
| `MaximizeRuns.RewritingKeepsRuns` | mlir/circt/lib/Transforms/MaximizeSSA.cpp:81-152 | every execution is preserved step for step: blocks, memory, and the inputs of every operation, also through loops that define the value again |
| `MaximizeSsa.RewritingKeeps` | mlir/circt/lib/Transforms/MaximizeSSA.cpp:81-152 | all of these together, for one value; no other value is touched, and nothing is changed if the value is local |
| `MaximizeSelection.UntouchedByRewriting` | mlir/circt/lib/Transforms/MaximizeSSA.cpp:81-152 | for every other value, each operand that was it still is, no other has become it, and no edge passes it on |
| `MaximizeSelection.LocalIsLeft` | mlir/circt/lib/Transforms/MaximizeSSA.cpp:81-152 | if the value is local, nothing is rewritten |
| `MaximizeSsa.WorklistEnds` | mlir/circt/lib/Transforms/MaximizeSSA.cpp:107-139 | when the worklist is empty, exactly the blocks that need the value have been visited |
| `MaximizeSsa.UserIsDone` | mlir/circt/lib/Transforms/MaximizeSSA.cpp:141-149 | every user that is replaced is in a block that has got an argument |
| `MaximizeSsa.Region.AddArgToTerminator` | mlir/circt/lib/Transforms/MaximizeSSA.cpp:38-55 | appends the value on every edge to the block, and fails if the terminator is not branch-like |
| `MaximizeSsa.Region.IsRegionMaximized` | mlir/circt/lib/Transforms/MaximizeSSA.cpp:57-68 | true if and only if every operand is defined in the block that uses it |
| `MaximizeSsa.Region.MaximizeValue` | mlir/circt/lib/Transforms/MaximizeSSA.cpp:81-152 | the worklist terminates; it fails exactly if some edge to a block that needs the value cannot be extended, and otherwise does the rewriting |
| `MaximizeSsa.Region.MaximizeOp` | mlir/circt/lib/Transforms/MaximizeSSA.cpp:154-164 | all selected results of an operation become local; all other values keep their places as operands, and no others are passed on; nothing changes if all selected are local |
| `MaximizeSsa.Region.MaximizeBlock` | mlir/circt/lib/Transforms/MaximizeSSA.cpp:166-182 | all selected arguments and results of a block become local; all other values keep their places as operands, and no others are passed on; nothing changes if all selected are local |
| `MaximizeSsa.Region.MaximizeRegion` | mlir/circt/lib/Transforms/MaximizeSSA.cpp:184-194 | all selected values become local, every execution is the same, and with everything selected the region is maximized; values that are not selected keep their places as operands and are not passed on, and nothing changes if all selected are local |
| `BitVectors.AddWraps` | mlir/circt/lib/LogicalEquivalence/Circuit.cpp:102-107 | wrapping after each addition gives the sum modulo the width |
| `BitVectors.MulWraps` | mlir/circt/lib/LogicalEquivalence/Circuit.cpp:235-240 | wrapping after each multiplication gives the product modulo the width |
| `BitArithmetic.ToIntRange` | mlir/circt/lib/LogicalEquivalence/Circuit.cpp:175-192 | signed values of bit vectors are in the range of two's complement |
| `BitArithmetic.ToIntOfFromInt` | mlir/circt/lib/LogicalEquivalence/Circuit.cpp:175-192 | each number of this range is the signed value of its low bits |
| `BitArithmetic.FromIntOfToInt` | mlir/circt/lib/LogicalEquivalence/Circuit.cpp:175-192 | and each bit vector consists of the low bits of its signed value |
| `BitArithmetic.ShiftLeftMultiplies` | mlir/circt/lib/LogicalEquivalence/Circuit.cpp:301-310 | shifting left multiplies by a power of two, modulo the width |
| `BitArithmetic.ShiftRightDivides` | mlir/circt/lib/LogicalEquivalence/Circuit.cpp:324-334 | shifting right with zeros divides by a power of two |
| `BitArithmetic.ShiftRightSignedDivides` | mlir/circt/lib/LogicalEquivalence/Circuit.cpp:312-322 | shifting right with the sign divides the signed value by a power of two, rounding down |
| `LogicExpressions.FoldAdd` | mlir/circt/lib/LogicalEquivalence/Circuit.cpp:352-381 | folding from left to right adds all operands |
| `LogicExpressions.FoldSub` | mlir/circt/lib/LogicalEquivalence/Circuit.cpp:336-341 | and subtracts all operands from the first |
| `LogicExpressions.FoldBits` | mlir/circt/lib/LogicalEquivalence/Circuit.cpp:109-114 | bitwise operations hold for all, any or an odd number of the operands, bit by bit |
| `LogicExpressions.FoldConcat` | mlir/circt/lib/LogicalEquivalence/Circuit.cpp:116-121 | concatenation puts the first operand at the most significant end |
| `LogicExpressions.ParityIsOdd` | mlir/circt/lib/LogicalEquivalence/Circuit.cpp:264-280 | the exclusive or of all extracted bits is the parity |
| `LogicExpressions.RepeatedBits` | mlir/circt/lib/LogicalEquivalence/Circuit.cpp:282-299 | repeated concatenation replicates the operand |
| `LogicExpressions.MuxIsApply` | mlir/circt/lib/LogicalEquivalence/Circuit.cpp:242-255 | comparing the condition with zero selects the right operand |
| `LogicExpressions.BuildIsApply` | mlir/circt/lib/LogicalEquivalence/Circuit.cpp:98-381 | the expression that is built for an operation computes what the operation computes |
| `LogicExport.ExportScope` | mlir/circt/lib/LogicalEquivalence/Circuit.cpp:385-465 | expressions use only symbols that have been declared, with the widths declared |
| `Equivalence.Sound` | mlir/circt/lib/LogicalEquivalence/Circuit.cpp:385-465 | in every solution, every value is what direct evaluation of the module gives, with operations in any order and nested instances |
| `Equivalence.OutputsAreSound` | mlir/circt/lib/LogicalEquivalence/LogicExporter.cpp:55-62 | in particular the outputs are |
| `Equivalence.ConstantSound` | mlir/circt/lib/LogicalEquivalence/Circuit.cpp:421-445 | a constant that was used before it is defined has its value |
| `Equivalence.InstancePassed` | mlir/circt/lib/LogicalEquivalence/Circuit.cpp:58-96 | the module of an instance is solved with the arguments of the instance as its inputs |
| `Solutions.ExportModels` | mlir/circt/lib/LogicalEquivalence/Circuit.cpp:385-465 | every input has a solution, which extends any solution of earlier constraints |
| `Solutions.OnlySolution` | mlir/circt/lib/LogicalEquivalence/Circuit.cpp:385-465 | it is the only one, for all symbols of the module and of the instances in it |
| `Solutions.UnsatisfiableIffEquivalent` | mlir/circt/lib/LogicalEquivalence/Solver.cpp:134-194 | the comparison is unsatisfiable if and only if the circuits agree on every input |
| `LogicSolver.Circuit.FetchOrAllocateExpr` | mlir/circt/lib/LogicalEquivalence/Circuit.cpp:385-417 | fetches the expression of a value, or declares a fresh symbol of its width |
| `LogicSolver.Circuit.AllocateConstant` | mlir/circt/lib/LogicalEquivalence/Circuit.cpp:421-445 | enters a constant, or constrains the symbol that it has got already |
| `LogicSolver.Circuit.ConstrainResult` | mlir/circt/lib/LogicalEquivalence/Circuit.cpp:449-465 | constrains a result to an expression |
| `LogicSolver.Circuit.VariadicOperation` | mlir/circt/lib/LogicalEquivalence/Circuit.cpp:352-381 | the loop over the operands builds the fold |
| `LogicSolver.Circuit.ParityExpr` | mlir/circt/lib/LogicalEquivalence/Circuit.cpp:272-277 | the loop over the bits |
| `LogicSolver.Circuit.ReplicateExpr` | mlir/circt/lib/LogicalEquivalence/Circuit.cpp:290-296 | the loop over the repetitions |
| `LogicSolver.Circuit.PerformComb` | mlir/circt/lib/LogicalEquivalence/LogicExporter.cpp:121-216 | succeeds exactly for supported operations, and exports them |
| `LogicSolver.Circuit.AddInstance` | mlir/circt/lib/LogicalEquivalence/Circuit.cpp:58-96 | exports the module to a circuit of its own, and equates inputs and outputs |
| `LogicSolver.Circuit.Visit` | mlir/circt/lib/LogicalEquivalence/LogicExporter.cpp:55-62 | succeeds exactly if all operations are supported, in nested modules, too, and exports the module |
| `LogicSolver.Solver.ConstrainCircuits` | mlir/circt/lib/LogicalEquivalence/Solver.cpp:139-194 | fails exactly on a mismatch of number or width; otherwise adds equal inputs and different outputs |
| `LogicSolver.Compare` | mlir/circt/lib/LogicalEquivalence/Solver.cpp:32-62 | succeeds exactly for supported and compatible circuits, and then unsatisfiable means equivalent |
| `UseLists.InstanceRecord.Erase` | mlir/circt/lib/Support/InstanceGraph.cpp:16-26 | unlinks the record from the use list of its target and from its module; the lists of all other modules stay linked |
| `UseLists.InstanceGraphNode.RecordUse` | mlir/circt/lib/Support/InstanceGraph.cpp:36-41 | puts a record in front of the doubly linked use list; the lists of all other modules stay linked |
| `UseLists.InstanceGraphNode.AddInstance` | mlir/circt/lib/Support/InstanceGraph.cpp:28-34 | appends a record to the module, and puts it in front of the uses of the target; the lists of all other modules stay linked |
| `UseLists.InstanceGraphNode.Uses` | mlir/circt/include/circt/Support/InstanceGraph.h:134-156 | walking the links visits exactly the records of the list, in order |
| `UseLists.InstanceGraphNode.FindUse` | mlir/circt/lib/Support/InstanceGraph.cpp:127-131 | walking the links finds a use by the instance operation, if there is one |
| `UseLists.UnlinkedOk` | mlir/circt/lib/Support/InstanceGraph.cpp:17-24 | linking the neighbours of a record to each other leaves a linked list |
| `InstanceGraphs.AddedInstanceIsGraph` | mlir/circt/lib/Support/InstanceGraph.cpp:28-41 | after adding an instance, each use list is still exactly the records that instantiate the module |
| `InstanceGraphs.ErasedInstanceIsGraph` | mlir/circt/lib/Support/InstanceGraph.cpp:16-26 | so it is after erasing one |
| `InstanceGraphs.AddedModuleIsGraph` | mlir/circt/lib/Support/InstanceGraph.cpp:88-95 | after adding a module |
| `InstanceGraphs.ErasedModuleIsGraph` | mlir/circt/lib/Support/InstanceGraph.cpp:97-105 | after erasing one |
| `InstanceGraphs.ReplacedInstanceIsGraph` | mlir/circt/lib/Support/InstanceGraph.cpp:122-137 | and after replacing an instance operation |
| `InstanceGraphs.TraceHasCycle` | mlir/circt/lib/Support/InstanceGraph.cpp:179-184 | a trace that ends in a marked module contains a cycle |
| `InstanceGraphs.PostOrderIsAcyclic` | mlir/circt/lib/Support/InstanceGraph.cpp:173-195 | the order in which modules are finished shows that there is no cycle |
| `InstanceGraphs.AcyclicHasOrder` | mlir/circt/lib/Support/InstanceGraph.cpp:228-267 | conversely, the modules of an acyclic graph have such an order, by which the recursion over parents ends |
| `InstanceGraphs.ReachedFromRoot` | mlir/circt/lib/Support/InstanceGraph.cpp:217-222 | every module is reachable from one that nothing instantiates |
| `InstanceGraphs.AddedInstanceClosesCycle` | mlir/circt/lib/Support/InstanceGraph.cpp:28-41 | an added instance makes the graph cyclic if and only if its module was reachable from what it instantiates |
| `InstanceGraphs.AddedModuleIsStale` | mlir/circt/lib/Support/InstanceGraph.cpp:164-165 | an earlier answer is wrong after a module has been added |
| `InstanceGraphs.ErasedModuleIsStale` | mlir/circt/lib/Support/InstanceGraph.cpp:164-165 | and after one that nothing instantiates has been erased |
| `InstanceGraphs.AddedInstanceKeepsTops` | mlir/circt/lib/Support/InstanceGraph.cpp:164-165 | after an instance has been added it is right if and only if that instantiates none of its modules and closes no cycle |
| `InstanceGraphs.ErasedInstanceKeepsTops` | mlir/circt/lib/Support/InstanceGraph.cpp:164-165 | after one has been erased, if and only if there is another instance of the same module |
| `InstanceGraphs.SameRecordsKeepTops` | mlir/circt/lib/Support/InstanceGraph.cpp:164-165 | replacing an instance operation or defining a module makes no difference to it |
| `HeapGraphs.EraseInstance` | mlir/circt/lib/Support/InstanceGraph.cpp:16-26 | erasing through the links leaves exactly the lists of the graph without the record, in all nodes |
| `CycleSearch.CycleUtil` | mlir/circt/lib/Support/InstanceGraph.cpp:174-195 | the recursive search over the records that the nodes hold: a trace whose last module repeats, or the module and all that it instantiates visited, and no candidate that is instantiated |
| `InstanceGraphClass.InstanceGraph.AddModule` | mlir/circt/lib/Support/InstanceGraph.cpp:88-95 | enters a node under the name of the module; all use lists stay exact, and an earlier answer is wrong |
| `InstanceGraphClass.InstanceGraph.AddInstance` | mlir/circt/lib/Support/InstanceGraph.cpp:28-41 | through the links, keeps each use list exactly the records that instantiate the module, disjoint from the others; an earlier answer stays right as in AddedInstanceKeepsTops |
| `InstanceGraphClass.InstanceGraph.EraseInstance` | mlir/circt/lib/Support/InstanceGraph.cpp:16-26 | removes a record from both lists through the links, and keeps all of this |
| `InstanceGraphClass.InstanceGraph.Erase` | mlir/circt/lib/Support/InstanceGraph.cpp:97-105 | erases a module with exactly the records in it, one after the other, and keeps all of this |
| `InstanceGraphClass.InstanceGraph.ReplaceInstance` | mlir/circt/lib/Support/InstanceGraph.cpp:122-137 | finds the use by walking the links, replaces its instance, and changes no list |
| `InstanceGraphClass.InstanceGraph.GetInferredTopLevelNodes` | mlir/circt/lib/Support/InstanceGraph.cpp:162-223 | fails if and only if there is a cycle, with its trace; otherwise exactly the modules that nothing instantiates, at least one, and all modules are reachable from them; an earlier answer is given again, whether or not it is still right |
| `InstancePaths.PathsAreChains` | mlir/circt/lib/Support/InstanceGraph.cpp:241-255 | the paths to a module are exactly the instances of the chains of records that lead to it from the top-level module, or from a module that has not been defined |
| `InstancePaths.PathsFromTop` | mlir/circt/lib/Support/InstanceGraph.cpp:241-255 | if all modules with instances are defined, they are the instances of the chains from the top-level module |
| `InstancePaths.PathsDistinct` | mlir/circt/lib/Support/InstanceGraph.cpp:241-255 | and then no path is listed twice, if no two records are of the same operation |
| `InstancePaths.ReplacedPaths` | mlir/circt/lib/Support/InstanceGraph.cpp:287-292 | the paths after a replacement are those before it, with the instance replaced |
| `InstancePaths.PathsOnce` | mlir/circt/lib/Support/InstanceGraph.cpp:304-316 | an instance is at most once in a path |
| `PathCaches.FirstIsAll` | mlir/circt/lib/Support/InstanceGraph.cpp:305-314 | so that replacing the first occurrence is enough |
| `PathCaches.InstancePathCache.GetAbsolutePaths` | mlir/circt/lib/Support/InstanceGraph.cpp:228-266 | walks the use lists, and gives all paths to the module in the current graph; all cached lists stay right |
| `PathCaches.InstancePathCache.ReplaceInstance` | mlir/circt/lib/Support/InstanceGraph.cpp:287-322 | after replacing an instance, each cached list is the list of all paths in the current graph |
| `FlattenMemRefs.FlatIsInRange` | mlir/circt/lib/Transforms/FlattenMemRefs.cpp:45-90 | in-bounds indices have a flat index below the number of elements |
| `FlattenMemRefs.UnflatOfFlat` | mlir/circt/lib/Transforms/FlattenMemRefs.cpp:45-90 | the indices can be recovered from the flat index |
| `FlattenMemRefs.FlatOfUnflat` | mlir/circt/lib/Transforms/FlattenMemRefs.cpp:45-90 | every number below the number of elements is the flat index of in-bounds indices |
| `FlattenMemRefs.FlattenIndices` | mlir/circt/lib/Transforms/FlattenMemRefs.cpp:45-90 | the nested loops, with shifts for powers of two, compute the flat index |
| `FlattenMemRefs.FlatMemoryIsEquivalent` | mlir/circt/lib/Transforms/FlattenMemRefs.cpp:103-155 | any sequence of loads and stores on the flat memory loads the same values |
| `CaseFold.BlockFolds` | mlir/llvm/llvm/utils/unicode-case-fold.py:71-104 | the statements for a block fold its characters, and no others, in all special cases |
| `CaseFold.InBlock` | mlir/llvm/llvm/utils/unicode-case-fold.py:82-92 | between first and last, the characters congruent to the first are exactly those of the block |
| `CaseFold.FoldsSum` | mlir/llvm/llvm/utils/unicode-case-fold.py:107-131 | statements for later blocks do not disturb those for earlier ones |
| `CaseFold.DumpBlock` | mlir/llvm/llvm/utils/unicode-case-fold.py:71-104 | emits the pattern for a block |
| `CaseFold.Compile` | mlir/llvm/llvm/utils/unicode-case-fold.py:107-131 | fails exactly on unsorted tables; otherwise the function emitted maps the characters of the table, and all others to themselves |
| `PipelineTheory.ParseOfToStr` | mlir/llvm/llvm/utils/pipeline.py:5-49 | parsing what has been printed gives the pipeline again, with empty pass managers, too |
| `PipelineTheory.ReadItems` | mlir/llvm/llvm/utils/pipeline.py:11-33 | from any state of the parser, the text of some items appends exactly these items |
| `PipelineTraces.TraceUnique` | mlir/llvm/llvm/utils/pipeline.py:5-49 | the sequence of opening and closing pass managers and passes determines the pipeline |
| `PipelineTraces.OnlyKeepsManagers` | mlir/llvm/llvm/utils/pipeline.py:63-105 | leaving out passes keeps all pass managers, in order and nested alike |
| `PipelineTraces.EmptyMakesNoDifference` | mlir/llvm/llvm/utils/pipeline.py:125-140 | taking out empty pass managers leads to the same result in any order |
| `PipelineTraces.ReducedSharing` | mlir/llvm/llvm/utils/pipeline.py:125-140 | and keeps in which pass managers the passes run, and which of them they share |
| `Pipelines.FromStr` | mlir/llvm/llvm/utils/pipeline.py:5-33 | the loop is the parser; an unmatched closing parenthesis is an error |
| `Pipelines.PrintStr` | mlir/llvm/llvm/utils/pipeline.py:36-49 | the loop prints the pipeline |
| `Pipelines.Count` | mlir/llvm/llvm/utils/pipeline.py:52-60 | the number of passes |
| `Pipelines.SplitInt` | mlir/llvm/llvm/utils/pipeline.py:66-80 | the passes up to the index go to the one, those after it to the other; both get all pass managers, at the same places |
| `Pipelines.Split` | mlir/llvm/llvm/utils/pipeline.py:63-85 | each half has exactly the pass managers of the pipeline, in order and nested alike, empty or not, and the passes up to the index, or those after it, at their places in them; the first has min(i + 1, count) passes |
| `Pipelines.RemoveInt` | mlir/llvm/llvm/utils/pipeline.py:91-101 | counts on through nested pass managers, and leaves out the pass with the index; all pass managers, and all other passes, stay at their places |
| `Pipelines.Remove` | mlir/llvm/llvm/utils/pipeline.py:88-105 | all pass managers, and all passes but the one with the index, stay at their places |
| `Pipelines.Prune` | mlir/llvm/llvm/utils/pipeline.py:125-140 | exactly the empty pass managers are taken out, one inside the other: the passes are in the same pass managers, and two share one exactly if they did before; a pipeline without empty ones stays as it is |

## Left out

- SimplexBase.SimplexSchedulerBase.SolveTableau: takes a bound on the number of pivots, and may end without a result when as many have been made, as the source has no rule against cycling; what holds when it ends is proved for every bound.
- SimplexBase.SimplexSchedulerBase.RestoreDualFeasibility: takes a bound on the number of pivots for the same reason.
- SimplexSchedulers.ScheduleAcyclic: takes a bound on the number of pivots, passed on to the solver; so do ScheduleCyclic, ScheduleShared and ScheduleChaining.
- SimplexBase.SimplexSchedulerBase.ScheduleAt: with distances, solving may raise the initiation interval on the way; that no schedule has the start time is then stated for the interval that was reached, not for all between.
- ReservationTable.MRT.IncrementInterval: the solving of the tableau between the moves is not part of it, nor is the search for a slot that precedes it; the modulo scheduler as a whole gives no guarantee, because only operations of one operator type are moved, so that dependences on others may break (`ModuloMoves.OtherTypeDoesNotSurvive`). Which operations leave the slot that the new one wants is read back; any choice there keeps the slots, the room and the dependences.
- ChainingTheory.CycleTimeIsMet: assumes that operations are registered in topological order; that no delay is lowered is necessary for recording the longest chains, but the cycle time may be met without it, as a lost chain may be short enough.
- SharedOperators.ScheduleShared: the schedule is that of the list scheduler, whose choice of start times is a heuristic; it is optimal for what has been fixed, but not among all schedules within the limits.
- PrettyPrinting.PrettyPrinter.Add: takes an empty string as well, which the source asserts not to be given; the margin is assumed to be less than the infinite size.
- PrettyPrinting.PrettyPrinter.Eof: groups are assumed to be closed at the end, as the source asserts.
- MaximizeSsa.Region.MaximizeValue: nothing is stated about the region when it fails half way through.
- LogicSolver.Circuit.AddInstance: an unsupported operation in an instance makes the export fail, where the source stops at an assertion.
- LogicSolver.Circuit.FetchOrAllocateExpr: symbols are numbers, declared one after the other, so that they are always fresh; the names that the source gives them are not modelled.
- PathCaches.InstancePathCache.GetAbsolutePaths: assumes an acyclic graph, as the recursion would not end otherwise; the cache is keyed by the names of modules, which identify them.
- FlattenMemRefs.FlattenIndices: computes the index that the generated operations compute, rather than generating them, and does not overflow.
- CaseFold.Compile: takes the table after the lines of the database have been matched; C-like text is a list of statements.
- Evaluation treats the outputs of an instance as depending on all of its inputs; circuits with a cycle through an instance in this sense are excluded.
- Division and remainder in the equivalence exporter, constants of more than 64 significant bits, the printing of counterexamples, and the solver itself.
- Machine integers that overflow, rounding of delays (delays are real numbers), and the least integer as a sentinel for "no quotient yet".
- Orders of iteration over sets and maps: where the result does not depend on them, any order is allowed.
- Listeners and callback tokens of the pretty printer, and the destructor that ends the stream.
- The priorities and margins of the modulo scheduler, and the lower bound on its initiation interval.
- The search for ancestors in the instance graph, and the construction of the graph from a module operation, which is a sequence of the updates that are modelled.
- Rewriting of functions, calls and branches when memories are flattened: these change types only.
- Types of values, and operations with nested regions, in SSA maximization.
- Copying of pipelines, and pipelines with an empty kind, which the source cannot print.
- Schedulers based on linear programming libraries, insertion of merge blocks, dependence analysis, JSON, lowering options, and all tool drivers.
