# Verified model of the trip optimizer

A Dafny model of the parts of the logistics repository whose verdicts and bookkeeping are
meant to be exact. `dafny verify dfyconfig.toml` checks everything.

| files | what they model |
|---|---|
| `geometry`, `escape_search` | the truck floor and the breadth-first search for a path to the rear door |
| `replay`, `unload_search`, `unload_safety` | what executing a plan means, the unload order at one stop, the incremental unload-safety test |
| `floor_area`, `layout_space`, `layout_classes`, `spatial_validator`, `load_cycles` | the layout search with its cut-offs, pruning, symmetry break and remembered failures, up to `validate_plan` |
| `cargo_allocation`, `cargo_allocator` | splitting an oversized order over the fleet |
| `one_package` | where the validator and the allocator meet: single packages exactly, whole loads one way |
| `driver_matching`, `exact_cover`, `precedence_sequences` | the combinatorial kernels of the routing solver |
| `route_schedule`, `request_pruning` | timing a route with half-even rounding, and dropping useless vehicle slots |
| `order_conservation`, `route_loads`, `destroy_repair`, `search_runs`, `route_search` | the annealing and iterated local searches, run by run, and the final response |
| `job_lease` | workers, a recovery timer and users sharing one optimization job row |
| `stock_accounts`, `inventory_service` | stock balances beside reservations and ledger |
| `prelude`, `sorting`, `map_sums`, `route_stops` | shared notions |

Each search is proved against a specification that does not mention it. Most of the spatial
results rest on one of them: a package can leave exactly when some slide of unit steps brings
it to the door (`Geometry.CanEscape`), and the grid search decides that. The search of layouts
is compared with the relation `LayoutSpace.Loads` / `SearchSteps`, which says which layouts the
program may try and contains no budget, no memory of failures and, with `prune` off, no
unload-safety test. For a package by itself that space is compared with the plain question
whether the package fits the empty vehicle (`OnePackage.OnePackageIff`).

Modelling choices:

- Lengths are whole millimetres, weights whole grams (whole kilograms for a vehicle's payload
  in the matching and the route search). The geometry tolerance of 0.01 cm, a tenth of a
  millimetre, is written out and turns out to be inert on whole millimetres
  (`Geometry.AtMost`). The weight tolerance of 0.01 kg is kept where the program has it.
- Times are integers, matrix entries non-negative reals, and rounding is half to even.
- Clocks, deadlines and random choices are nondeterministic: whatever the clock says, the
  contracts hold. A search budget becomes a flag that never resets (`limitReached`,
  `completed`, `timedOut`), and completeness is claimed when the flag says the search finished.
  The validator's flag comes with its cause: nodes used up, time up, or a stop that really has
  more than 32 loadings of different keys.
- A recursive generator is modelled by going on with the search at each complete layout.
- Identifiers are natural numbers; dictionaries and lists that the program mutates are fields
  or arrays that the methods mutate.

Where the code falls short of what one would expect, the model keeps the code and says so:

- `EscapeSearch.OverlappingStartFoolsShortcut`: the straight shortcut runs before the check
  that the package overlaps nothing, so an overlapping package can be reported clear.
  `EscapeSearch.VerdictIsRightIff` says exactly when the verdict is right: the package overlaps
  nothing, or is off the floor, or has something in the strip ahead.
- `RouteSearch.BuildFinalResponse`: orders are reported exactly once if and only if no route
  mixes orders its vehicle may carry with orders it may not. `RouteSearch.MixedRouteLosesOrder`
  is a mixed route that loses an order; the searches never build one
  (`RouteSearch.StatesAreUnmixed`).
- `JobLease.LateCancelOverwritesSuccess`: a cancellation that read the row while the job ran
  overwrites its success, and `JobLease.LateCancelOverwritesApplied` a job already applied.
  `JobLease.FinishedRowOnlyAppliedIff` says exactly when a finished row is safe from then on,
  which means that it can only be applied, once: when no user holds a cancellation decided on
  an earlier look.
- `InventoryService.AdjustmentCanUndercut`: a correction can leave less than is reserved.
  `InventoryService.AdjustmentKeepsCoverIff` says exactly when it does not: when its lines,
  taken together, leave what is reserved of every SKU they mention.

## Model

| member | source | states |
|---|---|---|
| Geometry.EnterIffEscape | optimizer/app/spatial_validator.py:1028-1034 | A package can be brought in from the door exactly when it could leave, which justifies testing loading with the path to the door |
| Geometry.EscapeMonotone | optimizer/app/spatial_validator.py:1197-1204 | Taking obstacles away never closes a way out |
| EscapeSearch.MovementAxisValues | optimizer/app/spatial_validator.py:291-302 | The axis is strictly sorted from 0 to the maximum, holds the start, and holds every place where an obstacle's blocking range begins or ends |
| EscapeSearch.SegmentClearIff | optimizer/app/spatial_validator.py:320-352 | The swept rectangle of an axis-parallel move is clear exactly when the package is clear at every unit position of the move |
| EscapeSearch.SnapFree | optimizer/app/spatial_validator.py:168-218 | Moving a free position back to the grid leaves it free: the critical coordinates miss nothing |
| EscapeSearch.SlideStaysInClosure | optimizer/app/spatial_validator.py:223-244 | A set of nodes closed under the search's steps follows any slide whatsoever |
| EscapeSearch.EscapeReachesLastColumn | optimizer/app/spatial_validator.py:228-247 | If any slide reaches the door, every closed set of nodes with the start contains a node of the last column |
| EscapeSearch.SearchGrid | optimizer/app/spatial_validator.py:220-254 | The breadth-first search finds a path exactly when some slide to the door exists |
| EscapeSearch.CompressTranslationPath | optimizer/app/spatial_validator.py:256-279 | Dropping the points inside straight stretches keeps the ends, and every remaining leg is axis-parallel with a clear swept rectangle and a turn at every kept point |
| EscapeSearch.RouteEscapes | optimizer/app/spatial_validator.py:239-254 | A route of clear legs to the door is a slide to the door |
| EscapeSearch.StraightPathIsSegment | optimizer/app/spatial_validator.py:281-289 | For a package that overlaps nothing, the strip ahead being clear is the straight segment being clear |
| EscapeSearch.VerdictIsRightIff | optimizer/app/spatial_validator.py:153-166 | The search's verdict is whether a slide exists if and only if the package overlaps nothing, is off the floor, or has something in the strip ahead |
| EscapeSearch.FindTranslationPathToDoor | optimizer/app/spatial_validator.py:141-254 | The verdict in all cases, the same if-and-only-if about when it is right, and a path found is a route of clear legs exactly when the package overlaps nothing |
| EscapeSearch.IsPathToDoorClear | optimizer/app/spatial_validator.py:119-139 | The same verdict, and the same condition for its being right, for the Boolean query |
| EscapeSearch.OverlappingStartFoolsShortcut | optimizer/app/spatial_validator.py:165-166 | A concrete overlapping package that is reported clear though no slide exists |
| Replay.LegalStopKeeps | optimizer/app/spatial_validator.py:74-81 | A legal stop keeps layouts legal, exactly the declared packages leave and arrive, and what stays aboard is not moved |
| Replay.ReplayKeepsPosition | optimizer/app/spatial_validator.py:74-81 | Over any legal run, a package that no stop unloads is still where it was |
| Replay.ReplayAboard | optimizer/app/spatial_validator.py:440-458 | What is aboard after any legal run follows from the declarations alone |
| Replay.EmptyBoundarySplits | optimizer/app/spatial_validator.py:372-379 | A plan cut where nothing is aboard can be executed exactly when both parts can |
| UnloadSearch.OrderWithout | optimizer/app/spatial_validator.py:821-871 | Leaving one package out of an executable order leaves an executable order for the rest |
| UnloadSearch.FirstClearDecides | optimizer/app/spatial_validator.py:851-866 | Taking off any package that is clear now never loses a solution |
| UnloadSearch.SearchUnload | optimizer/app/spatial_validator.py:830-869 | The recursion with remembered sets returns an executable permutation of what remains, or, within budget, none exists |
| UnloadSearch.FindUnloadSequence | optimizer/app/spatial_validator.py:821-871 | Within the budget an order is returned exactly when an executable one exists |
| UnloadSafety.BuildUnloadSteps | optimizer/app/spatial_validator.py:602-609 | Each item maps to the first stop that unloads it, and no other item is in the map |
| UnloadSafety.IsPlacementUnloadSafe | optimizer/app/spatial_validator.py:1190-1233 | The two loops decide the incremental condition on the new package |
| UnloadSafety.LayoutRespectsUnloadOrder | optimizer/app/spatial_validator.py:1235-1256 | The loop decides that every package has a clear path past all that unloads later |
| UnloadSafety.IncrementalTestIsExact | optimizer/app/spatial_validator.py:1190-1256 | A layout with a new package passes the whole test exactly when the old layout does and the incremental test accepts the package |
| UnloadSafety.ReplayableRespectsUnloadOrder | optimizer/app/spatial_validator.py:1235-1256 | Any layout from which the remaining stops can be executed respects the unload order |
| UnloadSafety.RejectedPlacementIsDoomed | optimizer/app/spatial_validator.py:1036-1039 | No layout that keeps a rejected placement lets the remaining stops be executed, wherever later packages go |
| FloorArea.AreaFitsFloor | optimizer/app/spatial_validator.py:719-722 | Packages standing on the floor without overlap never exceed its area, so the area cut-off drops nothing that could be laid out |
| FloorArea.OverlapIffSharedCell | optimizer/app/spatial_validator.py:100-117 | Two footprints overlap exactly when some unit cell lies under both, so touching edges are allowed |
| LayoutSpace.LoadsKeepInvariant | optimizer/app/spatial_validator.py:873-1059 | Placing the items of a stop keeps the floor legal: in bounds, nothing stacked, payload kept |
| LayoutSpace.SearchStepsAreLegal | optimizer/app/spatial_validator.py:611-801 | Every run of the searched space is a legal replay of the plan |
| LayoutSpace.PruningIsLossless | optimizer/app/spatial_validator.py:1036-1040 | With the unload-safety test the searched space has the same complete runs as without it |
| LayoutSpace.CandidateIff | optimizer/app/spatial_validator.py:1090-1188 | The positions listed are exactly those where the package stands in its own extent, turned only if allowed, in bounds, clear of all others and flush along both axes |
| LayoutSpace.SymmetryRejectsIff | optimizer/app/spatial_validator.py:991-1027 | A position is refused exactly when it comes before that of an earlier package of the same order, size, weight to ten grams, turning and unload stop |
| LayoutSpace.LoadOrderIsSorted | optimizer/app/spatial_validator.py:737-745 | A stop is loaded latest delivery first, then larger, then longer, then by identifier, whatever the order of declaration |
| LayoutClasses.BuildItemClasses | optimizer/app/spatial_validator.py:583-600 | Exactly the items declared somewhere in the plan get a class, and it is that of their last declaration, with the unload step |
| LayoutClasses.SameClassIff | optimizer/app/spatial_validator.py:583-600 | Two packages share a class exactly when order, size, weight, turning and unload stop agree |
| LayoutClasses.UnloadTwin | optimizer/app/spatial_validator.py:1397-1413 | An unload order for one floor, package by package replaced by its twin, is one for any floor with the same key |
| LayoutClasses.LoadsTwin | optimizer/app/spatial_validator.py:1397-1413 | What can be loaded on one floor can be loaded in the same places on any floor with the same key |
| LayoutClasses.SameKeySameVerdict | optimizer/app/spatial_validator.py:628-633 | Whether the rest of the plan can be completed depends on a floor only through its key |
| SpatialValidator.CandidatePlacements | optimizer/app/spatial_validator.py:1090-1188 | The candidates are exactly the flush, free, in-bounds positions in the package's own extent, turned or not, in the order of trial: nearest the door, or least loaded length and then nearest the cab |
| SpatialValidator.CutOffsAreLossless | optimizer/app/spatial_validator.py:699-735 | Whenever a stop's loading can be completed, the total weight and area are within the limits |
| SpatialValidator.SearchLoadPlacements | optimizer/app/spatial_validator.py:873-1059 | Within budget, no solution means no layout of the stop leads to one; a solution continues the steps so far |
| SpatialValidator.SearchStops | optimizer/app/spatial_validator.py:611-819 | A solution is a run of the searched space with the true maxima; within budget, none means none exists, every remembered failure is a real one for all floors of its key, and the budget is exceeded only for a true cause |
| SpatialValidator.MaxWeightIsTrue | optimizer/app/spatial_validator.py:774-779 | The reported maximum weight bounds every step and is attained |
| SpatialValidator.MaxAreaIsTrue | optimizer/app/spatial_validator.py:774-779 | The reported maximum area bounds every step and is attained |
| LoadCycles.SplitIndependentLoadCycles | optimizer/app/spatial_validator.py:428-465 | The cycles concatenate to the plan, every inner boundary has nothing aboard, no cut is missed, and a plan with bad declarations is kept whole |
| LoadCycles.SplitIsFaithful | optimizer/app/spatial_validator.py:372-379 | The whole plan can be executed exactly when each cycle can |
| LoadCycles.SolvableSpaceIsSound | optimizer/app/spatial_validator.py:467-504 | A cycle the searched space solves can be executed |
| LoadCycles.ValidateLoadCycle | optimizer/app/spatial_validator.py:467-539 | Valid reports a legal replay; invalid without the limit flag means the space without budget, memory and pruning has no run either; the flag means all nodes visited, time up, or a stop with more than 32 different loadings |
| LoadCycles.ValidatePlan | optimizer/app/spatial_validator.py:372-426 | A valid result is a legal replay of the whole plan with steps numbered 1 to n and the true maxima; invalid within budget means some cycle has no run; otherwise some cycle's limit is justified |
| OnePackage.OnePackageIff | optimizer/app/spatial_validator.py:372-504 | For a plan of one package, delivered or kept: the searched space has a run, and the plan can be executed, exactly when the package is not too high or heavy and stands in bounds in some allowed orientation |
| OnePackage.VerdictOnOnePackage | optimizer/app/spatial_validator.py:372-426 | So a verdict of the validator within budget on such a plan is right both ways |
| OnePackage.UnitTestAgrees | backend/src/trips/optimizer-payload.ts:138-155 | The allocator lets a vehicle take one unit exactly when the validator's rules let that unit be carried alone |
| OnePackage.LoadableSetFits | backend/src/trips/optimizer-payload.ts:157-168 | Units that can all be loaded on a vehicle at one stop pass the allocator's test for a set: it turns down nothing that could be carried |
| CargoAllocation.ContentsFit | backend/src/trips/optimizer-payload.ts:157-168 | The test on a vehicle's list of units is the bin fitting by sums and by each unit |
| CargoAllocation.EquivalentBinsExchange | backend/src/trips/optimizer-payload.ts:313-332 | Swapping the later contents of two bins with one signature turns a completion through one into a completion through the other on as many vehicles |
| CargoAllocation.ChosenAtMostLargest | backend/src/trips/optimizer-payload.ts:182-193 | No choice of k capacities exceeds the sum of the k largest |
| CargoAllocation.MinimumBinCountForTotal | backend/src/trips/optimizer-payload.ts:182-193 | Any choice of vehicles covering the total has at least the returned size, and that many of the largest do cover it |
| CargoAllocation.UsedVehiclesSuffice | backend/src/trips/optimizer-payload.ts:221-253 | The vehicles a complete allocation uses carry the total weight and hold the total area |
| CargoAllocator.EquivalentBinFails | backend/src/trips/optimizer-payload.ts:313-332 | If one bin leads only to completions over the limit, so does every bin with its signature |
| CargoAllocator.Allocator.Search | backend/src/trips/optimizer-payload.ts:264-340 | The in-place backtracking ends with a complete allocation in the bins, or restores them and no completion within the limit exists unless the state cap was hit; it visits no more states than there are |
| CargoAllocator.MinimumVehicleCount | backend/src/trips/optimizer-payload.ts:241-253 | Every complete allocation opens at least that many vehicles |
| CargoAllocator.AllocateCargoToPhysicalVehicles | backend/src/trips/optimizer-payload.ts:195-347 | Solved places each unit exactly once within every vehicle's limits and no split opens fewer vehicles; infeasible means no split exists; giving up at the cap means that the searches have more states than the cap allows |
| CargoAllocator.SixBySixIsDecided | backend/src/trips/optimizer-payload.ts:264-270 | Up to six units on up to six vehicles never reach the cap and always get a verdict |
| CargoAllocator.UnfittingUnit | backend/src/trips/optimizer-payload.ts:379-386 | A unit that fits no vehicle rules out every split |
| CargoAllocator.OnOneVehicle | backend/src/trips/optimizer-payload.ts:399-400 | A split on at most one vehicle means that vehicle takes the whole order |
| CargoAllocator.SplitOversizedOrder | backend/src/trips/optimizer-payload.ts:369-402 | Parts hold every unit once, fit their own vehicles and are as few as possible; an order stays whole only for a single unit, one vehicle that takes it, or no possible split; no verdict only past the cap |
| DriverMatching.Matcher.Assign | optimizer/app/routing_solver.py:109-126 | Success takes in the vehicle and keeps all matched ones; failure changes nothing and leaves a set of drivers that leads nowhere else; earlier failures stay true |
| DriverMatching.StuckVehiclesBound | optimizer/app/routing_solver.py:105-130 | Vehicles confined to few drivers bound the size of every matching |
| DriverMatching.DeadEndsMakeMaximum | optimizer/app/routing_solver.py:105-130 | When the failed vehicles share a closed set of drivers, no legal matching is larger |
| DriverMatching.MatchInOrder | optimizer/app/routing_solver.py:128-130 | In any order of vehicles and drivers the result is legal, one-to-one and of maximum size, and when no driver is the first choice of two vehicles each vehicle gets its first choice |
| DriverMatching.FindDriverSafeVehicleIndices | optimizer/app/routing_solver.py:105-130 | The set returned is the vehicle side of a legal same-day one-to-one matching, and no such matching takes more vehicles |
| DriverMatching.MatchedVehicleDriverIndices | optimizer/app/hybrid_alns_engine.py:1255-1306 | The second copy, cheapest drivers and scarcest vehicles first, is maximum as well, and when no driver is the cheapest of two vehicles each vehicle with a legal driver gets a cheapest one |
| DriverMatching.BothRunsAgreeOnSize | optimizer/app/hybrid_alns_engine.py:1256-1256 | Both copies reach the same size |
| DriverMatching.LicencesNest | optimizer/app/models.py:63-92 | FC and CE drive everything, C everything not articulated, B2 the same up to 3500 kg, other licences nothing |
| ExactCover.NoRoomLeft | optimizer/app/routing_solver.py:340-376 | A selection that serves every order is contained in no larger exact cover |
| ExactCover.Enumeration.EnumerateAssignments | optimizer/app/routing_solver.py:331-394 | When not stopped by the deadline, the recursion visits exactly the exact covers that extend the selection, each once |
| ExactCover.ListingsAgree | optimizer/app/routing_solver.py:347-358 | The routes of a cover do not depend on the order in which its options were chosen |
| ExactCover.CountIsExact | optimizer/app/routing_solver.py:340-346 | When every cover was visited once, the count of complete assignments is the number of exact covers that have a driver assignment |
| ExactCover.Enumeration.NextOrder | optimizer/app/routing_solver.py:378-381 | The order covered next is uncovered and no uncovered order has fewer options |
| ExactCover.SolveAssignmentPhase | optimizer/app/routing_solver.py:320-433 | When finished, every exact cover was visited exactly once and the returned count is the number of those with a driver assignment; the plans returned have different signatures and are in order of cost, then distance, then duration, and each such cover has its signature among them at no higher cost, or the list is full and nothing on it costs more |
| ExactCover.FirstIsCheapest | optimizer/app/routing_solver.py:403-427 | The first plan of such a ranking costs no more than any exact cover with a driver assignment, although signatures are merged |
| ExactCover.SameSignatureIff | optimizer/app/routing_solver.py:347-358 | Two plans have one signature exactly when, up to the order of routes, the same vehicles make the same stops in the same order |
| PrecedenceSequences.CompletesIffServesEachOnce | optimizer/app/routing_solver.py:1959-1966 | Executing a word step by step succeeds exactly when each order is picked up once and later delivered once and nothing else happens |
| PrecedenceSequences.WaysClosedForm | optimizer/app/routing_solver.py:1970-1996 | With p orders waiting and q aboard there are (2p+q)!/2^p ways to go on |
| PrecedenceSequences.SequenceGenerator.Backtrack | optimizer/app/routing_solver.py:1970-1996 | The in-place recursion appends distinct completions of the current prefix only, as many as there are or up to the limit, and all of them when they fit |
| PrecedenceSequences.GenerateSequences | optimizer/app/routing_solver.py:1959-1999 | Without a deadline: distinct precedence words only, exactly 600 when (2n)!/2^n is more, and otherwise exactly all (2n)!/2^n of them |
| RouteSchedule.ScheduleStops | optimizer/app/alns_engine.py:207-278 | The loop with its real clock computes the recursive specification of the schedule, including every rejection |
| RouteSchedule.RoundIsNearestEven | optimizer/app/alns_engine.py:242-252 | Times are rounded to the one nearest whole second, ties to the even one |
| RouteSchedule.LegIsTimely | optimizer/app/alns_engine.py:226-252 | A leg keeps window and shift, travel plus waiting is the elapsed time, travel is the matrix entry to half a second, and at most one second of waiting comes from rounding |
| RouteSchedule.SchedulesAreTimelines | optimizer/app/alns_engine.py:207-278 | Every leg of a schedule is timely and the return leg closes within the shift |
| RouteSchedule.ScheduleIsEarliest | optimizer/app/alns_engine.py:207-278 | Whenever any whole-second timetable exists, a schedule exists and reaches each stop no later |
| RouteSchedule.TimelineAddsUp | optimizer/app/multi_start.py:97-131 | The legs telescope: the route's length is exactly travel, waiting, service and return |
| RouteSchedule.EmittedRouteAddsUp | optimizer/app/alns_engine.py:801-823 | Moved to a just-in-time start, the route still visits the planned stops, meets every window, passes the time checks, keeps the shift and waits nowhere before its first stop |
| RouteSchedule.CheckTimes | optimizer/app/multi_start.py:97-131 | The loop accepts a route exactly when every leg and the return add up |
| RequestPruning.Prune | optimizer/app/request_preprocessor.py:40-96 | The reduced request is well-formed, the count is the difference, and a count of zero returns the original |
| RequestPruning.PruneRemovesExactly | optimizer/app/request_preprocessor.py:48-96 | Exactly the slots that could serve some order alone, were travel free, are kept in order, with exactly the drivers of their days; the request is returned untouched just when all slots are such, none is, or those drivers are fewer than those slots |
| RequestPruning.RemovedSlotServesNothing | optimizer/app/request_preprocessor.py:8-37 | A slot failing the zero-travel test schedules no route that picks up and later delivers an order, under any non-negative matrix |
| RequestPruning.ZeroTravelTestIsExact | optimizer/app/request_preprocessor.py:13-17 | When no leg takes time, the test accepts a slot and an order exactly when that order's route can be scheduled there |
| RequestPruning.RetainedSlotKeepsRoutes | optimizer/app/request_preprocessor.py:73-95 | On a retained slot every stop list has the same schedule and the same distance after slicing and renumbering |
| RequestPruning.PruningKeepsPlans | optimizer/app/request_preprocessor.py:46-96 | Every plan of the full request, with slots and drivers renamed, is a plan of the reduced one |
| RequestPruning.PruningAddsNoPlans | optimizer/app/request_preprocessor.py:46-96 | Every plan of the reduced request is a plan of the full one |
| OrderConservation.InsertConserves | optimizer/app/alns_engine.py:418-424 | Inserting a left-out order places it once and changes no other order |
| OrderConservation.RemoveConserves | optimizer/app/alns_engine.py:556-561 | Filtering orders out of all routes leaves exactly them out in addition |
| OrderConservation.ClearConserves | optimizer/app/alns_engine.py:573-577 | Emptying a route leaves out exactly its orders, none of which was left out before |
| OrderConservation.RouteServesEachOnce | optimizer/app/alns_engine.py:365-640 | Each route of a conserving plan picks its orders up once and later delivers them once, and does nothing else |
| OrderConservation.InsertedPlaces | optimizer/app/alns_engine.py:418-424 | Pickup and delivery stand at the two places asked for, and the other stops keep their order around them |
| RouteLoads.LoadIsWeightAboard | optimizer/app/alns_engine.py:426-435 | The running total is the weight of exactly the orders picked up and not yet delivered |
| RouteLoads.WithoutIsNeverHeavier | optimizer/app/alns_engine.py:556-561 | Taking orders out of a route makes it heavier nowhere |
| DestroyRepair.TryInsert | optimizer/app/alns_engine.py:365-444 | Insertion is accepted exactly when vehicle, driver, load along the route, schedule and packing allow it |
| DestroyRepair.CanInsertIff | optimizer/app/alns_engine.py:365-444 | On a route serving its orders once, insertion is accepted exactly when vehicle and driver allow it, what is aboard never weighs more than the payload and ten grams, all stops are made in time, and the route packs |
| DestroyRepair.TooHeavyIsNeverInserted | optimizer/app/alns_engine.py:426-435 | An order heavier than the payload and ten grams is inserted nowhere |
| DestroyRepair.BestInsertion | optimizer/app/alns_engine.py:471-525 | The insertion found is feasible, its cost is what it really adds, and no feasible insertion that is tried adds less; none is found only if none is feasible |
| DestroyRepair.RepairGreedyInsert | optimizer/app/alns_engine.py:446-533 | In place: no order is lost or duplicated, allowed vehicles are respected, every changed route is feasible, and the run is greedy: each order of the pool has one turn, in which its cheapest feasible insertion is made, or it fails because none was feasible or, only if the returned flag says so, because time was up |
| DestroyRepair.DestroyRandom | optimizer/app/alns_engine.py:535-561 | New routes from which exactly the removed orders are gone, or the given ones untouched when nothing is assigned; as many orders are removed as asked, or all that are assigned |
| DestroyRepair.DestroySmallRoute | optimizer/app/alns_engine.py:563-577 | With several active routes, exactly one with the fewest orders is emptied on a copy and exactly its orders are removed; otherwise two orders are removed at random, or as many as there are |
| RouteSearch.DropStep | optimizer/app/alns_engine.py:725-737 | Dropping a route conserves orders when all of its orders are reported, and loses one otherwise |
| RouteSearch.BuildFinalResponse | optimizer/app/alns_engine.py:657-926 | Each order is reported exactly once if and only if no route is mixed; emitted routes visit the planned stops within their windows, keep the shift and pass the time checks |
| RouteSearch.MixedRouteLosesOrder | optimizer/app/alns_engine.py:719-731 | A concrete mixed route: it is dropped for the order it may not carry, and the one it may carry is reported nowhere |
| RouteSearch.StatesAreUnmixed | optimizer/app/alns_engine.py:377-378 | Plans of the searches hold allowed orders only |
| SearchRuns.BestVisitedIsCheapest | optimizer/app/alns_engine.py:618-632 | The plan kept over a run is the first one or one built in it, and none built is cheaper |
| SearchRuns.BestIsNoDearerThanCurrent | optimizer/app/alns_engine.py:618-632 | Recording the best plan only among accepted ones misses none: it never costs more than the current one, and improvements are always accepted |
| SearchRuns.ColdFromIteration432 | optimizer/app/alns_engine.py:597-637 | Exactly from iteration 432 on it is too cold to accept anything but an improvement |
| RouteSearch.Anneal | optimizer/app/alns_engine.py:579-640 | The visits, as many as the returned count, form a run from the greedy first plan: each takes a few orders out of the current plan, inserts them and the unassigned ones greedily, and is accepted whenever it is cheaper and otherwise only while warm; the returned plan is the best of the run, and only time cuts it short |
| SearchRuns.NeighbourIsCheapest | optimizer/app/ils_engine.py:69-92 | The neighbour chosen among relocations improves the plan and no relocation costs less; none is chosen only if none improves it |
| RouteSearch.BestRelocation | optimizer/app/ils_engine.py:59-92 | The neighbour is the one chosen among relocations of different orders of the plan, each inserted where that is cheapest; twelve are tried, or all there are, unless time runs out |
| SearchRuns.LocalSearchKeepsCheapest | optimizer/app/ils_engine.py:119-158 | After any rounds the best plan is the first one or was built in a round, and no plan built or tried in any round is cheaper |
| SearchRuns.RemoveCountIsShare | optimizer/app/ils_engine.py:136-141 | A perturbation removes 15% of the placed orders and 5% more for each failure, up to 40%, to the nearest whole number, at least two and at most all |
| RouteSearch.SearchRound | optimizer/app/ils_engine.py:119-158 | One iteration: the best relocation if any improves the plan, else a greedy rebuild of the best plan after removing the prescribed share of its orders, else the end, because nothing is assigned or time is up |
| RouteSearch.IteratedLocalSearch | optimizer/app/ils_engine.py:94-160 | The rounds, as many as the returned count, form a run from the greedy first plan; the returned plan conserves orders and is the cheapest of all plans built or tried in it, and the run ends early only on time or at a round with nothing left to do |
| RouteSearch.Solve | optimizer/app/alns_engine.py:579-640 | Either search ends in a response that reports every order exactly once; every emitted route has a driver who may drive it, carries only orders open to its vehicle, never more weight than payload and ten grams, meets windows, keeps the shift and adds up |
| JobLease.StepKeepsInv | backend/src/trips/optimization.processor.ts:34-288 | Every step of every party keeps: owners run the latest attempt, attempts are distinct, running rows have an owner and a lease, stored results are current |
| JobLease.StepKeepsCourse | backend/src/trips/optimization.processor.ts:72-88 | Every step keeps cancelling and ended rows so, and the attempt counter moves exactly with successful claims |
| JobLease.OnlyTheLatestClaimEnds | backend/src/trips/optimization.processor.ts:230-287 | In any run, a finalise or fail that takes effect comes from the worker of the latest successful claim, whose attempt is the number of claims |
| JobLease.CancellationIsFinal | backend/src/trips/optimization-jobs.service.ts:203-216 | Once cancelling, always cancelling, and nothing is claimed, finalised or failed any more |
| JobLease.EndedStaysEnded | backend/src/trips/optimization.processor.ts:72-79 | A row that has left the waiting and running statuses never returns to them |
| JobLease.AtMostOneStore | backend/src/trips/optimization.processor.ts:230-254 | In any run at most one finalise takes effect |
| JobLease.StoredResultIsLatest | backend/src/trips/optimization.processor.ts:230-254 | A stored result was written by the worker it names, in the last attempt there ever is |
| JobLease.ExpiredRunsAreRecovered | backend/src/trips/optimization-recovery.service.ts:41-61 | A running row whose lease ran out on the timer's clock is put back and can be claimed, whatever became of its worker |
| JobLease.LeaseProtects | backend/src/trips/optimization.processor.ts:70-79 | In any run, as long as no clock used lies after the current lease, a running row keeps owner and attempt until its owner ends it or somebody cancels |
| JobLease.GivingUpRetriesUnlessFinal | backend/src/trips/optimization.processor.ts:270-287 | A failed attempt can be claimed again by anybody, and after the last one the row has ended for good |
| JobLease.CancelTakesEffect | backend/src/trips/optimization-jobs.service.ts:203-216 | A cancellation written right after its look asks a running job to stop and ends a waiting one, and then nobody claims or finishes it |
| JobLease.FinishedRowOnlyAppliedIff | backend/src/trips/optimization-jobs.service.ts:203-254 | From a reachable finished row every run leaves the row as it is, but for one change of a success or partial result to applied, if and only if no user holds a cancellation decided on an earlier look |
| JobLease.LateCancelOverwritesSuccess | backend/src/trips/optimization-jobs.service.ts:203-216 | A run in which such a cancellation overwrites a success |
| JobLease.LateCancelOverwritesApplied | backend/src/trips/trips.service.ts:2097-2110 | A run in which such a cancellation overwrites a job whose result was applied |
| JobLease.Deployment.Process | backend/src/trips/optimization.processor.ts:34-288 | The worker's own sequence of calls, with any steps of the others in between: a result is stored only by the still current attempt, a giving-up or fenced-off worker holds nothing afterwards, a cancelling row stays cancelling, an ended one is not claimed, and a row whose lease is alive on the worker's clock is left alone |
| JobLease.Deployment.OthersAct | backend/src/trips/optimization-jobs.service.ts:203-216 | Whatever the other parties do, they never make this worker the owner, never change an attempt it still owns, and never undo a cancellation |
| StockAccounts.ActiveIsCovered | backend/src/inventory/inventory.service.ts:224-231 | In a consistent stock the balance of an active reservation exists and reserves at least its quantity |
| StockAccounts.MovedKeeps | backend/src/inventory/inventory.service.ts:640-685 | A receipt or correction keeps reserved amounts equal to active reservations, on-hand amounts equal to opening plus ledger, and running totals right |
| StockAccounts.SettledKeeps | backend/src/inventory/inventory.service.ts:430-515 | Settling one reservation keeps the same |
| StockAccounts.SettledChanges | backend/src/inventory/inventory.service.ts:430-515 | A settled reservation leaves the active amounts whole, keeps what the order ever booked, and moves the ledger by what was committed |
| StockAccounts.StepsKeepCover | backend/src/inventory/inventory.service.ts:117-159 | Reserving, receiving, releasing and settling never reserve more than is there |
| InventoryService.AdjustmentKeepsCoverIff | backend/src/inventory/inventory.service.ts:715-780 | A correction of any number of lines keeps reservations covered exactly when its lines together leave what is reserved, repeated SKUs included |
| InventoryService.AdjustmentCanUndercut | backend/src/inventory/inventory.service.ts:741-746 | In a consistent stock with everything reserved, a permitted correction of -3 undercuts the reservation, and one of -3 and +3 does not |
| InventoryService.Inventory.Reserve | backend/src/inventory/inventory.service.ts:77-159 | Done exactly when the SKUs are distinct, have balances and no line leaves less than its safety buffer; then one row a line and nothing else, every buffer kept; each refusal names its true reason and changes nothing |
| InventoryService.Inventory.Commit | backend/src/inventory/inventory.service.ts:162-271 | Done exactly for an active, accessible reservation with enough on hand; the whole new state, or no change |
| InventoryService.Inventory.Release | backend/src/inventory/inventory.service.ts:321-387 | Done exactly for an accessible reservation not committed; a second release changes nothing |
| InventoryService.Inventory.Settle | backend/src/inventory/inventory.service.ts:396-544 | With reservations present, done exactly when every picked amount is reserved for the order and there; then exactly the picked amounts leave, all the rest is released and the order's bookings still add up |
| InventoryService.Inventory.MoveReservations | backend/src/inventory/inventory.service.ts:550-601 | Done exactly when all are at the destination already or the lines can be reserved there, buffers kept, once the order's own are released; otherwise no change |
| InventoryService.MovedHoldsTheLines | backend/src/inventory/inventory.service.ts:550-601 | After a move the order holds exactly the lines, at the destination and nowhere else, and other orders hold what they held |
| InventoryService.Inventory.Receive | backend/src/inventory/inventory.service.ts:629-687 | Amounts rise by the lines, one ledger entry a line, a new SKU gets a balance |
| InventoryService.Inventory.Adjust | backend/src/inventory/inventory.service.ts:715-780 | Done exactly when after every line there is a balance and it is not negative, otherwise no change; from a covered stock the result is covered exactly when the lines together leave what is reserved |

## Left out

- EscapeSearch.FindTranslationPathToDoor: lengths finer than a millimetre. On real lengths the tolerance makes the grid search inexact, because gaps narrower by up to the tolerance fall between critical values and obstacles thinner than it vanish.
- LoadCycles.ValidatePlan: completeness is relative to the candidate positions, the fixed load order and the same-order symmetry break of the program, which are part of the searched space; a plan outside it may still be executable.
- SpatialValidator.SearchStops: failure diagnostics (`best_failure`, violation codes, blocker identifiers), access paths in the report and the rounding of reported weights and percentages.
- SpatialValidator.CandidatePlacements: when a compact early order prefers the door is a heuristic of the order of trial only.
- EscapeSearch.SearchGrid: the `valid_nodes` cache, which only avoids recomputation.
- LayoutClasses.SameKeySameVerdict: keys are sets of exact values, which lose nothing because packages on one floor stand in different places; the six-decimal rounding is the identity on whole millimetres.
- CargoAllocator.AllocateCargoToPhysicalVehicles: weights and areas are positive integers, so no floating-point comparison is modelled; the order of equally ranked bins is not modelled.
- CargoAllocator.SplitOversizedOrder: identifiers, numbers and value shares of the parts, and the error thrown at the state cap, which is a third outcome here.
- DriverMatching.FindDriverSafeVehicleIndices: the keyword test on vehicle types is a flag, and licence spelling is normalised.
- DriverMatching.MatchedVehicleDriverIndices: the result is a map from drivers to vehicles instead of a sorted list of pairs.
- ExactCover.FirstIsCheapest: cheapest by total cost; of plans with one signature and one cost the first visited is kept, whatever its distance.
- ExactCover.SolveAssignmentPhase: building the route options is an input, driver assignment and its cost are an arbitrary partial function of the routes, and stop lists stand for signatures.
- PrecedenceSequences.GenerateSequences: a passed deadline only promises distinct correct words.
- RouteSchedule.ScheduleStops: floating-point error in sums of matrix entries and times; real arithmetic stands for it.
- RequestPruning.Prune: fields that no modelled step reads (locations, costs, policy).
- DestroyRepair.BestInsertion: insertion cost and plan cost are arbitrary functions, and the fast packing check is an arbitrary predicate; its cache is not modelled.
- RouteSearch.BuildFinalResponse: spatial validation may accept or reject any route, as its time budget may run out; costs, diagnostics, reformatted stop identifiers and the driver assignment, which fails as a whole or keeps all routes.
- RouteSearch.IteratedLocalSearch: random choices are arbitrary, and the sort of the first insertion is an arbitrary order.
- RouteSearch.Anneal: random choices are arbitrary, so accepting a dearer plan is a free choice while the temperature is above its minimum.
- JobLease.StepKeepsInv: creation and its idempotency key, authorization, queue delivery and deduplication, progress parameters, events and timestamps; applying a result is one conditional write of the row's status, without the trips it creates and the intermediate status of its transaction.
- JobLease.CancelTakesEffect: removing the queue entry of a cancelled waiting job.
- JobLease.Deployment.Process: a worker that dies or loses its connection between two calls; those runs are in the step relation, which `JobLease.StepKeepsInv` covers.
- InventoryService.Inventory.Settle: transactions are atomic; row locks, idempotent commands, audit fields, expiry times and source identifiers of ledger entries are not modelled, and rows are taken in order of creation, which only changes the order of new rows.
- InventoryService.Inventory.Reserve: lines are taken in the given order instead of sorted by SKU; SKUs are distinct, so only the order of new rows differs.
- The OR-Tools model, the hybrid engine beyond its matching, route consolidation and the cost and policy formulas.
