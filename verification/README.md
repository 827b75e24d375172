# Timetabling core in Dafny

This project models three pieces of an evolutionary university-course timetabling engine. Each piece works on a candidate timetable. A candidate is a `periods x rooms` grid whose cells are empty or hold one course.

- **Evaluator** (`evaluator.dfy`, module `Evaluator`) computes three soft-constraint costs for every curriculum of a candidate:
  - room-capacity overflow;
  - a shortfall of minimum working days, at 5 per missing day;
  - curriculum compactness and room stability, at +2 per gap and +1 per room change.

  It collects the per-curriculum running totals and turns them into a fairness number. Each cost is written twice: as a declarative reference function, and as a method that follows the Java loops (breaks, the day-skip arithmetic, the day loop starting at 1). The method is proved equal to the reference function.
- **Solution table** (`solution_table.dfy`, module `SolutionTable`) is a bounded map from slot number to a vote `(solution, penalty sum, fairness)`, where -1 means "not scored yet". It offers:
  - shape-checked construction of solutions and slot range checks;
  - penalty accumulation and fairness overwrite;
  - a best-vote tracker ordered by penalty, then fairness;
  - worst-slot eviction.

  The table is an immutable value, and every operation returns the new table or an error.
- **Neighbourhood recombination** (`recombination.dfy`, module `Recombination`) builds an offspring from two parents. It starts from parent 1 and scans every cell. A cell that is empty in the offspring but filled in parent 2 triggers a move or a swap, guarded by two conflict checks on the cell's period. The random pick is an oracle `pick(period, room)`. The key invariant is that the multiset of course ids is conserved.

Shared types are in `timetable.dfy`: courses, curricula, the instance, grids and solutions, together with the integer sum `SumOf` that the evaluator and the solution table both use. `wrappers.dfy` has `Option` and `Result`, which stand in for Java `null` and thrown exceptions.

Courses are compared by id throughout. The Java code compares them three ways: `Set.contains`, reference `==` and `getId().equals`. All three are modelled as id equality. Room capacity is `capacity[r]` for the room whose unique number is `r`.

### Where the Javadoc and the code differ (the model follows the code)

- **Fairness average.** The Javadoc of `evaluateFairness` (`Evaluator.java:295-301`) describes the fairness as based on the max, min and average of "the penalty for each curriculum". The average sums the curriculum costs from index 1 on but divides by the full count (`Evaluator.java:310-320`). For `[10, 20, 30]` an average over all entries gives fairness 0; the code gives 8 (`Evaluator.FairnessLeavesFirstEntryOut`). A single curriculum with cost `c` gets fairness `|2c|`, not 0 (`Evaluator.SingleCurriculumFairness`).
- **Curriculum costs.** Contrary to that Javadoc, `curriculumCosts[c]` is a running total over the curricula seen so far (`Evaluator.java:279-284`), not that curriculum's own cost. Fairness is computed over these running totals.
- **Compactness.** The day loop runs `d = 1 .. days - 1` and scans periods below `periodsPerDay * d`. The last day is therefore never charged (`Evaluator.LastDayNeverCharged`).
- **Compactness order.** Within a day, only the first curriculum course per period (lowest room) counts. The first occurrence after a day reset is free.

## Model

| member | source | states |
|---|---|---|
| Evaluator.FirstMatch | TimeTabling/src/de/hft/timetabling/evaluator/Evaluator.java:59-78 | the room found in a period is the lowest room holding a curriculum course; none is found exactly when no room holds one |
| Evaluator.CostsOnRoomCapacity | TimeTabling/src/de/hft/timetabling/evaluator/Evaluator.java:58-80 | the loop with its break equals the sum over periods of the overflow `students - capacity` (when positive) of the period's first curriculum course; the cost is never negative |
| Evaluator.PeriodChargedOnce | TimeTabling/src/de/hft/timetabling/evaluator/Evaluator.java:62-77 | a period is charged only for its lowest-room curriculum course; curriculum courses in later rooms of the same period are never charged |
| Evaluator.DaysWith | TimeTabling/src/de/hft/timetabling/evaluator/Evaluator.java:117-148 | a course is counted at most once per day, so its working days never exceed the number of days |
| Evaluator.HeldInPeriod | TimeTabling/src/de/hft/timetabling/evaluator/Evaluator.java:132-147 | the room scan of one period finds the course exactly when some room of the period holds it |
| Evaluator.CountPeriod | TimeTabling/src/de/hft/timetabling/evaluator/Evaluator.java:118-147 | one pass of the period loop (with its `p++`) moves to a later period and keeps the count: the days before the current day are counted, and within a day the flag is still set exactly when the course has not yet been seen that day |
| Evaluator.WorkingDays | TimeTabling/src/de/hft/timetabling/evaluator/Evaluator.java:113-148 | the Java period loop, including the jump to the next day at line 127, counts exactly the distinct days on which the course occurs in some room |
| Evaluator.CostsOnMinWorkingDays | TimeTabling/src/de/hft/timetabling/evaluator/Evaluator.java:113-155 | the cost is the sum over the curriculum's courses of `5 * (min - actual)` when `actual < min`, and of 0 otherwise; it is never negative |
| Evaluator.OccurrencesAreFirstRooms | TimeTabling/src/de/hft/timetabling/evaluator/Evaluator.java:184-229 | every listed occurrence lies in the scanned periods, its room is the period's lowest room holding a curriculum course, and the periods strictly increase |
| Evaluator.PairCostAppend | TimeTabling/src/de/hft/timetabling/evaluator/Evaluator.java:190-224 | the first occurrence of a day is free; each later one adds 2 when the previous occurrence was not in the period just before, plus 1 when the room differs |
| Evaluator.FirstRoom | TimeTabling/src/de/hft/timetabling/evaluator/Evaluator.java:185-229 | the room scan of one period stops at the lowest room holding a curriculum course |
| Evaluator.ChargeMove | TimeTabling/src/de/hft/timetabling/evaluator/Evaluator.java:203-220 | a move from the previous occurrence costs 2 when it is not in the period just before and 1 more when the room differs, so between 0 and 3 |
| Evaluator.CompactnessOfPeriod | TimeTabling/src/de/hft/timetabling/evaluator/Evaluator.java:185-228 | one period of the scan appends at most one occurrence (its lowest curriculum room), keeps the previous period and room equal to the last occurrence (-1 before the first), and adds exactly the move cost of the new occurrence |
| Evaluator.CompactnessOfDay | TimeTabling/src/de/hft/timetabling/evaluator/Evaluator.java:182-231 | one day of the loop, with previous period and room reset to -1, adds that day's compactness cost and leaves `p` at the first period of the next day |
| Evaluator.CompactnessOfDays | TimeTabling/src/de/hft/timetabling/evaluator/Evaluator.java:178-233 | the day loop from `d = 1` while `d < days` adds up the compactness cost of every day but the last |
| Evaluator.CostsOnCurriculumCompactnessAndRoomStability | TimeTabling/src/de/hft/timetabling/evaluator/Evaluator.java:166-236 | the nested loops equal the compactness cost of days `0 .. days - 2`, and 0 when there is at most one day; the cost is never negative |
| Evaluator.LastDayNeverCharged | TimeTabling/src/de/hft/timetabling/evaluator/Evaluator.java:178-184 | two grids that agree on every period before the last day have the same compactness cost, whatever the last day holds |
| Evaluator.RunningCosts | TimeTabling/src/de/hft/timetabling/evaluator/Evaluator.java:273-286 | entry `k` is the total of the three costs over curricula `0 .. k`; the last entry is the solution's total penalty |
| Evaluator.TotalCostGrows | TimeTabling/src/de/hft/timetabling/evaluator/Evaluator.java:279-284 | adding curricula never lowers the accumulated penalty |
| Evaluator.RunningCostsGrow | TimeTabling/src/de/hft/timetabling/evaluator/Evaluator.java:273-286 | the running totals are nonnegative and nondecreasing |
| Evaluator.RunningCostStep | TimeTabling/src/de/hft/timetabling/evaluator/Evaluator.java:279-284 | each entry is the previous entry plus that curriculum's three costs |
| Evaluator.MaxOf | TimeTabling/src/de/hft/timetabling/evaluator/Evaluator.java:308-314 | the maximum is an entry of the costs and no entry exceeds it |
| Evaluator.MinOf | TimeTabling/src/de/hft/timetabling/evaluator/Evaluator.java:309-317 | the minimum is an entry of the costs and no entry is below it |
| Evaluator.EvaluateFairness | TimeTabling/src/de/hft/timetabling/evaluator/Evaluator.java:303-333 | the Java loop fails exactly on an empty cost array, and otherwise returns `abs((max - avg) - (avg - min))` with `avg` as the truncated quotient of the sum of entries 1.. by the count; the result is never negative |
| Evaluator.ScanCosts | TimeTabling/src/de/hft/timetabling/evaluator/Evaluator.java:308-318 | the scan's maximum and minimum are the largest and smallest entries of the whole cost array, and its sum covers entries 1 onwards only |
| Evaluator.FairnessLeavesFirstEntryOut | TimeTabling/src/de/hft/timetabling/evaluator/Evaluator.java:310-320 | because entry 0 is left out of the sum, `[10, 20, 30]` has fairness 8 (an average over every entry would give 0) and `[30, 0, 0]` has fairness 30 (an average over every entry would give 10) |
| Evaluator.SingleCurriculumFairness | TimeTabling/src/de/hft/timetabling/evaluator/Evaluator.java:308-320 | a single curriculum with cost `c` gets fairness `abs(2c)` rather than 0 |
| Evaluator.JavaDivOfNonnegative | TimeTabling/src/de/hft/timetabling/evaluator/Evaluator.java:320 | Java's truncating division agrees with Euclidean division on a nonnegative sum |
| Evaluator.FairnessOfGrowingCosts | TimeTabling/src/de/hft/timetabling/evaluator/Evaluator.java:303-334 | for nonnegative, nondecreasing costs the fairness is `abs(last + first - 2 * avg)`, with `avg` the Euclidean quotient of the sum of entries 1.. by the count |
| Evaluator.FairnessOfRunningCosts | TimeTabling/src/de/hft/timetabling/evaluator/Evaluator.java:279-288 | the fairness submitted for a candidate is `abs(last + first - 2 * avg)` over its running totals, with `avg` as above |
| Evaluator.Evaluate | TimeTabling/src/de/hft/timetabling/evaluator/Evaluator.java:264-290 | evaluating a solution fails exactly when the instance has no curricula; otherwise the penalty is the last running total and both penalty and fairness are nonnegative |
| Evaluator.CurriculumPenalty | TimeTabling/src/de/hft/timetabling/evaluator/Evaluator.java:279-283 | the three cost methods called for one curriculum add up to that curriculum's share of the penalty |
| Evaluator.RunningTotals | TimeTabling/src/de/hft/timetabling/evaluator/Evaluator.java:270-286 | the curriculum loop leaves the solution's total penalty in `iPenalty` and the running totals, one per curriculum, in `curriculumCosts` |
| Evaluator.EvaluateSolution | TimeTabling/src/de/hft/timetabling/evaluator/Evaluator.java:265-288 | the per-solution loop body calling the three cost methods and the fairness method computes exactly `Evaluate` |
| SolutionTable.EmptyTable | TimeTabling/src/de/hft/timetabling/services/SolutionTable.java:27-29 | a new table tracks no solution, has no occupied slot and has no best vote |
| SolutionTable.FirstBadPeriod | TimeTabling/src/de/hft/timetabling/services/SolutionTable.java:41-48 | finds the first period whose row does not have one cell per room, and finds none exactly when every row has that length |
| SolutionTable.CreateNewSolution | TimeTabling/src/de/hft/timetabling/services/SolutionTable.java:35-49 | succeeds exactly when the coding has `days * periodsPerDay` rows of `rooms` cells each; a wrong row count is reported first, and otherwise the first bad period is reported |
| SolutionTable.CheckSolutionNumber | TimeTabling/src/de/hft/timetabling/services/SolutionTable.java:154-160 | passes exactly when `0 <= slot < TABLE_SIZE` |
| SolutionTable.GetSolution | TimeTabling/src/de/hft/timetabling/services/SolutionTable.java:53-57 | fails exactly on an out-of-range slot; otherwise it returns the slot's solution, or nothing for an empty slot |
| SolutionTable.PutSolution | TimeTabling/src/de/hft/timetabling/services/SolutionTable.java:60-63 | fails exactly on an out-of-range slot; otherwise it installs `(solution, -1, -1)` in that slot, leaves every other slot and the best vote unchanged, and keeps the table's slots in range |
| SolutionTable.PutThenGet | TimeTabling/src/de/hft/timetabling/services/SolutionTable.java:53-63 | reading a slot right after writing it returns the solution written |
| SolutionTable.GetActualSolutionTableCount | TimeTabling/src/de/hft/timetabling/services/SolutionTable.java:181-183 | the table never holds more than `TABLE_SIZE` solutions |
| SolutionTable.FindVote | TimeTabling/src/de/hft/timetabling/services/SolutionTable.java:141-149 | the lookup fails exactly when no slot holds the solution; otherwise it returns the lowest slot holding it |
| SolutionTable.AddPenaltyToSolution | TimeTabling/src/de/hft/timetabling/services/SolutionTable.java:66-73 | fails exactly on an absent solution; otherwise an unset sum becomes `points` and a set sum grows by `points`; no other slot, field or the best vote changes |
| SolutionTable.AddPenaltyBySlot | TimeTabling/src/de/hft/timetabling/services/SolutionTable.java:121-124 | fails with a range error exactly on an out-of-range slot, with not-found on an empty slot, and succeeds on an occupied slot; a success charges the slot's solution by looking it up again, so the lowest slot holding an equal solution (at or below `slot`) receives the points, and nothing else changes |
| SolutionTable.BySlotChargesLowestCopy | TimeTabling/src/de/hft/timetabling/services/SolutionTable.java:121-124 | with the same solution in slots 0 (sum 5) and 1 (unscored), adding 7 through slot 1 makes slot 0's sum 12 and leaves slot 1 unscored |
| SolutionTable.GetPenaltySumForSolution | TimeTabling/src/de/hft/timetabling/services/SolutionTable.java:132-135 | fails exactly on an absent solution; otherwise it returns the penalty sum of the lowest slot holding that solution |
| SolutionTable.GetPenaltySumBySlot | TimeTabling/src/de/hft/timetabling/services/SolutionTable.java:127-130 | range error exactly on an out-of-range slot; not-found on an empty slot; otherwise the penalty sum of the lowest slot holding the same solution, which is at or below `slot` |
| SolutionTable.UpdateBestSolution | TimeTabling/src/de/hft/timetabling/services/SolutionTable.java:93-118 | the result is one of the two votes and is at least as good as both in (penalty, fairness) order; the best vote changes only when the current vote is strictly better |
| SolutionTable.AddFairnessToSolution | TimeTabling/src/de/hft/timetabling/services/SolutionTable.java:217-232 | fails exactly on an absent solution; otherwise it overwrites the vote's fairness and changes nothing else in the slots; the first submission becomes best, and later ones replace the best only when strictly better, so the best never gets worse |
| SolutionTable.AddFairnessBySlot | TimeTabling/src/de/hft/timetabling/services/SolutionTable.java:240-243 | range error exactly on an out-of-range slot; not-found on an empty slot; succeeds on an occupied slot, overwriting the fairness of the lowest slot holding an equal solution (at or below `slot`) exactly as the by-solution call does |
| SolutionTable.GetBestSolution | TimeTabling/src/de/hft/timetabling/services/SolutionTable.java:163-165 | returns the best vote's solution, and nothing before the first fairness submission |
| SolutionTable.GetBestSolutionPenaltySum | TimeTabling/src/de/hft/timetabling/services/SolutionTable.java:168-173 | fails exactly when there is no best vote yet; otherwise returns its penalty sum |
| SolutionTable.ScanWorst | TimeTabling/src/de/hft/timetabling/services/SolutionTable.java:190-202 | the ascending scan takes the first occupied slot and replaces it only on a strictly larger penalty sum, ending at the lowest slot of maximal penalty, or -1 on an empty table |
| SolutionTable.WorstSlot | TimeTabling/src/de/hft/timetabling/services/SolutionTable.java:187-206 | the evicted slot holds the maximal penalty sum, is the lowest slot doing so, and is slot 0 on an empty table |
| SolutionTable.ReplaceWorstSolution | TimeTabling/src/de/hft/timetabling/services/SolutionTable.java:186-209 | the worst slot receives `(solution, -1, -1)`; every other slot and the best vote are unchanged; the set of occupied slots is unchanged, or is `{0}` when the table was empty |
| SolutionTable.PenaltyIsRunningSum | TimeTabling/src/de/hft/timetabling/services/SolutionTable.java:66-73 | after an unscored vote receives nonnegative points `p1 .. pn`, its penalty sum is `p1 + .. + pn` and no other slot has changed |
| SolutionTable.BestNeverWorsens | TimeTabling/src/de/hft/timetabling/services/SolutionTable.java:217-232 | over any run of fairness submissions the best (penalty, fairness) never increases lexicographically, and after one submission a best vote exists |
| Recombination.PositionOfCourse | TimeTabling/src/de/hft/timetabling/genetist/NeighborhoodRecombinationStrategy.java:79-93 | a position is returned exactly when it is a cell of the grid holding a course with the same id |
| Recombination.CoursePositionRandomly | TimeTabling/src/de/hft/timetabling/genetist/NeighborhoodRecombinationStrategy.java:102-109 | the pick is nothing exactly for an empty collection, and otherwise a member of it |
| Recombination.EveryPositionCanBePicked | TimeTabling/src/de/hft/timetabling/genetist/NeighborhoodRecombinationStrategy.java:106-108 | every member of the collection is the pick for some oracle index, so the oracle covers every random outcome |
| Recombination.ExistsSameTeacherInPeriod | TimeTabling/src/de/hft/timetabling/genetist/NeighborhoodRecombinationStrategy.java:186-196 | true exactly when some occupied cell of the period holds a course with the same teacher |
| Recombination.SharesCurriculum | TimeTabling/src/de/hft/timetabling/genetist/NeighborhoodRecombinationStrategy.java:161-168 | the iteration over a course's curricula succeeds exactly when it meets a curriculum of the given course |
| Recombination.ExistsSameCurriculumInPeriod | TimeTabling/src/de/hft/timetabling/genetist/NeighborhoodRecombinationStrategy.java:154-172 | true exactly when some occupied cell of the period holds a course sharing a curriculum with the given course |
| Recombination.EqualSizeSubset | TimeTabling/src/de/hft/timetabling/genetist/NeighborhoodRecombinationStrategy.java:133-134 | "same size and contains all" is set equality |
| Recombination.GetIfSameCurriculumAndSameTeacher | TimeTabling/src/de/hft/timetabling/genetist/NeighborhoodRecombinationStrategy.java:124-140 | returns the lowest room of the period whose course has the same teacher and exactly the same curricula, and nothing exactly when there is no such room |
| Recombination.MoveCourse | TimeTabling/src/de/hft/timetabling/genetist/NeighborhoodRecombinationStrategy.java:41-45 | the picked cell is cleared and the target receives parent 2's course; the id multiset and every other cell are unchanged |
| Recombination.SwapCourses | TimeTabling/src/de/hft/timetabling/genetist/NeighborhoodRecombinationStrategy.java:53-60 | the target receives parent 2's course, the interchangeable course's cell is cleared, and that course takes over the picked cell (when the two cells differ); the id multiset and all other cells are unchanged |
| Recombination.Step | TimeTabling/src/de/hft/timetabling/genetist/NeighborhoodRecombinationStrategy.java:29-62 | nothing happens unless the cell is a gap that parent 2 fills; a filled target holds parent 2's course; no cell becomes occupied except the target; shape and id multiset are conserved; the step fails only when the course is absent from the offspring |
| Recombination.ScanRow | TimeTabling/src/de/hft/timetabling/genetist/NeighborhoodRecombinationStrategy.java:27-63 | the steps over one period keep the shape and id multiset, and keep every occupied cell occupied in parent 1 or parent 2; offered the grid's own cells, the scan returns the grid unchanged |
| Recombination.ScanRows | TimeTabling/src/de/hft/timetabling/genetist/NeighborhoodRecombinationStrategy.java:26-64 | the steps over all periods keep the shape and id multiset, and keep every occupied cell occupied in one of the parents; offered the grid's own cells, the scan returns the grid unchanged |
| Recombination.Recombine | TimeTabling/src/de/hft/timetabling/genetist/NeighborhoodRecombinationStrategy.java:23-67 | the offspring has parent 1's shape, multiset of course ids and number of occupied cells; each occupied cell is occupied in a parent; a failure implies that parent 2 holds a course id parent 1 lacks |
| Recombination.OccupiedIsIdCount | TimeTabling/src/de/hft/timetabling/genetist/NeighborhoodRecombinationStrategy.java:42-59 | the number of occupied cells equals the size of the id multiset, so conserving ids conserves occupancy |
| Recombination.StepWithoutConflict | TimeTabling/src/de/hft/timetabling/genetist/NeighborhoodRecombinationStrategy.java:38-45 | with no conflict, one existing occurrence of the course moves to the target; an absent course leaves the offspring unchanged |
| Recombination.StepWithOneConflict | TimeTabling/src/de/hft/timetabling/genetist/NeighborhoodRecombinationStrategy.java:38-61 | with exactly one kind of conflict the offspring is unchanged |
| Recombination.StepWithBothConflicts | TimeTabling/src/de/hft/timetabling/genetist/NeighborhoodRecombinationStrategy.java:47-60 | with both conflicts: no change without an interchangeable course; with one, the step fails exactly when the course is absent (the null dereference at line 54), and a step that changes the offspring is a swap between an occurrence of the course and an interchangeable course of the period |
| Recombination.StepSwapsWithLowestInterchangeable | TimeTabling/src/de/hft/timetabling/genetist/NeighborhoodRecombinationStrategy.java:47-60 | with both conflicts, an interchangeable course in the period and the course present, the step IS the swap: the course moves from one of its cells to the target, the course in the period's lowest interchangeable room (the first match of lines 126-139) takes its old cell, and that room is cleared |
| Recombination.RecombineWithItself | TimeTabling/src/de/hft/timetabling/genetist/NeighborhoodRecombinationStrategy.java:24-66 | recombining a grid with itself returns it unchanged |

## Left out

- Main.java: argument parsing, the iteration loop, console and log output, sleeping and exiting are I/O. The table queries it calls belong to another table implementation that is not part of this model.
- The ServiceLocator wiring (`Evaluator.java:243-247`) and `voteForSolution` (`Evaluator.java:290`) are not modelled: the target of `voteForSolution` is not part of this model. `Evaluator.Evaluate` returns the (penalty, fairness) pair instead.
- `getNotVotedSolutions` (`Evaluator.java:262`) is not part of this model. The evaluator works on one (instance, grid) at a time.
- The Evaluator's mutable scratch fields (`Evaluator.java:29-32`) are passed as parameters.
- Java `int` overflow is not modelled. Costs and sums are unbounded integers.
- `java.util.Random` is replaced by the index oracle `pick`. Every member can be chosen (`Recombination.EveryPositionCanBePicked`).
- `HashMap` and `HashSet` iteration order is taken as ascending slot order and period-then-room order. This order only affects which equally bad slot is evicted and which lookup wins when a solution sits in two slots.
- Distinct members of a set are not enforced: `Curriculum.courses` and `Instance.curricula` are sequences standing for Java sets, and a repeated course or curriculum would be charged once per occurrence, which a Java `Set` cannot hold.
- The iteration order of an instance's curriculum set is taken as the order of `Instance.curricula`. Running totals, and therefore fairness, depend on that order.
- Java reference aliasing of votes is not modelled: the best vote is a value snapshot. In the Java code `updateBestSolution` stores an alias (`SolutionTable.java:109`, `113`) whenever a later submission wins, so later penalty additions and fairness overwrites to that solution also change the best vote.
- SolutionTable.BestNeverWorsens: holds for the snapshot only. In the Java code the best can get worse: S1 scores (10, 5) and becomes best as a fresh copy, S2 scores (3, 4) and becomes best as an alias, then a fairness of 100 for S2 writes through the alias and the best is (3, 100).
- SolutionTable.AddFairnessToSolution: its "the best never gets worse" clauses hold for the snapshot only, for the same aliasing reason.
- `ICourse`, `IProblemInstance`, `ISolution.clone` and `ISolution.equals` are abstracted. Solutions compare by value, and cloning is the identity on an immutable grid.
- The value of `TABLE_SIZE` is not part of this model. `SolutionTable.TABLE_SIZE` is 100 as a stand-in, and no property depends on the value beyond its being at least 2, which the two-slot example `SolutionTable.BySlotChargesLowestCopy` needs.
- Recombination.Recombine: it requires parent 2's grid to cover parent 1's shape. A smaller parent 2 would make the Java code throw an index exception, and that exception is not modelled.
- Evaluator.EvaluateSolution and the cost methods: they require the grid to fit the instance and the capacity list to cover every room. A misshaped grid would make the Java code throw an index exception; `SolutionTable.CreateNewSolution` rejects such grids.
- The Generator, Eliminator, CrazyGenetist, Validator, Reader and Writer components are not part of this model.
- SolutionTable operations require `Valid`: every occupied slot is in range. This holds for every table built by the operations, since only `PutSolution` and `ReplaceWorstSolution` add slots, and both add in-range slots. The lookup by solution relies on it to scan a finite range of slots.
