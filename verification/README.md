# Verified model of plexams.go

plexams.go plans the exams of a university faculty: it builds an optimisation problem from imported
registrations and constraints, anneals a schedule, reserves bookable EXaHM/SEB rooms, assigns
invigilators, and moves data between databases and files. This project models the logic that has to be
right for the resulting plan to be right, and proves what that logic keeps, conserves or decides.

| module | what it models |
|---|---|
| `ExahmIntervals`, `ExahmGate` | capacity of booked EXaHM/SEB rooms over time: the boundary sweep, the window gate |
| `Graph`, `Forests`, `SameSlotRoots`, `ExamUnits` | same-slot groups: recursive and path-halving union-find, schedulable units |
| `HardSeparation`, `SlotDomains`, `SlotTimes` | separations per ordered pair, allowed-slot domains, the start-time window |
| `SlotDays`, `SlotDistances`, `ProblemBuild`, `PlanDistances` | building the solver's problem: day groups, overruns, weighed pairs, look-ups; the laws of its distances |
| `ExamPlanProblem`, `ExamPlanLoads`, `ExamPlanHard`, `ExamPlanMoves`, `ExamPlanSwaps` | the exam-schedule solver: hard checks, exactly which moves they permit, unsafe swaps |
| `ExamPlanCost`, `PlanObjective`, `ExamPlanTerms`, `ExamPlanState` | its objective, what each term rewards, incremental state with undo |
| `ExamPlanStart`, `ExamPlanSolve`, `ExamPlanRuns`, `UnevenRun` | warm and greedy start, annealing, what whole runs keep, a run that ends with a clash |
| `StudentPairs`, `PlanSafety` | from registrations to the solver's pairs, and from a finished schedule back to every student's exams |
| `Guard`, `TodosCache` | two concurrency protocols as steps of any number of clients |
| `SameSlotConstraints`, `ProgramResolver`, `ConflictAggregation`, `DatasetRestore`, `SemesterDump`, `ConflictReport`, `CsvCells`, `InvigilationPositions` | data transformations that must conserve, commute or round-trip |
| `Seqs`, `Pairs`, `Names`, `Options` | ascending lists, their pairs, name order, optional values |

Times are integers (nanoseconds for room windows, minutes for the schedule, seconds for invigilations),
weights and costs are reals. A collection is a list or a map of documents. Go's random map iteration is
an arbitrary order; the solver's random numbers and temperature test are parameters and the picks of its
greedy start arbitrary, so every statement holds for every run.

Where the code does not do what it should for all inputs, the model follows the code, and a lemma says
exactly when it does:

- The SEB window gate counts `sebSeats`, the sweep physical seats (`ExahmGate.SebGateExact`); without
  bookings the sweep is silent (`ExahmIntervals.SilentWithoutBookings`).
- The window gate asks for bookings that cover the whole window, the sweep adds up what is open at an
  instant: they agree on single exams under an exact condition (`ExahmGate.GateExact`, `SebAgreesExact`).
- The spread term is meant to fall with distance; across midnight a short gap costs more than any pair of
  one day (`SlotDistances.MidnightExact`). Attracted units on another day are meant to be farther than any
  of the same day; that needs short days (`SlotDistances.OtherDayExact`, `ShortDaysSuffice`).
- A unit that moves is checked against its own old hold on the EXaHM rooms of the slots it overran into, and
  one without registrations does not join a single exam above the cap (`ExamPlanMoves.FeasibleExact`).
- Exams within twelve hours across midnight rank below a day apart (`ConflictReport.LaterExact`).
- A same-slot query reads a missing exam as root 0 (`SameSlotRoots.SameGroupExact`).
- Disjoint domains of a same-slot group become "every slot" (`SlotDomains.GroupDomainExact`), and a walk
  over joint programs that runs empty starts afresh at the next one (`SlotDomains.JointProgramsExact`),
  which can part a unit from the fixed exam it is pinned to (`SlotDomains.PinnedExact`).
- The swap check leaves out the two swapped units themselves (`ExamPlanHard.SwapClashExact`); a problem
  can be checked for swaps that matter (`ExamPlanRuns.RunsSafeExact`), and one whose run returns a clash is
  given (`ExamPlanRuns.SolveReturnsClash`). The cost that is minimised lacks the overflow term that is reported
  (`ExamPlanCost.ReportExact`).
- Same-slot lists break when a new partner leaves its group behind, when an exam is handed over and when
  constraints are deleted (`SameSlotConstraints.EditKeepsCliquesExact`, `HandoverExact`, `RemovalExact`).
- A second normalisation can lose or replace an ancode (`ProgramResolver.TwiceExact`, `ForeignCodeLoses`,
  `AddedRawCodeOverrules`).
- A limit of students, a Jira link or a comment entered alone is not stored
  (`SameSlotConstraints.RoomWishesExact`).
- An exam can conflict with itself, through two Primuss exams of one program or through a same-slot partner
  (`ConflictAggregation.SelfConflictExact`); the conflict report takes the last of several NTA extensions,
  the solver the longest (`HardSeparation.SolverAgreesWithReport`).
- The guard against foreign files (`plexams/dump.go:358`) is content with one of the two external
  collections and then empties the other (`DatasetRestore.PartialFileWipes`, `LossyFiles`); a file whose plan entries
  lack ancodes duplicates them when restored twice (`DatasetRestore.TwiceIsOnceExact`).
- The comment at `plexams/dump.go:30` promises that bookkeeping collections are never overwritten by a
  semester restore; the code protects `semester_meta` only (`SemesterDump.BookkeepingKeptExact`).
- A pre-planned invigilation on a self-invigilated room is not written
  (`InvigilationPositions.PrePlannedWrittenExact`).

`dafny verify dfyconfig.toml` checks the whole project.

## Model

| member | source | states |
|---|---|---|
| `ExahmIntervals.CumulativeOverloads` | plexams/exahm_intervals.go:192-252 | the event sweep over all window boundaries computes the specification function for every input, and with stopAtFirst exactly its first record |
| `ExahmIntervals.SweepExact` | plexams/exahm_intervals.go:192-252 | an instant lies in a reported interval if and only if EXaHM demand exceeds EXaHM seats or total demand exceeds total seats there; every record's kind, demand, seats and exams hold throughout its interval; records are disjoint and ascending |
| `ExahmIntervals.MidpointDecides` | plexams/exahm_intervals.go:213-250 | demand and supply are constant between neighbouring boundaries, so one sampled midpoint decides the interval |
| `ExahmIntervals.SilentWithoutBookings` | plexams/exahm_intervals.go:193-195 | an empty report tells the truth about the exams if and only if there are bookings or no exam with seats ever holds a room: without bookings nothing is reported, whatever the demand |
| `ExahmIntervals.ActiveIdsExact` | plexams/exahm_intervals.go:227-238 | an id stands in a record if and only if an exam of that id holds rooms then |
| `ExahmGate.ExahmWindowSeats` | plexams/exahm_intervals.go:261-281 | the gate loop sums the usable seats of exactly the bookings that cover the exam window with its buffers, which GateExact and SebAgreesExact tell by what the sweep accepts |
| `ExahmGate.OccupancyWithinBooking` | plexams/exahm_intervals.go:29-42 | the time an exam keeps rooms busy never exceeds the time its booking has to cover, per side, for every override |
| `ExahmGate.OverrideExact` | plexams/exahm_intervals.go:29-165 | a positive override counts in full for the booking and for the occupancy, per side; without one the booking needs 30 minutes and the rooms are held for 15 |
| `ExahmGate.SharedBufferExact` | plexams/exahm_intervals.go:14-23 | two consecutive exams on default buffers hold rooms at the same time if and only if less than 30 minutes lie between them |
| `ExahmGate.EmptySweepMeansFeasible` | plexams/exahm_intervals.go:192-252 | an empty report is the same as no overloaded instant |
| `ExahmGate.GateImpliesSweep` | plexams/exahm_intervals.go:152-281 | an EXaHM exam the window gate admits never overloads the bookings by itself |
| `ExahmGate.ExahmAlone` | plexams/exahm_intervals.go:192-281 | the sweep accepts a single EXaHM exam if and only if at each instant of its occupancy the gate's seats and the seats of other open EXaHM rooms hold it |
| `ExahmGate.GateExact` | plexams/exahm_intervals.go:192-281 | for every list of bookings gate and sweep agree on all EXaHM exams at a time if and only if at some instant of the occupancy no EXaHM room that is booked too short is open |
| `ExahmGate.CoveringGateExact` | plexams/exahm_intervals.go:192-281 | if every booking covers exam, setup and teardown, the gate admits an EXaHM exam if and only if the sweep reports nothing |
| `ExahmGate.SebGateImpliesSweep` | plexams/exahm_intervals.go:152-281 | the same for a SEB exam, provided no room is SEB-overstated |
| `ExahmGate.SebGateExact` | plexams/exahm_intervals.go:216-281 | for every list of bookings the gate is sound for every SEB exam it admits at a time if and only if, at each instant of the exam's occupancy, the SEB seats it counts beyond physical seats are spare in open rooms that do not cover the window |
| `ExahmGate.SebAgreesExact` | plexams/exahm_intervals.go:216-281 | gate and sweep agree on all SEB exams at a time if and only if the excess is spared throughout the occupancy and, at some instant, no more than that is spare |
| `ExahmGate.OneRoomGateExact` | plexams/exahm_intervals.go:216-281 | for a single covering room: if and only if it does not offer more SEB than physical seats while being EXaHM-capable |
| `ExahmGate.FeasibilityMonotone` | plexams/exahm_intervals.go:192-252 | a feasible exam set stays feasible with fewer exams and with more bookings |
| `SameSlotRoots.RootTable.Find` | plexams/exam_conflict.go:110-117 | the recursive find terminates, returns the representative and changes no representative by compressing the path |
| `SameSlotRoots.RootTable.Unite` | plexams/exam_conflict.go:122-135 | joining two exams adds exactly that edge to the represented connectivity |
| `SameSlotRoots.RootTable.Flatten` | plexams/exam_conflict.go:136-141 | the last pass makes every stored root final without changing the partition |
| `SameSlotRoots.SameSlotGroups` | plexams/exam_conflict.go:109-142 | for every iteration order of the constraints two exams get the same root if and only if a chain of SameSlot entries connects them, and the root of a root is itself |
| `SameSlotRoots.SameGroupExact` | plexams/exam_conflict.go:231-233 | the callers' group test, where a missing exam reads as root 0, is right for all pairs if and only if no group has root 0 |
| `Graph.LabelsExact` | plexams/exam_conflict.go:109-142 | a labelling built edge by edge separates exactly the connected components |
| `ExamUnits.ParentTable.Find` | plexams/examplan_build.go:265-271 | the path-halving loop terminates on every reachable parent map, returns the representative and keeps all representatives |
| `ExamUnits.ParentTable.Unite` | plexams/examplan_build.go:272-283 | linking two roots adds exactly that edge |
| `ExamUnits.MergeSameSlot` | plexams/examplan_build.go:260-283 | after the pass the table represents exactly the SameSlot edges between movable exams |
| `ExamUnits.PinnedSlot` | plexams/examplan_build.go:324-335 | of an exam's fixed same-slot partners the last one listed gives the slot, without one the slot stays as it was |
| `ExamUnits.LastFixedWins` | plexams/examplan_build.go:324-335 | the last fixed exam of a partner list decides the pin, whatever came before |
| `ExamUnits.PinExact` | plexams/examplan_build.go:313-335 | a group is pinned if and only if a member has a fixed partner, and then to the slot of one |
| `ExamUnits.PinServesAll` | plexams/examplan_build.go:328-333 | the one pin serves every fixed partner of the group if and only if they all stand in one slot |
| `ExamUnits.MergeMembers` | plexams/examplan_build.go:305-345 | a merged unit sums its members' registrations, is EXaHM or SEB if a member is, and takes the pin of the last fixed partner in member and list order |
| `ExamUnits.GroupByRoot` | plexams/examplan_build.go:290-304 | grouping by root lists each group's members exactly once, roots ascending |
| `ExamUnits.BuildUnits` | plexams/examplan_build.go:254-383 | two movable exams share a unit if and only if a chain of SameSlot edges between movable exams links them; every movable unit takes seats, kinds and pin from exactly its members; every recorded exam is in exactly the unit unitOf names; fixed exams stand alone; unit seats add up to all registrations |
| `ExamUnits.PartnersShareUnit` | plexams/examplan_build.go:260-304 | an exam and a partner in its SameSlot list share a unit if both are movable |
| `ExamUnits.FixedAlone` | plexams/examplan_build.go:365-383 | a fixed exam shares its unit with no other exam |
| `ExamUnits.SeatsConserved` | plexams/examplan_build.go:305-383 | any partition into units conserves the registrations |
| `HardSeparation.GapIsFairAndPositive` | plexams/examplan_build.go:40-45 | the location-aware gap is the same both ways, never below the ordinary gap, and positive |
| `HardSeparation.ConfiguredGaps` | plexams/plan.go:130-144 | a positive setting is used as it is, otherwise the gap is 30 minutes and 120 between campuses |
| `HardSeparation.CampusExact` | plexams/examplan_build.go:40-45 | with b not before a the student has enough time if and only if b leaves the exam's own minutes and the ordinary gap, and between two campuses the travel gap too |
| `HardSeparation.OneCampusSuffices` | plexams/examplan_build.go:34-45 | without travelling the exam's own minutes and the ordinary gap are enough |
| `HardSeparation.TravelTimeKept` | plexams/examplan_build.go:34-45 | no student has enough time for two exams at different campuses that start less than the travel gap apart |
| `HardSeparation.CollectDurations` | plexams/examplan_build.go:595-629 | base durations, setup and teardown minutes are the maxima per unit, extensions the maximum per unit and student |
| `HardSeparation.OccupiedExact` | plexams/examplan_build.go:599-641 | a student is occupied by a unit for d minutes or less if and only if each of its exams, with each of the student's extensions, is over by then |
| `HardSeparation.SetupExact` | plexams/examplan_build.go:609-621 | the collected setup and teardown stay within two bounds if and only if those of each exam of the unit do |
| `HardSeparation.ExtendedExact` | plexams/examplan_build.go:623 | an extension is the extended duration cut to whole minutes and never shortens the exam |
| `HardSeparation.BuildSeparations` | plexams/examplan_build.go:645-658 | each ordered pair holds the maximum need over the students who sit both, their own minutes (OccupiedExact) plus the location-aware gap (CampusExact), and only positive entries are stored |
| `HardSeparation.SeparationExact` | plexams/examplan_build.go:634-658 | a placement reaches the aggregated separation in one order or the other if and only if every sharing student has their own extended duration plus the location-aware gap |
| `HardSeparation.SolverTestExact` | plexams/examplan/problem.go:477-504 | the solver's overlap test on the installed numbers is that same statement |
| `HardSeparation.SolverAgreesWithReport` | plexams/exam_conflict.go:26-58 | for a unit of one exam the solver never reckons with less than the conflict report, and with the same minutes for a student if and only if no earlier NTA entry of the student is longer than the last one that lengthens the exam |
| `SlotDomains.IntersectAllowed` | plexams/examplan/build.go:64-93 | the result is the sorted intersection of the restricted members, empty if none is restricted |
| `SlotDomains.GroupDomainExact` | plexams/examplan/build.go:61-93 | the stored domain of a group means the intersection of its members' slots if and only if that is not empty; disjoint members end up with every slot |
| `SlotDomains.RestrictToPrograms` | plexams/examplan_build.go:489-508 | the walk over a unit's joint programs computes the specified chain, with the sentinel if it ends empty |
| `SlotDomains.JointProgramsExact` | plexams/examplan_build.go:490-508 | the unit keeps exactly the slots suiting it and all its joint programs if and only if the walk does not run empty before programs that still share a slot |
| `SlotDomains.TwoProgramsExact` | plexams/examplan_build.go:490-508 | for two programs: if and only if the unit is unrestricted or shares a slot with the first |
| `SlotDomains.RestartExample` | plexams/examplan_build.go:496-499 | a unit allowed in slot 0 only, in programs reserving 1 and 2, ends in slot 2 |
| `SlotDomains.FilterSlots` | plexams/examplan_build.go:707-736 | the filter loop keeps the accepted real slots in order, writes [-1] if none is left, and notes whether it took the last one |
| `SlotDomains.FilterExact` | plexams/examplan_build.go:707-786 | a filtered domain is the old one cut with the accepted slots, it is [-1] exactly if that is empty, and [-1] is absorbing without blame |
| `SlotDomains.FilterExahm` | plexams/examplan_build.go:687-737 | every movable EXaHM unit is cut to the slots with enough covered seats, no other unit changes, and exactly the exams of emptied units are blamed |
| `SlotDomains.FilterWindow` | plexams/examplan_build.go:755-786 | every movable non-exempt unit is cut to the window, no other unit changes, and exactly the exams of emptied units are blamed |
| `SlotDomains.BuildDomains` | plexams/examplan_build.go:463-786 | after all filters the reason recorded for an exam is the filter that first left its unit without a slot, and no reason means a slot is left |
| `SlotDomains.DomainExact` | plexams/examplan_build.go:489-786 | after all filters a unit keeps a slot if and only if its joint programs left it, the rooms booked throughout its window hold it if it is a movable EXaHM unit, and HARD enforcement does not forbid it to a movable unit without booked rooms |
| `SlotDomains.SlotKeptExact` | plexams/examplan_build.go:687-737 | with bookings that all cover the exam's window in a slot, the filter leaves an EXaHM exam the slot if and only if the exam does not overload the bookings there |
| `SlotDomains.FilteredSlotFits` | plexams/examplan_build.go:707-723 | a slot the EXaHM filter leaves to a unit cannot overload the bookings by the unit's exams, all members together, each with its own duration and occupancy |
| `SlotDomains.PinnedExact` | plexams/examplan_build.go:350-354 | joint programs leave a pinned unit no slot but its partner's if and only if the walk never loses that slot before programs sharing another one |
| `SlotDomains.PinnedStays` | plexams/examplan_build.go:350-786 | through all filters a pinned unit that does not stray keeps no other slot |
| `ExamPlanProblem.DeriveConflicts` | plexams/examplan/problem.go:329-423 | the conflict lists hold exactly the pairs that share a student and are not both fixed |
| `ExamPlanProblem.DeriveStudents` | plexams/examplan/problem.go:329-423 | each unit lists exactly the students with a pair on it, each once |
| `ExamPlanHard.RelocateKeepsHard` | plexams/examplan/model.go:332-369 | a relocation the check admits creates no clash, no overfull or overbooked slot and leaves every other unit alone |
| `ExamPlanHard.SwapKeepsCapacity` | plexams/examplan/model.go:373-424 | a permitted swap creates no capacity or domain violation |
| `ExamPlanHard.SwapClashExact` | plexams/examplan/model.go:371-424 | a permitted swap adds no student clash if and only if the two swapped units do not overlap each other in their new slots, the pair the check leaves out |
| `ExamPlanHard.SymmetricSeparationSafe` | plexams/examplan/model.go:371-424 | with equal separations both ways a permitted swap adds no clash |
| `ExamPlanMoves.FeasibleExact` | plexams/examplan/model.go:332-369 | a unit may move to a slot if and only if the slot is in its domain and, in the resulting assignment, the unit clashes with nobody, the cap is kept, and the bookings of the slot and of every slot it overruns into cover all seats and what the unit itself held there before |
| `ExamPlanMoves.PlacingExact` | plexams/examplan/model.go:332-369 | an unplaced exam with registrations is refused a slot if and only if it would stand outside its domain, clash, overfill a combination of exams, or exceed booked EXaHM seats there or where it overruns |
| `ExamPlanMoves.SwapExact` | plexams/examplan/model.go:373-424 | two units may swap if and only if both are placed in different slots, neither can overrun, and in the resulting assignment each is in its domain, clashes with no third unit and keeps cap and bookings |
| `UnevenRun.SwapCreatesClash` | plexams/examplan/model.go:371-424 | a concrete problem with a 180- and a 60-minute exam where a permitted swap creates a clash |
| `UnevenRun.UnevenUnsafe` | plexams/examplan/model.go:371-424 | that problem is valid and has an unsafe swap |
| `ExamPlanSwaps.FewerFeasible` | plexams/examplan/model.go:332-369 | a slot that takes a unit also takes it when fewer others are placed |
| `ExamPlanSwaps.ClashingSwapIsUnsafe` | plexams/examplan/model.go:371-424 | whenever a permitted swap brings a clash into a clash-free assignment, the two units alone in their slots already show it |
| `ExamPlanSwaps.EvenSeparationsAreSafe` | plexams/examplan/model.go:371-424 | one separation per pair of conflicting movable units makes every swap safe |
| `ExamPlanCost.ReportVersusObjective` | plexams/examplan/solve.go:234-243 | the reported total is the minimised one plus the overflow term |
| `ExamPlanCost.ReportExact` | plexams/examplan/model.go:471-473 | they are equal if and only if every slot stays inside its bookings |
| `PlanObjective.LoadPositive` | plexams/examplan/model.go:68-104 | each of the five counters of a slot is positive if and only if a unit of its kind with registrations stands there, or overruns into it |
| `PlanObjective.SeatsOnce` | plexams/examplan/model.go:68-104 | the seats of all slots together are the seats of the placed units, each once |
| `PlanObjective.EvenerIsCheaper` | plexams/examplan/problem.go:506-512 | moving seats between slots never raises the load term if and only if the entered slot ends up no fuller than the one left was |
| `PlanObjective.LoadAtTarget` | plexams/examplan/problem.go:506-512 | a slot's load term is never negative and vanishes exactly at the target |
| `PlanObjective.FillBalance` | plexams/examplan/problem.go:159-193 | at equal weights fill and overflow term differ by the booked minus the placed seats |
| `PlanObjective.FilledExact` | plexams/examplan/problem.go:159-174 | the fill term vanishes exactly when all booked seats are taken |
| `PlanObjective.TimeCharged` | plexams/examplan/problem.go:222-234 | a start time is charged if and only if the unit is placed outside the window, has registrations and needs no booked rooms |
| `PlanObjective.WorstCaseExact` | plexams/examplan/model.go:321-327 | one student's burden costs more than the same burden split over two, by twice the worst-case weight times the product |
| `PlanObjective.FairerIsCheaper` | plexams/examplan/model.go:321-327 | shifting a burden lowers the worst-case term if and only if the student who takes it ends up with less than the other one had |
| `PlanObjective.TravelCharge` | plexams/examplan/model.go:162-178 | two campuses cost a pair the travel weight more if and only if both exams stand on one day, in different slots |
| `PlanObjective.PairFreeExact` | plexams/examplan/model.go:162-178 | with positive weights a pair costs nothing if and only if an exam is unplaced or both share a slot |
| `PlanObjective.PenaltyAdds` | plexams/examplan/model.go:162-178 | a student's penalty adds up over their pairs, however they are listed |
| `PlanObjective.PullExact` | plexams/examplan/model.go:224-235 | attracted units cost their distance times their weight, and nothing while one is unplaced |
| `PlanObjective.HoleSpan` | plexams/examplan/model.go:184-205 | holes and own-occupied slots of a day add up to the span from its first to its last own exam |
| `PlanObjective.OneMore` | plexams/examplan/model.go:471-473 | one hole and one unplaced unit more cost their weights |
| `PlanObjective.AllPlacedExact` | plexams/examplan/model.go:531-540 | the number of unplaced units is zero if and only if every movable unit is placed |
| `PlanObjective.SameStartOverlaps` | plexams/examplan/problem.go:474-504 | two units always overlap at the same start, and without separations nowhere else |
| `SlotDistances.NeighboursExact` | plexams/examplan/problem.go:312-320 | two slots of a day are directly consecutive if and only if no slot of that day starts between them |
| `SlotDistances.TieredExact` | plexams/examplan/problem.go:532-547 | without the falloff directly consecutive exams cost the adjacent weight and all other pairs of a day the same-day weight |
| `SlotDistances.FalloffFades` | plexams/examplan/problem.go:533-538 | with the falloff a longer gap within a day never costs more, and every pair costs between same-day and adjacent weight |
| `SlotDistances.AcrossDaysExact` | plexams/examplan/problem.go:547-551 | across days cost times gap is the day factor times a day, gaps below an hour counting as one |
| `SlotDistances.AcrossDaysFades` | plexams/examplan/problem.go:526-551 | across days a longer gap never costs more |
| `SlotDistances.ClosenessSymmetric` | plexams/examplan/problem.go:532-552 | what a pair of slots costs a student is the same both ways |
| `SlotDistances.MidnightExact` | plexams/examplan/problem.go:526-551 | a pair across days costs no more than a non-consecutive pair of one day if and only if its gap is long enough for the weights, 320 minutes with the default ones |
| `SlotDistances.MidnightExample` | plexams/examplan/problem.go:136-157 | with the default weights two hours across midnight cost 2400, thirteen hours of one day 900 |
| `SlotDistances.DaysApartNearest` | plexams/examplan/problem.go:582-592 | calendar distance is the nearest number of days, halves upwards, and at least one |
| `SlotDistances.TogetherExact` | plexams/examplan/problem.go:552-566 | the pull on attracted units is never negative and vanishes exactly in one slot |
| `SlotDistances.PullWithinDay` | plexams/examplan/problem.go:552-566 | within a day the pull adds up over a slot between |
| `SlotDistances.PullUnit` | plexams/examplan/problem.go:552-566 | one slot further, or one hour with the falloff, costs the attract weight |
| `SlotDistances.OtherDayExact` | plexams/examplan/problem.go:565 | two attracted slots on different days are pulled at least as much as two of one day if and only if the latter are no more positions apart than whole days lie between the former plus five |
| `SlotDistances.ShortDaysSuffice` | plexams/examplan/problem.go:565 | with at most seven slots a day another day is never nearer than any slot of the same day |
| `ExamPlanState.CostExact` | plexams/examplan/model.go:471-473 | in every state whose fields agree with the assignment the maintained cost is the recomputed objective |
| `ExamPlanState.ShiftedExact` | plexams/examplan/model.go:240-318 | replacing the touched terms by their new values gives exactly the totals recomputed for the new assignment |
| `ExamPlanState.State.MoveUnit` | plexams/examplan/model.go:240-318 | the incremental move leaves counters, penalties and totals equal to the recomputed ones and hands out an undo for the state before |
| `ExamPlanState.State.TakeBack` | plexams/examplan/model.go:305-318 | the undo restores every field to its value before the move |
| `ExamPlanState.State.Restore` | plexams/examplan/model.go:475-498 | restoring a snapshot reproduces it completely |
| `ExamPlanState.State.InitCost` | plexams/examplan/model.go:122-159 | the full evaluation makes all totals agree with the assignment |
| `ExamPlanState.State.MayEnter` | plexams/examplan/model.go:332-369 | the feasibility test on the counters decides feasibility of the assignment, which FeasibleExact tells by the assignment the move leads to |
| `ExamPlanState.State.MaySwap` | plexams/examplan/model.go:373-424 | the swap test on the counters decides the swap condition, which SwapExact tells by the assignment the swap leads to |
| `ExamPlanTerms.HoleSum` | plexams/examplan/model.go:184-221 | the hole count of the loop is the number of empty slots between used ones, summed over the days |
| `ExamPlanSolve.Propose` | plexams/examplan/model.go:444-468 | a proposal is applied exactly if it is permitted, and otherwise the state is untouched |
| `ExamPlanSolve.Reject` | plexams/examplan/model.go:444-468 | taking back a relocation or a swap restores the state before |
| `ExamPlanSolve.Anneal` | plexams/optimize/anneal.go:113-179 | for every sequence of random choices the run takes exactly the permitted and accepted moves, ends at the first cheapest assignment of everything visited, rejected proposals included, and stops early exactly at the first iteration since its best was found at which that is complete and stagnant |
| `ExamPlanStart.Construct` | plexams/examplan/solve.go:29-91 | the start keeps what the warm start kept, adds no hard violation, and no slot takes any unit that stayed unplaced, in whatever order and by whatever slot choice the units are placed |
| `ExamPlanStart.FillRemaining` | plexams/examplan/solve.go:69-91 | every unit is placed in a slot feasible at its turn, and one left unplaced had none then and has none at the end |
| `ExamPlanStart.WarmStart` | plexams/examplan/solve.go:29-48 | in unit order each unit keeps its start slot if it is feasible beside those before it |
| `ExamPlanStart.WarmKeepsPlan` | plexams/examplan/solve.go:24-48 | a current plan in which every unit still fits beside all others survives the warm start unchanged |
| `ExamPlanRuns.RunsSafeExact` | plexams/examplan/model.go:371-468 | some run leads from a clash-free assignment to a clash if and only if the problem has an unsafe swap: two movable units, alone in two slots, far enough apart one way round, not the other, and free to swap |
| `ExamPlanRuns.RunKeepsCapacity` | plexams/optimize/anneal.go:133-174 | wherever a run stands, no slot is fuller than allowed that was not so at its start, fixed units stay, moved units are in their domains |
| `ExamPlanRuns.RunKeepsClashFree` | plexams/optimize/anneal.go:133-174 | from a clash-free start a run stays clash-free if the problem has no unsafe swap or the run's swaps are even |
| `ExamPlanRuns.StepJudged` | plexams/optimize/anneal.go:147-173 | a permitted move that lowers the cost is always taken, an equally dear one unless the run is strict, a dearer one only on a lucky draw in a run that is not strict, and no move that is not permitted |
| `ExamPlanRuns.StrictDescends` | plexams/optimize/anneal.go:133-174 | the cost of a strict run never rises, and it falls wherever the run moves |
| `ExamPlanRuns.StrictEndsCheapest` | plexams/optimize/anneal.go:133-179 | a strict run ends in the assignment it returns |
| `ExamPlanRuns.Solve` | plexams/examplan/solve.go:13-62 | over whole runs the schedule is the first cheapest of everything visited with its recomputed cost, starts from a plan nothing could be added to, exceeds capacity only where the fixed exams alone do, keeps domains and fixed exams, and without unsafe swaps has no student clash |
| `ExamPlanRuns.PayingSwapReturned` | plexams/optimize/anneal.go:133-179 | a run of one permitted swap that lowers the cost returns the swapped assignment |
| `ExamPlanRuns.SolveReturnsClash` | plexams/examplan/solve.go:13-22 | a run from a clash-free current plan, accepting strictly cheaper moves only, that returns a clash |
| `StudentPairs.CollectPairs` | plexams/examplan_build.go:539-575 | a student's pairs are all pairs of their units but those of two foreign exams and the shareable ones, each once |
| `StudentPairs.CollectSitters` | plexams/examplan_build.go:538-579 | exactly the students with a pair enter the problem |
| `StudentPairs.PairsOfExact` | plexams/examplan_build.go:539-575 | a unit pair is listed if and only if two of the student's exams went to these units and the pair counts |
| `ProblemBuild.SetHardSeparations` | plexams/examplan/problem.go:431-446 | exactly the separations between different units of the problem that are not both fixed take effect |
| `SlotDays.GroupDays` | plexams/examplan/problem.go:377-408 | day groups ascend and hold exactly their slots in chronological order, and every slot knows its day and its position |
| `SlotDays.FarnessSymmetric` | plexams/examplan/problem.go:554-566 | the pull between two attracted slots is the same both ways |
| `SlotDays.CollectOverruns` | plexams/examplan_build.go:794-827 | an EXaHM unit with a long teardown is entered, per slot, with exactly the later slots of the day that need the rooms before it releases them |
| `SlotDays.CompetesExact` | plexams/examplan_build.go:794-827 | a room is still held when a later slot of the day needs it if and only if some instant belongs to its holding time and to the 30 minutes before that slot |
| `ProblemBuild.WeighPairs` | plexams/examplan_build.go:549-575 | every sitter's pair enters once, with its weight and whether its units lie at different campuses |
| `ProblemBuild.BuildProblem` | plexams/examplan_build.go:538-833 | from units, registrations, durations, campuses and slots: a valid problem whose students are the registered ones with their pairs, whose separations are the aggregated needs, whose days, distances and overruns follow from the slots' times, and whose look-ups are exact |
| `ProblemBuild.MayOverrunExact` | plexams/examplan/model.go:426-431 | a unit counts as overrunning if and only if from some slot it still holds its rooms when another one needs them |
| `PlanDistances.SpreadFalls` | plexams/examplan/problem.go:526-551 | in the built problem, with weights that punish nearness, two slots that stand no farther apart never cost a student less |
| `PlanDistances.PairSpreadFalls` | plexams/examplan/model.go:162-178 | so moving a student's two exams apart never makes the pair dearer |
| `PlanDistances.NeighbourCostsMost` | plexams/examplan/problem.go:539-545 | of all slots of a day the directly consecutive one is the dearest, with the tiered weights |
| `PlanDistances.TogetherIsFree` | plexams/examplan/problem.go:552-566 | in the built problem attracted units cost nothing exactly in one slot |
| `PlanDistances.CampusFlagExact` | plexams/examplan_build.go:549-575 | a student's pair carries the travel charge if and only if its units lie at different campuses |
| `PlanDistances.LoadsBalance` | plexams/examplan/problem.go:344-351 | in a complete schedule the seats of all slots add up to the target load of all slots |
| `PlanSafety.ClashFreeExact` | plexams/examplan_build.go:634-658 | a schedule of a built problem has no clash if and only if every sitter has, between any two units it decided, their own duration and gap |
| `PlanSafety.StudentsComfortableExact` | plexams/examplan_build.go:538-658 | from registrations to times: no clash if and only if every registered student has enough time between any two of their exams the schedule decided |
| `PlanSafety.PlacedInDomain` | plexams/examplan/problem.go:522-525 | a placed movable exam stands in its filtered domain, and one with an empty domain is never placed |
| `PlanSafety.PinnedWithPartner` | plexams/examplan_build.go:313-354 | a unit pinned to a fixed same-slot partner stands with it or stays unplaced, unless the walk over its joint programs strays |
| `PlanSafety.ScheduleExams` | plexams/examplan/solve.go:13-22 | from registrations to the schedule: the built problem's true cost, placed exams in their domain, fixed exams in place, and enough time for every registered student unless the problem has an unsafe swap and the run swaps unevenly |
| `PlanSafety.FairToStudent` | plexams/examplan_build.go:538-658 | in the inputs' own terms: of two exams of a student in different units, not both foreign and not shareable, the later one starts when the student has finished the first and had the configured gap, and between campuses the travel gap |
| `Guard.OpGuard.TryBeginValidation` | plexams/guard.go:26-34 | a validation enters exactly if no exclusive operation runs, beside any number of others (AdmittedExact) |
| `Guard.OpGuard.EndValidation` | plexams/guard.go:37-43 | the counter goes down by one, never below zero |
| `Guard.OpGuard.TryBeginExclusiveOp` | plexams/guard.go:49-57 | an exclusive operation enters exactly if nothing runs |
| `Guard.OpGuard.EndExclusiveOp` | plexams/guard.go:60-66 | the counter goes down by one, never below zero |
| `Guard.OpGuard.AcquireExclusiveOp` | plexams/autosync.go:199-214 | at most six attempts, each after a refused one and an uncancelled wait; true exactly if the last attempt was let in, and then the caller holds the token |
| `Guard.EveryRunConsistent` | plexams/guard.go:13-74 | in every interleaving of any number of clients the counters are the numbers of holders, at most one exclusive operation runs, and never beside a validation |
| `Guard.EndIsMatched` | plexams/guard.go:37-66 | the clamp never hides an unmatched release |
| `Guard.WriteAdmittedIffIdle` | graph/server.go:102-104 | a write is admitted exactly when nobody holds the guard |
| `Guard.AdmittedExact` | plexams/guard.go:26-57 | in every interleaving an attempt is let in if and only if no exclusive operation is under way and, unless it is a validation, no validation either |
| `Guard.ValidationsInParallel` | plexams/guard.go:13-34 | without an exclusive operation a further validation joins those already running |
| `Guard.ExclusiveRunsAlone` | graph/exclusive_op.go:29-47 | an exclusive holder is the only holder |
| `Guard.SyncAttempts` | plexams/autosync.go:199-214 | in every interleaving a sync that is done trying made exactly the attempts of that bounded retry on the states the guard was in at them |
| `Guard.BoundedAttempts` | plexams/autosync.go:123-131 | every client stays within its attempts, six for the scheduled sync and one otherwise |
| `TodosCache.TodosCollection.CacheInvigilatorTodos` | db/invigilator.go:49-71 | one critical section drops and inserts, with the state each failure leaves |
| `TodosCache.EveryRunConsistent` | db/invigilator.go:49-71 | for any number of callers and initial duplicates there is at most one document after the first drop, and exactly the last successful section's document while the lock is free |
| `TodosCache.ReaderSeesLast` | db/invigilator.go:73-101 | an unlocked reader between successful sections sees the last one's todos |
| `TodosCache.UnlockedLeavesDuplicates` | db/invigilator.go:49-71 | without the lock two successful callers can leave two documents |
| `SameSlotConstraints.ConstraintsCollection.AddConstraints` | plexams/constraints.go:80-206 | the edit stores every field of the record as entered and accepted, rewrites exactly the partner lists of the exam, its new and its dropped partners, and keeps all other exams' settings |
| `SameSlotConstraints.StoredStable` | plexams/constraints.go:80-206 | sending the stored settings again stores the same |
| `SameSlotConstraints.EnteredIsStored` | plexams/constraints.go:80-206 | any settings without empty texts and non-positive numbers, sent field by field, are stored as they are if and only if the exam is mine or nothing but what concerns others was sent |
| `SameSlotConstraints.RoomWishesExact` | plexams/constraints.go:108-153 | for an exam of mine a Jira link, a limit of students and a comment are stored unless none of the fields that bring room constraints about is sent along |
| `SameSlotConstraints.ConstraintsCollection.AddAncodeToSameSlotConstraints` | plexams/constraints.go:208-234 | a member's list becomes the sorted group without itself, its settings stay |
| `SameSlotConstraints.EditKeepsCliquesExact` | plexams/constraints.go:165-202 | the stored lists stay groups if and only if the exam is not listed with itself and every new partner brings its whole group along |
| `SameSlotConstraints.GroupsAfterEdit` | plexams/constraints.go:165-247 | the exam and its partners form one group, dropped partners are free, all other groups are unchanged |
| `SameSlotConstraints.HandoverExact` | plexams/constraints.go:101-103 | marking an exam as not planned by me keeps the lists groups if and only if it had no partners |
| `SameSlotConstraints.RemovalExact` | plexams/constraints.go:249-251 | deleting an exam's constraints is safe if and only if it had no partners |
| `SameSlotConstraints.HistoryKeepsCliques` | plexams/constraints.go:80-251 | over any history of edits and removals the lists are groups throughout if and only if every change passed the stated check |
| `SameSlotConstraints.ConnectedIsGroup` | plexams/exam_conflict.go:109-142 | on stored groups, connectivity is direct membership |
| `ProgramResolver.NewProgramResolver` | db/zpa_exams.go:329-353 | the look-up lists exactly the programs of each ZPA code |
| `ProgramResolver.DecidedExact` | db/zpa_exams.go:389-410 | a code becomes the name of the program that decides it, the only realized candidate or, without any, the only candidate of a code that is no program itself, and otherwise stays as it is |
| `ProgramResolver.ResolvedIsFixed` | db/zpa_exams.go:389-410 | without internal names that are codes of other programs every resolved name resolves to itself |
| `ProgramResolver.ResolvedIsFixedExact` | db/zpa_exams.go:389-410 | a resolved name resolves to itself if and only if no program of another name decides it as a code |
| `ProgramResolver.ForeignCodeMoves` | db/zpa_exams.go:389-410 | with such a foreign code resolving twice moves on to another program |
| `ProgramResolver.ZpaExam.CleanupPrimussAncodes` | db/zpa_exams.go:425-458 | one entry per group program in name order, holding the last delivered ancode filed under it or -1 |
| `Names.LessExact` | db/zpa_exams.go:445-446 | in name order the first character that differs decides, and a beginning comes before the whole |
| `ProgramResolver.ZpaExam.AddAddedAncodes` | db/zpa_exams.go:460-497 | added entries override by program, the result is in name order |
| `ProgramResolver.TwiceExact` | db/zpa_exams.go:246-258 | for every resolver, exam and added list a second normalisation changes nothing if and only if each group program without an added entry keeps its ancode: nothing is filed under it and it had none, or the last program filed under it carries the same |
| `ProgramResolver.TwiceIsOnce` | db/zpa_exams.go:246-258 | on regular inputs the second normalisation changes nothing |
| `ProgramResolver.MovedNameLoses` | db/zpa_exams.go:425-458 | a group program whose name resolves on loses its delivered ancode on the second read |
| `ProgramResolver.ForeignCodeLoses` | db/zpa_exams.go:425-458 | two programs and a group for which the delivered ancode 10 reads as -1 the second time |
| `ProgramResolver.AddedCodeReplaces` | db/zpa_exams.go:425-497 | a program added under a code of the group program that sorts behind it puts its own ancode in place of the delivered one |
| `ProgramResolver.AddedRawCodeOverrules` | db/zpa_exams.go:425-497 | a concrete exam whose delivered ancode 10 becomes 99 on the second read, by an entry added under the raw ZPA code |
| `ProgramResolver.GetZpaExams` | db/zpa_exams.go:15-70 | every document is read once with its normalised ancodes, in order |
| `ProgramResolver.GetZpaExamsPlannedOrNot` | db/zpa_exams.go:222-266 | the selected exams of a full read, each normalised once more |
| `ProgramResolver.PlannedIsFilteredExact` | db/zpa_exams.go:222-266 | the planned-or-not read is the full read filtered by ancode if and only if the second normalisation leaves every selected document its ancodes |
| `ProgramResolver.PlannedIsFiltered` | db/zpa_exams.go:222-266 | on regular inputs it always is |
| `ConflictAggregation.PrimussAncodesToZpaAncodes` | plexams/assembledExams.go:374-389 | an identity maps to the last exam connected to it |
| `ConflictAggregation.LastOwns` | plexams/assembledExams.go:374-389 | the last exam with an identity is the one it maps to |
| `ConflictAggregation.AssembleConflicts` | plexams/assembledExams.go:140-186 | the conflict list is ascending and holds, per mapped exam, the exact sum of the Primuss counts without Primuss self conflicts |
| `ConflictAggregation.PhaseOneSymmetric` | plexams/assembledExams.go:140-186 | the count of two exams is the sum over their Primuss exams of one program, and equal in both lists if Primuss counts both ways alike |
| `ConflictAggregation.ListedExact` | plexams/assembledExams.go:140-186 | phase one lists an exam if and only if a Primuss exam has a conflict with one of its Primuss exams in the same program |
| `ConflictAggregation.SelfConflictExact` | plexams/assembledExams.go:140-312 | after both phases an exam is in its own list if and only if a Primuss exam of its own or of a same-slot partner conflicts with another one of its Primuss exams |
| `ConflictAggregation.MembersAlike` | plexams/assembledExams.go:235-312 | all members of a same-slot group end with the same list |
| `ConflictAggregation.MergeSameSlot` | plexams/assembledExams.go:235-312 | phase two gives own count plus the phase-one counts of each same-slot partner, in ascending order, for every exam |
| `ConflictAggregation.OrderIndependent` | plexams/assembledExams.go:235-312 | the processing order of the exams does not show in any result |
| `DatasetRestore.Database.DatasetDump` | plexams/dump.go:266-317 | the dump holds the dataset's collections, for external exams with exactly the plan entries of their ancodes |
| `DatasetRestore.Database.RestoreDataset` | plexams/dump.go:323-404 | a file is accepted exactly if it fits the dataset, otherwise nothing changes, and an accepted file has the stated whole effect |
| `DatasetRestore.BareFileExact` | plexams/dump.go:337-350 | a file with a bare document list, as a semester archive holds it, restores exactly the datasets of one collection, that collection and nothing else |
| `DatasetRestore.AcceptedExact` | plexams/dump.go:323-365 | the guard passes exactly the external files that hold one of the two collections, and a file must name its own dataset or none |
| `DatasetRestore.OwnDumpIsIdentity` | plexams/dump.go:266-404 | restoring a database's own dump changes only the order of plan entries |
| `DatasetRestore.DumpAfterRestore` | plexams/dump.go:266-404 | after a restore the target's dump is the source's dump |
| `DatasetRestore.PlanEntriesExact` | plexams/dump.go:366-386 | every plan entry outside the cleared ancodes stays as often as it was, and no stale one survives |
| `DatasetRestore.TwiceIsOnceExact` | plexams/dump.go:359-386 | restoring a file twice equals restoring it once if and only if all its plan entries carry an ancode |
| `DatasetRestore.PartialFileWipes` | plexams/dump.go:359-386 | a file without the external exams leaves the stored ones alone if and only if there are none, one without their times leaves the plan alone if and only if no stored entry belongs to an external exam stored or sent |
| `DatasetRestore.LossyFiles` | plexams/dump.go:359-386 | a stored exam lost to a file with its time alone, a stored time lost to a file with its exam alone |
| `SemesterDump.RestoreSemesterDump` | plexams/dump.go:135-191 | the restore refuses exactly the databases with planning data and otherwise writes what the archive holds |
| `SemesterDump.TravelsExact` | plexams/dump.go:135-191 | a collection is restored from its file if and only if its name is not empty, hidden, a system folder's, the manifest's or semester_meta |
| `SemesterDump.LastFileCounts` | plexams/dump.go:135-191 | of several files for a collection the last one is what the restore leaves |
| `SemesterDump.PlanArrives` | plexams/dump.go:76-191 | the plan entries of the source arrive in the empty workspace |
| `SemesterDump.SemesterRoundTrip` | plexams/dump.go:76-191 | a restored empty workspace holds the source's planning collections and its own semester_meta |
| `SemesterDump.BookkeepingKeptExact` | plexams/dump.go:30-39 | another bookkeeping collection keeps its content if and only if the source has none of that name or the same content |
| `ConflictReport.ProximitySymmetric` | plexams/conflictcalc/conflictcalc.go:63-84 | the rank of two exams does not depend on their order |
| `ConflictReport.RankThresholds` | plexams/conflictcalc/conflictcalc.go:63-98 | the ranks, each including the worse ones: too little time between the exams, one day and too soon, one day, 12 up to 36 hours |
| `ConflictReport.LaterExact` | plexams/conflictcalc/conflictcalc.go:63-98 | starting the second exam later never worsens the rank, except from another day within twelve hours to about a day later |
| `ConflictReport.OverlapIffUncomfortable` | plexams/exam_conflict.go:310-339 | the report calls a pair an overlap exactly when the time the solver's separations reserve is missing |
| `ConflictReport.ConflictsFromSlots` | plexams/exam_conflict.go:307-342 | the nested loops compute the specified aggregation for every list of students, repeated registrations included |
| `ConflictReport.ReportPairExact` | plexams/exam_conflict.go:307-342 | a pair is reported if and only if some student sits both close together; each counts as often as the registrations hold the pair, and the rank is the worst of theirs |
| `ConflictReport.ReportedExact` | plexams/exam_conflict.go:307-342 | a pair is reported if and only if some student sits both and lacks the time between them or has both on one day |
| `ConflictReport.CountedOnce` | plexams/exam_conflict.go:307-342 | a student without repeated registrations counts once for each pair of their own exams |
| `ConflictReport.CountsConserved` | plexams/exam_conflict.go:307-342 | the counts of all pairs add up to the student and close-pair incidences |
| `ConflictReport.ListReport` | plexams/exam_conflict.go:372-416 | every reported pair stands on exactly one line, worst first |
| `ConflictReport.WorstFirst` | plexams/exam_conflict.go:406-415 | down the list ranks never rise, at equal rank the students never get more, at equal numbers the first ancodes never smaller |
| `CsvCells.IntsRoundTripExact` | plexams/csv_export.go:131-161 | a list of integers survives printing and parsing if and only if all fit in 64 bits |
| `CsvCells.DecimalNotation` | plexams/csv_export.go:131-139 | numbers are printed in decimal notation without leading zeros |
| `CsvCells.SignsRead` | plexams/csv_export.go:142-161 | digits are read as they are, a plus sign changes nothing and a minus sign negates |
| `CsvCells.LeadingZero` | plexams/csv_export.go:142-161 | leading zeros do not change what is read |
| `CsvCells.IntsStable` | plexams/csv_export.go:131-161 | parsing, printing and parsing again is parsing once |
| `CsvCells.ParseCell` | plexams/csv_export.go:142-161 | the loop reads the non-blank trimmed parts in order and fails as a whole on an unreadable one |
| `CsvCells.StringsRoundTripExact` | plexams/csv_export.go:163-180 | a list of strings survives if and only if every string is trimmed, not empty and free of the separator |
| `CsvCells.StringsStable` | plexams/csv_export.go:163-180 | parsing, printing and parsing again is parsing once |
| `CsvCells.EntriesRoundTripExact` | plexams/csv_export.go:489-523 | a list of (program, ancode) survives if and only if every program is trimmed and holds neither separator, and the ancodes fit in 64 bits |
| `CsvCells.EntriesStable` | plexams/csv_export.go:489-523 | parsing, printing and parsing again is parsing once |
| `InvigilationPositions.SweepSlots` | plexams/invigilation_generate.go:425-522 | with distinct starts the positions are complete and both index maps are inverse to them |
| `InvigilationPositions.OnePositionPerKey` | plexams/invigilation_generate.go:491-522 | exactly one position per start and planned room name and one reserve per slot with rooms, each with the stated content |
| `InvigilationPositions.BlockIsMaximum` | plexams/invigilation_generate.go:467-489 | a room's block is the longest of its durations |
| `InvigilationPositions.SlotMaximum` | plexams/invigilation_generate.go:467-522 | a reserve's block is the longest duration of its slot, no shorter than any room's block |
| `InvigilationPositions.MinutesCounted` | plexams/invigilation_generate.go:491-522 | a reserve counts an hour, a self-invigilation nothing, any other room its block, and a room is NTA if one of its entries is |
| `InvigilationPositions.ApplyPrePlanned` | plexams/invigilation_generate.go:525-551 | fixed is the self-invigilations overridden by the last pre-planning, and a pre-planning without position is refused |
| `InvigilationPositions.LastPrePlanned` | plexams/invigilation_generate.go:525-551 | the last pre-planning of a position decides, over a self-invigilation too |
| `InvigilationPositions.WriteBackExact` | plexams/invigilation_generate.go:76-107 | the written plan holds every assigned position that is not a self-invigilation once, under its own key, with its assigned invigilator, its block as duration and the pre-planned flag exactly for fixed positions, and nothing else |
| `InvigilationPositions.PrePlannedWrittenExact` | plexams/invigilation_generate.go:76-107 | a respected pre-planning is written if and only if its position is not a self-invigilation |
| `SlotTimes.ComputeSlotTimeSpec` | plexams/examplan_time.go:119-194 | SOFT charges window plus gradient and HARD only the gradient for every slot, and HARD forbids exactly the slots with hours outside the window |
| `SlotTimes.SummerHour` | plexams/examplan_time.go:119-194 | in summer a slot an hour later costs the gradient weight more per seat, and under SOFT outside the window the window weight as well |
| `SlotTimes.WinterHour` | plexams/examplan_time.go:119-194 | in winter a slot an hour earlier outside the window costs the window weight more under SOFT, and HARD charges nothing |
| `SlotTimes.EarliestIsFirst` | plexams/examplan_time.go:123-130 | the gradient counts from the earliest start of all slots |
| `SlotTimes.SoftVersusHard` | plexams/examplan_time.go:119-194 | SOFT never charges a plan less than HARD, and exactly the plans with no non-exempt seats outside the window cost the same |
| `SlotTimes.HardDomainExact` | plexams/examplan_build.go:755-786 | under HARD a movable non-exempt unit keeps exactly its slots that start inside the semester's window |

## Left out

- MongoDB, HTTP, GraphQL, mail, the ZPA and Anny clients, PDF/ICS/ZIP encoding, logging and progress output: calls that succeed; documents are values.
- Machine integers: counts, times and ancodes are unbounded, except where a cell is parsed (64 bits).
- Floating point: weights, penalties and costs are exact reals; rounding is not modelled.
- Sub-minute slot starts: schedule and conflict report work in whole minutes.
- Time zones and calendars: the calendar day of an instant is a parameter, and so is the exponential of the continuous closeness.
- The heuristics behind random moves, temperature, and the choice of unit and slot in the greedy fill (`plexams/examplan/solve.go:105-232`): any choice is covered, so their quality is not judged.
- `plexams/examplan/diagnostics.go` and the violation messages of the registry; the report's student-clash check also counts pairs of two fixed exams, which no schedule decides.
- Allowed-slot computation per exam (`allowedSlotsFor`), attract pairs, and the weights of student pairs from conflict ratings and repeats: inputs of the problem; the students' order in it is immaterial to every statement.
- The order of slots that start at the same time: the day groups sort them stably, which the source leaves open.
- Invigilation optimizer and room planner: another instance of the same annealing loop; a plan that respects the fixed positions is assumed where stated.
- `PrimussAncodes` inside aggregated conflicts: Go's append may share backing arrays, so only the counts are modelled.
- A write already running when a validation starts: the guard is asked at admission only, so nothing is claimed about later overlap.
- The deferred release of the guard clients is a step of its own that may come at any later time; a crashed process is not modelled.
- Documents with a fractional ancode, duplicate document ids and failing bulk inserts of a restore.
- Strings are sequences of characters compared by code point; Go slices study-group names by byte, which differs for non-ASCII names only.
- Whole CSV rows, dates in cells, dirty flags, roles, admin overview and the module-similarity heuristics would add only easy members.
- HardSeparation.SolverAgreesWithReport: for non-negative durations and units of one exam, as the report knows no merged units.
- ExamPlanRuns.Solve: freedom from clashes is not stated exactly for the one schedule returned, since a later swap can undo an earlier clash; RunsSafeExact states it exactly for all runs of a problem.
