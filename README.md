# PERT/CPM scheduling engine in Dafny

This project models the scheduling engine of a small PERT/CPM tool (class
`PERT` in `sourcecode_PERT/pert.h` and `sourcecode_PERT/pert.c++`). A project
is a set of activities. Each activity has a non-empty id, a non-negative
duration and the ids of its predecessors. `calculate` runs these stages:

1. it builds the successor lists;
2. it orders the activities topologically with Kahn's algorithm and rejects
   a cycle;
3. the forward pass computes the earliest start and finish (ES/EF) and the
   project duration;
4. the backward pass computes the latest finish and start (LF/LS);
5. it computes the slack (LS − ES);
6. it derives the first chain of zero-slack activities as the critical path.

The engine object becomes the class `PertEngine.Pert`. Its fields are the
activity map, the topological order cache, the project duration and the
critical-path cache. Each stage is a method that updates those fields. The
loops of each stage are methods with loop invariants. Each is proved against
a specification function or predicate:

- `Graph.SuccessorsFrom` and `Graph.Linked` for the graph;
- `Graph.IsSuccessorOrder`, `Graph.IsTopoOrder` and the Kahn invariant
  `Graph.Kahn` for the sort;
- `Times.MaxFinish`, `Times.MinStart`, `Times.EarlyTimes` and
  `Times.LateTimes` for the two passes;
- `Times.NextOnPath` and `Times.IsCriticalWalk` for the critical path.

Module `Theorems` proves what the schedule means: slack is never negative,
and every activity satisfies 0 ≤ ES ≤ EF ≤ LF ≤ project duration. It also
proves that a successful calculation always yields a critical path. That
path starts at an activity with no predecessors and ES 0, and it moves only
along successor edges with EF = ES and zero slack. It ends at an activity
with no successors whose EF is the project duration, and its durations add
up to the project duration.

Modules:

- `Ids`: the ordering of ids (`std::map` iterates its keys in ascending
  lexicographic order), sorted insertion, distinctness.
- `Activities`: the activity record and the registry (the map from id to
  activity).
- `Graph`: successor lists, linked graphs, topological orders, in-degrees
  and the Kahn invariant.
- `Times`: forward and backward pass equations, slack, the critical walk.
- `Theorems`: properties of a completed schedule.
- `PertEngine`: the class `Pert` and the loops of each stage.

Times are real numbers. The `std::map` of activities is modelled as a Dafny
`map` plus the sequence of its keys in ascending order. The model iterates
that sequence wherever the source iterates the map, so successor lists are
built in the order the source builds them. The Kahn queue is a sequence used
first-in first-out.

## Model

| member | source | states |
|---|---|---|
| PertEngine.Pert.constructor | sourcecode_PERT/pert.h:56-60 | A new engine has no activities, an empty order and critical path, and duration 0. |
| PertEngine.Pert.AddActivity | sourcecode_PERT/pert.c++:9-26 | Succeeds iff the id is non-empty, the duration is non-negative and the id is new. On success it adds exactly that activity with no successors and zero times, and clears the caches. On failure nothing changes. |
| PertEngine.Pert.Clear | sourcecode_PERT/pert.c++:28-34 | Afterwards there are no activities, the caches are empty and the duration is 0. |
| PertEngine.Pert.Find | sourcecode_PERT/pert.c++:36-40 | Returns the stored activity exactly when the id is present, and nothing otherwise. |
| PertEngine.Pert.GetProjectDuration | sourcecode_PERT/pert.h:48 | Returns the stored project duration. |
| PertEngine.Pert.GetCriticalPath | sourcecode_PERT/pert.c++:278-283 | Returns nothing iff the cached critical path is empty, and the path otherwise. |
| PertEngine.Pert.ClearSuccessors | sourcecode_PERT/pert.c++:45-46 | Empties every successor list and leaves every declaration and time as it was. |
| PertEngine.Pert.BuildGraph | sourcecode_PERT/pert.c++:43-61 | Succeeds iff every declared predecessor exists. On success each successor list holds, in key order, every activity that names it as a predecessor. On failure the lists are exactly those built before the first missing predecessor. Only successor lists change. |
| PertEngine.Pert.TopoSort | sourcecode_PERT/pert.c++:65-121 | On success the order holds every activity once and puts each activity after every activity that lists it as a successor. On failure the order is empty and no such order exists. |
| PertEngine.Pert.ForwardPass | sourcecode_PERT/pert.c++:124-138 | Every activity gets ES = the largest EF of its predecessors (0 if none) and EF = ES + duration. The project duration is the largest EF. Only ES and EF change. |
| PertEngine.ForwardTimes | sourcecode_PERT/pert.c++:126-136 | The forward loop over the topological order establishes the ES/EF equations for every activity and returns the largest EF. |
| PertEngine.Pert.BackwardPass | sourcecode_PERT/pert.c++:141-160 | Every activity gets LF = the project duration if it has no successors, else the smallest LS among its successors, and LS = LF − duration. Only LF and LS change. |
| PertEngine.BackwardTimes | sourcecode_PERT/pert.c++:143-158 | The reverse loop over the order establishes the LF/LS equations for every activity. |
| PertEngine.Pert.CalculateSlack | sourcecode_PERT/pert.c++:163-171 | Every activity's slack becomes LS − ES, and nothing else changes. |
| PertEngine.SlackTimes | sourcecode_PERT/pert.c++:165-170 | The loop over all keys sets slack = LS − ES for each activity and changes nothing else. |
| PertEngine.Pert.DeriveCriticalPath | sourcecode_PERT/pert.c++:174-206 | If no activity in the order is a start, the path is empty. Otherwise it begins at the first start activity in topological order (no predecessors, zero slack). It follows the first tight successor (zero slack, EF of the current = ES of the successor) and stops where there is none. |
| PertEngine.FindStart | sourcecode_PERT/pert.c++:177-180 | Returns the position of the first activity in the order with no predecessors and zero slack, or the length of the order if there is none. |
| PertEngine.TightSuccessor | sourcecode_PERT/pert.c++:186-197 | Returns the first successor with zero slack whose ES equals the current EF, or the empty id iff there is none. |
| PertEngine.Walk | sourcecode_PERT/pert.c++:182-202 | The walk from a start activity yields a chain in which each activity is the tight successor of the one before it. It ends at an activity with no tight successor, so the loop always terminates. |
| PertEngine.Pert.Calculate | sourcecode_PERT/pert.c++:209-234 | Succeeds iff there is an activity, every predecessor exists and the dependency graph has no cycle. On success the state is a complete schedule, with the declarations unchanged and the critical path non-empty and summing to the project duration. Whenever every predecessor exists, each successor list ends as the key-order list the graph build produces, whether or not the sort then succeeds. After a missing predecessor the lists are exactly those built before it. On failure nothing but successor lists changes. After a missing predecessor the order is left as it was. After a cycle it is empty. |
| PertEngine.Pert.SortAndSchedule | sourcecode_PERT/pert.c++:222-233 | After the graph is built, sorting succeeds iff the declared graph is acyclic. Then the remaining stages produce a complete schedule and leave every successor list as it was. A failed sort empties the order and changes nothing else. |
| PertEngine.Pert.Schedule | sourcecode_PERT/pert.c++:227-232 | Forward pass, backward pass, slack and critical path together satisfy every schedule equation and the critical-walk definition. They keep every declaration and every successor list as it was. |
| PertEngine.InDegrees | sourcecode_PERT/pert.c++:67-81 | The in-degree of each activity is the number of times it occurs in successor lists. |
| PertEngine.CountEntries | sourcecode_PERT/pert.c++:77-80 | Adds to each in-degree the number of times the id occurs in one successor list. |
| PertEngine.Frontier | sourcecode_PERT/pert.c++:84-91 | The initial queue holds, once each, exactly the activities with in-degree 0, in ascending key order when the keys are sorted. |
| PertEngine.Drain | sourcecode_PERT/pert.c++:95-110 | Running the queue to empty keeps the Kahn invariant. |
| PertEngine.Release | sourcecode_PERT/pert.c++:102-109 | Decrementing the successors of a popped activity keeps the Kahn invariant and enqueues those that reach in-degree 0. |
| PertEngine.LatestFinishAmong | sourcecode_PERT/pert.c++:130-132 | Returns the largest EF among the predecessors, or 0 for none. |
| PertEngine.EarliestStartAmong | sourcecode_PERT/pert.c++:152-155 | Returns the smallest LS among a non-empty list of successors. |
| PertEngine.RegisteredKept | sourcecode_PERT/pert.c++:13-21 | Changing only successors and times keeps the registry invariant: sorted keys, and each activity stored under its own non-empty id with a non-negative duration. |
| Ids.Insert | sourcecode_PERT/pert.h:57 | Inserting a new id into the sorted key sequence keeps it strictly sorted, adds exactly that id and grows the length by one. |
| Graph.BuiltGraphIsLinked | sourcecode_PERT/pert.c++:48-59 | When every predecessor exists, the built successor lists mirror the predecessor lists exactly, multiplicities included. |
| Graph.SuccessorsIgnored | sourcecode_PERT/pert.c++:45-46 | Rewriting successor lists changes no declaration and does not change whether all predecessors exist. |
| Graph.TopoOrdersAgree | sourcecode_PERT/pert.c++:99-107 | On a linked graph, "successors come later" and "predecessors come earlier" are the same condition on an order. |
| Graph.KahnDone | sourcecode_PERT/pert.c++:113-118 | When the queue is empty, a complete order is topological, and an incomplete one means that no topological order exists. |
| Graph.NoOrderWhenStuck | sourcecode_PERT/pert.c++:113-117 | If every unprocessed activity still has a pending predecessor, no topological order exists. |
| Graph.OrderFound | sourcecode_PERT/pert.c++:120 | A successor order found on the linked graph is a topological order of the declared graph, so it is acyclic. |
| Graph.NoOrderFound | sourcecode_PERT/pert.c++:115-117 | If the linked graph has no successor order, the declared graph has a cycle. |
| Times.ForwardStep | sourcecode_PERT/pert.c++:129-135 | Setting one activity's ES/EF in topological order extends the prefix on which the forward equations hold. |
| Times.BackwardStep | sourcecode_PERT/pert.c++:145-157 | Setting one activity's LF/LS in reverse order extends the suffix on which the backward equations hold. |
| Times.ScheduleComplete | sourcecode_PERT/pert.c++:227-231 | The three passes compose into a schedule that satisfies all equations with the declarations unchanged. |
| Times.StartIndex | sourcecode_PERT/pert.c++:177-181 | The index found is a start activity, and no earlier index is one. |
| Times.NextOnPath | sourcecode_PERT/pert.c++:188-197 | Returns nothing iff no successor is tight. Otherwise it returns a tight successor. |
| Theorems.MaxFinishAttained | sourcecode_PERT/pert.c++:135 | The project duration is the EF of some activity in the order. |
| Theorems.EarlyBounds | sourcecode_PERT/pert.c++:124-138 | In a complete schedule 0 ≤ ES ≤ EF ≤ project duration for every activity. |
| Theorems.LateBounds | sourcecode_PERT/pert.c++:141-160 | In a complete schedule EF ≤ LF ≤ project duration for every activity. |
| Theorems.SlackNonNegative | sourcecode_PERT/pert.h:23 | In a complete schedule no activity has negative slack. |
| Theorems.TightSuccessorExists | sourcecode_PERT/pert.c++:188-199 | A zero-slack activity has a tight successor iff it has any successor. |
| Theorems.StartExists | sourcecode_PERT/pert.c++:177-181 | In a complete, non-empty schedule some activity in the order has no predecessors and zero slack, so the critical path is never empty. |
| Theorems.CriticalPathSpansProject | sourcecode_PERT/pert.c++:174-206 | The critical path starts at an activity with no predecessors and ES 0. Each step goes to a successor with zero slack and EF = ES. It ends at an activity with no successors whose EF is the project duration, and its durations add up to the project duration. |

## Left out

- `printActivities` (pert.c++:237-275) and `main.c++` are console I/O and are not part of this model. The error strings and `std::cerr` messages of `buildGraph`, `topoSort` and `calculate` are dropped; only the boolean results are modelled.
- Floating point: times are reals, so rounding, overflow and the `-0.0` normalisation in `calculateSlack` (pert.c++:168-169) are not modelled. Equality tests on slack and EF/ES are therefore exact.
- PertEngine.Pert.AddActivity: the source accepts a NaN duration (`duration < 0.0f` is false for NaN, pert.c++:13) and an infinite one. A real cannot express either, so the model's `duration >= 0.0` accepts fewer durations than the source does.
- PertEngine.EarliestStartAmong: the `+infinity` start value of the backward minimum (pert.c++:152) is modelled as `None`. For a non-empty successor list, the only case the source reaches, it never survives.
- PertEngine.Pert.TopoSort: states that the order is topological and, on failure, that none exists. It does not state which of the many valid orders the first-in first-out queue produces.
- PertEngine.Pert.TopoSort: the order is built in a local sequence and stored at the end. The source appends to `topo_order` in place, and both leave the same final value.
- `std::map` is modelled as a map plus its sorted key sequence. The ordering is plain lexicographic order on characters, with no locale or byte-encoding detail.
- `forwardPass` and `backwardPass` always return true in the source. The model's methods return nothing, and `calculate`'s checks of their results are never false.
- `find` returns the address of the stored activity (or `nullptr`). The model returns a copy of the activity, so aliasing through that address is not modelled.
