# PERT scheduling core, modelled in Dafny

This project models the scheduling core of a PERT/CPM planning application.
The application has a Laravel back end and a React front end, and the model
covers four parts of it:

- **The engine.** `PertService::compute` reads a list of tasks, each with a
  name, a duration and a predecessor list. It orders them with Kahn's
  algorithm. If some task cannot be ordered, it throws the "cycle detected"
  error with the unsorted names. Otherwise it computes:
  - the earliest start and finish of every task (forward pass);
  - the project finish;
  - the latest start and finish of every task (backward pass);
  - total and free slack, and the critical tasks;
  - a Mermaid flowchart.

  The modules are `PertGraph`, `PertOrder`, `PertDates`, `PertSlack`,
  `ScheduleFacts` and `PertService`.
- **The JSON endpoint.** `PertApiController::calculate` validates and
  normalises the request, rejects a predecessor that names no task, and calls
  the engine. It then shapes the result into rows, the critical path, the
  critical edges and a diagram level per row (`calculateLevel`). The module is
  `PertApi`.
- **The form handler.** `PertController::generate` does three things before
  calling the engine:
  - It drops the nameless tasks and cleans the predecessor entries. An entry
    may hold several names separated by white space, commas or semicolons.
    Names are upper-cased, self-references dropped and repeats removed.
  - It rejects a missing or non-positive duration.
  - It rejects an unknown predecessor, naming the task that lists it.

  The module is `PertWeb`.
- **The browser's task list.** `TaskInput.addTask` and `TaskInput.removeTask`
  maintain the list the user edits. The module is `TaskInput`.

`Seqs`, `Text` and `Wrappers` hold the vocabulary the four parts share:
- duplicate-free sequences, `array_diff` and `array_unique`;
- PHP's and JavaScript's `trim`, `strtoupper`/`toUpperCase` and `split`;
- JavaScript's `parseInt`;
- `Option`.

`PhpKeys` models how PHP stores the task table's keys. It shows the defect
listed under Findings.

The engine's outcome is proved against independent definitions:
- The order is a topological order (`PertGraph.IsTopologicalOrder`).
- The engine succeeds exactly when one exists and no predecessor list repeats
  a name (`PertService.Schedulable`).
- The dates satisfy the forward and backward equations (`ScheduleFacts.Scheduled`).
- For a start of at least 0:
  - every task's window lies between the start and the project finish;
  - free slack lies between 0 and total slack;
  - some task is critical.

The two controllers are proved to return each of their error answers exactly
when the corresponding condition holds, and to return sound responses.

## Model

Paths are relative to the repository root. `PertService.php` is
`backend-pert/app/Services/PertService.php`, `PertApiController.php` is
`backend-pert/app/Http/Controllers/Api/PertApiController.php`,
`PertController.php` is `backend-pert/app/Http/Controllers/PertController.php`
and `TaskInput.tsx` is `frontend-pert/src/components/TaskInput.tsx`.

| member | source | states |
|---|---|---|
| PertGraph.Duration | backend-pert/app/Services/PertService.php:51 | the duration used is at least 1, and equals the task's own duration when that is at least 1 |
| PertGraph.Roots | backend-pert/app/Services/PertService.php:23-24 | a name is a root exactly when it is a key whose predecessor list is empty; roots are duplicate-free when the keys are |
| PertGraph.Successors | backend-pert/app/Services/PertService.php:81-84 | a name is a successor of `n` exactly when it is a key whose predecessor list holds `n` |
| PertGraph.PredecessorEarlier | backend-pert/app/Services/PertService.php:26-36 | in a topological order every predecessor of a task occurs strictly before it |
| PertService.Names | backend-pert/app/Services/PertService.php:11-12 | the table's names are the tasks' names, position by position |
| PertService.TableInfo | backend-pert/app/Services/PertService.php:10-16 | the table holds exactly the submitted names |
| PertService.LastWins | backend-pert/app/Services/PertService.php:12 | the entry stored under a name is the last task with that name |
| PertService.BuildTable | backend-pert/app/Services/PertService.php:10-16 | the loop builds exactly the table's keys (first occurrence order) and entries, and the keys are duplicate-free and match the entries |
| PertService.OrderedAllIff | backend-pert/app/Services/PertService.php:38-42 | Kahn's loop orders every task exactly when the table is schedulable, in which case the order is topological; otherwise the `array_diff` of line 40 is not empty |
| PertService.CycleReported | backend-pert/app/Services/PertService.php:38-41 | every task on a cycle of the predecessor relation is among the unsorted names the error reports |
| PertService.TwoCycleReported | backend-pert/app/Services/PertService.php:38-41 | two tasks that list each other are both reported |
| PertService.NodeLines | backend-pert/app/Services/PertService.php:140-142 | one node line per ordered task, in order |
| PertService.PredLines | backend-pert/app/Services/PertService.php:144-146 | one edge line per predecessor entry, in order |
| PertService.EdgeLines | backend-pert/app/Services/PertService.php:143-147 | as many edge lines as predecessor entries in the table |
| PertService.EdgeLinesExact | backend-pert/app/Services/PertService.php:143-147 | the edge lines are exactly the lines `p --> k` for `p` a predecessor entry of key `k` |
| PertService.MermaidShape | backend-pert/app/Services/PertService.php:138-151 | the flowchart is the header, the node lines, exactly the edge lines, the style line, and the class line only when some task is critical |
| PertService.MermaidText | backend-pert/app/Services/PertService.php:138-151 | the flowchart text is those lines each followed by a line break |
| PertService.AppendNodes | backend-pert/app/Services/PertService.php:140-142 | the loop appends the node lines to the text |
| PertService.AppendPreds | backend-pert/app/Services/PertService.php:144-146 | the inner loop appends one task's edge lines |
| PertService.AppendEdges | backend-pert/app/Services/PertService.php:143-147 | the outer loop appends all edge lines |
| PertService.Mermaid | backend-pert/app/Services/PertService.php:138-151 | the text built step by step is the flowchart of `MermaidLines` |
| PertService.Compute | backend-pert/app/Services/PertService.php:7-164 | it returns a schedule exactly when the table is schedulable, else the cycle error with exactly the unsorted keys, which are not empty; a schedule's order is topological and its dates, slacks, critical list and flowchart obey the pass equations; with `t0 >= 0` every window lies in `[t0, duration]`, free slack lies in `[0, slack]` and some task is critical |
| PertOrder.HitsBound | backend-pert/app/Services/PertService.php:30-33 | a task's in-degree is decremented at most once per predecessor entry |
| PertOrder.HitsComplete | backend-pert/app/Services/PertService.php:30-33 | the in-degree reaches 0 exactly when the predecessor list has no repeat and all its entries have been dequeued |
| PertOrder.InDegrees | backend-pert/app/Services/PertService.php:19-22 | every key's in-degree is the length of its predecessor list |
| PertOrder.SeedQueue | backend-pert/app/Services/PertService.php:23-24 | the queue starts with exactly the roots, in key order |
| PertOrder.Release | backend-pert/app/Services/PertService.php:28-35 | dequeuing a task keeps the Kahn invariant, and the queue only grows at its end |
| PertOrder.ReleaseScan | backend-pert/app/Services/PertService.php:30-35 | the scan over the table decrements each successor once and enqueues those reaching 0 |
| PertOrder.TopologicalOrder | backend-pert/app/Services/PertService.php:18-36 | the order is duplicate-free, holds only keys, puts every task after its predecessors and contains the roots; a key is ordered exactly when its predecessor list has no repeat and names ordered tasks only |
| PertOrder.KahnDone | backend-pert/app/Services/PertService.php:27-36 | when the queue is empty, a key is ordered exactly when its predecessors are all ordered and not repeated |
| PertOrder.OrderComplete | backend-pert/app/Services/PertService.php:39 | if a topological order exists and no list repeats a name, the loop orders every task |
| PertOrder.CycleNeverOrdered | backend-pert/app/Services/PertService.php:27-36 | no task on a cycle is ever ordered |
| PertDates.LatestFinish | backend-pert/app/Services/PertService.php:57-62 | the maximum of the base and the finishes of the predecessors already dated |
| PertDates.StartOf | backend-pert/app/Services/PertService.php:51-64 | a task's start is `t0` without predecessors, else one after the latest predecessor finish |
| PertDates.ForwardPass | backend-pert/app/Services/PertService.php:46-66 | every ordered task gets dates obeying the forward equations, starts at `t0` or later, finishes no earlier than it starts, and starts after each predecessor finishes |
| PertDates.ForwardDone | backend-pert/app/Services/PertService.php:46-66 | the loop invariant at the end gives the forward-pass guarantees |
| PertDates.ProjectFinish | backend-pert/app/Services/PertService.php:68-74 | the finish is at least `t0`, at least every positive earliest finish, and is `t0` or one of them |
| PertDates.EarliestOf | backend-pert/app/Services/PertService.php:94-102 | the minimum of the dated successors' values, or none when none is dated |
| PertDates.SuccessorList | backend-pert/app/Services/PertService.php:81-84 | the scan collects exactly the successors |
| PertDates.FinishOf | backend-pert/app/Services/PertService.php:89-103 | a task's latest finish is the project finish without successors, else one before the earliest latest start of its successors |
| PertDates.BackwardVisit | backend-pert/app/Services/PertService.php:79-105 | one step of the reversed loop keeps the backward equations for the suffix of the order |
| PertDates.BackwardPass | backend-pert/app/Services/PertService.php:77-106 | every ordered task gets latest dates obeying the backward equations |
| PertSlack.Critical | backend-pert/app/Services/PertService.php:135 | a task is critical exactly when it is ordered and its slack is 0 |
| PertSlack.FreeSlackScan | backend-pert/app/Services/PertService.php:119-134 | free slack is the project finish minus the earliest finish without dated successors, else the earliest successor start minus one minus it |
| PertSlack.SlackAnalysis | backend-pert/app/Services/PertService.php:108-136 | total slack, free slack and the critical list of every ordered task obey the slack equations |
| PertSlack.SlackDone | backend-pert/app/Services/PertService.php:112-136 | the loop invariant at the end gives the slack equations and the critical list |
| ScheduleFacts.SuccessorsStartLater | backend-pert/app/Services/PertService.php:63-103 | every successor starts after the task finishes, and its latest start is within the project finish |
| ScheduleFacts.ScheduleSound | backend-pert/app/Services/PertService.php:44-106 | for `t0 >= 0`, `t0 <= ES <= EF <= LF <= finish`, `LS - ES == LF - EF >= 0`, and some task spans to the finish with no slack |
| ScheduleFacts.FinishWindow | backend-pert/app/Services/PertService.php:77-106 | every task from position `i` on fits in its window |
| ScheduleFacts.FinishingTask | backend-pert/app/Services/PertService.php:68-74 | a task finishing at the project finish has its latest finish there and no slack |
| ScheduleFacts.FreeSlackAt | backend-pert/app/Services/PertService.php:119-134 | free slack is at least 0 and at most total slack |
| ScheduleFacts.SlackSound | backend-pert/app/Services/PertService.php:108-136 | for `t0 >= 0` every free slack lies in `[0, slack]` and the critical list is not empty |
| ScheduleFacts.NegativeStartBreaksSlack | backend-pert/app/Services/PertService.php:69-74 | with `t0 = -5` the equations hold yet both tasks have negative slack and none is critical |
| PertApi.NormalizeAll | backend-pert/app/Http/Controllers/Api/PertApiController.php:35-37 | every predecessor is trimmed and upper-cased, position by position |
| PertApi.KeepPredecessorsExact | backend-pert/app/Http/Controllers/Api/PertApiController.php:40-42 | the filter keeps exactly the entries that are neither the task itself nor empty |
| PertApi.PrepareTaskFacts | backend-pert/app/Http/Controllers/Api/PertApiController.php:31-48 | the prepared name is the normalised id, the duration is at least 1, and no predecessor is the task or empty |
| PertApi.Prepared | backend-pert/app/Http/Controllers/Api/PertApiController.php:30-49 | one prepared task per submitted task, in order |
| PertApi.Prepare | backend-pert/app/Http/Controllers/Api/PertApiController.php:27-49 | the loop prepares every task and collects the valid names |
| PertApi.MissingIn | backend-pert/app/Http/Controllers/Api/PertApiController.php:53-58 | nothing is reported exactly when every entry is a name; a reported entry is in the list and not a name |
| PertApi.FirstUnknownExact | backend-pert/app/Http/Controllers/Api/PertApiController.php:52-60 | nothing is reported exactly when every predecessor names a task; otherwise the first unknown one in task and entry order |
| PertApi.CheckPredecessors | backend-pert/app/Http/Controllers/Api/PertApiController.php:52-60 | the nested loop reports that same first unknown predecessor |
| PertApi.FirstEntryFirst | backend-pert/app/Http/Controllers/Api/PertApiController.php:72-73 | `array_search` finds the first task with the name |
| PertApi.FirstEntryIsTableEntry | backend-pert/app/Http/Controllers/Api/PertApiController.php:72-73 | with unique names it is the engine's entry for the name |
| PertApi.MaxLevelBounds | backend-pert/app/Http/Controllers/Api/PertApiController.php:272-276 | the maximum is defined exactly when every predecessor's level is, and bounds each |
| PertApi.LevelAbovePredecessors | backend-pert/app/Http/Controllers/Api/PertApiController.php:258-279 | level 0 exactly for an unknown task or one without predecessors; otherwise above every predecessor's level |
| PertApi.LevelMoreFuel | backend-pert/app/Http/Controllers/Api/PertApiController.php:258-279 | a defined level does not depend on the recursion bound |
| PertApi.LevelTwoCycle | backend-pert/app/Http/Controllers/Api/PertApiController.php:273-274 | two tasks that list each other recurse without end |
| PertApi.LevelDefined | backend-pert/app/Http/Controllers/Api/PertApiController.php:258-279 | the level of every task of an order in which first entries list only earlier names is defined |
| PertApi.BuildRows | backend-pert/app/Http/Controllers/Api/PertApiController.php:68-83 | one row per ordered name, in order, with its first entry's data, its dates, floats, criticality and level |
| PertApi.EdgesInto | backend-pert/app/Http/Controllers/Api/PertApiController.php:89-95 | the edges into a critical task are exactly those from its critical predecessors |
| PertApi.CriticalEdgesExact | backend-pert/app/Http/Controllers/Api/PertApiController.php:86-97 | an edge is listed exactly when both ends are critical and `from` is a predecessor of `to` |
| PertApi.CriticalEdgesGrouped | backend-pert/app/Http/Controllers/Api/PertApiController.php:87-97 | the edges come grouped by target in critical-path order |
| PertApi.CollectCriticalEdges | backend-pert/app/Http/Controllers/Api/PertApiController.php:86-97 | the nested loop collects exactly those edges |
| PertApi.ScheduleIsSound | backend-pert/app/Services/PertService.php:44-136 | a schedule for a start of at least 0 keeps every window, float and criticality guarantee |
| PertApi.RowsSound | backend-pert/app/Http/Controllers/Api/PertApiController.php:68-83 | the rows carry those guarantees |
| PertApi.RowLevels | backend-pert/app/Http/Controllers/Api/PertApiController.php:81 | with unique names every row has a level |
| PertApi.Respond | backend-pert/app/Http/Controllers/Api/PertApiController.php:62-104 | the engine's cycle error exactly when the table is not schedulable, listing the tasks Kahn's queue never reached; otherwise the response of the engine's schedule for the start date: that schedule is a topological order meeting the forward, finish and backward rules and the slack rule, with the zero-slack tasks as its critical path; the rows are that schedule's rows in its order, the project duration and critical path are its own, the critical edges are those between its critical tasks, and the response is sound |
| PertApi.Shape | backend-pert/app/Http/Controllers/Api/PertApiController.php:68-104 | one row per task of the engine's order, in that order, with that task's data; the project duration and critical path are the engine's; the critical edges are exactly those between critical tasks; and the response is sound and made of the schedule |
| PertApi.ResponseOfSchedule | backend-pert/app/Http/Controllers/Api/PertApiController.php:68-104 | rows built along a sound schedule make a response whose ids are a topological order, whose critical path is its critical rows and whose duration is a row's finish |
| PertApi.RowsOfSchedule | backend-pert/app/Http/Controllers/Api/PertApiController.php:68-83 | those rows' ids are the order, their critical ones are the critical tasks, and one of them finishes at the project finish |
| PertApi.RowOfSchedule | backend-pert/app/Http/Controllers/Api/PertApiController.php:70-82 | a task's row carries its name, its earliest finish, and is critical exactly when its total float is 0 |
| PertApi.RowsAlong | backend-pert/app/Http/Controllers/Api/PertApiController.php:68-83 | rows that follow an order id by id list its zero-slack tasks as their critical ones, and one finishes where a task does |
| PertApi.CriticalIdsMatch | backend-pert/app/Http/Controllers/Api/PertApiController.php:80 | the critical rows, in row order, are the zero-slack tasks of the order, in order |
| PertApi.Calculate | backend-pert/app/Http/Controllers/Api/PertApiController.php:13-126 | a validation error exactly when the request breaks the rules; then an unknown predecessor exactly when one exists (the first one); then the cycle error exactly when the table is not schedulable, listing the tasks Kahn's queue never reached; otherwise the response of the engine's specified schedule of the prepared tasks from the requested start (day 1 by default): rows, dates, floats, project duration, critical path and critical edges all taken from that schedule |
| PertWeb.KeepEntriesSound | backend-pert/app/Http/Controllers/PertController.php:34-41 | every kept predecessor entry is trimmed and not empty |
| PertWeb.KeepEntriesComplete | backend-pert/app/Http/Controllers/PertController.php:34-41 | every entry not empty after trimming is kept |
| PertWeb.KeptTasksSound | backend-pert/app/Http/Controllers/PertController.php:29-47 | every kept task comes from a submitted task whose trimmed name is not empty |
| PertWeb.KeptTasksComplete | backend-pert/app/Http/Controllers/PertController.php:29-47 | every such task is kept |
| PertWeb.FilterTasks | backend-pert/app/Http/Controllers/PertController.php:27-47 | the loop keeps exactly those tasks |
| PertWeb.NameNeverEmpty | backend-pert/app/Http/Controllers/PertController.php:69-70 | a kept name never normalises to an empty one |
| PertWeb.SplitNames | backend-pert/app/Http/Controllers/PertController.php:88-93 | no name taken from a split entry is empty or the task itself |
| PertWeb.EntryNames | backend-pert/app/Http/Controllers/PertController.php:81-100 | no name taken from one entry is empty or the task itself |
| PertWeb.GatherNames | backend-pert/app/Http/Controllers/PertController.php:79-101 | no gathered name is empty or the task itself |
| PertWeb.CleanNamesFacts | backend-pert/app/Http/Controllers/PertController.php:79-105 | the cleaned list has no repeats, holds exactly the gathered names in first-occurrence order, and never the task or an empty name |
| PertWeb.GatherNamesClean | backend-pert/app/Http/Controllers/PertController.php:86-99 | every gathered name is upper-cased and holds no separator |
| PertWeb.CleanMatchesApi | backend-pert/app/Http/Controllers/PertController.php:79-105 | for entries without separators the form cleans predecessors as the endpoint does, plus de-duplication |
| PertWeb.FirstBadDuration | backend-pert/app/Http/Controllers/PertController.php:110-113 | nothing exactly when every duration is given and positive; otherwise the first offending task's name |
| PertWeb.PreparedForm | backend-pert/app/Http/Controllers/PertController.php:68-125 | one prepared task per kept task, in order |
| PertWeb.PreparedFacts | backend-pert/app/Http/Controllers/PertController.php:69-124 | a prepared task has a non-empty upper-cased name, its duration, and a duplicate-free list of non-empty upper-cased names without itself |
| PertWeb.SplitEntry | backend-pert/app/Http/Controllers/PertController.php:88-93 | the loop appends the names of the pieces |
| PertWeb.CleanEntries | backend-pert/app/Http/Controllers/PertController.php:79-105 | the loop produces the cleaned list |
| PertWeb.PrepareTasks | backend-pert/app/Http/Controllers/PertController.php:66-125 | the loop stops at the first bad duration, else prepares every task |
| PertWeb.FirstDanglingExact | backend-pert/app/Http/Controllers/PertController.php:129-136 | the form reports the same unknown predecessor as the endpoint would, with a task that lists it |
| PertWeb.CheckPredecessors | backend-pert/app/Http/Controllers/PertController.php:129-136 | the nested loop reports that predecessor and its task |
| PertWeb.Generate | backend-pert/app/Http/Controllers/PertController.php:20-166 | a validation error exactly when the kept tasks break the rules; then a bad duration exactly when one exists (the first); then an unknown predecessor exactly when one exists; then the cycle error exactly when the table is not schedulable, listing the tasks Kahn's queue never reached; a shown schedule is sound, not empty, and is the engine's specified schedule of the prepared tasks: a topological order, the forward, finish and backward rules, the slack rule, the zero-slack tasks as critical ones, and the diagram text |
| PertWeb.ResultNotEmpty | backend-pert/app/Http/Controllers/PertController.php:152-154 | the empty-result test never fires for a non-empty table |
| Text.TrimInfix | backend-pert/app/Http/Controllers/PertController.php:30 | trimming keeps the infix between the outer space characters, which start and end with non-space |
| Text.TrimIdempotent | backend-pert/app/Http/Controllers/PertController.php:81 | trimming twice is trimming once |
| Text.Upper | backend-pert/app/Http/Controllers/Api/PertApiController.php:31 | upper-casing maps each character and keeps the length |
| Text.UpperNormal | backend-pert/app/Http/Controllers/Api/PertApiController.php:31 | an upper-cased name has no lower-case letter and upper-casing is idempotent |
| Text.UpperPhpEmpty | backend-pert/app/Http/Controllers/PertController.php:69-70 | upper-casing keeps a string empty in PHP's sense or not |
| Text.ListSplitPieces | backend-pert/app/Http/Controllers/PertController.php:87 | `preg_split` pieces hold no separator, and only the first and last can be empty |
| Text.ListSplitKeepsText | backend-pert/app/Http/Controllers/PertController.php:87 | the pieces laid end to end are the entry without its separators |
| Text.SplitJoin | frontend-pert/src/components/TaskInput.tsx:45-46 | joining the pieces of `split` with the separator gives back the text |
| Text.FieldsKeepText | frontend-pert/src/components/TaskInput.tsx:45-46 | the pieces laid end to end are the text without its separators |
| Text.ParseIntNaN | frontend-pert/src/components/TaskInput.tsx:39-40 | `parseInt` gives NaN exactly when no digit follows the leading space and sign (hex after `0x`), and a negative value only after a minus sign |
| Text.ParseDecimal | frontend-pert/src/components/TaskInput.tsx:39 | `parseInt` reads a decimal numeral back to its value, whatever non-digit follows |
| TaskInput.WellFormedSnoc | frontend-pert/src/components/TaskInput.tsx:57-63 | a task can be appended to a well-formed list exactly when its id is new and non-empty, its duration positive and its predecessors existing ids |
| TaskInput.AddTask | frontend-pert/src/components/TaskInput.tsx:26-67 | ignored exactly when the trimmed id or the duration field is empty; a duplicate id, an unparsable or non-positive duration and unknown predecessors (exactly those listed) are rejected; otherwise the list gains one task with the new id, the parsed duration and the cleaned predecessors |
| TaskInput.NewIdNonEmpty | frontend-pert/src/components/TaskInput.tsx:27-31 | upper-casing before trimming gives the trimmed id upper-cased, which is not empty once the first check passed |
| TaskInput.PredecessorListClean | frontend-pert/src/components/TaskInput.tsx:45-48 | every predecessor read from the field is non-empty, trimmed, upper-cased and comma-free |
| TaskInput.PredecessorListJoin | frontend-pert/src/components/TaskInput.tsx:45-48 | reading back a comma-joined list of clean names gives the list |
| TaskInput.EmptyField | frontend-pert/src/components/TaskInput.tsx:45-48 | an empty field gives no predecessor |
| TaskInput.AddedTask | frontend-pert/src/components/TaskInput.tsx:57-63 | the added task is appended once, with the cleaned id, the parsed positive duration, and clean existing predecessors that do not include itself |
| TaskInput.AddKeepsWellFormed | frontend-pert/src/components/TaskInput.tsx:26-67 | adding keeps the list well formed |
| TaskInput.Dependents | frontend-pert/src/components/TaskInput.tsx:71 | a task is a dependent exactly when its predecessor list holds the id |
| TaskInput.RemoveTask | frontend-pert/src/components/TaskInput.tsx:69-87 | with dependents and no confirmation the list is unchanged; otherwise the stripped list |
| TaskInput.StripIds | frontend-pert/src/components/TaskInput.tsx:79-80 | the ids after removal are the old ids without the removed one |
| TaskInput.StripOrigin | frontend-pert/src/components/TaskInput.tsx:79-84 | every remaining task is an old task with another id whose predecessor list no longer holds the removed id |
| TaskInput.StripKeepsWellFormed | frontend-pert/src/components/TaskInput.tsx:79-84 | removal keeps the list well formed |
| TaskInput.RemoveKeepsWellFormed | frontend-pert/src/components/TaskInput.tsx:69-87 | removing, confirmed or not, keeps the list well formed |
| TaskInput.RemoveAbsent | frontend-pert/src/components/TaskInput.tsx:69-87 | removing an id no task has changes nothing |
| TaskInput.AddThenRemove | frontend-pert/src/components/TaskInput.tsx:57-86 | removing the task just added needs no confirmation and gives back the old list |
| TaskInput.WellFormedSchedulable | frontend-pert/src/components/TaskInput.tsx:57-63 | a well-formed list whose predecessor lists have no repeat is schedulable by the engine |
| TaskInput.TableEntry | frontend-pert/src/components/TaskInput.tsx:57-63 | with unique ids the engine's entry for an id is that task |
| PhpKeys.ToKey | backend-pert/app/Services/PertService.php:12 | a name is stored under a string key exactly when it is not an integer numeral in PHP's sense |
| PhpKeys.AsWrittenDependents | backend-pert/app/Services/PertService.php:30-31 | the loop as written decrements exactly the keys whose list strictly contains the dequeued key |
| PhpKeys.IntegerNameReleasesNobody | backend-pert/app/Services/PertService.php:30-31 | dequeuing an integer-like name releases no task |
| PhpKeys.StringNameReleasesSuccessors | backend-pert/app/Services/PertService.php:30-31 | dequeuing any other name releases exactly its successors |
| PhpKeys.NeverReady | backend-pert/app/Services/PertService.php:30-33 | a task with an integer-like predecessor never reaches in-degree 0 |
| PhpKeys.AsWrittenExample | backend-pert/app/Services/PertService.php:12-41 | for tasks "1" and "2" after "1", the loop as written never releases "2" although "2" is the successor of "1" |
| PhpKeys.CorrectedExample | backend-pert/app/Services/PertService.php:12-41 | compared as strings, the same project is schedulable |

## Left out

- Durations are integers. PHP's float cast, `round()` and the three-point estimate of `Task::fromInput` are not part of this model. The form's three estimate fields are modelled only for validation, because the controller computes nothing from them. Task.php is not part of this model.
- The Laravel validation rules are reduced to what the model keeps: at least one task, no blank id (the endpoint), positive durations or estimates, a duration or all three estimates (the form), and a bound on `t0`. Type errors and the framework's messages become a single `ValidationFailed` answer. The `TrimStrings` middleware is not part of this model.
- Logging, the session, views, redirects, `saveProjectToFile` and the HTTP status codes are left out. The answers are datatype constructors.
- React state, the setters, `alert` and the rendering are left out. `window.confirm` becomes the `confirmed` parameter of `TaskInput.RemoveTask`.
- Upper-casing maps ASCII letters only. PHP's `strtoupper` does exactly that. JavaScript's `toUpperCase` also maps non-ASCII letters, which the model does not.
- Text.ParseIntNaN: JavaScript numbers lose precision above 2^53. The model reads every digit exactly.
- PertApi.BuildRows: `isCritical` uses PHP's loose `in_array`. The model compares strictly, and the two differ only for numeric strings written differently, such as "1" and "01".
- PertApi.CollectCriticalEdges: line 90 uses the same loose `in_array`, with the same difference.
- PertDates.FinishOf and PertSlack.FreeSlackScan: the `PHP_INT_MAX` sentinels become an `Option`.
- PertDates.ForwardPass, PertDates.BackwardPass and PertSlack.SlackAnalysis: the `isset` guards of lines 48, 85 and 113 never fail on a topological order, so they are not modelled as branches.
- PertApi.Level: the recursion of `calculateLevel` takes a fuel bound. A task on a cycle has no level (`None`), where PHP would recurse until the stack overflows. `calculateLevel` uses a task's first entry, while the engine keeps the last. The two agree when names are unique, which is what `PertApi.RowLevels` assumes.
- PertWeb.Generate: the `continue` at line 70 and the empty-set test at lines 139-141 cannot be reached (`PertWeb.NameNeverEmpty`, and `FormValid` requires one task). The empty-result test at lines 152-154 never fires (`PertWeb.ResultNotEmpty`). None of these is modelled as a branch. `$nameMap` is never read, so it is left out.
- Task names are compared as strings everywhere except in `PhpKeys`, which models PHP's integer keys for the defect listed under Findings.
- TaskInput.WellFormedSchedulable: the form accepts a predecessor field like "A,A". The duplicate makes the engine report a cycle, so the lemma requires predecessor lists without repeats.
- PertService.Compute: its soundness guarantees need `t0 >= 0`. Both controllers enforce that, and `ScheduleFacts.NegativeStartBreaksSlack` shows what fails for a negative start.

## Findings

| source | as written | input that shows it | evidently intended | confidence | as-written member | corrected member |
|---|---|---|---|---|---|---|
| backend-pert/app/Services/PertService.php:31 | `$nameToTask[$t['name']]` stores a name such as "1" under the integer key 1, and `foreach ... as $n =>` reads it back as an integer. The strict `in_array($n, $info['pred'], true)` then never matches the string "1" in a predecessor list, so the dependents of "1" never reach in-degree 0 and are reported as a cycle. Lines 83 and 119 compare the same way. | tasks `[{name:"1", duration:1, predecessors:[]}, {name:"2", duration:1, predecessors:["1"]}]`: no cycle, yet "2" is listed as unsorted | names compared as strings, so every dependent is released and an acyclic project is scheduled | not executed | PhpKeys.AsWrittenExample | PhpKeys.CorrectedExample |
