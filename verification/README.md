# Time tracker core, modelled in Dafny

This project models the domain core of a desktop time tracker: projects and tasks kept as
append-only version histories, and time intervals built from an event log of starts,
stops and annotations. It covers the value objects (`Status`, `ProjectId`, `TaskId`) and
the immutable entities (`Project`, `Task`, `TimeEntryEvent`, `TimeEntry`). It also covers:

- the in-memory repositories, with their "current version" rule: the largest
  `effective_at` wins, and on a tie the last save wins;
- the SQLite schema, its current-state views, and the SQLite project and task
  repositories;
- the timer and project-management services;
- the project, task and time-tracking use cases;
- the DTO conversions and the `HH:MM:SS` duration format.

Modelling choices:

- Every instant is a whole number of seconds (`int`).
- `Utc::now()` is an explicit `clock` parameter. An operation that reads the clock
  several times (once per event or entity it creates) gets one reading for all of them;
  see "Left out".
- A repository is an immutable value: a sequence of saved versions, or a database value
  holding identifier tables and version tables.
- Services and use cases are functions from a state to a new state and a `Result`.

The SQLite repositories are related to the in-memory ones by a mirror relation
(`SqliteProjectMirror.Mirrors`, `SqliteTaskMirror.Mirrors`). Take a database built by saving
the same versions, in the same order, as an in-memory repository, where every task save found
its project. Its read queries (`find_*`, `exists`, `count_by_project_id`) answer as that
repository does, with three differences listed below. For `find_history` "as that repository
does" includes the order of versions with equal `effective_at`. That order is save order in
both models, a choice of this model; the query sorts only by `effective_at`, so SQLite does
not promise it.

- Rebuilding a row calls `archive()`, which stamps an archived version with the clock
  instead of its stored time. The mirror lemmas state that difference exactly
  (`Projects.Reloaded`, `Tasks.Reloaded`).
- The SQLite `next_id` reserves nothing, while the in-memory one advances its counter.
  Both return an id no saved entity has.
- A task save whose project is missing fails on the foreign key, after the task id was
  already registered. `exists` then says yes while `find_by_id` finds nothing
  (`SqliteTaskMirror.SaveWithoutProjectOrphansId`). No use case saves such a task.

Limits of the program itself, which the model keeps:

- Versions are allocated without retries or a `Conflict` error.
- The SQLite `next_id` reserves nothing, so two calls with no save in between return the
  same id.
- Tags, and the policies for orphan stops and backfills, have no implementation, so
  they are not modelled.
- A stop that names no start is ignored when intervals are built.

Modules follow the source layout, one file each:

- `status`, `project_id`, `task_id`: value objects.
- `project`, `task`, `time_entry`: entities. `names` holds their shared name rule.
- `version_store`: the generic "current / at time / history" selection over a version
  list.
- `project_repository`, `task_repository`, `time_entry_repository`: the in-memory
  repositories.
- `version_table`, `database`: the SQLite tables, their constraints and the current-state
  views.
- `sqlite_project_repository`, `sqlite_task_repository`: the SQLite repositories.
- `sqlite_project_mirror`, `sqlite_task_mirror`: the agreement proofs.
- The two services, the three use-case modules, and the three DTO modules.
- `duration`: the `HH:MM:SS` format.
- `timestamps`: RFC 3339 text as spellings of instants. Several spellings parse to one
  instant, and the program writes two of them (`+00:00` and `Z`).
- `text`, `seqs`, `base`: string and sequence helpers, and `Result`/`Option`.

## Model

| member | source | states |
|---|---|---|
| Statuses.FromStr | src-tauri/src/domain/value_objects/status.rs:13-19 | parsing succeeds exactly on "active" and "archived"; any other string fails with an invalid-status error naming it, and a parsed status prints back as the same string |
| Statuses.AsStr | src-tauri/src/domain/value_objects/status.rs:32-37 | the storage spelling of a status is always "active" or "archived" |
| Statuses.Display | src-tauri/src/domain/value_objects/status.rs:40-43 | the displayed text parses back to the same status, i.e. display agrees with the storage spelling |
| Statuses.Default | src-tauri/src/domain/value_objects/status.rs:46-49 | the default status is active and not archived |
| Statuses.ExactlyOne | src-tauri/src/domain/value_objects/status.rs:22-29 | exactly one of `is_active` and `is_archived` holds |
| Statuses.RoundTrip | src-tauri/src/domain/value_objects/status.rs:13-37 | parsing the spelling of a status gives that status back |
| Statuses.AsStrInjective | src-tauri/src/domain/value_objects/status.rs:32-37 | two statuses have the same spelling only if they are equal |
| ProjectIds.New | src-tauri/src/domain/value_objects/project_id.rs:10-15 | construction succeeds iff the integer is positive, keeps it unchanged, and otherwise fails with a non-positive-id error |
| ProjectIds.ToInt | src-tauri/src/domain/value_objects/project_id.rs:29-32 | the integer of an id is positive and constructs the same id again |
| ProjectIds.Display | src-tauri/src/domain/value_objects/project_id.rs:23-26 | the displayed text reads back as the id's decimal value |
| ProjectIds.EqualIffSameValue | src-tauri/src/domain/value_objects/project_id.rs:5 | two ids are equal iff their integers are equal |
| TaskIds.New | src-tauri/src/domain/value_objects/task_id.rs:10-15 | construction succeeds iff the integer is positive, keeps it unchanged, and otherwise fails with a non-positive-id error |
| TaskIds.ToInt | src-tauri/src/domain/value_objects/task_id.rs:29-32 | the integer of an id is positive and constructs the same id again |
| TaskIds.Display | src-tauri/src/domain/value_objects/task_id.rs:23-26 | the displayed text reads back as the id's decimal value |
| TaskIds.EqualIffSameValue | src-tauri/src/domain/value_objects/task_id.rs:5 | two ids are equal iff their integers are equal |
| Text.ByteLen | src-tauri/src/domain/entities/project.rs:20 | `len()` counts UTF-8 bytes: between one and four per character |
| Text.TrimSpec | src-tauri/src/domain/entities/project.rs:26 | `trim()` removes exactly the leading and trailing Unicode whitespace and leaves a trimmed string |
| Text.TrimEmptyIff | src-tauri/src/domain/entities/project.rs:17 | the trimmed name is empty iff the name is all whitespace |
| Names.Validate | src-tauri/src/domain/entities/project.rs:17-22 | a name passes iff it is not blank and its untrimmed UTF-8 length is at most 255; the blank check comes first; the name kept is the trimmed input |
| Names.StoredRevalidates | src-tauri/src/domain/entities/project.rs:33-51 | a name as stored passes the rule again unchanged, so rebuilding from stored fields cannot fail on the name |
| Projects.New | src-tauri/src/domain/entities/project.rs:16-30 | succeeds iff the name passes the rule; the project is active, holds the trimmed name and the given id, and is stamped with the clock; failures say empty or too long |
| Projects.NewWithTime | src-tauri/src/domain/entities/project.rs:33-51 | the same validation as `new`, keeping the given effective time exactly |
| Projects.ChangeName | src-tauri/src/domain/entities/project.rs:54-68 | the same validation; the id and status are kept, the trimmed name is stored and the clock stamped |
| Projects.Archive | src-tauri/src/domain/entities/project.rs:71-78 | total; the result is archived with the same id and name, stamped with the clock |
| Projects.Restore | src-tauri/src/domain/entities/project.rs:81-92 | succeeds iff the project is archived, giving an active project with the same id and name stamped with the clock; otherwise a not-archived error |
| Projects.RestoreUndoesArchive | src-tauri/src/domain/entities/project.rs:71-92 | restoring an archived active project gives back the original apart from the stamp |
| Projects.ArchiveIdempotent | src-tauri/src/domain/entities/project.rs:71-78 | archiving an archived project again only moves its stamp to the second clock |
| Projects.ExactlyOneStatus | src-tauri/src/domain/entities/project.rs:95-101 | a project is active or archived, never both |
| Projects.Reloaded | src-tauri/src/infrastructure/repositories/sqlite_project_repository.rs:88-94 | what a read gives back for a stored project: same id, name and status; an active project comes back unchanged, an archived one restamped with the clock, and any project read at its own stamp unchanged |
| Tasks.New | src-tauri/src/domain/entities/task.rs:17-32 | succeeds iff the name passes the rule; the task is active in the given project, with the trimmed name, stamped with the clock |
| Tasks.NewWithTime | src-tauri/src/domain/entities/task.rs:35-55 | the same validation, keeping the given effective time |
| Tasks.ChangeName | src-tauri/src/domain/entities/task.rs:58-73 | validates the name; keeps id, project and status; stores the trimmed name at the clock |
| Tasks.MoveToProject | src-tauri/src/domain/entities/task.rs:76-84 | total; only the project changes, apart from the clock stamp |
| Tasks.Archive | src-tauri/src/domain/entities/task.rs:87-95 | total; archived, with id, project and name kept, stamped with the clock |
| Tasks.Restore | src-tauri/src/domain/entities/task.rs:98-110 | succeeds iff the task is archived, giving an active task with id, project and name kept; otherwise a not-archived error |
| Tasks.MoveBelongs | src-tauri/src/domain/entities/task.rs:142-144 | after a move the task belongs to the target project and to no other |
| Tasks.RestoreUndoesArchive | src-tauri/src/domain/entities/task.rs:87-110 | restoring an archived active task gives back the original apart from the stamp |
| Tasks.ExactlyOneStatus | src-tauri/src/domain/entities/task.rs:134-140 | a task is active or archived, never both |
| Tasks.Reloaded | src-tauri/src/infrastructure/repositories/sqlite_task_repository.rs:128-135 | what a read gives back for a stored task: same id, project, name and status; an active task comes back unchanged, an archived one restamped with the clock, and any task read at its own stamp unchanged |
| TimeEntries.EventTypeAsStr | src-tauri/src/domain/entities/time_entry.rs:14-20 | the three event kinds have three distinct spellings: "start", "stop" and "annotate" |
| TimeEntries.EventTypeFromStr | src-tauri/src/domain/entities/time_entry.rs:22-29 | parsing accepts exactly those three spellings, prints back to the input, and rejects every other string by name |
| TimeEntries.EventTypeRoundTrip | src-tauri/src/domain/entities/time_entry.rs:14-29 | parsing the spelling of a kind gives the kind back |
| TimeEntries.StartAt | src-tauri/src/domain/entities/time_entry.rs:57-66 | an unsaved start for the task at the given time, with no back-reference and no payload |
| TimeEntries.StartNow | src-tauri/src/domain/entities/time_entry.rs:45-54 | an unsaved start stamped with the clock, with no back-reference and no payload |
| TimeEntries.StopAt | src-tauri/src/domain/entities/time_entry.rs:81-90 | an unsaved stop at the given time that refers back to its start and carries no payload |
| TimeEntries.StopNow | src-tauri/src/domain/entities/time_entry.rs:69-78 | an unsaved stop stamped with the clock that refers back to its start |
| TimeEntries.AnnotateNow | src-tauri/src/domain/entities/time_entry.rs:93-102 | an unsaved annotation carrying both the back-reference and the note |
| TimeEntries.WithId | src-tauri/src/domain/entities/time_entry.rs:105-108 | sets the id and changes no other field |
| TimeEntries.ExactlyOneKind | src-tauri/src/domain/entities/time_entry.rs:135-145 | exactly one of `is_start`, `is_stop` and `is_annotate` holds |
| TimeEntries.NewEntry | src-tauri/src/domain/entities/time_entry.rs:159-174 | the interval keeps its fields; its duration is end minus start when the end is known and absent otherwise |
| TimeEntries.ElapsedSeconds | src-tauri/src/domain/entities/time_entry.rs:206-211 | a completed interval's elapsed time is its duration; a running one's is the time since its start |
| TimeEntries.ElapsedDurationReadsBack | src-tauri/src/domain/entities/time_entry.rs:214-220 | the rendered elapsed duration reads back as the elapsed seconds when these are not negative |
| TimeEntries.RunningOrCompleted | src-tauri/src/domain/entities/time_entry.rs:197-203 | an interval is running iff it is not completed |
| VersionStore.LatestIndex | src-tauri/src/domain/repositories/project_repository.rs:74-86 | the `max_by_key` rule: no index iff no version qualifies; otherwise the index has the largest stamp among the qualifying versions, and no later one has an equal stamp |
| VersionStore.LatestUnique | src-tauri/src/domain/repositories/project_repository.rs:74-86 | the `max_by_key` choice is unique |
| VersionStore.Current | src-tauri/src/domain/repositories/project_repository.rs:74-86 | the current version exists iff the key was saved, and it is the latest of that key by that rule |
| VersionStore.AtTime | src-tauri/src/domain/repositories/project_repository.rs:169-181 | the version at a time is the latest of the key stamped at or before it, and absent iff no such version exists |
| VersionStore.AtTimeAfterAll | src-tauri/src/domain/repositories/project_repository.rs:169-181 | asked at or after every stamp, the at-time lookup is the current version |
| VersionStore.History | src-tauri/src/domain/repositories/project_repository.rs:158-167 | the history is a permutation of the key's versions, sorted by stamp, and empty for an unknown key |
| VersionStore.HistoryIsStable | src-tauri/src/domain/repositories/project_repository.rs:163-165 | the history sort is stable: versions with equal stamps stay in save order |
| VersionStore.CurrentWhere | src-tauri/src/domain/repositories/project_repository.rs:88-144 | the listing queries hold exactly the current versions that pass the filter, one per key |
| VersionStore.SaveBecomesCurrent | src-tauri/src/domain/repositories/project_repository.rs:67-86 | a saved version stamped no earlier than any other of its key becomes current, because ties go to the last save |
| VersionStore.SaveOlderKeepsCurrent | src-tauri/src/domain/repositories/project_repository.rs:67-86 | a version saved with an older stamp leaves the current version unchanged |
| VersionStore.SaveAppendsVersion | src-tauri/src/domain/repositories/project_repository.rs:67-72 | saving appends the version to its own key's list and to no other |
| ProjectRepository.FindById | src-tauri/src/domain/repositories/project_repository.rs:74-86 | none iff the id was never saved; otherwise a saved version of the id with the largest stamp, the last saved on ties |
| ProjectRepository.Save | src-tauri/src/domain/repositories/project_repository.rs:67-72 | the id now exists; other ids' current versions are untouched; the version becomes current when no saved version of the id is newer |
| ProjectRepository.SaveExtendsHistory | src-tauri/src/domain/repositories/project_repository.rs:67-72 | saving adds exactly that version to the id's history and removes nothing |
| ProjectRepository.FindAllActive | src-tauri/src/domain/repositories/project_repository.rs:88-101 | exactly the current versions that are active, one per id |
| ProjectRepository.FindAll | src-tauri/src/domain/repositories/project_repository.rs:103-114 | exactly the current versions, one per id |
| ProjectRepository.FindByStatus | src-tauri/src/domain/repositories/project_repository.rs:116-129 | exactly the current versions with the status, one per id |
| ProjectRepository.FindByNamePrefix | src-tauri/src/domain/repositories/project_repository.rs:131-144 | exactly the current versions whose name starts with the prefix, one per id |
| ProjectRepository.NextId | src-tauri/src/domain/repositories/project_repository.rs:146-151 | returns the counter and advances it by one, whatever has been saved |
| ProjectRepository.FindHistory | src-tauri/src/domain/repositories/project_repository.rs:158-167 | every saved version of the id, each as often as saved, ascending by effective time; empty for an unknown id |
| ProjectRepository.FindAtTime | src-tauri/src/domain/repositories/project_repository.rs:169-181 | a saved version of the id at or before the time with the largest stamp there; none iff every version is later |
| ProjectRepository.NextIdIsFresh | src-tauri/src/domain/repositories/project_repository.rs:146-156 | while the counter is ahead of every saved id, `next_id` returns an id that does not exist and keeps the counter ahead |
| ProjectRepository.SaveKeepsCounterAhead | src-tauri/src/domain/repositories/project_repository.rs:67-72 | saving an id below the counter keeps the counter ahead of every saved id |
| TaskRepository.FindById | src-tauri/src/domain/repositories/task_repository.rs:86-97 | none iff the id was never saved; otherwise the version of the id with the largest stamp, the last saved on ties |
| TaskRepository.Save | src-tauri/src/domain/repositories/task_repository.rs:79-84 | the id now exists; other ids are untouched; the version becomes current when no saved version of the id is newer |
| TaskRepository.SaveExtendsHistory | src-tauri/src/domain/repositories/task_repository.rs:79-84 | saving adds exactly that version to the id's history |
| TaskRepository.FindAllActive | src-tauri/src/domain/repositories/task_repository.rs:129-142 | exactly the current versions that are active, one per id |
| TaskRepository.FindAll | src-tauri/src/domain/repositories/task_repository.rs:144-155 | exactly the current versions, one per id |
| TaskRepository.FindByStatus | src-tauri/src/domain/repositories/task_repository.rs:157-170 | exactly the current versions with the status, one per id |
| TaskRepository.FindByNamePrefix | src-tauri/src/domain/repositories/task_repository.rs:172-185 | exactly the current versions whose name starts with the prefix, one per id |
| TaskRepository.NextId | src-tauri/src/domain/repositories/task_repository.rs:187-192 | returns the counter and advances it by one, independent of saves |
| TaskRepository.FindHistory | src-tauri/src/domain/repositories/task_repository.rs:199-208 | every saved version of the id, ascending by effective time; empty for an unknown id |
| TaskRepository.FindAtTime | src-tauri/src/domain/repositories/task_repository.rs:210-222 | the latest version of the id at or before the time; none iff every version is later |
| TaskRepository.FindByProjectId | src-tauri/src/domain/repositories/task_repository.rs:99-112 | exactly the tasks whose current version is in the project, so a moved task is listed under its new project only |
| TaskRepository.FindActiveByProjectId | src-tauri/src/domain/repositories/task_repository.rs:114-127 | exactly the tasks whose current version is in the project and active |
| TaskRepository.CountByProjectId | src-tauri/src/domain/repositories/task_repository.rs:224-227 | the count is the number of tasks listed under the project, archived ones included; zero iff no current task is in it |
| TaskRepository.NameLeIsTotalPreorder | src-tauri/src/domain/repositories/task_repository.rs:229-233 | comparing names is a total preorder, so sorting by it is well defined |
| TaskRepository.FindByProjectIdOrdered | src-tauri/src/domain/repositories/task_repository.rs:229-233 | a permutation of the project's tasks, sorted by name |
| TaskRepository.NextIdIsFresh | src-tauri/src/domain/repositories/task_repository.rs:187-197 | while the counter is ahead of every saved id, `next_id` returns an unused id and keeps the counter ahead |
| TaskRepository.SaveKeepsCounterAhead | src-tauri/src/domain/repositories/task_repository.rs:79-84 | saving an id below the counter keeps the counter ahead |
| TimeEntryRepository.SaveEvent | src-tauri/src/domain/repositories/time_entry_repository.rs:131-136 | the event is appended with the next id, starting at 1 and consecutive, and is otherwise stored unchanged |
| TimeEntryRepository.SaveEventKeepsWf | src-tauri/src/domain/repositories/time_entry_repository.rs:88-93 | saving keeps ids equal to positions and every back-reference pointing at an earlier start |
| TimeEntryRepository.FirstStop | src-tauri/src/domain/repositories/time_entry_repository.rs:110-112 | the first stop in the log that refers back to the start, or none iff there is none |
| TimeEntryRepository.IntervalOf | src-tauri/src/domain/repositories/time_entry_repository.rs:100-122 | the interval of a start: its task, id and time, ended by the first stop referring to it, and running iff there is no such stop |
| TimeEntryRepository.BuildTimeEntries | src-tauri/src/domain/repositories/time_entry_repository.rs:95-126 | exactly one interval per saved start and none for other events, sorted newest start first |
| TimeEntryRepository.FindRunningEntries | src-tauri/src/domain/repositories/time_entry_repository.rs:138-141 | exactly the intervals without an end, one per running start, newest first |
| TimeEntryRepository.FindRunningEntryByTask | src-tauri/src/domain/repositories/time_entry_repository.rs:143-148 | none iff the task has no running interval; otherwise one of its running intervals with the newest start |
| TimeEntryRepository.FindEntriesByTask | src-tauri/src/domain/repositories/time_entry_repository.rs:150-156 | exactly the task's intervals, newest first |
| TimeEntryRepository.FindEntriesByTaskAndPeriod | src-tauri/src/domain/repositories/time_entry_repository.rs:158-173 | the task's intervals whose start lies in the period, both bounds inclusive |
| TimeEntryRepository.FindOverlappingEntries | src-tauri/src/domain/repositories/time_entry_repository.rs:175-190 | the task's intervals that start before the end and are running or end after the start |
| TimeEntryRepository.FindEntriesByProject | src-tauri/src/domain/repositories/time_entry_repository.rs:192-195 | always empty |
| TimeEntryRepository.FindEntriesByPeriod | src-tauri/src/domain/repositories/time_entry_repository.rs:197-207 | all intervals whose start lies in the period, both bounds inclusive |
| TimeEntryRepository.CountEntriesByTask | src-tauri/src/domain/repositories/time_entry_repository.rs:209-212 | the number of starts saved for the task |
| TimeEntryRepository.FilterIntervalsCount | src-tauri/src/domain/repositories/time_entry_repository.rs:209-212 | filtering the built intervals by task leaves one per start of that task |
| TimeEntryRepository.TotalDurationPermutation | src-tauri/src/domain/repositories/time_entry_repository.rs:214-221 | the summed duration does not depend on the order of the intervals |
| TimeEntryRepository.FilterIntervalsTotal | src-tauri/src/domain/repositories/time_entry_repository.rs:214-221 | the task's summed durations equal the seconds worked on its completed intervals |
| TimeEntryRepository.SumDurationByTask | src-tauri/src/domain/repositories/time_entry_repository.rs:214-221 | the sum covers only completed intervals of the task, each counted once |
| TimeEntryRepository.SumDurationByProject | src-tauri/src/domain/repositories/time_entry_repository.rs:223-230 | always zero, because the project listing is empty |
| TimeEntryRepository.FindEntryByStartEventId | src-tauri/src/domain/repositories/time_entry_repository.rs:232-237 | the interval opened by that start, or none iff no start has that id |
| TimeEntryRepository.FindEntryByStartEventIdWf | src-tauri/src/domain/repositories/time_entry_repository.rs:232-237 | in a well-formed log, an interval is found iff the id names a saved start |
| TimeEntryRepository.FindRecentEntries | src-tauri/src/domain/repositories/time_entry_repository.rs:239-243 | the first `limit` intervals, newest first; none left out is newer than one kept |
| TimeEntryRepository.FindRecentEntriesByTask | src-tauri/src/domain/repositories/time_entry_repository.rs:245-249 | the task's first `limit` intervals, newest first |
| TimeEntryRepository.SaveEventRunning | src-tauri/src/domain/repositories/time_entry_repository.rs:131-136 | saving an event stops at most the interval it refers back to, and opens a running interval iff it is a start |
| TimeTrackingService.StopEach | src-tauri/src/domain/services/time_tracking_service.rs:51-58 | only stops are appended, each stamped with the clock and referring back to the start of a listed interval that is not of the skipped task; with nothing skipped, one stop per listed interval |
| TimeTrackingService.StopEachRunning | src-tauri/src/domain/services/time_tracking_service.rs:51-58 | those stops close exactly the listed intervals and open none |
| TimeTrackingService.StopOthers | src-tauri/src/domain/services/time_tracking_service.rs:51-58 | the first step of `start_timer` only appends |
| TimeTrackingService.StopOthersRunning | src-tauri/src/domain/services/time_tracking_service.rs:51-58 | after it, an interval runs iff it ran before and belongs to the task |
| TimeTrackingService.StopTimer | src-tauri/src/domain/services/time_tracking_service.rs:74-86 | nothing is appended and none returned iff the task has no running interval; otherwise one stop, stamped with the clock, referring to its newest running start |
| TimeTrackingService.StopTimerEffect | src-tauri/src/domain/services/time_tracking_service.rs:74-86 | stopping starts nothing and leaves other tasks running; with at most one interval running, the task no longer runs |
| TimeTrackingService.SaveStartRunning | src-tauri/src/domain/services/time_tracking_service.rs:68-71 | saving a start adds exactly one running interval |
| TimeTrackingService.StartTimer | src-tauri/src/domain/services/time_tracking_service.rs:49-72 | the returned start is for the task at the clock and is the last event appended |
| TimeTrackingService.StartTimerExtends | src-tauri/src/domain/services/time_tracking_service.rs:49-72 | `start_timer` only appends to the log |
| TimeTrackingService.StartTimerRuns | src-tauri/src/domain/services/time_tracking_service.rs:49-72 | afterwards the new interval runs, and every running interval belongs to the task |
| TimeTrackingService.StartTimerExclusive | src-tauri/src/domain/services/time_tracking_service.rs:49-72 | with at most one interval running before, exactly the new one runs after |
| TimeTrackingService.GetRunningTask | src-tauri/src/domain/services/time_tracking_service.rs:88-91 | none iff nothing runs; otherwise the task of a running interval |
| TimeTrackingService.IsTaskRunning | src-tauri/src/domain/services/time_tracking_service.rs:93-96 | holds iff some running interval belongs to the task |
| TimeTrackingService.RunningTaskAgrees | src-tauri/src/domain/services/time_tracking_service.rs:88-96 | with at most one interval running, `is_task_running` agrees with `get_running_task` |
| TimeTrackingService.StopTimerStops | src-tauri/src/domain/services/time_tracking_service.rs:74-86 | with at most one interval running, a stop is returned iff the task was running; afterwards it is not, and at most one interval still runs |
| TimeTrackingService.StartTimerMakesRunning | src-tauri/src/domain/services/time_tracking_service.rs:49-96 | after `start_timer` the running task is this task, and no other task runs |
| TimeTrackingService.SaveManualPair | src-tauri/src/domain/services/time_tracking_service.rs:120-131 | a start at `start` and a stop at `end` that refers to it, appended in that order |
| TimeTrackingService.SaveNote | src-tauri/src/domain/services/time_tracking_service.rs:133-140 | with a note, one annotation carrying it is appended; without one, nothing |
| TimeTrackingService.AddManualEntry | src-tauri/src/domain/services/time_tracking_service.rs:98-143 | rejects `start >= end` first, then any overlap with the task's intervals, appending nothing in either case; otherwise returns the start and the stop that refers to it |
| TimeTrackingService.ManualPairEffect | src-tauri/src/domain/services/time_tracking_service.rs:120-131 | the pair opens one completed interval and changes no running one |
| TimeTrackingService.SaveNoteEffect | src-tauri/src/domain/services/time_tracking_service.rs:133-140 | an annotation opens and closes no interval |
| TimeTrackingService.AddManualEntryEffect | src-tauri/src/domain/services/time_tracking_service.rs:98-143 | a manual entry adds one completed interval from start to end and changes no running interval |
| TimeTrackingService.StopAllTimers | src-tauri/src/domain/services/time_tracking_service.rs:145-156 | one stop per running interval, all stamped with the clock, appended |
| TimeTrackingService.StopAllTimersStopsAll | src-tauri/src/domain/services/time_tracking_service.rs:145-156 | afterwards nothing runs and there is no running task |
| TimeTrackingService.StartThenStopAll | src-tauri/src/domain/services/time_tracking_service.rs:49-156 | starting a task and then stopping all timers saves exactly one stop, for that task |
| ProjectManagementService.CanArchiveProject | src-tauri/src/domain/services/project_management_service.rs:39-43 | holds iff no task whose current version is in the project is active |
| ProjectManagementService.ValidateProjectHierarchy | src-tauri/src/domain/services/project_management_service.rs:45-63 | fails for a project never saved; for an archived project with active tasks fails with their count; succeeds otherwise |
| ProjectManagementService.IsProjectNameUnique | src-tauri/src/domain/services/project_management_service.rs:65-81 | false iff some current project of any status has exactly that name and is not the excluded one |
| ProjectManagementService.ArchiveEach | src-tauri/src/domain/services/project_management_service.rs:95-99 | the task loop leaves the id counter alone; what it saves is stated by `ArchiveEachAppends`, `ArchiveEachListed` and `ArchiveEachUnlisted` |
| ProjectManagementService.ArchiveEachAppends | src-tauri/src/domain/services/project_management_service.rs:95-99 | the loop appends exactly one archived copy per listed task, in list order, after the versions already saved |
| ProjectManagementService.ArchiveEachUnlisted | src-tauri/src/domain/services/project_management_service.rs:93-99 | archiving the listed tasks leaves every unlisted task's current version alone |
| ProjectManagementService.ArchiveEachListed | src-tauri/src/domain/services/project_management_service.rs:93-99 | at a clock not behind any saved version, every listed task's current version becomes its archived version |
| ProjectManagementService.ArchiveProjectWithTasks | src-tauri/src/domain/services/project_management_service.rs:83-105 | a missing or already archived project fails and nothing is saved; succeeds iff the project is current and active |
| ProjectManagementService.ArchiveProjectWithTasksEffect | src-tauri/src/domain/services/project_management_service.rs:83-105 | afterwards the project is archived, it has no active tasks, it passes the hierarchy check, and every other project and task is unchanged |
| ProjectManagementService.HierarchyValidPasses | src-tauri/src/domain/services/project_management_service.rs:45-63 | while every active task is under an active project, every saved project passes the hierarchy check |
| ProjectUseCases.CreateProjectRawCheck | src-tauri/src/application/use_cases/project_use_cases.rs:75-91 | as written: succeeds iff the name as typed is unused, an id is available and the name passes the rule; what is stored is the trimmed name |
| ProjectUseCases.CreateProject | src-tauri/src/application/use_cases/project_use_cases.rs:75-91 | corrected: the uniqueness check is made on the trimmed name that will be stored; a taken name fails without saving |
| ProjectUseCases.CreateChecking | src-tauri/src/application/use_cases/project_use_cases.rs:75-91 | a taken name fails with nothing saved and no id consumed; otherwise an id is consumed, and on success exactly one active version with that id is appended, stamped with the clock |
| ProjectUseCases.UpdateProjectRawCheck | src-tauri/src/application/use_cases/project_use_cases.rs:93-117 | as written: a success renames a current active project; unless the name is unchanged, the typed name is unused by any other project |
| ProjectUseCases.UpdateProject | src-tauri/src/application/use_cases/project_use_cases.rs:93-117 | corrected: the same with the check made on the trimmed name; a failure saves nothing |
| ProjectUseCases.UpdateRejectsTakenName | src-tauri/src/application/use_cases/project_use_cases.rs:103-108 | renaming an active project to a name another current project holds fails with `NameAlreadyExists` and saves nothing |
| ProjectUseCases.UpdateChecking | src-tauri/src/application/use_cases/project_use_cases.rs:93-117 | a missing or archived project fails; uniqueness is checked only when the name changes; success appends one active version with the new name, stamped with the clock |
| ProjectUseCases.ArchiveProject | src-tauri/src/application/use_cases/project_use_cases.rs:119-146 | a missing or archived project fails; succeeds iff the project is active and either `force` is set or it has no active tasks; without `force`, active tasks give an active-tasks error and nothing is saved, and a success appends only the archived project |
| ProjectUseCases.RestoreProject | src-tauri/src/application/use_cases/project_use_cases.rs:148-160 | succeeds iff the project is currently archived, appending an active version with the same id and name |
| ProjectUseCases.CreateRawCheckAdmitsDuplicate | src-tauri/src/application/use_cases/project_use_cases.rs:77 | as written, " A" is accepted next to an existing "A" and two current projects end up named "A"; the corrected check rejects it |
| ProjectUseCases.UpdateRawCheckAdmitsDuplicate | src-tauri/src/application/use_cases/project_use_cases.rs:104-105 | as written, renaming "B" to " A" stores a second "A"; the corrected check rejects it |
| ProjectUseCases.SavedAtClockIsCurrent | src-tauri/src/application/use_cases/project_use_cases.rs:81-90 | a version stamped with a clock that no saved version is ahead of becomes current |
| ProjectUseCases.CreateProjectKeepsNamesDistinct | src-tauri/src/application/use_cases/project_use_cases.rs:75-91 | with the corrected check, creating a project keeps current names pairwise distinct |
| ProjectUseCases.UpdateProjectKeepsNamesDistinct | src-tauri/src/application/use_cases/project_use_cases.rs:93-117 | with the corrected check, renaming keeps current names pairwise distinct |
| ProjectUseCases.ArchiveProjectEffect | src-tauri/src/application/use_cases/project_use_cases.rs:119-146 | after a successful archive the project is archived with no active tasks, and other projects are unchanged |
| ProjectUseCases.ArchiveThenRestore | src-tauri/src/application/use_cases/project_use_cases.rs:119-160 | archiving a project without `force` and restoring it gives back the project as it was, stamped anew |
| ProjectUseCases.CreateProjectKeepsHierarchy | src-tauri/src/application/use_cases/project_use_cases.rs:75-91 | creating a project keeps every active task under an active project |
| ProjectUseCases.UpdateProjectKeepsHierarchy | src-tauri/src/application/use_cases/project_use_cases.rs:93-117 | renaming keeps every active task under an active project |
| ProjectUseCases.SaveActiveKeepsHierarchy | src-tauri/src/domain/services/project_management_service.rs:45-63 | saving an active project version that becomes current keeps every active task under an active project |
| ProjectUseCases.ArchiveProjectKeepsHierarchy | src-tauri/src/application/use_cases/project_use_cases.rs:119-146 | archiving, with or without `force`, keeps every active task under an active project |
| ProjectUseCases.RestoreProjectKeepsHierarchy | src-tauri/src/application/use_cases/project_use_cases.rs:148-160 | restoring keeps every active task under an active project |
| TaskUseCases.CreateTask | src-tauri/src/application/use_cases/task_use_cases.rs:84-104 | a missing or archived project fails and nothing is saved; on success one active version in that project, with a fresh id and the trimmed name, is appended |
| TaskUseCases.Rename | src-tauri/src/application/use_cases/task_use_cases.rs:112-119 | no new name leaves the task alone; a new name goes through `change_name` |
| TaskUseCases.Relocate | src-tauri/src/application/use_cases/task_use_cases.rs:122-133 | a move needs the target project to exist and be active; no target leaves the task alone |
| TaskUseCases.UpdateTask | src-tauri/src/application/use_cases/task_use_cases.rs:106-139 | a missing or archived task fails; an invalid new name fails with the empty or too-long error; succeeds iff the task is active, the new name passes and the target project exists and is active; a failure saves nothing; success appends exactly one version with the new name or the old one |
| TaskUseCases.MoveTaskToProject | src-tauri/src/application/use_cases/task_use_cases.rs:200-207 | exactly `update_task` with no new name: the moved task is the current one moved to the target |
| TaskUseCases.ArchiveTask | src-tauri/src/application/use_cases/task_use_cases.rs:141-156 | fails on a missing or already archived task; otherwise appends the archived version |
| TaskUseCases.RestoreTask | src-tauri/src/application/use_cases/task_use_cases.rs:158-178 | fails if the task is missing, its project is missing or archived, or the task is not archived; otherwise appends it active with id, project and name kept |
| TaskUseCases.SavedLatestIsCurrent | src-tauri/src/application/use_cases/task_use_cases.rs:136 | a version stamped no earlier than every saved version of its task becomes current |
| TaskUseCases.UpdateTaskBecomesCurrent | src-tauri/src/application/use_cases/task_use_cases.rs:106-139 | after a successful update the saved version is the task's current version |
| TaskUseCases.MoveTaskListsUnderTarget | src-tauri/src/application/use_cases/task_use_cases.rs:200-207 | a moved task is listed under its new project and under no other |
| TaskUseCases.ArchiveThenRestoreTask | src-tauri/src/application/use_cases/task_use_cases.rs:141-178 | archiving a task and restoring it under an active project gives the task back, stamped anew |
| TaskUseCases.CreateTaskKeepsHierarchy | src-tauri/src/application/use_cases/task_use_cases.rs:84-104 | creating a task keeps every active task under an active project |
| TaskUseCases.SaveKeepsHierarchy | src-tauri/src/domain/services/project_management_service.rs:45-63 | saving a task version that becomes current keeps every active task under an active project, provided the version is archived or its project is active |
| TaskUseCases.UpdateTaskKeepsHierarchy | src-tauri/src/application/use_cases/task_use_cases.rs:106-139 | updating or moving a task keeps every active task under an active project |
| TaskUseCases.ArchiveTaskKeepsHierarchy | src-tauri/src/application/use_cases/task_use_cases.rs:141-156 | archiving a task keeps every active task under an active project |
| TaskUseCases.RestoreTaskKeepsHierarchy | src-tauri/src/application/use_cases/task_use_cases.rs:158-178 | restoring a task keeps every active task under an active project |
| TimeTrackingUseCases.StartTimer | src-tauri/src/application/use_cases/time_tracking_use_cases.rs:100-114 | a missing task fails as not found, an archived one as not startable, both without appending; otherwise the service's start for the task at the clock |
| TimeTrackingUseCases.StopTimer | src-tauri/src/application/use_cases/time_tracking_use_cases.rs:116-125 | the task must exist, archived or not; then a stop is returned iff it was running |
| TimeTrackingUseCases.GetTimerStatus | src-tauri/src/application/use_cases/time_tracking_use_cases.rs:131-153 | running iff the task runs; if it does not, there is no entry and no elapsed time; if it does, its running interval and the seconds since its start |
| TimeTrackingUseCases.AddManualEntry | src-tauri/src/application/use_cases/time_tracking_use_cases.rs:155-174 | a missing or archived task fails without appending; otherwise the service's manual entry |
| TimeTrackingUseCases.GetTaskEntries | src-tauri/src/application/use_cases/time_tracking_use_cases.rs:176-182 | fails iff the task is missing; otherwise exactly the task's intervals |
| TimeTrackingUseCases.GetRecentTaskEntries | src-tauri/src/application/use_cases/time_tracking_use_cases.rs:184-192 | fails iff the task is missing; otherwise at most `limit` of the task's intervals |
| TimeTrackingUseCases.GetTaskTotalDuration | src-tauri/src/application/use_cases/time_tracking_use_cases.rs:257-263 | fails iff the task is missing; otherwise the seconds of its completed intervals |
| TimeTrackingUseCases.NewestRunningAfterStart | src-tauri/src/application/use_cases/time_tracking_use_cases.rs:100-114 | after a start, the task's newest running interval is the one just opened |
| TimeTrackingUseCases.ManualEntryInTaskEntries | src-tauri/src/application/use_cases/time_tracking_use_cases.rs:155-182 | the completed interval from a manual entry is among the task's intervals |
| TimeTrackingUseCases.StatusAfterStart | src-tauri/src/application/use_cases/time_tracking_use_cases.rs:100-153 | right after a start, the status shows the new interval running, with the seconds since the start |
| TimeTrackingUseCases.RunningStatus | src-tauri/src/application/use_cases/time_tracking_use_cases.rs:131-153 | a running task shows its newest running interval and the seconds since its start |
| TimeTrackingUseCases.StatusAfterStop | src-tauri/src/application/use_cases/time_tracking_use_cases.rs:116-153 | with at most one interval running, right after a stop an existing task's status shows nothing running; a missing task's status is unchanged |
| TimeTrackingUseCases.ManualEntryListed | src-tauri/src/application/use_cases/time_tracking_use_cases.rs:155-182 | after a manual entry, listing the task's entries succeeds and holds the new completed interval |
| TimeTrackingUseCases.TaskEntriesOfKnownTask | src-tauri/src/application/use_cases/time_tracking_use_cases.rs:176-182 | for an existing task, the use case returns the repository's list of its intervals |
| Durations.QuotRem | src-tauri/src/application/dto/time_entry_dto.rs:156-161 | Rust's truncating `/` and `%`: quotient and remainder rebuild the number, the remainder has the dividend's sign, and they match Euclidean division on non-negative input |
| Durations.Pad2 | src-tauri/src/application/dto/time_entry_dto.rs:160 | `{:02}`: at least two characters, exactly two below 100 |
| Durations.Pad2Value | src-tauri/src/application/dto/time_entry_dto.rs:160 | a padded non-negative number reads back as that number |
| Durations.Split | src-tauri/src/application/dto/time_entry_dto.rs:156-161 | for non-negative seconds: whole hours, minutes and seconds in 0..59, with `h*3600 + m*60 + s` equal to the input |
| Durations.FormatParseRoundTrip | src-tauri/src/application/dto/time_entry_dto.rs:156-161 | a non-negative duration's `HH:MM:SS` text reads back as the same seconds |
| DurationExamples.NegativeUnderTen | src-tauri/src/application/dto/time_entry_dto.rs:156-161 | a duration between -9 and -1 seconds renders as `00:00:-d`: truncating division keeps hours and minutes at zero and the sign lands in the seconds field |
| DurationExamples.ExampleZero | src-tauri/src/application/dto/time_entry_dto.rs:302 | 0 seconds formats as "00:00:00" |
| DurationExamples.ExampleMixed | src-tauri/src/application/dto/time_entry_dto.rs:303 | 3661 seconds formats as "01:01:01" |
| DurationExamples.ExampleHours | src-tauri/src/application/dto/time_entry_dto.rs:304 | 7200 seconds formats as "02:00:00" |
| DurationExamples.ExampleDay | src-tauri/src/application/dto/time_entry_dto.rs:305 | 86400 seconds formats as "24:00:00": hours are not capped |
| DurationExamples.NegativeExample | src-tauri/src/application/dto/time_entry_dto.rs:156-161 | -1 second formats as "00:00:-1", because of truncating division and `{:02}` on a negative number |
| TimeEntryDtos.FormatDurationSeconds | src-tauri/src/application/dto/time_entry_dto.rs:156-161 | a non-negative duration's text reads back as the same seconds |
| TimeEntryDtos.FormatFields | src-tauri/src/application/dto/time_entry_dto.rs:156-161 | the rendered fields are whole hours, minutes under 60 and seconds under 60 of the input |
| TimeEntryDtos.StartTimerCommand | src-tauri/src/application/dto/time_entry_dto.rs:118-121 | converts iff the task id is positive, keeping it; otherwise a non-positive-id error |
| TimeEntryDtos.StopTimerCommand | src-tauri/src/application/dto/time_entry_dto.rs:125-128 | converts iff the task id is positive, keeping it; otherwise a non-positive-id error |
| TimeEntryDtos.ManualEntryCommandOf | src-tauri/src/application/dto/time_entry_dto.rs:132-143 | the task id, then the start, then the end are checked in that order; converts iff all are valid, with the instants the texts name and the note kept |
| TimeEntryDtos.ManualEntryRequestRoundTrip | src-tauri/src/application/dto/time_entry_dto.rs:132-143 | a request naming a command's instants, in any accepted spelling, converts back to that command |
| TimeEntryDtos.FromEvent | src-tauri/src/application/dto/time_entry_dto.rs:89-99 | an unsaved event shows id 0; task, kind and time read back, the time in the `Z` spelling; back-reference and payload are copied |
| TimeEntryDtos.FromEntry | src-tauri/src/application/dto/time_entry_dto.rs:102-114 | the duration and the running and completed flags are copied, exactly one flag is set, and times read back in the `Z` spelling |
| TimeEntryDtos.TimerStatus | src-tauri/src/application/dto/time_entry_dto.rs:164-177 | the elapsed duration is present iff the elapsed seconds are, and reads back as them |
| TimeEntryDtos.CurrentTimer | src-tauri/src/application/dto/time_entry_dto.rs:181-189 | the same presence rule, and the task id reads back |
| TimeEntryDtos.TaskSummary | src-tauri/src/application/dto/time_entry_dto.rs:193-206 | the total is rendered with the same format and reads back |
| TimeEntryDtos.ProjectSummary | src-tauri/src/application/dto/time_entry_dto.rs:210-221 | the project id passes through unchecked; the total is rendered with the same format |
| Timestamps.Parse | src-tauri/src/application/dto/time_entry_dto.rs:152-154 | every accepted spelling (`+00:00`, `Z`, other offsets or fractions) parses to the instant it names; rejected text is an error naming the text |
| Timestamps.RoundTrip | src-tauri/src/application/dto/time_entry_dto.rs:147-154 | both renderings, `to_rfc3339` and `format_datetime`, parse back to the instant they were made from |
| Timestamps.RenderKeepsInstant | src-tauri/src/application/dto/project_dto.rs:55-66 | rendering a parsed instant again keeps the instant, but `Z` text does not come back as the same text |
| ProjectDtos.FromProject | src-tauri/src/application/dto/project_dto.rs:49-57 | the id, name, status string and time are copied so that each reads back, the time in the `+00:00` spelling |
| ProjectDtos.ToDomain | src-tauri/src/application/dto/project_dto.rs:62-75 | the id, then the status, then the time, then the name are checked in that order; converts iff all pass, with the trimmed name |
| ProjectDtos.RoundTrip | src-tauri/src/application/dto/project_dto.rs:49-75 | a valid project survives the trip out and back with id, name and status; an archived one is restamped with the clock |
| ProjectDtos.DtoRoundTrip | src-tauri/src/application/dto/project_dto.rs:49-75 | a DTO that converts comes back out with its id and status, its name trimmed, and a `+00:00` timestamp naming the same instant, or the clock when archived |
| ProjectDtos.ZuluInputComesBackAsOffset | src-tauri/src/application/dto/project_dto.rs:96-108 | `2024-01-01T00:00:00Z` converts to an active project and comes back spelled with `+00:00` |
| TaskDtos.FromTask | src-tauri/src/application/dto/task_dto.rs:43-52 | the ids, name, status string and time are copied so that each reads back, the time in the `+00:00` spelling |
| TaskDtos.ToDomain | src-tauri/src/application/dto/task_dto.rs:57-71 | the task id, project id, status, time and name are checked in that order; converts iff all pass |
| TaskDtos.RoundTrip | src-tauri/src/application/dto/task_dto.rs:43-71 | a valid task survives the trip with id, project, name and status; an archived one is restamped |
| TaskDtos.DtoRoundTrip | src-tauri/src/application/dto/task_dto.rs:43-71 | a DTO that converts comes back out with its ids and status, its name trimmed, and a `+00:00` timestamp naming the same instant, or the clock when archived |
| TaskDtos.ZuluInputComesBackAsOffset | src-tauri/src/application/dto/task_dto.rs:92-106 | `2024-01-01T00:00:00Z` converts to an active task and comes back spelled with `+00:00` |
| VersionTables.InsertOrIgnore | src-tauri/src/infrastructure/repositories/sqlite_project_repository.rs:37-41 | the identifier table gains the id only if it was absent, so ids stay distinct |
| VersionTables.InsertOrIgnoreIdempotent | src-tauri/src/infrastructure/repositories/sqlite_project_repository.rs:37-41 | registering the same id twice is registering it once |
| VersionTables.NextId | src-tauri/src/infrastructure/repositories/sqlite_project_repository.rs:243-254 | `COALESCE(MAX(id), 0) + 1`: larger than every id, 1 for an empty table, otherwise one past an existing id |
| VersionTables.NextVersion | src-tauri/src/infrastructure/repositories/sqlite_project_repository.rs:43-48 | one past the entity's highest version, 1 for its first version |
| VersionTables.InsertRow | src-tauri/src/infrastructure/database/connection.rs:60-69 | an insert succeeds iff the CHECK holds, the foreign keys resolve and `(entity, version)` is new; it only appends, and keeps versions unique |
| VersionTables.NextVersionIsFree | src-tauri/src/infrastructure/database/connection.rs:68 | the allocated version never collides with `UNIQUE(entity, version)` |
| VersionTables.AppendKeepsNumbered | src-tauri/src/infrastructure/repositories/sqlite_project_repository.rs:43-65 | saving through the allocator keeps each entity's versions numbered 1..N in save order |
| VersionTables.NumberedNext | src-tauri/src/infrastructure/repositories/sqlite_project_repository.rs:43-48 | for a table built by saves, the next version is the entity's number of versions plus one |
| VersionTables.NumberedUnique | src-tauri/src/infrastructure/database/connection.rs:68 | a table built by saves has unique `(entity, version)` pairs |
| VersionTables.TopWhere | src-tauri/src/infrastructure/repositories/sqlite_project_repository.rs:301-337 | the first row under `ORDER BY effective_at DESC, version DESC` among the qualifying rows; none iff no row qualifies |
| VersionTables.CurrentView | src-tauri/src/infrastructure/database/connection.rs:104-118 | the view holds exactly the rows with their entity's largest `effective_at` and, among those, its largest version |
| VersionTables.InViewIffTop | src-tauri/src/infrastructure/database/connection.rs:104-118 | a row is in the view iff it ranks first among its entity's rows by time, then version |
| VersionTables.TopIsUnique | src-tauri/src/infrastructure/database/connection.rs:68 | with unique versions, two rows that both rank first for an entity are the same row |
| VersionTables.ViewOnePerEntity | src-tauri/src/infrastructure/database/connection.rs:104-135 | with unique versions, the view has at most one row per entity |
| VersionTables.ViewCovers | src-tauri/src/infrastructure/database/connection.rs:115-118 | an entity has a view row iff it has some version row |
| VersionTables.ViewOfSameRows | src-tauri/src/infrastructure/database/connection.rs:104-135 | the view depends only on the set of rows, not on insertion order |
| VersionTables.ViewRowIsTop | src-tauri/src/infrastructure/repositories/sqlite_project_repository.rs:68-100 | reading an entity from the view gives the same row as ranking its versions directly |
| VersionTables.Collect | src-tauri/src/infrastructure/repositories/sqlite_project_repository.rs:102-138 | the row loop with `?`: succeeds iff every row rebuilds, giving them in order; otherwise fails with the error of some row |
| Database.ProjectView | src-tauri/src/infrastructure/database/connection.rs:104-118 | `project_current_view` holds exactly the top-ranked version row of each project |
| Database.TaskView | src-tauri/src/infrastructure/database/connection.rs:121-135 | `task_current_view` holds exactly the top-ranked version row of each task, with that version's project |
| Database.ViewsOnePerEntity | src-tauri/src/infrastructure/database/connection.rs:104-135 | under the schema, each view has at most one row per entity |
| Database.ViewsCover | src-tauri/src/infrastructure/database/connection.rs:115-135 | an entity has a current row iff it has a version row |
| SqliteProjectRepository.DataOf | src-tauri/src/infrastructure/repositories/sqlite_project_repository.rs:50-65 | the stored columns keep the name, and the status string satisfies the CHECK and parses back |
| SqliteProjectRepository.Save | src-tauri/src/infrastructure/repositories/sqlite_project_repository.rs:33-66 | never fails; the id is registered; exactly one row is appended after the unchanged earlier rows, holding the project with the next version above the project's earlier versions; the task table is untouched; the schema stays valid |
| SqliteProjectRepository.RebuildAs | src-tauri/src/infrastructure/repositories/sqlite_project_repository.rs:88-94 | a row rebuilds iff its status parses and its name passes; an archived row comes back stamped with the clock; the same rebuild serves `sqlite_project_repository.rs` lines 288-294 (`find_history`) and 325-331 (`find_at_time`) |
| SqliteProjectRepository.Rebuild | src-tauri/src/infrastructure/repositories/sqlite_project_repository.rs:82-94 | the id column is checked before anything else |
| SqliteProjectRepository.RebuildActive | src-tauri/src/infrastructure/repositories/sqlite_project_repository.rs:116-131 | `find_all_active` does not read the status: rows rebuild as active projects with their stored stamp |
| SqliteProjectRepository.Query | src-tauri/src/infrastructure/repositories/sqlite_project_repository.rs:102-241 | a query over the current view holds exactly the view rows that satisfy its WHERE clause |
| SqliteProjectRepository.FindById | src-tauri/src/infrastructure/repositories/sqlite_project_repository.rs:68-100 | none iff the id has no version row; a project found has that id |
| SqliteProjectRepository.FindAllActive | src-tauri/src/infrastructure/repositories/sqlite_project_repository.rs:102-138 | every project returned is active |
| SqliteProjectRepository.FindAll | src-tauri/src/infrastructure/repositories/sqlite_project_repository.rs:140-172 | at most one project per view row |
| SqliteProjectRepository.FindByStatus | src-tauri/src/infrastructure/repositories/sqlite_project_repository.rs:174-206 | every project returned has the status |
| SqliteProjectRepository.FindByNamePrefix | src-tauri/src/infrastructure/repositories/sqlite_project_repository.rs:208-241 | at most one project per view row |
| SqliteProjectRepository.NextId | src-tauri/src/infrastructure/repositories/sqlite_project_repository.rs:243-254 | read-only; the id returned is not registered, and it is returned whenever all registered ids are positive |
| SqliteProjectRepository.FindHistory | src-tauri/src/infrastructure/repositories/sqlite_project_repository.rs:269-299 | one project per version row of the id, all with that id |
| SqliteProjectRepository.FindHistoryKeepingStamps | src-tauri/src/infrastructure/repositories/sqlite_project_repository.rs:269-299 | corrected history: one project per version row, archived versions keeping their stored stamp |
| SqliteProjectRepository.FindAtTime | src-tauri/src/infrastructure/repositories/sqlite_project_repository.rs:301-337 | none iff every version of the id is later than the time; a project found has that id |
| SqliteProjectMirror.InitialMirrors | src-tauri/src/infrastructure/database/connection.rs:46-98 | the empty schema mirrors the empty in-memory repository |
| SqliteProjectMirror.SaveMirrors | src-tauri/src/infrastructure/repositories/sqlite_project_repository.rs:33-66 | saving the same project to both stores keeps them mirrored |
| SqliteProjectMirror.ExistsAgrees | src-tauri/src/infrastructure/repositories/sqlite_project_repository.rs:256-267 | `exists` agrees with the in-memory repository |
| SqliteProjectMirror.NextIdIsFresh | src-tauri/src/infrastructure/repositories/sqlite_project_repository.rs:243-254 | on mirrored stores, `next_id` succeeds with an id nobody has saved |
| SqliteProjectMirror.RebuildStored | src-tauri/src/infrastructure/repositories/sqlite_project_repository.rs:82-94 | a stored valid project rebuilds as its reloaded form; an active one rebuilds unchanged |
| SqliteProjectMirror.TopIsLatest | src-tauri/src/infrastructure/database/connection.rs:104-118 | the SQL ranking and the in-memory `max_by_key` choose the same version |
| SqliteProjectMirror.FindByIdAgrees | src-tauri/src/infrastructure/repositories/sqlite_project_repository.rs:68-100 | the SQLite `find_by_id` returns the in-memory current project, reloaded |
| SqliteProjectMirror.FindAtTimeAgrees | src-tauri/src/infrastructure/repositories/sqlite_project_repository.rs:301-337 | the SQLite `find_at_time` returns the in-memory version at that time, reloaded |
| SqliteProjectMirror.ListingAgrees | src-tauri/src/infrastructure/repositories/sqlite_project_repository.rs:102-241 | a listing whose WHERE clause matches an in-memory filter succeeds and holds exactly the matching current projects, reloaded |
| SqliteProjectMirror.FindAllAgrees | src-tauri/src/infrastructure/repositories/sqlite_project_repository.rs:140-172 | `find_all` holds exactly the in-memory current projects, reloaded |
| SqliteProjectMirror.FindAllActiveAgrees | src-tauri/src/infrastructure/repositories/sqlite_project_repository.rs:102-138 | `find_all_active` holds exactly the in-memory active current projects |
| SqliteProjectMirror.FindByStatusAgrees | src-tauri/src/infrastructure/repositories/sqlite_project_repository.rs:174-206 | `find_by_status` holds exactly the in-memory current projects with the status, reloaded |
| SqliteProjectMirror.FindByNamePrefixAgrees | src-tauri/src/infrastructure/repositories/sqlite_project_repository.rs:208-241 | `find_by_name_prefix` holds exactly the in-memory current projects with the prefix, reloaded |
| SqliteProjectMirror.HistoryRows | src-tauri/src/infrastructure/repositories/sqlite_project_repository.rs:269-299 | the ordered version rows of an id are the in-memory history, field for field; versions with equal stamps are in save order, the model's choice for ties |
| SqliteProjectMirror.HistoryAgrees | src-tauri/src/infrastructure/repositories/sqlite_project_repository.rs:269-299 | as written: the SQLite history is the in-memory history with every archived version restamped with the clock; versions with equal stamps are in save order, the model's choice for ties |
| SqliteProjectMirror.HistoryRestampsArchived | src-tauri/src/infrastructure/repositories/sqlite_project_repository.rs:293 | a project opened at 10 and archived at 20, read at clock 5, shows its archived version at time 5 |
| SqliteProjectMirror.HistoryKeepingStampsAgrees | src-tauri/src/infrastructure/repositories/sqlite_project_repository.rs:269-299 | corrected: the history keeping stored stamps is exactly the in-memory history; versions with equal stamps are in save order, the model's choice for ties |
| SqliteProjectMirror.HistoryKeepsArchivedStamp | src-tauri/src/infrastructure/repositories/sqlite_project_repository.rs:269-299 | corrected: the same example keeps the archived version at time 20 |
| SqliteTaskRepository.DataOf | src-tauri/src/infrastructure/repositories/sqlite_task_repository.rs:81-93 | the stored columns keep the project and the name, and the status string satisfies the CHECK and parses back |
| SqliteTaskRepository.Save | src-tauri/src/infrastructure/repositories/sqlite_task_repository.rs:33-106 | the task id is registered idempotently; the version insert succeeds iff the project id is registered; on success one row with the next version is appended; on failure no version row is added but the id stays registered |
| SqliteTaskRepository.RebuildAs | src-tauri/src/infrastructure/repositories/sqlite_task_repository.rs:122-135 | the project id, then the status, then the name are checked; an archived row comes back stamped with the clock; the same rebuild serves `sqlite_task_repository.rs` lines 424-430 (`find_history`) and 463-469 (`find_at_time`) |
| SqliteTaskRepository.Rebuild | src-tauri/src/infrastructure/repositories/sqlite_task_repository.rs:122-135 | the task id column is checked before anything else |
| SqliteTaskRepository.RebuildActive | src-tauri/src/infrastructure/repositories/sqlite_task_repository.rs:196-206 | the active-task queries do not read the status: rows rebuild as active tasks with their stored stamp |
| SqliteTaskRepository.Query | src-tauri/src/infrastructure/repositories/sqlite_task_repository.rs:144-351 | a query over the current view holds exactly the view rows that satisfy its WHERE clause |
| SqliteTaskRepository.FindById | src-tauri/src/infrastructure/repositories/sqlite_task_repository.rs:108-142 | none iff the id has no version row; a task found has that id |
| SqliteTaskRepository.FindByProjectId | src-tauri/src/infrastructure/repositories/sqlite_task_repository.rs:144-178 | every task returned is currently in the project |
| SqliteTaskRepository.FindActiveByProjectId | src-tauri/src/infrastructure/repositories/sqlite_task_repository.rs:180-210 | every task returned is currently in the project and active |
| SqliteTaskRepository.FindAllActive | src-tauri/src/infrastructure/repositories/sqlite_task_repository.rs:212-242 | every task returned is active |
| SqliteTaskRepository.FindAll | src-tauri/src/infrastructure/repositories/sqlite_task_repository.rs:244-278 | at most one task per view row |
| SqliteTaskRepository.FindByStatus | src-tauri/src/infrastructure/repositories/sqlite_task_repository.rs:280-314 | every task returned has the status |
| SqliteTaskRepository.FindByNamePrefix | src-tauri/src/infrastructure/repositories/sqlite_task_repository.rs:316-351 | at most one task per view row |
| SqliteTaskRepository.NextId | src-tauri/src/infrastructure/repositories/sqlite_task_repository.rs:353-389 | `MAX(id) + 1` with no reservation: the id returned is not registered |
| SqliteTaskRepository.FindHistory | src-tauri/src/infrastructure/repositories/sqlite_task_repository.rs:404-436 | one task per version row of the id, all with that id |
| SqliteTaskRepository.FindHistoryKeepingStamps | src-tauri/src/infrastructure/repositories/sqlite_task_repository.rs:404-436 | corrected history: archived versions keep their stored stamp |
| SqliteTaskRepository.FindAtTime | src-tauri/src/infrastructure/repositories/sqlite_task_repository.rs:438-476 | none iff every version of the id is later than the time; a task found has that id |
| SqliteTaskRepository.CountByProjectId | src-tauri/src/infrastructure/repositories/sqlite_task_repository.rs:478-481 | the count is the length of `find_by_project_id`, and fails exactly when it fails |
| SqliteTaskRepository.FindByProjectIdOrdered | src-tauri/src/infrastructure/repositories/sqlite_task_repository.rs:483-487 | a permutation of `find_by_project_id`, sorted by name |
| SqliteTaskMirror.InitialMirrors | src-tauri/src/infrastructure/database/connection.rs:72-88 | the empty schema mirrors the empty in-memory task repository |
| SqliteTaskMirror.SaveMirrors | src-tauri/src/infrastructure/repositories/sqlite_task_repository.rs:33-106 | saving a task whose project is registered succeeds and keeps both stores mirrored |
| SqliteTaskMirror.SaveWithoutProjectOrphansId | src-tauri/src/infrastructure/repositories/sqlite_task_repository.rs:43-105 | saving a new task whose project is not registered fails on the foreign key, yet `exists` now holds while `find_by_id` finds nothing, unlike the in-memory repository |
| SqliteTaskMirror.ExistsAgrees | src-tauri/src/infrastructure/repositories/sqlite_task_repository.rs:391-402 | `exists` agrees with the in-memory repository |
| SqliteTaskMirror.NextIdIsFresh | src-tauri/src/infrastructure/repositories/sqlite_task_repository.rs:353-389 | on mirrored stores, `next_id` succeeds with an id nobody has saved |
| SqliteTaskMirror.RebuildStored | src-tauri/src/infrastructure/repositories/sqlite_task_repository.rs:122-135 | a stored valid task rebuilds as its reloaded form; an active one rebuilds unchanged |
| SqliteTaskMirror.TopIsLatest | src-tauri/src/infrastructure/database/connection.rs:121-135 | the SQL ranking and the in-memory `max_by_key` choose the same version |
| SqliteTaskMirror.FindByIdAgrees | src-tauri/src/infrastructure/repositories/sqlite_task_repository.rs:108-142 | the SQLite `find_by_id` returns the in-memory current task, reloaded |
| SqliteTaskMirror.FindAtTimeAgrees | src-tauri/src/infrastructure/repositories/sqlite_task_repository.rs:438-476 | the SQLite `find_at_time` returns the in-memory version at that time, reloaded |
| SqliteTaskMirror.ListingAgrees | src-tauri/src/infrastructure/repositories/sqlite_task_repository.rs:144-351 | a listing whose WHERE clause matches an in-memory filter succeeds and holds exactly the matching current tasks, reloaded |
| SqliteTaskMirror.FindAllAgrees | src-tauri/src/infrastructure/repositories/sqlite_task_repository.rs:244-278 | `find_all` holds exactly the in-memory current tasks, reloaded |
| SqliteTaskMirror.FindAllActiveAgrees | src-tauri/src/infrastructure/repositories/sqlite_task_repository.rs:212-242 | `find_all_active` holds exactly the in-memory active current tasks |
| SqliteTaskMirror.FindByStatusAgrees | src-tauri/src/infrastructure/repositories/sqlite_task_repository.rs:280-314 | `find_by_status` holds exactly the in-memory current tasks with the status, reloaded |
| SqliteTaskMirror.FindByNamePrefixAgrees | src-tauri/src/infrastructure/repositories/sqlite_task_repository.rs:316-351 | `find_by_name_prefix` holds exactly the in-memory current tasks with the prefix, reloaded |
| SqliteTaskMirror.FindByProjectIdAgrees | src-tauri/src/infrastructure/repositories/sqlite_task_repository.rs:144-178 | `find_by_project_id` holds exactly the in-memory tasks currently in the project, reloaded |
| SqliteTaskMirror.FindActiveByProjectIdAgrees | src-tauri/src/infrastructure/repositories/sqlite_task_repository.rs:180-210 | `find_active_by_project_id` holds exactly the in-memory active tasks currently in the project |
| SqliteTaskMirror.FindByProjectIdIdsDistinct | src-tauri/src/infrastructure/repositories/sqlite_task_repository.rs:144-178 | with unique versions, `find_by_project_id` lists each task at most once |
| SqliteTaskMirror.CountByProjectIdAgrees | src-tauri/src/infrastructure/repositories/sqlite_task_repository.rs:478-481 | the SQLite count equals the in-memory count, archived tasks included |
| SqliteTaskMirror.FindByProjectIdOrderedAgrees | src-tauri/src/infrastructure/repositories/sqlite_task_repository.rs:483-487 | the ordered listing holds exactly the in-memory tasks of the project, reloaded |
| SqliteTaskMirror.HistoryRows | src-tauri/src/infrastructure/repositories/sqlite_task_repository.rs:404-436 | the ordered version rows of an id are the in-memory history, field for field; versions with equal stamps are in save order, the model's choice for ties |
| SqliteTaskMirror.HistoryAgrees | src-tauri/src/infrastructure/repositories/sqlite_task_repository.rs:404-436 | as written: the SQLite history is the in-memory history with every archived version restamped with the clock; versions with equal stamps are in save order, the model's choice for ties |
| SqliteTaskMirror.HistoryKeepingStampsAgrees | src-tauri/src/infrastructure/repositories/sqlite_task_repository.rs:404-436 | corrected: the history keeping stored stamps is exactly the in-memory history; versions with equal stamps are in save order, the model's choice for ties |
| SqliteTaskMirror.HistoryRestampsArchived | src-tauri/src/infrastructure/repositories/sqlite_task_repository.rs:430 | a task opened at 10 and archived at 20, read at clock 5, shows its archived version at time 5 |
| SqliteTaskMirror.HistoryKeepsArchivedStamp | src-tauri/src/infrastructure/repositories/sqlite_task_repository.rs:404-436 | corrected: the same example keeps the archived version at time 20 |

## Left out

- Tauri command dispatch, `main`, configuration and the dependency wiring in
  `application_service.rs`: they map errors to strings, log and wire objects, and hold no
  domain logic.
- The SQLite time-entry repository: the tables and view it queries are not created by the
  schema. The in-memory event log stands in for it.
- `async`, the mutexes and concurrency: each repository call is one atomic step on an
  immutable value.
- `chrono`: instants are whole seconds, and RFC 3339 text is not spelled out character by
  character. `Timestamps.Stamp` tells apart the two spellings the program writes
  (`to_rfc3339`'s `+00:00`, `format_datetime`'s `Z`), any other accepted spelling and
  rejected text. Fractional seconds in an accepted spelling and the sub-second truncation
  of `format_datetime` are not modelled.
- One clock reading per operation: the source calls `Utc::now()` once per stop, start and
  annotation it creates, and once per `archive()`. The model passes one `clock` to the whole
  operation, so all of these get the same stamp where the program's are non-decreasing
  readings. Which intervals run does not depend on the stamps. Which versions become
  current would be the same for separate readings, provided the first reading is not behind
  any saved stamp; that is not proved.
- TimeTrackingService.StopEach, TimeTrackingService.StopOthers, TimeTrackingService.StartTimer
  and TimeTrackingService.StopAllTimers: "each stop stamped with the clock" and "the start
  at the clock" hold for the one merged reading, not for the separate `Utc::now()` calls.
- TimeTrackingService.AddManualEntry: the annotation's stamp is the same merged `clock`.
- ProjectManagementService.ArchiveEach, ProjectManagementService.ArchiveEachAppends and
  ProjectManagementService.ArchiveProjectWithTasks: every archived task and the project
  share one `clock` instead of one `Utc::now()` per `archive()`.
- Fixed-width timestamp text: SQLite compares `effective_at` as text. The model compares
  integers, which assumes every stored stamp has the same width, as `format_datetime`
  produces.
- `i64` overflow of ids, versions, counters and durations: integers are unbounded.
- `LIKE`: read as a case-sensitive prefix test. SQLite's ASCII case folding and `%`/`_`
  inside the prefix are not modelled.
- Row order of SQL queries with no `ORDER BY`: the model uses view order, and contracts
  about these listings state membership, not order.
- Ties under `find_history`'s `ORDER BY effective_at`: stamps are whole seconds, so two
  saves in one second tie, and SQLite may return them in any order. The model sorts stably
  in save order. The history lemmas (`SqliteProjectMirror.HistoryAgrees`,
  `SqliteProjectMirror.HistoryKeepingStampsAgrees` and their `SqliteTaskMirror`
  counterparts) equate whole sequences, so they fix that tie order. For the program they
  hold only up to the order of equal-stamp versions.
- `HashMap` iteration order in the in-memory repositories: modelled as first-save order of
  the keys. Contracts state only order-independent facts, except where the source sorts.
- The `get_*` use cases that only forward to a repository (`get_project`,
  `get_all_projects`, `get_task_history` and similar), `get_current_timer`,
  `stop_all_timers` at use-case level, `get_project_entries`, `get_project_total_duration`
  and the logging in `get_recent_entries`: each is one call to a modelled member.
- The `schema_migrations` table and the indexes: they do not change query results.
- The request DTOs other than the time-entry requests only copy fields.
- Tags, retries on version conflicts, and orphan-stop backfills: there is no
  implementation of them.
- SqliteProjectRepository.FindById: its own contract states only presence, id, status or length; which versions come back is `SqliteProjectMirror.FindByIdAgrees`.
- SqliteProjectRepository.FindAtTime: its own contract states only presence, id, status or length; which versions come back is `SqliteProjectMirror.FindAtTimeAgrees`.
- SqliteProjectRepository.FindAllActive: its own contract states only presence, id, status or length; which versions come back is `SqliteProjectMirror.FindAllActiveAgrees`.
- SqliteProjectRepository.FindByStatus: its own contract states only presence, id, status or length; which versions come back is `SqliteProjectMirror.FindByStatusAgrees`.
- SqliteProjectRepository.FindHistory: its own contract states only presence, id, status or length; which versions come back is `SqliteProjectMirror.HistoryAgrees`.
- SqliteTaskRepository.FindById: its own contract states only presence, id, project, status or length; which versions come back is `SqliteTaskMirror.FindByIdAgrees`.
- SqliteTaskRepository.FindAtTime: its own contract states only presence, id, project, status or length; which versions come back is `SqliteTaskMirror.FindAtTimeAgrees`.
- SqliteTaskRepository.FindByProjectId: its own contract states only presence, id, project, status or length; which versions come back is `SqliteTaskMirror.FindByProjectIdAgrees`.
- SqliteTaskRepository.FindActiveByProjectId: its own contract states only presence, id, project, status or length; which versions come back is `SqliteTaskMirror.FindActiveByProjectIdAgrees`.
- SqliteTaskRepository.FindAllActive: its own contract states only presence, id, project, status or length; which versions come back is `SqliteTaskMirror.FindAllActiveAgrees`.
- SqliteTaskRepository.FindByStatus: its own contract states only presence, id, project, status or length; which versions come back is `SqliteTaskMirror.FindByStatusAgrees`.
- SqliteTaskRepository.FindHistory: its own contract states only presence, id, project, status or length; which versions come back is `SqliteTaskMirror.HistoryAgrees`.
- SqliteProjectRepository.FindAll: its own contract only bounds the length. The full
  agreement with the in-memory `find_all` is `SqliteProjectMirror.FindAllAgrees`.
- SqliteProjectRepository.FindByNamePrefix: its own contract only bounds the length; the
  full property is `SqliteProjectMirror.FindByNamePrefixAgrees`.
- SqliteTaskRepository.FindAll: its own contract only bounds the length; the full property
  is `SqliteTaskMirror.FindAllAgrees`.
- SqliteTaskRepository.FindByNamePrefix: its own contract only bounds the length; the full
  property is `SqliteTaskMirror.FindByNamePrefixAgrees`.
- SqliteTaskMirror.FindByProjectIdOrderedAgrees: states membership only, not that the two
  orders coincide. Names may tie, and SQLite's tie order is not modelled.
- TimeTrackingService.GetRunningTask: states that the task has a running interval, not
  that it is the newest one. With at most one interval running, which `start_timer`
  keeps, the two are the same.
- TimeTrackingUseCases.GetRecentTaskEntries: states the bound and the task. The newest-first
  prefix property is on `TimeEntryRepository.FindRecentEntriesByTask`.

## Findings

| source | as written | input that shows it | evidently intended | confidence | as-written member | corrected member |
|---|---|---|---|---|---|---|
| src-tauri/src/application/use_cases/project_use_cases.rs:77 | `create_project` checks uniqueness on the name as typed but stores the trimmed name | an existing project "A" and a new project named " A" | project names unique after trimming | medium, not executed | ProjectUseCases.CreateRawCheckAdmitsDuplicate | ProjectUseCases.CreateProjectKeepsNamesDistinct |
| src-tauri/src/application/use_cases/project_use_cases.rs:104-105 | `update_project` compares and checks the name as typed | projects "A" and "B", renaming "B" to " A" | project names unique after trimming | medium, not executed | ProjectUseCases.UpdateRawCheckAdmitsDuplicate | ProjectUseCases.UpdateProjectKeepsNamesDistinct |
| src-tauri/src/infrastructure/repositories/sqlite_project_repository.rs:293 | `find_history` rebuilds an archived version with `archive()`, which stamps it with the current time | project 1 saved active at 10 and archived at 20, history read at clock 5 | each version keeps its stored `effective_at` | high, not executed | SqliteProjectMirror.HistoryRestampsArchived | SqliteProjectMirror.HistoryKeepsArchivedStamp |
| src-tauri/src/infrastructure/repositories/sqlite_task_repository.rs:430 | `find_history` of tasks restamps archived versions the same way | task 1 saved active at 10 and archived at 20, history read at clock 5 | each version keeps its stored `effective_at` | high, not executed | SqliteTaskMirror.HistoryRestampsArchived | SqliteTaskMirror.HistoryKeepsArchivedStamp |
