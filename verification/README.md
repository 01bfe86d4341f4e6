# gant-planner in Dafny

A model of the core of gant-planner, a Gantt-style queue planner. Tasks last a whole number of
days ("mandays"). Each task sits either in a backlog or in the queue of one staff member.
The model covers the rules behind the drag-and-drop board:

- **Ordering keys on the server** (`KeySpace`, `ServerApi`, `VercelApi`). Every task has one
  assignment: a staff member or none (the backlog), plus a real-valued key. A queue is the set
  of assignments of one staff member, read in ascending key order. New keys come from
  `maxPosition + 1024`, from the midpoint of two neighbours, or from a neighbour ± 1.
  Deleting a staff member re-keys their queue onto the end of the backlog. A listing joins the
  queue to the task rows, keeping the queue order. `ServerApi.Server` is the
  apps/api/src/server.ts variant, which checks ownership and the current project.
  `VercelApi.Store` is the api/index.ts variant, which does not, and which also has the CSV
  export. The database is a pair of maps the methods update; ordered queries are methods whose
  result is specified by the `KeySpace.IsQueue` relation.
- **The browser-only planner** of app.js (`Planner`, a class `State` holding `tasks`, `backlog`
  and `staff` as sequences). It covers the actions on tasks and staff, the date axis and the
  horizon, the CSV export and import, and its CSV parser (`Csv`) and HTML escaping (`Html`).
- **The drag resolvers**. `BoardDrag` covers `findContainerOf` and `onDragEnd` of Board.tsx.
  `BacklogReorder` covers `onDragEnd` of BacklogPanel.tsx.
- **The timelines**. `Calendar` holds working-day axes over integer day numbers. `Gantt`
  covers the axis, the row layout, the `positions` lookup, drag hints, edge hover, the horizon
  and name truncation of Gantt.tsx. `SharedGantt` covers the read-only view of SharedGantt.tsx.
- **Greedy auto-assign** (`AutoAssign`): the `useAutoAssign` hook's list scheduling.
- **Small helpers**:
  - `UrlUtil` models `normalizeUrl`.
  - `Hue` models the 32-bit string hash behind `hashHue` and `hueFromString`.
  - `Themes` models the themes-summary pipeline.
  - `ThemesPanel` models the two themes panels.
  - `Text` models the JavaScript string operations they share.

Shared concepts are defined once. There are three copies of `csvEscape`, two of
`maxPosition`/`nextPosition`, two of `buildAxis` and four of the hue hash. The copies are
identical, so the model has one `Csv.Escape`, one `KeySpace` key rule, one `Gantt.BuildAxis`
and one `Hue.StringHash`. The same hue code is at apps/web/src/components/ThemesPanel.tsx:4-7,
apps/web/src/components/Gantt.tsx:25-29 and apps/web/src/components/SharedGantt.tsx:22-26.

Keys are `real`. Dates are integer day numbers, with day 0 a Thursday. Randomly generated ids
(`uid`, `cuid`) are parameters that stand for the fresh id. `parseFloat` in the importer is
the function parameter `parseDays`.

## Model

| member | source | states |
|---|---|---|
| KeySpace.NextPosition | apps/api/src/server.ts:199-202 | a key made from a base lies strictly above that base |
| KeySpace.MaxPosition | apps/api/src/server.ts:187-197 | the result is the largest key among the queue's assignments, or 0 when the queue is empty |
| KeySpace.QueueOf | apps/api/src/server.ts:396-400 | a queue read with ORDER BY position holds exactly that staff member's (or the backlog's) assignments, once each, in non-decreasing key order |
| KeySpace.InsertionIndex | api/index.ts:113 | the index where a key enters a sorted queue: every key before it is not above the key, every key after it is above |
| KeySpace.NeighbourKey | apps/api/src/server.ts:606-617 | a neighbour is found exactly when its id is given, non-empty and has an assignment, and then its key is that assignment's key; an unknown id counts as absent |
| KeySpace.MoveKey | apps/api/src/server.ts:604-626 | the key of a move: midpoint when both neighbours are found, before + 1 with only before, after − 1 with only after, else the target queue's maximum + 1024, in that order |
| KeySpace.RemoveFromQueue | apps/api/src/server.ts:628-631 | taking a task out of a queue leaves the rest of that queue, in order, as the queue of the remaining assignments |
| KeySpace.DeleteSorted | apps/api/src/server.ts:628-631 | taking a task out of a queue in key order leaves the rest of the queue in key order |
| KeySpace.Landing | apps/api/src/server.ts:628-631 | a key not below the first i tasks of the target queue and not above the rest puts the moved task at index i of that queue |
| KeySpace.MidpointBetween | apps/api/src/server.ts:618-619 | with before < after, the midpoint lies strictly between them |
| KeySpace.MoveBetween | apps/api/src/server.ts:618-619 | moving between two adjacent tasks with different keys places the task between them in the target queue |
| KeySpace.MoveAfterBefore | apps/api/src/server.ts:620-621 | before + 1 places the task right after before, when the next key is more than 1 above before's |
| KeySpace.MoveBeforeAfter | apps/api/src/server.ts:622-623 | after − 1 places the task right before after, when the previous key is more than 1 below after's |
| KeySpace.MoveToEnd | apps/api/src/server.ts:624-626 | maximum + 1024 places the task last in the target queue |
| KeySpace.PlusOneOvershoots | apps/api/src/server.ts:620-621 | once keys are closer than 1 apart, before + 1 overshoots the next task (keys 0 and 0.5), so the ±1 rule keeps order only under a gap condition |
| KeySpace.MoveKeepsOtherQueues | apps/api/src/server.ts:628-631 | a move leaves every other queue as it was |
| KeySpace.RekeyToBacklog | apps/api/src/server.ts:364-371 | the re-keying loop gives the k-th task of the deleted staff member's queue the key base + 1024·(k+1) in the backlog and changes nothing else |
| KeySpace.RekeyEmptiesQueue | apps/api/src/server.ts:358-371 | after re-keying, no assignment names the deleted staff member |
| KeySpace.RekeyAppendsToBacklog | apps/api/src/server.ts:358-371 | after re-keying, the backlog is the old backlog followed by the deleted member's queue in its old order |
| KeySpace.RekeyKeepsOtherQueues | apps/api/src/server.ts:364-371 | re-keying leaves every other staff member's queue unchanged |
| KeySpace.MoveQueueToBacklog | apps/api/src/server.ts:358-371 | reads the staff member's queue in key order and gives its k-th task the backlog key base + 1024·(k+1), base being the largest backlog key (0 when empty), leaving every other assignment as it was; other queues keep their order, no assignment is lost, no assignment names the staff member any more, and nothing changes for an empty queue |
| KeySpace.AppendToBacklog | apps/api/src/server.ts:479-486 | a new task keyed maximum + 1024 ends the backlog and is above every backlog key; on an empty backlog its key is 1024 |
| KeySpace.AppendToBacklogAll | api/index.ts:136-137 | the same for every reading of the backlog at once |
| KeySpace.JoinMembers | apps/api/src/server.ts:410-411 | the join holds exactly the queue ids that the task query found |
| KeySpace.JoinKeepsOrder | apps/api/src/server.ts:396-411 | the join of a sorted queue without repeats is sorted, without repeats, and holds exactly the found ids |
| ServerApi.ListingOf | apps/api/src/server.ts:384-392 | a staff listing exactly when staff_id is a non-empty string; the backlog exactly when it is not and unassigned is "true"; otherwise every task |
| ServerApi.Server.CreateTask | apps/api/src/server.ts:424-490 | validation error exactly for a blank name or mandays < 1; no-project error exactly when the input is valid and no project is selected; nothing is written on error; on success the trimmed task is stored and its assignment ends every reading of the backlog (1024 on an empty backlog) |
| ServerApi.Server.InsertTask | apps/api/src/server.ts:465-488 | the transaction adds the task row and a backlog assignment that ends the backlog, and nothing else |
| ServerApi.Server.MoveTask | apps/api/src/server.ts:568-634 | an error exactly for an empty id, a task not owned in the current project, or a target staff member not owned there; nothing is written on error; otherwise only the task's assignment changes, to the target queue with the key of the four-branch rule |
| ServerApi.Server.DeleteStaff | apps/api/src/server.ts:343-375 | 404 with no change exactly when the staff member is not the caller's in the current project; otherwise the member is deleted, the k-th task of their queue gets the backlog key base + 1024·(k+1) above the largest backlog key, every other assignment is untouched, their queue is appended in order to every reading of the backlog, and the other queues are unchanged |
| ServerApi.Server.ListTasks | apps/api/src/server.ts:378-422 | empty without a current project; a queue listing is the key-ordered queue joined to the caller's tasks; the unfiltered listing holds each of the caller's tasks once |
| ServerApi.Server.ThemesSummary | apps/api/src/server.ts:637-664 | empty without a current project; otherwise a permutation of the non-blank theme groups, sorted by total (largest first), with equal totals in database order |
| ServerApi.ListingInKeyOrder | apps/api/src/server.ts:395-411 | a queue listing comes back in ascending key order, without repeats, and holds exactly the found tasks of that queue; ids without a task are dropped |
| VercelApi.ExportLine | api/index.ts:228 | the line the route writes is the standard CSV encoding of the task's cells |
| VercelApi.ExportLineCells | api/index.ts:228-240 | writing mandays as a bare number and the empty staff cell without escaping is the same as escaping every cell |
| VercelApi.RowsOf | api/index.ts:226-229 | every row of a queue has five cells |
| VercelApi.RowsFollowJoin | api/index.ts:225-229 | the k-th row of a queue is the k-th found task of the queue, so rows follow the queue order |
| VercelApi.StaffRows | api/index.ts:233-242 | every staff row has five cells |
| VercelApi.QueueIdsPrefix | api/index.ts:233-242 | the staff queues read so far list, without repeats, exactly the tasks assigned to those staff members |
| VercelApi.ExportCoversTasks | api/index.ts:222-242 | the export lists every task exactly once: backlog and staff rows are disjoint and together cover all tasks |
| VercelApi.InsertByName | api/index.ts:232 | inserting a staff member after every name that sorts before or equal to its own keeps the list ordered by name |
| VercelApi.Store.CreateTask | api/index.ts:124-141 | validation error exactly for a blank name or mandays < 1, with no write; on success the trimmed task is stored and its assignment ends every reading of the backlog |
| VercelApi.Store.InsertTask | api/index.ts:134-139 | the transaction adds the task row and a backlog assignment that ends the backlog, and nothing else |
| VercelApi.Store.MoveTask | api/index.ts:164-191 | validation error exactly for an empty id; database error exactly when the task has no assignment or the target staff member does not exist; otherwise only the task's assignment changes, keyed by the four-branch rule |
| VercelApi.Store.DeleteStaff | api/index.ts:87-101 | the k-th task of the queue, read in key order, gets the backlog key base + 1024·(k+1) above the largest backlog key and every other assignment is untouched; the queue is appended to every reading of the backlog and other queues are unchanged; the delete fails exactly when the staff member does not exist, and then nothing changes |
| VercelApi.Store.ListTasks | api/index.ts:104-122 | a queue listing is the key-ordered queue joined to the tasks; the unfiltered listing holds each task once |
| VercelApi.Store.StaffByName | api/index.ts:76-79 | the staff ids, each once, ordered by name |
| VercelApi.Store.InsertByNameAt | api/index.ts:77 | one insertion step keeps the ids distinct and ordered by name and adds exactly the new id |
| VercelApi.Store.PushQueue | api/index.ts:226-229 | the lines of one queue are the encodings of its rows, appended after the lines so far |
| VercelApi.Store.PushStaff | api/index.ts:233-242 | each staff member's queue, read in key order, adds its rows in the given staff order |
| VercelApi.Store.PushStaffQueue | api/index.ts:234-241 | one staff member's queue, read in key order, adds its rows with that member's name |
| VercelApi.Store.ExportCsv | api/index.ts:213-249 | the text is the header, the backlog rows in key order, then each staff member's rows by name and key order, joined by CRLF; parsing the text gives back exactly those rows |
| VercelApi.HeaderLine | api/index.ts:219-220 | the header line is the encoding of the header cells |
| VercelApi.ExportParses | api/index.ts:244 | rows of five cells under the header parse back from the export text unchanged |
| Themes.Themed | apps/api/src/server.ts:655-661 | no summary item has a blank theme, and there are no more items than groups |
| Themes.ThemedExactly | apps/api/src/server.ts:656 | an item is in the filtered list exactly when a group with a non-blank theme produced it |
| Themes.Insert | apps/api/src/server.ts:662 | one insertion step of the sort adds exactly the inserted item |
| Themes.SortByTotal | apps/api/src/server.ts:662 | the sort is a permutation of its input |
| Themes.InsertSorted | apps/api/src/server.ts:662 | inserting into a list sorted by decreasing total keeps it sorted |
| Themes.SortedByTotalOrders | apps/api/src/server.ts:662 | the sorted list is ordered by decreasing total |
| Themes.SortKeepsTies | apps/api/src/server.ts:662 | the sort is stable: the items of any one total keep their input order |
| Themes.SummaryIsSortedThemed | api/index.ts:196-199 | the summary is a permutation of the non-blank groups, sorted by decreasing total, stable, with no blank theme |
| Csv.DoubleQuotes | app.js:332 | doubling the quotes never shortens the field |
| Csv.Escape | app.js:330-334 | a field without `"`, `,`, CR or LF is written unchanged; any other field is wrapped in quotes |
| Csv.EscapeEachIndex | app.js:366 | each cell of a line is escaped on its own |
| Csv.JoinEscaped | app.js:366 | escaped fields joined by commas form the encoding of the line |
| Csv.JoinEncoded | app.js:366-367 | encoded lines joined by CRLF form the encoding of the rows |
| Csv.PlainField | app.js:332-333 | a field without special characters needs no quoting and is written as it is |
| Csv.PlainChars | app.js:478 | characters that are not special are copied into the current field |
| Csv.QuotedChars | app.js:465-467 | inside quotes a doubled quote stands for one quote and the closing quote ends the quoting |
| Csv.EscapedField | app.js:465-478 | an escaped field, followed by a comma, CR or the end, parses back to that field |
| Csv.EndLine | app.js:470-476 | a line break closes the field and the row; the row is kept unless it is one empty field |
| Csv.Finish | app.js:480-481 | at the end the last row is kept exactly when it holds anything |
| Csv.ParseCsv | app.js:457-483 | the parser loop returns the rows of the reference parse of the text |
| Csv.EncodedRowsParse | app.js:457-483 | the parser inverts the export encoding: encoded rows parse back to the same rows, unless a row is one empty field or the text starts with a byte-order mark |
| Csv.EmptyRowDropped | app.js:472 | a row that is one empty field encodes to an empty line, which the parser drops |
| Csv.FirstChar | app.js:462 | an encoded line whose first field does not start with a byte-order mark does not start with one |
| Html.EscapeChar | app.js:451-453 | a character is kept exactly when it is none of `& < > ' "`; the others become a reference starting with `&` and ending with `;` |
| Html.EscapeHtml | app.js:450-454 | escaping never shortens the text |
| Html.UnescapeEscapeHtml | app.js:450-454 | decoding the references of the escaped text gives back the original text |
| Html.EscapedIsInert | app.js:451-453 | the escaped text holds no `<`, `>`, quote or apostrophe |
| Html.EscapeKeepsPlainText | app.js:451-453 | escaping changes a text exactly when it holds one of the five characters |
| UrlUtil.NormalizeUrl | apps/web/src/shared/utils/url.ts:1-7 | undefined exactly for a missing or blank input; the trimmed input when it starts with an http(s) scheme; otherwise `https://` followed by the trimmed input |
| UrlUtil.NormalizedHasScheme | apps/web/src/shared/utils/url.ts:5-6 | every defined result is non-empty, trimmed and starts with an http(s) scheme |
| UrlUtil.NormalizeIdempotent | apps/web/src/shared/utils/url.ts:1-7 | normalising a normalised link changes nothing |
| Hue.ToInt32 | apps/web/src/features/tasks/ThemesPanel.tsx:8 | `h \|= 0` gives the signed 32-bit integer congruent to h modulo 2^32 |
| Hue.ToInt32Congruent | apps/web/src/features/tasks/ThemesPanel.tsx:7-8 | integers equal modulo 2^32 wrap to the same 32-bit value |
| Hue.CodeUnits | apps/web/src/features/tasks/ThemesPanel.tsx:7 | `charCodeAt` reads one unit for a character below U+10000 and two surrogates otherwise; the surrogates decode back to the character |
| Hue.Utf16 | apps/web/src/features/tasks/ThemesPanel.tsx:6-7 | a string has between one and two code units per character, each below 2^16 |
| Hue.Utf16OfBmp | apps/web/src/features/tasks/ThemesPanel.tsx:6-7 | for a string inside the Basic Multilingual Plane the code units are exactly its characters |
| Hue.Utf16Append | apps/web/src/features/tasks/ThemesPanel.tsx:6-7 | the code units of a concatenation are those of its parts, in order |
| Hue.StringHash | apps/web/src/features/tasks/ThemesPanel.tsx:5-9 | the hash of the code units is a signed 32-bit integer |
| Hue.ShiftSubtractIsTimes31 | apps/web/src/features/tasks/ThemesPanel.tsx:7-8 | `(h << 5) - h + c`, wrapped to 32 bits, is `31·h + c` wrapped to 32 bits |
| Hue.JsHueReduction | apps/web/src/features/tasks/ThemesPanel.tsx:10-11 | the truncating `%` plus 360 when negative is the non-negative remainder by 360 |
| Hue.HueFromString | apps/web/src/features/tasks/ThemesPanel.tsx:4-13 | the hue is the hash of the UTF-16 code units of the untrimmed string modulo 360, in [0, 360) |
| Hue.HashHue | apps/web/src/components/Gantt.tsx:25-29 | no hue exactly for a missing, empty or blank theme; otherwise the hash of the UTF-16 code units of the trimmed theme modulo 360, in [0, 360) |
| Calendar.WeekdayNext | app.js:31-34 | weekdays run 0..6 and Saturday (6) is followed by Sunday (0) |
| Calendar.WeekdayPeriodic | app.js:31-34 | the weekday repeats every seven days |
| Calendar.FiveWeekdays | app.js:31-34 | any seven consecutive days hold exactly five weekdays |
| Calendar.FirstWeek | app.js:31-34 | any seven consecutive days hold exactly five weekdays |
| Calendar.AxisDaysIsAxisFrom | app.js:45-59 | the axis days are strictly increasing, on the axis (no weekend when skipping), and none is skipped from the start on |
| Calendar.AxisDaysLength | app.js:49-55 | scanning one more day adds it to the axis exactly when it is on the axis |
| Calendar.AxisDaysWeek | app.js:49-55 | seven more scanned days add five axis days when skipping weekends and seven otherwise |
| Calendar.AxisDaysAtLeast | app.js:49-56 | n scanned days give at least five axis days per whole week, and exactly n without skipping |
| Planner.BuildDateAxis | app.js:45-59 | the axis is increasing, weekend-free when skipping and without gaps; it never holds more than count days and holds exactly count up to 7140, and exactly min(count, 10001) without skipping |
| Planner.Without | app.js:120 | filtering an id out removes all its occurrences and keeps every other id's count |
| Planner.Strip | app.js:121 | every staff queue loses the id and nothing else changes |
| Planner.FindStaff | app.js:136 | the first staff member with the id, or none exactly when no member has it |
| Planner.TaskById | app.js:145-147 | a task with the id from the list, or none exactly when no task has it |
| Planner.DropStaff | app.js:140 | the remaining staff are exactly those with another id |
| Planner.DropTask | app.js:122 | the remaining tasks are exactly those with another id |
| Planner.ClampRoundsDown | app.js:110 | a new task lasts at least a day; a duration of a day or more is rounded down |
| Planner.EnqueuePlacesOnce | app.js:149-162 | enqueuing a known task places it once when the staff member exists and nowhere otherwise; every other id keeps its count |
| Planner.EnqueuedQueued | app.js:153-159 | over the queues alone the id's count becomes one (or zero for an unknown staff member) |
| Planner.EnqueueAppends | app.js:155-159 | the target queue is its old contents without the id, then the id at the end; every other queue only loses the id |
| Planner.RemoveStaffKeepsPlaced | app.js:134-143 | putting the removed member's queue in front of the backlog loses and duplicates no id |
| Planner.RemovePlacesNowhere | app.js:118-125 | after removing a task its id is in no queue and not in the backlog; every other id is where it was |
| Planner.StripIdempotent | app.js:121 | stripping an id twice is stripping it once |
| Planner.ReturnIdempotent | app.js:164-170 | returning a task puts its id in the backlog, and returning it twice equals returning it once |
| Planner.ReturnPlacesOnce | app.js:164-170 | after returning a task, an id that was placed at most once is placed exactly once |
| Planner.QueueEntries | app.js:348-351 | a queue contributes an entry for each of its ids that names a task, with that member's name |
| Planner.StaffEntries | app.js:347-352 | staff entries only name known tasks |
| Planner.Unseen | app.js:355-358 | the remaining entries are exactly the tasks not yet exported, with an empty staff cell |
| Planner.ExportCoversTasks | app.js:336-361 | every exported row names a known task, and every task is exported |
| Planner.ExportParsesBack | app.js:363-367 | parsing the exported text gives back the header and the export rows |
| Planner.Letters | app.js:492 | the normalised header keeps only lower-case ASCII letters, and a header of such letters is unchanged |
| Planner.FirstIndex | app.js:494-498 | the first column whose header is one of the names, or −1 exactly when none is |
| Planner.ColumnsOf | app.js:489-502 | the first row is data exactly when no column is named "name" or "mandays"; a found name column is one named "name" |
| Planner.ImportedDays | app.js:520 | an imported task lasts at least a day, and a parsed integer of 1 or more is kept |
| Planner.RowOutcome | app.js:515-524 | a row is skipped exactly when its trimmed name is empty; an imported task gets the row's name, its id, and at least a day |
| Planner.CountsAddUp | app.js:504-533 | imported plus skipped is the number of data rows, and queued is at most imported |
| Planner.NewTasksLast | app.js:520-525 | every task the importer creates lasts at least a day |
| Planner.Key | app.js:507 | a staff name's key is empty exactly when the trimmed name is empty |
| Planner.FindByKey | app.js:509 | the first staff member whose trimmed, lower-cased name matches the key, or none exactly when no name matches |
| Planner.OutcomesUpTo | app.js:514-533 | one outcome per data row read |
| Planner.ImportOutcomes | app.js:514-533 | one outcome per data row of the text |
| Planner.GetOrCreateFinds | app.js:506-512 | no member exactly for a blank name; otherwise the first member whose name matches case-insensitively after trimming, created when none does; the staff only grows and no queue changes |
| Planner.ApplyPlacesOnce | app.js:523-531 | importing a row appends its task and places its id exactly once, in the backlog or in a queue |
| Planner.ApplyQueuesLast | app.js:526-528 | a task whose row names a staff member ends the queue of a member with that name, and the backlog is unchanged |
| Planner.State.constructor | app.js:71 | the default state has no tasks, an empty backlog and no staff, and every id is placed at most once |
| Planner.State.AddTask | app.js:109-116 | the task with the trimmed name, max(1, floor(mandays)) days and a link only when non-blank is appended, and its id goes in front of the backlog |
| Planner.State.StripQueues | app.js:121 | every queue loses the id; tasks and backlog are unchanged |
| Planner.State.RemoveTaskCompletely | app.js:118-125 | the id leaves the backlog, every queue and the tasks; each id stays placed at most once |
| Planner.RemoveKeepsValid | app.js:118-125 | removing a task from the backlog and every queue keeps every task placed at most once and staff ids distinct |
| Planner.State.AddStaff | app.js:127-132 | a member with the trimmed name and an empty queue is appended |
| Planner.State.RemoveStaff | app.js:134-143 | an existing member's queue goes, in order, in front of the backlog and the member is dropped; an unknown id changes nothing |
| Planner.State.EnqueueTaskToStaff | app.js:149-162 | nothing for an unknown task; otherwise the id leaves the backlog and every queue and is appended to the target queue when the member exists |
| Planner.State.ReturnTaskToBacklog | app.js:164-170 | the id leaves every queue and is put in front of the backlog unless already there |
| Planner.ReturnKeepsValid | app.js:164-170 | returning a task to the backlog keeps every task placed at most once and staff ids distinct |
| Planner.State.ComputeHorizon | app.js:173-181 | the horizon is at least 30 and at least every queue's days + 5, and equals 30 or one of those |
| Planner.State.ExportQueue | app.js:348-351 | the rows and seen ids of one queue's tasks, in queue order |
| Planner.State.ExportUnseen | app.js:355-358 | the rows of the tasks not yet exported, in task order |
| Planner.State.BuildExportRows | app.js:336-361 | the backlog's rows, then each queue's, then every task placed nowhere |
| Planner.State.StaffByName | app.js:506-512 | the staff member matched or created for a name, with tasks and backlog unchanged |
| Planner.State.ImportRow | app.js:515-533 | one data row's outcome, applied to the state |
| Planner.State.ImportRows | app.js:514-533 | the counters match the outcomes of the data rows, and the new state is exactly `ApplyAll` of those outcomes: row by row, each task appended and its id pushed onto its member's queue or unshifted onto the backlog |
| Planner.State.ImportCsvText | app.js:485-538 | nothing changes for a text with no rows; otherwise the new state is `ApplyAll` of the data rows' outcomes, so every data row is imported or skipped, the new tasks follow the old ones in row order, each new id is placed once, the staffless rows' ids stand in front of the old backlog last row first, and every old queue keeps its order and only gains ids at its end |
| Planner.ApplyAllPlaces | app.js:523-530 | after the rows are applied, the backlog is the staffless rows' ids, last row first, followed by the old backlog, and every old queue is a prefix of the new one |
| Planner.ApplyAllImported | app.js:514-531 | after the rows are applied, the tasks are the old ones followed by the new ones in row order, each new id is placed exactly once more, and the staff keep their ids and names |
| BoardDrag.IndexOf | apps/web/src/components/Board.tsx:100 | the first index of the id, or −1 exactly when it is absent |
| BoardDrag.Remove | apps/web/src/components/Board.tsx:128 | the list without the id |
| BoardDrag.RemoveKeepsOthers | apps/web/src/components/Board.tsx:128 | the filtered list holds every other id of the list and nothing else |
| BoardDrag.InsertAt | apps/web/src/components/Board.tsx:129-131 | the id put in at the index, the rest of the list around it unchanged |
| BoardDrag.FindContainer | apps/web/src/components/Board.tsx:76-79 | the first container, backlog first, that holds the id, or none exactly when none does |
| BoardDrag.IdsOfAt | apps/web/src/components/Board.tsx:119-120 | looking a container up by its id gives its ids |
| BoardDrag.DropOnItem | apps/web/src/components/Board.tsx:97-100 | a hovered task id gives the container that shows it and its index there, and nothing exactly when no container shows it |
| BoardDrag.ResolveItem | apps/web/src/components/Board.tsx:95-100 | a hovered task id resolves to its container and index |
| BoardDrag.ResolveBlock | apps/web/src/components/Board.tsx:103-109 | `gblock:<id>` resolves to the container and index of `<id>` |
| BoardDrag.ResolveList | apps/web/src/components/Board.tsx:110-112 | `list:<c>` and `gantt:<c>` resolve to the end of container c |
| BoardDrag.ResolveOther | apps/web/src/components/Board.tsx:113-118 | a hover that is neither a shown task nor a `gblock:`, `list:` or `gantt:` id resolves to nothing, and so do no hover and an empty id |
| BoardDrag.NoMoveCases | apps/web/src/components/Board.tsx:85-146 | no move exactly when the dragged id is in no container, the hover resolves to nothing, or it names an empty container; a move is about the dragged task and targets null exactly for the backlog |
| BoardDrag.NeverOwnNeighbour | apps/web/src/components/Board.tsx:126-132 | within one container the dragged task is never sent as its own neighbour |
| BoardDrag.AcrossLandsBeforeHovered | apps/web/src/components/Board.tsx:133-136 | across containers the neighbours are those of the task inserted at the hovered index, and after is the hovered task |
| BoardDrag.WithinMove | apps/web/src/components/Board.tsx:126-132 | within a container the neighbours are read from the list without the dragged task, at the hovered index shifted down when it lies past the dragged task |
| BoardDrag.InsertedMove | apps/web/src/components/Board.tsx:129-132 | the neighbours read at an index of a list are those the task has once put in there |
| BoardDrag.LandsBeforeHovered | apps/web/src/components/Board.tsx:126-132 | within a list that shows each id once, the shifted index is where the hovered task stands once the dragged one is taken out, so after is the hovered task; hovering the dragged task itself gives back its current neighbours |
| BoardDrag.AppendCases | apps/web/src/components/Board.tsx:139-146 | appending within a container sends the last other task as before and null as after; appending elsewhere sends both as null |
| BacklogReorder.ArrayMove | apps/web/src/components/BacklogPanel.tsx:69 | the moved element stands at the new index and the length is unchanged |
| BacklogReorder.ArrayMoveKeepsOthers | apps/web/src/components/BacklogPanel.tsx:69 | the result holds the same ids, and every other id keeps its relative order |
| BacklogReorder.NoMoveCases | apps/web/src/components/BacklogPanel.tsx:62-73 | no move exactly when nothing is hovered, the task hovers itself, the list is not loaded or either id is missing; a move is about the dragged task and targets the backlog |
| BacklogReorder.MovedNextTo | apps/web/src/components/BacklogPanel.tsx:69-72 | after the move the formerly hovered element is just before the moved one when moving down, just after it when moving up |
| BacklogReorder.LandsNextToHovered | apps/web/src/components/BacklogPanel.tsx:66-73 | the dragged task lands at the hovered index, after the hovered task when moving down and before it when moving up |
| Gantt.BuildAxis | apps/web/src/components/Gantt.tsx:14-23 | min(count, 5001) increasing axis days (none for count ≤ 0), with no weekend when skipping and none skipped |
| Gantt.Visible | apps/web/src/components/Gantt.tsx:133 | the drawn tasks are at most the row's tasks |
| Gantt.VisibleMembers | apps/web/src/components/Gantt.tsx:133 | the drawn tasks are exactly the row's tasks other than the dragged one |
| Gantt.LayoutRow | apps/web/src/components/Gantt.tsx:131-136 | the cursor loop produces the block layout of the drawn tasks |
| Gantt.LayoutCumulative | apps/web/src/components/Gantt.tsx:132-136 | each block starts at the sum of the mandays of the drawn tasks before it and is as wide as its task's mandays |
| Gantt.BlockBounds | apps/web/src/components/Gantt.tsx:134 | block k spans from the days of the first k drawn tasks to the days of the first k+1 |
| Gantt.RowBlocksContiguous | apps/web/src/components/Gantt.tsx:132-136 | the blocks start at 0, each ends where the next begins, and the last ends at the row total |
| Gantt.RowBlocksDisjoint | apps/web/src/components/Gantt.tsx:132-136 | with non-negative mandays no two blocks of a row overlap |
| Gantt.PlaceRow | apps/web/src/components/Gantt.tsx:175-181 | one row's loop records its drawn tasks' columns, and the cursor ends at the row's drawn total |
| Gantt.ComputePositions | apps/web/src/components/Gantt.tsx:170-183 | the memo's two maps are the positions and row ends of all rows |
| Gantt.PositionsMatchLayout | apps/web/src/components/Gantt.tsx:170-183 | with distinct ids every drawn task's recorded start and end are those of its row layout |
| Gantt.RowEndsMatchLayout | apps/web/src/components/Gantt.tsx:181 | with distinct staff ids each row's end is its drawn total |
| Gantt.DragHint | apps/web/src/components/Gantt.tsx:194-213 | a hint only for `gblock:` or `gantt:` hovers; a block hint is some recorded task's row and start |
| Gantt.HintOverBlock | apps/web/src/components/Gantt.tsx:198-205 | hovering a drawn block hints at that block's start in its own row |
| Gantt.HintOverTagged | apps/web/src/components/Gantt.tsx:198-205 | hovering the block `gblock:<id>` of a task without `:` hints that task's own staff row and start day, and nothing when the task has no position |
| Gantt.HintOverRow | apps/web/src/components/Gantt.tsx:206-209 | hovering a row hints at its end; an unknown row hints at column 0 |
| Gantt.EdgeHover | apps/web/src/components/Gantt.tsx:89-97 | the block start when x ≤ 10, else the block end when x ≥ width − 10, and nothing exactly in between |
| Gantt.NarrowBlockAlwaysEdge | apps/web/src/components/Gantt.tsx:93-96 | a block at most 20 pixels wide reports an edge everywhere |
| Gantt.Horizon | apps/web/src/components/Gantt.tsx:218-225 | the horizon is at least 30 and at least every row's days + 5, and equals 30 or one of those |
| Gantt.Initials | apps/web/src/components/Gantt.tsx:43 | one character per word, none a lower-case ASCII letter, each equal to its word's first character up to ASCII case |
| Gantt.TruncateNameForMobile | apps/web/src/components/Gantt.tsx:37-49 | at most six characters: short names unchanged, the initials of a name of two to four words, else the first six characters |
| Gantt.TruncateTwoWords | apps/web/src/components/Gantt.tsx:37-49 | a name of more than six characters made of two words and a space is shown as the two upper-cased first letters |
| SharedGantt.SumFromFrontIsDays | apps/web/src/components/SharedGantt.tsx:89 | the slice-and-reduce sum is the days of the tasks |
| SharedGantt.StartIndexIsLayout | apps/web/src/components/SharedGantt.tsx:88-91 | each shared block starts at the sum of the mandays before it, where the staff timeline's layout puts it with nothing dragged, and the next one starts at its end |
| SharedGantt.SharedRows | apps/web/src/components/SharedGantt.tsx:131-132 | one row per staff member, in staff order |
| SharedGantt.SharedPositions | apps/web/src/components/SharedGantt.tsx:128-141 | the positions of the shared rows, and each row end is the row's total without the dragged task |
| SharedGantt.MaxWith30 | apps/web/src/components/SharedGantt.tsx:155 | the maximum of the values and 30 |
| SharedGantt.HorizonAsWritten | apps/web/src/components/SharedGantt.tsx:154-157 | the horizon as the code computes it is always 30 |
| SharedGantt.Horizon | apps/web/src/components/SharedGantt.tsx:154-157 | the intended horizon: at least 30 and at least every row end, and equal to 30 or one of them |
| SharedGantt.HorizonAsWrittenCutsRows | apps/web/src/components/SharedGantt.tsx:155 | with a 40-day row the axis as written stops at 30, inside the row, while the intended horizon is 40 |
| SharedGantt.Timeline | apps/web/src/components/SharedGantt.tsx:159 | with the intended horizon the axis reaches the end of every row (up to the axis cap) and has at least 30 days |
| SharedGantt.DimmingCases | apps/web/src/components/SharedGantt.tsx:37 | no dimming without filters or for a filtered theme; a task without a theme is dimmed exactly when the filters are non-empty and do not hold "" |
| AutoAssign.LeastLoadedIsLeast | apps/web/src/shared/hooks/hooks.ts:151-153 | the reduce picks a least workload, the earliest one among equals |
| AutoAssign.Loads | apps/web/src/shared/hooks/hooks.ts:149-165 | there is one workload per staff member |
| AutoAssign.Plan | apps/web/src/shared/hooks/hooks.ts:149-165 | there is one move per backlog task |
| AutoAssign.PlanAt | apps/web/src/shared/hooks/hooks.ts:151-161 | the move for task i names the staff member least loaded just before it |
| AutoAssign.PlanPicksLeast | apps/web/src/shared/hooks/hooks.ts:149-161 | each task, in backlog order, goes to a staff member with the least current workload, and to the earliest such member |
| AutoAssign.LoadsStep | apps/web/src/shared/hooks/hooks.ts:164 | one step changes only the chosen member's workload, by exactly the task's mandays |
| AutoAssign.LoadsTotal | apps/web/src/shared/hooks/hooks.ts:164 | the final total workload is the initial total plus the backlog's mandays |
| AutoAssign.AssignInOrder | apps/web/src/shared/hooks/hooks.ts:149-165 | the loop issues exactly the greedy plan's moves and ends with its workloads |
| AutoAssign.AutoAssignBacklog | apps/web/src/shared/hooks/hooks.ts:129-165 | no moves without staff or backlog; otherwise workloads start at each queue's mandays, the moves are the greedy plan, and the total grows by the backlog's mandays |
| ThemesPanel.Shown | apps/web/src/features/tasks/ThemesPanel.tsx:26 | the filter never adds rows |
| ThemesPanel.Items | apps/web/src/features/tasks/ThemesPanel.tsx:26 | no data shows no rows |
| ThemesPanel.ShownExactly | apps/web/src/features/tasks/ThemesPanel.tsx:26 | a row is shown exactly when it is in the data and its theme is not blank |
| ThemesPanel.ShownAppend | apps/web/src/components/ThemesPanel.tsx:11 | the filter keeps the order of the data |
| ThemesPanel.LargestFromZero | apps/web/src/features/tasks/ThemesPanel.tsx:27 | the reduce from 0 is at least 0 and every total, and is 0 or one of the totals |
| ThemesPanel.MaxTotal | apps/web/src/components/ThemesPanel.tsx:12 | the bar scale is at least 1 and every total; it is 1 when no total is positive and the largest total otherwise |
| ThemesPanel.OpacityMulti | apps/web/src/features/tasks/ThemesPanel.tsx:35-46 | a row is half-transparent exactly when some theme is selected and this one is not |
| ThemesPanel.OpacitySingle | apps/web/src/components/ThemesPanel.tsx:21 | a row is half-transparent exactly when a non-empty selection exists and differs from its theme |
| ThemesPanel.SingleIsMultiOfOne | apps/web/src/components/ThemesPanel.tsx:21 | a single selection dims exactly as the multiple selection of that one theme |
| ThemesPanel.DimmedRowsAreUnselected | apps/web/src/features/tasks/ThemesPanel.tsx:35-46 | with a selection, a row is at full opacity exactly when its theme is selected |
| ThemesPanel.ClearFilter | apps/web/src/components/ThemesPanel.tsx:31-33 | the clear action is offered exactly when some row is shown, and it selects nothing |
| ThemesPanel.ClearingUndimsAll | apps/web/src/components/ThemesPanel.tsx:31-33 | after clearing, no row is dimmed |
| Text.NonBlankTrimmed | apps/api/src/server.ts:429-440 | an optional text is absent exactly when missing or blank, and otherwise its non-empty trimmed form |
| Text.TrimShape | apps/web/src/shared/utils/url.ts:3 | trimming removes only white space from both ends and leaves a trimmed string |
| Text.TrimIdempotent | apps/web/src/shared/utils/url.ts:3 | trimming twice is trimming once |
| Text.ToLowerNoUpper | app.js:507 | lower-casing leaves no upper-case ASCII letter, keeps every other character, and each character stays equal up to ASCII case |
| Text.ToLowerIdempotent | app.js:507-508 | lower-casing an already lower-cased key changes nothing |
| Text.ToLowerMatches | app.js:507-508 | two names lower-case to the same key exactly when they have the same length and agree position by position up to ASCII case |
| Text.Words | apps/web/src/components/Gantt.tsx:41 | the words are non-empty and hold no white space, and there are none exactly when the name is blank |
| Text.WordsOfWord | apps/web/src/components/Gantt.tsx:41 | a non-empty run without white space is one word, itself |
| Text.WordsLeadingSpace | apps/web/src/components/Gantt.tsx:41 | leading white space adds no word |
| Text.WordsLeadingWord | apps/web/src/components/Gantt.tsx:41 | a run ended by white space or by the end of the name is the first word, followed by the words of the rest |
| Text.WordsAppend | apps/web/src/components/Gantt.tsx:41 | splitting at a white-space character: the words of `a`, a space and `b` are the words of `a` followed by those of `b`, so the words are the maximal non-space runs in order |
| Text.TwoWords | apps/web/src/components/Gantt.tsx:41 | two words joined by a space split into exactly those two words |
| Text.SecondFieldOfTagged | apps/web/src/components/Gantt.tsx:199 | `split(':', 2)[1]` of `tag:id` gives back id |
| Text.DecimalRoundTrip | api/index.ts:228 | writing an integer in decimal and reading it back gives the integer |
| Text.NameLeTotal | api/index.ts:77 | any two names are ordered one way or the other |
| Text.NameLeTransitive | api/index.ts:77 | the name order is transitive |

## Left out

- Routing, auth and request plumbing. This covers Fastify routing, auth, share links, project CRUD, user profile routes, HTTP status plumbing and the Vercel handler. Errors are modelled as `Result` values.
- Routes outside the ordering core are not modelled: `POST /api/staff`, `PATCH` and `DELETE /api/tasks/:id`, and `/api/admin/clear`.
- `POST /api/tasks` stores more fields than the model does (dependencies, due date, priority). The model keeps name, mandays, link and theme.
- ServerApi.Server.CreateTask: the 400 answers for a priority other than HIGH, MEDIUM or LOW, for dependencies that are not an array of strings, and for an unparsable due date (apps/api/src/server.ts:449-457) are not modelled, since those fields are not. `ValidationError` covers only the name and mandays checks. A non-integer `mandays` is not modelled: the parameter is an integer.
- The CSV export route of apps/api/src/server.ts writes eight columns and reads a user header. It is not part of this model; only its `csvEscape`, which equals `Csv.Escape`, is covered. The export of api/index.ts is modelled.
- Keys are exact reals. The `Number(Decimal)` conversion and floating-point midpoints, including precision exhaustion after many halvings, are not modelled.
- `Math.round` percentages in the themes panels, and the `currentDatePosition` line of the Gantt view, are not modelled.
- JavaScript `Date` and time zones are not modelled. Days are integers, with the weekday `(d + 4) % 7`, which makes day 0 (1970-01-01) a Thursday.
- Case mapping is ASCII-only, and string lengths count characters, not UTF-16 code units. `Gantt.Initials` and `Gantt.TruncateNameForMobile` are exact only for names whose letters are ASCII: `toUpperCase` also maps other letters ('é' to 'É', 'ß' to "SS"), which the model leaves as they are. The hue hash is the exception: it runs over the UTF-16 code units (`Hue.Utf16`).
- VercelApi.Store.CreateTask: zod's `.int()` on `mandays` (api/index.ts:127) also answers 400 for a non-integer number; the parameter is an integer, so that case is not modelled.
- ServerApi.ListingOf: `q.unassigned === true` (apps/api/src/server.ts:386), a boolean rather than a string query value, is not modelled; the parameter is an optional string, so only `"true"` selects the backlog.
- ServerApi.Server.ThemesSummary: the `groupBy` over the caller's tasks in the current project (apps/api/src/server.ts:646-654) is an input, the parameter `groups`; the database query itself is not modelled.
- VercelApi.Store.StaffByName: `orderBy: { name: 'asc' }` (api/index.ts:76-79) follows the database's collation, which the repository does not fix. The model takes character-by-character order (`Text.NameLe`). A locale collation can order names differently ("bob" before "Carol", say), and then so does the staff order of `VercelApi.Store.ExportCsv`.
- `parseFloat` is the parameter `parseDays`. NaN and Infinity handling is abstracted to "some integer or nothing".
- Random ids (`uid`, `cuid`) are parameters standing for fresh ids.
- Concurrency is not modelled: `Promise.all`, the sequential awaits and partial failure in auto-assign, the non-transactional read-then-write of the move routes, and react-query caching and invalidation. The database reads of one route see one state.
- `api.move` in auto-assign is modelled as "append to that queue". The hook's moves are returned, not sent.
- dnd-kit and Papa Parse are not modelled. `arrayMove` is taken to be "remove at the old index, insert at the new". The Papa-based import and export of Board.tsx is left out.
- The board's `containers` is a `Map`. It is modelled as a sequence of containers with distinct ids, backlog first.
- localStorage, FileReader, Blob downloads, DOM rendering and event wiring are not modelled. The constructor stands for the default state.
- In `importCSVText`, the `null` result of `getOrCreateStaffByName` cannot occur for a non-empty trimmed name. The backlog fallback after it is therefore dead code and is not modelled as a separate path.
- The click callbacks of the themes panels (`onToggle`, `onSelect`) are modelled only as the selection they set.
- KeySpace.MoveAfterBefore: holds only when the next key is more than 1 above `before`; KeySpace.PlusOneOvershoots shows the code gives no such guarantee.
- KeySpace.MoveBeforeAfter: holds only when the previous key is more than 1 below `after`, for the same reason.
- KeySpace.MoveBetween: requires the two neighbours to be adjacent in the target queue with different keys. The routes do not check that the neighbours belong to the target queue.
- BoardDrag.LandsBeforeHovered: assumes the container shows each id once. The code reads the first occurrence.
- BoardDrag.ResolveBlock: assumes no id holds a `:` and no container shows the literal droppable id.
- BoardDrag.ResolveList: assumes no id holds a `:` and no container shows the literal droppable id.
- Planner.BuildDateAxis: the exact length `count` is proved for counts up to 7140, the number of weekdays the 10001-day scan is sure to hold; beyond that only "at most count" is stated.
- ServerApi.Server.ListTasks: the unfiltered listing is stated as a set of tasks without repeats; its order (whatever the database returns) is not modelled.
- VercelApi.Store.ListTasks: the same; the unfiltered listing's order is not modelled.
- Gantt.PositionsMatchLayout: holds when task ids are distinct across rows. With a repeated id, the code keeps the last row's entry.
- Planner.State.BuildExportRows: the rows are specified, but the exported text is stated through Planner.ExportParsesBack rather than by a method.

## Findings

| source | as written | input that shows it | evidently intended | confidence | as-written member | corrected member |
|---|---|---|---|---|---|---|
| apps/web/src/components/SharedGantt.tsx:155 | `Math.max(...Object.values(positions.rowEnd), 30)`. `rowEnd` is a `Map`, whose entries are not own properties, so the spread is empty and the horizon is always 30 | one staff member with a 40-day queue: the axis ends at day 30, inside the row | the largest row end, at least 30 | not executed | SharedGantt.HorizonAsWritten | SharedGantt.Horizon |
