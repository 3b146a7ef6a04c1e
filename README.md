# Task scheduler and student id generator

This project models two small stateful components of a JavaScript exercise
repository and proves properties of them in Dafny.

- **Task list.** A `Task` has a fixed identifier and description and a
  completion flag that can be overwritten. `taskScheduler()` owns a list of
  tasks. It can append a task, complete the task at an index, complete all
  tasks, and render the list as text: the header `Tasks:`, a newline, and one
  line `k. [X] desc` or `k. [ ] desc` per task, joined by newlines.
  `Tasks.Task` is a class. `Scheduler.TaskScheduler` is a class whose
  `taskList` field holds the `Task` objects. Every mutating method is tied to a
  pure function on `TaskView` values (`MarkCompleted`, `CompleteAll`, or
  appending a value). Rendering (`Listing`, from `Lines`, `Join` and `Line`) is
  a pure function of that view.
- **Student id generator.** `HR_SIT()` makes a recruiter with its own counter
  `lastId`, starting at 0, and a faculty record (`createKmuttFaculty('SIT',
  '130500')`). Each `recruit(name, applyYear)` increments the counter and
  returns a student whose id is three parts joined together: the year's decimal
  string from index 2, the prefix `130500`, and the counter left-padded with
  `0` to width 3. `Prototype.HrSit` is a class with a `lastId` field and a
  `Recruit` method. The id is built by pure functions: `StudentId`, from
  `Substring`, `PadStart` and the decimal rendering in the `Decimal` module.

Files: `decimal.dfy` (module `Decimal`), `task.dfy` (module `Tasks`),
`scheduler.dfy` (module `Scheduler`), `prototype.dfy` (module `Prototype`).

The UUID a new `Task` draws is a constructor parameter (`id`). The JavaScript
getters `id` and `desc` are `const` fields. So they cannot change after
construction, and reading them changes nothing. `isCompleted()` and
`listTasks()` are functions, so they have no side effects.

## Model

| member | source | states |
|---|---|---|
| `Tasks.Task.constructor` | weakness/Task.js:11-15 | a new task has the given id and description and is not completed |
| `Tasks.Task.SetCompleted` | weakness/Task.js:42-44 | after setting the flag to `b`, `IsCompleted()` answers `b`; id and description are constants and stay as they were |
| `Tasks.CreateThenComplete` | weakness/Task.test.js:4-14 | the task tests' scenario: a new task shows its description and is open; after `completed = true` it reads as completed |
| `Scheduler.MarkCompleted` | weakness/TaskScheduler.js:28-33 | same length, ids and descriptions; task `k` is completed afterwards exactly when it was before or `k` is the index; an index outside the list changes nothing |
| `Scheduler.CompleteAll` | weakness/TaskScheduler.js:35-39 | same length; every task keeps its id and description and is completed |
| `Scheduler.CompleteAllIdempotent` | weakness/TaskScheduler.js:35-39 | completing all a second time changes nothing |
| `Scheduler.MarkAfterCompleteAll` | weakness/TaskScheduler.js:28-39 | once all tasks are complete, completing one task (any index) changes nothing |
| `Scheduler.CompleteAllAbsorbsMark` | weakness/TaskScheduler.js:28-39 | completing one task before completing all makes no difference to the result |
| `Scheduler.JoinAppend` | weakness/TaskScheduler.js:46 | joining one more string adds the separator and that string at the end, with no separator for a single element |
| `Scheduler.ListingAppend` | weakness/TaskScheduler.js:41-47 | adding a task keeps the old text as a prefix and adds exactly one line, numbered by the new length; the first line follows the header directly |
| `Scheduler.ListingEmpty` | weakness/TaskScheduler.js:46 | an empty list renders as `Tasks:` followed by a newline |
| `Scheduler.LinesMarkCompleted` | weakness/TaskScheduler.js:28-45 | completing the task at an index in range rewrites only that task's line, to its completed form |
| `Scheduler.SplitJoin` | weakness/TaskScheduler.js:46 | splitting at the separator undoes joining when no piece contains the separator |
| `Scheduler.ListingLines` | weakness/TaskScheduler.js:41-47 | for a non-empty list whose descriptions hold no newline, splitting the text at newlines gives `Tasks:` and then line `k` = `k. [X] desc` or `k. [ ] desc` for task `k-1` |
| `Scheduler.TwoTaskListing` | weakness/TaskScheduler.test.js:29-35 | two open tasks `Task 1`, `Task 2` render as `Tasks:\n1. [ ] Task 1\n2. [ ] Task 2` |
| `Scheduler.Snapshot` | weakness/TaskScheduler.js:15 | the view of the task list has one entry per task object, giving that object's id, description and flag |
| `Scheduler.TaskScheduler.constructor` | weakness/TaskScheduler.js:11-15 | a new scheduler owns an empty list |
| `Scheduler.TaskScheduler.AddTask` | weakness/TaskScheduler.js:21-23 | the list grows by one fresh task at the end, with the given description and not completed; earlier tasks and their flags are unchanged |
| `Scheduler.TaskScheduler.MarkTaskAsCompleted` | weakness/TaskScheduler.js:28-33 | the same task objects stay in the list; the view afterwards is `MarkCompleted` of the view before (a silent no-op out of range) |
| `Scheduler.TaskScheduler.CompleteAllTasks` | weakness/TaskScheduler.js:35-39 | the same task objects stay in the list; the view afterwards is `CompleteAll` of the view before |
| `Scheduler.ListTwoNewTasks` | weakness/TaskScheduler.test.js:29-35 | the listing test's scenario run on a new scheduler yields exactly the expected text |
| `Decimal.NatToString` | prototype/prototype.js:44 | `toString` of a non-negative integer: at least one character, digits only, no leading zero except for 0 |
| `Decimal.NatToStringValue` | prototype/prototype.js:44 | the decimal string of `n` reads back as `n` |
| `Decimal.NatToStringInjective` | prototype/prototype.js:44 | different numbers have different decimal strings |
| `Decimal.NatToStringLength` | prototype/prototype.js:44 | the string has at most `k` digits below `10^k` and at least `k` from `10^(k-1)` on |
| `Decimal.IntToString` | prototype/prototype.js:42 | `toString` of an integer: a leading `-` exactly for negative values, then the magnitude's decimal string |
| `Decimal.ValueLeadingZeros` | prototype/prototype.js:44 | zeros put in front of a digit string do not change its value |
| `Decimal.ValueSplit` | prototype/prototype.js:42 | a digit string cut at `i` has value high part times `10^(length-i)` plus the low part |
| `Prototype.Faculty.CreateKmuttFaculty` | prototype/prototype.js:26-32 | the record carries the given faculty name and id prefix |
| `Prototype.Substring` | prototype/prototype.js:42 | `substring(start)` is the suffix from `start`, or empty when `start` is past the end |
| `Prototype.PadStart` | prototype/prototype.js:44 | `padStart` gives length the larger of the target and the length of `s`, ends with `s`, and holds fill characters before it |
| `Prototype.SerialPartValue` | prototype/prototype.js:44 | the padded serial is digits that read back as the serial; below 1000 it is exactly 3 characters, from 1000 on it is the plain decimal string |
| `Prototype.StudentIdsDistinct` | prototype/prototype.js:36-44 | for one apply year and prefix, different serial numbers give different ids |
| `Prototype.YearPartOfFourDigitYear` | prototype/prototype.js:42 | for a four-digit year the year part is two digits denoting the year modulo 100 |
| `Prototype.StudentIdLayout` | prototype/prototype.js:41-44 | for a four-digit year and a serial below 1000 the id has 11 characters: year modulo 100, then `130500`, then the serial in 3 digits |
| `Prototype.FirstStudentId` | prototype/prototype.js:52-53 | year 2565 with serial 1 gives `65130500001` |
| `Prototype.HrSit.constructor` | prototype/prototype.js:34-36 | a new recruiter has a fresh SIT faculty record with prefix `130500` and its counter at 0 |
| `Prototype.HrSit.Recruit` | prototype/prototype.js:38-48 | the counter goes up by exactly one; the student has the given name, faculty `SIT`, and the id of the new counter value |
| `Prototype.RecruitTwice` | prototype/prototype.js:36-44 | two recruits from one recruiter with the same apply year get different ids, and the counter goes up by two |
| `Prototype.FirstRecruits` | prototype/prototype.js:52-53 | the first `recruit('Adam', 2565)` gives `{name: 'Adam', id: '65130500001', faculty: 'SIT'}`; a second, separate recruiter starts its own counter and also gives serial 1 |

## Left out

- The UUID library call that makes a task's id is not modelled. The id is a parameter of `Task`'s constructor and of `AddTask`, so the model does not promise that ids are unique.
- Scheduler.TaskScheduler.MarkTaskAsCompleted: the index is an integer. The `parseInt` coercion and JavaScript's comparisons of non-integral or string indices are not modelled. For example, an index `1.5` passes the guard and completes task 1.
- The scheduler returns its `taskList` array to callers, who may then change it directly. That outside aliasing is not modelled. The model only keeps the list's task objects distinct (`Valid()`).
- Prototype.HrSit.Recruit: `applyYear` is an integer. The `toString` of a non-integral or exponent-notation Number is not modelled. `lastId` is unbounded, so the loss of precision past 2^53 is not modelled.
- The prototype chain is not modelled: the `university`/`address` fields a faculty inherits through `Object.setPrototypeOf`, and the `Animal`/`eats`/`procreate` and optional-chaining demonstrations. They illustrate language mechanics and hold no logic.
- All `console.log` output is I/O and is not modelled.
- The library catalog and the product list (first's-problem/LibraryManagement.js, first's-problem/ProductManagement.js) are not part of this model.
