# Task list store

A model of the state behind a small browser to-do list (`assets/js/app.js`):
the global `tasks` object, which holds the ordered list of incomplete tasks,
the ordered list of completed tasks and the id counter `nextId`, and the three
click handlers that change it: creating a task from the description field,
completing a task from its checkbox, and deleting a task from its delete
button. The description check (`validateTask`, a non-empty `trim()`) and the
`T-<n>` id format are modelled as well.

The project has four files:

- `text.dfy` (module `Text`): JavaScript's `String.prototype.trim` over the
  WhiteSpace and LineTerminator code points of ECMAScript, and what trimming
  leaves.
- `task_ids.dfy` (modules `Wrappers`, `TaskIds`): `Option` for JavaScript's
  `null`, and the `T-<n>` id string with its parse-back and injectivity.
- `tasks.dfy` (module `Tasks`): tasks and the `tasks` object as values; the
  invariant of the task list; `findIndex`, `splice`, `validateTask`; the
  three handlers as pure transitions; and the lemmas about them, up to "every
  reachable state satisfies the invariant".
- `task_store.dfy` (module `TaskStore`): the `tasks` object as a class whose
  methods update its fields in place, each proved to perform the matching
  transition of `Tasks` and to keep the invariant; `findIndex` as a loop.

The invariant (`Tasks.Valid`) says:

- every incomplete task has `completed == false` and `completedOn == null`;
- every completed task has `completed == true` and a completion time;
- `nextId` is at least 1, and every id is exactly the string `T-<k>` printed for
  some `1 <= k < nextId` (so `T-01` or `T-0` never occur);
- no id occurs twice, within a list or across the two.

It holds initially. Create, complete and delete each preserve it, so it holds
after any sequence of clicks. Uniqueness rests on the counter: the id a create
hands out parses back to `nextId`, every id already present parses to a
smaller number, and `T-<n>` is injective in `n`.

`app.js` checks only that the trimmed description is non-empty, stores only
id, description, completion flag and the two timestamps per task, keeps
everything in memory, and numbers ids from a counter.

## Model

| member | source | states |
|---|---|---|
| `Tasks.Initial` | assets/js/app.js:1-5 | no contract: both lists empty, `nextId` 1; characterised by `Tasks.InitialValid` |
| `Text.Trim` | assets/js/app.js:126 | no contract; characterised by `Text.TrimIsSlice` and `Text.TrimEmptyIffBlank` |
| `Tasks.ValidateTask` | assets/js/app.js:125-128 | no contract; characterised by `Tasks.ValidateTaskIffNotBlank` |
| `TaskIds.IdString` | assets/js/app.js:53 | no contract; characterised by `TaskIds.ParseIdString` and `TaskIds.IdStringInjective` |
| `Tasks.IssuedBeforeIff` | assets/js/app.js:53 | an id counts as issued below `n` exactly when it is `T-<k>` for some `1 <= k < n` |
| `Tasks.Create` | assets/js/app.js:47-60 | no contract; characterised by `Tasks.CreateEffect`, `Tasks.CreateFreshId` and `Tasks.CreatePreservesValid` |
| `Tasks.Complete` | assets/js/app.js:88-98 | no contract; characterised by `Tasks.CompleteMoves`, the two no-op lemmas and `Tasks.CompletePreservesValid` |
| `Tasks.Delete` | assets/js/app.js:111-114 | no contract; characterised by `Tasks.DeleteRemovesOne`, `Tasks.DeleteUnknownIsNoop`, `Tasks.DeleteTwiceIsNoop` and `Tasks.DeletePreservesValid` |
| `Tasks.Apply` | assets/js/app.js:12-23 | no contract: the dispatch of one click to create, complete or delete; characterised by `Tasks.ApplyPreservesValid` |
| `Tasks.Run` | assets/js/app.js:12-23 | no contract: a sequence of dispatched clicks in order; characterised by `Tasks.RunPreservesValid` |
| `Text.TrimStartSpec` | assets/js/app.js:126 | the leading-whitespace cut of `trim()` keeps a suffix of the input, removes only whitespace, and leaves no whitespace at the front |
| `Text.TrimEndSpec` | assets/js/app.js:126 | the trailing-whitespace cut of `trim()` keeps a prefix of the input, removes only whitespace, and leaves no whitespace at the end |
| `Text.TrimIsSlice` | assets/js/app.js:126 | `trim()` returns a contiguous piece of the input with only whitespace removed on either side, and the result neither starts nor ends with whitespace |
| `Text.TrimEmptyIffBlank` | assets/js/app.js:126-127 | the trimmed description is empty exactly when every character of the input is whitespace |
| `Tasks.ValidateTaskIffNotBlank` | assets/js/app.js:125-128 | `validateTask` accepts exactly the inputs that contain a non-whitespace character; empty and all-whitespace inputs are refused |
| `TaskIds.DecimalRoundTrip` | assets/js/app.js:53 | the decimal numeral a template literal prints for the counter is non-empty, all digits, and reads back as the counter value |
| `TaskIds.ParseIdString` | assets/js/app.js:53 | the id `T-<n>` parses back to `n` |
| `TaskIds.IdStringInjective` | assets/js/app.js:53 | `T-<m>` and `T-<n>` are the same string exactly when `m == n` |
| `Tasks.InitialValid` | assets/js/app.js:1-5 | the initial `tasks` object, with both lists empty and `nextId` at 1, satisfies the invariant |
| `Tasks.ValidIdsUnique` | assets/js/app.js:1-5 | in a valid state no two tasks, in the same list or across the two, share an id |
| `Tasks.IndexOf` | assets/js/app.js:88 | `findIndex` returns -1 exactly when no task has the id, and otherwise the first position holding it |
| `Tasks.Remove` | assets/js/app.js:97 | `splice(i, 1)` shortens the list by one; positions before `i` are kept and later ones shift down by one |
| `Tasks.RemoveMultiset` | assets/js/app.js:114 | the spliced list plus the removed task is the original list as a multiset |
| `Tasks.RemoveKeepsOrder` | assets/js/app.js:97 | any two remaining tasks appear after the splice in the order they had before |
| `Tasks.CreateEffect` | assets/js/app.js:47-60 | a blank description changes nothing; any other adds one task at the end of `incomplete`, with id `T-<old nextId>`, the raw untrimmed input as description, `completed` false, `completedOn` null and the given creation time; `completed` is untouched and `nextId` grows by exactly 1 |
| `Tasks.CreateFreshId` | assets/js/app.js:53 | in a valid state the id a create hands out belongs to no task in either list |
| `Tasks.CreatePreservesValid` | assets/js/app.js:52-60 | create keeps the invariant |
| `Tasks.CompleteUnknownIsNoop` | assets/js/app.js:88-90 | completing an id absent from `incomplete` leaves the whole state unchanged |
| `Tasks.CompleteCompletedIsNoop` | assets/js/app.js:88-90 | in a valid state, completing an id that is already completed leaves the whole state unchanged |
| `Tasks.CompleteMoves` | assets/js/app.js:88-98 | completing an incomplete task splices it out of `incomplete`, with the rest in order, and leaves no task with its id there; it appends the task to the end of `completed` with `completed` true and `completedOn` set to the given time; `nextId` is unchanged |
| `Tasks.CompletePreservesValid` | assets/js/app.js:88-98 | complete keeps the invariant |
| `Tasks.DeleteUnknownIsNoop` | assets/js/app.js:111-113 | deleting an id absent from `incomplete` leaves the whole state unchanged |
| `Tasks.DeleteRemovesOne` | assets/js/app.js:111-114 | deleting an incomplete task removes exactly that one task, keeps the order of the others, and leaves no task with its id in `incomplete`; `completed` and `nextId` are unchanged |
| `Tasks.DeleteTwiceIsNoop` | assets/js/app.js:111-114 | in a valid state a second delete of the same id changes nothing |
| `Tasks.DeletePreservesValid` | assets/js/app.js:111-114 | delete keeps the invariant |
| `Tasks.BuyMilkSession` | assets/js/app.js:47-104 | from the initial state a blank create is refused, "Buy milk" becomes task `T-1`, completing `T-1` moves it to `completed`, and completing or deleting it again is a no-op |
| `Tasks.ApplyPreservesValid` | assets/js/app.js:12-23 | each action the click handler dispatches keeps the invariant and never lowers `nextId` |
| `Tasks.RunPreservesValid` | assets/js/app.js:12-23 | any sequence of actions keeps the invariant, and `nextId` only grows |
| `Tasks.ReachableValid` | assets/js/app.js:1-23 | every state reachable from the initial `tasks` object satisfies the invariant |
| `TaskStore.FindTaskIndex` | assets/js/app.js:88 | the `findIndex` scan returns exactly `Tasks.IndexOf`: the first matching position, or -1 |
| `TaskStore.TaskStore.constructor` | assets/js/app.js:1-5 | the store starts with both lists empty and `nextId` at 1, and satisfies the invariant |
| `TaskStore.TaskStore.CreateTask` | assets/js/app.js:47-60 | returns the `validateTask` verdict; on a valid input it pushes the new task onto `incomplete` and increments `nextId`, otherwise it changes nothing; it always leaves `completed` alone, performs `Tasks.Create` and keeps the invariant |
| `TaskStore.TaskStore.HandleTaskCompletion` | assets/js/app.js:88-98 | if the id is in `incomplete`, the task is spliced out, flagged, stamped and pushed onto `completed`, otherwise nothing changes; it performs `Tasks.Complete` and keeps the invariant |
| `TaskStore.TaskStore.HandleTaskDeletion` | assets/js/app.js:111-114 | if the id is in `incomplete`, the task is spliced out, otherwise nothing changes; it performs `Tasks.Delete` and keeps the invariant |

## Left out

- DOM wiring and role dispatch (`app.js` lines 7-29): UI plumbing. The click handler is modelled only as the `Tasks.Action` sequence that `Tasks.Run` applies.
- Rendering is not modelled: the `innerHTML` template for a new task (lines 62-74) and `taskElement.remove()` (lines 100, 115). The description is interpolated into the template unescaped, which is a view concern.
- Opening and closing the creator panel, the `aria-invalid` attribute and clearing the input (lines 35-45, 130-144) are DOM attribute changes. `CreateTask` returns the verdict that `updateValidationState` receives.
- `console.log` calls: logging only.
- The clock: `new Date()` (lines 56, 94) becomes a `Timestamp` parameter. Nothing relates `completedOn` to `createdOn`, since that would need a monotonic clock.
- The DOM input field: `taskDescriptionInput.value` becomes the `input` parameter of `CreateTask`, and the `data-task-id` attribute becomes the `taskId` parameter of the two handlers.
- Task objects are modelled as values inside the store's lists. The source writes `completed` and `completedOn` on the task object in place (lines 93-94), just before splicing it out of `incomplete`. At that moment no other reference to the object exists in the state, so an updated copy gives the same lists. Object identity and aliasing are not modelled.
- `TaskStore.TaskStore.CreateTask`, `TaskStore.TaskStore.HandleTaskCompletion`, `TaskStore.TaskStore.HandleTaskDeletion`: each requires the store invariant. Every store built by the constructor and changed only by these methods satisfies it (`Tasks.ReachableValid`).
- The counter is an unbounded natural number. JavaScript numbers lose integer precision above 2^53, and ids would then repeat; the model does not capture that.
- `trim()` uses the WhiteSpace and LineTerminator code points of ECMAScript as a fixed list (`Text.IsWhitespace`), matching the current Unicode space separators. Later Unicode versions may change that category.
