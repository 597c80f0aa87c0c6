# Todo task registry — a Dafny model

This project models the core of a small console todo application: the
`TodoService` registry and the `Task` entity it stores. The registry is an
in-memory table from integer id to task, plus a next-id counter. It
supports these operations:

- add a task (the title is validated and trimmed);
- get one task;
- list all tasks in id order;
- update a task's title and/or description;
- delete a task;
- mark a task complete or incomplete.

Layout:

- `wrappers.dfy`: `Option` and `Result`. They stand in for Python's `None`
  and for the `ValueError` raised by task construction.
- `strings.dfy`: the two pieces of Python's string library the core uses:
  - `str.strip()` as `Trim`, over the whitespace set of `str.isspace()`;
  - `str(int)` as `IntToString`, with a parser proved to read it back.
- `models.dfy`: the `Task` datatype. Its constructor's validation and
  trimming are `NewTask`, and its `__str__` is `Display`.
- `services.dfy`:
  - the registry state as a value (`Registry`) and its invariant `Inv`;
  - one function per operation, saying what it does to that state;
  - the class `TodoService`. Its two fields, `tasks` and `nextId`, are
    updated in place by methods that follow the Python code statement by
    statement. Each method is proved to produce exactly the state and
    result of the corresponding function, and to keep the invariant.
    The read-only queries `get_task` and `get_all_tasks` are the functions
    `Get` and `List` applied to `TodoService.State()`.
- `properties.dfy`: properties over sequences of calls:
  - ids are handed out as consecutive integers and never reused;
  - delete twice, complete-then-incomplete, add-then-get;
  - a create/delete/list walk-through: add, add, delete id 1, add; the
    list then holds ids 2 and 3.

## Model

| member | source | states |
|---|---|---|
| Strings.Trim | src/models/__init__.py:34-35 | `str.strip()`: the result is empty exactly when the input is all whitespace; otherwise its first and last characters are not whitespace; it is never longer than the input |
| Strings.TrimKeepsMiddle | src/models/__init__.py:34 | the stripped string is the slice of the input that starts at its first non-whitespace character; everything before and after that slice is whitespace |
| Strings.TrimFixedPoint | src/models/__init__.py:34 | stripping leaves a string unchanged exactly when it has no whitespace at either end |
| Strings.TrimIdempotent | src/models/__init__.py:34 | stripping twice equals stripping once |
| Strings.SkipSpace | src/models/__init__.py:34 | the leading whitespace run from an index ends at the first non-whitespace character, or at the end of the string |
| Strings.SkipSpaceBack | src/models/__init__.py:34 | the trailing whitespace run before an index starts just after the last non-whitespace character |
| Strings.NatToString | src/models/__init__.py:46 | the decimal form of a natural number is non-empty, all digits, and has no leading zero unless the number is 0 |
| Strings.NatToStringRoundTrip | src/models/__init__.py:46 | the digits written for `n` read back as `n` |
| Strings.IntToString | src/models/__init__.py:46 | `str(n)` starts with `-` exactly when `n` is negative |
| Strings.IntToStringRoundTrip | src/models/__init__.py:46 | `str(n)` read back gives `n`, so the printed id determines the id |
| Models.NewTask | src/models/__init__.py:17-36 | construction fails exactly when the title is empty or whitespace only. On success: id and completed flag are kept as passed; title and description are their stripped forms (an empty description stays empty); the task is well formed (non-empty title, both fields stripped) |
| Models.Display | src/models/__init__.py:38-49 | the display starts with the summary line `[mark] ID: id - title`; it equals that line exactly when the description is empty; otherwise the line is followed by the indented description line; the character after `[` is the status mark of the completed flag |
| Models.DisplayMarkerIsStatus | src/models/__init__.py:45-46 | two tasks show the same status mark exactly when their completed flags agree |
| Models.DisplayShowsId | src/models/__init__.py:46 | the digits after `ID: ` in the display read back as the task's id |
| Services.Init | src/services/__init__.py:16-21 | a new registry has no tasks, its counter at 1, and satisfies the invariant |
| Services.InvStore | src/services/__init__.py:48-51 | storing a well-formed task under its own id, below the counter, keeps the invariant |
| Services.NextFreeId | src/services/__init__.py:23-32 | the id `_get_next_id` returns is at or above the counter and not in use, and every id skipped on the way is in use |
| Services.Add | src/services/__init__.py:34-52 | add succeeds exactly when the title is not blank. On success it returns the first id at or above the counter that is not in use and stores the task (stripped title and description, not completed) under it; no other entry changes, and the counter becomes id + 1. On failure no task is stored and the counter is left at that first free id. Under the invariant: the id is the old counter, a failure leaves the state unchanged, and the invariant is kept |
| Services.Get | src/services/__init__.py:54-64 | get finds a task exactly when the id is a key; under the invariant the task found carries that id and is well formed |
| Services.MinKey | src/services/__init__.py:73 | the least id of a non-empty set is a member, and no member is below it |
| Services.SortedKeys | src/services/__init__.py:73 | the ids in strictly ascending order, each exactly once |
| Services.List | src/services/__init__.py:66-73 | lists as many tasks as are stored, and every stored task appears. When each task is stored under its own id, every listed task is the one stored under its id, and ids are strictly ascending, so none repeats |
| Services.Update | src/services/__init__.py:75-104 | update succeeds exactly when the id is present; an unknown id changes nothing. The keys, the counter, the task's id and completed flag, and all other entries are kept. The title becomes the stripped new title if one is given and is not blank, and is kept otherwise. The description becomes the stripped new description if one is given (`""` clears it), and is kept otherwise. The invariant is kept |
| Services.Delete | src/services/__init__.py:106-120 | delete succeeds exactly when the id is present; it removes that key and no other, changes no remaining task and no counter, and keeps the invariant |
| Services.SetCompleted | src/services/__init__.py:122-152 | mark complete/incomplete succeeds exactly when the id is present; an unknown id changes nothing; otherwise only that task's flag changes, to the requested value; keys, counter, other tasks and the invariant are kept |
| Services.TodoService.constructor | src/services/__init__.py:16-21 | the new service is in the initial state and valid |
| Services.TodoService.GetNextId | src/services/__init__.py:23-32 | the skip loop leaves the counter at the next free id and returns it; from a valid state it returns the old counter (the loop never iterates) and the state stays valid |
| Services.TodoService.AddTask | src/services/__init__.py:34-52 | the new fields and the result are those of `Add` on the old state; validity is kept |
| Services.TodoService.UpdateTask | src/services/__init__.py:75-104 | the new fields and the result are those of `Update` on the old state; validity is kept |
| Services.TodoService.DeleteTask | src/services/__init__.py:106-120 | the new fields and the result are those of `Delete` on the old state; validity is kept |
| Services.TodoService.MarkTaskComplete | src/services/__init__.py:122-136 | the new fields and the result are those of `SetCompleted(…, true)` on the old state; validity is kept |
| Services.TodoService.MarkTaskIncomplete | src/services/__init__.py:138-152 | the new fields and the result are those of `SetCompleted(…, false)` on the old state; validity is kept |
| ServiceProperties.StepAllocates | src/services/__init__.py:34-152 | any single call keeps the invariant. A call that hands out no id leaves the counter alone; an add that succeeds hands out the counter's value and advances it by one |
| ServiceProperties.RunAllocatesConsecutively | src/services/__init__.py:23-52 | over any sequence of calls the invariant holds, and the ids handed out are consecutive integers starting at the counter. The counter ends at its start plus the number of ids handed out |
| ServiceProperties.FreshServiceCountsFromOne | src/services/__init__.py:16-52 | from a new service, the ids handed out are 1, 2, 3, … |
| ServiceProperties.UsedIdNeverReissued | src/services/__init__.py:23-120 | an id in use is never handed out again by any later calls, including calls that delete it |
| ServiceProperties.KeysAfterAdd | src/services/__init__.py:48-51 | a successful add on a valid registry keeps the invariant, returns the counter, advances it by one, and adds exactly that key |
| ServiceProperties.AddThenGet | src/services/__init__.py:48-64 | a task just added reads back with its stripped title and description and not completed |
| ServiceProperties.DeleteTwice | src/services/__init__.py:116-120 | deleting a present id succeeds; afterwards get finds nothing; a second delete fails |
| ServiceProperties.CompleteThenIncomplete | src/services/__init__.py:132-152 | complete then incomplete leaves the task not completed; if it was not completed before, the whole registry is back as it was |
| ServiceProperties.BlankTitleKeptEmptyDescriptionCleared | src/services/__init__.py:93-102 | an update with a blank title keeps the title; an update with description `""` clears the description |
| ServiceProperties.ListOfTwo | src/services/__init__.py:73 | a valid registry holding exactly ids 2 and 3 lists two tasks: id 2, then id 3 |
| ServiceProperties.CreateDeleteListScenario | src/services/__init__.py:34-120 | from a new registry, with any non-blank titles: add → 1, add → 2, delete 1, add → 3 (1 is not reused); the list is then ids 2 and 3 in that order |

## Left out

- Console I/O in `src/interfaces/__init__.py` and the entry point `src/main.py`: menus, `input()`/`print()` and `int()` parsing of user input. The interface layer is not part of this model.
- Python object aliasing: `get_task` returns the live `Task` object, and the service writes its fields in place. Here tasks are values, and a field write replaces the task's map entry. The model therefore does not capture changes made through a reference held outside the service.
- Passing `None` as the title to `add_task` or to the `Task` constructor, where `not title` rejects it. Titles are always strings here; `Option` is used only for `update_task`'s optional arguments.
- The exceptions raised by `add_task` become an `Err` result. Control flow after a raise, and the caller's catch in the interface layer, are not modelled.
- Services.Add: on a rejected title, the skip loop in `_get_next_id` has already run when `Task` raises, so the code can move the counter to the next free id even though no task is stored. The model follows the code, and `Add`'s contract states where the counter ends (at `NextFreeId`). A caller would expect a rejected add to leave the counter where it was; the two agree whenever the invariant holds, because the loop then never iterates (proved: failure leaves the state unchanged under `Inv`).
- Services.List: sorts by map key, where `get_all_tasks` sorts by `task.id`. The ordering and membership guarantees are stated under `Keyed`, which makes the two equal and which the invariant implies. The model does not state the order for a registry whose keys differ from its task ids.
- Python default arguments are passed explicitly: the `Task` constructor's `description=""` and `completed=False` by the callers of `NewTask`, and `add_task`'s `description=""` (src/services/__init__.py:34) by the callers of `Add` and `TodoService.AddTask`.
