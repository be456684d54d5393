# Todo list store: a verified model

This project models the logic of a small React todo-list app in Dafny. The app has three parts:

- **The todo collection** (`App.js`). The state is an ordered list of records `{id, task, done}`, seeded with five items whose ids are 1 to 5. Three handlers replace the list wholesale:
  - `addTodo` appends a new item. Its id is one more than the largest id, and it is not done.
  - `toggleTodo` flips `done` on every item with the given id.
  - `deleteTodo` keeps only the items whose id differs from the given one.
- **The completion counter** (`TodoStatus.js`). It reports how many items are done, out of how many.
- **The add form** (`TodoAdd.js`). It has one text field. A change event replaces the field's text. A click forwards the untrimmed text to `addTodo` only when the text trims to something non-empty, and then clears the field.

Layout, one module per source file:

- `todos.dfy`, module `Todos`: `addTodo`, `toggleTodo` and `deleteTodo` as functions on `seq<Todo>`, with the lemmas about them.
- `status.dfy`, module `TodoStatus`: the counter, with its bounds and how each transition moves it.
- `add_form.dfy`, module `AddForm`: `String.prototype.trim`, the submit guard, and the class `TodoAdd` whose single field is the text field.
- `app.dfy`, module `App`: the class `TodoStore` that holds App's `todos` state, and the form-to-store wiring `Submit`.
  - Each `TodoStore` method assigns the field once, with the value the matching `Todos` function computes.
  - The class invariant is that ids grow strictly along the list, so they are unique.
  - The module also holds `Walkthrough`, a worked scenario: add, toggle, delete, then count.
- `as_written.dfy`, module `AsWritten`: the id computation exactly as written, including `-Infinity` (see Findings).

The empty-list case of `addTodo` has to be decided explicitly. The model's `NextId` gives the id 1 when the list is empty. App.js would compute `Math.max()` + 1 there, which is `-Infinity`. The list can become empty: delete all five seed items. `AsWritten.NextIdAgrees` proves that, over lists whose ids are all integers, the empty list is the only one on which the model's id differs from App.js. Once App.js has stored an item with id `-Infinity`, every later add in App.js also gets `-Infinity` (`AsWritten.EmptyListAddsDuplicateIds`), while the model goes on with 2, 3 and so on; from then on the two id sequences differ for good.

Four behaviours of the code that are easy to misread:

- `addTodo` returns nothing.
- The store accepts any task text; only the form checks for blank text. Every list built from the seed list through the form therefore has a visible character in each task (`App.Submit`), but `addTodo` called directly does not ensure this.
- The form forwards the untrimmed text.
- `deleteTodo` removes every item with the id. App.js itself does not keep ids unique (see Findings). In the model, whose store keeps ids unique, that is exactly one item when the id is present (`DeleteRemovesOne`).

## Model

| member | source | states |
|---|---|---|
| Todos.Seed | todo-app/src/App.js:8-14 | five items with ids 1..5 in order, of which only the third is done |
| Todos.MaxId | todo-app/src/App.js:20 | on a non-empty list: at least every id, and equal to the id of some item |
| Todos.NextId | todo-app/src/App.js:20 | larger than every existing id, so no item has it; one more than an existing id when the list is non-empty; 1 on the empty list |
| Todos.AddTodo | todo-app/src/App.js:18-24 | length grows by one; the old list is an unchanged prefix, in order; the new last item has the given task, is not done, and has the id NextId gives, so above every old id; unique ids and increasing ids are both preserved |
| Todos.ToggleOne | todo-app/src/App.js:30 | the `map` callback keeps id and task and flips `done` exactly when the id matches |
| Todos.ToggleTodo | todo-app/src/App.js:27-32 | length, order, every id and every task unchanged; `done` flipped exactly on the items whose id matches, every other item identical |
| Todos.DeleteTodo | todo-app/src/App.js:35-36 | the result holds exactly the items of the input whose id differs; no item with that id is left; never longer than the input |
| Todos.SeedIsWellFormed | todo-app/src/App.js:8-14 | the seed has five items with ids 1..5, strictly increasing and hence unique |
| Todos.AddsAfterEmptyingAreDistinct | todo-app/src/App.js:20 | with the fallback id, two adds to an emptied list get ids 1 and 2, which are unique |
| Todos.ToggleTwice | todo-app/src/App.js:29-31 | toggling the same id twice returns the original list |
| Todos.ToggleAbsent | todo-app/src/App.js:29-31 | toggling an id no item has leaves the list unchanged |
| Todos.TogglePreservesIds | todo-app/src/App.js:30 | toggling preserves unique ids and increasing ids, and the set of ids present |
| Todos.DeleteAbsent | todo-app/src/App.js:36 | deleting an id no item has leaves the list unchanged |
| Todos.DeleteCount | todo-app/src/App.js:36 | the length drops by exactly the number of items carrying the id |
| Todos.DeleteKeepsOrder | todo-app/src/App.js:36 | the result is a subsequence of the input: the survivors keep their relative order |
| Todos.DeleteRemovesOne | todo-app/src/App.js:36 | with unique ids and the id present, the length drops by exactly one |
| Todos.DeletePreservesUnique | todo-app/src/App.js:36 | deleting keeps ids unique |
| Todos.DeletePreservesIncreasing | todo-app/src/App.js:36 | deleting keeps ids strictly increasing along the list |
| TodoStatus.DoneItems | todo-app/src/components/TodoStatus.js:3 | the filter keeps exactly the done items of the list: a subsequence of the input, each done item as often as in the input and no other item |
| TodoStatus.CompletedTodos | todo-app/src/components/TodoStatus.js:3 | at most the list length; 0 exactly when no item is done |
| TodoStatus.TotalTodos | todo-app/src/components/TodoStatus.js:4 | the list length, 0 exactly on the empty list |
| TodoStatus.CompletedCountsDonePositions | todo-app/src/components/TodoStatus.js:3 | completedTodos equals the number of positions holding a done item |
| TodoStatus.StatusBounds | todo-app/src/components/TodoStatus.js:3-4 | completed is at most total; total is the list length; both are 0 on the empty list |
| TodoStatus.SeedStatus | todo-app/src/components/TodoStatus.js:3-4 | on the seed list the counter reads 1 completed out of 5 |
| TodoStatus.ToggleStatus | todo-app/src/components/TodoStatus.js:3-4 | with unique ids, toggling an existing id leaves total unchanged; completed goes down 1 if the item was done, up 1 if not |
| TodoStatus.AddStatus | todo-app/src/components/TodoStatus.js:3-4 | adding raises total by one and leaves completed unchanged |
| TodoStatus.DeleteStatus | todo-app/src/components/TodoStatus.js:3-4 | with unique ids, deleting an existing id lowers total by one; completed drops by one exactly when the deleted item was done |
| AddForm.IsWhitespace | todo-app/src/components/TodoAdd.js:7 | the characters `trim` strips: never a letter or digit, always space, tab, LF and CR |
| AddForm.TrimStart | todo-app/src/components/TodoAdd.js:7 | a suffix of the input; every character removed is whitespace; the result is empty or starts with a visible character |
| AddForm.TrimEnd | todo-app/src/components/TodoAdd.js:7 | a prefix of the input; every character removed is whitespace; the result is empty or ends with a visible character |
| AddForm.Trim | todo-app/src/components/TodoAdd.js:7 | a slice of the input with only whitespace stripped on both sides; it starts and ends with a visible character; it is empty exactly when the input is all whitespace |
| AddForm.Accepts | todo-app/src/components/TodoAdd.js:7 | the guard `task.trim()` is truthy if and only if the text has a non-whitespace character |
| AddForm.TodoAdd.constructor | todo-app/src/components/TodoAdd.js:4 | the field starts as the empty string |
| AddForm.TodoAdd.OnChange | todo-app/src/components/TodoAdd.js:18 | the field becomes exactly the new input value |
| AddForm.TodoAdd.HandClick | todo-app/src/components/TodoAdd.js:6-11 | text is forwarded if and only if it has a visible character. Forwarded text is the untrimmed original, and the field is then cleared. On a rejected submit nothing is forwarded and the field is unchanged |
| App.SeedTasksVisible | todo-app/src/App.js:8-14 | every seed task has a visible character |
| App.AddKeepsTasksVisible | todo-app/src/App.js:18-24 | adding a task with a visible character keeps every task visible |
| App.ToggleKeepsTasksVisible | todo-app/src/App.js:29-31 | toggling keeps every task, so visible tasks stay visible |
| App.DeleteKeepsTasksVisible | todo-app/src/App.js:36 | deleting keeps only existing items, so visible tasks stay visible |
| App.TodoStore.constructor | todo-app/src/App.js:16 | the state starts as the seed list; it satisfies the invariant that ids increase along the list, and every task has a visible character |
| App.TodoStore.AddTodo | todo-app/src/App.js:18-25 | the new state is addTodo of the old state; the increasing-id invariant holds, so ids stay unique |
| App.TodoStore.ToggleTodo | todo-app/src/App.js:27-33 | the new state is toggleTodo of the old state; the increasing-id invariant holds, so ids stay unique; visible tasks stay visible |
| App.TodoStore.DeleteTodo | todo-app/src/App.js:35-37 | the new state is deleteTodo of the old state; the increasing-id invariant holds, so ids stay unique; visible tasks stay visible |
| App.Submit | todo-app/src/App.js:42 | a click with non-blank text appends that untrimmed text through addTodo and clears the field. A click with blank text changes neither the store nor the field. If every stored task had a visible character, every stored task still has one |
| App.Walkthrough | todo-app/src/App.js:18-37 | from items 1 "A", 2 "B", 3 "C" (done): add "D", toggle 2, delete 1. The list becomes 2 "B" (done), 3 "C" (done), 4 "D", and the counter reads 2 of 3 |
| AsWritten.JsMax | todo-app/src/App.js:20 | `Math.max` gives `-Infinity` exactly when no argument is finite; otherwise it gives the largest finite argument, which is one of the arguments |
| AsWritten.JsPlusOne | todo-app/src/App.js:20 | adding 1 keeps `-Infinity` and increments a finite number |
| AsWritten.NextIdAsWritten | todo-app/src/App.js:20 | the id as written is `-Infinity` whenever no id is finite, the empty list included; otherwise it is the largest finite id plus one |
| AsWritten.EmptyListAddsDuplicateIds | todo-app/src/App.js:20 | after the list is emptied, two adds both get the id `-Infinity` |
| AsWritten.JsIds | todo-app/src/App.js:20 | `todos.map(t => t.id)`: one finite number per item, in order, equal to that item's id |
| AsWritten.JsMaxAgrees | todo-app/src/App.js:20 | on a non-empty list of integer ids, `Math.max` as written equals MaxId |
| AsWritten.NextIdAgrees | todo-app/src/App.js:20 | on a non-empty list the id as written equals NextId; on the empty list it is `-Infinity`, where NextId gives 1 |

## Left out

- JSX rendering, the CSS import, the `App` layout and the status text (`App.js:39-46`, `TodoStatus.js:6-10`) are output only.
- `TodoList.js` and the `Todo` item component are left out. `TodoList.js` only renders items and passes the handlers down. The `Todo` component is not part of this model.
- React's `useState` and re-rendering are not modelled. Each state slot is a plain class field that a method replaces. A handler reading a stale `todos` between renders is not covered.
- JavaScript numbers are not modelled in the store. Ids are unbounded integers, so precision loss above 2^53 and non-integer ids do not arise. `===` on ids is integer equality. Only `AsWritten` models `-Infinity`.
- `Todos.NextId`: on the empty list it returns the fallback 1 instead of the `-Infinity` App.js computes (see Findings).
- `AddForm.IsWhitespace` lists ECMAScript's WhiteSpace and LineTerminator characters, using the space separators of current Unicode. Characters a future Unicode version adds to that category are not covered.

## Findings

| source | as written | input that shows it | evidently intended | confidence | as-written member | corrected member |
|---|---|---|---|---|---|---|
| todo-app/src/App.js:20 | the new id is `Math.max(...ids) + 1`, which is `-Infinity` when the list is empty, and `-Infinity` again when the only id is `-Infinity` | delete the five seed items, then add two tasks: both get the id `-Infinity`, so toggling or deleting one also acts on the other | every new id is unique (the store invariant), for example by starting at 1 on an empty list | medium; not executed | AsWritten.EmptyListAddsDuplicateIds | Todos.NextId |
