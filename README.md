# Cornfield todo app — a Dafny model

This project models the logic of a small todo application: an Express API
server that keeps todo items in memory, and a React client that shows them,
changes them optimistically and then adopts the server's answer or rolls
back. A todo item is a record `{id, text, completed, order, createdAt,
updatedAt?}`. All the logic is list manipulation over such records, with
some counting on top.

Modules, one per part of the program:

- `Text` (`text.dfy`): JavaScript's `String.prototype.trim` with the
  ECMAScript white-space set, and the decimal rendering of a count in a
  template literal.
- `Todos` (`todos.dfy`): the item record, and the list operations both
  sides use:
  - `filter`, written `Keep`
  - `map` to ids
  - `find`/`findIndex` by id
  - the view switch (`all` / `active` / `completed`)
  - the counting behind the stats
- `Ordering` (`ordering.dfy`): `sort((a, b) => a.order - b.order)`.
  ECMAScript requires this sort to be stable, so it is a stable insertion
  sort, proved ascending, a permutation and stable.
- `TodoStats` (`todo_stats.dfy`): the completion percentage, which the
  server and the client header compute with the same expression.
- `Server` (`server.dfy`): the store as a class `TodoStore` holding
  `todos: seq<Todo>`. It has one method per store route handler body. Its
  invariant `Valid()` says that ids are distinct.
- `App` (`app.dfy`):
  - the transforms the client passes to `setTodos`
  - the intended delete rollback
  - a class `AppState` with the client's state and one method per handler
- `TodoList` (`todo_list.dfy`): the drag-and-drop move, and the empty-state
  message.
- `TodoForm` (`todo_form.dfy`): the form's `text` state, submit gating, and
  the disabled rule.
- `TodoFooter` (`todo_footer.dfy`): the remaining-count message and the
  clear button.

Ids (`uuidv4()`) and timestamps (`new Date().toISOString()`) are
parameters. `TodoStore.Create` requires its id to be fresh.

Each awaited API call in the client is a parameter of type
`Reply<T>`, which takes one of three values:

- `Succeeded(data)`: a body with `success: true`
- `Declined`: a body with `success: false`
- `Threw`: a rejected promise

Several lemmas tie the client to the server. For a list with distinct ids:

- the optimistic toggle followed by the server's copy gives exactly the
  store after the update
- the optimistic delete removes exactly the item the server's splice
  removes
- the ids a drop in the full list sends make the optimistic reorder equal to
  the list the server's reorder returns

## Model

| member | source | states |
|---|---|---|
| Text.Trim | server/server.js:83-92 | the trimmed text is the infix left after removing white space at both ends; it is empty exactly when the input is all white space, and otherwise starts and ends with a non-space |
| Text.TrimIdempotent | client/src/components/TodoForm.js:8-12 | trimming twice equals trimming once, so text the form trimmed is stored unchanged by the server's trim |
| Text.IsBlank | server/server.js:83 | `text.trim() === ''` holds exactly when every character is white space |
| Text.NatToString | client/src/components/TodoFooter.js:14 | a count renders as decimal digits, with no leading zero except for 0 |
| Text.ParseNatToString | client/src/components/TodoFooter.js:14 | the rendered count reads back as the count |
| Todos.Keep | server/server.js:46-48 | a filter never grows the list |
| Todos.KeepMembers | server/server.js:46-48 | a filter keeps exactly the elements that pass: each passing element as often as in the input, every other element not at all |
| Todos.KeepAppend | server/server.js:162-163 | filtering distributes over concatenation, so relative order is kept |
| Todos.KeepAll | server/server.js:163 | filtering a list whose elements all pass returns it unchanged |
| Todos.DoneActivePartition | server/server.js:162-163 | the completed and the active items split the list: multisets and lengths add up |
| Todos.KeepLengthPermutation | client/src/App.js:79-85 | permuting a list does not change how many elements pass a filter |
| Todos.Find | server/server.js:112 | `findIndex` by id: None exactly when the id is absent, otherwise the first position holding it |
| Todos.Ids | client/src/components/TodoList.js:14 | `items.map(item => item.id)`: one id per item, position by position |
| Todos.FindTodo | server/server.js:64 | `find` by id: None exactly when absent, otherwise the first list item with that id |
| Todos.FindDistinct | server/server.js:142 | with distinct ids the lookup of an item's id finds that item |
| Todos.DistinctSubMultiset | server/server.js:151 | a sub-multiset of a list without repeats has none |
| Todos.KeepDistinctIds | server/server.js:163 | filtering keeps ids distinct |
| Todos.ViewOf | client/src/App.js:67-76 | the filter `active` selects the active view, `completed` the completed view, and every other string selects all items |
| Todos.Select | server/server.js:43-49 | the active view holds exactly the non-completed items, the completed view exactly the completed ones, and the all view the whole list |
| Todos.CountStats | client/src/App.js:83-89 | total is the length, completed is the number of completed items, active is the number of non-completed ones, and active + completed = total |
| Ordering.SortByOrder | server/server.js:52 | the sort yields a list ascending by order that is a permutation of the input |
| Ordering.SortStable | server/server.js:192 | items sharing an order value keep their relative order |
| Ordering.SortDistinctIds | server/server.js:192 | sorting keeps ids distinct, with the same multiset of ids |
| Ordering.SortedUnique | server/server.js:192 | a sorted permutation of a list with strictly ascending orders is that list |
| Ordering.SortStrictlyOrdered | server/server.js:52 | sorting a list with strictly ascending orders leaves it unchanged |
| Ordering.OrdersAreRange | server/server.js:184-192 | ascending distinct integers drawn from 0..n-1 are exactly 0, 1, …, n-1 |
| TodoStats.CompletionRate | client/src/components/TodoStats.js:4 | 0 for total 0; otherwise within half a unit of 100·completed/total, halves rounded up (the same expression as server/server.js:213) |
| TodoStats.RateAtMostHundred | server/server.js:213 | with completed ≤ total the rate is at most 100 |
| TodoStats.RateOfNone | client/src/components/TodoStats.js:4 | no completed item gives rate 0 |
| TodoStats.RateOfAll | client/src/components/TodoStats.js:4 | all items completed gives rate 100 |
| Server.TextRequired | server/server.js:83-88 | the 400 reply with message "Todo text is required" |
| Server.NotFound | server/server.js:66-71 | the 404 reply with message "Todo not found" |
| Server.NotAnArray | server/server.js:176-181 | the 400 reply with message "todoIds must be an array" |
| Server.MaxOrder | server/server.js:34 | `Math.max` over the orders is an order of some item and bounds every order |
| Server.NextOrder | server/server.js:33-35 | 0 for an empty store; otherwise one more than an existing order, and greater than every order |
| Server.Patched | server/server.js:122-130 | text becomes its trimmed value if sent, completed is replaced if sent, updatedAt is always stamped; id, order and createdAt are kept |
| Server.LastIndexOf | server/server.js:184-189 | for a listed id, the index of its last occurrence: a later duplicate overrides an earlier one |
| Server.Renumbered | server/server.js:184-189 | only the order of an item changes; the first item carrying a listed id gets the index of that id's last occurrence, and an unlisted item or a later duplicate of an id is left as it is |
| Server.Reassigned | server/server.js:184-189 | the loop changes only orders: ids stay in place and the length is kept |
| Server.ReassignedStep | server/server.js:185-188 | one iteration renumbers the first item with that id to the current index, or changes nothing when no item has it |
| Server.ReassignedOrders | server/server.js:184-189 | with distinct ids, a listed item takes the index of its last occurrence, an unlisted item keeps its order, and unknown ids change nothing |
| Server.ReassignedByPermutation | server/server.js:184-189 | when the ids are a permutation of the store's ids, every item is renumbered |
| Server.PermutationOrdersDistinct | server/server.js:184-189 | a permutation gives distinct new orders in 0..n-1 |
| Server.SortedOrdersAreRange | server/server.js:192 | sorting items whose orders are distinct and in 0..n-1 puts order k at position k |
| Server.ReorderByPermutation | server/server.js:173-198 | reordering by a permutation of the store's distinct ids lists exactly those ids in that sequence, with orders 0..n-1 |
| Server.ReorderReversed | server/server.js:173-198 | reordering with the ids reversed lists the items reversed, and listing them again keeps that |
| Server.AppendFresh | server/server.js:98 | appending an item with a fresh id keeps ids distinct, and looking up that id finds the new item at the end |
| Server.SpliceRemovesId | server/server.js:151 | after the splice the id is gone, so a second delete is a 404, and ids stay distinct |
| Server.ClearIdempotent | server/server.js:162-163 | after one clear nothing is completed, and a second clear keeps the store |
| Server.TodoStore.Seeded | server/server.js:15-30 | the store starts with the two seed items at orders 0 and 1, not completed |
| Server.TodoStore.List | server/server.js:40-58 | the selected view sorted by order, with total its length; in the all case the store itself ends up sorted |
| Server.TodoStore.Get | server/server.js:62-77 | 404 exactly for an unknown id; otherwise a store item with that id |
| Server.TodoStore.Create | server/server.js:80-105 | missing or blank text gives 400 and no change; otherwise one item with trimmed text, not completed, and an order above every existing one is appended |
| Server.TodoStore.Update | server/server.js:108-137 | 404 and no change for an unknown id; otherwise only the first item with that id is patched |
| Server.TodoStore.Delete | server/server.js:140-158 | 404 and no change for an unknown id; otherwise the found item is spliced out and returned, and its id is gone |
| Server.TodoStore.ClearCompleted | server/server.js:161-170 | returns the completed items in store order and keeps the others in their order |
| Server.TodoStore.Reorder | server/server.js:173-199 | a missing array gives 400 and no change; otherwise the store becomes the sorted result of the renumbering loop |
| Server.TodoStore.Stats | server/server.js:202-216 | total, completed and active counts that add up, and the completion rate, at most 100 |
| Server.SeedNextOrder | server/server.js:15-35 | creating on the seeded store gives order 2 |
| Server.SeedStats | server/server.js:202-216 | after a third item is added and completed the stats are 3 total, 1 completed, 2 active, 33 percent; after clearing they are 2, 0, 2, 0 percent |
| App.SetCompleted | client/src/App.js:117-121 | items with that id get the new flag, all others are unchanged, and ids stay in place |
| App.ReplaceById | client/src/App.js:127-131 | items with that id are replaced by the server copy, all others are unchanged |
| App.ToggleRevertRestores | client/src/App.js:143-147 | the revert undoes the optimistic toggle when the items had the opposite flag |
| App.ClickToggleRevertRestores | client/src/components/TodoItem.js:5-7 | a click always requests the negated flag, so toggle then revert restores the list |
| App.ToggleMatchesServer | client/src/App.js:114-131 | with distinct ids the optimistic toggle plus the server copy equals the store after its update |
| App.RemoveById | client/src/App.js:161 | every item with that id is gone and every other item stays |
| App.RemoveMatchesServer | client/src/App.js:160-161 | with distinct ids the optimistic delete equals the server's splice |
| App.KeepSplice | client/src/App.js:161 | filtering out exactly one position is splicing it out |
| App.OptimisticReorder | client/src/App.js:218-221 | the list holds exactly the sent ids in sequence, numbered 0, 1, …, each the first list item with that id, with only its order changed |
| App.OptimisticReorderMatchesServer | client/src/App.js:218-228 | for a permutation of distinct ids the optimistic list equals what the server's reorder returns |
| App.ReorderEntryMatches | client/src/App.js:218-221 | entry k of both lists is the item with the k-th id at order k |
| App.DeleteFailedAsWritten | client/src/App.js:171-175 | the failure path as written: the item stays removed |
| App.DeleteRollbackLosesItem | client/src/App.js:160-174 | a one-item list whose delete the server refused ends empty on the client |
| App.RestoreDeleted | client/src/App.js:173-174 | the saved item goes back in and the list is sorted: a sorted permutation of the list plus the item |
| App.DeleteFailed | client/src/App.js:157-175 | remove then restore; an id not in the list leaves the list as it was |
| App.DeleteFailedRestores | client/src/App.js:157-175 | for a list with distinct ids and ascending distinct orders, a refused delete gives back exactly the list before it |
| App.SortKeepsCounts | client/src/App.js:79-89 | sorting the list in place does not change the counts |
| App.AppState.constructor | client/src/App.js:14-20 | the initial state: empty lists, filter `all`, zero counts, not loading, first-load spinner on, no error |
| App.AppState.FilterTodos | client/src/App.js:64-81 | the view sorted by order; in the all view the list state itself is sorted too |
| App.AppState.UpdateStats | client/src/App.js:83-89 | the counts of the current list |
| App.AppState.Refresh | client/src/App.js:29-32 | the effect: the shown view is refreshed, and the counts are those of the list |
| App.AppState.LoadTodos | client/src/App.js:47-62 | takes the server's list, or `[]` for a body without data; on a throw keeps the list and sets the error text; the first-load spinner ends |
| App.AppState.Retry | client/src/App.js:242-245 | the spinner is shown and the list loaded again: a retry that reaches the server clears the error and takes its list, one that throws keeps the list and the error text; the spinner ends |
| App.AppState.AddTodo | client/src/App.js:91-112 | on success the created item is appended, otherwise no change; not loading afterwards |
| App.AppState.ToggleTodo | client/src/App.js:114-155 | optimistic flag, then the server copy on success or the flag reverted on a throw |
| App.AppState.DeleteTodo | client/src/App.js:157-183 | optimistic removal, restored by the intended rollback on a throw |
| App.AppState.ClearCompleted | client/src/App.js:185-213 | keeps the active items, or reloads on a throw; not loading afterwards; without a throw `error` and `initialLoading` are kept, after the reload the first-load spinner is off and `error` holds the load failure text exactly when the reload threw |
| App.AppState.ReorderTodos | client/src/App.js:215-240 | optimistic renumbering, then the server's list on success or a reload on a throw; without a throw `error` and `initialLoading` are kept, after the reload the first-load spinner is off and `error` holds the load failure text exactly when the reload threw |
| App.AppState.SetFilter | client/src/App.js:285 | only the filter changes |
| TodoList.RemoveAt | client/src/components/TodoList.js:10 | the list without one element, the others in order |
| TodoList.InsertAt | client/src/components/TodoList.js:11 | one element inserted at a position, the others in order around it |
| TodoList.Move | client/src/components/TodoList.js:9-11 | the moved item lands at the drop position, and removing it there gives the list with it removed from the start position |
| TodoList.Determined | client/src/components/TodoList.js:9-11 | a list is determined by one element and the rest in order |
| TodoList.MovePermutes | client/src/components/TodoList.js:9-14 | a move permutes the list |
| TodoList.MoveInPlace | client/src/components/TodoList.js:9-14 | dropping where the drag started changes nothing |
| TodoList.MoveBack | client/src/components/TodoList.js:9-11 | moving back undoes a move |
| TodoList.SplicesAreMove | client/src/components/TodoList.js:9-11 | the two splices compute the move |
| TodoList.HandleDragEnd | client/src/components/TodoList.js:6-16 | a drop without destination sends nothing; otherwise the ids of the moved list are sent |
| TodoList.DragEmitsPermutation | client/src/components/TodoList.js:9-14 | the sent ids are a permutation of the shown ids with the dragged id at the drop position; a drop in place sends the ids unchanged |
| TodoList.DragReorderMatchesServer | client/src/components/TodoList.js:6-16 | in the full list the sent ids make the client's optimistic list equal to the server's reordered list, in the dropped sequence |
| TodoList.EmptyStateMessage | client/src/components/TodoList.js:18-39 | the active view, the completed view and every other filter each get their own message |
| TodoList.EmptyStateFollowsView | client/src/components/TodoList.js:18-39 | two filters get the same message exactly when they select the same view |
| TodoList.Render | client/src/components/TodoList.js:41-75 | the empty state exactly for an empty list, otherwise the items in the given order |
| TodoForm.SubmitDisabled | client/src/components/TodoForm.js:38 | the add button is disabled exactly when the text is all white space or an add is in flight |
| TodoForm.Submitted | client/src/components/TodoForm.js:8-12 | nothing exactly for all-white-space text; otherwise the trimmed text, non-empty and without white space at its ends |
| TodoForm.EnabledSubmitAdds | client/src/components/TodoForm.js:38 | an enabled button always passes on text the server accepts and stores unchanged |
| TodoForm.DisabledIffNothingToAdd | client/src/components/TodoForm.js:38 | the button is disabled exactly when a submit would pass nothing, or while loading |
| TodoForm.Form.constructor | client/src/components/TodoForm.js:4 | the input starts empty |
| TodoForm.Form.Change | client/src/components/TodoForm.js:28 | the text becomes the typed value |
| TodoForm.Form.Submit | client/src/components/TodoForm.js:6-14 | blank text passes nothing and is kept; otherwise the trimmed text is passed on once and the input is cleared |
| TodoForm.Form.KeyPress | client/src/components/TodoForm.js:16-20 | Enter behaves exactly like submit; other keys change nothing |
| TodoFooter.CountText | client/src/components/TodoFooter.js:10-15 | "No todos" for an empty list whatever the other counts, "All done! 🎉" with nothing active, "1 item left", otherwise "n items left" |
| TodoFooter.CountTextShowsCount | client/src/components/TodoFooter.js:14 | the message starts with the count, which reads back as the count |
| TodoFooter.CountTextInjective | client/src/components/TodoFooter.js:10-15 | non-empty lists with different active counts get different messages |
| TodoFooter.FooterNeverSaysEmpty | client/src/App.js:297-305 | for a non-empty list whose counts are in step with it, as `Refresh` leaves them, the footer's message is never "No todos" |
| TodoFooter.ClearButton | client/src/components/TodoFooter.js:23-31 | shown exactly when something is completed; disabled and "Clearing..." while loading, otherwise "Clear Completed (n)" |

## Left out

- Express plumbing is not modelled: middleware, `app.listen`, the
  catch-all 404 and the 500 handler (server/server.js:1-12, 228-251).
  Each handler body is a store method.
- Route dispatch is not modelled. PUT `/api/todos/reorder` is registered
  after PUT `/api/todos/:id`, so a running server hands reorder requests to
  the update handler, which answers 404. The reorder body is modelled as
  written. In the client this means every reorder call throws, and
  `ReorderTodos` with `reply == Threw` then reloads the list.
- `uuidv4()` and `new Date().toISOString()` are parameters. Fresh ids are a
  precondition of `Create`.
- Non-string `text` in a request body is not modelled. In POST, a falsy
  value (`null`, `0`, `false`) gets the same 400 reply as a missing text,
  which an absent text covers; any other non-string throws at `.trim()`
  and goes to the 500 path. In PUT, every non-string other than
  `undefined` throws at `.trim()`. Text is a `string` or absent.
- Non-boolean `completed` in a PUT body is not modelled: the server stores
  whatever value is sent and the filters and stats test it by truthiness,
  so `"false"` would count as completed. `completed` is a `bool` or absent,
  as the only client sends a boolean.
- PUT `/api/todos/:id` trims a sent text but does not reject a blank one.
  `Patched` models it as written.
- client/src/api.js is not modelled: it is a network wrapper with logging.
- server/test-api.js is not modelled: it only logs responses.
- Toasts, console logging and `checkServerHealth` are not modelled.
- GET `/api/health` (server/server.js:218-226) is not modelled: it only
  answers a constant message with the clock's time and touches no state.
- React's scheduling is not modelled. Each handler runs to completion
  against the current state, so the interleaving of in-flight responses is
  left out.
- `TodoFooter.FooterNeverSaysEmpty` is stated for counts in step with the
  list. The counts are state that the effect updates after each change of
  the list (client/src/App.js:29-32), so for the one render between a
  change and the effect the footer shows the previous counts, e.g.
  "No todos" beside the first loaded item. Renders are not modelled.
- Rendering of the loading and error screens is not modelled. Their state
  (`initialLoading`, `error`) is.
- `App.OptimisticReorder` requires every sent id to be in the list. A drop
  only sends ids of shown items, so this holds. The source's
  `{...undefined, order}` for an unknown id is not modelled.
- In the active or completed view a drop sends only the shown ids. The
  optimistic list then holds only those items until the server answers.
  The model keeps this behaviour, and `DragReorderMatchesServer` is stated
  for the full list only.
- `Math.round` on floating point is replaced by exact half-up integer
  rounding. Binary floating-point rounding at exact halves is not
  modelled.
- `Math.max(...spread)` has an engine argument limit; huge stores are not
  modelled.
- The input's `maxLength={200}` is enforced by the browser and is not
  modelled.
- client/src/components/TodoItem.js and client/src/components/FilterTabs.js
  are not modelled: they are presentation. The one fact used from
  TodoItem.js is that a toggle sends `!todo.completed`.
- `TodoList.HandleDragEnd` requires both positions to be inside the list.
  The drag library only reports such positions, and `splice` clamping of
  positions outside the list is not modelled.
- The end-to-end seed scenario is stated as two lemmas, `SeedNextOrder`
  and `SeedStats`, over the store's contents, not as one run of the store
  methods.

## Findings

| source | as written | input that shows it | evidently intended | confidence | as-written member | corrected member |
|---|---|---|---|---|---|---|
| client/src/App.js:160-174 | `todoToDelete` is declared with `const` inside `try`, and the `catch` block reads it, where it is out of scope. The rollback throws a ReferenceError before calling `setTodos`, so the optimistic removal stays. | a list `[t]`, then deleting `t.id` while the server call fails: the client shows `[]` though the server still holds `t` | put the saved item back and sort by order | medium, not executed (a build that rewrites block scoping to function scope would keep the rollback working, and a lint step would refuse to build it) | App.DeleteFailedAsWritten, App.DeleteRollbackLosesItem | App.RestoreDeleted, App.DeleteFailed, App.DeleteFailedRestores |
