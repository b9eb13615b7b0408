# To-do list state, modelled in Dafny

A model of the state logic of a small React to-do application
(`src/index.js`). The top-level component `TodoAppContainer` owns an id
counter `todoId` and an ordered list `todoItems` of `{todoId, name, status}`
records. Three handlers act on that state: add, status change and delete. The
`AddBox` component refuses blank text before forwarding it. The list body
renders two containers, "undone" and "done", each showing the items of its
stage. Each container keeps one `TodoItem` row component per item of its
stage, keyed by the item's index in the whole list.

Files:

- `whitespace.dfy` (module `Whitespace`): JavaScript's `trim` and the blank-text test it feeds.
- `todo_list.dfy` (module `TodoList`): items, stages, and the state invariant (ids strictly increasing, between 1 and the counter). It also holds the pure list transformations behind the handlers (`StatusSet`, `Deleted`), the two views (`View`), and the lemmas about them.
- `todo_app.dfy` (module `TodoApp`): the classes `TodoAppContainer` and `AddBox`. Their fields are the component state and their methods are the handlers, each proved against the functions of `TodoList`. The status handler keeps the source's loop over a copy of the list.
- `screen.dfy` (module `Screen`): the screen as a value. It holds the container state, the row components of both containers, and their keyed reconciliation after every change. This is used to state which way items can move between the two views, and that no stored name is ever blank. Its steps `Submitted`, `Removed` and `Ticked` model the container's handlers a second time, on the whole screen. They go through the same `NewItem`, `StatusSet` and `Deleted` that the `TodoAppContainer` methods are proved equal to, so both agree on the list and the counter.

Points where the code may differ from what a reader expects; the model follows the code:

- A new item's id is the counter plus one, not the counter.
- Accepted text is stored exactly as typed, not trimmed.
- A status change for an id that no item carries changes nothing and raises nothing.
- A delete removes every item with the given id. With unique ids that is at most one item (`DeletedCount`).

## Model

| member | source | states |
|---|---|---|
| `Whitespace.LeadingWhitespace` | src/index.js:147 | the count of white-space characters `trim()` cuts from the start: every character below the count is white space and the one at the count, if any, is not |
| `Whitespace.TrailingWhitespace` | src/index.js:147 | the count of white-space characters `trim()` cuts from the end: every one of the last `n` characters is white space and the one before them, if any, is not |
| `Whitespace.TrimStart` | src/index.js:147 | the result is a suffix of the input; everything cut off is white space, and the result does not start with white space |
| `Whitespace.TrimEnd` | src/index.js:147 | the result is a prefix of the input; everything cut off is white space, and the result does not end with white space |
| `Whitespace.Trim` | src/index.js:147 | `trim()` returns the slice of its input left after cutting off the leading and the trailing white space: everything cut off at either end is white space, and neither end of the result is white space |
| `Whitespace.IsBlank` | src/index.js:147 | no contract of its own; it computes the guard `text.trim() === ''`, characterised by `BlankIffAllWhitespace` |
| `Whitespace.BlankIffAllWhitespace` | src/index.js:147-150 | text is refused as blank exactly when all of its characters are white space, so the empty string is refused and any text with a visible character is not |
| `Whitespace.TrimIdempotent` | src/index.js:147 | trimming a trimmed string changes nothing |
| `TodoList.StageOf` | src/index.js:71 | no contract of its own; it computes `status ? 'done' : 'undone'`, the stage an item is shown in |
| `TodoList.NewItem` | src/index.js:189-193 | the item built by an add carries an id above the counter, the text as given, and starts in the undone stage |
| `TodoList.NewIdIsFresh` | src/index.js:188-193 | the id given to a new item (counter + 1) is carried by no item of a well-formed list |
| `TodoList.AddKeepsWellFormed` | src/index.js:188-197 | appending the new item and advancing the counter by one keeps ids strictly increasing and within 1..counter |
| `TodoList.SetStatusOf` | src/index.js:206-207 | no contract of its own; it computes one step of the `forEach`: the item with its status replaced when its id matches, the item unchanged otherwise |
| `TodoList.StatusSet` | src/index.js:201-213 | after a status change the list has the same length, order, ids and names; every item with the id has the new status and every other item keeps its status |
| `TodoList.StatusSetUnknownId` | src/index.js:205-209 | a status change for an id no item carries leaves the list unchanged |
| `TodoList.StatusSetIdempotent` | src/index.js:201-213 | repeating the same status change changes nothing more |
| `TodoList.StatusSetKeepsWellFormed` | src/index.js:201-213 | a status change keeps the id invariant, with the counter untouched |
| `TodoList.Deleted` | src/index.js:216-220 | the filter never lengthens the list (its contents are stated by `DeletedMembers`, its order by `DeletedConcat`) |
| `TodoList.DeletedMembers` | src/index.js:218-220 | the filtered list holds exactly the items of the original whose id differs from the deleted one |
| `TodoList.DeletedConcat` | src/index.js:218-220 | filtering distributes over concatenation, so survivors keep their relative order |
| `TodoList.DeletedUnknownId` | src/index.js:216-223 | deleting an id no item carries leaves the list unchanged |
| `TodoList.DeletedIdempotent` | src/index.js:216-223 | deleting twice gives the same list as deleting once |
| `TodoList.DeletedCount` | src/index.js:216-223 | with unique ids, a delete removes exactly one item when the id is present and none when it is absent |
| `TodoList.DeletedKeepsWellFormed` | src/index.js:216-223 | a delete keeps ids strictly increasing and within 1..counter, with the counter untouched |
| `TodoList.View` | src/index.js:67-80 | a container never shows more rows than the list has items (its contents are stated by `ViewMembers`, its order by `ViewConcat`) |
| `TodoList.ViewMembers` | src/index.js:70-71 | a container shows exactly the items of its stage (`status ? 'done' : 'undone'`) |
| `TodoList.ViewConcat` | src/index.js:70-80 | the view of a concatenation is the concatenation of the views, so each view keeps list order |
| `TodoList.ViewsPartition` | src/index.js:106-113 | the undone and done views together hold every item of the list exactly as often as the list does |
| `TodoList.ViewsCoverList` | src/index.js:106-113 | the two views together are exactly as long as the list |
| `TodoList.ViewsDisjoint` | src/index.js:106-113 | every item of the list is in exactly one of the two views |
| `TodoList.AddedItemIsLastUndone` | src/index.js:188-197 | a new item appears at the end of the undone view, and the done view is unchanged |
| `TodoList.StatusSetMovesItem` | src/index.js:201-213 | after a status change every item with that id is in the view of the new status, and no item with that id is left in the other view |
| `TodoApp.TodoAppContainer.constructor` | src/index.js:176-182 | the app starts with counter 0 and an empty list, which satisfies the invariant |
| `TodoApp.TodoAppContainer.HandleAddTodoText` | src/index.js:188-199 | one item is appended at the end, with id = old counter + 1, the given text and status false; the counter goes up by exactly one and earlier items are untouched; the invariant is kept |
| `TodoApp.TodoAppContainer.HandleStatusChange` | src/index.js:201-214 | the loop over the copied list yields `StatusSet` of the old list; the counter is unchanged and the invariant is kept |
| `TodoApp.TodoAppContainer.HandleDeleteItem` | src/index.js:216-224 | the new list is `Deleted` of the old list; the counter is unchanged and the invariant is kept |
| `TodoApp.TodoAppContainer.UndoneItems` | src/index.js:106-109 | the undone container's rows are exactly the items with status false, in list order |
| `TodoApp.TodoAppContainer.DoneItems` | src/index.js:110-113 | the done container's rows are exactly the items with status true, in list order |
| `TodoApp.AddBox.constructor` | src/index.js:120-129 | the add box starts with empty text |
| `TodoApp.AddBox.HandleTextChange` | src/index.js:131-135 | the box's text becomes the input's value |
| `TodoApp.AddBox.HandleAddTodoText` | src/index.js:145-155 | text whose trimmed form is empty is refused, leaving list, counter and box text unchanged; any other text is appended untrimmed as one new item and the box is reset to empty |
| `TodoApp.MarkFirstOfTwo` | src/index.js:70-80 | once the first of two undone items with different ids is marked done, the undone view holds only the second item and the done view only the first |
| `TodoApp.AddTwo` | src/index.js:145-155 | two texts that are not blank, typed into the add box and submitted to an empty container, leave it holding the two items in order with ids 1 and 2 and the counter at 2 |
| `TodoApp.AddAddMarkDone` | src/index.js:188-214 | for any two texts that are not blank: adding the first, then the second, then marking the first item done leaves the second alone in the undone view and the first alone in the done view |
| `Screen.Reconcile` | src/index.js:70-80 | a container re-rendered after a change shows exactly the keys of its stage; a surviving key keeps its row's state, and a new key gets a fresh, unchecked row holding its item's id |
| `Screen.TickEventAsWritten` | src/index.js:15-24 | no contract of its own; it computes the event a row sends as written: the id the row copied when it was mounted (line 10) and its flipped `checked` |
| `Screen.TickEvent` | src/index.js:15-24 | no contract of its own; it computes the corrected event: the id of the item the row currently shows and the row's flipped `checked` |
| `Screen.Submitted` | src/index.js:145-155 | no contract of its own; it computes a submit of the add box: blank text leaves the screen as it was, other text appends `NewItem` and re-renders (its properties are `SubmitKeepsConsistent`, `AddReopensNothing`, `SubmitMountsNewRow`) |
| `Screen.Removed` | src/index.js:43 | no contract of its own; it computes a press of the X button of a shown row: delete by the id of the item the row shows, then re-render; a key not shown changes nothing (its properties are `RemoveKeepsConsistent`, `DeleteReopensNothing`) |
| `Screen.Ticked` | src/index.js:15-24 | no contract of its own; it computes a tick of an undone row: flip the row's `checked`, apply the status change the row's event names, re-render; the flag selects the as-written or the corrected event (its properties are `TickKeepsConsistent`, `MarkDoneReopensNothing`, `StaleRowTicks`) |
| `Screen.SubmitKeepsConsistent` | src/index.js:145-155 | a submit keeps the list invariant, the containers' keys and all undone rows unticked |
| `Screen.RemoveKeepsConsistent` | src/index.js:43 | pressing a row's X button keeps the list invariant, the containers' keys and all undone rows unticked |
| `Screen.TickKeepsConsistent` | src/index.js:15-24 | once corrected, ticking an undone row marks the item it shows as done; that row leaves the undone container and the screen stays consistent |
| `Screen.ApplyKeepsConsistent` | src/index.js:15-24 | once the row's event carries the id of the item it shows, every user action keeps the invariant, the containers' keys and all undone rows unticked |
| `Screen.RunKeepsConsistent` | src/index.js:188-224 | every screen reachable by a sequence of corrected actions is consistent |
| `Screen.ApplyKeepsNamesNotBlank` | src/index.js:145-155 | no action, as written or corrected, stores a blank name: a submit refuses blank text (lines 147-150), a status change keeps every name (lines 205-209), and a delete keeps only old items (lines 218-220) |
| `Screen.RunKeepsNamesNotBlank` | src/index.js:145-155 | after any sequence of actions from a screen without blank names, with row ticks taken as written or as corrected, no stored name is blank |
| `Screen.ReachableNamesNotBlank` | src/index.js:145-155 | on every screen reachable from the start, by the code as written or as corrected, no stored item's name is empty or only white space |
| `Screen.AddReopensNothing` | src/index.js:188-197 | adding never moves a done item back to undone |
| `Screen.DeleteReopensNothing` | src/index.js:216-223 | deleting never moves a done item back to undone |
| `Screen.MarkDoneReopensNothing` | src/index.js:201-213 | a status change to true never moves a done item back to undone |
| `Screen.ApplyOnlyMovesForward` | src/index.js:15-24 | once corrected, ticking an undone row marks exactly the item it shows as done, and no action moves a done item back to undone |
| `Screen.ReachableStepsOnlyMoveForward` | src/index.js:40-41 | once corrected, from every reachable screen, no action moves a done item back to undone |
| `Screen.StartConsistent` | src/index.js:176-182 | the initial screen, with no items and no rows, is consistent |
| `Whitespace.VisibleCharIsNotBlank` | src/index.js:147 | a one-character text whose character is not white space passes the blank guard |
| `Screen.SubmitMountsNewRow` | src/index.js:145-155 | submitting non-blank text appends the item, mounts a fresh unchecked row for it under the next index, whose first tick as written (lines 10, 15-24) sends `{counter + 1, true}` and so marks the new item done, and keeps every existing row and its state |
| `Screen.FirstAdded` | src/index.js:188-197 | adding "a" on the start screen gives the list [a] with id 1 |
| `Screen.SecondAdded` | src/index.js:188-197 | then adding "b" mounts the undone row keyed 1 for "b" |
| `Screen.ThirdAdded` | src/index.js:70-80 | then adding "c" leaves that row's state as it was |
| `Screen.ThreeAdded` | src/index.js:188-197 | after adding "a", "b" and "c", the undone row keyed 1 was mounted for "b" |
| `Screen.FirstDeleted` | src/index.js:216-223 | deleting "a" keeps the row keyed 1, still holding "b"'s id, while it now shows "c" |
| `Screen.StaleRowTicks` | src/index.js:15-24 | as written, ticking that row twice marks "b" done and then undone again |
| `Screen.StaleRowReopensDoneItem` | src/index.js:10-24 | as written, the action trace add a, b, c / delete a / tick c / tick c moves "b" from done back to undone |
| `Screen.CorrectedRowTick` | src/index.js:34-43 | once corrected, ticking the row that shows "c" marks "c" done |
| `Screen.CorrectedRowMarksShownItem` | src/index.js:34-43 | once corrected, the same trace marks "c" done and leaves "b" undone |

## Findings

| source | as written | input that shows it | evidently intended | confidence | as-written member | corrected member |
|---|---|---|---|---|---|---|
| src/index.js:10-24 | A row copies its item's id into its own state once, when mounted, and sends that id with every checkbox event. Rows are keyed by index in the whole list (line 73), so after an earlier item is deleted a surviving row shows a different item but keeps the old id. The X button reads the id from props (lines 34, 43) and is not affected. | add "a", "b", "c"; delete "a"; tick "c"; tick "c" again | the event names the item the row shows, as the delete button does; a done item is never moved back to undone | not executed; reasoned from React's keyed reconciliation | `Screen.StaleRowReopensDoneItem` | `Screen.ReachableStepsOnlyMoveForward` |

## Left out

- Rendering: JSX, CSS class choice, the container headings, `ReactDOM.render` and the checkbox's displayed `checked || status`. None of these affects state.
- `setState` asynchrony and batching: each handler is one atomic update. The add handler reads the id from `this.state.todoId` and advances the counter through the updater's `state.todoId`; run one at a time, these agree, and the model takes them to agree.
- Object sharing in the status handler: `slice(0)` copies only the array, so items are changed in place and shared with the previous state. The model updates a sequence of values, so it does not capture that sharing.
- Browser input: the `alert` shown for blank text, keyboard events (Enter submits, lines 137-143) and the input element's wiring. A submit is one action carrying the text.
- The pass-through handlers of `TodoItem`, `TodoListContainer` and `TodoBody`, which only forward a call to the parent's handler.
- Number width: `todoId` is a JavaScript number (a double), so the counter step `todoId + 1` (lines 190 and 195) stops increasing at 2^53 and ids would repeat from there on. The model's counter is unbounded, so `WellFormed`, `NewIdIsFresh` and `AddKeepsWellFormed` hold only below that bound; reaching it would take 2^53 adds, which cannot happen in practice.
- The `todoText: ''` field of the container's state (line 180): it is set once and never read or updated, so the class `TodoAppContainer` has no field for it.
- `Screen.Reconcile`: models React's keyed reconciliation only to the degree this code uses it. A key still rendered keeps its component and that component's state, a new key constructs a component, and a removed key unmounts it.
- TodoItem rows: modelled as values (`Screen.Row`) inside the screen, not as objects, because React decides when they are created and destroyed.
