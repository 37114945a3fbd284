# To-do list task collection, modelled in Dafny

The to-do page keeps its tasks in a JavaScript `Map` from id to
`{text, completed}`. The Map's iteration order is the order in which tasks
are shown and the order in which they are saved to `localStorage`. The page's
event handlers act on the task list in six ways:

- The submit handler adds a trimmed, non-empty task under a timestamp id.
- A click on a task flips `completed`.
- The delete button removes a task.
- While a task is dragged, each `dragover` event moves the dragged list item
  to just before or just after the item under the pointer.
- On `dragend`, the Map is rebuilt in the list's new order.
- Every change writes `[...tasks]` to storage. At startup,
  `new Map(JSON.parse(...) || [])` loads it back.

The model has five modules:

- `OrderedMaps` (`ordered_map.dfy`) describes the JavaScript `Map`. A map is an
  entry list `seq<(K, V)>` with distinct keys. `Set` appends a new key, or
  replaces the value of an existing key in place. `Delete` of an absent key
  does nothing. `FromEntries` is `new Map(entries)`.
- `JsTrim` (`trim.dfy`) is `String.prototype.trim`. It strips the ECMAScript
  white-space and line-terminator characters from both ends.
- `TodoStore` (`tasks.dfy`) holds the task record and the add, toggle and
  delete operations. It also holds saving and loading the entry list.
- `DragReorder` (`drag.dfy`) holds the dragover move on the rendered id order,
  a whole drag as a series of moves, and the rebuild on drag end.
- `Session` (`session.dfy`) works through a short example session.

`Sequences` (`sequences.dfy`) and `Wrappers` (`wrappers.dfy`) are helpers.
They provide distinctness, removal, position and insertion on sequences, and
`Option`.

The model follows the code, including where safer behaviour might be
expected:

- Rebuilding drops every task whose id is not in the new order (`app.js:104`).
- Toggling an id that has no task dereferences `undefined`, so it is a
  precondition, not an error result (`app.js:65-66`).
- Loading does not validate or filter entries. A repeated key keeps its first
  position and takes its last value, as `new Map` does (`app.js:7`).
- A slot that does not hold valid JSON makes `JSON.parse` throw. It does not
  load as an empty list, so the model has no such path.

## Model

| member | source | states |
|---|---|---|
| OrderedMaps.Get | app.js:65 | `get` returns a value exactly when the key is in the map, and that value is stored in an entry under the key |
| OrderedMaps.Set | app.js:53 | `set` of a new key appends that one entry at the end. `set` of an existing key keeps the key order. Afterwards the key maps to the new value and every other key keeps its value. Keys stay distinct |
| OrderedMaps.Delete | app.js:75 | `delete` removes exactly the entries under the key. The remaining keys keep their relative order and values. An absent key leaves the map unchanged. Keys stay distinct |
| OrderedMaps.FromEntries | app.js:7 | `new Map(entries)` holds exactly the keys that occur in the entry list. They are in the order of each key's first occurrence, so a repeated key stays where it first appeared. Each key's value is the last value given for it in the list |
| OrderedMaps.FromEntriesOfValid | app.js:7 | building a Map from a distinct-key entry list reproduces that list entry for entry |
| OrderedMaps.SetThenDelete | app.js:75 | deleting a key that was just set for the first time restores the map from before the `set` |
| JsTrim.TrimStart | app.js:49 | the result is a suffix of the input, everything cut off is white space, and the result does not start with white space |
| JsTrim.TrimEnd | app.js:49 | the result is a prefix of the input, everything cut off is white space, and the result does not end with white space |
| JsTrim.Trim | app.js:49-50 | the result is a contiguous middle part of the input with only white space on either side. It is empty exactly when the input is all white space. Otherwise it starts and ends with a non-white-space character |
| JsTrim.TrimIdempotent | app.js:49 | trimming twice gives the same result as trimming once |
| TodoStore.AddTask | app.js:47-58 | all-white-space input leaves the collection unchanged. With a fresh id, exactly one entry `{trimmed text, completed: false}` is appended and earlier entries are untouched. With an existing id, that entry is overwritten in place and the keys and other entries are unchanged. The stored text has no white space at either end |
| TodoStore.ToggleComplete | app.js:61-69 | for an id that is present, `completed` of that task is flipped and its text is kept. Key order and all other tasks are unchanged |
| TodoStore.ToggleTwice | app.js:65-66 | toggling the same task twice gives back the original collection |
| TodoStore.DeleteTask | app.js:72-78 | the task under the id is removed, the size drops by one, and the rest keep their order and entries. An absent id leaves the collection unchanged |
| TodoStore.AddThenDelete | app.js:72-78 | deleting a task just added under a fresh id restores the collection from before the add |
| TodoStore.DeleteIdempotent | app.js:75 | deleting twice gives the same collection as deleting once |
| TodoStore.Save | app.js:111 | the saved list is the Map's entries, `[id, task]` pairs in iteration order. It has no contract of its own, because it is the entry list itself once the JSON layer is left out. `TodoStore.LoadSave` states its round trip |
| TodoStore.Load | app.js:7 | an empty slot (`null`) loads as the empty collection. A saved list loads with exactly the ids it mentions, each once, in the order of its first occurrence and holding the last task given for it. A list with distinct ids loads as itself |
| TodoStore.LoadSave | app.js:111 | loading the saved entry list gives back the same collection, with the same ids in the same order and the same tasks |
| DragReorder.DragOverMove | app.js:85-98 | over no item, or over the dragged item itself, the order is unchanged. Otherwise the result is a permutation of the same distinct ids. The ids other than the dragged one keep their relative order. The dragged id sits immediately after the target (`after`) or immediately before it |
| DragReorder.DragMoves | app.js:85-98 | any series of dragover events leaves a permutation of the same distinct ids |
| DragReorder.Rebuild | app.js:100-107 | the rebuilt Map holds exactly the ids in the new order, each with its old task. Ids absent from the order are dropped. The iteration order is the new order with repeated ids left at their first place, so a repetition-free order is taken exactly |
| DragReorder.RebuildPermutation | app.js:102-105 | rebuilding in a permutation of the current ids keeps every task under its id, with the same entries and size, and takes on the new order |
| DragReorder.RebuildInPlace | app.js:100-107 | a drag that ends with the list in its original order leaves the collection unchanged |
| DragReorder.DragGesture | app.js:85-107 | a whole drag gesture, from the rendered list through dragover moves to the rebuild, keeps every task under its id. The ids end up in a permutation of the old order, namely the list's final order |
| Session.AddFirst | app.js:47-58 | adding "buy milk" to the empty list gives the single task `("1", {"buy milk", false})` |
| Session.AddSecond | app.js:47-58 | adding "walk dog" appends `("2", {"walk dog", false})` after the first task |
| Session.AddBlank | app.js:49-50 | submitting "   " changes nothing |
| Session.DragAbove | app.js:85-98 | dragging "2" over the upper half of "1" puts "2" in front of "1" |
| Session.SwapByDrag | app.js:100-107 | rebuilding in the order `["2", "1"]` swaps the two tasks |
| Session.LoadRepeatedId | app.js:7 | a stored list `["1", "2", "1"]` loads with "1" first, holding its last task, then "2" |
| Session.CompleteOne | app.js:61-69 | toggling "1" completes "buy milk", leaves "walk dog" alone and keeps the order |

## Left out

- Rendering (`renderTasks`, `createTaskElement`, class names, ARIA labels, event wiring, `preventDefault`, `stopPropagation`, focus and clearing of the input) is presentation only. The list is rendered in the Map's iteration order, so the rendered id order at the start of a drag is `Keys(tasks)`. This is the starting point of `DragReorder.DragGesture`.
- Id generation with `Date.now().toString()` depends on the clock. The id is a parameter of `TodoStore.AddTask`, and an id that collides with an existing one is covered by the overwrite-in-place case.
- The pointer geometry of `dragover` (bounding box, midpoint, `clientY`) is floating-point layout. It becomes the boolean `after`.
- The `BUTTON` tag check in the click handler is event-target plumbing. A click on the delete button reaches only `DeleteTask`.
- JSON text, `JSON.parse`/`JSON.stringify` and `localStorage` I/O are not modelled. Persistence is modelled at the level of the entry list. A slot holding malformed JSON makes the code throw, and the model has no result for it. A stored value of `false`, `0` or `""` would also load as empty through `|| []`, but the page only ever writes an array, so only the absent slot (`None`) is modelled.
- TodoStore.ToggleComplete: requires the id to be present, because the code crashes on a missing task rather than reporting it.
- DragReorder.DragOverMove: requires the dragged id to be in the list. With no dragged element, `insertAdjacentElement` would throw.
- DragReorder.Rebuild: requires every id in the new order to have a task. The order is read from the rendered list, which is built from the Map. An id without a task would be stored with the value `undefined`, and the model does not represent that.
- JsTrim.IsWhitespace lists the ECMAScript white-space and line-terminator characters, with the Unicode space separators written out as of current Unicode. A Dafny `string` is a sequence of Unicode scalar values, whereas a JavaScript string is a sequence of UTF-16 code units, so a lone surrogate cannot be represented. This does not affect `trim`, because every character it strips lies in the Basic Multilingual Plane.
