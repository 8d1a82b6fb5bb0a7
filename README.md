# TodoMVC `App`: a verified model

The repository holds three near-identical copies of one TodoMVC client
(`plainEnglish.js`, built on jQuery; `oneMissingFeature.js` and
`removejQuery.js`, which use the plain DOM). Each is a single `App` object
that owns an ordered list of tasks `{id, title, completed}` and a `filter`
string. DOM event handlers change the list. After every change, `render`
redraws the page and writes the whole list to the browser's key-value store
under `todos-jquery`. A small `util` object supplies `uuid`, `pluralize` and
`store`.

One model covers all three files. The jQuery copy filters event targets
with delegated selectors (`.on('click', '.destroy', ...)`). The other two
spell that filtering out as guards at the top of each handler
(`if (e.target.className !== 'toggle') return;`). The model uses those
explicit guards.

Modules, one file each:

- `Optional` (`optional.dfy`): `Option`, the result of the id lookup.
- `Text` (`text.dfy`): `String.prototype.trim`. `IsWhiteSpace` is the
  ECMAScript white-space and line-terminator set. `Trim` is proved to cut
  only white space, to keep the middle of the string, and to return the
  empty string exactly when the input is blank.
- `Util` (`util.dfy`): `uuid`, `pluralize` and `store`.
  - `Uuid` is the source's `for` loop, proved equal to `UuidOf`.
  - `UuidOf` is the 8-4-4-4-12 layout: version digit `4` and a variant
    digit in `8`, `9`, `a`, `b`.
  - The store is a map from namespace to list: `StoreRead` and
    `StoreWrite`.
- `Todos` (`todos.dfy`): pure functions over `seq<Todo>`.
  - The queries (`Select`, `Active`, `Completed`, `Filtered`) and the
    reverse lookup (`LastIndexOf`).
  - The effect of each handler on the list (`SetAll`, `Toggled`,
    `Retitled`, `Removed`).
  - Lemmas: partition, order preservation, idempotence, involution, count
    shifts and id uniqueness.
- `View` (`view.dfy`): what `render` and `renderFooter` derive from the
  state: the list given to the template, whether the main region shows,
  whether toggle-all is checked, and the footer's data.
- `TodoApp` (`app.dfy`): the `App` class.
  - Fields: `todos`, `filter`, `storage` (the key-value store), `screen`
    (the last rendered view), `editing` and `abort` (the edit session).
  - One method per handler. Each handler takes the event fields it reads
    (`Event`, `Target`).
  - `Valid()` is kept by every handler: the stored slot reads back as
    `todos`, and `screen` is the view of the current state.

The edit session works as follows:

- A double click on a label (`Edit`) marks that row as being edited.
- A key-up in an edit field (`EditKeyup`) acts on Enter and Escape only.
  Enter calls `blur()`. Escape sets the abort mark, then calls `blur()`.
- `blur()` on the focused field dispatches `focusout` at once, and `update`
  is bound to `focusout`. So the model has `EditKeyup` call `Update` with
  a `focusout` event from the same field.
- `Update` checks in the source's order:
  - an empty trimmed value deletes the task, even when the abort mark is
    set;
  - otherwise a set abort mark is cleared and the list is kept;
  - otherwise the title is replaced by the trimmed value.
- Every `render` rebuilds the rows. So after it no row is in editing mode
  and no field carries an abort mark.

A consequence the contracts make explicit: if the user empties an edit
field and then presses Escape, the task is deleted (`EditKeyup`'s
contract).

Behaviours of the code worth knowing, which the model keeps:

- The main region is shown when the *filtered* list is non-empty, so under
  `active` with every task completed it is hidden although tasks exist
  (`oneMissingFeature.js:99-108`).
- A task id that is not in the list is not ignored. `toggle` and
  `update` index the list with `undefined` and throw. `destroy` calls
  `splice(undefined, 1)`, which removes the first task. The model
  therefore gives these handlers a precondition: the id must be in the
  list whenever the handler reaches the lookup.
- `update` tests for an empty value before it tests the abort mark, so
  Escape on an emptied field deletes the task.
- `store`'s read does not catch `JSON.parse` errors; text that does not
  parse makes `init` throw.

Inputs the program gets from the browser become parameters:

- the 32 draws of `Math.random() * 16 | 0` in `uuid` (`nibbles`, each
  0..15);
- the event fields (`Event`, `Target`);
- the route segment (`SetFilter`, the constructor);
- the initial contents of the store (the constructor).

## Model

| member | source | states |
|---|---|---|
| Text.Trim | plainEnglish.js:286 | the trimmed value has no white space at either end, and it is empty exactly when the input is all white space |
| Text.TrimKeepsMiddle | plainEnglish.js:360 | `trim` removes only leading and trailing white space and keeps the contiguous middle of the input |
| Text.TrimIdempotent | plainEnglish.js:360 | trimming an already trimmed value changes nothing |
| Util.Emitted | oneMissingFeature.js:25 | the number turned into a hex digit at each iteration: 4 at iteration 12, `random & 3 \| 8` at iteration 16, the draw otherwise, always 0..15 |
| Util.VariantDigit | oneMissingFeature.js:25 | `random & 3 \| 8` is 8, 9, 10 or 11 for any draw 0..15 |
| Util.UuidOf | oneMissingFeature.js:15-29 | the identifier is 36 characters long: `-` at 8, 13, 18 and 23, `4` at 14, one of `8 9 a b` at 19, and every nibble position holds the hex digit of its own draw |
| Util.Uuid | oneMissingFeature.js:20-28 | the loop, a hyphen before iterations 8, 12, 16 and 20 and one digit per iteration, builds exactly `UuidOf` of the draws |
| Util.Pluralize | removejQuery.js:30-32 | the result is `word` exactly when the count is 1, and `word + "s"` for every other count, 0 included |
| Util.StoreRead | removejQuery.js:36-39 | a read of a namespace that holds nothing gives the empty list |
| Util.StoreWrite | removejQuery.js:34-35 | after a write, reading that namespace gives back the written list, and every other namespace reads as before |
| Todos.Select | plainEnglish.js:213-229 | the filter keeps exactly the tasks with the requested `completed` status, and never more tasks than the list has |
| Todos.Active | plainEnglish.js:213-220 | `getActiveTodos` is `Select(s, false)`: an order-preserving subsequence holding exactly the tasks that are not completed |
| Todos.Completed | plainEnglish.js:221-229 | `getCompletedTodos` is `Select(s, true)`: an order-preserving subsequence holding exactly the completed tasks |
| Todos.SelectIsSubsequence | plainEnglish.js:217-219 | `getActiveTodos` and `getCompletedTodos` preserve order: the result is a subsequence of the list |
| Todos.SelectAppend | plainEnglish.js:226-228 | filtering distributes over concatenation, so the relative order of the kept tasks is the list's order |
| Todos.Partition | plainEnglish.js:213-229 | the active and the completed tasks partition the list: lengths sum to `todos.length`, and together they hold each task as often as the list does |
| Todos.SelectUniform | plainEnglish.js:203-207 | a list whose tasks all have one status is kept whole by that filter and emptied by the other |
| Todos.Filtered | plainEnglish.js:231-244 | `getFilteredTodos` is an order-preserving selection of exactly the tasks the filter admits: active ones for `active`, completed ones for `completed`, the whole list for any other value |
| Todos.ClearCompletedSettles | plainEnglish.js:246-255 | after `destroyCompleted` no task is completed and the active tasks are the whole list, so a second call changes nothing |
| Todos.LastIndexOf | plainEnglish.js:258-277 | the lookup gives the largest index whose task has the id, or nothing when no task has it |
| Todos.UniqueLookup | plainEnglish.js:265-276 | when ids are unique, the reverse scan finds the one task with that id wherever it stands |
| Todos.SetAll | plainEnglish.js:196-211 | `toggleAll` sets every `completed` to the box's state and keeps ids, titles, order and length |
| Todos.ToggleAllSettles | removejQuery.js:124-144 | after `toggleAll(true)` no task is active, and after `toggleAll(false)` no task is completed |
| Todos.Toggled | plainEnglish.js:311-321 | `toggle` flips `completed` at the found index only; ids, titles, order and length are kept |
| Todos.ToggleInvolution | plainEnglish.js:317 | toggling the same task twice restores the list |
| Todos.ToggleShiftsCounts | oneMissingFeature.js:226-233 | one toggle moves exactly one task between the active count and the completed count |
| Todos.Retitled | plainEnglish.js:379 | committing an edit replaces that task's title only |
| Todos.RetitledKeepsTitles | removejQuery.js:259-269 | committing a non-blank title to a list with no blank title leaves no blank title |
| Todos.Removed | plainEnglish.js:393 | `splice(i, 1)` removes exactly the task at `i`, keeps the others in order and shortens the list by one |
| Todos.RemovedForgetsId | plainEnglish.js:386-397 | when ids are unique, after `destroy` the removed id is no longer found and the remaining ids stay unique |
| View.RenderFooter | oneMissingFeature.js:123-142 | the footer shows exactly when the list is non-empty; it carries the active count, `item` pluralised for it, and `todos.length - activeCount`, which equals the completed count |
| View.Summarize | oneMissingFeature.js:97-122 | `render` gives the template the filtered list; main shows exactly when some task passes the filter; toggle-all is checked exactly when every task is completed |
| TodoApp.App.constructor | removejQuery.js:44-61 | `init` loads the list from `todos-jquery` (the empty list when nothing is stored), takes the route's filter and renders, so the store and the page agree with the state |
| TodoApp.App.Render | removejQuery.js:78-103 | `render` keeps the list and the filter, derives the page from them, writes the list to `todos-jquery`, and leaves no row editing and no abort mark |
| TodoApp.App.SetFilter | removejQuery.js:54-58 | the router callback takes any route segment as the filter, unvalidated, and renders the list filtered by it — whenever it renders, only the `todos-jquery` slot of the store changes and no row editing or abort mark remains |
| TodoApp.App.IndexFromEl | removejQuery.js:179-185 | the `while (i--)` scan terminates and returns exactly `LastIndexOf`: an in-bounds index with a matching id and no match after it, or nothing |
| TodoApp.App.Create | removejQuery.js:187-204 | nothing changes unless the key is Enter and the trimmed value is non-empty; otherwise one `{id: uuid, title: trimmed value, completed: false}` is appended and the old list is a prefix of the new one — whenever it renders, only the `todos-jquery` slot of the store changes and no row editing or abort mark remains |
| TodoApp.App.ToggleAll | removejQuery.js:124-134 | every task's `completed` becomes the box's `checked`, and for a non-empty list the re-rendered box shows that state — whenever it renders, only the `todos-jquery` slot of the store changes and no row editing or abort mark remains |
| TodoApp.App.DestroyCompleted | oneMissingFeature.js:175-182 | nothing changes unless the target is `clear-completed`; otherwise the list becomes its active tasks, the filter becomes `all`, and the footer's completed count is 0 — whenever it renders, only the `todos-jquery` slot of the store changes and no row editing or abort mark remains |
| TodoApp.App.Toggle | removejQuery.js:205-212 | nothing changes unless the target's class is `toggle`; otherwise the found task's `completed` flips — whenever it renders, only the `todos-jquery` slot of the store changes and no row editing or abort mark remains |
| TodoApp.App.Edit | removejQuery.js:213-239 | nothing changes unless the target is a `LABEL`; otherwise that task's row is in editing mode |
| TodoApp.App.Destroy | removejQuery.js:274-285 | it returns early for a click not on `destroy` or a focusout not from `edit`; any other event removes the found task and keeps the rest in order — whenever it renders, only the `todos-jquery` slot of the store changes and no row editing or abort mark remains |
| TodoApp.App.Update | removejQuery.js:252-273 | nothing changes unless the target is an edit field; an empty trimmed value deletes the task even when aborted; otherwise abort clears the mark and keeps the list, else the title becomes the trimmed value — whenever it renders, only the `todos-jquery` slot of the store changes and no row editing or abort mark remains |
| TodoApp.App.EditKeyup | removejQuery.js:240-251 | only Enter and Escape in an edit field act; Enter commits through `update`; Escape sets the abort mark before the blur, so the list is kept, unless the field is empty, in which case the task is deleted — whenever it renders, only the `todos-jquery` slot of the store changes and no row editing or abort mark remains |

Every handler that ends in `render` states its whole new state: besides
`todos` and `filter`, the store is the old store with only `todos-jquery`
rewritten, no row is left editing and no abort mark remains.
Every handler that changes the list also keeps the list invariant
`Todos.NoBlankTitles`: if no task's title was blank before, none is after,
because `create` and `update` only store a trimmed, non-empty title. Every handler,
whether it renders or returns early, ensures `Valid()`. So after any handler the slot `todos-jquery` reads back
as the in-memory list, and the page shows the current state.

## Left out

- DOM writes are not modelled: `innerHTML`, `style.display`, jQuery's `toggle`/`html`/`prop`, `focus`, and clearing the new-task field after `create`. Only the values they are computed from are modelled (`View.Summary`).
- The Handlebars templates and the `eq` helper are not modelled. They wrap a library that is not part of this model; the model keeps only the data passed to them.
- `Router` and `bindEvents` (the event-listener wiring) are left out. Each handler is a method, and the route's segment is a parameter.
- The walks from an event target up to its `li` are left out (`getParentListElement`, `findParentLi`, jQuery's `closest('li')`). They depend on the shape of the DOM tree. When no `li` encloses the target, the DOM walks reach `null` and throw a TypeError, and jQuery's `closest('li')` yields no element, so the id reads as `undefined`. The id they read is the input `Target.rowId`.
- `edit`'s search for the row's `.edit` child and the focus it gives that child are not modelled.
- jQuery's delegated selectors match when any class in the target's class list is the named one, and also when an element between the target and `#todo-list` or `#footer` matches. Two of them are not class selectors: `#clear-completed` and `label`. With the task templates these controls have no child elements, so this changes nothing here. The explicit guards compare the whole `className`. The model follows the explicit guards. jQuery's `.data('id')` conversion of number-like strings is not modelled.
- `localStorage`, `JSON.stringify` and `JSON.parse` are not modelled as text. The store maps each namespace to a list. A stored text that does not parse throws in the source; the model has no such text. Neither does it model a stored value that parses to something falsy, which `|| []` would turn into the empty list.
- `Math.random()` and the float truncation `| 0` in `uuid` are left out. The draws are an input.
- `uuid` uniqueness is probabilistic, so it is not proved. The lemmas that need unique ids (`Todos.UniqueLookup`, `Todos.RemovedForgetsId`) take `UniqueIds` as a precondition.
- `Text.IsWhiteSpace` works on Unicode scalar values. JavaScript strings are UTF-16 code units, and lone surrogates are not modelled.
- Tasks are values, not shared objects. `getFilteredTodos` returns `this.todos` itself under `all`, but nothing mutates the returned array before the next render, so this aliasing is not modelled.
- `setAttribute('data-abort', false)` stores the truthy string `"false"`. That quirk is not modelled: `update` clears the mark and `render` rebuilds the field, so a boolean flag behaves the same.
- TodoApp.App.Toggle: requires the id to be in the list when the guard passes. On a missing id the source throws, and the model does not throw.
- TodoApp.App.Update: requires the id to be in the list whenever it deletes or commits. On a missing id the source throws on commit, and on delete removes the first task.
- TodoApp.App.Destroy: requires the id to be in the list unless it returns early. The source's `splice(undefined, 1)` would remove the first task.
- TodoApp.App.EditKeyup: requires the id to be in the list only when its `update` looks the task up: Enter or Escape on an emptied field (a delete), or Enter without an abort mark (a commit). Escape on a non-empty field takes the abort branch and needs no id.
