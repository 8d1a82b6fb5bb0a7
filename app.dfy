/**
 * The `App` object: the task list and the filter it owns, the handlers the
 * page's events call, `render`, and the edit session kept between an edit
 * field's key-ups and its loss of focus.
 *
 * Each handler takes the fields of its DOM event that it reads. The element
 * walk from the event target up to the enclosing `li` is not modelled: the
 * `data-id` that walk would read is given as `Target.rowId`.
 */
module TodoApp {

  import opened Optional
  import opened Todos
  import Text
  import Util
  import View

  /** The slot of the key-value store that `init` reads and every `render` writes. */
  const Namespace: string := "todos-jquery"
  const EnterKey: int := 13
  const EscapeKey: int := 27

  /**
   * The event target as the handlers see it: its `id`, `className`,
   * `tagName`, `value` and `checked`, and `rowId`, the `data-id` of the task
   * row that contains it.
   */
  datatype Target = Target(
    id: string,
    className: string,
    tagName: string,
    value: string,
    checked: bool,
    rowId: string)

  /** A DOM event: its `type`, its key code `which`, and its target. */
  datatype Event = Event(kind: string, which: int, target: Target)

  /**
   * The early return of `destroy`: a click not on a delete button, or a loss
   * of focus not from an edit field. Every other event goes on to delete.
   */
  predicate DestroyReturnsEarly(e: Event) {
    (e.kind == "click" && e.target.className != "destroy")
    || (e.kind == "focusout" && e.target.className != "edit")
  }

  /**
   * Whether `update`, on `e` and with abort flag `abort`, goes on to look
   * the task up: when it deletes an emptied task, or commits a title.
   */
  predicate UpdateLooksUp(e: Event, abort: bool) {
    e.target.className == "edit"
    && if Text.Trim(e.target.value) == "" then !DestroyReturnsEarly(e) else !abort
  }

  class App {
    /** The tasks, in creation order. */
    var todos: seq<Todo>
    /** The filter captured from the route. */
    var filter: string
    /** The browser's key-value store. */
    var storage: Util.Slots<Todo>
    /** What the last `render` derived: the page as the user sees it. */
    var screen: View.Summary
    /** The row whose label was double-clicked, marked `editing` until the next `render`. */
    var editing: Option<string>
    /** The `data-abort` mark that Escape puts on an edit field. */
    var abort: bool

    /**
     * What every handler leaves behind: the stored slot holds the list
     * (a reload would read back the same tasks) and the page shows the
     * current list under the current filter.
     */
    ghost predicate Valid()
      reads this
    {
      Util.StoreRead(storage, Namespace) == todos
      && screen == View.Summarize(todos, filter)
    }

    /**
     * `init`: the list is read from the store, the router reports the route
     * `route` (its `/:filter` segment; the router starts at `all` when the
     * address names none), and the first `render` runs.
     */
    constructor (stored: Util.Slots<Todo>, route: string)
      ensures Valid()
      ensures todos == Util.StoreRead(stored, Namespace) && filter == route
      ensures storage == Util.StoreWrite(stored, Namespace, todos)
      ensures editing == None && !abort
    {
      todos := Util.StoreRead(stored, Namespace);
      storage := stored;
      filter := route;
      editing := None;
      abort := false;
      new;
      Render();
    }

    /**
     * `render`: derives the view from the list and the filter, and writes
     * the list to the store. The list template rebuilds every row, so no row
     * stays in editing mode and no edit field keeps an abort mark.
     */
    method Render()
      modifies this
      ensures Valid()
      ensures todos == old(todos) && filter == old(filter)
      ensures screen == View.Summarize(todos, filter)
      ensures storage == Util.StoreWrite(old(storage), Namespace, todos)
      ensures editing == None && !abort
    {
      screen := View.Summarize(todos, filter);
      editing := None;
      abort := false;
      storage := Util.StoreWrite(storage, Namespace, todos);
    }

    /** The router's `/:filter` callback: the filter is whatever the route names, then `render`. */
    method SetFilter(route: string)
      modifies this
      ensures Valid()
      ensures filter == route && todos == old(todos)
      ensures storage == Util.StoreWrite(old(storage), Namespace, todos) && editing == None && !abort
      ensures screen.listed == Filtered(todos, route)
    {
      filter := route;
      Render();
    }

    /** `indexFromEl`: scans the list from its end for the task with id `id`. */
    method IndexFromEl(id: string) returns (r: Option<nat>)
      ensures r == LastIndexOf(todos, id)
    {
      var i := |todos|;
      while i > 0
        invariant 0 <= i <= |todos|
        invariant forall j :: i <= j < |todos| ==> todos[j].id != id
      {
        i := i - 1;
        if todos[i].id == id {
          return Some(i);
        }
      }
      return None;
    }

    /**
     * `create`, on a key-up in the new-task field: unless the key is Enter
     * and the trimmed value is non-empty nothing happens; otherwise one new
     * active task with a fresh identifier and the trimmed value as its title
     * is appended, and the rest of the list is kept.
     */
    method Create(e: Event, nibbles: seq<int>)
      requires Valid() && Util.IsNibbles(nibbles)
      modifies this
      ensures Valid()
      ensures NoBlankTitles(old(todos)) ==> NoBlankTitles(todos)
      ensures var title := Text.Trim(e.target.value);
        if e.which == EnterKey && title != "" then
          todos == old(todos) + [Todo(Util.UuidOf(nibbles), title, false)] && filter == old(filter)
          && storage == Util.StoreWrite(old(storage), Namespace, todos) && editing == None && !abort
        else
          unchanged(this)
      ensures old(todos) <= todos && |todos| <= |old(todos)| + 1
      ensures |todos| > |old(todos)| ==> !todos[|todos| - 1].completed
    {
      var val := Text.Trim(e.target.value);
      if e.which != EnterKey || val == "" {
        return;
      }
      var id := Util.Uuid(nibbles);
      todos := todos + [Todo(id, val, false)];
      Render();
    }

    /** `toggleAll`: every task takes the box's `checked` state, and then the box shows it too. */
    method ToggleAll(e: Event)
      modifies this
      ensures Valid()
      ensures NoBlankTitles(old(todos)) ==> NoBlankTitles(todos)
      ensures todos == SetAll(old(todos), e.target.checked) && filter == old(filter)
      ensures storage == Util.StoreWrite(old(storage), Namespace, todos) && editing == None && !abort
      ensures todos != [] ==> screen.toggleAllChecked == e.target.checked
    {
      var isChecked := e.target.checked;
      var updated := todos;
      var i := 0;
      while i < |updated|
        invariant 0 <= i <= |updated| == |todos|
        invariant forall j :: 0 <= j < i ==> updated[j] == todos[j].(completed := isChecked)
        invariant forall j :: i <= j < |updated| ==> updated[j] == todos[j]
      {
        updated := updated[i := updated[i].(completed := isChecked)];
        i := i + 1;
      }
      todos := updated;
      Render();
      assert todos != [] ==> todos[0] in todos;
    }

    /**
     * `destroyCompleted`, on a click in the footer: unless the target is the
     * clear-completed button nothing happens; otherwise the list becomes its
     * active tasks and the filter `all`.
     */
    method DestroyCompleted(e: Event)
      requires Valid()
      modifies this
      ensures Valid()
      ensures NoBlankTitles(old(todos)) ==> NoBlankTitles(todos)
      ensures if e.target.id == "clear-completed" then
          todos == Active(old(todos)) && filter == "all"
          && storage == Util.StoreWrite(old(storage), Namespace, todos) && editing == None && !abort
        else
          unchanged(this)
      ensures e.target.id == "clear-completed" ==> screen.footer.completedTodos == 0
    {
      if e.target.id != "clear-completed" {
        return;
      }
      todos := Active(todos);
      filter := "all";
      Render();
      ClearCompletedSettles(old(todos));
    }

    /**
     * `toggle`, on a change in the list: unless the target is a task's
     * check box nothing happens; otherwise that task's `completed` flips.
     * The task must be in the list: `toggle` indexes the list with
     * whatever the search returns.
     */
    method Toggle(e: Event)
      requires Valid()
      requires e.target.className == "toggle" ==> LastIndexOf(todos, e.target.rowId).Some?
      modifies this
      ensures Valid()
      ensures NoBlankTitles(old(todos)) ==> NoBlankTitles(todos)
      ensures if e.target.className == "toggle" then
          todos == Toggled(old(todos), LastIndexOf(old(todos), e.target.rowId).value)
          && filter == old(filter)
          && storage == Util.StoreWrite(old(storage), Namespace, todos)
          && editing == None && !abort
        else
          unchanged(this)
    {
      if e.target.className != "toggle" {
        return;
      }
      var i := IndexFromEl(e.target.rowId);
      todos := todos[i.value := todos[i.value].(completed := !todos[i.value].completed)];
      Render();
    }

    /** `edit`, on a double click in the list: unless the target is a label nothing happens; otherwise its row enters editing mode. */
    method Edit(e: Event)
      requires Valid()
      modifies this`editing
      ensures Valid()
      ensures editing == if e.target.tagName == "LABEL" then Some(e.target.rowId) else old(editing)
    {
      if e.target.tagName != "LABEL" {
        return;
      }
      editing := Some(e.target.rowId);
    }

    /**
     * `destroy`, on a click in the list or from `update`: unless the event
     * returns early the task is removed, the rest kept in order.
     */
    method Destroy(e: Event)
      requires Valid()
      requires !DestroyReturnsEarly(e) ==> LastIndexOf(todos, e.target.rowId).Some?
      modifies this
      ensures Valid()
      ensures NoBlankTitles(old(todos)) ==> NoBlankTitles(todos)
      ensures if DestroyReturnsEarly(e) then
          unchanged(this)
        else
          todos == Removed(old(todos), LastIndexOf(old(todos), e.target.rowId).value)
          && filter == old(filter)
          && storage == Util.StoreWrite(old(storage), Namespace, todos)
          && editing == None && !abort
    {
      if DestroyReturnsEarly(e) {
        return;
      }
      var i := IndexFromEl(e.target.rowId);
      todos := todos[..i.value] + todos[i.value + 1..];
      Render();
    }

    /**
     * `update`, when an edit field loses the focus. In this order: an event
     * from anything but an edit field changes nothing; an empty trimmed value
     * deletes the task, abort mark or not; an abort mark is cleared and the
     * list kept; otherwise the task's title becomes the trimmed value.
     */
    method Update(e: Event)
      requires Valid()
      requires UpdateLooksUp(e, abort) ==> LastIndexOf(todos, e.target.rowId).Some?
      modifies this
      ensures Valid()
      ensures NoBlankTitles(old(todos)) ==> NoBlankTitles(todos)
      ensures e.target.className != "edit" ==> unchanged(this)
      ensures e.target.className == "edit" && Text.Trim(e.target.value) == "" ==>
        if DestroyReturnsEarly(e) then unchanged(this)
        else todos == Removed(old(todos), LastIndexOf(old(todos), e.target.rowId).value)
             && filter == old(filter)
             && storage == Util.StoreWrite(old(storage), Namespace, todos)
             && editing == None && !abort
      ensures e.target.className == "edit" && Text.Trim(e.target.value) != "" ==>
        filter == old(filter)
        && storage == Util.StoreWrite(old(storage), Namespace, todos)
        && editing == None && !abort
        && todos == if old(abort) then old(todos)
                    else Retitled(old(todos), LastIndexOf(old(todos), e.target.rowId).value,
                                  Text.Trim(e.target.value))
    {
      if e.target.className != "edit" {
        return;
      }
      var value := Text.Trim(e.target.value);
      if value == "" {
        Destroy(e);
        return;
      }
      if abort {
        abort := false;
      } else {
        var i := IndexFromEl(e.target.rowId);
        if NoBlankTitles(todos) {
          assert !Text.IsWhiteSpace(value[0]);
          RetitledKeepsTitles(todos, i.value, value);
        }
        todos := todos[i.value := todos[i.value].(title := value)];
      }
      Render();
    }

    /**
     * `editKeyup`, on a key-up in the list. Only an edit field's key-ups
     * count, and only Enter and Escape. Enter takes the focus away, which
     * commits the edit through `update`; Escape marks the field aborted and
     * then takes the focus away, so the list is kept, unless the field was
     * emptied, in which case the task is deleted all the same.
     */
    method EditKeyup(e: Event)
      requires Valid()
      requires e.target.className == "edit"
               && ((Text.Trim(e.target.value) == "" && (e.which == EnterKey || e.which == EscapeKey))
                   || (e.which == EnterKey && !abort))
               ==> LastIndexOf(todos, e.target.rowId).Some?
      modifies this
      ensures Valid()
      ensures NoBlankTitles(old(todos)) ==> NoBlankTitles(todos)
      ensures e.target.className != "edit" || (e.which != EnterKey && e.which != EscapeKey)
              ==> unchanged(this)
      ensures e.target.className == "edit" && e.which == EscapeKey ==>
        filter == old(filter)
        && storage == Util.StoreWrite(old(storage), Namespace, todos)
        && editing == None && !abort
        && todos == if Text.Trim(e.target.value) == ""
                    then Removed(old(todos), LastIndexOf(old(todos), e.target.rowId).value)
                    else old(todos)
      ensures e.target.className == "edit" && e.which == EnterKey ==>
        filter == old(filter)
        && storage == Util.StoreWrite(old(storage), Namespace, todos)
        && editing == None && !abort
        && todos == if Text.Trim(e.target.value) == ""
                    then Removed(old(todos), LastIndexOf(old(todos), e.target.rowId).value)
                    else if old(abort) then old(todos)
                    else Retitled(old(todos), LastIndexOf(old(todos), e.target.rowId).value,
                                  Text.Trim(e.target.value))
    {
      if e.target.className != "edit" {
        return;
      }
      // `blur()` on the focused field dispatches `focusout` from it at once,
      // and `update` is the `focusout` handler.
      if e.which == EnterKey {
        Update(Event("focusout", 0, e.target));
      }
      if e.which == EscapeKey {
        abort := true;
        Update(Event("focusout", 0, e.target));
      }
    }
  }

}
