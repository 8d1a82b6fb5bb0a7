/**
 * What `render` and `renderFooter` compute from the state before handing it
 * to the templates and the page: the list the list template receives, the
 * visibility of the main region, the state of the toggle-all box and the
 * data of the footer.
 */
module View {

  import opened Todos
  import Util

  /** The object `renderFooter` passes to the footer template, plus whether the footer is displayed. */
  datatype Footer = Footer(
    shown: bool,
    activeTodoCount: nat,
    activeTodoWord: string,
    completedTodos: int,
    filter: string)

  /**
   * `renderFooter`: shown exactly when there is some task; the active count,
   * the word "item" pluralised for it, and the completed count obtained as
   * the total minus the active count, which is the number of completed tasks.
   */
  function RenderFooter(todos: seq<Todo>, filter: string): (f: Footer)
    ensures f.shown <==> todos != []
    ensures f.activeTodoCount == |Active(todos)|
    ensures f.activeTodoWord == if |Active(todos)| == 1 then "item" else "items"
    ensures f.completedTodos == |Completed(todos)|
    ensures f.filter == filter
  {
    var todoCount := |todos|;
    var activeTodoCount := |Active(todos)|;
    Partition(todos);
    Footer(todoCount > 0, activeTodoCount, Util.Pluralize(activeTodoCount, "item"),
           todoCount - activeTodoCount, filter)
  }

  /** Everything one `render` derives from the list and the filter. */
  datatype Summary = Summary(
    listed: seq<Todo>,
    mainShown: bool,
    toggleAllChecked: bool,
    footer: Footer)

  /**
   * `render`: the list template gets the filtered tasks; the main region is
   * shown exactly when some task passes the filter (the filtered list, not
   * the whole list, decides); the toggle-all box is checked exactly when
   * every task is completed (no active task remains, vacuously so for an
   * empty list); the footer is `renderFooter`'s.
   */
  function Summarize(todos: seq<Todo>, filter: string): (v: Summary)
    ensures v.listed == Filtered(todos, filter)
    ensures v.mainShown <==> exists t :: t in todos && Shows(filter, t)
    ensures v.toggleAllChecked <==> forall t :: t in todos ==> t.completed
    ensures v.footer == RenderFooter(todos, filter)
  {
    var listed := Filtered(todos, filter);
    assert listed != [] ==> listed[0] in listed;
    var active := Active(todos);
    assert active != [] ==> active[0] in active;
    Summary(listed, |listed| > 0, |active| == 0, RenderFooter(todos, filter))
  }

}
