/**
 * The task list of the to-do app: the Task record, the three operations that
 * replace the list (add, delete, toggle), the filtered view shown on screen and
 * the rule that decides when the list is written to device storage.
 *
 * Every operation builds a new list from the old one; nothing is updated in
 * place, so the state is a value and each operation is a function of it.
 * Task ids are supplied by the caller: the app derives them from the clock,
 * which does not make them unique, so nothing below assumes that two tasks
 * have different ids.
 */
module Todo {
  import JsString
  import JsArray

  /** One to-do item. */
  datatype Task = Task(id: string, text: string, completed: bool)

  /** The three views the filter buttons select. */
  datatype Filter = All | Completed | Incomplete

  /** The state the screen holds: the list, the text box and the selected view. */
  datatype AppState = AppState(tasks: seq<Task>, inputValue: string, filter: Filter)

  /** What device storage holds under the task-list key. */
  datatype Stored = Absent | Present(tasks: seq<Task>)

  /** Some task of the list carries this id. */
  predicate HasId(tasks: seq<Task>, id: string) {
    exists i :: 0 <= i < |tasks| && tasks[i].id == id
  }

  /** The delete callback's test: the task does not carry this id. */
  function OtherId(id: string): Task -> bool {
    (t: Task) => t.id != id
  }

  /** The complementary test: the task carries this id. */
  function SameId(id: string): Task -> bool {
    (t: Task) => t.id == id
  }

  /** The tasks carrying this id, in list order (there may be several). */
  function WithId(tasks: seq<Task>, id: string): (r: seq<Task>)
    ensures forall i :: 0 <= i < |r| ==> r[i].id == id
    ensures |r| == 0 <==> !HasId(tasks, id)
  {
    JsArray.FilterDropsAll(tasks, SameId(id));
    JsArray.Filter(tasks, SameId(id))
  }

  // ---------------------------------------------------------------- add

  /**
   * The Add button. Text that is blank once trimmed changes nothing. Otherwise
   * the old list stays as it is and one task is put after it, carrying the
   * supplied id, the text exactly as typed (not trimmed) and completed = false;
   * the text box is then cleared.
   */
  function AddTask(st: AppState, newId: string): (r: AppState)
    ensures r == st <==> JsString.AllWhiteSpace(st.inputValue)
    ensures !JsString.AllWhiteSpace(st.inputValue) ==>
              && |r.tasks| == |st.tasks| + 1
              && r.tasks[..|st.tasks|] == st.tasks
              && r.tasks[|st.tasks|] == Task(newId, st.inputValue, false)
              && r.inputValue == ""
              && r.filter == st.filter
  {
    if JsString.Trim(st.inputValue) == "" then st
    else
      st.(tasks := st.tasks + [Task(newId, st.inputValue, false)], inputValue := "")
  }

  // ---------------------------------------------------------------- delete

  /** The Delete button (after the fade-out): every task carrying the id is dropped,
      so the list shrinks by the number of tasks sharing that id (by one when the id
      is unique) and no task with the id is left. */
  function DeleteTask(tasks: seq<Task>, id: string): (r: seq<Task>)
    ensures forall i :: 0 <= i < |r| ==> r[i].id != id
    ensures forall t :: t in r ==> t in tasks
    ensures |r| + |WithId(tasks, id)| == |tasks|
  {
    JsArray.FilterSplit(tasks, OtherId(id), SameId(id));
    JsArray.Filter(tasks, OtherId(id))
  }

  /** Delete keeps exactly the tasks at the positions whose id differs, in their
      original order, and each of them as often as the list had it. */
  lemma DeleteTaskKeepsOthersInOrder(tasks: seq<Task>, id: string) returns (idx: seq<nat>)
    ensures JsArray.Embeds(DeleteTask(tasks, id), tasks, idx)
    ensures forall j :: 0 <= j < |tasks| ==> (j in idx <==> tasks[j].id != id)
    ensures forall t :: multiset(DeleteTask(tasks, id))[t] ==
                        if t.id == id then 0 else multiset(tasks)[t]
  {
    idx := JsArray.FilterOrder(tasks, OtherId(id));
    JsArray.FilterMultiset(tasks, OtherId(id));
  }

  /** Deleting an id that no task carries returns the list unchanged, and only then. */
  lemma DeleteTaskAbsent(tasks: seq<Task>, id: string)
    ensures DeleteTask(tasks, id) == tasks <==> !HasId(tasks, id)
  {
    JsArray.FilterKeepsAll(tasks, OtherId(id));
  }

  /** When exactly one task, at position p, carries the id, deleting it shortens the
      list by exactly one. */
  lemma DeleteUniqueId(tasks: seq<Task>, id: string, p: nat)
    requires p < |tasks| && tasks[p].id == id
    requires forall j :: 0 <= j < |tasks| && j != p ==> tasks[j].id != id
    ensures |DeleteTask(tasks, id)| == |tasks| - 1
  {
    var before, after := tasks[..p], tasks[p + 1..];
    assert tasks == before + [tasks[p]] + after;
    JsArray.FilterConcat(before + [tasks[p]], after, SameId(id));
    JsArray.FilterConcat(before, [tasks[p]], SameId(id));
    JsArray.FilterDropsAll(before, SameId(id));
    JsArray.FilterDropsAll(after, SameId(id));
    assert |WithId(tasks, id)| == 1;
  }

  /** Pressing Add and then deleting the new id is deleting that id from the old list:
      the old list comes back when the id was new, and any older task that had the
      same id is gone too. (Blank input adds nothing, and the same holds.) */
  lemma AddThenDelete(st: AppState, newId: string)
    ensures DeleteTask(AddTask(st, newId).tasks, newId) == DeleteTask(st.tasks, newId)
    ensures !HasId(st.tasks, newId) ==> DeleteTask(AddTask(st, newId).tasks, newId) == st.tasks
  {
    if !JsString.AllWhiteSpace(st.inputValue) {
      var added := Task(newId, st.inputValue, false);
      assert AddTask(st, newId).tasks == st.tasks + [added];
      JsArray.FilterConcat(st.tasks, [added], OtherId(newId));
      assert DeleteTask([added], newId) == [];
    }
    DeleteTaskAbsent(st.tasks, newId);
  }

  // ---------------------------------------------------------------- toggle

  /** The map callback of toggle: flips the flag of a task carrying the id. */
  function Flip(id: string): Task -> Task {
    (t: Task) => if id == t.id then t.(completed := !t.completed) else t
  }

  /**
   * Tapping a task: the list keeps its length and every task keeps its place, id
   * and text; completed is negated on every task carrying the id and on no other,
   * and the other tasks are left exactly as they were.
   */
  function ToggleTaskCompleted(tasks: seq<Task>, id: string): (r: seq<Task>)
    ensures |r| == |tasks|
    ensures forall i :: 0 <= i < |r| ==> r[i].id == tasks[i].id && r[i].text == tasks[i].text
    ensures forall i :: 0 <= i < |r| ==> (r[i].completed != tasks[i].completed <==> tasks[i].id == id)
    ensures forall i :: 0 <= i < |r| && tasks[i].id != id ==> r[i] == tasks[i]
  {
    JsArray.Map(tasks, Flip(id))
  }

  /** Toggling the same id twice gives back the list. */
  lemma ToggleTwice(tasks: seq<Task>, id: string)
    ensures ToggleTaskCompleted(ToggleTaskCompleted(tasks, id), id) == tasks
  {
  }

  /** Toggling an id that no task carries changes nothing, and only then. */
  lemma ToggleAbsent(tasks: seq<Task>, id: string)
    ensures ToggleTaskCompleted(tasks, id) == tasks <==> !HasId(tasks, id)
  {
  }

  /** Toggles of two ids may be done in either order. */
  lemma ToggleCommutes(tasks: seq<Task>, a: string, b: string)
    ensures ToggleTaskCompleted(ToggleTaskCompleted(tasks, a), b)
         == ToggleTaskCompleted(ToggleTaskCompleted(tasks, b), a)
  {
  }

  /** Deleting after a toggle is toggling after the delete; toggling a task and then
      deleting it is the same as deleting it straight away. */
  lemma DeleteAfterToggle(tasks: seq<Task>, a: string, b: string)
    ensures DeleteTask(ToggleTaskCompleted(tasks, a), b)
         == ToggleTaskCompleted(DeleteTask(tasks, b), a)
    ensures DeleteTask(ToggleTaskCompleted(tasks, a), a) == DeleteTask(tasks, a)
  {
    JsArray.FilterMap(tasks, Flip(a), OtherId(b));
    JsArray.FilterMap(tasks, Flip(a), OtherId(a));
    ToggleAbsent(DeleteTask(tasks, a), a);
  }

  // ---------------------------------------------------------------- view

  /** The filter callback of the view. */
  function Shows(f: Filter): Task -> bool {
    (t: Task) =>
      if f == Completed then t.completed
      else if f == Incomplete then !t.completed
      else true
  }

  /**
   * The list the screen shows: everything for All, only finished tasks for
   * Completed, only unfinished ones for Incomplete.
   */
  function FilteredTasks(tasks: seq<Task>, f: Filter): (r: seq<Task>)
    ensures f == All ==> r == tasks
    ensures f == Completed ==> forall i :: 0 <= i < |r| ==> r[i].completed
    ensures f == Incomplete ==> forall i :: 0 <= i < |r| ==> !r[i].completed
    ensures forall t :: t in r ==> t in tasks
  {
    JsArray.FilterKeepsAll(tasks, Shows(All));
    JsArray.Filter(tasks, Shows(f))
  }

  /** Each view keeps exactly the positions of the list whose task it shows, in order. */
  lemma FilteredTasksInOrder(tasks: seq<Task>, f: Filter) returns (idx: seq<nat>)
    ensures JsArray.Embeds(FilteredTasks(tasks, f), tasks, idx)
    ensures forall j :: 0 <= j < |tasks| ==>
              (j in idx <==> (f == All || tasks[j].completed == (f == Completed)))
  {
    idx := JsArray.FilterOrder(tasks, Shows(f));
  }

  /** The Completed and Incomplete views split the list: together they hold every task
      as often as the list does, their lengths add up to the list's, and no task is
      in both. */
  lemma ViewsPartition(tasks: seq<Task>)
    ensures multiset(FilteredTasks(tasks, Completed)) + multiset(FilteredTasks(tasks, Incomplete))
         == multiset(tasks)
    ensures |FilteredTasks(tasks, Completed)| + |FilteredTasks(tasks, Incomplete)| == |tasks|
    ensures forall t :: t in FilteredTasks(tasks, Completed) ==> t !in FilteredTasks(tasks, Incomplete)
  {
    JsArray.FilterSplit(tasks, Shows(Completed), Shows(Incomplete));
  }

  // ---------------------------------------------------------------- persistence

  /**
   * The effect that runs whenever the list is replaced. A write is attempted only
   * when the list is not empty; a write that succeeds stores the whole list (the
   * JSON encoding is taken as exact), one that fails is swallowed and leaves the
   * storage as it was.
   */
  function SaveEffect(stored: Stored, tasks: seq<Task>, writeSucceeds: bool): (r: Stored)
    ensures r != stored ==> tasks != [] && writeSucceeds
    ensures tasks != [] && writeSucceeds ==> r.Present? && r.tasks == tasks
  {
    if |tasks| > 0 && writeSucceeds then Present(tasks) else stored
  }

  /** Emptying the list is never written: deleting the only task leaves storage
      holding that task, so it is what storage offers on the next start. */
  lemma DeleteLastTaskNotSaved(t: Task, stored: Stored, writeSucceeds: bool)
    ensures DeleteTask([t], t.id) == []
    ensures SaveEffect(SaveEffect(stored, [t], true), DeleteTask([t], t.id), writeSucceeds)
         == Present([t])
  {
  }

  // ---------------------------------------------------------------- scenarios

  /** Two tasks added, the first one tapped: the Completed view holds just the first,
      now finished, and the Incomplete view just the second. */
  lemma ScenarioTwoTasks()
    ensures
      var s1 := AddTask(AppState([], "Buy milk", All), "1");
      var s2 := AddTask(s1.(inputValue := "Walk dog"), "2");
      var tasks := ToggleTaskCompleted(s2.tasks, "1");
      && FilteredTasks(tasks, Completed) == [Task("1", "Buy milk", true)]
      && FilteredTasks(tasks, Incomplete) == [Task("2", "Walk dog", false)]
  {
    var milk, dog := Task("1", "Buy milk", false), Task("2", "Walk dog", false);
    var s1 := AddTask(AppState([], "Buy milk", All), "1");
    var s2 := AddTask(s1.(inputValue := "Walk dog"), "2");
    ScenarioAdds(milk, dog);
    var done := milk.(completed := true);
    var tasks := ToggleTaskCompleted([milk, dog], "1");
    assert tasks == [done] + [dog];
    JsArray.FilterConcat([done], [dog], Shows(Completed));
    JsArray.FilterConcat([done], [dog], Shows(Incomplete));
  }

  /** The two additions of ScenarioTwoTasks. */
  lemma ScenarioAdds(milk: Task, dog: Task)
    requires milk == Task("1", "Buy milk", false) && dog == Task("2", "Walk dog", false)
    ensures AddTask(AddTask(AppState([], "Buy milk", All), "1").(inputValue := "Walk dog"), "2").tasks
         == [milk, dog]
  {
    assert !JsString.IsWhiteSpace("Buy milk"[0]);
    assert !JsString.IsWhiteSpace("Walk dog"[0]);
  }
}
