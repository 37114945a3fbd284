/** The task collection of the to-do page: a Map from id to task whose
    iteration order is both the display order and the persisted order, with
    the mutations the page's handlers perform on it and its persistence in a
    storage slot. */
module TodoStore {
  import opened Wrappers
  import opened Sequences
  import opened OrderedMaps
  import opened JsTrim

  /** Ids are the decimal text of the creation timestamp. */
  type Id = string

  datatype Task = Task(text: string, completed: bool)

  /** The `tasks` Map, as its list of entries in iteration order. */
  type Tasks = seq<(Id, Task)>

  /** The submit handler: the input is trimmed and ignored when nothing is
      left; otherwise the task is stored under `id` with `completed` false.
      The id is normally fresh and the task is appended; an id already present
      (two submissions in the same millisecond) overwrites that entry in
      place. */
  function AddTask(tasks: Tasks, input: string, id: Id): (r: Tasks)
    requires Valid(tasks)
    ensures Valid(r)
    ensures AllWhitespace(input) ==> r == tasks
    ensures !AllWhitespace(input) && id !in Keys(tasks) ==>
              r == tasks + [(id, Task(Trim(input), false))]
    ensures !AllWhitespace(input) && id in Keys(tasks) ==>
              && Keys(r) == Keys(tasks)
              && Get(r, id) == Some(Task(Trim(input), false))
              && forall k :: k != id ==> Get(r, k) == Get(tasks, k)
    ensures !AllWhitespace(input) ==>
              Get(r, id).Some? &&
              var text := Get(r, id).value.text;
              && text != []
              && !IsWhitespace(text[0]) && !IsWhitespace(text[|text| - 1])
  {
    var text := Trim(input);
    if text == [] then tasks
    else Set(tasks, id, Task(text, false))
  }

  /** The click handler on a task: flips `completed` of the task under `id`.
      The handler reads the task with `get` and dereferences it, so an id
      without a task is not handled: it is excluded here. */
  function ToggleComplete(tasks: Tasks, id: Id): (r: Tasks)
    requires Valid(tasks) && id in Keys(tasks)
    ensures Valid(r)
    ensures Keys(r) == Keys(tasks)
    ensures Get(r, id).value.text == Get(tasks, id).value.text
    ensures Get(r, id).value.completed == !Get(tasks, id).value.completed
    ensures forall k :: k != id ==> Get(r, k) == Get(tasks, k)
  {
    var task := Get(tasks, id).value;
    Set(tasks, id, task.(completed := !task.completed))
  }

  /** The delete button's handler: removes the task under `id`; an id with no
      task leaves the collection as it is. */
  function DeleteTask(tasks: Tasks, id: Id): (r: Tasks)
    requires Valid(tasks)
    ensures Valid(r)
    ensures id !in Keys(tasks) ==> r == tasks
    ensures id in Keys(tasks) ==> |r| == |tasks| - 1
    ensures id !in Keys(r)
    ensures Keys(r) == Without(Keys(tasks), id)
    ensures forall e :: e in r <==> e in tasks && e.0 != id
  {
    Delete(tasks, id)
  }

  /** Toggling the same task twice gives back the collection it started from. */
  lemma ToggleTwice(tasks: Tasks, id: Id)
    requires Valid(tasks) && id in Keys(tasks)
    ensures ToggleComplete(ToggleComplete(tasks, id), id) == tasks
  {
    var once := ToggleComplete(tasks, id);
    var twice := ToggleComplete(once, id);
    assert Get(twice, id) == Get(tasks, id);
    Extensionality(twice, tasks);
  }

  /** Deleting a task just added under a fresh id gives back the collection
      from before the addition. */
  lemma AddThenDelete(tasks: Tasks, input: string, id: Id)
    requires Valid(tasks) && id !in Keys(tasks)
    ensures DeleteTask(AddTask(tasks, input, id), id) == tasks
  {
    if !AllWhitespace(input) {
      SetThenDelete(tasks, id, Task(Trim(input), false));
    }
  }

  /** Deleting a second time changes nothing. */
  lemma DeleteIdempotent(tasks: Tasks, id: Id)
    requires Valid(tasks)
    ensures DeleteTask(DeleteTask(tasks, id), id) == DeleteTask(tasks, id)
  {
  }

  /** What `updateLocalStorage` writes: the Map spread into its list of
      `[id, task]` pairs, in iteration order. */
  function Save(tasks: Tasks): seq<(Id, Task)> {
    tasks
  }

  /** The startup hydration `new Map(parsed || [])`: `None` is the `null` an
      empty slot parses to, which gives the empty Map; a list of pairs is
      loaded as the Map constructor loads it, without any checking: a repeated
      id keeps its first position and its last task. */
  function Load(slot: Option<seq<(Id, Task)>>): (r: Tasks)
    ensures Valid(r)
    ensures slot == None ==> r == []
    ensures forall k :: k in Keys(r) <==> k in Keys(slot.GetOr([]))
    ensures forall k :: Get(r, k) == LastValue(slot.GetOr([]), k)
    ensures Keys(r) == FirstOccurrences(Keys(slot.GetOr([])))
    ensures slot.Some? && Valid(slot.value) ==> r == slot.value
  {
    var entries := slot.GetOr([]);
    assert Valid(entries) ==> FromEntries(entries) == entries by {
      if Valid(entries) {
        FromEntriesOfValid(entries);
      }
    }
    FromEntries(entries)
  }

  /** Loading what was saved gives back the same collection: the same ids, in
      the same order, with the same tasks. */
  lemma LoadSave(tasks: Tasks)
    requires Valid(tasks)
    ensures Load(Some(Save(tasks))) == tasks
  {
  }
}
