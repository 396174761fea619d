/**
 * The `TaskManager` object of the task pages: its `tasks` list, changed in
 * place by the form, delete, checkbox and drop handlers, and the lists it
 * writes back to the `tasks` storage key.  Each handler is a method whose
 * new state is the matching function of `Tasks` applied to the old list.
 */
module Store {
  import opened Util
  import opened Dates
  import opened Tasks
  import opened Tags
  import opened Views

  /**
   * The task form's inputs as text: the hidden id field (empty when
   * creating), title, description, the date input (empty is `None`) and the
   * comma-separated tag text.
   */
  datatype Form = Form(taskId: Option<int>, title: string, description: string, dueDate: Option<Date>, tagsText: string)

  /** The values the submit handler stores: the form's fields with the tag text parsed. */
  function FieldsOf(form: Form): (f: Fields)
    ensures f.title == form.title && f.description == form.description && f.dueDate == form.dueDate
    ensures f.tags == ParseTags(form.tagsText)
  {
    Fields(form.title, form.description, form.dueDate, ParseTags(form.tagsText))
  }

  /** The edit form filled in from a task, tags joined with ", ". */
  function EditFormOf(t: Task): (form: Form)
    ensures form.taskId == Some(t.id) && form.tagsText == JoinTags(t.tags)
    ensures form.title == t.title && form.description == t.description && form.dueDate == t.dueDate
  {
    Form(Some(t.id), t.title, t.description, t.dueDate, JoinTags(t.tags))
  }

  /**
   * Saving the edit form untouched writes back the task's own fields,
   * provided its tags are comma-free, trimmed and not the single empty tag.
   */
  lemma EditFormRoundTrip(t: Task)
    requires forall k :: 0 <= k < |t.tags| ==> ',' !in t.tags[k] && IsTrimmed(t.tags[k])
    requires t.tags != [[]]
    ensures WithFields(t, FieldsOf(EditFormOf(t))) == t
  {
    ParseJoinRoundTrip(t.tags);
  }

  class TaskManager {
    /** `this.tasks`, in display order. */
    var tasks: seq<Task>
    /** Every list written to the `tasks` storage key by `saveTasks`, oldest first. */
    var saved: seq<seq<Task>>

    /** One task per id, and a completion time exactly on the completed tasks. */
    ghost predicate Valid()
      reads this
    {
      UniqueIds(tasks) && CompletionConsistent(tasks)
    }

    /**
     * `loadTasks`: `stored` is the parsed value of the storage key, `None`
     * when the key is absent or does not parse; either way the list starts
     * empty.
     */
    constructor (stored: Option<seq<Task>>)
      ensures tasks == (if stored.Some? then stored.value else [])
      ensures saved == []
    {
      tasks := [];
      saved := [];
      if stored.Some? {
        tasks := stored.value;
      }
    }

    /** `saveTasks`. */
    method Save()
      modifies this
      ensures tasks == old(tasks)
      ensures saved == old(saved) + [tasks]
    {
      saved := saved + [tasks];
    }

    /** The create branch of the submit handler: `push` of a new open task, then save. */
    method Create(id: int, f: Fields)
      modifies this
      ensures tasks == old(tasks) + [NewTask(id, f)]
      ensures saved == old(saved) + [tasks]
      ensures old(Valid()) && id !in Ids(old(tasks)) ==> Valid()
    {
      if Valid() && id !in Ids(tasks) {
        CreatePreservesInvariants(tasks, id, f);
      }
      tasks := tasks + [NewTask(id, f)];
      Save();
    }

    /**
     * The edit branch of the submit handler: the four fields of the first
     * task with the id are overwritten and the list saved; an unknown id
     * changes and saves nothing.
     */
    method Update(id: int, f: Fields)
      modifies this
      ensures tasks == Updated(old(tasks), id, f)
      ensures saved == if id in Ids(old(tasks)) then old(saved) + [tasks] else old(saved)
      ensures old(Valid()) ==> Valid()
    {
      if Valid() {
        UpdatePreservesInvariants(tasks, id, f);
      }
      var index := IndexOf(tasks, id);
      if index != -1 {
        var t := tasks[index];
        tasks := tasks[index := WithFields(t, f)];
        Save();
      }
    }

    /**
     * The submit handler: the tag text is parsed, then a form with an id
     * edits that task and a form without one creates a task whose id is
     * the submit time `now`.
     */
    method Submit(form: Form, now: int)
      modifies this
      ensures form.taskId.Some? ==> tasks == Updated(old(tasks), form.taskId.value, FieldsOf(form))
      ensures form.taskId.None? ==> tasks == old(tasks) + [NewTask(now, FieldsOf(form))]
      ensures form.taskId.None? || form.taskId.value in Ids(old(tasks)) <==> saved == old(saved) + [tasks]
      ensures form.taskId.Some? && form.taskId.value !in Ids(old(tasks)) ==> saved == old(saved)
    {
      var tags := ParseTags(form.tagsText);
      var f := Fields(form.title, form.description, form.dueDate, tags);
      if form.taskId.Some? {
        Update(form.taskId.value, f);
      } else {
        Create(now, f);
      }
    }

    /** The edit button: the form filled in from the task with the id, if there is one. */
    method OpenEditForm(id: int) returns (form: Option<Form>)
      ensures form.None? <==> id !in Ids(tasks)
      ensures form.Some? ==> Lookup(tasks, id).Some? && form.value == EditFormOf(Lookup(tasks, id).value)
    {
      var t := Lookup(tasks, id);
      if t.Some? {
        form := Some(EditFormOf(t.value));
      } else {
        form := None;
      }
    }

    /** The delete button: every task with the id is filtered out, then the list is saved. */
    method Delete(id: int)
      modifies this
      ensures tasks == Deleted(old(tasks), id)
      ensures saved == old(saved) + [tasks]
      ensures old(Valid()) ==> Valid()
    {
      if Valid() {
        DeletePreservesInvariants(tasks, id);
      }
      tasks := Deleted(tasks, id);
      Save();
    }

    /**
     * The checkbox handler: the first task with the id is checked (completed
     * at `now`) or unchecked, then the list is saved; an unknown id changes
     * and saves nothing.  The save after checking waits for an animation in
     * the page, which does not change what is written.
     */
    method SetCompleted(id: int, checked: bool, now: Timestamp)
      modifies this
      ensures tasks == Toggled(old(tasks), id, checked, now)
      ensures saved == if id in Ids(old(tasks)) then old(saved) + [tasks] else old(saved)
      ensures old(Valid()) ==> Valid()
    {
      if Valid() {
        TogglePreservesInvariants(tasks, id, checked, now);
      }
      var index := IndexOf(tasks, id);
      if index != -1 {
        tasks := tasks[index := Checked(tasks[index], checked, now)];
        Save();
      }
    }

    /**
     * The drop handler: the ids of the list's items, top to bottom, are
     * looked up one by one; ids the store does not hold are skipped, and the
     * tasks found become the whole list, which is saved.
     */
    method Drop(ids: seq<int>)
      modifies this
      ensures tasks == Reordered(old(tasks), ids)
      ensures saved == old(saved) + [tasks]
      ensures old(CompletionConsistent(tasks)) && (forall i, j :: 0 <= i < j < |ids| ==> ids[i] != ids[j]) ==> Valid()
    {
      if CompletionConsistent(tasks) && forall i, j :: 0 <= i < j < |ids| ==> ids[i] != ids[j] {
        ReorderPreservesInvariants(tasks, ids);
      }
      var newOrder: seq<Task> := [];
      var i := 0;
      while i < |ids|
        invariant 0 <= i <= |ids|
        invariant newOrder == Reordered(tasks, ids[..i])
      {
        assert ids[..i + 1][..i] == ids[..i];
        var found := Lookup(tasks, ids[i]);
        if found.Some? {
          newOrder := newOrder + [found.value];
        }
        i := i + 1;
      }
      assert ids[..i] == ids;
      tasks := newOrder;
      Save();
    }
  }

  /**
   * Opening a task in the edit form and saving it untouched leaves the list
   * as it was (tags comma-free, trimmed and not the single empty tag), even
   * when ids repeat: both the form and the update use the first task with
   * the id.  The unchanged list is saved again.
   */
  method EditAndSaveUnchanged(m: TaskManager, id: int)
    requires id in Ids(m.tasks)
    requires forall t, k :: t in m.tasks && 0 <= k < |t.tags| ==> ',' !in t.tags[k] && IsTrimmed(t.tags[k])
    requires forall t :: t in m.tasks ==> t.tags != [[]]
    modifies m
    ensures m.tasks == old(m.tasks)
    ensures m.saved == old(m.saved) + [m.tasks]
  {
    var form := m.OpenEditForm(id);
    var t := Lookup(m.tasks, id).value;
    EditFormRoundTrip(t);
    m.Submit(form.value, 0);
    assert m.tasks[IndexOf(old(m.tasks), id)] == old(m.tasks)[IndexOf(old(m.tasks), id)];
    assert m.tasks == old(m.tasks);
  }

  /**
   * The main page shows only the open tasks, so a drop there keeps exactly
   * the open tasks: the completed ones are no longer in the store.
   */
  method DropOnMainPage(m: TaskManager)
    requires UniqueIds(m.tasks)
    modifies m
    ensures m.tasks == Active(old(m.tasks))
  {
    var shown := Active(m.tasks);
    ReorderOfShownTasks(m.tasks, shown);
    m.Drop(Ids(shown));
  }
}
