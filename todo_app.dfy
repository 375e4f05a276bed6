/**
 * The to-do page: the 'tasks' key of local storage, the rows shown in the task
 * list and the text field of the create form, and the handlers that change them.
 */
module TodoApp {
  import opened Wrappers
  import opened JsonStrings
  import opened TaskList
  import opened JsString

  /** `getTasksFromLocalStorage` on the value of the 'tasks' key: an absent key reads as the empty list. */
  function Load(slot: Option<string>): (d: Decoded)
    ensures slot == None ==> d == TaskArray([])
  {
    match slot
    case None => TaskArray([])
    case Some(text) => Parse(text)
  }

  /** Load after `setTasksToLocalStorage(tasks)` returns exactly `tasks`, in order. */
  lemma LoadAfterSave(tasks: seq<string>)
    ensures Load(Some(Stringify(tasks))) == TaskArray(tasks)
  {
    ParseStringify(tasks);
  }

  /** Load of an absent key, and of the key after it was written with the empty list, is the empty list. */
  lemma {:induction false} LoadEmpty(slot: Option<string>)
    requires slot == None || slot == Some(Stringify([]))
    ensures Load(slot) == TaskArray([])
  {
    if slot.Some? {
      LoadAfterSave([]);
    }
  }

  class TodoPage {
    /** `localStorage.getItem('tasks')`: None when the key is absent. */
    var slot: Option<string>
    /** The text of each row of the task list, in display order. */
    var rows: seq<string>
    /** The current value of the task input field. */
    var input: string

    /** The page as loaded, before its DOMContentLoaded handler: no rows shown. */
    constructor (stored: Option<string>, typed: string)
      ensures slot == stored && rows == [] && input == typed
    {
      slot := stored;
      rows := [];
      input := typed;
    }

    /** What `getTasksFromLocalStorage` returns now. */
    function Stored(): Decoded
      reads this
    {
      Load(slot)
    }

    /** The rows show exactly the stored list, in stored order. */
    ghost predicate InSync()
      reads this
    {
      Stored() == TaskArray(rows)
    }

    /** `setTasksToLocalStorage`: overwrites the key with the serialized list. */
    method SaveTasks(tasks: seq<string>)
      modifies this
      ensures slot == Some(Stringify(tasks))
      ensures Stored() == TaskArray(tasks)
      ensures rows == old(rows) && input == old(input)
    {
      slot := Some(Stringify(tasks));
      LoadAfterSave(tasks);
    }

    /** `createSingleTaskElement`: adds one row with the given text at the end of the list. */
    method AppendRow(task: string)
      modifies this
      ensures rows == old(rows) + [task]
      ensures slot == old(slot) && input == old(input)
    {
      rows := rows + [task];
    }

    /**
     * `storeTaskInLocalStorage`: reads the list, pushes `task` and writes the
     * list back. When the stored value is not an array the push throws, which
     * `completed == false` reports, and nothing is written.
     */
    method StoreTask(task: string) returns (completed: bool)
      modifies this
      ensures completed == old(Stored()).TaskArray?
      ensures completed ==> slot == Some(Stringify(old(Stored()).items + [task]))
      ensures completed ==> Stored() == TaskArray(old(Stored()).items + [task])
      ensures !completed ==> slot == old(slot)
      ensures rows == old(rows) && input == old(input)
    {
      var stored := Stored();
      if !stored.TaskArray? {
        return false;
      }
      var tasks := stored.items;
      tasks := tasks + [task];
      SaveTasks(tasks);
      completed := true;
    }

    /**
     * `removeTaskFromLocalStorage`: reads the list, splices out the first
     * element equal to `text` if there is one, and writes the list back, also
     * when nothing was removed. When the stored value is not an array the
     * lookup throws, which `completed == false` reports, and nothing is written.
     */
    method RemoveTask(text: string) returns (completed: bool)
      modifies this
      ensures completed == old(Stored()).TaskArray?
      ensures completed ==> slot == Some(Stringify(RemoveFirst(old(Stored()).items, text)))
      ensures completed ==> Stored() == TaskArray(RemoveFirst(old(Stored()).items, text))
      ensures !completed ==> slot == old(slot)
      ensures rows == old(rows) && input == old(input)
    {
      var stored := Stored();
      if !stored.TaskArray? {
        return false;
      }
      var tasks := stored.items;
      var index := FindIndex(tasks, text);
      if index != -1 {
        tasks := tasks[..index] + tasks[index + 1..];
      }
      SpliceAtFindIndex(stored.items, text);
      SaveTasks(tasks);
      completed := true;
    }

    /**
     * `renderTasks`: appends one row per stored task, in stored order. When the
     * stored value is not an array the rows are left as they are.
     */
    method Render()
      modifies this
      ensures old(Stored()).TaskArray? ==> rows == old(rows) + old(Stored()).items
      ensures old(Stored()).NotTaskArray? ==> rows == old(rows)
      ensures old(rows) == [] && old(Stored()).TaskArray? ==> InSync()
      ensures slot == old(slot) && input == old(input)
    {
      var tasks := Stored();
      if !tasks.TaskArray? {
        return;
      }
      var items := tasks.items;
      for i := 0 to |items|
        invariant rows == old(rows) + items[..i]
        invariant slot == old(slot) && input == old(input)
      {
        AppendRow(items[i]);
      }
      assert items[..|items|] == items;
    }

    /**
     * `createTask`: ignores an input that trims to empty. Otherwise shows and
     * stores the input as typed, untrimmed, and clears the field. When storing
     * throws, the row has already been added and the field keeps its text.
     */
    method CreateTask()
      modifies this
      ensures Trim(old(input)) == [] ==> rows == old(rows) && slot == old(slot) && input == old(input)
      ensures Trim(old(input)) != [] ==> rows == old(rows) + [old(input)]
      ensures Trim(old(input)) != [] && old(Stored()).TaskArray? ==>
        slot == Some(Stringify(old(Stored()).items + [old(input)])) && input == []
      ensures Trim(old(input)) != [] && old(Stored()).NotTaskArray? ==>
        slot == old(slot) && input == old(input)
      ensures old(InSync()) ==> InSync()
    {
      if Trim(input) == [] {
        return;
      }
      AppendRow(input);
      var completed := StoreTask(input);
      if completed {
        input := [];
      }
    }

    /**
     * `clearAllTasks`: when confirmed, empties local storage and the list;
     * afterwards both read as empty, whatever they held before.
     */
    method ClearAll(confirmed: bool)
      modifies this
      ensures confirmed ==> slot == None && rows == [] && Stored() == TaskArray([]) && InSync()
      ensures !confirmed ==> slot == old(slot) && rows == old(rows)
      ensures input == old(input)
    {
      if confirmed {
        slot := None;
        rows := [];
      }
    }

    /**
     * `clearSingleTask` on the row at index `k`: when confirmed, removes the row
     * and then the first stored task equal to the row's text. The rows stay in
     * step with storage when they were in step and no text repeats.
     */
    method DeleteRow(k: nat, confirmed: bool)
      requires k < |rows|
      modifies this
      ensures !confirmed ==> rows == old(rows) && slot == old(slot)
      ensures confirmed ==> rows == old(rows[..k] + rows[k + 1..])
      ensures confirmed && old(Stored()).TaskArray? ==>
        slot == Some(Stringify(RemoveFirst(old(Stored()).items, old(rows[k]))))
      ensures confirmed && old(Stored()).TaskArray? ==>
        Stored() == TaskArray(RemoveFirst(old(Stored()).items, old(rows[k])))
      ensures confirmed && old(Stored()).NotTaskArray? ==> slot == old(slot)
      ensures confirmed && old(InSync()) && Distinct(old(rows)) ==> InSync()
      ensures input == old(input)
    {
      if confirmed {
        var text := rows[k];
        ghost var before := rows;
        rows := rows[..k] + rows[k + 1..];
        var completed := RemoveTask(text);
        if completed && Distinct(before) {
          RemoveFirstDistinct(before, k);
        }
      }
    }

    /**
     * `editSingleTask` on the row at index `k`: when confirmed and the prompt
     * answer is a non-empty string, replaces the row's text. Storage is never
     * written, so the stored task keeps its old text.
     */
    method EditRow(k: nat, confirmed: bool, answer: Option<string>)
      requires k < |rows|
      modifies this
      ensures rows == if confirmed && answer.Some? && answer.value != [] then old(rows)[k := answer.value] else old(rows)
      ensures slot == old(slot) && input == old(input)
      ensures old(InSync()) && confirmed && answer.Some? && answer.value != [] && answer.value != old(rows[k]) ==> !InSync()
    {
      if confirmed {
        var message := answer;
        if message.Some? && message.value != [] {
          rows := rows[k := message.value];
        }
      }
    }
  }

  /**
   * A page whose storage holds a list is loaded; a blank create is ignored and
   * creating `typed` adds it, as typed, to both the rows and storage.
   */
  method CreateExample(stored: seq<string>, blank: string, typed: string)
    requires Trim(blank) == [] && Trim(typed) != []
  {
    var page := new TodoPage(Some(Stringify(stored)), blank);
    LoadAfterSave(stored);
    page.Render();
    assert page.rows == stored && page.InSync();
    page.CreateTask();
    assert page.rows == stored && page.input == blank;
    page.input := typed;
    page.CreateTask();
    assert page.rows == stored + [typed] && page.input == [];
    assert page.InSync();
  }

  /**
   * On a page in step with storage and without repeated texts, a confirmed
   * delete of row k removes that row from the rows and storage alike, a
   * declined clear-all changes nothing, and clear-all confirmed twice leaves
   * both empty.
   */
  method DeleteAndClearExample(page: TodoPage, k: nat)
    requires page.InSync() && Distinct(page.rows) && k < |page.rows|
    modifies page
  {
    var left := page.rows[..k] + page.rows[k + 1..];
    page.DeleteRow(k, true);
    assert page.rows == left && page.InSync();
    page.ClearAll(false);
    assert page.rows == left && page.InSync();
    page.ClearAll(true);
    page.ClearAll(true);
    assert page.rows == [] && page.Stored() == TaskArray([]);
  }

  /**
   * With a repeated text, deleting the later row removes the earlier stored
   * copy: afterwards the rows and the stored list differ.
   */
  method DuplicateDeleteExample(page: TodoPage, a: string, b: string)
    requires page.InSync() && page.rows == [a, b, a] && a != b
    modifies page
  {
    page.DeleteRow(2, true);
    RemoveFirstDuplicate(a, b);
    assert page.rows == [a, b];
    assert page.Stored() == TaskArray([b, a]);
    assert !page.InSync();
  }

  /** After an edit the row shows the new text while storage keeps the old one. */
  method EditExample(stored: seq<string>, k: nat, message: string)
    requires k < |stored| && message != [] && message != stored[k]
  {
    var page := new TodoPage(Some(Stringify(stored)), "");
    LoadAfterSave(stored);
    page.Render();
    page.EditRow(k, true, Some(message));
    assert page.rows == stored[k := message] && page.Stored() == TaskArray(stored);
    assert !page.InSync();
    page.EditRow(k, true, Some([]));
    page.EditRow(k, true, None);
    page.EditRow(k, false, Some(stored[k]));
    assert page.rows == stored[k := message];
  }
}
