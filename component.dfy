/** The task-list component: the stored list, the editor's draft and the index of the task being
    edited, and the operations the page calls on them. Persisting the list after each change is a
    side effect on browser storage and is not modelled; the list, draft and index are the whole state. */
module TaskComponent {
  import opened Tasks
  import opened TaskSort
  import opened TaskCsv

  /** Where JavaScript's `splice(start, 1)` starts removing in a list of length `len`: a negative
      `start` counts from the end (clamped at the front), a large one is clamped at the end. */
  function SpliceStart(len: nat, start: int): (k: nat)
    ensures k <= len
    ensures 0 <= start < len ==> k == start
    ensures start < 0 && len as int + start >= 0 ==> k as int == len as int + start
  {
    if start < 0 then (if len + start < 0 then 0 else len + start)
    else if start < len then start
    else len
  }

  /** The list left by JavaScript's `splice(start, 1)`. */
  function SpliceOne(s: seq<Task>, start: int): (r: seq<Task>)
    ensures 0 <= start < |s| ==> r == s[..start] + s[start + 1..]
    ensures -|s| <= start < 0 ==> r == s[..|s| + start] + s[|s| + start + 1..]
    ensures start < -|s| && s != [] ==> r == s[1..]
    ensures start >= |s| ==> r == s
    ensures |r| == if s != [] && start < |s| then |s| - 1 else |s|
  {
    var k := SpliceStart(|s|, start);
    if k < |s| then s[..k] + s[k + 1..] else s
  }

  /** Splicing one task out removes exactly that task: the removed task and the rest together are
      the old list. */
  lemma SpliceOneRemoves(s: seq<Task>, start: int)
    requires 0 <= start < |s|
    ensures multiset(SpliceOne(s, start)) + multiset{s[start]} == multiset(s)
    ensures forall j :: 0 <= j < |s| - 1 ==>
              SpliceOne(s, start)[j] == if j < start then s[j] else s[j + 1]
  {
    var r := SpliceOne(s, start);
    assert r == s[..start] + s[start + 1..];
    RemoveAt(s, start);
  }

  /** Deleting with `splice` never brings in a task: a list of complete tasks stays one. */
  lemma SpliceOneKeepsComplete(s: seq<Task>, start: int)
    ensures AllComplete(s) ==> AllComplete(SpliceOne(s, start))
  {
    var k := SpliceStart(|s|, start);
    var r := SpliceOne(s, start);
    if AllComplete(s) && k < |s| {
      assert r == s[..k] + s[k + 1..];
      forall j | 0 <= j < |r| ensures IsComplete(r[j]) {
        assert r[j] == if j < k then s[j] else s[j + 1];
      }
    }
  }

  /** Reordering never brings in a task: a permutation of a list of complete tasks is one. */
  lemma PermutationKeepsComplete(r: seq<Task>, s: seq<Task>)
    requires multiset(r) == multiset(s)
    ensures AllComplete(s) ==> AllComplete(r)
  {
    if AllComplete(s) {
      forall i | 0 <= i < |r| ensures IsComplete(r[i]) {
        assert r[i] in multiset(r);
        assert r[i] in s;
        var k :| 0 <= k < |s| && s[k] == r[i];
      }
    }
  }

  lemma RemoveAt<T>(s: seq<T>, i: nat)
    requires i < |s|
    ensures multiset(s[..i] + s[i + 1..]) + multiset{s[i]} == multiset(s)
    ensures forall j :: 0 <= j < |s| - 1 ==> (s[..i] + s[i + 1..])[j] == if j < i then s[j] else s[j + 1]
  {
    assert s == s[..i] + ([s[i]] + s[i + 1..]);
  }

  class TasksComponent {
    /** The stored tasks, in display order. */
    var tasks: seq<Task>
    /** The draft bound to the form. */
    var newTask: Task
    /** The index of the task the draft will replace, or -1 when the draft is a new task. */
    var editingTaskIndex: int

    /** A fresh component: no tasks, the default draft, nothing being edited (loading saved tasks
        from browser storage is not modelled). */
    constructor ()
      ensures tasks == [] && newTask == DefaultTask && editingTaskIndex == -1
      ensures AllComplete(tasks)
    {
      tasks := [];
      newTask := DefaultTask;
      editingTaskIndex := -1;
    }

    /** Save the draft: rejected unless it is complete; otherwise it is written at the edit index (a
        write one past the end, left by deleting the last task while editing it, appends as a
        JavaScript array does) or appended when nothing is being edited, and the editor returns to a
        fresh default draft. */
    method AddTask()
      requires IsComplete(newTask) ==> editingTaskIndex <= |tasks|
      modifies this
      ensures !IsComplete(old(newTask)) ==>
                tasks == old(tasks) && newTask == old(newTask) && editingTaskIndex == old(editingTaskIndex)
      ensures IsComplete(old(newTask)) && 0 <= old(editingTaskIndex) < |old(tasks)| ==>
                tasks == old(tasks)[old(editingTaskIndex) := old(newTask)] && editingTaskIndex == -1
      ensures IsComplete(old(newTask)) && old(editingTaskIndex) == |old(tasks)| ==>
                tasks == old(tasks) + [old(newTask)] && editingTaskIndex == -1
      ensures IsComplete(old(newTask)) && old(editingTaskIndex) < 0 ==>
                tasks == old(tasks) + [old(newTask)] && editingTaskIndex == old(editingTaskIndex)
      ensures IsComplete(old(newTask)) ==> newTask == DefaultTask
      ensures AllComplete(old(tasks)) ==> AllComplete(tasks)
    {
      if IsComplete(newTask) {
        if editingTaskIndex >= 0 {
          if editingTaskIndex < |tasks| {
            tasks := tasks[editingTaskIndex := newTask];
          } else {
            tasks := tasks + [newTask];
          }
          editingTaskIndex := -1;
        } else {
          tasks := tasks + [newTask];
        }
        newTask := DefaultTask;
      }
    }

    /** Start editing the task at `index`: the draft becomes a copy of it. */
    method EditTask(index: int)
      requires 0 <= index < |tasks|
      modifies this
      ensures tasks == old(tasks)
      ensures newTask == tasks[index] && editingTaskIndex == index
    {
      newTask := tasks[index];
      editingTaskIndex := index;
    }

    /** Remove the task at `index` with `splice(index, 1)`. The edit index is left as it was. */
    method DeleteTask(index: int)
      modifies this
      ensures tasks == SpliceOne(old(tasks), index)
      ensures 0 <= index < |old(tasks)| ==> tasks == old(tasks)[..index] + old(tasks)[index + 1..]
      ensures newTask == old(newTask) && editingTaskIndex == old(editingTaskIndex)
      ensures AllComplete(old(tasks)) ==> AllComplete(tasks)
    {
      SpliceOneKeepsComplete(tasks, index);
      tasks := SpliceOne(tasks, index);
    }

    /** Overwrite the status of the task at `index` and nothing else. */
    method UpdateTaskStatus(index: int, status: string)
      requires 0 <= index < |tasks|
      modifies this
      ensures |tasks| == |old(tasks)|
      ensures tasks[index] == old(tasks)[index].(status := status)
      ensures forall j :: 0 <= j < |tasks| && j != index ==> tasks[j] == old(tasks)[j]
      ensures newTask == old(newTask) && editingTaskIndex == old(editingTaskIndex)
      ensures AllComplete(old(tasks)) ==> AllComplete(tasks)
    {
      tasks := tasks[index := tasks[index].(status := status)];
    }

    /** Sort by priority, high first, keeping the order of tasks of equal priority. */
    method SortTasksByPriority()
      modifies this
      ensures AllRanked(ByPriority, old(tasks)) && AllRanked(ByPriority, tasks)
      ensures IsStableSortOf(ByPriority, tasks, old(tasks))
      ensures tasks == RankSort(ByPriority, old(tasks))
      ensures newTask == old(newTask) && editingTaskIndex == old(editingTaskIndex)
      ensures AllComplete(old(tasks)) ==> AllComplete(tasks)
    {
      RankSortIsStableSort(ByPriority, tasks);
      PermutationKeepsComplete(RankSort(ByPriority, tasks), tasks);
      tasks := RankSort(ByPriority, tasks);
    }

    /** Sort by status, to-do first and completed last, keeping the order of tasks of equal status.
        Only defined when every status is one of the three the rank map knows. */
    method SortTasksByStatus()
      requires AllRanked(ByStatus, tasks)
      modifies this
      ensures AllRanked(ByStatus, tasks)
      ensures IsStableSortOf(ByStatus, tasks, old(tasks))
      ensures tasks == RankSort(ByStatus, old(tasks))
      ensures newTask == old(newTask) && editingTaskIndex == old(editingTaskIndex)
      ensures AllComplete(old(tasks)) ==> AllComplete(tasks)
    {
      RankSortIsStableSort(ByStatus, tasks);
      PermutationKeepsComplete(RankSort(ByStatus, tasks), tasks);
      tasks := RankSort(ByStatus, tasks);
    }

    /** The CSV text of the current list: the header line alone for an empty list, and otherwise,
        when no cell holds a newline, the header line followed by one line per task. */
    function GenerateCSV(): (csv: string)
      reads this
      ensures tasks == [] ==> csv == "Title,Description,Due Date,Priority,Status"
      ensures NoNewlines(tasks) ==> Split(csv, '\n') == [Header] + Rows(tasks)
    {
      EmptyListIsHeaderOnly();
      Lines(tasks);
      TaskCsv.GenerateCSV(tasks)
    }
  }

  /** Editing the task at `i`, changing the form to `edited` and saving replaces exactly that task when
      `edited` is complete; otherwise the list is untouched and the editor stays on task `i`. */
  method EditThenSave(c: TasksComponent, i: int, edited: Task)
    requires 0 <= i < |c.tasks|
    modifies c
    ensures IsComplete(edited) ==>
              c.tasks == old(c.tasks)[i := edited] && c.editingTaskIndex == -1 && c.newTask == DefaultTask
    ensures !IsComplete(edited) ==>
              c.tasks == old(c.tasks) && c.editingTaskIndex == i && c.newTask == edited
    ensures |c.tasks| == |old(c.tasks)|
    ensures AllComplete(old(c.tasks)) ==> AllComplete(c.tasks)
  {
    c.EditTask(i);
    c.newTask := edited;
    c.AddTask();
  }

  /** A priority sort moves a high-priority task in front of a low-priority one added before it. */
  lemma LowThenHighSorted(x: Task, y: Task)
    requires x.priority == Low && y.priority == High
    ensures RankSort(ByPriority, [x, y]) == [y, x]
  {
    assert [x, y][1..] == [y];
    assert [y][1..] == [];
    assert Insert(ByPriority, y, []) == [y];
    assert RankSort(ByPriority, [y]) == [y];
    assert Insert(ByPriority, x, []) == [x];
    assert Insert(ByPriority, x, [y]) == [y] + [x];
  }

  /** Adding a low-priority task and then a high-priority one, a priority sort puts the second first. */
  method PrioritySortScenario() returns (sorted: seq<Task>)
    ensures |sorted| == 2
    ensures sorted[0].title == "Y" && sorted[1].title == "X"
  {
    var c := new TasksComponent();
    var x := Task("X", "first", "2024-03-01", Low, "to-do");
    var y := Task("Y", "second", "2024-01-01", High, "to-do");
    c.newTask := x;
    c.AddTask();
    c.newTask := y;
    c.AddTask();
    assert c.tasks == [x, y];
    c.SortTasksByPriority();
    LowThenHighSorted(x, y);
    sorted := c.tasks;
  }
}
