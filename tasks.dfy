/** The task record of the task manager and the draft defaults of its editor. */
module Tasks {

  /** The three priorities a task may carry. */
  datatype Priority = High | Medium | Low

  /** The text the component stores for a priority (its string literal type). None holds a comma or
      a newline, so the priority cell never splits a line of the exported text. */
  function PriorityName(p: Priority): (name: string)
    ensures name != "" && ',' !in name && '\n' !in name
  {
    match p
    case High => "high"
    case Medium => "medium"
    case Low => "low"
  }

  /** A task: a plain value record with no identity; its position in the list is its only handle. */
  datatype Task = Task(
    title: string,
    description: string,
    dueDate: string,
    priority: Priority,
    status: string)

  /** The draft the editor starts with and returns to after every successful save. */
  const DefaultTask: Task := Task("", "", "", Low, "to-do")

  /** The editor's validation gate: title, description and due date must all be non-empty
      (a JavaScript string is truthy exactly when it is non-empty). */
  predicate IsComplete(t: Task) {
    t.title != "" && t.description != "" && t.dueDate != ""
  }

  /** Every task of a list passes the editor's gate: the one invariant of the stored list, since
      only a complete draft is ever stored. */
  predicate AllComplete(s: seq<Task>) {
    forall i :: 0 <= i < |s| ==> IsComplete(s[i])
  }

  /** The default draft is never accepted as it is: saving it right away does nothing. */
  lemma DefaultTaskIsIncomplete()
    ensures !IsComplete(DefaultTask)
    ensures DefaultTask.priority == Low && DefaultTask.status == "to-do"
  {
  }
}
