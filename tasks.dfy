/**
 * The part of a todo.txt task record (`todotxt.Task`) that the core reads and writes. Dates are
 * opaque instants compared for equality; Go's zero `time.Time`, which the library reads as "no
 * date", is `None`. The key/value tags of a task (`AdditionalTags`) are a map; reading a key that is
 * absent gives no value, as reading a nil or empty Go map does.
 */
module Tasks {
  import opened Wrappers

  datatype Date = Date(instant: int)

  datatype Task = Task(
    todo: string,
    priority: string,
    projects: seq<string>,
    contexts: seq<string>,
    tags: map<string, string>,
    createdDate: Option<Date>,
    dueDate: Option<Date>,
    completedDate: Option<Date>,
    completed: bool)

  /** `todotxt.NewTask()`: an empty task whose creation date is the current time. */
  function NewTask(now: Date): (t: Task)
    ensures t.createdDate == Some(now) && t.tags == map[] && !t.completed
    ensures t.todo == "" && t.dueDate.None? && t.completedDate.None?
  {
    Task("", "", [], [], map[], Some(now), None, None, false)
  }

  /** The value of a tag together with its presence, Go's `v, ok := task.AdditionalTags[key]`. */
  function Tag(t: Task, key: string): (r: Option<string>)
    ensures r.Some? <==> key in t.tags
    ensures r.Some? ==> r.value == t.tags[key]
  {
    if key in t.tags then Some(t.tags[key]) else None
  }

  /** The value of a tag, or `""` when it is absent: Go's `task.AdditionalTags[key]`. */
  function TagOrEmpty(t: Task, key: string): (r: string)
    ensures key in t.tags ==> r == t.tags[key]
    ensures key !in t.tags ==> r == ""
  {
    Tag(t, key).GetOr("")
  }
}
