/**
 The three kinds of task the storage codec reads and writes. A date is kept
 as the text its date value prints as; the codec never looks inside it.
 */
module Tasks {
  import opened Optional

  datatype Task =
    | ToDo(description: string, done: bool)
    | Event(description: string, done: bool, at: string)
    | Deadline(description: string, done: bool, dueBy: string)

  /** The one-character type tag each kind reports. */
  function TypeCode(t: Task): char {
    match t
    case ToDo(_, _) => 'T'
    case Event(_, _, _) => 'E'
    case Deadline(_, _, _) => 'D'
  }

  /** An Event or a Deadline, i.e. a task that carries its own date. */
  predicate IsTimed(t: Task) {
    !t.ToDo?
  }

  /** The date an Event occurs at, or the date a Deadline is due by. */
  function OwnTimings(t: Task): string
    requires IsTimed(t)
  {
    match t
    case Event(_, _, at) => at
    case Deadline(_, _, dueBy) => dueBy
  }

  /** A list entry that holds an Event or a Deadline. */
  predicate TimedEntry(entry: Option<Task>) {
    entry.Some? && IsTimed(entry.value)
  }

  /** The tasks of a list with the absent (null) entries dropped, in order. */
  function Present(tasks: seq<Option<Task>>): (ts: seq<Task>)
    ensures |ts| <= |tasks|
  {
    if |tasks| == 0 then []
    else (if tasks[0].Some? then [tasks[0].value] else []) + Present(tasks[1..])
  }

  /** Exactly the tasks held by some entry survive the filter. */
  lemma {:induction false} PresentMembers(tasks: seq<Option<Task>>, t: Task)
    ensures t in Present(tasks) <==> Some(t) in tasks
    decreases |tasks|
  {
    if |tasks| > 0 {
      assert tasks == [tasks[0]] + tasks[1..];
      PresentMembers(tasks[1..], t);
    }
  }

  /** The list holding exactly the given tasks and no absent entry. */
  function Wrap(ts: seq<Task>): (tasks: seq<Option<Task>>)
    ensures |tasks| == |ts|
    ensures forall i :: 0 <= i < |ts| ==> tasks[i] == Some(ts[i])
  {
    seq(|ts|, i requires 0 <= i < |ts| => Some(ts[i]))
  }
}
