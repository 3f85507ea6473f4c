/**
 * The task record of the planner and the two partial shapes callers hand
 * to the store: a draft for a new task and a set of updates for an
 * existing one. Durations are whole minutes; dates and timestamps are the
 * strings the application stores.
 */
module Tasks {
  import opened Common

  /** A stored task. `priority` is optional: records created before it existed lack it. */
  datatype Task = Task(
    id: string,
    title: string,
    duration: int,
    tag: string,
    dueDate: string,
    priority: Option<string>,
    createdAt: string,
    updatedAt: string)

  /**
   * The object the form builds (`taskData`), or any object given to
   * `addTask` or `validateTask`; it may carry an `id` of its own.
   */
  datatype Draft = Draft(
    id: Option<string>,
    title: string,
    duration: int,
    tag: string,
    dueDate: string,
    priority: Option<string>)

  /** The `updates` object of `updateTask`: every field is optional. */
  datatype Patch = Patch(
    id: Option<string>,
    title: Option<string>,
    duration: Option<int>,
    tag: Option<string>,
    dueDate: Option<string>,
    priority: Option<string>,
    createdAt: Option<string>)

  function OrElse<T>(o: Option<T>, default: T): T
  {
    match o
    case Some(v) => v
    case None => default
  }
}
