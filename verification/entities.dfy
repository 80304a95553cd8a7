/** The records of the task tracker: the persisted entities and the
    flattened representation handed to the presentation layer.
    Timestamps are whole seconds; a task's `created` is a UTC instant. */
module Entities {

  /** Absent-or-present value, standing for a Java `Optional` or a nullable reference. */
  datatype Option<T> = None | Some(value: T)

  /** A registered user; `timezone` is an IANA zone name or unset. */
  datatype User = User(id: int, name: string, login: string, password: string, timezone: Option<string>)

  /** Reference data: a priority level and its display position. */
  datatype Priority = Priority(id: int, name: string, position: int)

  /** Reference data: a category a task may be tagged with. */
  datatype Category = Category(id: int, name: string)

  /** A stored task. `user` and `priority` are many-to-one relations that the
      mapper may leave unresolved; `categories` keeps the relation's order. */
  datatype Task = Task(
    id: int,
    title: string,
    description: string,
    created: int,
    done: bool,
    user: Option<User>,
    priority: Option<Priority>,
    categories: seq<Category>)

  /** The display form of a task: owner and priority flattened to (id, name),
      categories flattened to an id list and one string of names, and
      `created` given as local time of the viewer's zone. */
  datatype TaskDto = TaskDto(
    id: int,
    title: string,
    description: string,
    created: int,
    done: bool,
    userId: int,
    userName: string,
    priorityId: int,
    priorityName: string,
    categoriesId: seq<int>,
    categories: string)
}
