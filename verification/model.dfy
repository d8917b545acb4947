/** The persisted records of the application: a user and the task rows the
    user owns (task/models.py). Timestamps are modelled as integers that grow
    with time; the database column types are not. */
module Model {
  import opened Wrappers

  datatype User = User(id: int, username: string)

  /** A `TimeField` value. */
  datatype TimeOfDay = TimeOfDay(hour: int, minute: int, second: int)

  /** One task row. `description` and `taskTime` are nullable columns;
      `createdAt` is set once on insert and `updatedAt` on every save. */
  datatype Task = Task(
    id: int,
    owner: User,
    title: string,
    description: Option<string>,
    status: bool,
    taskTime: Option<TimeOfDay>,
    createdAt: int,
    updatedAt: int)

  /** A freshly inserted row: the columns the caller does not give take their
      declared defaults (status false, no scheduled time), and both
      timestamps are the insertion time. */
  function NewTask(id: int, owner: User, title: string, description: Option<string>, now: int): (t: Task)
    ensures t.id == id && t.owner == owner && t.title == title && t.description == description
    ensures !t.status
    ensures t.taskTime.None?
    ensures t.createdAt == now && t.updatedAt == now
  {
    Task(id, owner, title, description, false, None, now, now)
  }

  /** A row written back by `save()` at time `now`: only `updatedAt` moves. */
  function Touch(t: Task, now: int): (r: Task)
    ensures r.id == t.id && r.owner == t.owner && r.title == t.title
    ensures r.description == t.description && r.status == t.status
    ensures r.taskTime == t.taskTime && r.createdAt == t.createdAt
    ensures r.updatedAt == now
  {
    t.(updatedAt := now)
  }

  /** The string form of a task: its title, a spaced dash, and the owner's
      username. */
  function Describe(t: Task): (r: string)
    ensures |r| == |t.title| + 3 + |t.owner.username|
    ensures r[..|t.title|] == t.title
    ensures r[|t.title|..|t.title| + 3] == " - "
    ensures r[|t.title| + 3..] == t.owner.username
  {
    t.title + " - " + t.owner.username
  }

  /** The default ordering of task queries: newest `createdAt` first. */
  predicate NewestFirst(ts: seq<Task>) {
    forall i, j :: 0 <= i < j < |ts| ==> ts[i].createdAt >= ts[j].createdAt
  }
}
