/** Records of the chore ledger: the member and task rows (and the in-memory
    objects built from them), reward entries and the filters over tasks. */
module Models {

  datatype Option<+T> = None | Some(value: T)

  /** A family member: a row of `members` and a `FamilyMember` object alike. */
  datatype Member = Member(id: int, name: string)

  /** A task: a row of `tasks` and a `Task` object alike. `assignedTo` and
      `deadline` are None where the row holds NULL or the object holds None. */
  datatype Task = Task(
    id: int,
    title: string,
    description: string,
    points: int,
    assignedTo: Option<int>,
    deadline: Option<string>,
    completed: bool)

  /** One leaderboard line: member id, name and accumulated points. */
  datatype Standing = Standing(memberId: int, name: string, points: int)

  /** A successful completion that reached a reward row: `points` of task
      `taskId` went to `member`. */
  datatype Credit = Credit(taskId: int, member: int, points: int)

  /** Python truthiness of an `assigned_to` value: None and 0 are false. */
  predicate HasAssignee(a: Option<int>) {
    a.Some? && a.value != 0
  }

  /** Python truthiness of a `deadline` value: None and "" are false. */
  predicate HasDeadline(d: Option<string>) {
    d.Some? && d.value != ""
  }

  /** A freshly created task: unassigned, no deadline, not completed. */
  function NewTask(id: int, title: string, description: string, points: int): Task {
    Task(id, title, description, points, None, None, false)
  }

  /** The two in-place changes a task undergoes: `assign(member_id, deadline)`
      sets exactly those two fields, `mark_completed()` sets the flag. */
  datatype Update = AssignTo(member: int, deadline: string) | MarkCompleted

  function Apply(t: Task, u: Update): Task {
    match u
    case AssignTo(m, d) => t.(assignedTo := Some(m), deadline := Some(d))
    case MarkCompleted => t.(completed := true)
  }

  /** The `filter_type` values `get_tasks` recognises; any other string is All. */
  datatype Filter = All | Available | Assigned | Completed

  function ParseFilter(name: string): Filter {
    if name == "available" then Available
    else if name == "assigned" then Assigned
    else if name == "completed" then Completed
    else All
  }

  /** The store tests "unassigned" with SQL `IS NULL`; the manager tests it
      with Python falsiness. They differ only on an assignee id of 0. */
  datatype Dialect = Sql | Python

  predicate Unassigned(t: Task, d: Dialect) {
    match d
    case Sql => t.assignedTo.None?
    case Python => !HasAssignee(t.assignedTo)
  }

  predicate Matches(f: Filter, t: Task, d: Dialect) {
    match f
    case All => true
    case Available => Unassigned(t, d) && !t.completed
    case Assigned => !Unassigned(t, d) && !t.completed
    case Completed => t.completed
  }
}
