/** Concrete runs of the store: a ten-point task completed twice, and a
    member removed after completing a task. */
module Scenarios {
  import opened Models
  import opened Rows
  import Store

  /** As written, the second completion of the same task succeeds again and
      the member ends with twice the task's points. */
  method CompletingTwiceCreditsTwice() returns (first: bool, second: bool, points: int)
    ensures first && second
    ensures points == 20
  {
    var db := new Store.Database();
    var alice := db.AddMember("Alice");
    var dishes := db.AddTask("Dishes", "", 10);
    assert alice == 1 && dishes == 1;
    db.AssignTask(dishes, alice, "2024-01-01");
    assert db.tasks == [Task(1, "Dishes", "", 10, Some(1), Some("2024-01-01"), false)];
    first := db.CompleteTask(dishes);
    assert db.tasks == [Task(1, "Dishes", "", 10, Some(1), Some("2024-01-01"), true)];
    second := db.CompleteTask(dishes);
    points := db.rewards[alice];
  }

  /** The guarded variant refuses the second completion and the member keeps
      the task's points once. */
  method CompletingTwiceGuarded() returns (first: bool, second: bool, points: int)
    ensures first && !second
    ensures points == 10
  {
    var db := new Store.Database();
    var alice := db.AddMember("Alice");
    var dishes := db.AddTask("Dishes", "", 10);
    assert alice == 1 && dishes == 1;
    db.AssignTask(dishes, alice, "2024-01-01");
    assert db.tasks == [Task(1, "Dishes", "", 10, Some(1), Some("2024-01-01"), false)];
    first := db.CompleteTaskOnce(dishes);
    assert db.tasks == [Task(1, "Dishes", "", 10, Some(1), Some("2024-01-01"), true)];
    second := db.CompleteTaskOnce(dishes);
    points := db.rewards[alice];
  }

  /** Removing a member orphans its tasks, completed ones included, and
      drops its reward row. */
  method RemovingMemberOrphansTasks() returns (task: Task, removed: bool)
    ensures task.completed && task.assignedTo.None? && task.deadline.None?
    ensures !removed
  {
    var db := new Store.Database();
    var a := db.AddMember("A");
    var t := db.AddTask("T", "", 5);
    assert a == 1 && t == 1;
    db.AssignTask(t, a, "2024-01-01");
    assert db.tasks == [Task(1, "T", "", 5, Some(1), Some("2024-01-01"), false)];
    var done := db.CompleteTask(t);
    assert db.tasks == [Task(1, "T", "", 5, Some(1), Some("2024-01-01"), true)];
    var ok := db.RemoveMember(a);
    assert db.tasks == [Task(1, "T", "", 5, None, None, true)];
    task := db.tasks[0];
    removed := a in db.rewards;
  }
}
