/** The task manager: an in-memory mirror of the store's members and tasks,
    written through the store on every change. */
module Manager {
  import opened Models
  import opened Rows
  import opened Rewards
  import Store

  class FamilyTaskManager {
    const db: Store.Database
    var members: seq<Member>
    var tasks: seq<Task>

    ghost predicate Valid()
      reads this, db
    {
      db.Valid()
    }

    /** The mirror holds exactly what `load_data` would read from the store. */
    ghost predicate Consistent()
      reads this, db
    {
      members == db.members && tasks == Decode(db.tasks)
    }

    constructor ()
      ensures Valid() && Consistent() && fresh(db)
      ensures db.members == [] && db.tasks == [] && db.rewards == map[]
      ensures db.nextMemberId == 1 && db.nextTaskId == 1
      ensures members == [] && tasks == []
    {
      db := new Store.Database();
      members, tasks := [], [];
      new;
      LoadData();
    }

    /** Replaces both lists with the store's members and all its tasks. */
    method LoadData()
      requires Valid()
      modifies this
      ensures Valid() && Consistent()
    {
      members := db.GetMembers();
      tasks := db.GetTasks("all");
      FiltersPartition(db.tasks, Sql);
    }

    /** Adds the member to the store, then appends it, with the key the store
      chose, to the mirror. */
    method AddMember(name: string) returns (member: Member)
      requires Valid()
      modifies this, db
      ensures Valid()
      ensures member.name == name && member.id !in MemberIds(old(db.members))
      ensures member.id == old(db.nextMemberId) && db.nextMemberId == member.id + 1
      ensures db.nextTaskId == old(db.nextTaskId)
      ensures members == old(members) + [member] && tasks == old(tasks)
      ensures db.members == old(db.members) + [member] && db.rewards == old(db.rewards)[member.id := 0]
      ensures db.tasks == old(db.tasks) && db.credits == old(db.credits)
      ensures old(Consistent()) ==> Consistent()
    {
      var id := db.AddMember(name);
      member := Member(id, name);
      members := members + [member];
    }

    /** Adds the task to the store, then appends it, with the key the store
      chose, to the mirror. */
    method AddTask(title: string, description: string, points: int) returns (task: Task)
      requires Valid()
      modifies this, db
      ensures Valid()
      ensures task == NewTask(task.id, title, description, points) && task.id !in TaskIds(old(db.tasks))
      ensures task.id == old(db.nextTaskId) && db.nextTaskId == task.id + 1
      ensures db.nextMemberId == old(db.nextMemberId)
      ensures tasks == old(tasks) + [task] && members == old(members)
      ensures db.tasks == old(db.tasks) + [task]
      ensures db.members == old(db.members) && db.rewards == old(db.rewards) && db.credits == old(db.credits)
      ensures old(Consistent()) ==> Consistent()
    {
      var id := db.AddTask(title, description, points);
      task := NewTask(id, title, description, points);
      tasks := tasks + [task];
      DecodeAppend(old(db.tasks), [task]);
    }

    /** Writes the assignment to the store, then to the first mirror task with
      that key, if any. */
    method AssignTask(taskId: int, memberId: int, deadline: string)
      requires Valid()
      modifies this, db
      ensures Valid()
      ensures db.tasks == Updated(old(db.tasks), taskId, AssignTo(memberId, deadline))
      ensures tasks == UpdateFirst(old(tasks), taskId, AssignTo(memberId, deadline))
      ensures members == old(members) && db.members == old(db.members) && db.rewards == old(db.rewards)
      ensures db.credits == old(db.credits)
      ensures db.nextMemberId == old(db.nextMemberId) && db.nextTaskId == old(db.nextTaskId)
      ensures old(Consistent()) && memberId != 0 && deadline != "" ==> Consistent()
    {
      db.AssignTask(taskId, memberId, deadline);
      var k := FirstIndex(TaskIds(tasks), taskId);
      if k.Some? {
        tasks := tasks[k.value := Apply(tasks[k.value], AssignTo(memberId, deadline))];
      }
      UpdatedIsUpdateFirst(old(db.tasks), taskId, AssignTo(memberId, deadline));
      if memberId != 0 && deadline != "" {
        DecodeUpdateFirst(old(db.tasks), taskId, AssignTo(memberId, deadline));
      }
    }

    /** Removes the member from the store; on success drops it from the mirror
      and orphans the mirror tasks assigned to it. */
    method RemoveMember(memberId: int) returns (ok: bool)
      requires Valid()
      modifies this, db
      ensures Valid()
      ensures ok == (memberId in MemberIds(old(db.members)))
      ensures members == (if ok then WithoutMember(old(members), memberId) else old(members))
      ensures tasks == (if ok then Orphaned(old(tasks), memberId) else old(tasks))
      ensures db.members == (if ok then WithoutMember(old(db.members), memberId) else old(db.members))
      ensures db.tasks == (if ok then Orphaned(old(db.tasks), memberId) else old(db.tasks))
      ensures db.rewards == old(db.rewards) - {memberId}
      ensures db.credits == old(db.credits)
      ensures db.nextMemberId == old(db.nextMemberId) && db.nextTaskId == old(db.nextTaskId)
      ensures old(Consistent()) ==> Consistent()
    {
      ok := db.RemoveMember(memberId);
      if ok {
        members := WithoutMember(members, memberId);
        // the mirror's task records are changed one by one
        var updated := tasks;
        var i := 0;
        while i < |updated|
          invariant 0 <= i <= |updated| == |tasks|
          invariant forall k :: 0 <= k < i ==> updated[k] == Orphan(tasks[k], memberId)
          invariant forall k :: i <= k < |updated| ==> updated[k] == tasks[k]
        {
          if updated[i].assignedTo == Some(memberId) {
            updated := updated[i := updated[i].(assignedTo := None, deadline := None)];
          }
          i := i + 1;
        }
        tasks := updated;
        DecodeOrphaned(old(db.tasks), memberId);
      }
    }

    /** Removes the task from the store; on success drops it from the mirror. */
    method RemoveTask(taskId: int) returns (ok: bool)
      requires Valid()
      modifies this, db
      ensures Valid()
      ensures ok == (taskId in TaskIds(old(db.tasks)))
      ensures tasks == (if ok then WithoutTask(old(tasks), taskId) else old(tasks))
      ensures db.tasks == (if ok then WithoutTask(old(db.tasks), taskId) else old(db.tasks))
      ensures members == old(members) && db.members == old(db.members) && db.rewards == old(db.rewards)
      ensures db.credits == old(db.credits)
      ensures db.nextMemberId == old(db.nextMemberId) && db.nextTaskId == old(db.nextTaskId)
      ensures old(Consistent()) ==> Consistent()
    {
      ok := db.RemoveTask(taskId);
      if ok {
        tasks := WithoutTask(tasks, taskId);
        DecodeWithoutTask(old(db.tasks), taskId);
      }
    }

    /** Completes the task in the store; only if the store reports success is
      the first mirror task with that key marked completed. */
    method CompleteTask(taskId: int) returns (ok: bool)
      requires Valid()
      modifies this, db
      ensures Valid()
      ensures ok == Store.CanComplete(old(db.tasks), taskId)
      ensures tasks == (if ok then UpdateFirst(old(tasks), taskId, MarkCompleted) else old(tasks))
      ensures db.tasks == (if ok then Updated(old(db.tasks), taskId, MarkCompleted) else old(db.tasks))
      ensures ok ==>
        var row := Lookup(old(db.tasks), taskId).value;
        && db.rewards == CreditRewards(old(db.rewards), row.assignedTo.value, row.points)
        && db.credits == old(db.credits) + (if row.assignedTo.value in old(db.rewards)
                                            then [Credit(taskId, row.assignedTo.value, row.points)] else [])
      ensures !ok ==> db.rewards == old(db.rewards) && db.credits == old(db.credits)
      ensures members == old(members) && db.members == old(db.members)
      ensures db.nextMemberId == old(db.nextMemberId) && db.nextTaskId == old(db.nextTaskId)
      ensures old(Consistent()) ==> Consistent()
    {
      ok := db.CompleteTask(taskId);
      if ok {
        var k := FirstIndex(TaskIds(tasks), taskId);
        if k.Some? {
          tasks := tasks[k.value := Apply(tasks[k.value], MarkCompleted)];
        }
        UpdatedIsUpdateFirst(old(db.tasks), taskId, MarkCompleted);
        DecodeUpdateFirst(old(db.tasks), taskId, MarkCompleted);
      }
    }

    /** Scans the mirror members in order and returns the first with that
      key; None exactly when there is none. */
    method GetMember(memberId: int) returns (r: Option<Member>)
      ensures r.None? <==> forall k :: 0 <= k < |members| ==> members[k].id != memberId
      ensures r.Some? ==> exists k :: 0 <= k < |members| && members[k] == r.value && r.value.id == memberId
                                      && forall j :: 0 <= j < k ==> members[j].id != memberId
    {
      var i := 0;
      while i < |members|
        invariant 0 <= i <= |members|
        invariant forall j :: 0 <= j < i ==> members[j].id != memberId
      {
        if members[i].id == memberId {
          return Some(members[i]);
        }
        i := i + 1;
      }
      return None;
    }

    /** Scans the mirror tasks in order and returns the first with that key;
      None exactly when there is none. This is the task `Lookup` finds. */
    method GetTask(taskId: int) returns (r: Option<Task>)
      ensures r.None? <==> forall k :: 0 <= k < |tasks| ==> tasks[k].id != taskId
      ensures r.Some? ==> exists k :: 0 <= k < |tasks| && tasks[k] == r.value && r.value.id == taskId
                                      && forall j :: 0 <= j < k ==> tasks[j].id != taskId
      ensures r == Lookup(tasks, taskId)
    {
      assert forall k :: 0 <= k < |tasks| ==> TaskIds(tasks)[k] == tasks[k].id;
      var i := 0;
      while i < |tasks|
        invariant 0 <= i <= |tasks|
        invariant forall j :: 0 <= j < i ==> tasks[j].id != taskId
      {
        if tasks[i].id == taskId {
          assert FirstIndex(TaskIds(tasks), taskId) == Some(i);
          return Some(tasks[i]);
        }
        i := i + 1;
      }
      return None;
    }

    /** Mirror tasks with no (truthy) assignee and not completed, in order. */
    function GetAvailableTasks(): (r: seq<Task>)
      reads this
      ensures r == Filtered(tasks, Available, Python)
      ensures forall t :: t in r <==> t in tasks && !HasAssignee(t.assignedTo) && !t.completed
    {
      Filtered(tasks, Available, Python)
    }

    /** Mirror tasks with a (truthy) assignee and not completed, in order. */
    function GetAssignedTasks(): (r: seq<Task>)
      reads this
      ensures r == Filtered(tasks, Assigned, Python)
      ensures forall t :: t in r <==> t in tasks && HasAssignee(t.assignedTo) && !t.completed
    {
      Filtered(tasks, Assigned, Python)
    }

    /** Completed mirror tasks, in order. */
    function GetCompletedTasks(): (r: seq<Task>)
      reads this
      ensures r == Filtered(tasks, Completed, Python)
      ensures forall t :: t in r <==> t in tasks && t.completed
    {
      Filtered(tasks, Completed, Python)
    }
  }
}
