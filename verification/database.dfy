/** The persistent store: the `members`, `tasks` and `rewards` tables held as
    abstract state, with the AUTOINCREMENT counters of the two keyed tables. */
module Store {
  import opened Models
  import opened Rows
  import opened Rewards

  /** The guard of `complete_task` as written: the task exists and has a
      (truthy) assignee. The `completed` flag is not looked at. */
  predicate CanComplete(rows: seq<Task>, id: int) {
    Lookup(rows, id).Some? && HasAssignee(Lookup(rows, id).value.assignedTo)
  }

  /** The guarded variant also refuses a task that is already completed. */
  predicate CanCompleteOnce(rows: seq<Task>, id: int) {
    CanComplete(rows, id) && !Lookup(rows, id).value.completed
  }

  /** Completing a task leaves the as-written guard open, with the same
      assignee and points, so a second call credits the points again; the
      guarded variant refuses the second call. */
  lemma RecompletionPassesGuard(rows: seq<Task>, id: int)
    requires CanComplete(rows, id)
    ensures CanComplete(Updated(rows, id, MarkCompleted), id)
    ensures Lookup(Updated(rows, id, MarkCompleted), id).value.assignedTo == Lookup(rows, id).value.assignedTo
    ensures Lookup(Updated(rows, id, MarkCompleted), id).value.points == Lookup(rows, id).value.points
    ensures !CanCompleteOnce(Updated(rows, id, MarkCompleted), id)
  {
    var after := Updated(rows, id, MarkCompleted);
    assert TaskIds(after) == TaskIds(rows);
    var k := FirstIndex(TaskIds(rows), id).value;
    assert rows[k].id == TaskIds(rows)[k];
    assert after[k] == Apply(rows[k], MarkCompleted);
  }

  class Database {
    var members: seq<Member>
    var tasks: seq<Task>
    var rewards: map<int, int>
    /** The next key AUTOINCREMENT hands out in `members` and in `tasks`. */
    var nextMemberId: int
    var nextTaskId: int
    /** Every completion so far whose assignee had a reward row. */
    ghost var credits: seq<Credit>

    ghost predicate Valid()
      reads this
    {
      && 1 <= nextMemberId && 1 <= nextTaskId
      && Ascending(MemberIds(members)) && Ascending(TaskIds(tasks))
      && (forall m :: m in MemberIds(members) ==> 1 <= m < nextMemberId)
      && (forall t :: t in TaskIds(tasks) ==> 1 <= t < nextTaskId)
      // a member exists if and only if its reward row does
      && (forall m :: m in rewards <==> m in MemberIds(members))
      // each reward row holds exactly what completions credited that member
      && (forall m :: m in rewards ==> rewards[m] == Earned(credits, m))
      && (forall k :: 0 <= k < |credits| ==> credits[k].member < nextMemberId)
    }

    /** A new database file: empty tables, both counters at 1. */
    constructor ()
      ensures Valid()
      ensures members == [] && tasks == [] && rewards == map[] && credits == []
      ensures nextMemberId == 1 && nextTaskId == 1
    {
      members, tasks, rewards := [], [], map[];
      nextMemberId, nextTaskId := 1, 1;
      credits := [];
    }

    /** Inserts a member and its zero-point reward row; returns the new key. */
    method AddMember(name: string) returns (id: int)
      requires Valid()
      modifies this
      ensures Valid()
      ensures id == old(nextMemberId) && nextMemberId == id + 1 && nextTaskId == old(nextTaskId)
      ensures 1 <= id && id !in MemberIds(old(members)) && id !in old(rewards)
      ensures members == old(members) + [Member(id, name)]
      ensures rewards == old(rewards)[id := 0]
      ensures tasks == old(tasks) && credits == old(credits)
    {
      id := nextMemberId;
      assert MemberIds(members + [Member(id, name)]) == MemberIds(members) + [id];
      AscendingAppend(MemberIds(members), id);
      EarnedByStranger(credits, id);
      members := members + [Member(id, name)];
      rewards := rewards[id := 0];
      nextMemberId := nextMemberId + 1;
    }

    /** The member rows, in insertion order. */
    function GetMembers(): (r: seq<Member>)
      reads this
      requires Valid()
      ensures r == members
      ensures forall i, j :: 0 <= i < j < |r| ==> r[i].id < r[j].id
      ensures forall i :: 0 <= i < |r| ==> r[i].id in rewards
    {
      assert forall k :: 0 <= k < |members| ==> members[k].id == MemberIds(members)[k];
      members
    }

    /** Inserts an unassigned, uncompleted task; returns the new key. */
    method AddTask(title: string, description: string, points: int) returns (id: int)
      requires Valid()
      modifies this
      ensures Valid()
      ensures id == old(nextTaskId) && nextTaskId == id + 1 && nextMemberId == old(nextMemberId)
      ensures 1 <= id && id !in TaskIds(old(tasks))
      ensures tasks == old(tasks) + [NewTask(id, title, description, points)]
      ensures members == old(members) && rewards == old(rewards) && credits == old(credits)
    {
      id := nextTaskId;
      assert TaskIds(tasks + [NewTask(id, title, description, points)]) == TaskIds(tasks) + [id];
      AscendingAppend(TaskIds(tasks), id);
      tasks := tasks + [NewTask(id, title, description, points)];
      nextTaskId := nextTaskId + 1;
    }

    /** Selects the rows the filter names and reads each back as a `Task`. */
    method GetTasks(filterType: string) returns (r: seq<Task>)
      requires Valid()
      ensures r == Decode(Filtered(tasks, ParseFilter(filterType), Sql))
    {
      var rows := Filtered(tasks, ParseFilter(filterType), Sql);
      r := [];
      var i := 0;
      while i < |rows|
        invariant 0 <= i <= |rows|
        invariant |r| == i
        invariant forall k :: 0 <= k < i ==> r[k] == FromRow(rows[k])
      {
        r := r + [FromRow(rows[i])];
        i := i + 1;
      }
    }

    /** Overwrites assignee and deadline of the task with that key, whatever
      its state; an unknown key changes nothing. */
    method AssignTask(taskId: int, memberId: int, deadline: string)
      requires Valid()
      modifies this
      ensures Valid()
      ensures tasks == Updated(old(tasks), taskId, AssignTo(memberId, deadline))
      ensures members == old(members) && rewards == old(rewards) && credits == old(credits)
      ensures nextMemberId == old(nextMemberId) && nextTaskId == old(nextTaskId)
    {
      tasks := Updated(tasks, taskId, AssignTo(memberId, deadline));
    }

    /** Marks the task completed and credits its points to the assignee, as
      written: nothing stops a completed task from being credited again, and
      an assignee without a reward row is credited nothing. */
    method CompleteTask(taskId: int) returns (ok: bool)
      requires Valid()
      modifies this
      ensures Valid()
      ensures ok == CanComplete(old(tasks), taskId)
      ensures !ok ==> tasks == old(tasks) && rewards == old(rewards) && credits == old(credits)
      ensures ok ==>
        var row := Lookup(old(tasks), taskId).value;
        && tasks == Updated(old(tasks), taskId, MarkCompleted)
        && rewards == CreditRewards(old(rewards), row.assignedTo.value, row.points)
        && credits == old(credits) + (if row.assignedTo.value in old(rewards)
                                      then [Credit(taskId, row.assignedTo.value, row.points)] else [])
      ensures members == old(members)
      ensures nextMemberId == old(nextMemberId) && nextTaskId == old(nextTaskId)
    {
      var found := Lookup(tasks, taskId);
      if found.None? || !HasAssignee(found.value.assignedTo) {
        return false;
      }
      Settle(taskId, found.value.assignedTo.value, found.value.points);
      ok := true;
    }

    /** Credits `points` of task `taskId` to `member` and marks the task done. */
    method Settle(taskId: int, member: int, points: int)
      requires Valid()
      modifies this
      ensures Valid()
      ensures tasks == Updated(old(tasks), taskId, MarkCompleted)
      ensures rewards == CreditRewards(old(rewards), member, points)
      ensures credits == old(credits) + (if member in old(rewards) then [Credit(taskId, member, points)] else [])
      ensures members == old(members)
      ensures nextMemberId == old(nextMemberId) && nextTaskId == old(nextTaskId)
    {
      tasks := Updated(tasks, taskId, MarkCompleted);
      if member in rewards {
        forall m | m in rewards
          ensures Earned(credits + [Credit(taskId, member, points)], m)
                  == Earned(credits, m) + (if m == member then points else 0)
        {
          EarnedAppend(credits, Credit(taskId, member, points), m);
        }
        credits := credits + [Credit(taskId, member, points)];
      }
      rewards := CreditRewards(rewards, member, points);
    }

    /** The guarded variant of CompleteTask: an already completed task is
      refused, so no task is credited twice. Not part of the source. */
    method CompleteTaskOnce(taskId: int) returns (ok: bool)
      requires Valid()
      modifies this
      ensures Valid()
      ensures ok == CanCompleteOnce(old(tasks), taskId)
      ensures !ok ==> tasks == old(tasks) && rewards == old(rewards) && credits == old(credits)
      ensures ok ==>
        var row := Lookup(old(tasks), taskId).value;
        && tasks == Updated(old(tasks), taskId, MarkCompleted)
        && rewards == CreditRewards(old(rewards), row.assignedTo.value, row.points)
        && credits == old(credits) + (if row.assignedTo.value in old(rewards)
                                      then [Credit(taskId, row.assignedTo.value, row.points)] else [])
      ensures members == old(members)
      ensures nextMemberId == old(nextMemberId) && nextTaskId == old(nextTaskId)
    {
      var found := Lookup(tasks, taskId);
      if found.None? || !HasAssignee(found.value.assignedTo) || found.value.completed {
        return false;
      }
      Settle(taskId, found.value.assignedTo.value, found.value.points);
      ok := true;
    }

    /** Deletes the member and its reward row and orphans its tasks; false
      when no member has that key. database.py defines no such method; this
      is the behaviour manager.py relies on. */
    method RemoveMember(memberId: int) returns (ok: bool)
      requires Valid()
      modifies this
      ensures Valid()
      ensures ok == (memberId in MemberIds(old(members)))
      ensures ok ==> memberId >= 1
      ensures !ok ==> members == old(members) && tasks == old(tasks) && rewards == old(rewards)
      ensures ok ==>
        && members == WithoutMember(old(members), memberId)
        && tasks == Orphaned(old(tasks), memberId)
        && rewards == old(rewards) - {memberId}
      ensures credits == old(credits)
      ensures nextMemberId == old(nextMemberId) && nextTaskId == old(nextTaskId)
    {
      ok := memberId in MemberIds(members);
      if ok {
        WithoutMemberKeys(members, memberId);
        members := WithoutMember(members, memberId);
        tasks := Orphaned(tasks, memberId);
        rewards := rewards - {memberId};
      }
    }

    /** Deletes the task with that key; false when there is none. Earned
      points stay. database.py defines no such method; this is the behaviour
      manager.py relies on. */
    method RemoveTask(taskId: int) returns (ok: bool)
      requires Valid()
      modifies this
      ensures Valid()
      ensures ok == (taskId in TaskIds(old(tasks)))
      ensures tasks == (if ok then WithoutTask(old(tasks), taskId) else old(tasks))
      ensures members == old(members) && rewards == old(rewards) && credits == old(credits)
      ensures nextMemberId == old(nextMemberId) && nextTaskId == old(nextTaskId)
    {
      ok := taskId in TaskIds(tasks);
      if ok {
        WithoutTaskKeys(tasks, taskId);
        tasks := WithoutTask(tasks, taskId);
      }
    }

    /** The leaderboard: one line per member with its reward points, highest
      first. */
    function GetRewards(): (r: seq<Standing>)
      reads this
      requires Valid()
      ensures |r| == |members|
      ensures forall i, j :: 0 <= i < j < |r| ==> r[i].points >= r[j].points
      ensures forall s :: s in r ==> s.memberId in rewards && s.points == rewards[s.memberId]
                                     && Member(s.memberId, s.name) in members
      ensures forall m :: m in members ==> m.id in rewards && Standing(m.id, m.name, rewards[m.id]) in r
    {
      assert forall k :: 0 <= k < |members| ==> members[k].id == MemberIds(members)[k];
      JoinedLength(members, rewards);
      Leaderboard(members, rewards)
    }
  }

  /** The reward table balances: while every completion in the ledger went to
      a member still present, the members' reward points add up to the points
      of all those completions, re-completions included. */
  lemma RewardsBalance(db: Database)
    requires db.Valid()
    requires forall k :: 0 <= k < |db.credits| ==> db.credits[k].member in MemberIds(db.members)
    ensures TotalRewards(db.members, db.rewards) == SumPoints(db.credits)
  {
    RewardTotal(db.members, db.rewards, db.credits);
  }
}
