# Family task manager: the store and the manager, in Dafny

The family task manager keeps household chores and who did them. It has two layers:

- The persistent **store** (`Database`, database.py) holds three tables:
  - `members`, keyed by an AUTOINCREMENT `member_id`;
  - `tasks`, with an AUTOINCREMENT `task_id`, title, description, points, an optional assignee, an optional deadline and a completed flag;
  - `rewards`, one points row per member.
- The **manager** (`FamilyTaskManager`, manager.py) keeps an in-memory mirror of the members and tasks. It writes every change through to the store and then patches its lists in place.

The model has five modules:

- `Models` (models.dfy): the records (`Member`, `Task`, `Standing`), the two in-place task changes (`Update`) and the task filters (`Filter`). It models Python truthiness of the assignee and deadline fields explicitly. It distinguishes the store's SQL `IS NULL` test from the manager's `not task.assigned_to` test (`Dialect`).
- `Rows` (rows.dfy): pure functions over row sequences, with their lemmas:
  - the `WHERE` filters, the `UPDATE ... WHERE task_id = ?` statement and deletion;
  - the manager's first-match search and comprehensions;
  - the conversion `get_tasks` applies to each row it reads back (`FromRow`, `Decode`).
- `Rewards` (rewards.dfy): crediting a reward row and the ledger sums behind the reward-total property. Also the `get_rewards` join and its `ORDER BY points DESC`.
- `Store` (database.dfy): the class `Database`. Its tables are `seq`/`map` fields and it has two AUTOINCREMENT counters. A ghost ledger `credits` records every completion that reached a reward row.
  - `Valid()` keeps the following:
    - keys are ascending and below their counter;
    - reward rows exist for exactly the members;
    - each reward row equals what the ledger credited that member.
  - Every operation is proved against the pure functions of `Rows` and `Rewards`.
- `Manager` (manager.dfy): the class `FamilyTaskManager`.
  - Its mirror fields `members` and `tasks` are reassigned by its methods.
  - `Consistent()` states that the mirror equals what `load_data` would read back from the store.
  - Each operation states its effect on both the store and the mirror, and proves that it preserves `Consistent()` (for `AssignTask`, under the condition listed below).
- `Scenarios` (scenarios.dfy): concrete runs that pin down the re-completion and removal behaviour.

Two behaviours are modelled exactly as the code has them:

- `complete_task` never looks at the completed flag. Completing a task a second time passes the guard and credits its points again (`Store.RecompletionPassesGuard`, `Scenarios.CompletingTwiceCreditsTwice`). `Store.Database.CompleteTaskOnce` is a guarded variant, shown for contrast. It is not part of the source; apart from `Scenarios.CompletingTwiceGuarded`, no member uses it.
- `database.py` defines no `remove_member` or `remove_task`, yet manager.py:32 and manager.py:42 call them. `Store.Database.RemoveMember` and `Store.Database.RemoveTask` model what the manager relies on: a boolean result and, on success, deletion of the rows.
  - Removing a member also deletes its reward row and orphans its tasks, as the manager does to its mirror.
  - Once a member is gone, a completed task can be left without an assignee (`Scenarios.RemovingMemberOrphansTasks`). So "a completed task has an assignee" is not an invariant of this system.

## Model

| member | source | states |
|---|---|---|
| Store.Database.constructor | database.py:7-9 | A new database file has empty tables and both AUTOINCREMENT counters at 1, and satisfies the table invariant. |
| Store.Database.AddMember | database.py:48-54 | Returns a key no existing member has, then advances the counter. Appends exactly one member row and adds one reward row with 0 points for that key. Tasks and the ledger are unchanged. |
| Store.Database.GetMembers | database.py:56-59 | Returns the member rows in insertion order: keys strictly increasing, each with a reward row. |
| Store.Database.AddTask | database.py:62-69 | Returns a fresh key. Appends one task row with the given title, description and points, no assignee, no deadline and not completed. Members and rewards are unchanged. |
| Store.Database.GetTasks | database.py:71-93 | The loop returns the rows the filter name selects under SQL semantics, each read back through the truthiness conversion, in table order. |
| Store.Database.AssignTask | database.py:95-102 | Sets assignee and deadline on the row with that key whatever its state, completed or not. Every other row is unchanged, and an unknown key changes nothing. |
| Store.Database.CompleteTask | database.py:104-127 | Returns true exactly when the task exists and has a truthy assignee. Otherwise nothing changes. On success, the row becomes completed and only the assignee's reward row grows, by the task's points. The ledger gains that credit only if the reward row exists. |
| Store.Database.CompleteTaskOnce | database.py:108-124 | Guarded variant: it also refuses an already completed task. Otherwise it has the same effect as CompleteTask on the tables, the ledger and the counters. |
| Store.Database.Settle | database.py:116-124 | Helper of CompleteTask for its two UPDATEs: marks the task completed, credits the points through CreditRewards and appends the credit to the ledger only if the member has a reward row, keeping the table invariant. |
| Store.Database.RemoveMember | manager.py:31-39 | Succeeds exactly when a member has that key. On success: drops that member's rows, keeps the others in order, orphans exactly the tasks assigned to it, and deletes its reward row. On failure nothing changes. |
| Store.Database.RemoveTask | manager.py:41-45 | Succeeds exactly when a task has that key. On success it drops that task's rows and keeps the rest in order. Members and rewards are unchanged. |
| Store.Database.GetRewards | database.py:129-137 | One line per member with that member's name and reward points, in non-increasing order of points. Every line comes from a member and its reward row. |
| Store.RecompletionPassesGuard | database.py:108-124 | After a task is completed, the completion guard still passes with the same assignee and points, so a second call credits again. The guarded variant refuses it. |
| Store.RewardsBalance | database.py:117-124 | Suppose every ledger credit went to a member who is still present. Then the members' reward points sum to the points of all successful completions, re-completions included. |
| Rewards.CreditRewards | database.py:120-124 | The reward update changes only the row of the named member, adding the points. It adds no row, so an assignee without a reward row is credited nothing. |
| Rewards.RewardTotal | database.py:114-127 | If each reward row holds what the ledger credited that member, and every credit names a current member, then the reward total equals the credited points. |
| Rewards.Joined | database.py:131-134 | Each join line pairs a member with its own reward row. Every member with a reward row appears in the join. |
| Rewards.JoinedLength | database.py:131-134 | When every member has a reward row, the join has exactly one line per member. |
| Rewards.SortByPoints | database.py:135 | The result is in non-increasing order of points and is a permutation of the input. |
| Rewards.Leaderboard | database.py:131-137 | The sorted join has non-increasing points and is a permutation of the join. |
| Rows.FiltersPartition | database.py:74-81 | Under either semantics, "available", "assigned" and "completed" are pairwise disjoint, cover every task, and their sizes add up to the table. "all" is the table itself. |
| Rows.FiltersAgree | manager.py:67-74 | The manager's truthiness filters over the tasks it read back give the same list as the store's SQL filters, provided no row names assignee 0. |
| Rows.FirstIndex | manager.py:61-65 | The linear search finds the first position holding the key, and returns None exactly when no position holds it. |
| Rows.FirstIndexIsOnly | manager.py:61-65 | With AUTOINCREMENT keys, the first match is the only match. |
| Rows.Updated | database.py:97-101 | The UPDATE keeps every key. It changes every row with the key and no other row. |
| Rows.UpdatedIsUpdateFirst | manager.py:25-29 | With unique keys, the store's update of all matching rows and the manager's update of the first match coincide. |
| Rows.Orphaned | manager.py:35-38 | Exactly the tasks assigned to the member lose their assignee and deadline. All other tasks and all keys are unchanged. |
| Rows.WithoutMemberKeys | manager.py:34 | Filtering out a member keeps the remaining keys ascending, and removes exactly that key. |
| Rows.WithoutTaskKeys | manager.py:44 | Filtering out a task keeps the remaining keys ascending, and removes exactly that key. |
| Rows.DecodeKeepsIds | database.py:84-92 | Reading rows back loses no row and changes no key. |
| Rows.DecodeAppend | database.py:84-92 | Reading rows back distributes over concatenation, so an appended row reads back as an appended record. |
| Rows.DecodeUpdateFirst | manager.py:25-29 | A first-match update commutes with reading back, as long as it writes no falsy assignee or deadline. |
| Rows.DecodeOrphaned | manager.py:31-39 | Orphaning commutes with reading back, for a nonzero member key. |
| Rows.DecodeWithoutTask | manager.py:41-45 | Deleting a task commutes with reading back. |
| Manager.FamilyTaskManager.constructor | manager.py:5-7 | Opens a fresh store and loads it. The mirror is empty and consistent with the store. |
| Manager.FamilyTaskManager.LoadData | manager.py:9-11 | Afterwards the mirror equals the store's members and its tasks read back under filter "all". |
| Manager.FamilyTaskManager.AddMember | manager.py:13-17 | Appends exactly one member, carrying the key the store returned, to the end of the store and of the mirror. Tasks and the ledger are unchanged and consistency is preserved. |
| Manager.FamilyTaskManager.AddTask | manager.py:19-23 | Appends exactly one fresh task, carrying the store's key, to the end of the store and of the mirror. Members, rewards and the ledger are unchanged and consistency is preserved. |
| Manager.FamilyTaskManager.AssignTask | manager.py:25-29 | The store updates the row. The mirror updates only its first task with that key, or nothing if there is none. Members, rewards, the ledger and both counters are unchanged. Consistency is preserved for a nonzero member and a nonempty deadline. |
| Manager.FamilyTaskManager.RemoveMember | manager.py:31-39 | Returns the store's result. On success, the mirror drops that member and orphans exactly its tasks, completed ones included. On failure nothing changes. The ledger and both counters are unchanged. Consistency is preserved. |
| Manager.FamilyTaskManager.RemoveTask | manager.py:41-45 | Returns the store's result. On success, the mirror drops that task and keeps the rest in order. Members, rewards, the ledger and both counters are unchanged. Consistency is preserved. |
| Manager.FamilyTaskManager.CompleteTask | manager.py:47-53 | Returns the store's result unchanged. Only on success does the first mirror task with that key become completed. The store's effect on the tables, the ledger and the counters is that of Store.Database.CompleteTask. Consistency is preserved. |
| Manager.FamilyTaskManager.GetMember | manager.py:55-59 | The loop returns the first member with that key, and returns None exactly when no member has it. |
| Manager.FamilyTaskManager.GetTask | manager.py:61-65 | The loop returns the first task with that key, and returns None exactly when no task has it. |
| Manager.FamilyTaskManager.GetAvailableTasks | manager.py:67-68 | An in-order sublist of the mirror: exactly the tasks with no truthy assignee that are not completed. |
| Manager.FamilyTaskManager.GetAssignedTasks | manager.py:70-71 | An in-order sublist of the mirror: exactly the tasks with a truthy assignee that are not completed. |
| Manager.FamilyTaskManager.GetCompletedTasks | manager.py:73-74 | An in-order sublist of the mirror: exactly the completed tasks. |
| Scenarios.CompletingTwiceCreditsTwice | database.py:104-127 | One member completes one ten-point task twice. Both calls succeed and the member ends with 20 points. |
| Scenarios.CompletingTwiceGuarded | database.py:104-127 | With the guarded variant the second call is refused and the member ends with 10 points. |
| Scenarios.RemovingMemberOrphansTasks | manager.py:31-39 | Removing the assignee of a completed task leaves that task completed, with no assignee and no deadline, and removes the member's reward row. |

## Left out

- SQLite plumbing is not modelled: the connection, cursors, `commit`, `close` and the `CREATE TABLE` statements. The tables are abstract state.
- The constructor models a new database file. Opening an existing file, with tables and counters already populated, is not modelled.
- Foreign-key clauses of the schema are not modelled. SQLite does not enforce them by default, and no code relies on them.
- `FamilyTaskManager.get_rewards` and `close` only delegate to the store and are not modelled separately.
- Python object identity is not modelled. The manager's `get_task` returns the very list element that `task.assign` and `task.mark_completed` then change. The model writes the change back at the first matching position, which is the same effect.
- Store.Database.GetRewards: the order among members with equal points is left unspecified, since SQLite does not fix it. Only non-increasing points and the set of lines are stated.
- Store.Database.GetTasks: the order of an unordered `SELECT` is taken to be insertion order.
- Manager.FamilyTaskManager.AssignTask: consistency with the store is proved only for a nonzero member and a nonempty deadline. For member 0 or deadline "", a reload reads the field back as None while the mirror keeps the written value.
- Store.Database.CompleteTask: a completion whose assignee has no reward row returns true and credits nobody. The reward-total property therefore counts only completions that reached a reward row, which is what the `credits` ledger records.
- Store.RewardsBalance: removing a member deletes its reward row while its credits stay in the ledger. The balance is therefore stated only while every credited member is still present.
- Store.Database.RemoveMember, Store.Database.RemoveTask: `database.py` does not define them. They model the behaviour the manager expects of them.
- Names, titles, descriptions, deadlines and points are not validated, because database.py and manager.py perform no such checks. Deadlines are opaque strings.
- The user interface (ui.py) and application start-up (main.py) are not part of this model.
