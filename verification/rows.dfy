/** Pure functions over sequences of member and task rows: what the store's
    SQL statements select and update, and what the manager's comprehensions
    and lookups compute on its lists. */
module Rows {
  import opened Models

  function MemberIds(s: seq<Member>): seq<int> {
    seq(|s|, k requires 0 <= k < |s| => s[k].id)
  }

  function TaskIds(s: seq<Task>): seq<int> {
    seq(|s|, k requires 0 <= k < |s| => s[k].id)
  }

  /** Keys handed out by AUTOINCREMENT: strictly increasing in insertion order. */
  ghost predicate Ascending(ids: seq<int>) {
    forall i, j :: 0 <= i < j < |ids| ==> ids[i] < ids[j]
  }

  lemma AscendingAppend(ids: seq<int>, x: int)
    requires Ascending(ids)
    requires forall m :: m in ids ==> m < x
    ensures Ascending(ids + [x])
  {
    forall i, j | 0 <= i < j < |ids + [x]| ensures (ids + [x])[i] < (ids + [x])[j] {
      assert (ids + [x])[i] == ids[i];
      if j == |ids| {
        assert ids[i] in ids;
      }
    }
  }

  lemma BelowLast(init: seq<int>, x: int)
    requires Ascending(init + [x])
    ensures Ascending(init)
    ensures forall m :: m in init ==> m < x
  {
    forall m | m in init ensures m < x {
      var i :| 0 <= i < |init| && init[i] == m;
      assert (init + [x])[i] == m && (init + [x])[|init|] == x;
    }
    forall i, j | 0 <= i < j < |init| ensures init[i] < init[j] {
      assert (init + [x])[i] == init[i] && (init + [x])[j] == init[j];
    }
  }

  /** Linear search: the position of the first `id` in `ids`, None if absent. */
  function FirstIndex(ids: seq<int>, id: int): (r: Option<nat>)
    ensures r.None? <==> forall j :: 0 <= j < |ids| ==> ids[j] != id
    ensures r.Some? ==> r.value < |ids| && ids[r.value] == id
    ensures r.Some? ==> forall j :: 0 <= j < r.value ==> ids[j] != id
  {
    if ids == [] then None
    else if ids[0] == id then Some(0)
    else match FirstIndex(ids[1..], id)
      case None => None
      case Some(k) => Some(k + 1)
  }

  /** In an ascending key column the first match is the only match. */
  lemma FirstIndexIsOnly(ids: seq<int>, id: int)
    requires Ascending(ids)
    ensures FirstIndex(ids, id).Some? ==>
      forall j :: 0 <= j < |ids| && j != FirstIndex(ids, id).value ==> ids[j] != id
  {
  }

  /** The first task whose id is `id`. */
  function Lookup(s: seq<Task>, id: int): Option<Task> {
    match FirstIndex(TaskIds(s), id)
    case None => None
    case Some(k) => Some(s[k])
  }

  /** The elements of `s` that satisfy `keep`, in their original order. */
  function KeepIf<T(!new)>(s: seq<T>, keep: T -> bool): (r: seq<T>)
    ensures |r| <= |s|
    ensures forall x :: x in r <==> x in s && keep(x)
  {
    if s == [] then []
    else
      var init := KeepIf(s[..|s| - 1], keep);
      assert s == s[..|s| - 1] + [s[|s| - 1]];
      if keep(s[|s| - 1]) then init + [s[|s| - 1]] else init
  }

  /** Filtering a concatenation filters each part: KeepIf preserves order. */
  lemma {:induction false} KeepIfAppend<T(!new)>(a: seq<T>, b: seq<T>, keep: T -> bool)
    ensures KeepIf(a + b, keep) == KeepIf(a, keep) + KeepIf(b, keep)
  {
    if b == [] {
      assert a + b == a;
    } else {
      var init := b[..|b| - 1];
      KeepIfAppend(a, init, keep);
      assert (a + b)[..|a + b| - 1] == a + init;
      assert (a + b)[|a + b| - 1] == b[|b| - 1];
    }
  }

  /** The task filters: `Sql` for the WHERE clauses of `get_tasks`, `Python`
      for the manager's comprehensions. */
  function Filtered(s: seq<Task>, f: Filter, d: Dialect): seq<Task> {
    KeepIf(s, Matching(f, d))
  }

  function Matching(f: Filter, d: Dialect): Task -> bool {
    (t: Task) => Matches(f, t, d)
  }

  /** Available, assigned and completed split every task list: each task
      lands in exactly one of the three, so their sizes add up to the whole. */
  lemma {:induction false} FiltersPartition(s: seq<Task>, d: Dialect)
    ensures |Filtered(s, Available, d)| + |Filtered(s, Assigned, d)| + |Filtered(s, Completed, d)| == |s|
    ensures Filtered(s, All, d) == s
    ensures forall t :: t in s ==>
      (t in Filtered(s, Available, d) || t in Filtered(s, Assigned, d) || t in Filtered(s, Completed, d))
    ensures forall t :: !(t in Filtered(s, Available, d) && t in Filtered(s, Assigned, d))
    ensures forall t :: !(t in Filtered(s, Available, d) && t in Filtered(s, Completed, d))
    ensures forall t :: !(t in Filtered(s, Assigned, d) && t in Filtered(s, Completed, d))
  {
    if s != [] {
      FiltersPartition(s[..|s| - 1], d);
    }
  }

  /** `[t for t in tasks if t.task_id != id]`, and `DELETE FROM tasks WHERE task_id = id`. */
  function WithoutTask(s: seq<Task>, id: int): seq<Task> {
    KeepIf(s, TaskIdIsNot(id))
  }

  function TaskIdIsNot(id: int): Task -> bool {
    (t: Task) => t.id != id
  }

  /** `[m for m in members if m.member_id != id]`, and the matching DELETE. */
  function WithoutMember(s: seq<Member>, id: int): seq<Member> {
    KeepIf(s, MemberIdIsNot(id))
  }

  function MemberIdIsNot(id: int): Member -> bool {
    (m: Member) => m.id != id
  }

  /** Deleting members keeps the remaining keys ascending and removes
      exactly the deleted key. */
  lemma {:induction false} WithoutMemberKeys(s: seq<Member>, id: int)
    requires Ascending(MemberIds(s))
    ensures Ascending(MemberIds(WithoutMember(s, id)))
    ensures forall m :: m in MemberIds(WithoutMember(s, id)) <==> m in MemberIds(s) && m != id
  {
    if s != [] {
      var n := |s|;
      var init, last := s[..n - 1], s[n - 1];
      assert MemberIds(init) == MemberIds(s)[..n - 1];
      assert MemberIds(s) == MemberIds(init) + [last.id];
      WithoutMemberKeys(init, id);
      var kept := WithoutMember(init, id);
      BelowLast(MemberIds(init), last.id);
      if last.id != id {
        assert WithoutMember(s, id) == kept + [last];
        assert MemberIds(kept + [last]) == MemberIds(kept) + [last.id];
        AscendingAppend(MemberIds(kept), last.id);
      } else {
        assert WithoutMember(s, id) == kept;
      }
    }
  }

  /** Deleting tasks keeps the remaining keys ascending and removes exactly
      the deleted key. */
  lemma {:induction false} WithoutTaskKeys(s: seq<Task>, id: int)
    requires Ascending(TaskIds(s))
    ensures Ascending(TaskIds(WithoutTask(s, id)))
    ensures forall t :: t in TaskIds(WithoutTask(s, id)) <==> t in TaskIds(s) && t != id
  {
    if s != [] {
      var n := |s|;
      var init, last := s[..n - 1], s[n - 1];
      assert TaskIds(init) == TaskIds(s)[..n - 1];
      assert TaskIds(s) == TaskIds(init) + [last.id];
      WithoutTaskKeys(init, id);
      var kept := WithoutTask(init, id);
      BelowLast(TaskIds(init), last.id);
      if last.id != id {
        assert WithoutTask(s, id) == kept + [last];
        assert TaskIds(kept + [last]) == TaskIds(kept) + [last.id];
        AscendingAppend(TaskIds(kept), last.id);
      } else {
        assert WithoutTask(s, id) == kept;
      }
    }
  }

  /** `UPDATE tasks SET ... WHERE task_id = id`: every row with that id changes. */
  function Updated(rows: seq<Task>, id: int, u: Update): (r: seq<Task>)
    ensures TaskIds(r) == TaskIds(rows)
    ensures forall k :: 0 <= k < |rows| && rows[k].id != id ==> r[k] == rows[k]
    ensures forall k :: 0 <= k < |rows| && rows[k].id == id ==> r[k] == Apply(rows[k], u)
  {
    seq(|rows|, k requires 0 <= k < |rows| => if rows[k].id == id then Apply(rows[k], u) else rows[k])
  }

  /** `get_task(id)` followed by an in-place change: only the first match changes. */
  function UpdateFirst(s: seq<Task>, id: int, u: Update): seq<Task> {
    match FirstIndex(TaskIds(s), id)
    case None => s
    case Some(k) => s[k := Apply(s[k], u)]
  }

  /** With unique keys, updating every row with the id and updating the first
      one are the same thing. */
  lemma UpdatedIsUpdateFirst(rows: seq<Task>, id: int, u: Update)
    requires Ascending(TaskIds(rows))
    ensures Updated(rows, id, u) == UpdateFirst(rows, id, u)
  {
    FirstIndexIsOnly(TaskIds(rows), id);
    match FirstIndex(TaskIds(rows), id)
    case None =>
      assert forall k :: 0 <= k < |rows| ==> rows[k].id == TaskIds(rows)[k];
    case Some(i) =>
      var r := rows[i := Apply(rows[i], u)];
      assert forall k :: 0 <= k < |rows| ==> rows[k].id == TaskIds(rows)[k];
      assert forall k :: 0 <= k < |rows| ==> Updated(rows, id, u)[k] == r[k];
  }

  function Orphan(t: Task, member: int): Task {
    if t.assignedTo == Some(member) then t.(assignedTo := None, deadline := None) else t
  }

  /** Every task assigned to `member` loses its assignee and deadline. */
  function Orphaned(s: seq<Task>, member: int): (r: seq<Task>)
    ensures TaskIds(r) == TaskIds(s)
    ensures forall k :: 0 <= k < |r| ==> r[k].assignedTo != Some(member)
    ensures forall k :: 0 <= k < |s| && s[k].assignedTo != Some(member) ==> r[k] == s[k]
    ensures forall k :: 0 <= k < |s| && s[k].assignedTo == Some(member) ==>
      r[k] == s[k].(assignedTo := None, deadline := None)
  {
    seq(|s|, k requires 0 <= k < |s| => Orphan(s[k], member))
  }

  /** How `get_tasks` turns a row into a `Task`: a falsy `assigned_to` or
      `deadline` column is read back as None. */
  function FromRow(row: Task): Task {
    row.(assignedTo := if HasAssignee(row.assignedTo) then row.assignedTo else None,
         deadline := if HasDeadline(row.deadline) then row.deadline else None)
  }

  function Decode(rows: seq<Task>): seq<Task> {
    seq(|rows|, k requires 0 <= k < |rows| => FromRow(rows[k]))
  }

  /** An update survives a reload unchanged unless it writes a falsy value. */
  predicate SurvivesReload(u: Update) {
    u.AssignTo? ==> u.member != 0 && u.deadline != ""
  }

  /** Decoding loses no key and changes no key. */
  lemma DecodeKeepsIds(rows: seq<Task>)
    ensures |Decode(rows)| == |rows|
    ensures TaskIds(Decode(rows)) == TaskIds(rows)
  {
  }

  lemma DecodeAppend(a: seq<Task>, b: seq<Task>)
    ensures Decode(a + b) == Decode(a) + Decode(b)
  {
  }

  /** Reading the table after a first-match update gives the earlier reading
      with the same update applied, for updates that survive a reload. */
  lemma DecodeUpdateFirst(rows: seq<Task>, id: int, u: Update)
    requires SurvivesReload(u)
    ensures Decode(UpdateFirst(rows, id, u)) == UpdateFirst(Decode(rows), id, u)
  {
    DecodeKeepsIds(rows);
  }

  /** Reading the table after orphaning gives the earlier reading orphaned. */
  lemma DecodeOrphaned(rows: seq<Task>, member: int)
    requires member != 0
    ensures Decode(Orphaned(rows, member)) == Orphaned(Decode(rows), member)
  {
  }

  /** Reading the table after a delete gives the earlier reading with the
      same tasks left out. */
  lemma {:induction false} DecodeWithoutTask(rows: seq<Task>, id: int)
    ensures Decode(WithoutTask(rows, id)) == WithoutTask(Decode(rows), id)
  {
    if rows != [] {
      var n := |rows|;
      var init := rows[..n - 1];
      DecodeWithoutTask(init, id);
      assert rows == init + [rows[n - 1]];
      DecodeAppend(init, [rows[n - 1]]);
      KeepIfAppend(init, [rows[n - 1]], TaskIdIsNot(id));
      KeepIfAppend(Decode(init), Decode([rows[n - 1]]), TaskIdIsNot(id));
      DecodeAppend(WithoutTask(init, id), WithoutTask([rows[n - 1]], id));
    }
  }

  /** The manager's filters over the tasks it read agree with the store's
      WHERE clauses, as long as no row names member 0 (which SQL counts as
      assigned and Python as unassigned). */
  lemma {:induction false} FiltersAgree(rows: seq<Task>, f: Filter)
    requires forall k :: 0 <= k < |rows| ==> rows[k].assignedTo != Some(0)
    ensures Filtered(Decode(rows), f, Python) == Decode(Filtered(rows, f, Sql))
  {
    if rows != [] {
      var n := |rows|;
      var init, last := rows[..n - 1], rows[n - 1];
      FiltersAgree(init, f);
      assert Decode(rows)[..n - 1] == Decode(init);
      assert Matches(f, FromRow(last), Python) == Matches(f, last, Sql);
      DecodeAppend(Filtered(init, f, Sql), [last]);
    }
  }
}
