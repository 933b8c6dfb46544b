/** The `rewards` table: how completions credit it, what it adds up to, and
    the leaderboard read from it. */
module Rewards {
  import opened Models
  import opened Rows

  /** `UPDATE rewards SET points = points + p WHERE member_id = m`: a member
      without a reward row is credited nothing. */
  function CreditRewards(rewards: map<int, int>, member: int, points: int): (r: map<int, int>)
    ensures r.Keys == rewards.Keys
    ensures forall m :: m in r ==> r[m] == rewards[m] + (if m == member then points else 0)
  {
    if member in rewards then rewards[member := rewards[member] + points] else rewards
  }

  /** Points that a ledger of credits has given `member`. */
  function Earned(credits: seq<Credit>, member: int): int {
    if credits == [] then 0
    else
      var last := credits[|credits| - 1];
      Earned(credits[..|credits| - 1], member) + (if last.member == member then last.points else 0)
  }

  lemma EarnedAppend(credits: seq<Credit>, c: Credit, member: int)
    ensures Earned(credits + [c], member) == Earned(credits, member) + (if c.member == member then c.points else 0)
  {
    assert (credits + [c])[..|credits|] == credits;
  }

  /** A member no credit names has earned nothing. */
  lemma {:induction false} EarnedByStranger(credits: seq<Credit>, member: int)
    requires forall k :: 0 <= k < |credits| ==> credits[k].member != member
    ensures Earned(credits, member) == 0
  {
    if credits != [] {
      EarnedByStranger(credits[..|credits| - 1], member);
    }
  }

  /** Total points of all credits. */
  function SumPoints(credits: seq<Credit>): int {
    if credits == [] then 0 else SumPoints(credits[..|credits| - 1]) + credits[|credits| - 1].points
  }

  /** Total of the reward rows of the given members. */
  function TotalRewards(members: seq<Member>, rewards: map<int, int>): int {
    if members == [] then 0
    else
      var last := members[|members| - 1];
      TotalRewards(members[..|members| - 1], rewards) + (if last.id in rewards then rewards[last.id] else 0)
  }

  /** Sum over the members of what the credits gave each of them. */
  function EarnedBy(members: seq<Member>, credits: seq<Credit>): int {
    if members == [] then 0
    else EarnedBy(members[..|members| - 1], credits) + Earned(credits, members[|members| - 1].id)
  }

  /** Sum over the members of `p` for each member whose id is `x`. */
  function Hits(members: seq<Member>, x: int, p: int): int {
    if members == [] then 0
    else Hits(members[..|members| - 1], x, p) + (if members[|members| - 1].id == x then p else 0)
  }

  lemma {:induction false} HitsAbsent(members: seq<Member>, x: int, p: int)
    requires x !in MemberIds(members)
    ensures Hits(members, x, p) == 0
  {
    if members != [] {
      var init := members[..|members| - 1];
      assert MemberIds(init) == MemberIds(members)[..|members| - 1];
      HitsAbsent(init, x, p);
      assert members[|members| - 1].id == MemberIds(members)[|members| - 1];
    }
  }

  /** With unique ids, a present id is hit exactly once. */
  lemma {:induction false} HitsOnce(members: seq<Member>, x: int, p: int)
    requires Ascending(MemberIds(members))
    requires x in MemberIds(members)
    ensures Hits(members, x, p) == p
  {
    var n := |members|;
    var init := members[..n - 1];
    assert MemberIds(init) == MemberIds(members)[..n - 1];
    assert members[n - 1].id == MemberIds(members)[n - 1];
    if members[n - 1].id == x {
      assert x !in MemberIds(init);
      HitsAbsent(init, x, p);
    } else {
      HitsOnce(init, x, p);
    }
  }

  lemma {:induction false} EarnedByAppend(members: seq<Member>, credits: seq<Credit>, c: Credit)
    ensures EarnedBy(members, credits + [c]) == EarnedBy(members, credits) + Hits(members, c.member, c.points)
  {
    if members != [] {
      EarnedByAppend(members[..|members| - 1], credits, c);
      EarnedAppend(credits, c, members[|members| - 1].id);
    }
  }

  /** When every credit went to one of the members, the members' earnings add
      up to all the points credited. */
  lemma {:induction false} EarnedByAll(members: seq<Member>, credits: seq<Credit>)
    requires Ascending(MemberIds(members))
    requires forall k :: 0 <= k < |credits| ==> credits[k].member in MemberIds(members)
    ensures EarnedBy(members, credits) == SumPoints(credits)
  {
    if credits == [] {
      EarnedByNone(members);
    } else {
      var init := credits[..|credits| - 1];
      var c := credits[|credits| - 1];
      assert credits == init + [c];
      EarnedByAll(members, init);
      EarnedByAppend(members, init, c);
      HitsOnce(members, c.member, c.points);
    }
  }

  lemma {:induction false} EarnedByNone(members: seq<Member>)
    ensures EarnedBy(members, []) == 0
  {
    if members != [] {
      EarnedByNone(members[..|members| - 1]);
    }
  }

  lemma {:induction false} TotalIsEarnedBy(members: seq<Member>, rewards: map<int, int>, credits: seq<Credit>)
    requires forall k :: 0 <= k < |members| ==> members[k].id in rewards
    requires forall m :: m in rewards ==> rewards[m] == Earned(credits, m)
    ensures TotalRewards(members, rewards) == EarnedBy(members, credits)
  {
    if members != [] {
      TotalIsEarnedBy(members[..|members| - 1], rewards, credits);
    }
  }

  /** The reward total: if each member's reward row holds what the ledger
      credited that member, and every credit went to a current member, the
      rewards of all members add up to the points of all credits. */
  lemma RewardTotal(members: seq<Member>, rewards: map<int, int>, credits: seq<Credit>)
    requires Ascending(MemberIds(members))
    requires forall m :: m in rewards <==> m in MemberIds(members)
    requires forall m :: m in rewards ==> rewards[m] == Earned(credits, m)
    requires forall k :: 0 <= k < |credits| ==> credits[k].member in MemberIds(members)
    ensures TotalRewards(members, rewards) == SumPoints(credits)
  {
    assert forall k :: 0 <= k < |members| ==> members[k].id == MemberIds(members)[k];
    TotalIsEarnedBy(members, rewards, credits);
    EarnedByAll(members, credits);
  }

  /** `members JOIN rewards ON member_id`, in member order. */
  function Joined(members: seq<Member>, rewards: map<int, int>): (r: seq<Standing>)
    ensures forall s :: s in r ==> s.memberId in rewards && s.points == rewards[s.memberId]
                                   && Member(s.memberId, s.name) in members
    ensures forall m :: m in members && m.id in rewards ==> Standing(m.id, m.name, rewards[m.id]) in r
  {
    if members == [] then []
    else
      var last := members[|members| - 1];
      var init := Joined(members[..|members| - 1], rewards);
      assert members == members[..|members| - 1] + [last];
      if last.id in rewards then init + [Standing(last.id, last.name, rewards[last.id])] else init
  }

  /** When every member has a reward row the join has one line per member. */
  lemma {:induction false} JoinedLength(members: seq<Member>, rewards: map<int, int>)
    requires forall k :: 0 <= k < |members| ==> members[k].id in rewards
    ensures |Joined(members, rewards)| == |members|
  {
    if members != [] {
      JoinedLength(members[..|members| - 1], rewards);
    }
  }

  ghost predicate NonIncreasing(s: seq<Standing>) {
    forall i, j :: 0 <= i < j < |s| ==> s[i].points >= s[j].points
  }

  /** A line no lower than every line of a sorted list may go in front of it. */
  lemma PrependKeepsOrder(y: Standing, s: seq<Standing>)
    requires NonIncreasing(s)
    requires forall e :: e in s ==> e.points <= y.points
    ensures NonIncreasing([y] + s)
  {
    var r := [y] + s;
    forall i, j | 0 <= i < j < |r| ensures r[i].points >= r[j].points {
      if i == 0 {
        assert r[j] in s;
      } else {
        assert r[i] == s[i - 1] && r[j] == s[j - 1];
      }
    }
  }

  function InsertByPoints(x: Standing, s: seq<Standing>): (r: seq<Standing>)
    requires NonIncreasing(s)
    ensures |r| == |s| + 1
    ensures forall e :: e in r ==> e == x || e in s
    ensures NonIncreasing(r)
    ensures multiset(r) == multiset(s) + multiset{x}
  {
    if s == [] then [x]
    else if x.points >= s[0].points then
      PrependKeepsOrder(x, s);
      [x] + s
    else
      assert s == [s[0]] + s[1..];
      assert NonIncreasing(s[1..]);
      var rest := InsertByPoints(x, s[1..]);
      PrependKeepsOrder(s[0], rest);
      [s[0]] + rest
  }

  /** `ORDER BY points DESC`: the same lines, highest points first. */
  function SortByPoints(s: seq<Standing>): (r: seq<Standing>)
    ensures NonIncreasing(r)
    ensures multiset(r) == multiset(s)
    ensures |r| == |s|
  {
    if s == [] then []
    else
      assert s == s[..|s| - 1] + [s[|s| - 1]];
      InsertByPoints(s[|s| - 1], SortByPoints(s[..|s| - 1]))
  }

  /** `SELECT ... FROM members JOIN rewards ... ORDER BY points DESC`: the
      joined lines, highest points first. */
  function Leaderboard(members: seq<Member>, rewards: map<int, int>): (r: seq<Standing>)
    ensures NonIncreasing(r)
    ensures multiset(r) == multiset(Joined(members, rewards))
    ensures |r| == |Joined(members, rewards)|
    ensures forall s :: s in r <==> s in Joined(members, rewards)
  {
    var joined := Joined(members, rewards);
    var r := SortByPoints(joined);
    assert forall s :: s in r <==> s in multiset(r);
    assert forall s :: s in joined <==> s in multiset(joined);
    r
  }
}
