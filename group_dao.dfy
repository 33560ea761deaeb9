/**
 * `GroupDao`, `GroupMemberDao` and `GroupMessageDao`: each query is the SQL of
 * its annotation evaluated on snapshots of the tables it names; each update is
 * the new table the statement leaves. An inner join yields one row per
 * matching pair and drops rows whose partner is missing.
 */
module GroupDao {
  import opened Tables
  import opened Users
  import opened Groups
  import opened GroupMembers
  import opened GroupMessages
  import UserDao

  // ----- GroupDao -----

  /** ORDER BY name ASC on groups. */
  predicate GroupNameOrder(a: Group, b: Group)
  {
    TextLe(a.name, b.name)
  }

  lemma GroupNameOrderIsTotalPreorder()
    ensures TotalPreorder(GroupNameOrder)
  {
    forall a: Group, b: Group ensures GroupNameOrder(a, b) || GroupNameOrder(b, a) {
      TextLeTotal(a.name, b.name);
    }
    forall a: Group, b: Group, c: Group | GroupNameOrder(a, b) && GroupNameOrder(b, c)
      ensures GroupNameOrder(a, c)
    {
      TextLeTransitive(a.name, b.name, c.name);
    }
  }

  /** `SELECT * FROM groups ORDER BY name ASC`: every group, by name. */
  function GetAllGroups(groups: seq<Group>): (r: seq<Group>)
    ensures multiset(r) == multiset(groups)
    ensures SortedBy(r, GroupNameOrder)
  {
    GroupNameOrderIsTotalPreorder();
    SortBySorted(groups, GroupNameOrder);
    SortBy(groups, GroupNameOrder)
  }

  /** Ids are a key, so `getAllGroups` lists each group exactly once. */
  lemma GetAllGroupsOnce(groups: seq<Group>, lastId: int, g: Group)
    requires Groups.PrimaryKey(groups, lastId)
    requires g in groups
    ensures multiset(GetAllGroups(groups))[g] == 1
  {
    KeyedOnce(groups, Groups.IdOf, g);
  }

  predicate GroupHasId(g: Group, id: int)
  {
    g.id == id
  }

  /** `WHERE id = :id` on groups. */
  function GroupIdIs(id: int): Group -> bool
  {
    (g: Group) => GroupHasId(g, id)
  }

  /**
   * The inner join `groups g JOIN group_members gm ON g.id = gm.groupId
   * WHERE gm.userId = :userId`, one row per matching pair, before ORDER BY.
   */
  function UserGroupRows(groups: seq<Group>, members: seq<GroupMember>, userId: int): (r: seq<Group>)
    ensures forall g :: g in r <==> g in groups && exists m :: m in members && m.userId == userId && m.groupId == g.id
  {
    if members == [] then []
    else
      var m := members[0];
      var here := if m.userId == userId then Filter(groups, GroupIdIs(m.groupId)) else [];
      assert forall x :: x in members <==> x == m || x in members[1..];
      here + UserGroupRows(groups, members[1..], userId)
  }

  /** `getUserGroups(userId)`: the groups the user is a member of, by name. */
  function GetUserGroups(groups: seq<Group>, members: seq<GroupMember>, userId: int): (r: seq<Group>)
    ensures forall g :: g in r <==> g in groups && exists m :: m in members && m.userId == userId && m.groupId == g.id
    ensures multiset(r) == multiset(UserGroupRows(groups, members, userId))
    ensures SortedBy(r, GroupNameOrder)
  {
    var rows := UserGroupRows(groups, members, userId);
    GroupNameOrderIsTotalPreorder();
    SortBySorted(rows, GroupNameOrder);
    var r := SortBy(rows, GroupNameOrder);
    assert forall g :: g in r <==> g in rows by {
      forall g ensures g in r <==> g in rows {
        assert g in r <==> g in multiset(r);
      }
    }
    r
  }

  /**
   * Under the primary key, the join yields a stored group once per membership
   * row linking it to the user, and any other group not at all.
   */
  lemma {:induction false} UserGroupRowsCount(groups: seq<Group>, members: seq<GroupMember>, userId: int, g: Group)
    requires Groups.UniqueIds(groups)
    ensures multiset(UserGroupRows(groups, members, userId))[g] == if g in groups then IsUserInGroup(members, g.id, userId) else 0
  {
    if members != [] {
      var m, tail := members[0], members[1..];
      var here := if m.userId == userId then Filter(groups, GroupIdIs(m.groupId)) else [];
      UserGroupRowsCount(groups, tail, userId, g);
      CountCons(members, ThePair(g.id, userId));
      FilterMultiset(groups, GroupIdIs(m.groupId));
      if g in groups {
        KeyedOnce(groups, Groups.IdOf, g);
      }
      assert multiset(here)[g] == if g in groups && IsPair(m, g.id, userId) then 1 else 0;
      assert UserGroupRows(groups, members, userId) == here + UserGroupRows(groups, tail, userId);
    }
  }

  /** Under the primary key, `getUserGroups` lists a stored group once per membership row of the user in it. */
  lemma GetUserGroupsCount(groups: seq<Group>, members: seq<GroupMember>, userId: int, g: Group)
    requires Groups.UniqueIds(groups) && g in groups
    ensures multiset(GetUserGroups(groups, members, userId))[g] == IsUserInGroup(members, g.id, userId)
  {
    UserGroupRowsCount(groups, members, userId, g);
  }

  /** `SELECT * FROM groups WHERE id = :groupId`: the group with that id, or none. */
  function GetGroupById(groups: seq<Group>, groupId: int): (r: Option<Group>)
    ensures r.Some? ==> r.value in groups && r.value.id == groupId
    ensures r.None? <==> groupId !in Groups.Ids(groups)
  {
    First(groups, GroupIdIs(groupId))
  }

  /** The rows a deletion of id `id` leaves. */
  function OtherGroupId(id: int): Group -> bool
  {
    (g: Group) => g.id != id
  }

  /** `@Delete deleteGroup(group)`: `DELETE FROM groups WHERE id = :group.id`. */
  function DeleteById(groups: seq<Group>, id: int): (r: seq<Group>)
    ensures forall g :: g in r <==> g in groups && g.id != id
    ensures forall g: Group :: g.id != id ==> multiset(r)[g] == multiset(groups)[g]
  {
    FilterMultiset(groups, OtherGroupId(id));
    Filter(groups, OtherGroupId(id))
  }

  /** The deleted id is gone and no other; the primary key survives the delete. */
  lemma DeleteByIdKeepsKeys(groups: seq<Group>, id: int, lastId: int)
    ensures Groups.Ids(DeleteById(groups, id)) == Groups.Ids(groups) - {id}
    ensures Groups.PrimaryKey(groups, lastId) ==> Groups.PrimaryKey(DeleteById(groups, id), lastId)
  {
    FilterKeepsDistinct(groups, OtherGroupId(id), Groups.IdOf);
  }

  // ----- GroupMemberDao -----

  predicate IsPair(m: GroupMember, groupId: int, userId: int)
  {
    m.groupId == groupId && m.userId == userId
  }

  /** `WHERE groupId = :groupId AND userId = :userId`. */
  function ThePair(groupId: int, userId: int): GroupMember -> bool
  {
    (m: GroupMember) => IsPair(m, groupId, userId)
  }

  /** The rows a deletion of the pair leaves. */
  function OtherPair(groupId: int, userId: int): GroupMember -> bool
  {
    (m: GroupMember) => !IsPair(m, groupId, userId)
  }

  /** `DELETE FROM group_members WHERE groupId = :groupId AND userId = :userId`. */
  function RemovePair(members: seq<GroupMember>, groupId: int, userId: int): (r: seq<GroupMember>)
    ensures forall m :: m in r <==> m in members && !(m.groupId == groupId && m.userId == userId)
    ensures forall m: GroupMember :: !(m.groupId == groupId && m.userId == userId) ==> multiset(r)[m] == multiset(members)[m]
  {
    FilterMultiset(members, OtherPair(groupId, userId));
    Filter(members, OtherPair(groupId, userId))
  }

  /** Deleting rows keeps the primary key and the one-row-per-pair rule. */
  lemma RemovePairKeepsKeys(members: seq<GroupMember>, groupId: int, userId: int, lastId: int)
    ensures GroupMembers.PrimaryKey(members, lastId) ==> GroupMembers.PrimaryKey(RemovePair(members, groupId, userId), lastId)
    ensures UniquePairs(members) ==> UniquePairs(RemovePair(members, groupId, userId))
  {
    FilterKeepsDistinct(members, OtherPair(groupId, userId), GroupMembers.IdOf);
    FilterKeepsDistinct(members, OtherPair(groupId, userId), PairOf);
  }

  /** `SELECT COUNT(*) FROM group_members WHERE groupId = :groupId AND userId = :userId`. */
  function IsUserInGroup(members: seq<GroupMember>, groupId: int, userId: int): (n: nat)
    ensures n == |set i | 0 <= i < |members| && members[i].groupId == groupId && members[i].userId == userId|
    ensures n == 0 <==> forall m :: m in members ==> !(m.groupId == groupId && m.userId == userId)
  {
    var p := ThePair(groupId, userId);
    CountIsMatchingPositions(members, p);
    assert MatchingPositions(members, p) == set i | 0 <= i < |members| && members[i].groupId == groupId && members[i].userId == userId;
    Count(members, p)
  }

  /** Appending a row for the pair raises the count by one. */
  lemma IsUserInGroupAppend(members: seq<GroupMember>, m: GroupMember)
    ensures IsUserInGroup(members + [m], m.groupId, m.userId) == IsUserInGroup(members, m.groupId, m.userId) + 1
  {
    CountAppend(members, m, ThePair(m.groupId, m.userId));
  }

  /** With unique pairs the count is 0 or 1. */
  lemma IsUserInGroupAtMostOne(members: seq<GroupMember>, groupId: int, userId: int)
    requires UniquePairs(members)
    ensures IsUserInGroup(members, groupId, userId) <= 1
  {
    var hits := set i | 0 <= i < |members| && members[i].groupId == groupId && members[i].userId == userId;
    if hits != {} {
      var i :| i in hits;
      assert hits == {i};
    }
  }

  /** ORDER BY name ASC on users. */
  predicate UserNameOrder(a: User, b: User)
  {
    TextLe(a.name, b.name)
  }

  lemma UserNameOrderIsTotalPreorder()
    ensures TotalPreorder(UserNameOrder)
  {
    forall a: User, b: User ensures UserNameOrder(a, b) || UserNameOrder(b, a) {
      TextLeTotal(a.name, b.name);
    }
    forall a: User, b: User, c: User | UserNameOrder(a, b) && UserNameOrder(b, c)
      ensures UserNameOrder(a, c)
    {
      TextLeTransitive(a.name, b.name, c.name);
    }
  }

  /**
   * The inner join `users u JOIN group_members gm ON u.id = gm.userId
   * WHERE gm.groupId = :groupId`, one row per matching pair, before ORDER BY.
   * A membership whose user is gone contributes no row.
   */
  function MemberRows(users: seq<User>, members: seq<GroupMember>, groupId: int): (r: seq<User>)
    ensures forall u :: u in r <==> u in users && exists m :: m in members && m.groupId == groupId && m.userId == u.id
  {
    if members == [] then []
    else
      var m := members[0];
      var here := if m.groupId == groupId then Filter(users, UserDao.IdIs(m.userId)) else [];
      assert forall x :: x in members <==> x == m || x in members[1..];
      here + MemberRows(users, members[1..], groupId)
  }

  /**
   * `getGroupMembers(groupId)` and `getGroupMembersList(groupId)` (the same
   * SQL): the users holding a membership of the group, by name.
   */
  function GetGroupMembers(users: seq<User>, members: seq<GroupMember>, groupId: int): (r: seq<User>)
    ensures forall u :: u in r <==> u in users && exists m :: m in members && m.groupId == groupId && m.userId == u.id
    ensures multiset(r) == multiset(MemberRows(users, members, groupId))
    ensures SortedBy(r, UserNameOrder)
  {
    var rows := MemberRows(users, members, groupId);
    UserNameOrderIsTotalPreorder();
    SortBySorted(rows, UserNameOrder);
    var r := SortBy(rows, UserNameOrder);
    assert forall u :: u in r <==> u in rows by {
      forall u ensures u in r <==> u in rows {
        assert u in r <==> u in multiset(r);
      }
    }
    r
  }

  /**
   * Under the primary key, the join yields a stored user once per membership
   * row linking it to the group, and any other user not at all.
   */
  lemma {:induction false} MemberRowsCount(users: seq<User>, members: seq<GroupMember>, groupId: int, u: User)
    requires Users.UniqueIds(users)
    ensures multiset(MemberRows(users, members, groupId))[u] == if u in users then IsUserInGroup(members, groupId, u.id) else 0
  {
    if members != [] {
      var m, tail := members[0], members[1..];
      var here := if m.groupId == groupId then Filter(users, UserDao.IdIs(m.userId)) else [];
      MemberRowsCount(users, tail, groupId, u);
      CountCons(members, ThePair(groupId, u.id));
      FilterMultiset(users, UserDao.IdIs(m.userId));
      if u in users {
        KeyedOnce(users, Users.IdOf, u);
      }
      assert multiset(here)[u] == if u in users && IsPair(m, groupId, u.id) then 1 else 0;
      assert MemberRows(users, members, groupId) == here + MemberRows(users, tail, groupId);
    }
  }

  /** Under the primary key, `getGroupMembers` lists a stored user once per membership row of it in the group. */
  lemma GetGroupMembersCount(users: seq<User>, members: seq<GroupMember>, groupId: int, u: User)
    requires Users.UniqueIds(users) && u in users
    ensures multiset(GetGroupMembers(users, members, groupId))[u] == IsUserInGroup(members, groupId, u.id)
  {
    MemberRowsCount(users, members, groupId, u);
  }

  // ----- GroupMessageDao -----

  /** `GroupMessageWithSender`: a message row with the sender's name and email. */
  datatype GroupMessageWithSender = GroupMessageWithSender(
    id: int, groupId: int, senderId: int, content: string, timestamp: Long, isRead: bool,
    senderName: string, senderEmail: string)

  /** `SELECT gm.*, u.name as senderName, u.email as senderEmail` for one joined pair. */
  function WithSender(m: GroupMessage, u: User): GroupMessageWithSender
  {
    GroupMessageWithSender(m.id, m.groupId, m.senderId, m.content, m.timestamp, m.isRead, u.name, u.email)
  }

  /** The join rows of one message: one per user whose id is the sender id. */
  function SenderRows(m: GroupMessage, users: seq<User>): (r: seq<GroupMessageWithSender>)
    ensures forall w :: w in r <==> exists u :: u in users && u.id == m.senderId && w == WithSender(m, u)
  {
    if users == [] then []
    else
      assert forall x :: x in users <==> x == users[0] || x in users[1..];
      (if users[0].id == m.senderId then [WithSender(m, users[0])] else []) + SenderRows(m, users[1..])
  }

  /** One joined row per stored user whose id is the sender id. */
  lemma {:induction false} SenderRowsCount(m: GroupMessage, users: seq<User>)
    ensures |SenderRows(m, users)| == Count(users, UserDao.IdIs(m.senderId))
  {
    if users != [] {
      SenderRowsCount(m, users[1..]);
      CountCons(users, UserDao.IdIs(m.senderId));
    }
  }

  /** Under the users' primary key, a message whose sender is stored joins to exactly one row. */
  lemma {:induction false} SenderRowsOne(m: GroupMessage, users: seq<User>, u: User)
    requires Users.UniqueIds(users) && u in users && u.id == m.senderId
    ensures SenderRows(m, users) == [WithSender(m, u)]
  {
    DistinctKeysTail(users, Users.IdOf);
    var tail := users[1..];
    if users[0].id == m.senderId {
      assert users == [users[0]] + tail;
      assert users[0] == u;
      SenderRowsCount(m, tail);
      assert Count(tail, UserDao.IdIs(m.senderId)) == 0;
    } else {
      assert u in tail;
      SenderRowsOne(m, tail, u);
    }
  }

  /**
   * The inner join `group_messages gm JOIN users u ON gm.senderId = u.id
   * WHERE gm.groupId = :groupId`, before ORDER BY: a message whose sender is
   * gone contributes no row.
   */
  function MessageRows(messages: seq<GroupMessage>, users: seq<User>, groupId: int): (r: seq<GroupMessageWithSender>)
    ensures forall w :: w in r <==>
      exists m, u :: m in messages && m.groupId == groupId && u in users && u.id == m.senderId && w == WithSender(m, u)
  {
    if messages == [] then []
    else
      var m := messages[0];
      assert forall x :: x in messages <==> x == m || x in messages[1..];
      (if m.groupId == groupId then SenderRows(m, users) else []) + MessageRows(messages[1..], users, groupId)
  }

  /**
   * Under both primary keys, each message of the group whose sender is stored
   * yields exactly one joined row.
   */
  lemma {:induction false} MessageRowsOnce(messages: seq<GroupMessage>, users: seq<User>, groupId: int, m: GroupMessage, u: User)
    requires GroupMessages.UniqueIds(messages) && Users.UniqueIds(users)
    requires m in messages && m.groupId == groupId && u in users && u.id == m.senderId
    ensures multiset(MessageRows(messages, users, groupId))[WithSender(m, u)] == 1
  {
    var h, tail := messages[0], messages[1..];
    var w := WithSender(m, u);
    var here := if h.groupId == groupId then SenderRows(h, users) else [];
    DistinctKeysTail(messages, GroupMessages.IdOf);
    assert MessageRows(messages, users, groupId) == here + MessageRows(tail, users, groupId);
    if h == m {
      SenderRowsOne(m, users, u);
      assert w !in MessageRows(tail, users, groupId);
    } else {
      assert m in tail;
      assert w !in here;
      MessageRowsOnce(tail, users, groupId, m, u);
    }
  }

  /** ORDER BY timestamp ASC on joined messages. */
  predicate OldestFirst(a: GroupMessageWithSender, b: GroupMessageWithSender)
  {
    a.timestamp <= b.timestamp
  }

  lemma OldestFirstIsTotalPreorder()
    ensures TotalPreorder(OldestFirst)
  {
  }

  /**
   * `getGroupMessages(groupId)`: the group's messages whose sender exists,
   * each with that sender's name and email, oldest first.
   */
  function GetGroupMessages(messages: seq<GroupMessage>, users: seq<User>, groupId: int): (r: seq<GroupMessageWithSender>)
    ensures forall w :: w in r <==>
      exists m, u :: m in messages && m.groupId == groupId && u in users && u.id == m.senderId && w == WithSender(m, u)
    ensures multiset(r) == multiset(MessageRows(messages, users, groupId))
    ensures SortedBy(r, OldestFirst)
  {
    var rows := MessageRows(messages, users, groupId);
    OldestFirstIsTotalPreorder();
    SortBySorted(rows, OldestFirst);
    var r := SortBy(rows, OldestFirst);
    assert forall w :: w in r <==> w in rows by {
      forall w ensures w in r <==> w in rows {
        assert w in r <==> w in multiset(r);
      }
    }
    r
  }

  /** Under both primary keys, `getGroupMessages` lists each group message whose sender is stored exactly once. */
  lemma GetGroupMessagesOnce(messages: seq<GroupMessage>, users: seq<User>, groupId: int, m: GroupMessage, u: User)
    requires GroupMessages.UniqueIds(messages) && Users.UniqueIds(users)
    requires m in messages && m.groupId == groupId && u in users && u.id == m.senderId
    ensures multiset(GetGroupMessages(messages, users, groupId))[WithSender(m, u)] == 1
  {
    MessageRowsOnce(messages, users, groupId, m, u);
  }

  /**
   * `UPDATE group_messages SET isRead = 1 WHERE groupId = :groupId`: every
   * message of the group is read; every other field and message stays.
   */
  function MarkRead(messages: seq<GroupMessage>, groupId: int): (r: seq<GroupMessage>)
    ensures |r| == |messages|
    ensures forall i :: 0 <= i < |r| ==> r[i].(isRead := messages[i].isRead) == messages[i]
    ensures forall i :: 0 <= i < |r| ==> r[i].isRead == (messages[i].isRead || messages[i].groupId == groupId)
  {
    seq(|messages|, i requires 0 <= i < |messages| =>
      if messages[i].groupId == groupId then messages[i].(isRead := true) else messages[i])
  }

  /** Marking a group's messages read a second time changes nothing. */
  lemma MarkReadIdempotent(messages: seq<GroupMessage>, groupId: int)
    ensures MarkRead(MarkRead(messages, groupId), groupId) == MarkRead(messages, groupId)
  {
    var once := MarkRead(messages, groupId);
    var twice := MarkRead(once, groupId);
    forall i | 0 <= i < |once| ensures twice[i] == once[i] {
    }
  }

  /** The UPDATE touches no key column: row by row, ids, groups and senders are unchanged. */
  lemma MarkReadKeepsKeys(messages: seq<GroupMessage>, groupId: int, groupIds: set<int>, userIds: set<int>, lastId: int)
    ensures GroupMessages.Ids(MarkRead(messages, groupId)) == GroupMessages.Ids(messages)
    ensures GroupMessages.PrimaryKey(messages, lastId) ==> GroupMessages.PrimaryKey(MarkRead(messages, groupId), lastId)
    ensures GroupMessages.References(messages, groupIds, userIds) ==> GroupMessages.References(MarkRead(messages, groupId), groupIds, userIds)
  {
    var r := MarkRead(messages, groupId);
    forall x | x in r
      ensures exists y :: y in messages && x.id == y.id && x.groupId == y.groupId && x.senderId == y.senderId
    {
      var i :| 0 <= i < |r| && r[i] == x;
      assert messages[i] in messages;
    }
    forall y | y in messages
      ensures exists x :: x in r && x.id == y.id
    {
      var i :| 0 <= i < |messages| && messages[i] == y;
      assert r[i] in r;
    }
  }
}
