/**
 * `GroupRepository`: the layer between the screens and the three group DAOs.
 * Adding a member first counts the existing rows for the pair; inserts that
 * break a foreign key are caught and reported as `false`. The queries are
 * snapshots of the tables.
 */
module GroupRepository {
  import opened Tables
  import opened Users
  import opened Groups
  import opened GroupMembers
  import opened GroupMessages
  import opened AppDatabase
  import GroupDao

  class GroupRepository {
    const database: Store

    constructor (database: Store)
      ensures this.database == database
    {
      this.database := database;
    }

    /** `createGroup`: one new group with the given fields under a fresh id, which it returns; nothing else changes. */
    method CreateGroup(name: string, description: string, createdBy: int, now: Long) returns (id: int)
      requires database.Valid()
      modifies database
      ensures database.Valid()
      ensures id == old(database.lastGroupId) + 1 && id == database.lastGroupId
      ensures id !in Groups.Ids(old(database.groups))
      ensures database.groups == old(database.groups) + [Group(id, name, description, now, createdBy)]
      ensures database.users == old(database.users) && database.members == old(database.members)
      ensures database.messages == old(database.messages)
      ensures database.lastUserId == old(database.lastUserId) && database.lastMemberId == old(database.lastMemberId)
      ensures database.lastMessageId == old(database.lastMessageId)
    {
      var r := database.InsertGroup(NewGroup(name, createdBy, now, description));
      id := r.value;
    }

    /** `getAllGroups`: every group, as often as stored, by name. */
    function GetAllGroups(): (r: seq<Group>)
      reads database
      ensures multiset(r) == multiset(database.groups)
      ensures SortedBy(r, GroupDao.GroupNameOrder)
    {
      GroupDao.GetAllGroups(database.groups)
    }

    /** `getUserGroups`: the groups the user has a membership in, by name. */
    function GetUserGroups(userId: int): (r: seq<Group>)
      reads database
      ensures forall g :: g in r <==>
        g in database.groups && exists m :: m in database.members && m.userId == userId && m.groupId == g.id
      ensures multiset(r) == multiset(GroupDao.UserGroupRows(database.groups, database.members, userId))
      ensures SortedBy(r, GroupDao.GroupNameOrder)
    {
      GroupDao.GetUserGroups(database.groups, database.members, userId)
    }

    /**
     * `addMemberToGroup`: refused when a membership row for the pair exists,
     * and when the group or the user does not exist (the foreign key makes the
     * insert throw, and the exception is caught). Otherwise one row for the
     * pair is added, and the table then holds exactly one.
     */
    method AddMemberToGroup(groupId: int, userId: int, now: Long) returns (ok: bool)
      requires database.Valid()
      modifies database
      ensures database.Valid()
      ensures ok <==>
        && GroupDao.IsUserInGroup(old(database.members), groupId, userId) == 0
        && groupId in Groups.Ids(database.groups) && userId in Users.Ids(database.users)
      ensures ok ==>
        && database.lastMemberId == old(database.lastMemberId) + 1
        && database.members == old(database.members) + [GroupMember(database.lastMemberId, groupId, userId, now)]
        && GroupDao.IsUserInGroup(database.members, groupId, userId) == 1
      ensures !ok ==> database.members == old(database.members) && database.lastMemberId == old(database.lastMemberId)
      ensures UniquePairs(old(database.members)) ==> UniquePairs(database.members)
      ensures database.users == old(database.users) && database.groups == old(database.groups)
      ensures database.messages == old(database.messages)
      ensures database.lastUserId == old(database.lastUserId) && database.lastGroupId == old(database.lastGroupId)
      ensures database.lastMessageId == old(database.lastMessageId)
    {
      if GroupDao.IsUserInGroup(database.members, groupId, userId) == 0 {
        var m := NewGroupMember(groupId, userId, now);
        ghost var before := database.members;
        ok := database.InsertGroupMember(m);
        if ok {
          var row := m.(id := AssignedId(0, old(database.lastMemberId)));
          GroupDao.IsUserInGroupAppend(before, row);
          if UniquePairs(before) {
            AppendKeepsDistinct(before, row, PairOf);
          }
        }
      } else {
        ok := false;
      }
    }

    /** `removeMemberFromGroup`: every row for the pair goes, so the user is no longer in the group; no other row changes. */
    method RemoveMemberFromGroup(groupId: int, userId: int) returns (ok: bool)
      requires database.Valid()
      modifies database
      ensures database.Valid()
      ensures ok
      ensures GroupDao.IsUserInGroup(database.members, groupId, userId) == 0
      ensures forall m: GroupMember :: !(m.groupId == groupId && m.userId == userId) ==>
        multiset(database.members)[m] == multiset(old(database.members))[m]
      ensures database.users == old(database.users) && database.groups == old(database.groups)
      ensures database.messages == old(database.messages)
      ensures database.lastUserId == old(database.lastUserId) && database.lastGroupId == old(database.lastGroupId)
      ensures database.lastMemberId == old(database.lastMemberId) && database.lastMessageId == old(database.lastMessageId)
    {
      database.RemoveGroupMember(groupId, userId);
      ok := true;
    }

    /** `getGroupMembers`: the users with a membership in the group, by name. */
    function GetGroupMembers(groupId: int): (r: seq<User>)
      reads database
      ensures forall u :: u in r <==>
        u in database.users && exists m :: m in database.members && m.groupId == groupId && m.userId == u.id
      ensures multiset(r) == multiset(GroupDao.MemberRows(database.users, database.members, groupId))
      ensures SortedBy(r, GroupDao.UserNameOrder)
    {
      GroupDao.GetGroupMembers(database.users, database.members, groupId)
    }

    /** `getGroupMembersList`: the same rows, in the same order, as a snapshot of `getGroupMembers`. */
    method GetGroupMembersList(groupId: int) returns (r: seq<User>)
      ensures r == GetGroupMembers(groupId)
      ensures forall u :: u in r <==>
        u in database.users && exists m :: m in database.members && m.groupId == groupId && m.userId == u.id
    {
      r := GroupDao.GetGroupMembers(database.users, database.members, groupId);
    }

    /**
     * `sendGroupMessage`: one unread message from the sender to the group,
     * stamped `now`, under a fresh id; refused when the group or the sender
     * does not exist.
     */
    method SendGroupMessage(groupId: int, senderId: int, content: string, now: Long) returns (ok: bool)
      requires database.Valid()
      modifies database
      ensures database.Valid()
      ensures ok <==> groupId in Groups.Ids(database.groups) && senderId in Users.Ids(database.users)
      ensures ok ==>
        && database.lastMessageId == old(database.lastMessageId) + 1
        && database.lastMessageId !in GroupMessages.Ids(old(database.messages))
        && database.messages == old(database.messages) + [GroupMessage(database.lastMessageId, groupId, senderId, content, now, false)]
      ensures !ok ==> database.messages == old(database.messages) && database.lastMessageId == old(database.lastMessageId)
      ensures database.users == old(database.users) && database.groups == old(database.groups)
      ensures database.members == old(database.members)
      ensures database.lastUserId == old(database.lastUserId) && database.lastGroupId == old(database.lastGroupId)
      ensures database.lastMemberId == old(database.lastMemberId)
    {
      ok := database.InsertGroupMessage(NewGroupMessage(groupId, senderId, content, now));
    }

    /** `getGroupMessages`: the group's messages whose sender exists, each with the sender's name and email, oldest first. */
    function GetGroupMessages(groupId: int): (r: seq<GroupDao.GroupMessageWithSender>)
      reads database
      ensures forall w :: w in r <==>
        exists m, u :: m in database.messages && m.groupId == groupId && u in database.users && u.id == m.senderId
                       && w == GroupDao.WithSender(m, u)
      ensures multiset(r) == multiset(GroupDao.MessageRows(database.messages, database.users, groupId))
      ensures SortedBy(r, GroupDao.OldestFirst)
    {
      GroupDao.GetGroupMessages(database.messages, database.users, groupId)
    }

    /**
     * `deleteGroup`: the group goes, with every membership and message that
     * points at it; rows of other groups stay as they were.
     */
    method DeleteGroup(group: Group) returns (ok: bool)
      requires database.Valid()
      modifies database
      ensures database.Valid()
      ensures ok
      ensures group.id !in Groups.Ids(database.groups)
      ensures forall g :: g in database.groups <==> g in old(database.groups) && g.id != group.id
      ensures forall m: GroupMember :: m.groupId != group.id ==>
        multiset(database.members)[m] == multiset(old(database.members))[m]
      ensures forall m :: m in database.members ==> m.groupId != group.id
      ensures forall m: GroupMessage :: m.groupId != group.id ==>
        multiset(database.messages)[m] == multiset(old(database.messages))[m]
      ensures forall m :: m in database.messages ==> m.groupId != group.id
      ensures database.users == old(database.users)
      ensures database.lastUserId == old(database.lastUserId) && database.lastGroupId == old(database.lastGroupId)
      ensures database.lastMemberId == old(database.lastMemberId) && database.lastMessageId == old(database.lastMessageId)
    {
      database.DeleteGroup(group);
      ok := true;
    }

    /** `isUserInGroup`: whether some membership row links the user to the group. */
    function IsUserInGroup(groupId: int, userId: int): (r: bool)
      reads database
      ensures r <==> exists m :: m in database.members && m.groupId == groupId && m.userId == userId
    {
      GroupDao.IsUserInGroup(database.members, groupId, userId) > 0
    }

    /** `getGroupById`: the group with that id, or none when no group has it. */
    function GetGroupById(groupId: int): (r: Option<Group>)
      reads database
      ensures r.Some? ==> r.value in database.groups && r.value.id == groupId
      ensures r.None? <==> groupId !in Groups.Ids(database.groups)
    {
      GroupDao.GetGroupById(database.groups, groupId)
    }

    /** Two `addMemberToGroup` calls for a new pair: the first succeeds, the second is refused, and one row remains. */
    method AddMemberToGroupTwice(groupId: int, userId: int, now: Long) returns (first: bool, second: bool)
      requires database.Valid()
      requires groupId in Groups.Ids(database.groups) && userId in Users.Ids(database.users)
      requires GroupDao.IsUserInGroup(database.members, groupId, userId) == 0
      modifies database
      ensures database.Valid()
      ensures first && !second
      ensures GroupDao.IsUserInGroup(database.members, groupId, userId) == 1
      ensures database.lastMemberId == old(database.lastMemberId) + 1
      ensures database.members == old(database.members) + [GroupMember(database.lastMemberId, groupId, userId, now)]
      ensures database.users == old(database.users) && database.groups == old(database.groups)
      ensures database.messages == old(database.messages)
      ensures database.lastUserId == old(database.lastUserId) && database.lastGroupId == old(database.lastGroupId)
      ensures database.lastMessageId == old(database.lastMessageId)
    {
      first := AddMemberToGroup(groupId, userId, now);
      second := AddMemberToGroup(groupId, userId, now);
    }
  }
}
